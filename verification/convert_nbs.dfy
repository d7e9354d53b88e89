/**
 The batch HTML conversion: make sure the output folder exists, then hand
 every notebook of the input folder to the external converter together with
 the name of the HTML file it should write.
 */
module ConvertNbs {
  import opened Strings
  import opened BatchWalker

  /** The extension the converter's output files get. */
  const HtmlSuffix: string := ".html"

  /**
   The output file name for a notebook: every occurrence of ".ipynb" in the
   name replaced by ".html" (`str.replace`, not a suffix swap).
   */
  function HtmlName(name: string): string {
    ReplaceAll(name, NotebookSuffix, HtmlSuffix)
  }

  /** ".ipynb" cannot overlap itself: its '.' occurs only at the front. */
  lemma NotebookSuffixBorderFree()
    ensures BorderFree(NotebookSuffix)
  {
    forall j | 0 < j < |NotebookSuffix|
      ensures NotebookSuffix[j..] != NotebookSuffix[..|NotebookSuffix| - j]
    {
      assert NotebookSuffix[j..][0] != NotebookSuffix[..|NotebookSuffix| - j][0];
    }
  }

  /** Every selected name gets an output name ending in ".html". */
  lemma HtmlNameEndsWithHtml(name: string)
    requires EndsWith(name, NotebookSuffix)
    ensures EndsWith(HtmlName(name), HtmlSuffix)
  {
    var stem := name[..|name| - |NotebookSuffix|];
    assert name == stem + NotebookSuffix;
    NotebookSuffixBorderFree();
    ReplaceAllTrailingPattern(stem, NotebookSuffix, HtmlSuffix);
    var out := ReplaceAll(stem, NotebookSuffix, HtmlSuffix) + HtmlSuffix;
    assert out[|out| - |HtmlSuffix|..] == HtmlSuffix;
  }

  /**
   For the usual name `stem + ".ipynb"`, where the stem has no ".ipynb" of
   its own, the output name is `stem + ".html"`.
   */
  lemma HtmlNameOfPlainStem(stem: string)
    requires !Contains(stem, NotebookSuffix)
    ensures HtmlName(stem + NotebookSuffix) == stem + HtmlSuffix
  {
    NotebookSuffixBorderFree();
    ReplaceAllFirstOccurrence(stem, NotebookSuffix, HtmlSuffix, "");
    assert stem + NotebookSuffix + "" == stem + NotebookSuffix;
    assert ReplaceAll("", NotebookSuffix, HtmlSuffix) == "";
  }

  /**
   Replace-all rather than suffix swap: in `stem.ipynb` followed by
   `middle.ipynb` both occurrences are rewritten, so for example
   "x.ipynb_old.ipynb" becomes "x.html_old.html".
   */
  lemma HtmlNameReplacesEveryOccurrence(stem: string, middle: string)
    requires !Contains(stem, NotebookSuffix) && !Contains(middle, NotebookSuffix)
    ensures HtmlName(stem + NotebookSuffix + middle + NotebookSuffix) == stem + HtmlSuffix + middle + HtmlSuffix
  {
    NotebookSuffixBorderFree();
    ReplaceAllFirstOccurrence(stem, NotebookSuffix, HtmlSuffix, middle + NotebookSuffix);
    assert stem + NotebookSuffix + middle + NotebookSuffix == stem + NotebookSuffix + (middle + NotebookSuffix);
    HtmlNameOfPlainStem(middle);
  }

  /** The name from the example above, worked through. */
  lemma HtmlNameExample()
    ensures HtmlName("x.ipynb_old.ipynb") == "x.html_old.html"
  {
    HtmlNameReplacesEveryOccurrence("x", "_old");
    assert "x" + NotebookSuffix + "_old" + NotebookSuffix == "x.ipynb_old.ipynb";
    assert "x" + HtmlSuffix + "_old" + HtmlSuffix == "x.html_old.html";
  }

  /**
   ".ipynb" and ".html" are both at least two characters long, both start
   with '.', which neither repeats, and differ at their second character.
   */
  lemma NotebookSuffixMarkerLed()
    ensures MarkerLed(NotebookSuffix, HtmlSuffix)
  {
  }

  /** No ".ipynb" survives in an output name: every occurrence was replaced. */
  lemma HtmlNameHasNoNotebookSuffix(name: string)
    ensures !Contains(HtmlName(name), NotebookSuffix)
  {
    NotebookSuffixMarkerLed();
    ReplaceAllRemovesEveryOccurrence(name, NotebookSuffix, HtmlSuffix);
  }

  /** The conversion of one notebook entry of the input folder. */
  function ConvertOne(inputFolder: string, outputFolder: string, name: string): Action {
    ConvertToHtml(Join(inputFolder, name), Join(outputFolder, HtmlName(name)))
  }

  /**
   The actions of one conversion run: create the output folder first when it
   does not exist, then one conversion per notebook entry of the listing, in
   listing order.
   */
  function ConvertTrace(inputFolder: string, outputFolder: string, outputExists: bool,
                        listing: seq<string>): (t: seq<Action>)
    ensures var skip := if outputExists then 0 else 1;
      && |t| == skip + |SelectNotebooks(listing)|
      && (forall i :: 0 <= i < |t| ==> (t[i].MakeDir? <==> i < skip))
      && (!outputExists ==> t[0] == MakeDir(outputFolder))
      && t[skip..] == ConvertEach(inputFolder, outputFolder, SelectNotebooks(listing))
  {
    var conversions := ConvertEach(inputFolder, outputFolder, SelectNotebooks(listing));
    if outputExists then conversions else [MakeDir(outputFolder)] + conversions
  }

  /** One conversion per name, in order. */
  function ConvertEach(inputFolder: string, outputFolder: string, names: seq<string>): (t: seq<Action>)
    ensures |t| == |names|
    ensures forall i :: 0 <= i < |t| ==> t[i].ConvertToHtml?
    ensures forall k :: 0 <= k < |names| ==> t[k] == ConvertOne(inputFolder, outputFolder, names[k])
  {
    if names == [] then []
    else [ConvertOne(inputFolder, outputFolder, names[0])] + ConvertEach(inputFolder, outputFolder, names[1..])
  }

  /**
   The output folder is created exactly when it was missing, and then as the
   very first action, before any conversion; every other action is a
   conversion.
   */
  lemma ConvertTraceCreatesFolderFirst(inputFolder: string, outputFolder: string, outputExists: bool,
                                       listing: seq<string>)
    ensures var t := ConvertTrace(inputFolder, outputFolder, outputExists, listing);
      && (MakeDir(outputFolder) in t <==> !outputExists)
      && (forall i :: 0 <= i < |t| && t[i].MakeDir? ==> i == 0 && t[i] == MakeDir(outputFolder))
      && (forall i :: 0 <= i < |t| && !t[i].MakeDir? ==> t[i].ConvertToHtml?)
  {
  }

  /**
   The run converts exactly one file per listing entry ending in ".ipynb", in
   listing order, and input and output are derived from the same entry.
   */
  lemma ConvertTraceFollowsListing(inputFolder: string, outputFolder: string, outputExists: bool,
                                   listing: seq<string>)
    ensures var t, ps := ConvertTrace(inputFolder, outputFolder, outputExists, listing), NotebookPositions(listing);
      var skip := if outputExists then 0 else 1;
      && |t| == skip + |ps|
      && (forall k :: 0 <= k < |ps| ==> t[skip + k] == ConvertOne(inputFolder, outputFolder, listing[ps[k]]))
  {
    SelectionFollowsPositions(listing);
  }

  /** Every conversion of a run is given an output path ending in ".html". */
  lemma ConvertOutputsAreHtml(inputFolder: string, outputFolder: string, outputExists: bool,
                              listing: seq<string>)
    ensures var t := ConvertTrace(inputFolder, outputFolder, outputExists, listing);
      forall i :: 0 <= i < |t| && t[i].ConvertToHtml? ==> EndsWith(t[i].output, HtmlSuffix)
  {
    var t := ConvertTrace(inputFolder, outputFolder, outputExists, listing);
    var names := SelectNotebooks(listing);
    var skip := if outputExists then 0 else 1;
    forall i | 0 <= i < |t| && t[i].ConvertToHtml?
      ensures EndsWith(t[i].output, HtmlSuffix)
    {
      var name := names[i - skip];
      assert t[i] == t[skip..][i - skip] == ConvertOne(inputFolder, outputFolder, name);
      HtmlNameEndsWithHtml(name);
      JoinShape(outputFolder, HtmlName(name));
      EndsWithTransitive(t[i].output, HtmlName(name), HtmlSuffix);
    }
  }
}
