/**
 The directory walk shared by both scripts: pick the notebook files out of a
 directory listing and join each name onto its folder. The listing itself is
 an input (the order the operating system returns it in); the per-file work
 is described as a sequence of abstract actions, not performed.
 */
module BatchWalker {
  import opened Strings

  /** The extension that marks a notebook file. */
  const NotebookSuffix: string := ".ipynb"

  /** One file-system or external-process effect a script performs. */
  datatype Action =
    | MakeDir(dir: string)                       // create a missing directory
    | CleanFile(path: string)                    // normalise the notebook at `path` in place
    | ConvertToHtml(input: string, output: string) // run the external HTML converter

  /**
   POSIX path joining of two components: an absolute second component
   replaces the first; otherwise exactly one '/' separates them unless the
   first is empty or already ends in '/'.
   */
  function Join(dir: string, name: string): string {
    if |name| > 0 && name[0] == '/' then name
    else if dir == "" || EndsWith(dir, "/") then dir + name
    else dir + "/" + name
  }

  /**
   A joined path ends with the file name. An absolute name is the whole path;
   otherwise the folder comes first, followed by at most one added '/'.
   */
  lemma JoinShape(dir: string, name: string)
    ensures var p := Join(dir, name);
      && EndsWith(p, name)
      && (|name| > 0 && name[0] == '/' ==> p == name)
      && ((|name| == 0 || name[0] != '/') ==> p[..|p| - |name|] == dir || p[..|p| - |name|] == dir + "/")
  {
    var p := Join(dir, name);
    if |name| == 0 || name[0] != '/' {
      if dir == "" || EndsWith(dir, "/") {
        assert p == dir + name;
      } else {
        assert p == (dir + "/") + name;
      }
    }
  }

  /**
   The entries of `listing` that end with ".ipynb", in listing order
   (the list comprehension over the directory listing).
   */
  function SelectNotebooks(listing: seq<string>): (r: seq<string>)
    ensures |r| <= |listing|
    ensures forall k :: 0 <= k < |r| ==> EndsWith(r[k], NotebookSuffix)
    ensures forall x :: x in r <==> x in listing && EndsWith(x, NotebookSuffix)
    decreases |listing|
  {
    if listing == [] then []
    else
      var init := listing[..|listing| - 1];
      var last := listing[|listing| - 1];
      assert listing == init + [last];
      SelectNotebooks(init) + (if EndsWith(last, NotebookSuffix) then [last] else [])
  }

  /**
   The indices of the notebook entries of `listing`: strictly increasing, and
   containing exactly the indices whose entry ends with ".ipynb".
   */
  function NotebookPositions(listing: seq<string>): (ps: seq<nat>)
    ensures forall k :: 0 <= k < |ps| ==> ps[k] < |listing| && EndsWith(listing[ps[k]], NotebookSuffix)
    ensures forall k, l :: 0 <= k < l < |ps| ==> ps[k] < ps[l]
    ensures forall i :: 0 <= i < |listing| && EndsWith(listing[i], NotebookSuffix) ==> i in ps
    decreases |listing|
  {
    if listing == [] then []
    else
      var n := |listing| - 1;
      var ps := NotebookPositions(listing[..n]);
      ps + (if EndsWith(listing[n], NotebookSuffix) then [n] else [])
  }

  /**
   The selected names are the listing entries at the notebook positions, one
   for one and in the same order: nothing is dropped, duplicated or reordered.
   */
  lemma {:induction false} SelectionFollowsPositions(listing: seq<string>)
    ensures |SelectNotebooks(listing)| == |NotebookPositions(listing)|
    ensures forall k :: 0 <= k < |SelectNotebooks(listing)| ==>
              SelectNotebooks(listing)[k] == listing[NotebookPositions(listing)[k]]
    decreases |listing|
  {
    if listing != [] {
      var n := |listing| - 1;
      var init := listing[..n];
      SelectionFollowsPositions(init);
      var r, ps := SelectNotebooks(listing), NotebookPositions(listing);
      forall k | 0 <= k < |r|
        ensures r[k] == listing[ps[k]]
      {
        if k < |SelectNotebooks(init)| {
          assert r[k] == SelectNotebooks(init)[k];
          assert ps[k] == NotebookPositions(init)[k];
          assert init[ps[k]] == listing[ps[k]];
        }
      }
    }
  }

  /** Selecting from a concatenated listing selects from each part in turn. */
  lemma {:induction false} SelectDistributes(a: seq<string>, b: seq<string>)
    ensures SelectNotebooks(a + b) == SelectNotebooks(a) + SelectNotebooks(b)
    decreases |b|
  {
    if b == [] {
      assert a + b == a;
    } else {
      var n := |b| - 1;
      assert (a + b)[..|a + b| - 1] == a + b[..n];
      SelectDistributes(a, b[..n]);
    }
  }

  /** Selection is idempotent: a selected listing holds only notebooks. */
  lemma {:induction false} SelectIdempotent(listing: seq<string>)
    ensures SelectNotebooks(SelectNotebooks(listing)) == SelectNotebooks(listing)
    decreases |listing|
  {
    if listing != [] {
      var n := |listing| - 1;
      var last := listing[n];
      SelectIdempotent(listing[..n]);
      var tail := if EndsWith(last, NotebookSuffix) then [last] else [];
      SelectDistributes(SelectNotebooks(listing[..n]), tail);
      if tail != [] {
        assert [] + tail == tail;
        assert SelectNotebooks(tail) == SelectNotebooks(tail[..0]) + tail;
      }
    }
  }
}
