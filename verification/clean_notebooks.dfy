/**
 The notebook normaliser: strips execution results and editor metadata so
 that a notebook can be kept under version control, and the walk that applies
 it to every notebook of a folder.
 */
module CleanNotebooks {
  import opened NotebookFormat
  import opened BatchWalker

  /** The two document-level metadata keys that survive cleaning. */
  const KernelspecKey: string := "kernelspec"
  const LanguageInfoKey: string := "language_info"
  const KeptKeys: set<string> := {KernelspecKey, LanguageInfoKey}

  /** Python's `metadata.get(key, {})`. */
  function GetOrEmpty(m: Metadata, key: string): Json {
    if key in m then m[key] else EmptyObject
  }

  // ---------------------------------------------------------------------------
  // What a clean notebook is, and what cleaning must keep

  /** A cell that has been normalised. */
  predicate IsCleanCell(c: Cell) {
    && c.metadata == map[]
    && (IsCode(c) ==> c.outputs == [] && c.executionCount == None)
  }

  /** A notebook that has been normalised. */
  predicate IsClean(nb: Notebook) {
    && nb.metadata.Keys == KeptKeys
    && forall i :: 0 <= i < |nb.cells| ==> IsCleanCell(nb.cells[i])
  }

  /**
   Two cells hold the same content: they may differ only in their metadata
   and, for code cells, in their outputs and execution count.
   */
  predicate SameCellContent(c: Cell, d: Cell) {
    && c.cellType == d.cellType
    && c.source == d.source
    && c.otherFields == d.otherFields
    && (!IsCode(c) ==> c.outputs == d.outputs && c.executionCount == d.executionCount)
  }

  /**
   Two notebooks hold the same content: the same cells in the same order up
   to `SameCellContent`, the same format version, and the same kernel
   specification and language info, where a missing entry counts as `{}`.
   */
  predicate SameContent(a: Notebook, b: Notebook) {
    && |a.cells| == |b.cells|
    && (forall i :: 0 <= i < |a.cells| ==> SameCellContent(a.cells[i], b.cells[i]))
    && a.nbformat == b.nbformat
    && a.nbformatMinor == b.nbformatMinor
    && GetOrEmpty(a.metadata, KernelspecKey) == GetOrEmpty(b.metadata, KernelspecKey)
    && GetOrEmpty(a.metadata, LanguageInfoKey) == GetOrEmpty(b.metadata, LanguageInfoKey)
  }

  // ---------------------------------------------------------------------------
  // The transform

  /** The per-cell step of the cleaning loop. */
  function CleanCell(c: Cell): (r: Cell)
    ensures IsCleanCell(r)
    ensures SameCellContent(c, r)
    ensures !IsCode(c) ==> r == c.(metadata := map[])
  {
    var stripped := if IsCode(c) then c.(outputs := [], executionCount := None) else c;
    stripped.(metadata := map[])
  }

  /** The cleaning loop over the cells, in document order. */
  function CleanCells(cells: seq<Cell>): (r: seq<Cell>)
    ensures |r| == |cells|
    ensures forall i :: 0 <= i < |cells| ==> r[i] == CleanCell(cells[i])
  {
    if cells == [] then []
    else [CleanCell(cells[0])] + CleanCells(cells[1..])
  }

  /** The replacement document-level metadata. */
  function CleanMetadata(m: Metadata): (r: Metadata)
    ensures r.Keys == KeptKeys
    ensures forall k :: k in KeptKeys ==> r[k] == (if k in m then m[k] else EmptyObject)
  {
    map[KernelspecKey := GetOrEmpty(m, KernelspecKey),
        LanguageInfoKey := GetOrEmpty(m, LanguageInfoKey)]
  }

  /** Normalise a notebook. */
  function CleanNotebook(nb: Notebook): (r: Notebook)
    ensures IsClean(r)
    ensures SameContent(nb, r)
  {
    nb.(cells := CleanCells(nb.cells), metadata := CleanMetadata(nb.metadata))
  }

  // ---------------------------------------------------------------------------
  // Properties

  /** `SameContent` is an equivalence relation. */
  lemma SameContentReflexive(a: Notebook)
    ensures SameContent(a, a)
  {
  }

  lemma SameContentSymmetric(a: Notebook, b: Notebook)
    requires SameContent(a, b)
    ensures SameContent(b, a)
  {
  }

  lemma SameContentTransitive(a: Notebook, b: Notebook, c: Notebook)
    requires SameContent(a, b) && SameContent(b, c)
    ensures SameContent(a, c)
  {
  }

  /**
   A clean notebook is determined by its content: two clean notebooks with
   the same content are equal.
   */
  lemma CleanIsDeterminedByContent(a: Notebook, b: Notebook)
    requires IsClean(a) && IsClean(b) && SameContent(a, b)
    ensures a == b
  {
    assert a.cells == b.cells by {
      forall i | 0 <= i < |a.cells|
        ensures a.cells[i] == b.cells[i]
      {
        assert IsCleanCell(a.cells[i]) && IsCleanCell(b.cells[i]);
      }
    }
    assert a.metadata == b.metadata by {
      forall k | k in KeptKeys
        ensures a.metadata[k] == b.metadata[k]
      {
        assert GetOrEmpty(a.metadata, k) == GetOrEmpty(b.metadata, k);
      }
    }
  }

  /**
   Cleaning is specified completely by its two promises: `CleanNotebook(nb)`
   is the one and only clean notebook with the same content as `nb`.
   */
  lemma CleanNotebookCharacterised(nb: Notebook, r: Notebook)
    ensures r == CleanNotebook(nb) <==> IsClean(r) && SameContent(nb, r)
  {
    if IsClean(r) && SameContent(nb, r) {
      var c := CleanNotebook(nb);
      SameContentSymmetric(nb, c);
      SameContentTransitive(c, nb, r);
      CleanIsDeterminedByContent(c, r);
    }
  }

  /** A notebook is left unchanged by cleaning exactly when it is already clean. */
  lemma CleanFixedPoints(nb: Notebook)
    ensures CleanNotebook(nb) == nb <==> IsClean(nb)
  {
    CleanNotebookCharacterised(nb, nb);
  }

  /** Cleaning a cleaned notebook changes nothing. */
  lemma CleanIdempotent(nb: Notebook)
    ensures CleanNotebook(CleanNotebook(nb)) == CleanNotebook(nb)
  {
    CleanFixedPoints(CleanNotebook(nb));
  }

  /**
   Cleaning identifies exactly the notebooks that differ only in what it
   strips: code cells' outputs and execution counts, cell metadata, and
   top-level metadata other than the kernel specification and language info,
   where a missing entry of those two counts as `{}`.
   */
  lemma CleanIdentifiesSameContent(a: Notebook, b: Notebook)
    ensures CleanNotebook(a) == CleanNotebook(b) <==> SameContent(a, b)
  {
    var ca, cb := CleanNotebook(a), CleanNotebook(b);
    if SameContent(a, b) {
      SameContentSymmetric(a, ca);
      SameContentTransitive(ca, a, b);
      SameContentTransitive(ca, b, cb);
      CleanIsDeterminedByContent(ca, cb);
    }
    if ca == cb {
      SameContentSymmetric(b, cb);
      SameContentTransitive(a, ca, b);
    }
  }

  /**
   A worked document: one code cell with an output, execution count 5 and
   cell metadata {"foo": 1}, and document metadata
   {"kernelspec": {"name": "python3"}, "extra": "x"}.
   */
  lemma CleanExample()
    ensures
      var kernel := JObject(map["name" := JString("python3")]);
      var cell := Cell(CodeCellType, "print('hi')", map["foo" := JNumber(1)],
                       [JObject(map["text" := JString("hi")])], Some(5), map[]);
      var nb := Notebook([cell], map[KernelspecKey := kernel, "extra" := JString("x")], 4, 5);
      CleanNotebook(nb) ==
        Notebook([Cell(CodeCellType, "print('hi')", map[], [], None, map[])],
                 map[KernelspecKey := kernel, LanguageInfoKey := EmptyObject], 4, 5)
  {
  }

  // ---------------------------------------------------------------------------
  // The folder walk

  /**
   The actions of one run over `folder` whose listing is `listing`: exactly
   one in-place clean per listing entry ending in ".ipynb", in the order of
   the listing, and none for any other entry.
   */
  function CleanTrace(folder: string, listing: seq<string>): (t: seq<Action>)
    ensures |t| == |NotebookPositions(listing)|
    ensures forall k :: 0 <= k < |t| ==> t[k] == CleanFile(Join(folder, listing[NotebookPositions(listing)[k]]))
  {
    SelectionFollowsPositions(listing);
    var names := SelectNotebooks(listing);
    seq(|names|, k requires 0 <= k < |names| => CleanFile(Join(folder, names[k])))
  }
}
