/**
 The in-memory shape of a notebook document as the cleaning script sees it
 after the notebook-format library has parsed it (format version 4).
 Parsing and serialisation belong to that library and are not modelled:
 JSON values are an already-parsed datatype.
 */
module NotebookFormat {

  /** Python's `None` versus a present value. */
  datatype Option<+T> = None | Some(value: T)

  /** A parsed JSON value. Numbers are integers only. */
  datatype Json =
    | JNull
    | JBool(b: bool)
    | JNumber(n: int)
    | JString(s: string)
    | JArray(items: seq<Json>)
    | JObject(fields: map<string, Json>)

  /** The JSON value `{}`. */
  const EmptyObject: Json := JObject(map[])

  /** A metadata mapping: JSON object fields by key. */
  type Metadata = map<string, Json>

  /** The cell type tag that marks an executable cell. */
  const CodeCellType: string := "code"

  /**
   A cell. `cellType` is the raw type tag ("code", "markdown", "raw", ...).
   `outputs` and `executionCount` are meaningful for code cells; other cells
   carry whatever the document had there, and the transform never touches it.
   `otherFields` holds every remaining key of the cell (its id, attachments, ...).
   */
  datatype Cell = Cell(
    cellType: string,
    source: string,
    metadata: Metadata,
    outputs: seq<Json>,
    executionCount: Option<int>,
    otherFields: Metadata)

  /** A notebook: its cells in document order plus document-level metadata. */
  datatype Notebook = Notebook(
    cells: seq<Cell>,
    metadata: Metadata,
    nbformat: nat,
    nbformatMinor: nat)

  /** A code cell: the only kind whose outputs and execution count are stripped. */
  predicate IsCode(c: Cell) {
    c.cellType == CodeCellType
  }
}
