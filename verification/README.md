# Notebook cleaning and HTML conversion, modelled in Dafny

The repository ships two small batch scripts that work on the notebooks of a
course folder:

- `scripts/clean_notebooks.py` normalises every notebook of a folder for
  version control. Code cells lose their outputs and execution count. Every
  cell loses its metadata. The document metadata is cut down to the kernel
  specification and the language info, each defaulting to `{}`.
- `scripts/convert_nbs.py` creates the output folder if it is missing. It then
  runs the external HTML converter once per notebook. The output name is the
  notebook name with `.ipynb` replaced by `.html`.

The model has five modules:

- `NotebookFormat` (`notebook_format.dfy`): a parsed notebook. It has JSON
  values, cells (type tag, source, metadata, outputs, execution count, other
  fields) and the notebook itself (cells, metadata, format version).
- `Strings` (`strings.dfy`): Python's `str.endswith` and `str.replace`. The
  replace is a left-to-right scan that replaces every non-overlapping
  occurrence.
- `BatchWalker` (`batch_walker.dfy`): the `.ipynb` filter over a directory
  listing, POSIX path joining, and the `Action` datatype. An action is
  `MakeDir`, `CleanFile` or `ConvertToHtml`.
- `CleanNotebooks` (`clean_notebooks.dfy`): the normalisation as a pure
  function `CleanNotebook`, and the folder walk as a trace of `CleanFile`
  actions.
- `ConvertNbs` (`convert_nbs.dfy`): the output-name rewrite `HtmlName`, and the
  conversion run as a trace of actions.

The normaliser is specified independently of its body:

- `IsClean` says what a normalised notebook looks like.
- `SameContent` says what normalisation must keep: cell count and order, cell
  types, sources, other cell fields, everything of non-code cells except
  their metadata, the format version, and the kernel specification and
  language info (a missing entry counts as `{}`).

`CleanNotebookCharacterised` proves that `CleanNotebook(nb)` is the one clean
notebook with the same content as `nb`. Idempotence, the fixed points, and
"two notebooks clean to the same thing exactly when they have the same
content" follow from it.

The code calls `notebook.replace('.ipynb', '.html')`, which replaces every
occurrence of `.ipynb`, not only the extension: `x.ipynb_old.ipynb` becomes
`x.html_old.html`.

## Model

| member | source | states |
|---|---|---|
| `NotebookFormat.IsCode` | scripts/clean_notebooks.py:9 | the code-cell test `cell_type == 'code'`; no contract of its own: used by `CleanCell`, `IsCleanCell` and `SameCellContent` |
| `CleanNotebooks.GetOrEmpty` | scripts/clean_notebooks.py:15-16 | `dict.get` with default `{}`; no contract of its own: described by `CleanMetadata` |
| `CleanNotebooks.CleanCell` | scripts/clean_notebooks.py:9-12 | the cell comes out clean (empty metadata; a code cell also has no outputs and no execution count) with its content kept; a non-code cell differs only in its metadata |
| `CleanNotebooks.CleanCells` | scripts/clean_notebooks.py:8-12 | the loop keeps the number and order of cells and cleans each one in place |
| `CleanNotebooks.CleanMetadata` | scripts/clean_notebooks.py:14-17 | the new document metadata has exactly the keys `kernelspec` and `language_info`; each keeps its old value when present and is `{}` when absent |
| `CleanNotebooks.CleanNotebook` | scripts/clean_notebooks.py:8-17 | the result is clean and has the same content as the input |
| `CleanNotebooks.CleanIsDeterminedByContent` | scripts/clean_notebooks.py:8-17 | two clean notebooks with the same content are equal, so cleaning leaves nothing free |
| `CleanNotebooks.CleanNotebookCharacterised` | scripts/clean_notebooks.py:8-17 | `r` is the cleaned `nb` if and only if `r` is clean and has the same content as `nb` |
| `CleanNotebooks.CleanFixedPoints` | scripts/clean_notebooks.py:8-17 | cleaning leaves a notebook unchanged if and only if it is already clean |
| `CleanNotebooks.CleanIdempotent` | scripts/clean_notebooks.py:8-17 | cleaning a cleaned notebook returns it unchanged |
| `CleanNotebooks.CleanIdentifiesSameContent` | scripts/clean_notebooks.py:8-17 | two notebooks clean to the same notebook if and only if they differ only in code cells' outputs and execution counts, cell metadata, and document metadata other than `kernelspec` and `language_info`, where a missing entry counts as `{}` |
| `CleanNotebooks.CleanExample` | scripts/clean_notebooks.py:8-17 | worked case: a code cell with one output, count 5 and metadata `{"foo": 1}`, and document metadata with `kernelspec` and an extra key, cleans to outputs `[]`, count `None`, metadata `{}`, and document metadata holding the old kernelspec and `language_info = {}` |
| `CleanNotebooks.CleanTrace` | scripts/clean_notebooks.py:23-27 | the run cleans exactly one file per listing entry ending in `.ipynb`, in listing order, and none for any other entry; each clean is on the entry joined to the folder |
| `BatchWalker.SelectNotebooks` | scripts/clean_notebooks.py:23 | a name is selected if and only if it is in the listing and ends with `.ipynb`; never more names than the listing has |
| `BatchWalker.NotebookPositions` | scripts/convert_nbs.py:7 | reference definition: the strictly increasing indices of exactly the listing entries that end with `.ipynb` |
| `BatchWalker.SelectionFollowsPositions` | scripts/convert_nbs.py:7 | the selected names are the entries at those indices, one for one and in listing order |
| `BatchWalker.SelectDistributes` | scripts/convert_nbs.py:7 | selecting from a concatenated listing is selecting from each part in turn |
| `BatchWalker.SelectIdempotent` | scripts/convert_nbs.py:7 | filtering a filtered listing changes nothing |
| `BatchWalker.Join` | scripts/clean_notebooks.py:25 | `os.path.join` of a folder and a file name, as POSIX joins two parts (also used at scripts/convert_nbs.py:9-10); no contract of its own: described by `JoinShape` |
| `BatchWalker.JoinShape` | scripts/convert_nbs.py:9-10 | a joined path ends with the file name; it is the name itself when the name is absolute, and otherwise the folder followed by the name, with at most one added `/` |
| `Strings.EndsWith` | scripts/clean_notebooks.py:23 | `str.endswith`: a string ends with the suffix if and only if it is some stem followed by the suffix |
| `Strings.ReplaceAll` | scripts/convert_nbs.py:10 | `str.replace` for a non-empty pattern, as a left-to-right scan; no contract of its own: described by `ReplaceAllWithoutOccurrence`, `ReplaceAllFirstOccurrence`, `ReplaceAllTrailingPattern` and `ReplaceAllRemovesEveryOccurrence` |
| `Strings.ReplaceAllWithoutOccurrence` | scripts/convert_nbs.py:10 | `str.replace` leaves a string with no occurrence of the pattern unchanged |
| `Strings.ReplaceAllFirstOccurrence` | scripts/convert_nbs.py:10 | for a pattern that cannot overlap itself, `stem + pat + rest` with a stem free of the pattern becomes `stem + rep` followed by the replacement of `rest`: the scan resumes right after a replaced occurrence |
| `Strings.ReplaceAllRemovesEveryOccurrence` | scripts/convert_nbs.py:10 | when pattern and replacement are both at least two characters long, both start with a marker character that neither repeats, and the replacement already differs from the pattern at its second character, no occurrence of the pattern is left in the result |
| `Strings.ReplaceAllTrailingPattern` | scripts/convert_nbs.py:10 | for a pattern that cannot overlap itself, replacing in `s + pat` gives the replacement of `s` followed by the new text, so a trailing occurrence is always replaced |
| `ConvertNbs.HtmlName` | scripts/convert_nbs.py:10 | the output name `notebook.replace('.ipynb', '.html')`; no contract of its own: described by `HtmlNameEndsWithHtml`, `HtmlNameOfPlainStem`, `HtmlNameReplacesEveryOccurrence`, `HtmlNameExample` and `HtmlNameHasNoNotebookSuffix` |
| `ConvertNbs.ConvertOne` | scripts/convert_nbs.py:9-11 | one converter call on the entry joined to the input folder, with its HTML name joined to the output folder as output; no contract of its own: described by `ConvertEach`, `ConvertTraceFollowsListing` and `ConvertOutputsAreHtml` |
| `ConvertNbs.NotebookSuffixBorderFree` | scripts/convert_nbs.py:10 | `.ipynb` cannot overlap itself |
| `ConvertNbs.NotebookSuffixMarkerLed` | scripts/convert_nbs.py:10 | `.ipynb` and `.html` both start with `.`, which neither repeats, and differ at their second character |
| `ConvertNbs.HtmlNameEndsWithHtml` | scripts/convert_nbs.py:7-10 | every selected name (one ending in `.ipynb`) gets an output name ending in `.html` |
| `ConvertNbs.HtmlNameOfPlainStem` | scripts/convert_nbs.py:10 | for `stem + ".ipynb"` where the stem holds no `.ipynb`, the output name is `stem + ".html"` |
| `ConvertNbs.HtmlNameReplacesEveryOccurrence` | scripts/convert_nbs.py:10 | replace-all, not suffix swap: `stem.ipynb` followed by `middle.ipynb`, where neither part holds `.ipynb` itself, becomes `stem.html` followed by `middle.html` |
| `ConvertNbs.HtmlNameExample` | scripts/convert_nbs.py:10 | `x.ipynb_old.ipynb` becomes `x.html_old.html` |
| `ConvertNbs.HtmlNameHasNoNotebookSuffix` | scripts/convert_nbs.py:10 | no `.ipynb` is left anywhere in an output name |
| `ConvertNbs.ConvertTrace` | scripts/convert_nbs.py:5-12 | the trace is one folder creation when the folder is missing, and nothing else that creates folders, followed by the conversions of the selected names |
| `ConvertNbs.ConvertEach` | scripts/convert_nbs.py:8-11 | one conversion per name, in order, with the name joined to the input folder as input and its HTML name joined to the output folder as the output argument |
| `ConvertNbs.ConvertTraceCreatesFolderFirst` | scripts/convert_nbs.py:5-6 | the output folder is created if and only if it was missing, and then only as the very first action; every other action is a conversion |
| `ConvertNbs.ConvertTraceFollowsListing` | scripts/convert_nbs.py:7-11 | exactly one conversion per listing entry ending in `.ipynb`, in listing order, with input and output derived from the same entry |
| `ConvertNbs.ConvertOutputsAreHtml` | scripts/convert_nbs.py:7-11 | every conversion is given an output path ending in `.html` |

## Left out

- Reading and writing the notebook through the notebook-format library (scripts/clean_notebooks.py:5-6, 19-20). Parsing, serialising and their errors belong to that library. The model starts from a parsed `Notebook` and returns the notebook that would be written back.
- The on-disk JSON format. `Json` is a small parsed datatype, and its numbers are integers only, because floating point plays no part in the transform.
- Cell shape. One `Cell` constructor covers every cell type, so a non-code cell also carries `outputs` and `executionCount` fields. The transform never touches them, just as the Python code never touches a markdown cell's fields other than its metadata.
- `os.listdir`, `os.path.exists` and `os.makedirs`. The listing and the "output folder exists" flag are inputs, and folder creation is a `MakeDir` action. A missing input folder, which raises in Python, is not modelled.
- The listing for the conversion is taken after the output folder may have been created (scripts/convert_nbs.py:5-7). The model takes that listing as given.
- Failures part-way through a run. A notebook that cannot be read or written stops the cleaning run with an exception, and the files already cleaned stay cleaned. Likewise a missing `jupyter` executable makes `subprocess.run` raise (scripts/convert_nbs.py:11), which stops the conversion run. The traces describe a run that goes through; the model has no file store to roll back or keep.
- The external converter process (scripts/convert_nbs.py:11). It appears only as a `ConvertToHtml` action. A non-zero exit status is never inspected in the source, so the trace goes on regardless.
- The progress lines printed per file (scripts/clean_notebooks.py:26, scripts/convert_nbs.py:12). They are console output only.
- The module-level calls with hard-coded folders (scripts/clean_notebooks.py:30-31, scripts/convert_nbs.py:14-16).
- Strings.ReplaceAll: Python's `str.replace` with an empty pattern (which inserts the new text before, between and after the characters) is not modelled. The function requires a non-empty pattern, and the only call uses `.ipynb`.
- BatchWalker.JoinShape: the folder part is stated up to the single separator it may add. Normalisation of `..` or repeated slashes is not done by `os.path.join` either.
