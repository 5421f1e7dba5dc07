# NotebookOutputsCleaner, modelled in Dafny

`NotebookOutputsCleaner` walks a directory tree. It skips hidden entries and
descends into directories in listing order. For every `.ipynb` file it
parses the notebook as JSON. It empties the `outputs` array of each cell in
the document's `cells` array. When at least one cell had non-empty outputs
(the static `fileUpdated` flag), it writes the document back over the file.
Any exception inside a file is printed and the walk goes on with the next
entry; only a missing or non-directory argument stops the program.

The model has seven modules:

- `Wrappers` — the `Option` and `Result` types the other modules return.
- `Json` — the json-simple value tree: objects as maps, arrays as
  sequences, strings, numbers, booleans and `null`. `Get` is
  `JSONObject.get`, which gives `null` for an absent key as for a `null`
  value.
- `Mutator` — one cell (`haveCellOutputs`, `parseCellObject`) and the
  `forEach` over the cells array. The pass is defined declaratively
  (`CellPass`: cells before the first malformed cell are cleared, the flag is
  the OR over them, the first malformed cell raises the exception). It is
  proved equal to a fold (`ForEach`) that follows the source's loop, and the
  loop of `Cleaner.ForEachCell` is proved one step of that fold per cell.
- `Gate` — the `try` block of `cleanNotebook` on an already-parsed file: which
  exception ends it (`Error`), what `fileUpdated` and `fileObj` are
  afterwards (`CleanDocument`), and which document reaches `writeNotebookFile`
  (`RewriteLog`).
- `TreeWalk` — `processFile` over an abstract tree of entries (`Entry`),
  `isNotebookFile`, `validateAndGetPath`, and what the walk leaves behind.
  `Walk` lists the files `cleanNotebook` is called on, in order, with their
  positions in the tree. It is proved sound, complete and ordered against a
  declarative description (`Selected`, `PathAt`, `Before`). `Writes` is the
  sequence of rewrites, and `LastFlag` is the flag the last call leaves.
- `Cleaner` — the class `NotebookOutputsCleaner`, written as the source runs:
  - the static `fileUpdated` is a field;
  - each `writeNotebookFile` appends to a `rewrites` field;
  - the cells array is an `array<Json>` that `ParseCellObject` clears in
    place;
  - `ProcessFile` is a recursive method with a `for` loop over the children.

  Each method is proved against the functions of the other modules.
  `ProcessFile` is stated against `EntryWrites`/`EntryFlag`, which follow the
  entry's shape. The lemmas `EntryWritesAreWalkWrites` and
  `EntryFlagIsLastFlag` connect these to `Walk`. `Run` carries the resulting
  statement over the walk.
- `Scenarios` — a small project directory with `a.ipynb` (outputs),
  `b.ipynb` (no outputs), `c.txt`, an unparsable `bad.ipynb` and a hidden
  directory holding `d.ipynb`. The lemmas state what gets cleaned and what
  gets written.

The model follows the code as written; in particular:

- Cells are not all processed: the first cell that is not a `JSONObject`, or
  whose `outputs` is neither `null` nor a `JSONArray`, throws. That ends the
  `forEach`, so the cells after it are left as they were.
- A file is not simply skipped when processing fails. If a cell before the
  failing one was cleared, `fileUpdated` is already set, and the partially
  cleaned document is written (`Gate.PartialRewrite`,
  `Gate.PartialRewriteExample`).
- A document without `cells`, or one that parses to something other than an
  object, is an exception of its own (`CellsMissing`, `DocumentNotObject`,
  `NullDocument`). It is reported, and the file is not written.

## Model

| member | source | states |
|---|---|---|
| Mutator.HaveCellOutputs | Databricks/CleanNotebookOutput/src/com/sanjivsingh/notebooks/NotebookOutputsCleaner.java:150-152 | fails (a cast exception) exactly when the value is neither null nor an array; true exactly for a non-empty array; false exactly for null or an empty array |
| Mutator.ClearOutputs | Databricks/CleanNotebookOutput/src/com/sanjivsingh/notebooks/NotebookOutputsCleaner.java:135-142 | a cell with non-empty outputs gets an empty outputs array under the same key, and every other key keeps its value; any other cell is unchanged; no cell has outputs afterwards; well-formedness is preserved |
| Mutator.FirstFailure | Databricks/CleanNotebookOutput/src/com/sanjivsingh/notebooks/NotebookOutputsCleaner.java:103 | the index found is a malformed cell, and every cell before it (every cell, when none is found) is well formed |
| Mutator.ForEachFrom | Databricks/CleanNotebookOutput/src/com/sanjivsingh/notebooks/NotebookOutputsCleaner.java:103 | the step-by-step fold, resumed from any state the pass reaches after k cells, ends in the declarative pass |
| Mutator.ForEachIsCellPass | Databricks/CleanNotebookOutput/src/com/sanjivsingh/notebooks/NotebookOutputsCleaner.java:97-103 | the fold from the first cell with the flag reset equals the declarative pass |
| Mutator.CompletedPass | Databricks/CleanNotebookOutput/src/com/sanjivsingh/notebooks/NotebookOutputsCleaner.java:103-139 | with every cell well formed: no exception, the flag is set iff some cell had outputs, and no cell keeps outputs |
| Mutator.FailedPass | Databricks/CleanNotebookOutput/src/com/sanjivsingh/notebooks/NotebookOutputsCleaner.java:103-107 | when cell k is the first malformed one: its exception is raised, the cells before it are cleared, it and the later cells are untouched, and the flag is set iff a cell before it had outputs |
| Mutator.SameFirstFailure | Databricks/CleanNotebookOutput/src/com/sanjivsingh/notebooks/NotebookOutputsCleaner.java:103 | two cell sequences that are well formed at the same places fail at the same place |
| Mutator.PassIdempotent | Databricks/CleanNotebookOutput/src/com/sanjivsingh/notebooks/NotebookOutputsCleaner.java:103-142 | a second pass over the first pass's cells changes nothing, sets no flag, and fails as the first did |
| Gate.CleanDocument | Databricks/CleanNotebookOutput/src/com/sanjivsingh/notebooks/NotebookOutputsCleaner.java:97-107 | a raised flag always comes with a document, and never with an unreadable file or a missing cells array |
| Gate.RewriteLog | Databricks/CleanNotebookOutput/src/com/sanjivsingh/notebooks/NotebookOutputsCleaner.java:109-111 | at most one write; there is one iff the flag ends up set, and it goes to the file's own path with the document fileObj holds |
| Gate.NoWriteWithoutCellsArray | Databricks/CleanNotebookOutput/src/com/sanjivsingh/notebooks/NotebookOutputsCleaner.java:100-111 | an unreadable file, a non-object document, or one without a cells array raises an exception and is not written |
| Gate.ArrayDocument | Databricks/CleanNotebookOutput/src/com/sanjivsingh/notebooks/NotebookOutputsCleaner.java:102-103 | for a document with a cells array, the file's exception and flag are the cells pass's, and fileObj is the document with only its cells replaced by the pass's cells |
| Gate.CompleteClean | Databricks/CleanNotebookOutput/src/com/sanjivsingh/notebooks/NotebookOutputsCleaner.java:102-111 | a document whose cells are all well formed raises no exception; it is flagged iff some cell had outputs; the result keeps every other member and has each cell cleared |
| Gate.PartialRewrite | Databricks/CleanNotebookOutput/src/com/sanjivsingh/notebooks/NotebookOutputsCleaner.java:102-111 | a cast failure at cell k after an earlier cell was cleared still writes the document once: cells before k cleared, the rest as parsed, other members unchanged |
| Gate.PartialRewriteExample | Databricks/CleanNotebookOutput/src/com/sanjivsingh/notebooks/NotebookOutputsCleaner.java:103-111 | a concrete two-cell document whose second cell is a string: the exception is reported, the flag is set, and the first cell is cleared in what is written |
| Gate.DocumentIdempotent | Databricks/CleanNotebookOutput/src/com/sanjivsingh/notebooks/NotebookOutputsCleaner.java:97-111 | cleaning the document fileObj holds again leaves it unchanged, sets no flag (so nothing is written) and fails as before |
| TreeWalk.EndsWithIffStem | Databricks/CleanNotebookOutput/src/com/sanjivsingh/notebooks/NotebookOutputsCleaner.java:81 | a name ends with a suffix iff it is some stem followed by that suffix |
| TreeWalk.NotebookFileIff | Databricks/CleanNotebookOutput/src/com/sanjivsingh/notebooks/NotebookOutputsCleaner.java:80-82 | an entry is a notebook file iff it is a file named stem + ".ipynb"; no directory is one |
| TreeWalk.WalkSound | Databricks/CleanNotebookOutput/src/com/sanjivsingh/notebooks/NotebookOutputsCleaner.java:59-72 | every file the walk cleans is visible all the way down, is a notebook file, and is cleaned at its own path with its own content |
| TreeWalk.WalkChildrenSound | Databricks/CleanNotebookOutput/src/com/sanjivsingh/notebooks/NotebookOutputsCleaner.java:63-67 | the loop over the first n children cleans only files under those children, each described correctly |
| TreeWalk.WalkComplete | Databricks/CleanNotebookOutput/src/com/sanjivsingh/notebooks/NotebookOutputsCleaner.java:59-72 | every selected file (visible all the way, a notebook file) is cleaned |
| TreeWalk.WalkChildrenComplete | Databricks/CleanNotebookOutput/src/com/sanjivsingh/notebooks/NotebookOutputsCleaner.java:63-67 | every selected file under the first n children is cleaned by the loop over them |
| TreeWalk.WalkOrdered | Databricks/CleanNotebookOutput/src/com/sanjivsingh/notebooks/NotebookOutputsCleaner.java:63-71 | files are cleaned in listing order: the positions of the walk's calls strictly increase in lexicographic order |
| TreeWalk.WalkChildrenOrdered | Databricks/CleanNotebookOutput/src/com/sanjivsingh/notebooks/NotebookOutputsCleaner.java:64-67 | the loop over the first n children cleans in lexicographic order of position |
| TreeWalk.WalkExactly | Databricks/CleanNotebookOutput/src/com/sanjivsingh/notebooks/NotebookOutputsCleaner.java:59-72 | the walk cleans exactly the selected files, each once, in listing order |
| TreeWalk.HiddenContributesNothing | Databricks/CleanNotebookOutput/src/com/sanjivsingh/notebooks/NotebookOutputsCleaner.java:60-62 | a hidden file or directory is never cleaned, and nothing under it is selected |
| TreeWalk.WritesMembers | Databricks/CleanNotebookOutput/src/com/sanjivsingh/notebooks/NotebookOutputsCleaner.java:69-71 | a write is in the log of a sequence of calls iff one of those calls performed it |
| TreeWalk.WritesExactly | Databricks/CleanNotebookOutput/src/com/sanjivsingh/notebooks/NotebookOutputsCleaner.java:59-111 | the walk from a root writes r iff r is what cleaning one of the selected files writes: every rewrite is of a reached notebook, and every reached notebook whose flag was set is rewritten |
| TreeWalk.EntryWritesAreWalkWrites | Databricks/CleanNotebookOutput/src/com/sanjivsingh/notebooks/NotebookOutputsCleaner.java:59-72 | the writes that follow the entry's shape are the writes of the walk's calls, in order |
| TreeWalk.EntryFlagIsLastFlag | Databricks/CleanNotebookOutput/src/com/sanjivsingh/notebooks/NotebookOutputsCleaner.java:85-97 | after processFile, the static flag is as the last cleaned file left it, or as before when no file was cleaned |
| TreeWalk.ValidateAndGetPath | Databricks/CleanNotebookOutput/src/com/sanjivsingh/notebooks/NotebookOutputsCleaner.java:42-52 | succeeds iff there is an argument and it names a directory; the result is the first argument; no arguments is the missing-path error |
| Scenarios.ScenarioDocuments | Databricks/CleanNotebookOutput/src/com/sanjivsingh/notebooks/NotebookOutputsCleaner.java:97-111 | a.ipynb is flagged and cleaned into b.ipynb's content; b.ipynb is not flagged; bad.ipynb is unreadable |
| Scenarios.ScenarioChildren | Databricks/CleanNotebookOutput/src/com/sanjivsingh/notebooks/NotebookOutputsCleaner.java:59-82 | each child on its own: the three notebooks are cleaned, and c.txt and the hidden directory are not |
| Scenarios.ScenarioWalk | Databricks/CleanNotebookOutput/src/com/sanjivsingh/notebooks/NotebookOutputsCleaner.java:59-72 | the project walk cleans a.ipynb, b.ipynb and bad.ipynb, in that order, and never d.ipynb |
| Scenarios.ScenarioWrites | Databricks/CleanNotebookOutput/src/com/sanjivsingh/notebooks/NotebookOutputsCleaner.java:59-111 | only a.ipynb is written, with its outputs cleared |
| Cleaner.NotebookOutputsCleaner.constructor | Databricks/CleanNotebookOutput/src/com/sanjivsingh/notebooks/NotebookOutputsCleaner.java:85 | the flag starts false and nothing has been written |
| Cleaner.NotebookOutputsCleaner.ParseCellObject | Databricks/CleanNotebookOutput/src/com/sanjivsingh/notebooks/NotebookOutputsCleaner.java:103-142 | the cast and the outputs check on cell i of the array: a malformed cell gives its exception; otherwise the cell becomes ClearOutputs of itself and the flag is ORed with whether it had outputs |
| Cleaner.NotebookOutputsCleaner.ForEachCell | Databricks/CleanNotebookOutput/src/com/sanjivsingh/notebooks/NotebookOutputsCleaner.java:103 | the loop over the array leaves it as the declarative pass says, raises the pass's exception, and ORs the pass's flag into fileUpdated |
| Cleaner.NotebookOutputsCleaner.WriteNotebookFile | Databricks/CleanNotebookOutput/src/com/sanjivsingh/notebooks/NotebookOutputsCleaner.java:120-128 | the document is written to the path: one write appended to the log |
| Cleaner.NotebookOutputsCleaner.CleanNotebook | Databricks/CleanNotebookOutput/src/com/sanjivsingh/notebooks/NotebookOutputsCleaner.java:92-112 | the reported exception and the final flag are CleanDocument's, and the writes appended are exactly RewriteLog's |
| Cleaner.NotebookOutputsCleaner.ProcessFile | Databricks/CleanNotebookOutput/src/com/sanjivsingh/notebooks/NotebookOutputsCleaner.java:59-72 | the writes appended are the entry's writes (children in listing order, then the entry itself), and the flag is as the entry's processing leaves it |
| Cleaner.NotebookOutputsCleaner.Run | Databricks/CleanNotebookOutput/src/com/sanjivsingh/notebooks/NotebookOutputsCleaner.java:31-52 | an invalid argument gives its error and changes nothing; otherwise the writes are exactly those of the walk's calls, in order, and the flag is as the last cleaned file left it |

## Left out

- Reading and parsing: the text of a file is not modelled. Each file carries what `JSONParser.parse` gives, or `None` when opening, reading or parsing throws. JSON syntax, the parser and `toJSONString` serialisation are left out.
- `file == null || !file.exists()` (line 93): every entry of the tree exists, so this early return never applies.
- `getAbsolutePath` (line 96): a file's path is the root argument joined to the names with "/". A relative root argument therefore gives relative paths. `java.io.File` also drops a trailing "/" of the root argument, so "proj/" gives "proj/a.ipynb" where `TreeWalk.ChildPath` gives "proj//a.ipynb"; the model does not normalise paths.
- `listFiles` returning `null` (line 64), which would throw out of the walk: a directory always has its listing.
- The platform's hidden attribute and the distinction between files and directories are given as data. Entries that are neither (a broken link, a device) cannot be expressed.
- Console output (lines 106, 121, 126) is left out. `CleanNotebook` returns the exception it reports, and `ProcessFile` drops it, as the source does after printing it.
- Write failures (lines 125-127): `WriteNotebookFile` always succeeds. An `IOException` there would only be printed, so the walk would go on the same way.
- Numbers are plain reals. json-simple's `Long`/`Double` distinction, the iteration order of `JSONObject` (a `HashMap`) and output formatting are left out.
- Sharing: `clear()` empties the outputs array that `fileObj` itself holds. In the model, `ParseCellObject` replaces the cell in an array copy of the cells, and `CleanNotebook` rebuilds the document from that array. The document written is the same, but the aliasing itself is not modelled.
- The `RuntimeException` of `validateAndGetPath` escaping `main` is modelled as an `Err` result of `Run`. Whether the root argument names a directory is taken from the root entry.
