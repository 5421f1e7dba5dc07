/**
 * The per-file gate `cleanNotebook`, minus the reading, parsing and writing
 * of the file: which exception ends the processing, what `fileUpdated` and
 * `fileObj` are afterwards, and which document is handed to the writer.
 */
module Gate {
  import opened Wrappers
  import opened Json
  import opened Mutator

  /** The key of the document that holds its cells array. */
  const NOTEBOOK_CELLS: string := "cells"

  /** The exceptions the `try` block catches, in the order the code can reach them. */
  datatype Error =
    | Unreadable          // the file cannot be opened, read or parsed
    | NullDocument        // the text is `null`: fileObj stays null and `get` throws
    | DocumentNotObject   // the parsed value is not a JSONObject
    | CellsMissing        // "cells" is absent or null: `forEach` on null throws
    | CellsNotArray       // "cells" is not a JSONArray
    | InCell(cause: CellError)

  /** What the `try` block leaves: the exception caught, `fileUpdated`, `fileObj` (None is null). */
  datatype FileOutcome = FileOutcome(failure: Option<Error>, updated: bool, fileObj: Option<Json>)

  /** One call of `writeNotebookFile`: the path and the document serialised to it. */
  datatype Rewrite = Rewrite(path: string, document: Json)

  /** The cell pass's exception as the exception of the whole file. */
  function LiftFailure(f: Option<CellError>): Option<Error>
  {
    match f
    case None => None
    case Some(e) => Some(InCell(e))
  }

  /**
   * The effect of the `try` block on a file whose read and parse gave
   * `content` (None when that failed): the flag reset before it, the cells
   * pass on the document's cells array, and fileObj holding the document,
   * partly or wholly cleaned, once the parse succeeded.
   */
  function CleanDocument(content: Option<Json>): (o: FileOutcome)
    ensures o.updated ==> o.fileObj.Some?
    ensures o.updated ==> o.failure != Some(Unreadable) && o.failure != Some(CellsMissing)
  {
    match content
    case None => FileOutcome(Some(Unreadable), false, None)
    case Some(doc) =>
      if doc.JNull? then FileOutcome(Some(NullDocument), false, None)
      else if !doc.JObject? then FileOutcome(Some(DocumentNotObject), false, None)
      else match Get(doc.members, NOTEBOOK_CELLS)
        case JNull => FileOutcome(Some(CellsMissing), false, Some(doc))
        case JArray(cells) =>
          var p := CellPass(cells);
          FileOutcome(LiftFailure(p.failure), p.dirty,
                      Some(JObject(doc.members[NOTEBOOK_CELLS := JArray(p.cells)])))
        case _ => FileOutcome(Some(CellsNotArray), false, Some(doc))
  }

  /** The writes `cleanNotebook` performs: fileObj to the file's path, once, when fileUpdated. */
  function RewriteLog(path: string, content: Option<Json>): (log: seq<Rewrite>)
    ensures |log| <= 1
    ensures log != [] <==> CleanDocument(content).updated
    ensures log != [] ==> log[0].path == path && Some(log[0].document) == CleanDocument(content).fileObj
  {
    var o := CleanDocument(content);
    if o.updated then [Rewrite(path, o.fileObj.value)] else []
  }

  /** A file that cannot be read or parsed, or has no cells array, is not written. */
  lemma NoWriteWithoutCellsArray(path: string, content: Option<Json>)
    requires content.None? || !content.value.JObject? || !Get(content.value.members, NOTEBOOK_CELLS).JArray?
    ensures CleanDocument(content).failure.Some?
    ensures RewriteLog(path, content) == []
  {
  }

  /** The cells array a document holds, or none. */
  function CellsOf(d: Json): seq<Json>
  {
    if d.JObject? && Get(d.members, NOTEBOOK_CELLS).JArray? then Get(d.members, NOTEBOOK_CELLS).items else []
  }

  /** d is doc with its cells member, and nothing else, replaced by an array of n cells. */
  predicate OnlyCellsReplaced(doc: Json, d: Json, n: nat)
  {
    doc.JObject? && d.JObject? && d.members.Keys == doc.members.Keys &&
    (forall key :: key in doc.members && key != NOTEBOOK_CELLS ==> d.members[key] == doc.members[key]) &&
    Get(d.members, NOTEBOOK_CELLS).JArray? && |CellsOf(d)| == n
  }

  /**
   * A document with a cells array: the outcome is the cells pass's, and
   * fileObj is the document with that pass's cells in place of its own.
   */
  lemma ArrayDocument(doc: Json, cells: seq<Json>)
    requires doc.JObject? && Get(doc.members, NOTEBOOK_CELLS) == JArray(cells)
    ensures var o, p := CleanDocument(Some(doc)), CellPass(cells);
      o.failure == LiftFailure(p.failure) && o.updated == p.dirty && o.fileObj.Some? &&
      OnlyCellsReplaced(doc, o.fileObj.value, |cells|) && CellsOf(o.fileObj.value) == p.cells
  {
    var p := CellPass(cells);
    var m := doc.members[NOTEBOOK_CELLS := JArray(p.cells)];
    assert CleanDocument(Some(doc)).fileObj == Some(JObject(m));
    assert Get(m, NOTEBOOK_CELLS) == JArray(p.cells);
  }

  /**
   * A document whose cells are all well formed is written exactly when one
   * of its cells had non-empty outputs; what is written keeps every other
   * member, has the same number of cells, each cell cleared, and no cell
   * left with outputs.
   */
  lemma CompleteClean(doc: Json, cells: seq<Json>)
    requires doc.JObject? && Get(doc.members, NOTEBOOK_CELLS) == JArray(cells)
    requires forall j :: 0 <= j < |cells| ==> CellWellFormed(cells[j])
    ensures CleanDocument(Some(doc)).failure == None
    ensures CleanDocument(Some(doc)).updated <==> exists j :: 0 <= j < |cells| && HasOutputs(cells[j])
    ensures var d := CleanDocument(Some(doc)).fileObj.value;
      OnlyCellsReplaced(doc, d, |cells|) &&
      forall j :: 0 <= j < |cells| ==> CellsOf(d)[j] == ClearOutputs(cells[j]) && !HasOutputs(CellsOf(d)[j])
  {
    ArrayDocument(doc, cells);
    CompletedPass(cells);
  }

  /**
   * A cell k that makes a cast fail after an earlier cell was cleared still
   * gets the document written: cells before k cleared, cell k and those
   * after it as they were parsed.
   */
  lemma PartialRewrite(path: string, doc: Json, cells: seq<Json>, k: nat)
    requires doc.JObject? && Get(doc.members, NOTEBOOK_CELLS) == JArray(cells)
    requires FirstFailure(cells) == Some(k)
    requires exists j :: 0 <= j < k && HasOutputs(cells[j])
    ensures CleanDocument(Some(doc)).failure == Some(InCell(CellFailure(cells[k], k)))
    ensures |RewriteLog(path, Some(doc))| == 1
    ensures var d := RewriteLog(path, Some(doc))[0].document;
      OnlyCellsReplaced(doc, d, |cells|) &&
      (forall j :: 0 <= j < k ==> CellsOf(d)[j] == ClearOutputs(cells[j])) &&
      CellsOf(d)[k..] == cells[k..]
  {
    ArrayDocument(doc, cells);
    FailedPass(cells, k);
  }

  /** A concrete partial rewrite: the first cell is cleared, the second is a string. */
  lemma PartialRewriteExample()
    ensures var output := JObject(map["output_type" := JString("stream")]);
      var cleared := JObject(map[NOTEBOOK_CELL_OUTPUTS := JArray([])]);
      var doc := JObject(map[NOTEBOOK_CELLS := JArray([JObject(map[NOTEBOOK_CELL_OUTPUTS := JArray([output])]), JString("x")])]);
      CleanDocument(Some(doc)) ==
        FileOutcome(Some(InCell(CellNotObject(1))), true,
                    Some(JObject(map[NOTEBOOK_CELLS := JArray([cleared, JString("x")])])))
  {
    var output := JObject(map["output_type" := JString("stream")]);
    var cell := JObject(map[NOTEBOOK_CELL_OUTPUTS := JArray([output])]);
    var cells := [cell, JString("x")];
    assert HasOutputs(cell);
    assert cell.members[NOTEBOOK_CELL_OUTPUTS := JArray([])] == map[NOTEBOOK_CELL_OUTPUTS := JArray([])];
    assert FirstFailure(cells) == Some(1);
    assert ClearedUpTo(cells, 1) == [ClearOutputs(cell), JString("x")];
    assert AnyOutputs(cells, 1);
    var doc := JObject(map[NOTEBOOK_CELLS := JArray(cells)]);
    assert doc.members[NOTEBOOK_CELLS := JArray(ClearedUpTo(cells, 1))] ==
      map[NOTEBOOK_CELLS := JArray([JObject(map[NOTEBOOK_CELL_OUTPUTS := JArray([])]), JString("x")])];
  }

  /**
   * Idempotence: processing the document fileObj holds afterwards leaves
   * it as it is, raises no flag (so nothing is written) and fails, if at
   * all, as the first run did.
   */
  lemma DocumentIdempotent(content: Option<Json>)
    requires CleanDocument(content).fileObj.Some?
    ensures var o := CleanDocument(content);
      CleanDocument(o.fileObj) == FileOutcome(o.failure, false, o.fileObj)
  {
    var doc := content.value;
    match Get(doc.members, NOTEBOOK_CELLS)
    case JArray(cells) =>
      var p := CellPass(cells);
      var m := doc.members[NOTEBOOK_CELLS := JArray(p.cells)];
      assert Get(m, NOTEBOOK_CELLS) == JArray(p.cells);
      PassIdempotent(cells);
      assert m[NOTEBOOK_CELLS := JArray(p.cells)] == m;
    case _ =>
  }
}
