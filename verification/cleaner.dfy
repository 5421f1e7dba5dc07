/**
 * `NotebookOutputsCleaner` as the source runs it: the static `fileUpdated`
 * flag is a field that the methods reset and set, a notebook's cells array
 * is an array whose cells are cleared in place, and each `writeNotebookFile`
 * is appended to the `rewrites` log. Every method is proved against the
 * pure account in Mutator, Gate and TreeWalk.
 */
module Cleaner {
  import opened Wrappers
  import opened Json
  import opened Mutator
  import opened Gate
  import opened TreeWalk

  class NotebookOutputsCleaner {
    /** The static `fileUpdated`: a cell of the current file had its outputs cleared. */
    var fileUpdated: bool
    /** Every `writeNotebookFile` call so far, in order. */
    var rewrites: seq<Rewrite>

    constructor ()
      ensures !fileUpdated && rewrites == []
    {
      fileUpdated := false;
      rewrites := [];
    }

    /**
     * The `forEach` lambda on cell i: the cast to JSONObject, then
     * `parseCellObject`, which clears non-empty outputs and sets the flag.
     * A failing cast leaves the cell and the flag as they were.
     */
    method ParseCellObject(cells: array<Json>, i: nat) returns (failure: Option<CellError>)
      requires i < cells.Length
      modifies this`fileUpdated, cells
      ensures failure == if CellWellFormed(old(cells[i])) then None else Some(CellFailure(old(cells[i]), i))
      ensures cells[..] == old(cells[..])[i := ClearOutputs(old(cells[i]))]
      ensures fileUpdated == (old(fileUpdated) || HasOutputs(old(cells[i])))
    {
      var cell := cells[i];
      if !cell.JObject? {
        return Some(CellNotObject(i));
      }
      var outputsObj := Get(cell.members, NOTEBOOK_CELL_OUTPUTS);
      var have := HaveCellOutputs(outputsObj);
      if have.None? {
        return Some(OutputsNotArray(i));
      }
      if have.value {
        cells[i] := JObject(cell.members[NOTEBOOK_CELL_OUTPUTS := JArray([])]);
        fileUpdated := true;
      }
      return None;
    }

    /**
     * The `forEach` over the cells array; its first exception ends it. Each
     * turn of the loop is one step of the fold `ForEach`, which ends in the
     * declarative pass.
     */
    method ForEachCell(cells: array<Json>) returns (failure: Option<CellError>)
      modifies this`fileUpdated, cells
      ensures cells[..] == CellPass(old(cells[..])).cells
      ensures failure == CellPass(old(cells[..])).failure
      ensures fileUpdated == (old(fileUpdated) || CellPass(old(cells[..])).dirty)
    {
      ghost var original := cells[..];
      ghost var dirty := false;
      ForEachIsCellPass(original);
      failure := None;
      var i := 0;
      while i < cells.Length
        invariant i <= cells.Length
        invariant ForEach(cells[..], i, dirty) == CellPass(original)
        invariant fileUpdated == (old(fileUpdated) || dirty)
        invariant failure == None
      {
        ghost var before := cells[..];
        failure := ParseCellObject(cells, i);
        if failure.Some? {
          return;
        }
        dirty := dirty || HasOutputs(before[i]);
        i := i + 1;
      }
    }

    /** `writeNotebookFile`: the document serialised over the file at `path`. */
    method WriteNotebookFile(path: string, fileObj: Json)
      modifies this`rewrites
      ensures rewrites == old(rewrites) + [Rewrite(path, fileObj)]
    {
      rewrites := rewrites + [Rewrite(path, fileObj)];
    }

    /**
     * `cleanNotebook` on the file at `path` whose read and parse gave
     * `content` (None when that threw). Returns the exception it reports.
     * The document is written exactly when the flag ends up set, also when
     * a later cell threw after an earlier one was cleared.
     */
    method CleanNotebook(path: string, content: Option<Json>) returns (failure: Option<Error>)
      modifies this
      ensures failure == CleanDocument(content).failure
      ensures fileUpdated == CleanDocument(content).updated
      ensures rewrites == old(rewrites) + RewriteLog(path, content)
    {
      fileUpdated := false;
      var fileObj: Option<Json> := None;
      failure := None;
      match content {
        case None =>
          failure := Some(Unreadable);
        case Some(doc) =>
          if doc.JNull? {
            failure := Some(NullDocument);
          } else if !doc.JObject? {
            failure := Some(DocumentNotObject);
          } else {
            fileObj := Some(doc);
            var cellsObj := Get(doc.members, NOTEBOOK_CELLS);
            if cellsObj.JNull? {
              failure := Some(CellsMissing);
            } else if !cellsObj.JArray? {
              failure := Some(CellsNotArray);
            } else {
              var items := cellsObj.items;
              var cells := new Json[|items|](k requires 0 <= k < |items| => items[k]);
              assert cells[..] == items;
              var cellFailure := ForEachCell(cells);
              failure := LiftFailure(cellFailure);
              fileObj := Some(JObject(doc.members[NOTEBOOK_CELLS := JArray(cells[..])]));
            }
          }
      }
      if fileUpdated {
        WriteNotebookFile(path, fileObj.value);
      }
    }

    /**
     * `processFile`: skips a hidden entry, walks a directory's children in
     * listing order, then cleans the entry if it is a notebook file.
     */
    method ProcessFile(e: Entry, path: string)
      modifies this
      ensures rewrites == old(rewrites) + EntryWrites(RewriteLog, e, path)
      ensures fileUpdated == EntryFlag(old(fileUpdated), e)
      decreases e, if e.Dir? then |e.children| + 1 else 0
    {
      if e.hidden {
        return;
      }
      if e.Dir? {
        for i := 0 to |e.children|
          invariant rewrites == old(rewrites) + ChildrenWrites(RewriteLog, e, i, path)
          invariant fileUpdated == ChildrenFlag(old(fileUpdated), e, i)
        {
          var child := e.children[i];
          ProcessFile(child, ChildPath(path, child.name));
        }
      }
      if IsNotebookFile(e) {
        var reported := CleanNotebook(path, e.content);
      }
    }

    /**
     * `main`: `validateAndGetPath` on the arguments, then `processFile` on
     * the root. `root` is the entry the first argument names.
     */
    method Run(args: seq<string>, root: Entry) returns (r: Result<(), ConfigError>)
      modifies this
      ensures r.Ok? <==> ValidateAndGetPath(args, root.Dir?).Ok?
      ensures r.Err? ==> r.error == ValidateAndGetPath(args, root.Dir?).error &&
                         rewrites == old(rewrites) && fileUpdated == old(fileUpdated)
      ensures r.Ok? ==> rewrites == old(rewrites) + Writes(RewriteLog, Walk(root, args[0])) &&
                        fileUpdated == LastFlag(old(fileUpdated), Walk(root, args[0]))
    {
      var inputDirectory := ValidateAndGetPath(args, root.Dir?);
      if inputDirectory.Err? {
        return Err(inputDirectory.error);
      }
      ProcessFile(root, inputDirectory.value);
      EntryWritesAreWalkWrites(RewriteLog, root, inputDirectory.value);
      EntryFlagIsLastFlag(old(fileUpdated), root, inputDirectory.value);
      return Ok(());
    }
  }
}
