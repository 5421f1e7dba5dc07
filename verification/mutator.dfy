/**
 * The document mutator: `haveCellOutputs` and `parseCellObject` as pure
 * rules on one cell, and the pass of those rules over a notebook's cells
 * array, which stops at the first cell that makes a cast fail.
 */
module Mutator {
  import opened Wrappers
  import opened Json

  /** The key of a cell that holds its cached execution outputs. */
  const NOTEBOOK_CELL_OUTPUTS: string := "outputs"

  /** The exception a cell can raise, with the index of that cell. */
  datatype CellError =
    | CellNotObject(index: nat)    // the cell is null (NullPointerException at `get`, line 136) or not a JSONObject (the cast in `cleanNotebook`, line 103)
    | OutputsNotArray(index: nat)  // its "outputs" is neither null nor a JSONArray (the cast in `haveCellOutputs`, line 151)

  /** The value `parseCellObject` looks up: null when the key is absent. */
  function Outputs(cell: Json): Json
    requires cell.JObject?
  {
    Get(cell.members, NOTEBOOK_CELL_OUTPUTS)
  }

  /**
   * `haveCellOutputs`: Some(b) when the value is null or an array, b telling
   * whether it is a non-empty array; None when the cast to JSONArray fails.
   */
  function HaveCellOutputs(outputs: Json): (r: Option<bool>)
    ensures r == None <==> !outputs.JNull? && !outputs.JArray?
    ensures r == Some(true) <==> outputs.JArray? && outputs.items != []
    ensures r == Some(false) <==> outputs == JNull || outputs == JArray([])
  {
    match outputs
    case JNull => Some(false)
    case JArray(items) => Some(|items| > 0)
    case _ => None
  }

  /** A cell `parseCellObject` gets through without an exception. */
  predicate CellWellFormed(cell: Json)
  {
    cell.JObject? && HaveCellOutputs(Outputs(cell)).Some?
  }

  /** A cell whose outputs `parseCellObject` clears (and that sets the dirty flag). */
  predicate HasOutputs(cell: Json)
  {
    cell.JObject? && HaveCellOutputs(Outputs(cell)) == Some(true)
  }

  /** The cell as `parseCellObject` leaves it. */
  function ClearOutputs(cell: Json): (r: Json)
    ensures HasOutputs(cell) ==>
      r.JObject? && r.members.Keys == cell.members.Keys &&
      r.members[NOTEBOOK_CELL_OUTPUTS] == JArray([]) &&
      forall k :: k in cell.members && k != NOTEBOOK_CELL_OUTPUTS ==> r.members[k] == cell.members[k]
    ensures !HasOutputs(cell) ==> r == cell
    ensures !HasOutputs(r)
    ensures CellWellFormed(r) <==> CellWellFormed(cell)
  {
    if HasOutputs(cell) then JObject(cell.members[NOTEBOOK_CELL_OUTPUTS := JArray([])]) else cell
  }

  /** The exception raised on a cell that is not well formed. */
  function CellFailure(cell: Json, index: nat): CellError
  {
    if cell.JObject? then OutputsNotArray(index) else CellNotObject(index)
  }

  /** The index of the first cell that is not well formed, if any. */
  function FirstFailure(cells: seq<Json>): (r: Option<nat>)
    ensures r.Some? ==> r.value < |cells| && !CellWellFormed(cells[r.value])
    ensures forall j :: 0 <= j < |cells| && (r.None? || j < r.value) ==> CellWellFormed(cells[j])
  {
    if cells == [] then None
    else if !CellWellFormed(cells[0]) then Some(0)
    else match FirstFailure(cells[1..])
      case None => None
      case Some(k) => Some(k + 1)
  }

  /** How many cells the pass gets through: all of them, or those before the first failure. */
  function Stop(cells: seq<Json>): (k: nat)
    ensures k <= |cells|
  {
    match FirstFailure(cells)
    case None => |cells|
    case Some(k) => k
  }

  /** The cells with the first k cleared and the rest as they were. */
  function ClearedUpTo(cells: seq<Json>, k: nat): (r: seq<Json>)
    ensures |r| == |cells|
  {
    seq(|cells|, j requires 0 <= j < |cells| => if j < k then ClearOutputs(cells[j]) else cells[j])
  }

  /** Whether one of the first k cells has non-empty outputs. */
  predicate AnyOutputs(cells: seq<Json>, k: nat)
  {
    exists j :: 0 <= j < k && j < |cells| && HasOutputs(cells[j])
  }

  /** The outcome of the pass: the cells afterwards, the dirty flag it raised, the exception if one. */
  datatype Pass = Pass(cells: seq<Json>, dirty: bool, failure: Option<CellError>)

  /**
   * The pass over the cells array, stated declaratively: every cell before
   * the first failure is cleared, the rest are untouched, the flag is the
   * OR over the cells reached, and the failure is that of the first bad cell.
   */
  function CellPass(cells: seq<Json>): Pass
  {
    var stop := Stop(cells);
    Pass(ClearedUpTo(cells, stop),
         AnyOutputs(cells, stop),
         if stop < |cells| then Some(CellFailure(cells[stop], stop)) else None)
  }

  /**
   * The `forEach` of the source as a fold: cell k is cast and cleared with
   * the flag threaded through, and the first exception ends the fold.
   */
  function ForEach(cells: seq<Json>, k: nat, dirty: bool): Pass
    requires k <= |cells|
    decreases |cells| - k
  {
    if k == |cells| then Pass(cells, dirty, None)
    else if !CellWellFormed(cells[k]) then Pass(cells, dirty, Some(CellFailure(cells[k], k)))
    else ForEach(cells[k := ClearOutputs(cells[k])], k + 1, dirty || HasOutputs(cells[k]))
  }

  /** The fold from a state the pass reaches after k cells ends where the declarative pass says. */
  lemma {:induction false} ForEachFrom(cells: seq<Json>, k: nat)
    requires k <= Stop(cells)
    ensures ForEach(ClearedUpTo(cells, k), k, AnyOutputs(cells, k)) == CellPass(cells)
    decreases |cells| - k
  {
    var mid := ClearedUpTo(cells, k);
    var stop := Stop(cells);
    if k == |cells| {
      assert mid == ClearedUpTo(cells, stop);
    } else if k == stop {
      assert mid[k] == cells[k];
    } else {
      assert mid[k] == cells[k];
      assert mid[k := ClearOutputs(cells[k])] == ClearedUpTo(cells, k + 1);
      assert AnyOutputs(cells, k + 1) == (AnyOutputs(cells, k) || HasOutputs(cells[k]));
      ForEachFrom(cells, k + 1);
    }
  }

  /** The fold from the start, with the flag reset, is the declarative pass. */
  lemma ForEachIsCellPass(cells: seq<Json>)
    ensures ForEach(cells, 0, false) == CellPass(cells)
  {
    assert ClearedUpTo(cells, 0) == cells;
    ForEachFrom(cells, 0);
  }

  /** When no cell fails, the flag is the OR over all cells and no cell keeps outputs. */
  lemma CompletedPass(cells: seq<Json>)
    requires forall j :: 0 <= j < |cells| ==> CellWellFormed(cells[j])
    ensures CellPass(cells).failure == None
    ensures CellPass(cells).dirty <==> exists j :: 0 <= j < |cells| && HasOutputs(cells[j])
    ensures forall j :: 0 <= j < |cells| ==> !HasOutputs(CellPass(cells).cells[j])
  {
  }

  /**
   * When cell k is the first that fails: the pass raises its exception,
   * clears the cells before it, leaves it and the rest as they were, and
   * raises the flag exactly when a cell before it had outputs.
   */
  lemma FailedPass(cells: seq<Json>, k: nat)
    requires FirstFailure(cells) == Some(k)
    ensures CellPass(cells).failure == Some(CellFailure(cells[k], k))
    ensures CellPass(cells).dirty <==> exists j :: 0 <= j < k && HasOutputs(cells[j])
    ensures forall j :: 0 <= j < k ==> CellPass(cells).cells[j] == ClearOutputs(cells[j])
    ensures CellPass(cells).cells[k..] == cells[k..]
  {
    assert Stop(cells) == k;
    assert ClearedUpTo(cells, k)[k..] == cells[k..];
  }

  /** Two cell sequences whose cells are well formed at the same places fail at the same place. */
  lemma SameFirstFailure(a: seq<Json>, b: seq<Json>)
    requires |a| == |b|
    requires forall j :: 0 <= j < |a| ==> (CellWellFormed(a[j]) <==> CellWellFormed(b[j]))
    ensures FirstFailure(a) == FirstFailure(b)
  {
  }

  /**
   * Idempotence: a second pass over what the first left changes no cell,
   * raises no flag and fails, if at all, where the first did.
   */
  lemma PassIdempotent(cells: seq<Json>)
    ensures CellPass(CellPass(cells).cells) == Pass(CellPass(cells).cells, false, CellPass(cells).failure)
  {
    var p := CellPass(cells);
    SameFirstFailure(cells, p.cells);
    var stop := Stop(cells);
    assert Stop(p.cells) == stop;
    assert ClearedUpTo(p.cells, stop) == p.cells;
    assert !AnyOutputs(p.cells, stop);
    if stop < |cells| {
      assert p.cells[stop] == cells[stop];
    }
  }
}
