/**
 * The end-to-end behaviour on a small project directory: a notebook with
 * outputs is rewritten with them cleared, one whose outputs are already
 * empty is not written, a ".txt" file is never opened, an unreadable
 * notebook does not stop its siblings, and a notebook under a hidden
 * directory is never reached.
 */
module Scenarios {
  import opened Wrappers
  import opened Json
  import opened Mutator
  import opened Gate
  import opened TreeWalk

  const Record: Json := JObject(map["data" := JString("x")])
  const CellWithOutputs: Json := JObject(map[NOTEBOOK_CELL_OUTPUTS := JArray([Record])])
  const CellWithout: Json := JObject(map[NOTEBOOK_CELL_OUTPUTS := JArray([])])
  /** a.ipynb: one cell whose outputs hold a record. */
  const DocA: Json := JObject(map[NOTEBOOK_CELLS := JArray([CellWithOutputs])])
  /** b.ipynb: one cell whose outputs are empty; also a.ipynb once cleaned. */
  const DocB: Json := JObject(map[NOTEBOOK_CELLS := JArray([CellWithout])])

  const Project: Entry := Dir("proj", false, [
    File("a.ipynb", false, Some(DocA)),
    File("b.ipynb", false, Some(DocB)),
    File("c.txt", false, Some(DocA)),
    File("bad.ipynb", false, None),
    Dir(".hidden", true, [File("d.ipynb", false, Some(DocA))])])

  /** a.ipynb is cleaned into b.ipynb's content; b.ipynb is left alone; bad.ipynb fails to parse. */
  lemma ScenarioDocuments()
    ensures CleanDocument(Some(DocA)) == FileOutcome(None, true, Some(DocB))
    ensures CleanDocument(Some(DocB)) == FileOutcome(None, false, Some(DocB))
    ensures CleanDocument(None) == FileOutcome(Some(Unreadable), false, None)
  {
    assert HasOutputs(CellWithOutputs);
    assert CellWithOutputs.members[NOTEBOOK_CELL_OUTPUTS := JArray([])] == CellWithout.members;
    assert ClearedUpTo([CellWithOutputs], 1) == [CellWithout];
    assert [CellWithOutputs][0] == CellWithOutputs;
    assert AnyOutputs([CellWithOutputs], 1);
    assert DocA.members[NOTEBOOK_CELLS := JArray([CellWithout])] == DocB.members;
    assert CellWellFormed(CellWithout) && !HasOutputs(CellWithout);
    assert ClearedUpTo([CellWithout], 1) == [CellWithout];
    assert DocB.members[NOTEBOOK_CELLS := JArray([CellWithout])] == DocB.members;
  }

  /** Each child of the project on its own: the three notebooks are cleaned, c.txt and .hidden are not. */
  lemma ScenarioChildren()
    ensures Walk(Project.children[0], ChildPath("/proj", "a.ipynb")) == [Visit([], "/proj/a.ipynb", Some(DocA))]
    ensures Walk(Project.children[1], ChildPath("/proj", "b.ipynb")) == [Visit([], "/proj/b.ipynb", Some(DocB))]
    ensures Walk(Project.children[2], ChildPath("/proj", "c.txt")) == []
    ensures Walk(Project.children[3], ChildPath("/proj", "bad.ipynb")) == [Visit([], "/proj/bad.ipynb", None)]
    ensures Walk(Project.children[4], ChildPath("/proj", ".hidden")) == []
  {
    assert EndsWith("a.ipynb", NOTEBOOK_EXTN) && EndsWith("b.ipynb", NOTEBOOK_EXTN);
    assert EndsWith("bad.ipynb", NOTEBOOK_EXTN) && !EndsWith("c.txt", NOTEBOOK_EXTN);
    assert ChildPath("/proj", "a.ipynb") == "/proj/a.ipynb";
    assert ChildPath("/proj", "b.ipynb") == "/proj/b.ipynb";
    assert ChildPath("/proj", "bad.ipynb") == "/proj/bad.ipynb";
  }

  /** The walk over the project cleans a.ipynb, b.ipynb and bad.ipynb, in that order. */
  lemma ScenarioWalk()
    ensures Walk(Project, "/proj") == [
      Visit([0], "/proj/a.ipynb", Some(DocA)),
      Visit([1], "/proj/b.ipynb", Some(DocB)),
      Visit([3], "/proj/bad.ipynb", None)]
  {
    ScenarioChildren();
    var va := Visit([0], "/proj/a.ipynb", Some(DocA));
    var vb := Visit([1], "/proj/b.ipynb", Some(DocB));
    var vbad := Visit([3], "/proj/bad.ipynb", None);
    assert [0] + [] == [0] && [1] + [] == [1] && [3] + [] == [3];
    assert Shift(0, [Visit([], "/proj/a.ipynb", Some(DocA))]) == [va];
    assert Shift(1, [Visit([], "/proj/b.ipynb", Some(DocB))]) == [vb];
    assert Shift(3, [Visit([], "/proj/bad.ipynb", None)]) == [vbad];
    assert WalkChildren(Project, 1, "/proj") == [va];
    assert WalkChildren(Project, 2, "/proj") == [va, vb];
    assert WalkChildren(Project, 3, "/proj") == [va, vb];
    assert WalkChildren(Project, 4, "/proj") == [va, vb, vbad];
    assert WalkChildren(Project, 5, "/proj") == [va, vb, vbad];
  }

  /** Only a.ipynb is written, with its outputs cleared. */
  lemma ScenarioWrites()
    ensures Writes(RewriteLog, Walk(Project, "/proj")) == [Rewrite("/proj/a.ipynb", DocB)]
  {
    ScenarioWalk();
    ScenarioDocuments();
    var va := Visit([0], "/proj/a.ipynb", Some(DocA));
    var vb := Visit([1], "/proj/b.ipynb", Some(DocB));
    var vbad := Visit([3], "/proj/bad.ipynb", None);
    assert [va, vb, vbad][..2] == [va, vb] && [va, vb][..1] == [va] && [va][..0] == [];
    assert RewriteLog(va.path, va.content) == [Rewrite("/proj/a.ipynb", DocB)];
    assert RewriteLog(vb.path, vb.content) == [];
    assert RewriteLog(vbad.path, vbad.content) == [];
    assert Writes(RewriteLog, [va]) == [Rewrite("/proj/a.ipynb", DocB)];
    assert Writes(RewriteLog, [va, vb]) == [Rewrite("/proj/a.ipynb", DocB)];
  }
}
