/**
 * The tree walk `processFile` over an abstract directory tree, the
 * selection rule `isNotebookFile`, the argument check `validateAndGetPath`,
 * and what the walk leaves behind: the rewrites it performs and the flag.
 */
module TreeWalk {
  import opened Wrappers
  import opened Json
  import opened Mutator
  import opened Gate

  /** The suffix that marks a notebook file. */
  const NOTEBOOK_EXTN: string := ".ipynb"

  /** The separator between a directory's path and a child's name. */
  const SEPARATOR: string := "/"

  /**
   * An entry of the file system. `hidden` is the platform's hidden
   * attribute; a file carries what reading and parsing it gives (None when
   * that throws); a directory carries its listing, in listing order.
   */
  datatype Entry =
    | File(name: string, hidden: bool, content: Option<Json>)
    | Dir(name: string, hidden: bool, children: seq<Entry>)

  /** `String.endsWith`. */
  predicate EndsWith(s: string, suffix: string)
  {
    |suffix| <= |s| && s[|s| - |suffix|..] == suffix
  }

  /** A string ends with a suffix exactly when it is some stem followed by that suffix. */
  lemma EndsWithIffStem(s: string, suffix: string)
    ensures EndsWith(s, suffix) <==> exists stem :: s == stem + suffix
  {
    if EndsWith(s, suffix) {
      assert s == s[..|s| - |suffix|] + suffix;
    }
    forall stem | s == stem + suffix
      ensures EndsWith(s, suffix)
    {
      assert s[|s| - |suffix|..] == suffix;
    }
  }

  /** `isNotebookFile`: a regular file whose name ends with ".ipynb". */
  predicate IsNotebookFile(e: Entry)
  {
    e.File? && EndsWith(e.name, NOTEBOOK_EXTN)
  }

  /** Exactly the files named some stem plus ".ipynb" are notebook files; no directory is. */
  lemma NotebookFileIff(e: Entry)
    ensures IsNotebookFile(e) <==> e.File? && exists stem :: e.name == stem + NOTEBOOK_EXTN
    ensures e.Dir? ==> !IsNotebookFile(e)
  {
    EndsWithIffStem(e.name, NOTEBOOK_EXTN);
  }

  /** The path of a listed child: `File.listFiles` joins the directory's path and the name. */
  function ChildPath(path: string, name: string): string
  {
    path + SEPARATOR + name
  }

  /** One call of `cleanNotebook`: where the file sits, its path, what parsing it gives. */
  datatype Visit = Visit(pos: seq<nat>, path: string, content: Option<Json>)

  /** Visits of a child, with positions made relative to its parent. */
  function Shift(index: nat, vs: seq<Visit>): (r: seq<Visit>)
    ensures |r| == |vs|
    ensures forall k :: 0 <= k < |vs| ==> r[k] == vs[k].(pos := [index] + vs[k].pos)
  {
    seq(|vs|, k requires 0 <= k < |vs| => vs[k].(pos := [index] + vs[k].pos))
  }

  /**
   * `processFile` on an entry at `path`: the notebook files it cleans, in
   * order, positions relative to the entry. A hidden entry is skipped, a
   * directory's children are walked in listing order, and then the entry
   * itself is cleaned if it is a notebook file.
   */
  function Walk(e: Entry, path: string): seq<Visit>
    decreases e, if e.Dir? then |e.children| + 1 else 0
  {
    if e.hidden then []
    else
      (if e.Dir? then WalkChildren(e, |e.children|, path) else []) +
      (if IsNotebookFile(e) then [Visit([], path, e.content)] else [])
  }

  /** The `for` loop over the first n children of a directory. */
  function WalkChildren(e: Entry, n: nat, path: string): seq<Visit>
    requires e.Dir? && n <= |e.children|
    decreases e, n
  {
    if n == 0 then []
    else
      var child := e.children[n - 1];
      WalkChildren(e, n - 1, path) + Shift(n - 1, Walk(child, ChildPath(path, child.name)))
  }

  // A declarative account of which files the walk reaches.

  /** The entry reached from e by following child indices p. */
  function At(e: Entry, p: seq<nat>): Option<Entry>
    decreases p
  {
    if p == [] then Some(e)
    else if e.Dir? && p[0] < |e.children| then At(e.children[p[0]], p[1..])
    else None
  }

  /** Following p from e is possible and meets no hidden entry, e and the target included. */
  predicate Visible(e: Entry, p: seq<nat>)
    decreases p
  {
    !e.hidden && (p == [] || (e.Dir? && p[0] < |e.children| && Visible(e.children[p[0]], p[1..])))
  }

  /** The path of the entry reached by p, when e is at `path`. */
  function PathAt(e: Entry, path: string, p: seq<nat>): string
    decreases p
  {
    if p != [] && e.Dir? && p[0] < |e.children|
    then PathAt(e.children[p[0]], ChildPath(path, e.children[p[0]].name), p[1..])
    else path
  }

  /** The walk is to clean the entry at p: visible all the way, and a notebook file. */
  predicate Selected(e: Entry, p: seq<nat>)
  {
    Visible(e, p) && At(e, p).Some? && IsNotebookFile(At(e, p).value)
  }

  /** Lexicographic order on positions: a comes earlier in a listing-order walk than b. */
  predicate Before(a: seq<nat>, b: seq<nat>)
    decreases |a|
  {
    a != [] && b != [] && (a[0] < b[0] || (a[0] == b[0] && Before(a[1..], b[1..])))
  }

  /** What a visit records about the entry it cleans. */
  predicate Describes(e: Entry, path: string, v: Visit)
  {
    Selected(e, v.pos) && v.path == PathAt(e, path, v.pos) && v.content == At(e, v.pos).value.content
  }

  /** Stepping into child c: what holds at [c] + q of e holds at q of the child. */
  lemma StepInto(e: Entry, path: string, c: nat, q: seq<nat>)
    requires !e.hidden && e.Dir? && c < |e.children|
    ensures var child := e.children[c];
      At(e, [c] + q) == At(child, q) &&
      Visible(e, [c] + q) == Visible(child, q) &&
      PathAt(e, path, [c] + q) == PathAt(child, ChildPath(path, child.name), q)
  {
    assert ([c] + q)[1..] == q;
  }

  /** Soundness: every file the walk cleans is selected, with its own path and content. */
  lemma {:induction false} WalkSound(e: Entry, path: string)
    ensures forall v :: v in Walk(e, path) ==> Describes(e, path, v)
    decreases e, if e.Dir? then |e.children| + 1 else 0
  {
    if !e.hidden && e.Dir? {
      WalkChildrenSound(e, |e.children|, path);
    }
  }

  lemma {:induction false} WalkChildrenSound(e: Entry, n: nat, path: string)
    requires !e.hidden && e.Dir? && n <= |e.children|
    ensures forall v :: v in WalkChildren(e, n, path) ==>
      v.pos != [] && v.pos[0] < n && Describes(e, path, v)
    decreases e, n
  {
    if n > 0 {
      var child := e.children[n - 1];
      var cpath := ChildPath(path, child.name);
      WalkChildrenSound(e, n - 1, path);
      WalkSound(child, cpath);
      var tail := Walk(child, cpath);
      var shifted := Shift(n - 1, tail);
      forall k | 0 <= k < |shifted|
        ensures Describes(e, path, shifted[k])
      {
        assert tail[k] in tail;
        StepInto(e, path, n - 1, tail[k].pos);
      }
    }
  }

  /** Completeness: every selected file is cleaned by the walk. */
  lemma {:induction false} WalkComplete(e: Entry, path: string, p: seq<nat>)
    requires Selected(e, p)
    ensures exists v :: v in Walk(e, path) && v.pos == p
    decreases e, if e.Dir? then |e.children| + 1 else 0
  {
    if p == [] {
      assert Walk(e, path) == [Visit([], path, e.content)];
    } else {
      StepInto(e, path, p[0], p[1..]);
      assert [p[0]] + p[1..] == p;
      WalkChildrenComplete(e, |e.children|, path, p);
    }
  }

  lemma {:induction false} WalkChildrenComplete(e: Entry, n: nat, path: string, p: seq<nat>)
    requires !e.hidden && e.Dir? && n <= |e.children|
    requires p != [] && p[0] < n && Selected(e, p)
    ensures exists v :: v in WalkChildren(e, n, path) && v.pos == p
    decreases e, n
  {
    var child := e.children[n - 1];
    var cpath := ChildPath(path, child.name);
    var head := WalkChildren(e, n - 1, path);
    var tail := Walk(child, cpath);
    assert WalkChildren(e, n, path) == head + Shift(n - 1, tail);
    if p[0] == n - 1 {
      StepInto(e, path, p[0], p[1..]);
      assert [p[0]] + p[1..] == p;
      WalkComplete(child, cpath, p[1..]);
      var v :| v in tail && v.pos == p[1..];
      var k :| 0 <= k < |tail| && tail[k] == v;
      assert Shift(n - 1, tail)[k] in WalkChildren(e, n, path);
    } else {
      WalkChildrenComplete(e, n - 1, path, p);
    }
  }

  /** Positions under one index keep their order. */
  lemma BeforeUnder(c: nat, a: seq<nat>, b: seq<nat>)
    requires Before(a, b)
    ensures Before([c] + a, [c] + b)
  {
    assert ([c] + a)[1..] == a && ([c] + b)[1..] == b;
  }

  /** Order: the walk cleans files in listing order, each at most once. */
  lemma {:induction false} WalkOrdered(e: Entry, path: string)
    ensures forall i, j :: 0 <= i < j < |Walk(e, path)| ==> Before(Walk(e, path)[i].pos, Walk(e, path)[j].pos)
    decreases e, if e.Dir? then |e.children| + 1 else 0
  {
    if !e.hidden && e.Dir? {
      WalkChildrenOrdered(e, |e.children|, path);
      assert Walk(e, path) == WalkChildren(e, |e.children|, path);
    }
  }

  lemma {:induction false} WalkChildrenOrdered(e: Entry, n: nat, path: string)
    requires !e.hidden && e.Dir? && n <= |e.children|
    ensures forall i, j :: 0 <= i < j < |WalkChildren(e, n, path)| ==>
      Before(WalkChildren(e, n, path)[i].pos, WalkChildren(e, n, path)[j].pos)
    decreases e, n
  {
    if n > 0 {
      var child := e.children[n - 1];
      var cpath := ChildPath(path, child.name);
      var head := WalkChildren(e, n - 1, path);
      var inner := Walk(child, cpath);
      var tail := Shift(n - 1, inner);
      var w := head + tail;
      WalkChildrenOrdered(e, n - 1, path);
      WalkChildrenSound(e, n - 1, path);
      WalkOrdered(child, cpath);
      forall i, j | 0 <= i < j < |w|
        ensures Before(w[i].pos, w[j].pos)
      {
        if j < |head| {
          assert w[i] == head[i] && w[j] == head[j];
        } else if i < |head| {
          assert w[i] == head[i] && head[i] in head;
          assert w[j] == tail[j - |head|];
          assert w[i].pos != [] && w[i].pos[0] < n - 1;
          assert w[j].pos == [n - 1] + inner[j - |head|].pos;
        } else {
          var a, b := i - |head|, j - |head|;
          assert w[i] == tail[a] && w[j] == tail[b];
          assert Before(inner[a].pos, inner[b].pos);
          BeforeUnder(n - 1, inner[a].pos, inner[b].pos);
        }
      }
    }
  }

  /** No position comes before itself, so an ordered walk cleans no file twice. */
  lemma {:induction false} BeforeIrreflexive(a: seq<nat>)
    ensures !Before(a, a)
    decreases |a|
  {
    if a != [] {
      BeforeIrreflexive(a[1..]);
    }
  }

  /**
   * The walk from a root cleans exactly the selected files (visible all the
   * way down, notebook files), each once, in listing order.
   */
  lemma WalkExactly(root: Entry, path: string)
    ensures forall v :: v in Walk(root, path) ==> Describes(root, path, v)
    ensures forall p :: Selected(root, p) ==> exists v :: v in Walk(root, path) && v.pos == p
    ensures var w := Walk(root, path);
      forall i, j :: 0 <= i < j < |w| ==> w[i].pos != w[j].pos && Before(w[i].pos, w[j].pos)
  {
    WalkSound(root, path);
    forall p | Selected(root, p)
      ensures exists v :: v in Walk(root, path) && v.pos == p
    {
      WalkComplete(root, path, p);
    }
    WalkOrdered(root, path);
    var w := Walk(root, path);
    forall i, j | 0 <= i < j < |w|
      ensures w[i].pos != w[j].pos
    {
      BeforeIrreflexive(w[i].pos);
    }
  }

  /** A hidden entry, file or directory, contributes nothing: its subtree is never visited. */
  lemma HiddenContributesNothing(e: Entry, path: string, p: seq<nat>)
    requires e.hidden
    ensures Walk(e, path) == [] && !Selected(e, p)
  {
  }

  // What the walk leaves behind.

  /**
   * What a sequence of `cleanNotebook` calls writes, in order, when the call
   * on the file at path with parsed content writes write(path, content).
   * The writes of the source are Writes(RewriteLog, vs); the lemmas below
   * hold for any `write`.
   */
  function Writes<T>(write: (string, Option<Json>) -> seq<T>, vs: seq<Visit>): seq<T>
  {
    if vs == [] then []
    else Writes(write, vs[..|vs| - 1]) + write(vs[|vs| - 1].path, vs[|vs| - 1].content)
  }

  /** A write is in the log exactly when one of the cleaned files performed it. */
  lemma {:induction false} WritesMembers<T>(write: (string, Option<Json>) -> seq<T>, vs: seq<Visit>, r: T)
    ensures r in Writes(write, vs) <==> exists v :: v in vs && r in write(v.path, v.content)
  {
    if vs != [] {
      var init, last := vs[..|vs| - 1], vs[|vs| - 1];
      WritesMembers(write, init, r);
      assert vs == init + [last];
      forall v | v in vs && r in write(v.path, v.content)
        ensures r in Writes(write, vs)
      {
        if v != last {
          assert v in init;
        }
      }
    }
  }

  lemma {:induction false} WritesConcat<T>(write: (string, Option<Json>) -> seq<T>, a: seq<Visit>, b: seq<Visit>)
    ensures Writes(write, a + b) == Writes(write, a) + Writes(write, b)
    decreases |b|
  {
    if b == [] {
      assert a + b == a;
    } else {
      var init, last := b[..|b| - 1], b[|b| - 1];
      assert (a + b)[..|a + b| - 1] == a + init;
      assert (a + b)[|a + b| - 1] == last;
      WritesConcat(write, a, init);
      calc {
        Writes(write, a + b);
        Writes(write, a + init) + write(last.path, last.content);
        Writes(write, a) + Writes(write, init) + write(last.path, last.content);
        Writes(write, a) + (Writes(write, init) + write(last.path, last.content));
      }
    }
  }

  /** Positions play no part in what is written. */
  lemma {:induction false} WritesShift<T>(write: (string, Option<Json>) -> seq<T>, c: nat, vs: seq<Visit>)
    ensures Writes(write, Shift(c, vs)) == Writes(write, vs)
    decreases |vs|
  {
    if vs != [] {
      var init := vs[..|vs| - 1];
      assert Shift(c, vs)[..|vs| - 1] == Shift(c, init);
      WritesShift(write, c, init);
    }
  }

  /**
   * The walk from a root writes r exactly when r is what cleaning one of
   * the selected files writes: every rewrite names a notebook the walk
   * reaches, and every such notebook whose cleaning raised the flag is
   * rewritten.
   */
  lemma WritesExactly(root: Entry, path: string, r: Rewrite)
    ensures r in Writes(RewriteLog, Walk(root, path)) <==>
      exists p :: Selected(root, p) && r in RewriteLog(PathAt(root, path, p), At(root, p).value.content)
  {
    var w := Walk(root, path);
    WalkExactly(root, path);
    WritesMembers(RewriteLog, w, r);
    if r in Writes(RewriteLog, w) {
      var v :| v in w && r in RewriteLog(v.path, v.content);
      assert Describes(root, path, v);
      assert Selected(root, v.pos) && r in RewriteLog(PathAt(root, path, v.pos), At(root, v.pos).value.content);
    }
    if exists p :: Selected(root, p) && r in RewriteLog(PathAt(root, path, p), At(root, p).value.content) {
      var p :| Selected(root, p) && r in RewriteLog(PathAt(root, path, p), At(root, p).value.content);
      var v :| v in w && v.pos == p;
      assert Describes(root, path, v);
    }
  }

  /** `fileUpdated` after a sequence of calls: as the last one left it, or as before none. */
  function LastFlag(flag: bool, vs: seq<Visit>): bool
  {
    if vs == [] then flag else CleanDocument(vs[|vs| - 1].content).updated
  }

  lemma LastFlagConcat(flag: bool, a: seq<Visit>, b: seq<Visit>)
    ensures LastFlag(flag, a + b) == LastFlag(LastFlag(flag, a), b)
  {
    if b != [] {
      assert (a + b)[|a + b| - 1] == b[|b| - 1];
    }
  }

  /** One more child walked: its writes follow the earlier ones. */
  lemma ChildWritesStep<T>(write: (string, Option<Json>) -> seq<T>, e: Entry, n: nat, path: string)
    requires e.Dir? && 0 < n <= |e.children|
    ensures Writes(write, WalkChildren(e, n, path)) ==
      Writes(write, WalkChildren(e, n - 1, path)) +
      Writes(write, Walk(e.children[n - 1], ChildPath(path, e.children[n - 1].name)))
  {
    var child := e.children[n - 1];
    var inner := Walk(child, ChildPath(path, child.name));
    var head := WalkChildren(e, n - 1, path);
    WritesAfter(write, WalkChildren(e, n, path), head, n - 1, inner);
  }

  lemma WritesAfter<T>(write: (string, Option<Json>) -> seq<T>, whole: seq<Visit>, head: seq<Visit>, c: nat, inner: seq<Visit>)
    requires whole == head + Shift(c, inner)
    ensures Writes(write, whole) == Writes(write, head) + Writes(write, inner)
  {
    WritesConcat(write, head, Shift(c, inner));
    WritesShift(write, c, inner);
  }

  /** One more child walked: it hands on the flag the earlier ones left. */
  lemma ChildFlagStep(e: Entry, n: nat, path: string, flag: bool)
    requires e.Dir? && 0 < n <= |e.children|
    ensures LastFlag(flag, WalkChildren(e, n, path)) ==
      LastFlag(LastFlag(flag, WalkChildren(e, n - 1, path)), Walk(e.children[n - 1], ChildPath(path, e.children[n - 1].name)))
  {
    var child := e.children[n - 1];
    var inner := Walk(child, ChildPath(path, child.name));
    var head := WalkChildren(e, n - 1, path);
    FlagAfter(flag, WalkChildren(e, n, path), head, n - 1, inner);
  }

  lemma FlagAfter(flag: bool, whole: seq<Visit>, head: seq<Visit>, c: nat, inner: seq<Visit>)
    requires whole == head + Shift(c, inner)
    ensures LastFlag(flag, whole) == LastFlag(LastFlag(flag, head), inner)
  {
    LastFlagConcat(flag, head, Shift(c, inner));
    assert LastFlag(LastFlag(flag, head), Shift(c, inner)) == LastFlag(LastFlag(flag, head), inner);
  }

  /**
   * What `processFile` on an entry writes, following the entry's shape:
   * its children's writes in listing order, then its own.
   */
  function EntryWrites<T>(write: (string, Option<Json>) -> seq<T>, e: Entry, path: string): seq<T>
    decreases e, if e.Dir? then |e.children| + 1 else 0
  {
    if e.hidden then []
    else if e.Dir? then ChildrenWrites(write, e, |e.children|, path)
    else if IsNotebookFile(e) then write(path, e.content)
    else []
  }

  /** What the first n children of a directory write. */
  function ChildrenWrites<T>(write: (string, Option<Json>) -> seq<T>, e: Entry, n: nat, path: string): seq<T>
    requires e.Dir? && n <= |e.children|
    decreases e, n
  {
    if n == 0 then []
    else
      var child := e.children[n - 1];
      ChildrenWrites(write, e, n - 1, path) + EntryWrites(write, child, ChildPath(path, child.name))
  }

  /** `fileUpdated` after `processFile` on an entry, when it was `flag` before. */
  function EntryFlag(flag: bool, e: Entry): bool
    decreases e, if e.Dir? then |e.children| + 1 else 0
  {
    if e.hidden then flag
    else if e.Dir? then ChildrenFlag(flag, e, |e.children|)
    else if IsNotebookFile(e) then CleanDocument(e.content).updated
    else flag
  }

  /** `fileUpdated` after the first n children of a directory. */
  function ChildrenFlag(flag: bool, e: Entry, n: nat): bool
    requires e.Dir? && n <= |e.children|
    decreases e, n
  {
    if n == 0 then flag else EntryFlag(ChildrenFlag(flag, e, n - 1), e.children[n - 1])
  }

  /** The entry-shaped writes are the writes of the walk's visits. */
  lemma {:induction false} EntryWritesAreWalkWrites<T>(write: (string, Option<Json>) -> seq<T>, e: Entry, path: string)
    ensures EntryWrites(write, e, path) == Writes(write, Walk(e, path))
    decreases e, if e.Dir? then |e.children| + 1 else 0
  {
    if !e.hidden {
      if e.Dir? {
        ChildrenWritesAreWalkWrites(write, e, |e.children|, path);
        assert Walk(e, path) == WalkChildren(e, |e.children|, path);
      } else if IsNotebookFile(e) {
        var visit := Visit([], path, e.content);
        assert Walk(e, path) == [visit] && [visit][..0] == [];
      }
    }
  }

  lemma {:induction false} ChildrenWritesAreWalkWrites<T>(write: (string, Option<Json>) -> seq<T>, e: Entry, n: nat, path: string)
    requires e.Dir? && n <= |e.children|
    ensures ChildrenWrites(write, e, n, path) == Writes(write, WalkChildren(e, n, path))
    decreases e, n
  {
    if n > 0 {
      var child := e.children[n - 1];
      var childPath := ChildPath(path, child.name);
      ChildrenWritesAreWalkWrites(write, e, n - 1, path);
      EntryWritesAreWalkWrites(write, child, childPath);
      ChildWritesStep(write, e, n, path);
    }
  }

  /** The entry-shaped flag is the flag the walk's last visit leaves, at any path. */
  lemma {:induction false} EntryFlagIsLastFlag(flag: bool, e: Entry, path: string)
    ensures EntryFlag(flag, e) == LastFlag(flag, Walk(e, path))
    decreases e, if e.Dir? then |e.children| + 1 else 0
  {
    if !e.hidden {
      if e.Dir? {
        ChildrenFlagIsLastFlag(flag, e, |e.children|, path);
        assert Walk(e, path) == WalkChildren(e, |e.children|, path);
      } else if IsNotebookFile(e) {
        assert Walk(e, path) == [Visit([], path, e.content)];
      }
    }
  }

  lemma {:induction false} ChildrenFlagIsLastFlag(flag: bool, e: Entry, n: nat, path: string)
    requires e.Dir? && n <= |e.children|
    ensures ChildrenFlag(flag, e, n) == LastFlag(flag, WalkChildren(e, n, path))
    decreases e, n
  {
    if n > 0 {
      var child := e.children[n - 1];
      ChildrenFlagIsLastFlag(flag, e, n - 1, path);
      EntryFlagIsLastFlag(ChildrenFlag(flag, e, n - 1), child, ChildPath(path, child.name));
      ChildFlagStep(e, n, path, flag);
    }
  }

  // The command line.

  /** The RuntimeException `validateAndGetPath` throws. */
  datatype ConfigError = PathNotProvided | NotADirectory(path: string)

  /**
   * `validateAndGetPath`: the first argument, when there is one and it
   * names a directory (`isDirectory` is what the file system says of it).
   */
  function ValidateAndGetPath(args: seq<string>, isDirectory: bool): (r: Result<string, ConfigError>)
    ensures r.Ok? <==> |args| > 0 && isDirectory
    ensures r.Ok? ==> r.value == args[0]
    ensures args == [] ==> r == Err(PathNotProvided)
  {
    if |args| == 0 then Err(PathNotProvided)
    else if !isDirectory then Err(NotADirectory(args[0]))
    else Ok(args[0])
  }
}
