/**
 * The text under which the walk (src-tauri/src/fs.rs, collect_walk_paths_with_limits) indexes
 * a file: the place of the file below the root, from which the file is found again.
 */
module WalkedPaths {
  import opened Collections
  import opened Walks
  import opened Wrappers

  // ---------- Segments ----------

  /** The stretches between slashes. */
  function Segments(b: Bytes): (r: seq<Bytes>)
    ensures r != []
  {
    if b == [] then [[]]
    else
      var rest := Segments(b[1..]);
      if b[0] == SLASH then [[]] + rest else [[b[0]] + rest[0]] + rest[1..]
  }

  lemma {:induction false} SegmentsJoin(a: Bytes, b: Bytes)
    ensures Segments(a + [SLASH] + b) == Segments(a) + Segments(b)
  {
    var s := a + [SLASH] + b;
    if a == [] {
      assert s[1..] == b;
    } else {
      assert s[1..] == a[1..] + [SLASH] + b;
      SegmentsJoin(a[1..], b);
    }
  }

  lemma {:induction false} NameIsOneSegment(name: Bytes)
    requires SLASH !in name
    ensures Segments(name) == [name]
  {
    if name != [] {
      NameIsOneSegment(name[1..]);
      assert name == [name[0]] + name[1..];
    }
  }

  /** What can be the name of an entry: not empty, and without a slash. */
  predicate IsName(name: Bytes) {
    name != [] && SLASH !in name
  }

  ghost predicate AreNames(comps: seq<Bytes>) {
    forall k :: 0 <= k < |comps| ==> IsName(comps[k])
  }

  /** The text of a relative path splits into the names it was made of, in their order. */
  lemma {:induction false} RelativeSplits(comps: seq<Bytes>)
    requires comps != [] && AreNames(comps)
    ensures Segments(Relative(comps)) == comps
  {
    NameIsOneSegment(comps[0]);
    if |comps| == 1 {
      assert comps == [comps[0]];
    } else {
      RelativeSplits(comps[1..]);
      SegmentsJoin(comps[0], Relative(comps[1..]));
      assert comps == [comps[0]] + comps[1..];
    }
  }

  // ---------- The place below the root ----------

  /** The path got by joining the names onto `dir` one after another, as the walk builds its own. */
  function PathTo(dir: Bytes, comps: seq<Bytes>): Bytes {
    if comps == [] then dir else Join(PathTo(dir, comps[..|comps| - 1]), comps[|comps| - 1])
  }

  lemma {:induction false} RelativeGrows(comps: seq<Bytes>, name: Bytes)
    requires comps != []
    ensures Relative(comps + [name]) == Relative(comps) + [SLASH] + name
  {
    var all := comps + [name];
    if |comps| == 1 {
      assert all[1..] == [name];
    } else {
      assert all[1..] == comps[1..] + [name];
      RelativeGrows(comps[1..], name);
      assert Relative(all) == comps[0] + [SLASH] + (Relative(comps[1..]) + [SLASH] + name);
    }
  }

  lemma {:induction false} RelativeEndsInName(comps: seq<Bytes>)
    requires comps != [] && AreNames(comps)
    ensures Relative(comps) != [] && Relative(comps)[|Relative(comps)| - 1] != SLASH
  {
    var last := comps[|comps| - 1];
    if |comps| > 1 {
      RelativeGrows(comps[..|comps| - 1], last);
      assert comps == comps[..|comps| - 1] + [last];
    }
    assert last[|last| - 1] in last;
  }

  lemma JoinBehindName(dir: Bytes, relative: Bytes, name: Bytes)
    requires relative != [] && relative[|relative| - 1] != SLASH
    ensures Join(Join(dir, relative), name) == Join(dir, relative + [SLASH] + name)
  {
    var path, front := Join(dir, relative), if dir == [] || dir[|dir| - 1] == SLASH then dir else dir + [SLASH];
    assert path == front + relative;
    assert path[|path| - 1] == relative[|relative| - 1];
    assert front + relative + [SLASH] + name == front + (relative + [SLASH] + name);
  }

  /** The relative path, joined onto the root, leads to the file. */
  lemma {:induction false} RelativeLeadsToFile(root: Bytes, comps: seq<Bytes>)
    requires comps != [] && AreNames(comps)
    ensures Join(root, Relative(comps)) == PathTo(root, comps)
  {
    var front, last := comps[..|comps| - 1], comps[|comps| - 1];
    if front == [] {
      assert PathTo(root, front) == root;
    } else {
      RelativeLeadsToFile(root, front);
      RelativeEndsInName(front);
      JoinBehindName(root, Relative(front), last);
      RelativeGrows(front, last);
      assert comps == front + [last];
    }
  }

  /** A name joined onto a directory is one more segment. */
  lemma JoinAddsOneSegment(dir: Bytes, name: Bytes)
    requires IsName(name) && dir != [] && dir[|dir| - 1] != SLASH
    ensures Segments(Join(dir, name)) == Segments(dir) + [name]
  {
    NameIsOneSegment(name);
    SegmentsJoin(dir, name);
  }

  // ---------- The directories on the stack ----------

  /** Every directory on the stack is at the path that its names lead to from the root. */
  ghost predicate StackedInPlace(root: Bytes, pending: seq<Pending>) {
    forall k :: 0 <= k < |pending| ==> pending[k].path == PathTo(root, pending[k].comps)
  }

  /** Visiting an entry keeps that. */
  lemma VisitKeepsPlaces(rules: Rules, limits: Limits, root: Bytes, dir: Pending, entry: Entry, w: Walk, v: Walk)
    requires dir.path == PathTo(root, dir.comps) && StackedInPlace(root, w.pending)
    requires Visited(rules, limits, dir, entry, w) == Success(v)
    ensures StackedInPlace(root, v.pending)
  {
    assert (dir.comps + [entry.name])[..|dir.comps|] == dir.comps;
  }

  // ---------- What a walk indexes ----------

  /** Names that are shown as they are: decoding changes nothing, and there is no backslash. */
  ghost predicate Plain(rules: Rules, comps: seq<Bytes>) {
    && comps != [] && AreNames(comps)
    && (forall k :: 0 <= k < |comps| ==> BACKSLASH !in comps[k])
    && rules.lossy(Relative(comps)) == Relative(comps)
  }

  lemma {:induction false} NoBackslashAdded(comps: seq<Bytes>)
    requires comps != [] && forall k :: 0 <= k < |comps| ==> BACKSLASH !in comps[k]
    ensures BACKSLASH !in Relative(comps)
  {
    if |comps| > 1 {
      NoBackslashAdded(comps[1..]);
    }
  }

  lemma ForwardKeeps(b: Bytes)
    requires BACKSLASH !in b
    ensures Forward(b) == b
  {
    assert forall i :: 0 <= i < |b| ==> b[i] in b;
  }

  lemma PlainIsShown(rules: Rules, comps: seq<Bytes>)
    requires Plain(rules, comps)
    ensures Shown(rules, comps) == Relative(comps)
  {
    NoBackslashAdded(comps);
    ForwardKeeps(Relative(comps));
  }

  /** Every backslash is shown as a slash, and nothing else is changed after decoding. */
  lemma BackslashesAreTurned(rules: Rules, comps: seq<Bytes>, i: nat)
    requires comps != [] && i < |rules.lossy(Relative(comps))|
    ensures |Shown(rules, comps)| == |rules.lossy(Relative(comps))|
    ensures var b := rules.lossy(Relative(comps))[i]; Shown(rules, comps)[i] == if b == 0x5C then 0x2F else b
  {
  }

  /** Different files are shown under different paths. */
  lemma ShownApart(rules: Rules, a: seq<Bytes>, b: seq<Bytes>)
    requires Plain(rules, a) && Plain(rules, b) && Shown(rules, a) == Shown(rules, b)
    ensures a == b
  {
    PlainIsShown(rules, a);
    PlainIsShown(rules, b);
    RelativeSplits(a);
    RelativeSplits(b);
  }

  lemma SameJoinSameRest(root: Bytes, p: Bytes, q: Bytes)
    requires Join(root, p) == Join(root, q)
    ensures p == q
  {
    var n := |Join(root, p)| - |p|;
    assert Join(root, p)[n..] == p && Join(root, q)[n..] == q;
  }

  lemma ShownIffAtPlace(rules: Rules, root: Bytes, comps: seq<Bytes>, p: Bytes)
    requires Plain(rules, comps)
    ensures p == Shown(rules, comps) <==> Join(root, p) == PathTo(root, comps)
  {
    PlainIsShown(rules, comps);
    RelativeLeadsToFile(root, comps);
    if Join(root, p) == PathTo(root, comps) {
      SameJoinSameRest(root, p, Relative(comps));
    }
  }

  /** The paths are those of the files, each once: joined onto the root they lead to them. */
  ghost predicate IndexesFiles(rules: Rules, root: Bytes, tree: Node, paths: seq<Bytes>) {
    && (forall i, j :: 0 <= i < j < |paths| ==> paths[i] != paths[j])
    && (forall p :: p in paths <==> exists c :: IsFile(rules, tree, c) && Join(root, p) == PathTo(root, c))
  }

  lemma ShownOnce(rules: Rules, root: Bytes, tree: Node, paths: seq<Bytes>, found: seq<seq<Bytes>>)
    requires ShowsAll(rules, paths, found) && FilesOnce(rules, tree, found)
    requires forall c :: IsFile(rules, tree, c) ==> Plain(rules, c)
    ensures IndexesFiles(rules, root, tree, paths)
  {
    assert forall k :: 0 <= k < |found| ==> found[k] in found;
    forall i, j | 0 <= i < j < |paths| ensures paths[i] != paths[j] {
      if paths[i] == paths[j] {
        ShownApart(rules, found[i], found[j]);
      }
    }
    forall p ensures p in paths <==> exists c :: IsFile(rules, tree, c) && Join(root, p) == PathTo(root, c) {
      if p in paths {
        var k :| 0 <= k < |paths| && paths[k] == p;
        ShownIffAtPlace(rules, root, found[k], p);
      }
      if c :| IsFile(rules, tree, c) && Join(root, p) == PathTo(root, c) {
        ShownIffAtPlace(rules, root, c, p);
        var k :| 0 <= k < |found| && found[k] == c;
        assert paths[k] == p;
      }
    }
  }

  /**
   * What a successful walk of a tree with distinct, plainly shown names indexes: each file no
   * ignored name leads to once, under the path that leads to it from the root, and no other.
   */
  lemma WalkIndexesFiles(rules: Rules, limits: Limits, root: Bytes, tree: Node, r: Result<(seq<Bytes>, nat), WalkError>)
    requires Walked(rules, limits, Whole(rules, root, tree), Peak(rules, root, tree), r) && r.Success?
    requires DistinctNames(tree) && forall c :: IsFile(rules, tree, c) ==> Plain(rules, c)
    ensures IndexesFiles(rules, root, tree, r.value.0) && r.value.1 == |r.value.0|
  {
    WalkFindsEachFileOnce(rules, limits, root, tree, r);
    var found :| ShowsAll(rules, r.value.0, found) && FilesOnce(rules, tree, found);
    ShownOnce(rules, root, tree, r.value.0, found);
  }
}
