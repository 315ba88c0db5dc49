/**
 * What the totals of the two walks (src-tauri/src/fs.rs, collect_walk_paths_with_limits and
 * count_entries_under) are totals of: the entries looked at, what cannot be read, the paths
 * held, and the moment at which most bytes are held.
 */
module WalkMeasures {
  import opened Collections
  import opened Walks
  import opened WalkedPaths

  // ---------- The entries looked at ----------

  /** The names lead to an entry, and none but the last of them may be ignored. */
  ghost predicate IsSeen(rules: Rules, node: Node, comps: seq<Bytes>)
    decreases comps
  {
    && node.Dir? && comps != []
    && exists i :: 0 <= i < |node.entries| && SeenThrough(rules, node.entries[i], comps)
  }

  ghost predicate SeenThrough(rules: Rules, entry: Entry, comps: seq<Bytes>)
    requires comps != []
    decreases comps, 0
  {
    entry.name == comps[0] && (|comps| == 1 || (!rules.Skips(entry.name) && IsSeen(rules, entry.node, comps[1..])))
  }

  /** All those entries below a directory at `at`, by their names from the root. */
  function Seen(rules: Rules, at: seq<Bytes>, node: Node): multiset<seq<Bytes>>
    decreases node, 0
  {
    if node.Dir? then SeenIn(rules, at, node.entries) else multiset{}
  }

  function SeenIn(rules: Rules, at: seq<Bytes>, entries: seq<Entry>): multiset<seq<Bytes>>
    decreases entries, 1
  {
    if entries == [] then multiset{}
    else SeenAt(rules, at, entries[0]) + SeenIn(rules, at, entries[1..])
  }

  function SeenAt(rules: Rules, at: seq<Bytes>, entry: Entry): multiset<seq<Bytes>>
    decreases entry
  {
    multiset{at + [entry.name]} +
      if rules.Skips(entry.name) then multiset{} else Seen(rules, at + [entry.name], entry.node)
  }

  lemma {:induction false} SeenBelowNode(rules: Rules, at: seq<Bytes>, node: Node, c: seq<Bytes>)
    ensures c in Seen(rules, at, node) <==> at <= c && IsSeen(rules, node, c[|at|..])
    ensures DistinctNames(node) ==> Seen(rules, at, node)[c] <= 1
    decreases node, 0
  {
    if node.Dir? {
      SeenBelowEntries(rules, at, node.entries, c);
    }
  }

  lemma {:induction false} SeenBelowEntries(rules: Rules, at: seq<Bytes>, entries: seq<Entry>, c: seq<Bytes>)
    ensures c in SeenIn(rules, at, entries) <==>
      at < c && exists i :: 0 <= i < |entries| && SeenThrough(rules, entries[i], c[|at|..])
    ensures DistinctIn(entries) ==> SeenIn(rules, at, entries)[c] <= 1
    decreases entries, 1
  {
    if entries != [] {
      SeenBelowEntry(rules, at, entries[0], c);
      SeenBelowEntries(rules, at, entries[1..], c);
      if at < c {
        FirstOrRest(rules, at, entries, c);
      }
    }
  }

  lemma FirstOrRest(rules: Rules, at: seq<Bytes>, entries: seq<Entry>, c: seq<Bytes>)
    requires entries != [] && at < c
    ensures (exists i :: 0 <= i < |entries| && SeenThrough(rules, entries[i], c[|at|..])) <==>
      || SeenThrough(rules, entries[0], c[|at|..])
      || exists i :: 0 <= i < |entries[1..]| && SeenThrough(rules, entries[1..][i], c[|at|..])
  {
    if i :| 0 < i < |entries| && SeenThrough(rules, entries[i], c[|at|..]) {
      assert entries[1..][i - 1] == entries[i];
    }
  }

  lemma {:induction false} SeenBelowEntry(rules: Rules, at: seq<Bytes>, entry: Entry, c: seq<Bytes>)
    ensures c in SeenAt(rules, at, entry) <==> at < c && SeenThrough(rules, entry, c[|at|..])
    ensures DistinctNames(entry.node) ==> SeenAt(rules, at, entry)[c] <= 1
    decreases entry
  {
    var inner := at + [entry.name];
    if at < c {
      var rest := c[|at|..];
      assert inner <= c <==> rest[0] == entry.name;
      assert rest[1..] == c[|inner|..];
      assert c == at + rest && (|rest| == 1 ==> rest == [rest[0]]);
    }
    SeenBelowNode(rules, inner, entry.node, c);
  }

  lemma {:induction false} VisitsCountSeen(rules: Rules, path: Bytes, at: seq<Bytes>, node: Node)
    ensures OfNode(rules, path, at, node).visited == |Seen(rules, at, node)|
    decreases node, 0
  {
    if node.Dir? {
      EntryVisitsCountSeen(rules, path, at, node.entries);
    }
  }

  lemma {:induction false} EntryVisitsCountSeen(rules: Rules, path: Bytes, at: seq<Bytes>, entries: seq<Entry>)
    ensures OfEntries(rules, path, at, entries).visited == |SeenIn(rules, at, entries)|
    decreases entries, 1
  {
    if entries != [] {
      var entry := entries[0];
      if IsDir(entry.node) {
        VisitsCountSeen(rules, Join(path, entry.name), at + [entry.name], entry.node);
      }
      EntryVisitsCountSeen(rules, path, at, entries[1..]);
    }
  }

  /**
   * The walk's budget of entries is spent on exactly the entries that no ignored directory
   * hides, each counted once.
   */
  lemma VisitedEntries(rules: Rules, root: Bytes, tree: Node, seen: multiset<seq<Bytes>>)
    requires DistinctNames(tree) && seen == Seen(rules, [], tree)
    ensures Whole(rules, root, tree).visited == |seen|
    ensures forall c :: seen[c] == if IsSeen(rules, tree, c) then 1 else 0
  {
    VisitsCountSeen(rules, root, [], tree);
    forall c ensures seen[c] == if IsSeen(rules, tree, c) then 1 else 0 {
      SeenBelowNode(rules, [], tree, c);
      assert c[0..] == c;
    }
  }

  lemma {:induction false} TotalCountsSeen(rules: Rules, at: seq<Bytes>, node: Node)
    requires forall name :: !rules.ignored(name)
    ensures EntryTotal(node) == |Seen(rules, at, node)|
    decreases node, 0
  {
    if node.Dir? {
      EntriesTotalCountsSeen(rules, at, node.entries);
    }
  }

  lemma {:induction false} EntriesTotalCountsSeen(rules: Rules, at: seq<Bytes>, entries: seq<Entry>)
    requires forall name :: !rules.ignored(name)
    ensures EntriesTotal(entries) == |SeenIn(rules, at, entries)|
    decreases entries, 1
  {
    if entries != [] {
      TotalCountsSeen(rules, at + [entries[0].name], entries[0].node);
      EntriesTotalCountsSeen(rules, at, entries[1..]);
    }
  }

  /** The other walk counts every entry there is, ignored names and all. */
  lemma CountedEntries(rules: Rules, tree: Node, seen: multiset<seq<Bytes>>)
    requires DistinctNames(tree) && seen == Seen(rules, [], tree) && forall name :: !rules.ignored(name)
    ensures EntryTotal(tree) == |seen|
    ensures forall c :: seen[c] == if IsSeen(rules, tree, c) then 1 else 0
  {
    TotalCountsSeen(rules, [], tree);
    VisitedEntries(rules, [], tree, seen);
  }

  // ---------- What cannot be read ----------

  /** The names lead, past no ignored one, to something that breaks the walk off. */
  ghost predicate IsTrouble(rules: Rules, node: Node, comps: seq<Bytes>)
    decreases comps
  {
    if comps == [] then !node.Dir? || node.broken
    else node.Dir? && exists i :: 0 <= i < |node.entries| && TroubleThrough(rules, node.entries[i], comps)
  }

  ghost predicate TroubleThrough(rules: Rules, entry: Entry, comps: seq<Bytes>)
    requires comps != []
    decreases comps, 0
  {
    && entry.name == comps[0] && !rules.Skips(entry.name) && !entry.node.Leaf?
    && IsTrouble(rules, entry.node, comps[1..])
  }

  lemma CleanOfFirst(rules: Rules, path: Bytes, at: seq<Bytes>, entries: seq<Entry>, first: Entry, rest: seq<Entry>)
    requires entries != [] && first == entries[0] && rest == entries[1..]
    ensures OfEntries(rules, path, at, entries).clean == (OfEntry(rules, path, at, first).clean && OfEntries(rules, path, at, rest).clean)
  {
  }

  lemma {:induction false} UncleanEntry(rules: Rules, path: Bytes, at: seq<Bytes>, entries: seq<Entry>, i: nat, entry: Entry)
    requires i < |entries| && entry == entries[i] && !OfEntry(rules, path, at, entry).clean
    ensures !OfEntries(rules, path, at, entries).clean
    decreases |entries|
  {
    var first, rest := entries[0], entries[1..];
    CleanOfFirst(rules, path, at, entries, first, rest);
    if i > 0 {
      UncleanEntry(rules, path, at, rest, i - 1, entry);
    }
  }

  lemma {:induction false} TroubleIsUnclean(rules: Rules, path: Bytes, at: seq<Bytes>, node: Node, comps: seq<Bytes>)
    requires IsTrouble(rules, node, comps)
    ensures !OfNode(rules, path, at, node).clean
    decreases |comps|
  {
    if comps != [] {
      var i :| 0 <= i < |node.entries| && TroubleThrough(rules, node.entries[i], comps);
      var entry := node.entries[i];
      if !entry.node.Opaque? {
        TroubleIsUnclean(rules, Join(path, entry.name), at + [entry.name], entry.node, comps[1..]);
      }
      UncleanEntry(rules, path, at, node.entries, i, entry);
    }
  }

  lemma {:induction false} FirstUnclean(rules: Rules, path: Bytes, at: seq<Bytes>, entries: seq<Entry>) returns (i: nat)
    requires !OfEntries(rules, path, at, entries).clean
    ensures i < |entries| && !OfEntry(rules, path, at, entries[i]).clean
  {
    if !OfEntry(rules, path, at, entries[0]).clean {
      i := 0;
    } else {
      var j := FirstUnclean(rules, path, at, entries[1..]);
      i := j + 1;
    }
  }

  lemma {:induction false} UncleanHasTrouble(rules: Rules, path: Bytes, at: seq<Bytes>, node: Node) returns (comps: seq<Bytes>)
    requires !OfNode(rules, path, at, node).clean
    ensures IsTrouble(rules, node, comps)
    decreases node
  {
    if !node.Dir? || node.broken {
      comps := [];
    } else {
      var i := FirstUnclean(rules, path, at, node.entries);
      var entry := node.entries[i];
      var rest := [];
      if !entry.node.Opaque? {
        rest := UncleanHasTrouble(rules, Join(path, entry.name), at + [entry.name], entry.node);
      }
      comps := [entry.name] + rest;
      assert comps[1..] == rest && TroubleThrough(rules, entry, comps);
    }
  }

  /** A tree can be walked exactly when nothing in it that no ignored name hides breaks the walk off. */
  lemma CleanIffNoTrouble(rules: Rules, root: Bytes, tree: Node)
    ensures Whole(rules, root, tree).clean <==> forall comps :: !IsTrouble(rules, tree, comps)
  {
    var clean := OfNode(rules, root, [], tree).clean;
    assert Whole(rules, root, tree).clean == clean;
    if !clean {
      var comps := UncleanHasTrouble(rules, root, [], tree);
      assert IsTrouble(rules, tree, comps);
    } else {
      forall comps ensures !IsTrouble(rules, tree, comps) {
        if IsTrouble(rules, tree, comps) {
          TroubleIsUnclean(rules, root, [], tree, comps);
        }
      }
    }
  }

  // ---------- The bytes held ----------

  /** The paths the walk comes to hold for a directory's contents: of the directories in it, and of the files as shown. */
  function HeldPaths(rules: Rules, path: Bytes, at: seq<Bytes>, node: Node): seq<Bytes>
    decreases node, 0
  {
    if node.Dir? then HeldIn(rules, path, at, node.entries) else []
  }

  function HeldIn(rules: Rules, path: Bytes, at: seq<Bytes>, entries: seq<Entry>): seq<Bytes>
    decreases entries, 1
  {
    if entries == [] then [] else HeldAt(rules, path, at, entries[0]) + HeldIn(rules, path, at, entries[1..])
  }

  function HeldAt(rules: Rules, path: Bytes, at: seq<Bytes>, entry: Entry): seq<Bytes>
    decreases entry
  {
    var inner := at + [entry.name];
    if rules.Skips(entry.name) || entry.node.Opaque? then []
    else if entry.node.Leaf? then [Shown(rules, inner)]
    else [Join(path, entry.name)] + HeldPaths(rules, Join(path, entry.name), inner, entry.node)
  }

  lemma {:induction false} RetainedBytesJoin(a: seq<Bytes>, b: seq<Bytes>)
    ensures RetainedBytes(a + b) == RetainedBytes(a) + RetainedBytes(b)
    ensures |a| == 1 ==> RetainedBytes(a) == |a[0]|
  {
    if |a| == 1 {
      assert a[..0] == [];
    }
    if b == [] {
      assert a + b == a;
    } else {
      var n := |b| - 1;
      assert (a + b)[..|a| + n] == a + b[..n];
      RetainedBytesJoin(a, b[..n]);
    }
  }

  lemma {:induction false} BytesAreOfHeld(rules: Rules, path: Bytes, at: seq<Bytes>, node: Node)
    ensures OfNode(rules, path, at, node).bytes == RetainedBytes(HeldPaths(rules, path, at, node))
    decreases node, 0
  {
    if node.Dir? {
      EntryBytesAreOfHeld(rules, path, at, node.entries);
    }
  }

  lemma {:induction false} EntryBytesAreOfHeld(rules: Rules, path: Bytes, at: seq<Bytes>, entries: seq<Entry>)
    ensures OfEntries(rules, path, at, entries).bytes == RetainedBytes(HeldIn(rules, path, at, entries))
    decreases entries, 1
  {
    if entries != [] {
      OneEntryBytes(rules, path, at, entries[0]);
      EntryBytesAreOfHeld(rules, path, at, entries[1..]);
      RetainedBytesJoin(HeldAt(rules, path, at, entries[0]), HeldIn(rules, path, at, entries[1..]));
    }
  }

  lemma {:induction false} OneEntryBytes(rules: Rules, path: Bytes, at: seq<Bytes>, entry: Entry)
    ensures OfEntry(rules, path, at, entry).bytes == RetainedBytes(HeldAt(rules, path, at, entry))
    decreases entry
  {
    if !rules.Skips(entry.name) && !entry.node.Opaque? {
      if entry.node.Leaf? {
        RetainedBytesJoin([Shown(rules, at + [entry.name])], []);
      } else {
        var full, inner := Join(path, entry.name), at + [entry.name];
        BytesAreOfHeld(rules, full, inner, entry.node);
        RetainedBytesJoin([full], HeldPaths(rules, full, inner, entry.node));
      }
    }
  }

  // ---------- The fullest moment ----------

  /** The bytes held when `n` more directories have been listed. */
  function HeldAfter(rules: Rules, pending: seq<Pending>, held: int, n: nat): int
    decreases n
  {
    if n == 0 || pending == [] then held
    else HeldAfter(rules, NextStack(rules, pending), NextHeld(rules, pending, held), n - 1)
  }

  /** The peak is what is held at some such moment, and no less than at any other. */
  lemma {:induction false} PeakIsTheFullest(rules: Rules, pending: seq<Pending>, held: int)
    ensures forall n: nat :: HeldAfter(rules, pending, held, n) <= PeakFrom(rules, pending, held)
    ensures exists n: nat :: HeldAfter(rules, pending, held, n) == PeakFrom(rules, pending, held)
    decreases StackSize(pending)
  {
    assert HeldAfter(rules, pending, held, 0) == held;
    if pending != [] {
      var next, nextHeld := NextStack(rules, pending), NextHeld(rules, pending, held);
      PeakIsTheFullest(rules, next, nextHeld);
      forall n: nat ensures HeldAfter(rules, pending, held, n) <= PeakFrom(rules, pending, held) {
        assert n > 0 ==> HeldAfter(rules, pending, held, n) == HeldAfter(rules, next, nextHeld, n - 1);
      }
      var m: nat :| HeldAfter(rules, next, nextHeld, m) == PeakFrom(rules, next, nextHeld);
      assert HeldAfter(rules, pending, held, m + 1) == HeldAfter(rules, next, nextHeld, m);
    }
  }

  /** The bytes of the files a listing shows. */
  function FileBytes(rules: Rules, comps: seq<Bytes>, entries: seq<Entry>): nat {
    if entries == [] then 0
    else
      FileBytes(rules, comps, entries[1..]) +
      if entries[0].node.Leaf? && !rules.Skips(entries[0].name) then |Shown(rules, comps + [entries[0].name])| else 0
  }

  lemma {:induction false} PendingBytesJoin(a: seq<Pending>, b: seq<Pending>)
    ensures PendingBytes(a + b) == PendingBytes(a) + PendingBytes(b)
  {
    if b == [] {
      assert a + b == a;
    } else {
      var n := |b| - 1;
      assert (a + b)[..|a| + n] == a + b[..n];
      PendingBytesJoin(a, b[..n]);
    }
  }

  lemma {:induction false} ListingHolds(rules: Rules, path: Bytes, comps: seq<Bytes>, entries: seq<Entry>)
    ensures HeldBy(rules, path, comps, entries) ==
      PendingBytes(SubDirs(rules, path, comps, entries)) + FileBytes(rules, comps, entries)
  {
    if entries != [] {
      ListingHolds(rules, path, comps, entries[1..]);
      var first := SubDir(rules, path, comps, entries[0]);
      PendingBytesJoin(first, SubDirs(rules, path, comps, entries[1..]));
      if first != [] {
        assert first[..0] == [];
      }
    }
  }

  /** From one moment to the next, what is held beside the paths on the stack grows by the files shown. */
  lemma HeldIsStackAndFiles(rules: Rules, pending: seq<Pending>, held: int, dir: Pending)
    requires pending != [] && dir == pending[|pending| - 1]
    ensures NextHeld(rules, pending, held) - PendingBytes(NextStack(rules, pending)) ==
      held - PendingBytes(pending) + FileBytes(rules, dir.comps, EntriesOf(dir.node))
  {
    var front := pending[..|pending| - 1];
    var inner := SubDirs(rules, dir.path, dir.comps, EntriesOf(dir.node));
    ListingHolds(rules, dir.path, dir.comps, EntriesOf(dir.node));
    PendingBytesJoin(front, inner);
  }
}
