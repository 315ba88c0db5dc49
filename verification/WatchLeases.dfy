/**
 * Reference counts of watched directories (src-tauri/src/fs.rs, fs_watch_dirs and
 * fs_unwatch): per root, a stack of leases and a count for each path some lease holds.
 */
module WatchLeases {
  import opened Collections

  type Path = string

  /** A recorded count is never zero: a path that no longer counts has no record. */
  type Count = n: nat | n > 0 witness 1

  const MAX_WATCHED_DIRS := 256

  /** `watched` is what the operating system watches; the rest is the source's record. */
  datatype RootWatcher = RootWatcher(paths: map<Path, Count>, leases: seq<seq<Path>>, watched: set<Path>)

  type Watchers = map<Path, RootWatcher>

  function CountOf(paths: map<Path, Count>, p: Path): nat {
    if p in paths then paths[p] else 0
  }

  /** Every path of `ps` counts once more. */
  function Raised(paths: map<Path, Count>, ps: set<Path>): map<Path, Count> {
    map p | p in paths.Keys + ps :: CountOf(paths, p) + if p in ps then 1 else 0
  }

  /** Every path of `ps` counts once less, and goes when that leaves nothing. */
  function Lowered(paths: map<Path, Count>, ps: set<Path>): map<Path, Count> {
    map p | p in paths && !(p in ps && paths[p] == 1) :: if p in ps then paths[p] - 1 else paths[p]
  }

  /** The paths of `ps` whose last count a lowering takes. */
  function Ending(paths: map<Path, Count>, ps: set<Path>): set<Path> {
    set p | p in ps && p in paths && paths[p] == 1
  }

  /** How many of the requested paths are dealt with before the system refuses one. */
  function BeforeRefusal(paths: map<Path, Count>, requested: seq<Path>, refuses: Path -> bool): (k: nat)
    ensures k <= |requested|
    ensures forall i :: 0 <= i < k ==> requested[i] in paths || !refuses(requested[i])
    ensures k < |requested| ==> requested[k] !in paths && refuses(requested[k])
  {
    if requested == [] then 0
    else if requested[0] !in paths && refuses(requested[0]) then 0
    else 1 + BeforeRefusal(paths, requested[1..], refuses)
  }

  /** Only a path that did not count before is handed to the system. */
  function Counted(r: RootWatcher, ps: set<Path>): RootWatcher {
    RootWatcher(Raised(r.paths, ps), r.leases, r.watched + (ps - r.paths.Keys))
  }

  const UNWATCHED := RootWatcher(map[], [], {})

  datatype Outcome =
    | Unchanged
    | Partial(left: RootWatcher)
    | Granted(left: RootWatcher)

  /** What a request makes of the root's record, or of a fresh one if it is not `known`. */
  function WatchOutcome(r: RootWatcher, known: bool, requested: seq<Path>, refuses: Path -> bool): Outcome {
    var k := BeforeRefusal(r.paths, requested, refuses);
    if |requested| > MAX_WATCHED_DIRS || |r.paths.Keys + Members(requested)| > MAX_WATCHED_DIRS then Unchanged
    else if k == |requested| then Granted(Counted(r, Members(requested)).(leases := r.leases + [requested]))
    else if known then Partial(Counted(r, Members(requested[..k])))
    else Unchanged
  }

  function Recorded(roots: Watchers, root: Path, outcome: Outcome): Watchers {
    if outcome.Unchanged? then roots else roots[root := outcome.left]
  }

  function RecordOf(roots: Watchers, root: Path): RootWatcher {
    if root in roots then roots[root] else UNWATCHED
  }

  /** A request goes through when it is granted; a partial one still leaves its counts. */
  function AfterWatch(roots: Watchers, root: Path, requested: seq<Path>, refuses: Path -> bool): (Watchers, bool) {
    var outcome := WatchOutcome(RecordOf(roots, root), root in roots, requested, refuses);
    (Recorded(roots, root, outcome), outcome.Granted?)
  }

  function Released(r: RootWatcher, lease: seq<Path>): RootWatcher {
    RootWatcher(Lowered(r.paths, Members(lease)), r.leases, r.watched - Ending(r.paths, Members(lease)))
  }

  /** The last lease goes; the root's record goes with its last lease. */
  function AfterUnwatch(roots: Watchers, root: Path): Watchers {
    if root !in roots then roots
    else
      var r := roots[root];
      var n := |r.leases|;
      var left := if n == 0 then r else Released(r.(leases := r.leases[..n - 1]), r.leases[n - 1]);
      if left.leases == [] then roots - {root} else roots[root := left]
  }

  // ---------- The two commands ----------

  /** A set's elements in some order, as a hash set gives them. */
  method Enumerate(s: set<Path>) returns (q: seq<Path>)
    ensures Distinct(q) && Members(q) == s && |q| == |s|
  {
    var rest := s;
    q := [];
    while rest != {}
      invariant Distinct(q) && rest <= s && |q| + |rest| == |s|
      invariant forall p :: p in q <==> p in s - rest
      decreases rest
    {
      var p :| p in rest;
      assert p !in q;
      q := q + [p];
      rest := rest - {p};
    }
  }

  /** One path counts once more; the system starts watching it if it did not count. */
  function CountedOnce(r: RootWatcher, p: Path): RootWatcher {
    RootWatcher(r.paths[p := CountOf(r.paths, p) + 1], r.leases, if p in r.paths then r.watched else r.watched + {p})
  }

  lemma CountedOneMore(r: RootWatcher, ps: set<Path>, p: Path)
    requires p !in ps
    ensures p in Counted(r, ps).paths <==> p in r.paths
    ensures Counted(r, ps + {p}) == CountedOnce(Counted(r, ps), p)
  {
    var c := Counted(r, ps);
    assert Raised(r.paths, ps + {p}) == c.paths[p := CountOf(c.paths, p) + 1];
    assert r.watched + (ps + {p} - r.paths.Keys) == if p in c.paths then c.watched else c.watched + {p};
  }

  lemma CountedNone(r: RootWatcher)
    ensures Counted(r, {}) == r
  {
    assert Raised(r.paths, {}) == r.paths;
  }

  lemma PrefixGrows(s: seq<Path>, i: nat)
    requires Distinct(s) && i < |s|
    ensures s[i] !in Members(s[..i]) && Members(s[..i + 1]) == Members(s[..i]) + {s[i]}
  {
    assert s[..i + 1] == s[..i] + [s[i]];
  }

  /** One turn of the counting loop. */
  lemma CountNext(r: RootWatcher, requested: seq<Path>, i: nat, c: RootWatcher)
    requires Distinct(requested) && i < |requested| && c == Counted(r, Members(requested[..i]))
    ensures requested[i] in c.paths <==> requested[i] in r.paths
    ensures CountedOnce(c, requested[i]) == Counted(r, Members(requested[..i + 1]))
  {
    PrefixGrows(requested, i);
    CountedOneMore(r, Members(requested[..i]), requested[i]);
  }

  lemma CountNothing(r: RootWatcher, requested: seq<Path>)
    ensures Counted(r, Members(requested[..0])) == r
  {
    assert Members(requested[..0]) == {};
    CountedNone(r);
  }

  /** The loop stops at the first path that did not count and is refused. */
  ghost predicate StopsAt(paths: map<Path, Count>, requested: seq<Path>, refuses: Path -> bool, k: nat) {
    && k <= |requested|
    && (forall i :: 0 <= i < k ==> requested[i] in paths || !refuses(requested[i]))
    && (k < |requested| ==> requested[k] !in paths && refuses(requested[k]))
  }

  lemma RefusedHereOnly(paths: map<Path, Count>, requested: seq<Path>, refuses: Path -> bool, k: nat, i: nat, p: Path)
    requires StopsAt(paths, requested, refuses, k) && i <= k && i < |requested| && p == requested[i]
    ensures p !in paths && refuses(p) <==> i == k
  {
  }

  /** The counting loop both branches run, up to the first path the system refuses. */
  method CountRequested(r: RootWatcher, requested: seq<Path>, refuses: Path -> bool, ghost k: nat)
    returns (c: RootWatcher, ok: bool)
    requires Distinct(requested) && StopsAt(r.paths, requested, refuses, k)
    ensures c == Counted(r, Members(requested[..k])) && (ok <==> k == |requested|)
  {
    c := r;
    CountNothing(r, requested);
    for i := 0 to |requested|
      invariant i <= k && c == Counted(r, Members(requested[..i]))
    {
      var p := requested[i];
      CountNext(r, requested, i, c);
      RefusedHereOnly(r.paths, requested, refuses, k, i, p);
      if p !in c.paths && refuses(p) {
        return c, false;
      }
      c := CountedOnce(c, p);
    }
    ok := true;
  }

  /** Both branches of the command, on the root's record. */
  method Request(r: RootWatcher, known: bool, requested: seq<Path>, refuses: Path -> bool) returns (outcome: Outcome)
    requires Distinct(requested)
    ensures outcome == WatchOutcome(r, known, requested, refuses)
  {
    assert requested[..|requested|] == requested;
    if |requested| > MAX_WATCHED_DIRS || |r.paths.Keys + Members(requested)| > MAX_WATCHED_DIRS {
      return Unchanged;
    }
    var counted, ok := CountRequested(r, requested, refuses, BeforeRefusal(r.paths, requested, refuses));
    if ok {
      return Granted(counted.(leases := r.leases + [requested]));
    }
    return if known then Partial(counted) else Unchanged;
  }

  class PathWatchers {
    var roots: Watchers

    constructor ()
      ensures roots == map[]
    {
      roots := map[];
    }

    method WatchDirs(root: Path, canonicalDirs: set<Path>, refuses: Path -> bool)
      returns (ok: bool, ghost requested: seq<Path>)
      modifies this
      ensures Distinct(requested) && Members(requested) == canonicalDirs
      ensures (roots, ok) == AfterWatch(old(roots), root, requested, refuses)
    {
      var order := Enumerate(canonicalDirs);
      requested := order;
      var before := if root in roots then roots[root] else UNWATCHED;
      var outcome := Request(before, root in roots, order, refuses);
      if !outcome.Unchanged? {
        roots := roots[root := outcome.left];
      }
      ok := outcome.Granted?;
    }

    method Unwatch(root: Path) returns (forgotten: bool)
      modifies this
      requires root in roots ==> forall k :: 0 <= k < |roots[root].leases| ==> Distinct(roots[root].leases[k])
      ensures roots == AfterUnwatch(old(roots), root)
      ensures forgotten <==> root in old(roots) && root !in roots
    {
      if root !in roots {
        return false;
      }
      var watcher := roots[root];
      if watcher.leases != [] {
        var lease := watcher.leases[|watcher.leases| - 1];
        watcher := watcher.(leases := watcher.leases[..|watcher.leases| - 1]);
        ghost var before := watcher;
        assert Members(lease[..0]) == {};
        ReleasedNone(before);
        for i := 0 to |lease|
          invariant roots == old(roots)
          invariant watcher == before.(paths := Lowered(before.paths, Members(lease[..i])),
                                       watched := before.watched - Ending(before.paths, Members(lease[..i])))
        {
          var path := lease[i];
          PrefixGrows(lease, i);
          ReleasedOneMore(before, Members(lease[..i]), path);
          if path in watcher.paths {
            if watcher.paths[path] == 1 {
              watcher := watcher.(paths := watcher.paths - {path}, watched := watcher.watched - {path});
            } else {
              watcher := watcher.(paths := watcher.paths[path := watcher.paths[path] - 1]);
            }
          }
        }
        assert lease[..|lease|] == lease;
        assert watcher == Released(before, lease);
      }
      if watcher.leases == [] {
        roots := roots - {root};
        return true;
      }
      roots := roots[root := watcher];
      return false;
    }
  }

  lemma ReleasedNone(r: RootWatcher)
    ensures Lowered(r.paths, {}) == r.paths && Ending(r.paths, {}) == {}
  {
  }

  lemma ReleasedOneMore(r: RootWatcher, ps: set<Path>, p: Path)
    requires p !in ps
    ensures var c := Lowered(r.paths, ps);
      && (p in c <==> p in r.paths)
      && (p in c ==> c[p] == r.paths[p])
      && (p in c && c[p] == 1 ==>
          Lowered(r.paths, ps + {p}) == c - {p} && Ending(r.paths, ps + {p}) == Ending(r.paths, ps) + {p})
      && (p in c && c[p] > 1 ==>
          Lowered(r.paths, ps + {p}) == c[p := c[p] - 1] && Ending(r.paths, ps + {p}) == Ending(r.paths, ps))
      && (p !in c ==> Lowered(r.paths, ps + {p}) == c && Ending(r.paths, ps + {p}) == Ending(r.paths, ps))
  {
  }

  // ---------- Every run of calls ----------

  /** One call, with the order its directories were taken in and what the system refuses. */
  datatype Call =
    | Watching(root: Path, requested: seq<Path>, refuses: Path -> bool)
    | Unwatching(root: Path)

  function After(roots: Watchers, call: Call): Watchers {
    match call
    case Watching(root, requested, refuses) => AfterWatch(roots, root, requested, refuses).0
    case Unwatching(root) => AfterUnwatch(roots, root)
  }

  ghost predicate WellFormed(call: Call) {
    call.Watching? ==> Distinct(call.requested)
  }

  function Run(calls: seq<Call>): Watchers {
    if calls == [] then map[] else After(Run(calls[..|calls| - 1]), calls[|calls| - 1])
  }

  /** The number of leases that hold `p`. */
  ghost function Holding(leases: seq<seq<Path>>, p: Path): nat {
    if leases == [] then 0
    else Holding(leases[..|leases| - 1], p) + if p in leases[|leases| - 1] then 1 else 0
  }

  /** Every held path counts, the system watches what counts, and that is within the budget. */
  ghost predicate Sound(r: RootWatcher) {
    && r.leases != []
    && (forall k :: 0 <= k < |r.leases| ==> Distinct(r.leases[k]))
    && (forall p :: Holding(r.leases, p) <= CountOf(r.paths, p))
    && r.watched == r.paths.Keys
    && |r.watched| <= MAX_WATCHED_DIRS
  }

  /** And no path counts for more than the leases that hold it. */
  ghost predicate Exact(r: RootWatcher) {
    forall p :: CountOf(r.paths, p) == Holding(r.leases, p)
  }

  ghost predicate AllSound(roots: Watchers) {
    forall root :: root in roots ==> Sound(roots[root])
  }

  ghost predicate AllExact(roots: Watchers) {
    forall root :: root in roots ==> Exact(roots[root])
  }

  lemma LeaseAdded(r: RootWatcher, requested: seq<Path>, p: Path)
    ensures var c := Counted(r, Members(requested)).(leases := r.leases + [requested]);
      && Holding(c.leases, p) == Holding(r.leases, p) + (if p in requested then 1 else 0)
      && CountOf(c.paths, p) == CountOf(r.paths, p) + (if p in requested then 1 else 0)
  {
    assert (r.leases + [requested])[..|r.leases|] == r.leases;
  }

  lemma CountedKeepsKeys(r: RootWatcher, ps: set<Path>, all: set<Path>)
    requires r.watched == r.paths.Keys && ps <= all && |r.paths.Keys + all| <= MAX_WATCHED_DIRS
    ensures var c := Counted(r, ps); c.watched == c.paths.Keys && |c.watched| <= MAX_WATCHED_DIRS
  {
    var keys := r.paths.Keys;
    RaisedKeys(r.paths, ps);
    UnionOfNew(keys, ps);
    SubsetIsSmaller(keys + ps, keys + all);
  }

  lemma RaisedKeys(paths: map<Path, Count>, ps: set<Path>)
    ensures Raised(paths, ps).Keys == paths.Keys + ps
  {
  }

  lemma UnionOfNew(keys: set<Path>, ps: set<Path>)
    ensures keys + (ps - keys) == keys + ps
  {
  }

  /** A record that is only missing a lease, as a fresh one is. */
  ghost predicate SoundButForLeases(r: RootWatcher) {
    && (forall k :: 0 <= k < |r.leases| ==> Distinct(r.leases[k]))
    && (forall p :: Holding(r.leases, p) <= CountOf(r.paths, p))
    && r.watched == r.paths.Keys
  }

  lemma GrantKeepsSound(r: RootWatcher, requested: seq<Path>)
    requires SoundButForLeases(r) && Distinct(requested)
    requires |r.paths.Keys + Members(requested)| <= MAX_WATCHED_DIRS
    ensures var c := Counted(r, Members(requested)).(leases := r.leases + [requested]);
      Sound(c) && (Exact(r) ==> Exact(c))
  {
    CountedKeepsKeys(r, Members(requested), Members(requested));
    var c := Counted(r, Members(requested)).(leases := r.leases + [requested]);
    forall p ensures Holding(c.leases, p) - CountOf(c.paths, p) == Holding(r.leases, p) - CountOf(r.paths, p) {
      LeaseAdded(r, requested, p);
    }
  }

  lemma RefusalKeepsSound(r: RootWatcher, part: set<Path>, all: set<Path>)
    requires Sound(r) && part <= all && |r.paths.Keys + all| <= MAX_WATCHED_DIRS
    ensures Sound(Counted(r, part))
  {
    CountedKeepsKeys(r, part, all);
    forall p ensures Holding(r.leases, p) <= CountOf(Counted(r, part).paths, p) {
    }
  }

  /** The three ways a request can end. */
  lemma OutcomeCases(r: RootWatcher, known: bool, requested: seq<Path>, refuses: Path -> bool, k: nat, outcome: Outcome)
    requires k == BeforeRefusal(r.paths, requested, refuses) && outcome == WatchOutcome(r, known, requested, refuses)
    ensures !outcome.Unchanged? ==> |r.paths.Keys + Members(requested)| <= MAX_WATCHED_DIRS
    ensures outcome.Partial? ==> known && outcome.left == Counted(r, Members(requested[..k]))
    ensures outcome.Granted? ==> outcome.left == Counted(r, Members(requested)).(leases := r.leases + [requested])
  {
  }

  lemma OutcomeIsSound(r: RootWatcher, known: bool, requested: seq<Path>, refuses: Path -> bool, outcome: Outcome)
    requires SoundButForLeases(r) && Distinct(requested) && (known ==> Sound(r))
    requires outcome == WatchOutcome(r, known, requested, refuses)
    ensures outcome.Partial? ==> known
    ensures !outcome.Unchanged? ==> Sound(outcome.left)
    ensures outcome.Granted? && Exact(r) ==> Exact(outcome.left)
  {
    var k := BeforeRefusal(r.paths, requested, refuses);
    OutcomeCases(r, known, requested, refuses, k, outcome);
    match outcome
    case Unchanged =>
    case Partial(_) => RefusalKeepsSound(r, Members(requested[..k]), Members(requested));
    case Granted(_) => GrantKeepsSound(r, requested);
  }

  lemma RecordedKeepsSound(roots: Watchers, root: Path, outcome: Outcome)
    requires AllSound(roots) && (!outcome.Unchanged? ==> Sound(outcome.left))
    ensures AllSound(Recorded(roots, root, outcome))
    ensures AllExact(roots) && (!outcome.Unchanged? ==> Exact(outcome.left)) ==> AllExact(Recorded(roots, root, outcome))
  {
  }

  lemma WatchKeepsSound(roots: Watchers, root: Path, requested: seq<Path>, refuses: Path -> bool)
    requires AllSound(roots) && Distinct(requested)
    ensures AllSound(AfterWatch(roots, root, requested, refuses).0)
    ensures AfterWatch(roots, root, requested, refuses).1 && AllExact(roots) ==>
      AllExact(AfterWatch(roots, root, requested, refuses).0)
  {
    var r := RecordOf(roots, root);
    var outcome := WatchOutcome(r, root in roots, requested, refuses);
    OutcomeIsSound(r, root in roots, requested, refuses, outcome);
    RecordedKeepsSound(roots, root, outcome);
  }

  /** A request the system does not refuse either goes through or changes nothing. */
  lemma NoRefusalNoPartial(roots: Watchers, root: Path, requested: seq<Path>, refuses: Path -> bool)
    requires forall p :: !refuses(p)
    ensures AfterWatch(roots, root, requested, refuses).1 || AfterWatch(roots, root, requested, refuses).0 == roots
  {
  }

  lemma ReleasedCounts(r: RootWatcher, leases: seq<seq<Path>>, p: Path)
    requires r.leases != [] && Sound(r)
    ensures var n := |r.leases| - 1; var c := Released(r.(leases := r.leases[..n]), r.leases[n]);
      && Holding(c.leases, p) == Holding(r.leases, p) - (if p in r.leases[n] then 1 else 0)
      && CountOf(c.paths, p) == CountOf(r.paths, p) - (if p in r.leases[n] then 1 else 0)
  {
  }

  lemma UnwatchKeepsSound(roots: Watchers, root: Path)
    requires AllSound(roots)
    ensures AllSound(AfterUnwatch(roots, root))
    ensures AllExact(roots) ==> AllExact(AfterUnwatch(roots, root))
  {
    if root in roots {
      var r := roots[root];
      var n := |r.leases| - 1;
      var c := Released(r.(leases := r.leases[..n]), r.leases[n]);
      forall p ensures Holding(c.leases, p) <= CountOf(c.paths, p)
        && (CountOf(r.paths, p) == Holding(r.leases, p) ==> CountOf(c.paths, p) == Holding(c.leases, p)) {
        ReleasedCounts(r, r.leases, p);
      }
      assert c.watched == c.paths.Keys;
      SubsetIsSmaller(c.watched, r.watched);
    }
  }

  ghost predicate NeverRefused(calls: seq<Call>) {
    forall k :: 0 <= k < |calls| && calls[k].Watching? ==> forall p :: !calls[k].refuses(p)
  }

  lemma StepKeepsSound(roots: Watchers, call: Call)
    requires AllSound(roots) && WellFormed(call)
    ensures AllSound(After(roots, call))
    ensures AllExact(roots) && (call.Watching? ==> forall p :: !call.refuses(p)) ==> AllExact(After(roots, call))
  {
    match call
    case Watching(root, requested, refuses) =>
      WatchKeepsSound(roots, root, requested, refuses);
      if forall p :: !refuses(p) {
        NoRefusalNoPartial(roots, root, requested, refuses);
      }
    case Unwatching(root) => UnwatchKeepsSound(roots, root);
  }

  /**
   * Whatever the system refuses along the way, in every run each path of a lease counts at
   * least once per lease holding it, a root is recorded only while it has a lease, and the
   * system watches exactly what counts, at most 256 paths a root.
   */
  lemma {:induction false} CountsCoverLeases(calls: seq<Call>)
    requires forall k :: 0 <= k < |calls| ==> WellFormed(calls[k])
    ensures AllSound(Run(calls))
  {
    if calls != [] {
      var n := |calls| - 1;
      CountsCoverLeases(calls[..n]);
      StepKeepsSound(Run(calls[..n]), calls[n]);
    }
  }

  /** When the system refuses nothing, each path counts exactly the leases that hold it. */
  lemma {:induction false} CountsAreLeases(calls: seq<Call>)
    requires forall k :: 0 <= k < |calls| ==> WellFormed(calls[k])
    requires NeverRefused(calls)
    ensures AllExact(Run(calls))
  {
    if calls != [] {
      var n := |calls| - 1;
      CountsAreLeases(calls[..n]);
      CountsCoverLeases(calls[..n]);
      StepKeepsSound(Run(calls[..n]), calls[n]);
    }
  }

  lemma {:induction false} HoldingIsPositive(leases: seq<seq<Path>>, k: nat, p: Path)
    requires k < |leases| && p in leases[k]
    ensures Holding(leases, p) > 0
  {
    if k < |leases| - 1 {
      HoldingIsPositive(leases[..|leases| - 1], k, p);
    }
  }

  /** So `fs_unwatch` never meets a leased path without a count. */
  lemma LeasedPathsAlwaysCount(calls: seq<Call>, roots: Watchers, root: Path, k: nat, p: Path)
    requires roots == Run(calls) && forall i :: 0 <= i < |calls| ==> WellFormed(calls[i])
    requires root in roots && k < |roots[root].leases| && p in roots[root].leases[k]
    ensures p in roots[root].paths
  {
    CountsCoverLeases(calls);
    HoldingIsPositive(roots[root].leases, k, p);
  }

  lemma LoweringUndoesRaising(paths: map<Path, Count>, ps: set<Path>)
    ensures Lowered(Raised(paths, ps), ps) == paths
    ensures Ending(Raised(paths, ps), ps) == ps - paths.Keys
  {
  }

  lemma ReleaseUndoesCount(r: RootWatcher, requested: seq<Path>)
    requires r.watched == r.paths.Keys
    ensures Released(Counted(r, Members(requested)), requested) == r
  {
    LoweringUndoesRaising(r.paths, Members(requested));
    assert r.watched + (Members(requested) - r.paths.Keys) - (Members(requested) - r.paths.Keys) == r.watched;
  }

  /** Unwatching takes back exactly what the last successful watch of the root did. */
  lemma UnwatchUndoesWatch(roots: Watchers, root: Path, requested: seq<Path>, refuses: Path -> bool, after: Watchers)
    requires AllSound(roots)
    requires AfterWatch(roots, root, requested, refuses) == (after, true)
    ensures AfterUnwatch(after, root) == roots
  {
    var r := RecordOf(roots, root);
    ReleaseUndoesCount(r, requested);
    TakenBack(roots, root, r, Counted(r, Members(requested)), requested);
  }

  lemma TakenBack(roots: Watchers, root: Path, r: RootWatcher, c: RootWatcher, requested: seq<Path>)
    requires c.leases == r.leases && Released(c, requested) == r
    requires r == RecordOf(roots, root) && (root in roots ==> r.leases != [])
    ensures AfterUnwatch(roots[root := c.(leases := r.leases + [requested])], root) == roots
  {
    var w := c.(leases := r.leases + [requested]);
    assert w.leases[..|w.leases| - 1] == r.leases;
    assert w.(leases := r.leases) == c;
    if root in roots {
      assert roots[root := w][root := r] == roots;
    } else {
      assert roots[root := w] - {root} == roots;
    }
  }

  // ---------- When a request is granted, and what each call does ----------

  lemma StopsOnlyOnce(paths: map<Path, Count>, requested: seq<Path>, refuses: Path -> bool, k: nat)
    requires StopsAt(paths, requested, refuses, k)
    ensures k == |requested| <==> forall p :: p in requested ==> p in paths || !refuses(p)
  {
    if k == |requested| {
      forall p | p in requested ensures p in paths || !refuses(p) {
        var i :| 0 <= i < |requested| && requested[i] == p;
      }
    } else {
      assert requested[k] in requested;
    }
  }

  lemma RequestIsWithinUnion(keys: set<Path>, requested: seq<Path>)
    requires Distinct(requested)
    ensures |requested| <= |keys + Members(requested)|
  {
    DistinctCount(requested);
    SubsetIsSmaller(Members(requested), keys + Members(requested));
  }

  /** What counts for a root: nothing, unless it is known. */
  function PathsOf(roots: Watchers, root: Path): map<Path, Count> {
    if root in roots then roots[root].paths else map[]
  }

  /**
   * A request is granted exactly when the paths that count together with the requested ones
   * fit the budget and the system refuses none of those it has to be asked for, whether or
   * not the root is known already.
   */
  lemma GrantedIffItFits(roots: Watchers, root: Path, requested: seq<Path>, refuses: Path -> bool)
    requires Distinct(requested)
    ensures AfterWatch(roots, root, requested, refuses).1 <==>
      && |PathsOf(roots, root).Keys + (set p | p in requested)| <= 256
      && forall p :: p in requested && p !in PathsOf(roots, root) ==> !refuses(p)
  {
    var paths := PathsOf(roots, root);
    var k := BeforeRefusal(paths, requested, refuses);
    assert paths == RecordOf(roots, root).paths;
    assert Members(requested) == set p | p in requested;
    StopsOnlyOnce(paths, requested, refuses, k);
    RequestIsWithinUnion(paths.Keys, requested);
  }

  /** The paths of `part` count once more in `after` than in `before`, the others as often. */
  ghost predicate CountMore(before: map<Path, Count>, after: map<Path, Count>, part: seq<Path>) {
    && (forall p :: p in after <==> p in before || p in part)
    && (forall p :: p in after && p in part ==> after[p] == 1 + if p in before then before[p] else 0)
    && (forall p :: p in after && p !in part ==> after[p] == before[p])
  }

  /** `after` differs from `before` in what it holds for `root` only. */
  ghost predicate OthersStay(before: Watchers, after: Watchers, root: Path) {
    && (forall other :: other != root ==> (other in after <==> other in before))
    && (forall other :: other != root && other in after ==> after[other] == before[other])
  }

  lemma CountingMore(r: RootWatcher, part: seq<Path>, c: RootWatcher)
    requires r.watched == r.paths.Keys && c == Counted(r, Members(part))
    ensures CountMore(r.paths, c.paths, part) && c.watched == c.paths.Keys
  {
    RaisedKeys(r.paths, Members(part));
  }

  /** A granted request is on top of the root's leases, its paths count once more and are watched. */
  lemma GrantedRequestCounts(roots: Watchers, root: Path, requested: seq<Path>, refuses: Path -> bool, after: Watchers)
    requires AllSound(roots) && AfterWatch(roots, root, requested, refuses) == (after, true)
    ensures OthersStay(roots, after, root) && root in after
    ensures after[root].leases == (if root in roots then roots[root].leases else []) + [requested]
    ensures CountMore(PathsOf(roots, root), after[root].paths, requested)
    ensures forall p :: p in after[root].watched <==> p in requested || (root in roots && p in roots[root].watched)
  {
    var r := RecordOf(roots, root);
    CountingMore(r, requested, Counted(r, Members(requested)));
  }

  /**
   * Any other adds no lease and makes no root known. For a known root whose budget would
   * hold, the paths before the first refused one stay counted.
   */
  lemma RefusedRequestAddsNoLease(roots: Watchers, root: Path, requested: seq<Path>, refuses: Path -> bool, after: Watchers, k: nat)
    requires AllSound(roots) && AfterWatch(roots, root, requested, refuses) == (after, false) && Distinct(requested)
    requires StopsAt(PathsOf(roots, root), requested, refuses, k)
    ensures OthersStay(roots, after, root) && (root in after <==> root in roots)
    ensures root in roots && |roots[root].paths.Keys + (set p | p in requested)| > 256 ==> after[root] == roots[root]
    ensures root in roots && |roots[root].paths.Keys + (set p | p in requested)| <= 256 ==>
      && after[root].leases == roots[root].leases
      && CountMore(roots[root].paths, after[root].paths, requested[..k])
      && after[root].watched == after[root].paths.Keys
  {
    if root in roots {
      var r := roots[root];
      assert Members(requested) == set p | p in requested;
      RequestIsWithinUnion(r.paths.Keys, requested);
      StopsAtOnePlace(r.paths, requested, refuses, k, BeforeRefusal(r.paths, requested, refuses));
      CountingMore(r, requested[..k], Counted(r, Members(requested[..k])));
    }
  }

  lemma StopsAtOnePlace(paths: map<Path, Count>, requested: seq<Path>, refuses: Path -> bool, j: nat, k: nat)
    requires StopsAt(paths, requested, refuses, j) && StopsAt(paths, requested, refuses, k)
    ensures j == k
  {
  }

  /** Unwatching takes the last lease of the root down, path by path, and the root with its last one. */
  lemma UnwatchTakesTheLastLease(roots: Watchers, root: Path, after: Watchers)
    requires AllSound(roots) && after == AfterUnwatch(roots, root)
    ensures OthersStay(roots, after, root)
    ensures root !in roots ==> root !in after
    ensures root in roots ==> (root in after <==> |roots[root].leases| > 1)
    ensures root in after ==>
      && roots[root].leases == after[root].leases + [roots[root].leases[|roots[root].leases| - 1]]
      && CountMore(after[root].paths, roots[root].paths, roots[root].leases[|roots[root].leases| - 1])
      && after[root].watched == after[root].paths.Keys
  {
    if root in after {
      var r := roots[root];
      var n := |r.leases| - 1;
      LeasedCounts(r, n);
      assert r.leases[..n] + [r.leases[n]] == r.leases;
      UnwatchKeepsSound(roots, root);
    }
  }

  lemma LeasedCounts(r: RootWatcher, n: nat)
    requires Sound(r) && n == |r.leases| - 1
    ensures CountMore(Released(r.(leases := r.leases[..n]), r.leases[n]).paths, r.paths, r.leases[n])
  {
    forall p | p in r.leases[n] ensures p in r.paths {
      HoldingIsPositive(r.leases, n, p);
    }
  }

  lemma OneMoreCall(calls: seq<Call>, call: Call)
    ensures Run(calls + [call]) == After(Run(calls), call)
  {
    assert (calls + [call])[..|calls|] == calls;
  }

  /** A request that fits is on top, and unwatching takes it back. */
  lemma FittingRequest(roots: Watchers, root: Path, requested: seq<Path>, refuses: Path -> bool, after: Watchers)
    requires AllSound(roots) && Distinct(requested) && after == AfterWatch(roots, root, requested, refuses).0
    requires |PathsOf(roots, root).Keys + (set p | p in requested)| <= 256
    requires forall p :: p in requested && p !in PathsOf(roots, root) ==> !refuses(p)
    ensures root in after && after[root].leases != [] && after[root].leases[|after[root].leases| - 1] == requested
    ensures AfterUnwatch(after, root) == roots
  {
    GrantedIffItFits(roots, root, requested, refuses);
    GrantedRequestCounts(roots, root, requested, refuses, after);
    UnwatchUndoesWatch(roots, root, requested, refuses, after);
  }

  /** So it is after any run of calls. */
  lemma RequestAfterRun(calls: seq<Call>, roots: Watchers, root: Path, requested: seq<Path>, refuses: Path -> bool,
                        watched: seq<Call>)
    requires (forall i :: 0 <= i < |calls| ==> WellFormed(calls[i])) && Distinct(requested)
    requires roots == Run(calls) && watched == calls + [Watching(root, requested, refuses)]
    requires |PathsOf(roots, root).Keys + (set p | p in requested)| <= 256
    requires forall p :: p in requested && p !in PathsOf(roots, root) ==> !refuses(p)
    ensures root in Run(watched) && Run(watched)[root].leases != []
    ensures Run(watched)[root].leases[|Run(watched)[root].leases| - 1] == requested
    ensures Run(watched + [Unwatching(root)]) == roots
  {
    CountsCoverLeases(calls);
    OneMoreCall(calls, Watching(root, requested, refuses));
    OneMoreCall(watched, Unwatching(root));
    FittingRequest(roots, root, requested, refuses, Run(watched));
  }
}
