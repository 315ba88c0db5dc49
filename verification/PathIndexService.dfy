/**
 * What a request for an index gets, in every run of the path index loader
 * (src-tauri/src/fs.rs, load_path_index_with): the cached index, a build under way, one new
 * scan or a refusal, and how long an index that was published goes on being served.
 */
module PathIndexService {
  import opened Wrappers
  import opened PathIndexCaches
  import opened PathIndexProtocol

  // ---------- The four ways a request can go ----------

  /** The request just added, and nothing else, tells the two worlds apart for those who wait. */
  ghost predicate AddsRequest(w: World, v: World, root: Path, progress: Progress) {
    && |v.requests| == |w.requests| + 1 && v.requests[..|w.requests|] == w.requests
    && v.requests[|w.requests|] == Request(root, LastInvalidated(w, root), progress)
  }

  ghost predicate StartsNothing(w: World, v: World) {
    v.scans == w.scans && v.freePermits == w.freePermits
  }

  /** One scan of the root is queued, on one permit, and recorded as its build. */
  ghost predicate StartsScan(w: World, v: World, root: Path) {
    var build := |w.scans|;
    && |v.scans| == build + 1 && v.scans[..build] == w.scans && w.freePermits == v.freePermits + 1
    && root in v.cache.generations && root in v.cache.builds
    && v.cache.builds[root] == (v.cache.generations[root], build)
    && v.scans[build] == Scan(root, v.cache.generations[root], w.clock, Queued)
    && (root in w.cache.generations ==> v.cache.generations[root] == w.cache.generations[root])
  }

  /** The cache goes on holding for `root` what it held. */
  ghost predicate HoldsAsBefore(w: World, v: World, root: Path) {
    && (root in v.cache.indexes <==> root in w.cache.indexes)
    && (root in v.cache.indexes ==> v.cache.indexes[root] == w.cache.indexes[root])
    && (root in v.cache.builds <==> root in w.cache.builds)
    && (root in v.cache.builds ==> v.cache.builds[root] == w.cache.builds[root])
  }

  lemma TouchHoldsAsBefore(c: CacheState, root: Path, t: CacheState)
    requires c.Valid() && t == Touched(c, root)
    ensures root in t.generations && (root in c.generations ==> t.generations[root] == c.generations[root])
    ensures root in t.indexes <==> root in c.indexes
    ensures root in t.indexes ==> t.indexes[root] == c.indexes[root] && t.indexes[root].0 == t.generations[root]
    ensures root in t.builds <==> root in c.builds
    ensures root in t.builds ==> t.builds[root] == c.builds[root] && t.builds[root].0 == t.generations[root]
  {
    TouchEvictsOnlyTheOldest(c, root);
    LookupGenerationsAgree(c, root);
  }

  lemma HitsServe(w: World, root: Path, v: World)
    requires w.cache.Valid() && v == Step(w, Begin(root)) && root in w.cache.indexes
    ensures AddsRequest(w, v, root, Answered(Success(w.cache.indexes[root].1)))
    ensures StartsNothing(w, v) && HoldsAsBefore(w, v, root)
  {
    TouchHoldsAsBefore(w.cache, root, Touched(w.cache, root));
  }

  lemma BuildsAreJoined(w: World, root: Path, v: World)
    requires w.cache.Valid() && v == Step(w, Begin(root)) && root !in w.cache.indexes && root in w.cache.builds
    ensures AddsRequest(w, v, root, Waiting(w.cache.builds[root].0, w.cache.builds[root].1))
    ensures StartsNothing(w, v) && HoldsAsBefore(w, v, root)
  {
    TouchHoldsAsBefore(w.cache, root, Touched(w.cache, root));
  }

  lemma NoPermitMeansRefusal(w: World, root: Path, v: World)
    requires w.cache.Valid() && v == Step(w, Begin(root)) && root !in w.cache.indexes && root !in w.cache.builds
    requires w.freePermits == 0
    ensures AddsRequest(w, v, root, Refused)
    ensures StartsNothing(w, v) && HoldsAsBefore(w, v, root)
  {
    TouchHoldsAsBefore(w.cache, root, Touched(w.cache, root));
  }

  lemma OthersScan(w: World, root: Path, v: World)
    requires w.cache.Valid() && v == Step(w, Begin(root)) && root !in w.cache.indexes && root !in w.cache.builds
    requires w.freePermits > 0
    ensures root in v.cache.generations && AddsRequest(w, v, root, Waiting(v.cache.generations[root], |w.scans|))
    ensures StartsScan(w, v, root)
  {
    TouchHoldsAsBefore(w.cache, root, Touched(w.cache, root));
  }

  /** A cached index is served, and starts no scan. */
  lemma CachedIndexIsServed(w: World, root: Path, v: World)
    requires Reachable(w) && v == Step(w, Begin(root)) && root in w.cache.indexes
    ensures AddsRequest(w, v, root, Answered(Success(w.cache.indexes[root].1)))
    ensures StartsNothing(w, v) && HoldsAsBefore(w, v, root)
  {
    RunKeepsInv(w);
    HitsServe(w, root, v);
  }

  /** Without one the recorded build is joined; failing that too, one scan starts as long as fewer than two are under way. */
  lemma UncachedRootJoinsOrScans(w: World, root: Path, v: World)
    requires Reachable(w) && v == Step(w, Begin(root)) && root !in w.cache.indexes
    ensures root in w.cache.builds ==>
      AddsRequest(w, v, root, Waiting(w.cache.builds[root].0, w.cache.builds[root].1)) && StartsNothing(w, v)
    ensures root !in w.cache.builds && CountUnfinished(w.scans) < 2 ==>
      && root in v.cache.generations && AddsRequest(w, v, root, Waiting(v.cache.generations[root], |w.scans|))
      && StartsScan(w, v, root)
  {
    RunKeepsInv(w);
    if root in w.cache.builds {
      BuildsAreJoined(w, root, v);
    } else if w.freePermits > 0 {
      OthersScan(w, root, v);
    }
  }

  /** A request is refused exactly when nothing is recorded for its root and two scans are under way. */
  lemma RefusedIffBusy(w: World, root: Path, v: World)
    requires Reachable(w) && v == Step(w, Begin(root))
    ensures AddsRequest(w, v, root, Refused) <==>
      root !in w.cache.indexes && root !in w.cache.builds && CountUnfinished(w.scans) == 2
    ensures AddsRequest(w, v, root, Refused) ==> StartsNothing(w, v) && HoldsAsBefore(w, v, root)
  {
    RunKeepsInv(w);
    if root in w.cache.indexes {
      HitsServe(w, root, v);
    } else if root in w.cache.builds {
      BuildsAreJoined(w, root, v);
    } else if w.freePermits == 0 {
      NoPermitMeansRefusal(w, root, v);
    } else {
      OthersScan(w, root, v);
    }
  }

  // ---------- What the other steps do for a root ----------

  /** Answers one request and leaves all others. */
  ghost predicate AnswersOnly(w: World, v: World, q: nat, answer: Answer)
    requires q < |w.requests|
  {
    && |v.requests| == |w.requests|
    && v.requests[q] == w.requests[q].(progress := Answered(answer))
    && forall p :: 0 <= p < |w.requests| && p != q ==> v.requests[p] == w.requests[p]
  }

  lemma ResumePublishes(w: World, q: nat, build: BuildId, root: Path, snapshot: Snapshot, v: World)
    requires Inv(w) && Resumable(w, q) && v == Step(w, Resume(q))
    requires build == w.requests[q].progress.build && root == w.requests[q].root
    requires w.scans[build].phase.answer == Success(snapshot) && Current(w, build)
    ensures root in v.cache.indexes && v.cache.indexes[root] == (w.cache.generations[root], snapshot)
    ensures root in v.cache.builds ==> root in w.cache.builds && v.cache.builds[root].1 != build
  {
    assert Sound(w, w.requests[q]);
  }

  /** A waiter is answered with what its scan returned. A success under the generation its root still has is cached. */
  lemma ResumedSuccessIsCached(w: World, q: nat, build: BuildId, root: Path, v: World)
    requires Reachable(w) && Resumable(w, q) && v == Step(w, Resume(q))
    requires build == w.requests[q].progress.build && root == w.requests[q].root
    ensures AnswersOnly(w, v, q, w.scans[build].phase.answer) && StartsNothing(w, v)
    ensures v.cache.generations == w.cache.generations && v.cache.recent == w.cache.recent
    ensures w.scans[build].phase.answer.Success? && Current(w, build) ==>
      root in v.cache.indexes && v.cache.indexes[root].1 == w.scans[build].phase.answer.value
  {
    RunKeepsInv(w);
    if w.scans[build].phase.answer.Success? && Current(w, build) {
      ResumePublishes(w, q, build, root, w.scans[build].phase.answer.value, v);
    }
  }

  /** An invalidation drops its own root's index and build, and moves it to another generation; a forget drops all of it. */
  lemma OtherRootsStay(w: World, root: Path, event: Event, v: World, other: Path)
    requires (event == Invalidate(root) || event == Forget(root)) && v == Step(w, event)
    ensures root !in v.cache.indexes && root !in v.cache.builds
    ensures event.Forget? ==> root !in v.cache.generations && root !in v.cache.recent
    ensures event.Invalidate? ==> v.cache.recent == w.cache.recent
    ensures other != root ==>
      && HoldsAsBefore(w, v, other)
      && (other in v.cache.recent <==> other in w.cache.recent)
      && (other in v.cache.generations <==> other in w.cache.generations)
      && (other in v.cache.generations ==> v.cache.generations[other] == w.cache.generations[other])
    ensures StartsNothing(w, v) && v.requests == w.requests
  {
  }

  // ---------- How long an index is served ----------

  /** The scan has not failed (yet). */
  ghost predicate Hopeful(s: Scan) {
    s.phase.Finished? ==> s.phase.answer.Success?
  }

  /**
   * A root has an index or a build, never both, and a scan under its current generation that
   * has not failed is the one recorded.
   */
  ghost predicate OneSource(w: World) {
    && (forall root :: root in w.cache.indexes ==> root !in w.cache.builds)
    && (forall b :: 0 <= b < |w.scans| && Current(w, b) && Hopeful(w.scans[b]) ==> IsSource(w, b))
  }

  ghost predicate IsSource(w: World, b: BuildId)
    requires b < |w.scans|
  {
    var root := w.scans[b].root;
    || (root in w.cache.builds && w.cache.builds[root].1 == b)
    || (root in w.cache.indexes && w.cache.indexes[root].1.scan == b)
  }

  /** Scans that stay current keep their records, and no record is new. */
  lemma RecordsCarryOver(w: World, v: World)
    requires OneSource(w) && v.scans == w.scans
    requires v.cache.indexes.Keys <= w.cache.indexes.Keys && v.cache.builds.Keys <= w.cache.builds.Keys
    requires forall b :: 0 <= b < |v.scans| && Current(v, b) ==> Current(w, b) && HoldsAsBefore(w, v, w.scans[b].root)
    ensures OneSource(v)
  {
    forall b | 0 <= b < |v.scans| && Current(v, b) && Hopeful(v.scans[b]) ensures IsSource(v, b) {
      assert IsSource(w, b);
    }
  }

  lemma KeptRootHolds(w: World, root: Path, t: CacheState, v: World, p: Path)
    requires v == TouchedWorld(w, root, t) && TouchedFrom(w.cache, t, root)
    requires p in w.cache.generations && p in t.generations
    ensures HoldsAsBefore(w, v, p)
  {
  }

  lemma TouchKeepsSource(w: World, root: Path, t: CacheState, v: World)
    requires Inv(w) && OneSource(w) && v == TouchedWorld(w, root, t) && v.issued <= U64_MODULUS
    requires TouchedFrom(w.cache, t, root) && t.Valid()
    ensures OneSource(v)
  {
    TouchKeepsGenerations(w, root, t);
    TouchKeepsCurrency(w, root, t);
    forall b | 0 <= b < |v.scans| && Current(v, b) ensures Current(w, b) && HoldsAsBefore(w, v, w.scans[b].root) {
      KeptRootHolds(w, root, t, v, w.scans[b].root);
    }
    RecordsCarryOver(w, v);
  }

  lemma SpawnKeepsSource(w: World, root: Path, spawned: nat, v: World)
    requires OneSource(w) && CanSpawn(w, root, spawned) && root !in w.cache.indexes && v == Spawned(w, root, spawned)
    ensures OneSource(v)
  {
    forall b | 0 <= b < |v.scans| && Current(v, b) && Hopeful(v.scans[b]) ensures IsSource(v, b) {
      if b < |w.scans| {
        assert v.scans[b] == w.scans[b] && Current(w, b) && IsSource(w, b);
      }
    }
  }

  lemma DecideKeepsSource(w: World, root: Path, now: nat, v: World)
    requires OneSource(w) && w.cache.Valid() && root in w.cache.generations && v == Decided(w, root, now)
    requires LastInvalidated(w, root) <= now < w.clock
    ensures OneSource(v)
  {
    var lookup := Decide(w.cache, w.freePermits, root, |w.scans|);
    DecidedCases(w, root, now, lookup);
    if lookup.Spawn? {
      NoIndexWhenSpawning(w, root);
      SpawnKeepsSource(w, root, now, Spawned(w, root, now));
      RequestingKeepsSource(Spawned(w, root, now), v);
    } else {
      RequestingKeepsSource(w, v);
    }
  }

  lemma NoIndexWhenSpawning(w: World, root: Path)
    requires w.cache.Valid() && root in w.cache.generations && Decide(w.cache, w.freePermits, root, |w.scans|).Spawn?
    ensures root !in w.cache.indexes
  {
  }

  lemma RequestingKeepsSource(w: World, v: World)
    requires OneSource(w) && v.cache == w.cache && v.scans == w.scans
    ensures OneSource(v)
  {
    forall b | 0 <= b < |v.scans| && Current(v, b) && Hopeful(v.scans[b]) ensures IsSource(v, b) {
      assert Current(w, b) && IsSource(w, b);
    }
  }

  lemma BeginKeepsSource(w: World, root: Path)
    requires Inv(w) && OneSource(w) && w.issued + NewGenerations(w, Begin(root)) <= U64_MODULUS
    ensures OneSource(Step(w, Begin(root)))
  {
    var t := Touched(w.cache, root);
    TouchEvictsOnlyTheOldest(w.cache, root);
    TouchKeepsValid(w.cache, root);
    TouchKeepsSource(w, root, t, TouchedWorld(w, root, t));
    InvalidationsArePast(w, root);
    DecideKeepsSource(TouchedWorld(w, root, t), root, w.clock, Step(w, Begin(root)));
  }

  lemma PhaseKeepsSource(w: World, b: BuildId, phase: Phase, v: World)
    requires OneSource(w) && Advances(w, b, phase) && v == AdvancedWorld(w, b, phase)
    ensures OneSource(v)
  {
    forall a | 0 <= a < |v.scans| && Current(v, a) && Hopeful(v.scans[a]) ensures IsSource(v, a) {
      assert Current(w, a) && Hopeful(w.scans[a]) && IsSource(w, a);
    }
  }

  /** A success that is about to be published is the recorded build, or the cached index itself. */
  lemma PublishingKeepsIndex(w: World, q: nat, r: Request, build: BuildId, v: World)
    requires Inv(w) && OneSource(w) && Resumable(w, q) && r == w.requests[q] && build == r.progress.build
    requires v == AfterResume(w, q)
    ensures forall root :: root in w.cache.indexes ==> root in v.cache.indexes && v.cache.indexes[root] == w.cache.indexes[root]
    ensures forall root :: root in v.cache.indexes && root !in w.cache.indexes ==>
      root == r.root && Current(w, build) && v.cache.indexes[root].1.scan == build && root !in v.cache.builds
  {
    assert Sound(w, r);
    if w.scans[build].phase.answer.Success? && Current(w, build) {
      assert IsSource(w, build);
    }
  }

  /** The records of a build that was not resumed stay. */
  lemma OtherSourcesStay(w: World, v: World, r: Request, build: BuildId, b: BuildId)
    requires build < |w.scans| && w.scans[build].phase.Finished? && ResumesOnly(w, v, r, build)
    requires forall root :: root in w.cache.indexes ==> root in v.cache.indexes && v.cache.indexes[root] == w.cache.indexes[root]
    requires v.scans == w.scans && b < |w.scans| && b != build && IsSource(w, b)
    ensures IsSource(v, b)
  {
  }

  lemma ResumeKeepsScans(w: World, q: nat, v: World)
    requires Resumable(w, q) && v == AfterResume(w, q)
    ensures v.scans == w.scans && v.cache.generations == w.cache.generations
  {
  }

  lemma ResumeKeepsSource(w: World, q: nat, r: Request, build: BuildId, v: World)
    requires Inv(w) && OneSource(w) && Resumable(w, q) && r == w.requests[q] && build == r.progress.build
    requires v == AfterResume(w, q)
    ensures OneSource(v)
  {
    assert Sound(w, r);
    ResumeKeepsScans(w, q, v);
    ResumingOnly(w, q, r, build, v);
    PublishingKeepsIndex(w, q, r, build, v);
    forall b | 0 <= b < |v.scans| && Current(v, b) && Hopeful(v.scans[b]) ensures IsSource(v, b) {
      assert Current(w, b) && IsSource(w, b);
      if b == build {
        ResumePublishes(w, q, build, r.root, w.scans[build].phase.answer.value, v);
      } else {
        OtherSourcesStay(w, v, r, build, b);
      }
    }
  }

  lemma InvalidatedIsNotCurrent(w: World, root: Path, v: World, b: BuildId)
    requires GenerationsIssued(w) && v == InvalidatedWorld(w, root) && v.issued <= U64_MODULUS
    requires b < |w.scans| && Current(v, b)
    ensures Current(w, b) && HoldsAsBefore(w, v, w.scans[b].root)
  {
    InvalidateKeepsGenerations(w, root);
    OtherRootsStay(w, root, Invalidate(root), v, w.scans[b].root);
  }

  lemma InvalidatedRecordsAreOld(w: World, root: Path, v: World)
    requires v == InvalidatedWorld(w, root)
    ensures v.scans == w.scans
    ensures v.cache.indexes.Keys <= w.cache.indexes.Keys && v.cache.builds.Keys <= w.cache.builds.Keys
  {
  }

  lemma InvalidateKeepsSource(w: World, root: Path, v: World)
    requires Inv(w) && OneSource(w) && v == InvalidatedWorld(w, root) && v.issued <= U64_MODULUS
    ensures OneSource(v)
  {
    forall b | 0 <= b < |v.scans| && Current(v, b) ensures Current(w, b) && HoldsAsBefore(w, v, w.scans[b].root) {
      InvalidatedIsNotCurrent(w, root, v, b);
    }
    InvalidatedRecordsAreOld(w, root, v);
    RecordsCarryOver(w, v);
  }

  lemma ForgetKeepsSource(w: World, root: Path, v: World)
    requires OneSource(w) && v == Step(w, Forget(root))
    ensures OneSource(v)
  {
    forall b | 0 <= b < |v.scans| && Current(v, b) && Hopeful(v.scans[b]) ensures IsSource(v, b) {
      assert Current(w, b) && w.scans[b].root != root && IsSource(w, b);
    }
  }

  lemma ScanStepKeepsSource(w: World, event: Event, v: World)
    requires Inv(w) && OneSource(w) && (event.StartScan? || event.FinishScan?) && v == Step(w, event)
    ensures OneSource(v)
  {
    if v != w {
      var phase := v.scans[event.build].phase;
      PhaseKeepsSource(w, event.build, phase, v);
    }
  }

  lemma StepKeepsSource(w: World, event: Event)
    requires Inv(w) && OneSource(w) && w.issued + NewGenerations(w, event) <= U64_MODULUS
    ensures OneSource(Step(w, event))
  {
    var v := Step(w, event);
    match event
    case Begin(root) => BeginKeepsSource(w, root);
    case StartScan(_) => ScanStepKeepsSource(w, event, v);
    case FinishScan(_, _) => ScanStepKeepsSource(w, event, v);
    case Resume(q) =>
      if Resumable(w, q) {
        ResumeKeepsSource(w, q, w.requests[q], w.requests[q].progress.build, v);
      }
    case Cancel(_) => RequestingKeepsSource(w, v);
    case Invalidate(root) => InvalidateKeepsSource(w, root, v);
    case Forget(root) => ForgetKeepsSource(w, root, v);
  }

  lemma {:induction false} RunKeepsSource(w: World, events: seq<Event>)
    requires Inv(w) && OneSource(w) && Run(w, events).issued <= U64_MODULUS
    ensures Inv(Run(w, events)) && OneSource(Run(w, events))
    decreases |events|
  {
    if events != [] {
      var n := |events| - 1;
      StepIssues(Run(w, events[..n]), events[n]);
      RunKeepsSource(w, events[..n]);
      StepKeepsInv(Run(w, events[..n]), events[n]);
      StepKeepsSource(Run(w, events[..n]), events[n]);
    }
  }

  /** No root has an index and a build at once, and no hopeful scan of its current generation goes unrecorded. */
  lemma EachRootHasOneSource(w: World)
    requires Reachable(w)
    ensures OneSource(w)
  {
    InitialInv();
    var events :| w == Run(INITIAL, events);
    RunKeepsSource(INITIAL, events);
  }

  /** The step does not take the root's index away. */
  ghost predicate Spares(root: Path, event: Event, v: World) {
    event != Invalidate(root) && event != Forget(root) && root in v.cache.generations
  }

  lemma BeginKeepsIndex(w: World, root: Path, other: Path, t: World, v: World)
    requires w.cache.Valid() && t == TouchedWorld(w, other, Touched(w.cache, other)) && v == Decided(t, other, w.clock)
    requires root in w.cache.indexes && root in v.cache.generations
    ensures root in v.cache.indexes && v.cache.indexes[root] == w.cache.indexes[root]
  {
    TouchEvictsOnlyTheOldest(w.cache, other);
    DecideKeepsGenerations(t, other, w.clock);
    DecideKeepsIndexes(t, other, w.clock);
    KeptRootHolds(w, other, t.cache, t, root);
  }

  lemma DecideKeepsIndexes(w: World, root: Path, now: nat)
    requires root in w.cache.generations
    ensures Decided(w, root, now).cache.indexes == w.cache.indexes
  {
  }

  lemma ResumeKeepsIndex(w: World, root: Path, q: nat, v: World)
    requires Inv(w) && OneSource(w) && v == Step(w, Resume(q)) && root in w.cache.indexes
    ensures root in v.cache.indexes && v.cache.indexes[root] == w.cache.indexes[root]
  {
    if Resumable(w, q) {
      PublishingKeepsIndex(w, q, w.requests[q], w.requests[q].progress.build, v);
    }
  }

  lemma ScansLeaveTheCache(w: World, event: Event)
    requires event.StartScan? || event.FinishScan? || event.Cancel?
    ensures Step(w, event).cache == w.cache
  {
  }

  lemma StepKeepsIndex(w: World, root: Path, event: Event, v: World)
    requires Inv(w) && OneSource(w) && v == Step(w, event) && root in w.cache.indexes && Spares(root, event, v)
    ensures root in v.cache.indexes && v.cache.indexes[root] == w.cache.indexes[root]
  {
    match event
    case Begin(other) => BeginKeepsIndex(w, root, other, TouchedWorld(w, other, Touched(w.cache, other)), v);
    case Resume(q) => ResumeKeepsIndex(w, root, q, v);
    case Invalidate(other) => OtherRootsStay(w, other, event, v, root);
    case Forget(other) => OtherRootsStay(w, other, event, v, root);
    case _ => ScansLeaveTheCache(w, event);
  }

  /** `events` from `w` neither invalidate nor forget the root, nor push it out. */
  ghost predicate SparesAll(w: World, root: Path, events: seq<Event>) {
    forall n: nat :: n < |events| ==> Spares(root, events[n], Run(w, events[..n + 1]))
  }

  lemma SparesFront(w: World, root: Path, events: seq<Event>, n: nat)
    requires SparesAll(w, root, events) && n + 1 == |events|
    ensures SparesAll(w, root, events[..n]) && Spares(root, events[n], Run(w, events))
  {
    var front := events[..n];
    forall k: nat | k < n ensures Spares(root, front[k], Run(w, front[..k + 1])) {
      assert front[..k + 1] == events[..k + 1];
    }
    assert events[..n + 1] == events;
  }

  lemma {:induction false} IndexStays(w: World, root: Path, events: seq<Event>, v: World)
    requires Inv(w) && OneSource(w) && root in w.cache.indexes && SparesAll(w, root, events)
    requires v == Run(w, events) && v.issued <= U64_MODULUS
    ensures root in v.cache.indexes && v.cache.indexes[root] == w.cache.indexes[root]
    decreases |events|
  {
    if events != [] {
      var n := |events| - 1;
      var front := events[..n];
      var u := Run(w, front);
      SparesFront(w, root, events, n);
      StepIssues(u, events[n]);
      RunKeepsSource(w, front);
      IndexStays(w, root, front, u);
      StepKeepsIndex(u, root, events[n], v);
    }
  }

  /**
   * Once an index is cached, every request for its root, whatever else goes on, is answered
   * at once with that very index and starts no scan, until the root is invalidated,
   * forgotten or pushed out.
   */
  lemma IndexIsServedUntilInvalidated(w: World, root: Path, events: seq<Event>, v: World, served: World)
    requires Reachable(w) && root in w.cache.indexes && SparesAll(w, root, events)
    requires v == Run(w, events) && v.issued <= U64_MODULUS && served == Step(v, Begin(root))
    ensures AddsRequest(v, served, root, Answered(Success(w.cache.indexes[root].1))) && StartsNothing(v, served)
  {
    RunKeepsInv(w);
    EachRootHasOneSource(w);
    IndexStays(w, root, events, v);
    RunKeepsSource(w, events);
    HitsServe(v, root, served);
  }
}
