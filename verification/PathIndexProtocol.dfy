/**
 * Every interleaving of the path index loader (src-tauri/src/fs.rs, load_path_index_with):
 * requests, scans, cancelled waiters, invalidations and forgets, one critical section a
 * step. The clock and the records of finished scans and answers are the observer's; the
 * code keeps none of them.
 */
module PathIndexProtocol {
  import opened Collections
  import opened Wrappers
  import opened PathIndexCaches

  type Answer = Result<Snapshot, string>

  datatype Phase =
    | Queued
    | Running(begun: nat)
    | Finished(begun: nat, answer: Answer)

  /** One spawned scan; its build id is its position in `World.scans`. */
  datatype Scan = Scan(root: Path, generation: nat, spawned: nat, phase: Phase)

  datatype Progress =
    | Waiting(generation: nat, build: BuildId)
    | Cancelled
    | Refused
    | Answered(answer: Answer)

  /** `floor` is when `root` was last invalidated before the request's first lock. */
  datatype Request = Request(root: Path, floor: nat, progress: Progress)

  datatype World = World(
    cache: CacheState,
    freePermits: nat,
    scans: seq<Scan>,
    requests: seq<Request>,
    clock: nat,
    invalidatedAt: map<Path, nat>,
    touchedAt: map<Path, nat>,
    issued: nat)

  datatype Event =
    | Begin(root: Path)
    | StartScan(build: BuildId)
    | FinishScan(build: BuildId, outcome: Result<seq<IndexedPath>, string>)
    | Resume(request: nat)
    | Cancel(request: nat)
    | Invalidate(root: Path)
    | Forget(root: Path)

  const EMPTY_CACHE := CacheState(map[], map[], map[], [], 0)
  const INITIAL := World(EMPTY_CACHE, MAX_INDEX_BUILDS, [], [], 1, map[], map[], 0)

  function LastInvalidated(w: World, root: Path): nat {
    if root in w.invalidatedAt then w.invalidatedAt[root] else 0
  }

  function Issues(needed: bool): nat {
    if needed then 1 else 0
  }

  /** The observer's half of a touch: the use time and the generations issued. */
  function TouchedWorld(w: World, root: Path, t: CacheState): World {
    w.(cache := t, clock := w.clock + 1, touchedAt := w.touchedAt[root := w.clock],
       issued := w.issued + Issues(root !in w.cache.generations))
  }

  function SpawnedWorld(w: World, root: Path, generation: nat, spawned: nat): World
    requires w.freePermits > 0
  {
    w.(cache := w.cache.(builds := w.cache.builds[root := (generation, |w.scans|)]),
       freePermits := w.freePermits - 1,
       scans := w.scans + [Scan(root, generation, spawned, Queued)])
  }

  function Requested(w: World, root: Path, progress: Progress): World {
    w.(requests := w.requests + [Request(root, LastInvalidated(w, root), progress)])
  }

  /** The rest of the first critical section, once `root` is touched. */
  function Decided(w: World, root: Path, now: nat): World
    requires root in w.cache.generations
  {
    match Decide(w.cache, w.freePermits, root, |w.scans|)
    case Hit(snapshot) => Requested(w, root, Answered(Success(snapshot)))
    case Join(generation, build) => Requested(w, root, Waiting(generation, build))
    case Spawn(generation, build) =>
      Requested(SpawnedWorld(w, root, generation, now), root, Waiting(generation, build))
    case Refuse => Requested(w, root, Refused)
  }

  function AfterBegin(w: World, root: Path): World {
    Decided(TouchedWorld(w, root, Touched(w.cache, root)), root, w.clock)
  }

  function WithPhase(w: World, build: BuildId, phase: Phase): World
    requires build < |w.scans|
  {
    w.(scans := w.scans[build := w.scans[build].(phase := phase)], clock := w.clock + 1)
  }

  function AnswerOf(build: BuildId, outcome: Result<seq<IndexedPath>, string>): Answer {
    match outcome
    case Success(paths) => Success(Snapshot(build, paths))
    case Failure(error) => Failure(error)
  }

  function WithProgress(w: World, request: nat, progress: Progress): World
    requires request < |w.requests|
  {
    w.(requests := w.requests[request := w.requests[request].(progress := progress)], clock := w.clock + 1)
  }

  predicate Resumable(w: World, request: nat) {
    && request < |w.requests|
    && w.requests[request].progress.Waiting?
    && w.requests[request].progress.build < |w.scans|
    && w.scans[w.requests[request].progress.build].phase.Finished?
  }

  function AfterResume(w: World, request: nat): World
    requires Resumable(w, request)
  {
    var r := w.requests[request];
    var answer := w.scans[r.progress.build].phase.answer;
    WithProgress(w, request, Answered(answer)).(
      cache := Settled(w.cache, r.root, r.progress.generation, r.progress.build, answer))
  }

  function InvalidatedWorld(w: World, root: Path): World {
    w.(cache := Invalidated(w.cache, root),
       clock := w.clock + 1,
       invalidatedAt := w.invalidatedAt[root := w.clock],
       issued := w.issued + Issues(root in w.cache.generations))
  }

  /** One step; an event that cannot happen in `w` leaves it as it is. */
  function Step(w: World, event: Event): World {
    match event
    case Begin(root) => AfterBegin(w, root)
    case StartScan(build) =>
      if build < |w.scans| && w.scans[build].phase.Queued? then WithPhase(w, build, Running(w.clock)) else w
    case FinishScan(build, outcome) =>
      if build < |w.scans| && w.scans[build].phase.Running? then
        WithPhase(w, build, Finished(w.scans[build].phase.begun, AnswerOf(build, outcome)))
          .(freePermits := w.freePermits + 1)
      else w
    case Resume(request) => if Resumable(w, request) then AfterResume(w, request) else w
    case Cancel(request) =>
      if request < |w.requests| && w.requests[request].progress.Waiting? then
        WithProgress(w, request, Cancelled)
      else w
    case Invalidate(root) => InvalidatedWorld(w, root)
    case Forget(root) => w.(cache := Forgotten(w.cache, root), clock := w.clock + 1)
  }

  function Run(w: World, events: seq<Event>): World
    decreases |events|
  {
    if events == [] then w else Step(Run(w, events[..|events| - 1]), events[|events| - 1])
  }

  // ---------- The invariant ----------

  ghost predicate Unfinished(s: Scan) {
    !s.phase.Finished?
  }

  ghost function CountUnfinished(scans: seq<Scan>): nat {
    if scans == [] then 0
    else CountUnfinished(scans[..|scans| - 1]) + if Unfinished(scans[|scans| - 1]) then 1 else 0
  }

  /** The scan was spawned under the generation its root has now. */
  ghost predicate Current(w: World, b: BuildId)
    requires b < |w.scans|
  {
    var s := w.scans[b];
    s.root in w.cache.generations && w.cache.generations[s.root] == s.generation
  }

  /** One of the first `issued` generations; zero comes only when the counter has gone round. */
  predicate WasIssued(generation: nat, issued: nat) {
    if generation == 0 then issued >= U64_MODULUS else generation <= issued
  }

  ghost predicate GenerationsIssued(w: World) {
    && w.cache.nextGeneration == w.issued % U64_MODULUS
    && (forall root :: root in w.cache.generations ==> WasIssued(w.cache.generations[root], w.issued))
    && (forall b :: 0 <= b < |w.scans| ==> WasIssued(w.scans[b].generation, w.issued))
  }

  ghost predicate TimesInOrder(w: World) {
    && (forall root :: root in w.invalidatedAt ==> w.invalidatedAt[root] < w.clock)
    && (forall b :: 0 <= b < |w.scans| ==>
        && w.scans[b].spawned < w.clock
        && (!w.scans[b].phase.Queued? ==> w.scans[b].spawned <= w.scans[b].phase.begun < w.clock))
  }

  /** A scan under the current generation was spawned after the last invalidation. */
  ghost predicate CurrentIsFresh(w: World) {
    forall b :: 0 <= b < |w.scans| && Current(w, b) ==> LastInvalidated(w, w.scans[b].root) <= w.scans[b].spawned
  }

  ghost predicate BuildsAreScans(w: World) {
    forall root :: root in w.cache.builds ==>
      var (generation, b) := w.cache.builds[root];
      b < |w.scans| && w.scans[b].root == root && w.scans[b].generation == generation
  }

  /** The snapshot is what the scan it names returned, for this root. */
  ghost predicate Returned(w: World, root: Path, snapshot: Snapshot) {
    && snapshot.scan < |w.scans|
    && w.scans[snapshot.scan].root == root
    && w.scans[snapshot.scan].phase.Finished?
    && w.scans[snapshot.scan].phase.answer == Success(snapshot)
  }

  ghost predicate IndexesAreResults(w: World) {
    forall root :: root in w.cache.indexes ==>
      var (generation, snapshot) := w.cache.indexes[root];
      Returned(w, root, snapshot) && w.scans[snapshot.scan].generation == generation
  }

  ghost predicate AnswersNameTheirScan(w: World) {
    forall b :: 0 <= b < |w.scans| && w.scans[b].phase.Finished? && w.scans[b].phase.answer.Success? ==>
      w.scans[b].phase.answer.value.scan == b
  }

  ghost predicate SingleFlight(w: World) {
    && (forall b :: 0 <= b < |w.scans| && Unfinished(w.scans[b]) && Current(w, b) ==>
        w.scans[b].root in w.cache.builds && w.cache.builds[w.scans[b].root].1 == b)
    && (forall a, b :: 0 <= a < b < |w.scans| && Unfinished(w.scans[a]) && Unfinished(w.scans[b]) ==>
        w.scans[a].root != w.scans[b].root || w.scans[a].generation != w.scans[b].generation)
  }

  /** A waiter's scan was spawned no earlier than the invalidation its request must see. */
  ghost predicate Sound(w: World, r: Request) {
    match r.progress
    case Waiting(generation, b) =>
      && b < |w.scans|
      && w.scans[b].root == r.root
      && w.scans[b].generation == generation
      && r.floor <= w.scans[b].spawned
    case Answered(Success(snapshot)) =>
      Returned(w, r.root, snapshot) && r.floor <= w.scans[snapshot.scan].spawned
    case _ => true
  }

  ghost predicate RequestsAreSound(w: World) {
    forall q :: 0 <= q < |w.requests| ==> Sound(w, w.requests[q])
  }

  /** The paths of `s` are in increasing order of `at`. */
  ghost predicate Increasing(s: seq<Path>, at: map<Path, nat>) {
    && (forall p :: p in s ==> p in at)
    && (forall i, j :: 0 <= i < j < |s| ==> at[s[i]] < at[s[j]])
  }

  ghost predicate AllBefore(s: seq<Path>, at: map<Path, nat>, clock: nat) {
    forall p :: p in s ==> p in at && at[p] < clock
  }

  ghost predicate UseOrder(w: World) {
    Increasing(w.cache.recent, w.touchedAt) && AllBefore(w.cache.recent, w.touchedAt, w.clock)
  }

  ghost predicate Inv(w: World) {
    && w.cache.Valid()
    && GenerationsIssued(w)
    && TimesInOrder(w)
    && CurrentIsFresh(w)
    && BuildsAreScans(w)
    && IndexesAreResults(w)
    && AnswersNameTheirScan(w)
    && SingleFlight(w)
    && RequestsAreSound(w)
    && UseOrder(w)
    && w.freePermits + CountUnfinished(w.scans) == MAX_INDEX_BUILDS
  }

  // ---------- Counting scans ----------

  lemma {:induction false} CountAfterUpdate(scans: seq<Scan>, b: nat, s: Scan)
    requires b < |scans|
    ensures CountUnfinished(scans[b := s]) + (if Unfinished(scans[b]) then 1 else 0)
         == CountUnfinished(scans) + (if Unfinished(s) then 1 else 0)
  {
    var n := |scans| - 1;
    if b == n {
      assert scans[b := s][..n] == scans[..n];
    } else {
      assert scans[b := s][..n] == scans[..n][b := s];
      CountAfterUpdate(scans[..n], b, s);
    }
  }

  // ---------- Each step keeps the invariant ----------

  /** Touching a root moves no scan, build or index to another generation. */
  lemma TouchStep(w: World, root: Path, t: CacheState)
    requires Inv(w) && TouchedWorld(w, root, t).issued <= U64_MODULUS
    requires TouchedFrom(w.cache, t, root) && t.Valid()
    ensures Inv(TouchedWorld(w, root, t))
  {
    TouchKeepsGenerations(w, root, t);
    TouchKeepsCurrency(w, root, t);
    TouchKeepsSingleFlight(w, root, t);
    TouchKeepsEntries(w, root, t);
    TouchKeepsUseOrder(w, root, t);
    TouchKeepsRequests(w, root, t);
  }

  /** Until the counter has gone round once, the next generation is one never issued before. */
  lemma NextIsNew(issued: nat)
    requires issued < U64_MODULUS
    ensures var g := NextGeneration(issued % U64_MODULUS);
      g == (issued + 1) % U64_MODULUS && !WasIssued(g, issued) && WasIssued(g, issued + 1)
  {
  }

  lemma TouchKeepsGenerations(w: World, root: Path, t: CacheState)
    requires GenerationsIssued(w) && TouchedWorld(w, root, t).issued <= U64_MODULUS
    requires TouchedFrom(w.cache, t, root)
    ensures GenerationsIssued(TouchedWorld(w, root, t))
    ensures root !in w.cache.generations ==> !WasIssued(t.generations[root], w.issued)
  {
    if root !in w.cache.generations {
      NextIsNew(w.issued);
    }
  }

  lemma TouchKeepsCurrency(w: World, root: Path, t: CacheState)
    requires GenerationsIssued(w) && CurrentIsFresh(w) && TouchedFrom(w.cache, t, root)
    requires root !in w.cache.generations ==> !WasIssued(t.generations[root], w.issued)
    ensures CurrentIsFresh(TouchedWorld(w, root, t))
    ensures forall b :: 0 <= b < |w.scans| && Current(TouchedWorld(w, root, t), b) ==> Current(w, b)
  {
    var v := TouchedWorld(w, root, t);
    forall b | 0 <= b < |w.scans| && Current(v, b) ensures Current(w, b) {
    }
  }

  lemma TouchKeepsSingleFlight(w: World, root: Path, t: CacheState)
    requires SingleFlight(w) && TouchedFrom(w.cache, t, root)
    requires forall b :: 0 <= b < |w.scans| && Current(TouchedWorld(w, root, t), b) ==> Current(w, b)
    ensures SingleFlight(TouchedWorld(w, root, t))
  {
  }

  lemma TouchKeepsEntries(w: World, root: Path, t: CacheState)
    requires BuildsAreScans(w) && IndexesAreResults(w) && TouchedFrom(w.cache, t, root)
    ensures BuildsAreScans(TouchedWorld(w, root, t)) && IndexesAreResults(TouchedWorld(w, root, t))
  {
  }

  lemma TouchKeepsRequests(w: World, root: Path, t: CacheState)
    requires RequestsAreSound(w) && TimesInOrder(w) && AnswersNameTheirScan(w)
    ensures RequestsAreSound(TouchedWorld(w, root, t))
    ensures TimesInOrder(TouchedWorld(w, root, t)) && AnswersNameTheirScan(TouchedWorld(w, root, t))
  {
  }

  lemma KeptAreOthers(recent: seq<Path>, root: Path, kept: seq<Path>, at: map<Path, nat>, clock: nat)
    requires kept == Kept(Without(recent, root))
    requires Increasing(recent, at) && AllBefore(recent, at, clock)
    ensures Increasing(kept, at) && AllBefore(kept, at, clock) && root !in kept
  {
    var others := Without(recent, root);
    WithoutKeepsOrder(recent, root, at);
    if Outgoing(others) != {} {
      IncreasingTail(others, at);
    }
    assert forall p :: p in kept ==> p in others;
  }

  lemma TouchKeepsUseOrder(w: World, root: Path, t: CacheState)
    requires UseOrder(w) && TouchedFrom(w.cache, t, root)
    ensures UseOrder(TouchedWorld(w, root, t))
  {
    var kept := Kept(Without(w.cache.recent, root));
    KeptAreOthers(w.cache.recent, root, kept, w.touchedAt, w.clock);
    LatestUseComesLast(kept, root, w.touchedAt, w.clock, t.recent, w.touchedAt[root := w.clock]);
  }

  lemma LatestUseComesLast(kept: seq<Path>, root: Path, at: map<Path, nat>, clock: nat,
                           recent: seq<Path>, after: map<Path, nat>)
    requires Increasing(kept, at) && root !in kept && AllBefore(kept, at, clock)
    requires recent == kept + [root] && after == at[root := clock]
    ensures Increasing(recent, after) && AllBefore(recent, after, clock + 1)
  {
    forall i | 0 <= i < |kept| ensures kept[i] in kept && after[recent[i]] == at[kept[i]] < clock {
    }
  }

  lemma IncreasingTail(s: seq<Path>, at: map<Path, nat>)
    requires Increasing(s, at) && s != []
    ensures Increasing(s[1..], at) && forall p :: p in s[1..] ==> at[s[0]] < at[p]
  {
    var rest := s[1..];
    assert forall i :: 0 <= i < |rest| ==> rest[i] == s[i + 1];
  }

  lemma IncreasingFrom(first: Path, rest: seq<Path>, at: map<Path, nat>, s: seq<Path>)
    requires Increasing(rest, at) && first in at && forall p :: p in rest ==> at[first] < at[p]
    requires s == [first] + rest
    ensures Increasing(s, at)
  {
    assert forall i :: 0 < i < |s| ==> s[i] == rest[i - 1] && s[i] in rest;
  }

  lemma {:induction false} WithoutKeepsOrder(s: seq<Path>, root: Path, at: map<Path, nat>)
    requires Increasing(s, at)
    ensures Increasing(Without(s, root), at)
  {
    if s != [] {
      IncreasingTail(s, at);
      WithoutKeepsOrder(s[1..], root, at);
      var rest := Without(s[1..], root);
      if s[0] != root {
        IncreasingFrom(s[0], rest, at, [s[0]] + rest);
      }
    }
  }

  lemma OneMoreRequest(w: World, r: Request, v: World)
    requires RequestsAreSound(w) && Sound(w, r) && v == w.(requests := w.requests + [r])
    ensures RequestsAreSound(v)
  {
    forall q | 0 <= q < |v.requests| ensures Sound(v, v.requests[q]) {
      assert q < |w.requests| ==> Sound(w, w.requests[q]);
    }
  }

  lemma AppendRequest(w: World, r: Request)
    requires Inv(w) && Sound(w, r)
    ensures Inv(w.(requests := w.requests + [r]))
  {
    OneMoreRequest(w, r, w.(requests := w.requests + [r]));
  }

  /** A root without a build, with a permit to spare, is about to get a scan. */
  ghost predicate CanSpawn(w: World, root: Path, spawned: nat) {
    && root in w.cache.generations && root !in w.cache.builds
    && w.freePermits > 0
    && LastInvalidated(w, root) <= spawned < w.clock
  }

  ghost function Spawned(w: World, root: Path, spawned: nat): World
    requires CanSpawn(w, root, spawned)
  {
    SpawnedWorld(w, root, w.cache.generations[root], spawned)
  }

  lemma SpawnStep(w: World, root: Path, spawned: nat)
    requires Inv(w) && CanSpawn(w, root, spawned)
    ensures Inv(Spawned(w, root, spawned))
  {
    var v := Spawned(w, root, spawned);
    assert v.scans[..|w.scans|] == w.scans;
    SpawnKeepsSingleFlight(w, root, spawned);
    SpawnKeepsRequests(w, root, spawned);
    SpawnKeepsEntries(w, root, spawned);
    SpawnKeepsTimes(w, root, spawned);
  }

  lemma SpawnKeepsSingleFlight(w: World, root: Path, spawned: nat)
    requires CanSpawn(w, root, spawned) && SingleFlight(w) && CurrentIsFresh(w)
    ensures SingleFlight(Spawned(w, root, spawned)) && CurrentIsFresh(Spawned(w, root, spawned))
  {
    var v := Spawned(w, root, spawned);
    forall b | 0 <= b < |w.scans| ensures Current(v, b) == Current(w, b) && v.scans[b] == w.scans[b] {
    }
  }

  lemma SpawnKeepsRequests(w: World, root: Path, spawned: nat)
    requires CanSpawn(w, root, spawned) && RequestsAreSound(w)
    ensures RequestsAreSound(Spawned(w, root, spawned))
  {
    var v := Spawned(w, root, spawned);
    forall q | 0 <= q < |v.requests| ensures Sound(v, v.requests[q]) {
      assert Sound(w, w.requests[q]);
    }
  }

  lemma SpawnKeepsEntries(w: World, root: Path, spawned: nat)
    requires CanSpawn(w, root, spawned)
    requires w.cache.Valid() && BuildsAreScans(w) && IndexesAreResults(w) && GenerationsIssued(w)
    ensures var v := Spawned(w, root, spawned);
      v.cache.Valid() && BuildsAreScans(v) && IndexesAreResults(v) && GenerationsIssued(v)
  {
  }

  lemma SpawnKeepsTimes(w: World, root: Path, spawned: nat)
    requires CanSpawn(w, root, spawned)
    requires TimesInOrder(w) && AnswersNameTheirScan(w) && UseOrder(w)
    ensures var v := Spawned(w, root, spawned);
      TimesInOrder(v) && AnswersNameTheirScan(v) && UseOrder(v)
  {
  }

  /** A queued scan begins, or a running one ends. */
  ghost predicate Advances(w: World, b: BuildId, phase: Phase) {
    && b < |w.scans|
    && match w.scans[b].phase
       case Queued => phase == Running(w.clock)
       case Running(begun) =>
         phase.Finished? && phase.begun == begun && (phase.answer.Success? ==> phase.answer.value.scan == b)
       case Finished(_, _) => false
  }

  ghost function AdvancedWorld(w: World, b: BuildId, phase: Phase): World
    requires b < |w.scans|
  {
    WithPhase(w, b, phase).(freePermits := w.freePermits + if phase.Finished? then 1 else 0)
  }

  lemma PhaseStep(w: World, b: BuildId, phase: Phase)
    requires Inv(w) && Advances(w, b, phase)
    ensures Inv(AdvancedWorld(w, b, phase))
  {
    CountAfterUpdate(w.scans, b, w.scans[b].(phase := phase));
    PhaseKeepsRequests(w, b, phase);
    PhaseKeepsEntries(w, b, phase);
    PhaseKeepsFlight(w, b, phase);
    PhaseKeepsTimes(w, b, phase);
  }

  lemma PhaseKeepsRequests(w: World, b: BuildId, phase: Phase)
    requires Advances(w, b, phase) && RequestsAreSound(w)
    ensures RequestsAreSound(AdvancedWorld(w, b, phase))
  {
    var v := AdvancedWorld(w, b, phase);
    forall q | 0 <= q < |v.requests| ensures Sound(v, v.requests[q]) {
      assert Sound(w, w.requests[q]);
    }
  }

  lemma PhaseKeepsEntries(w: World, b: BuildId, phase: Phase)
    requires Advances(w, b, phase)
    requires w.cache.Valid() && BuildsAreScans(w) && IndexesAreResults(w) && GenerationsIssued(w)
    ensures var v := AdvancedWorld(w, b, phase);
      v.cache.Valid() && BuildsAreScans(v) && IndexesAreResults(v) && GenerationsIssued(v)
  {
  }

  lemma PhaseKeepsFlight(w: World, b: BuildId, phase: Phase)
    requires Advances(w, b, phase) && SingleFlight(w) && CurrentIsFresh(w)
    ensures SingleFlight(AdvancedWorld(w, b, phase)) && CurrentIsFresh(AdvancedWorld(w, b, phase))
  {
    var v := AdvancedWorld(w, b, phase);
    forall a | 0 <= a < |w.scans| ensures Current(v, a) == Current(w, a) && (Unfinished(v.scans[a]) ==> Unfinished(w.scans[a])) {
    }
  }

  lemma PhaseKeepsTimes(w: World, b: BuildId, phase: Phase)
    requires Advances(w, b, phase) && TimesInOrder(w) && AnswersNameTheirScan(w) && UseOrder(w)
    ensures var v := AdvancedWorld(w, b, phase);
      TimesInOrder(v) && AnswersNameTheirScan(v) && UseOrder(v)
  {
  }

  lemma ResumeStep(w: World, q: nat)
    requires Inv(w) && Resumable(w, q)
    ensures Inv(AfterResume(w, q))
  {
    ResumeKeepsCache(w, q);
    ResumeKeepsFlight(w, q);
    ResumeKeepsRequests(w, q);
  }

  lemma ResumeKeepsCache(w: World, q: nat)
    requires Resumable(w, q) && RequestsAreSound(w) && AnswersNameTheirScan(w)
    requires w.cache.Valid() && BuildsAreScans(w) && IndexesAreResults(w)
    ensures var v := AfterResume(w, q); v.cache.Valid() && BuildsAreScans(v) && IndexesAreResults(v)
  {
    assert Sound(w, w.requests[q]);
  }

  lemma ResumeKeepsFlight(w: World, q: nat)
    requires Resumable(w, q) && SingleFlight(w) && CurrentIsFresh(w)
    ensures SingleFlight(AfterResume(w, q)) && CurrentIsFresh(AfterResume(w, q))
  {
    var v := AfterResume(w, q);
    forall b | 0 <= b < |w.scans| ensures Current(v, b) == Current(w, b) {
    }
  }

  lemma ResumeKeepsRequests(w: World, q: nat)
    requires Resumable(w, q) && RequestsAreSound(w) && AnswersNameTheirScan(w)
    ensures RequestsAreSound(AfterResume(w, q))
  {
    var v := AfterResume(w, q);
    assert Sound(w, w.requests[q]);
    forall p | 0 <= p < |v.requests| ensures Sound(v, v.requests[p]) {
      assert Sound(w, w.requests[p]);
    }
  }

  lemma InvalidateStep(w: World, root: Path)
    requires Inv(w) && InvalidatedWorld(w, root).issued <= U64_MODULUS
    ensures Inv(InvalidatedWorld(w, root))
  {
    InvalidateKeepsValid(w.cache, root);
    InvalidateKeepsGenerations(w, root);
    InvalidateKeepsFlight(w, root);
    InvalidateKeepsEntries(w, root);
    InvalidateKeepsRequests(w, root);
  }

  lemma InvalidateKeepsGenerations(w: World, root: Path)
    requires GenerationsIssued(w) && InvalidatedWorld(w, root).issued <= U64_MODULUS
    ensures var v := InvalidatedWorld(w, root);
      && GenerationsIssued(v)
      && (root in w.cache.generations ==>
          && v.cache.generations == w.cache.generations[root := NextGeneration(w.cache.nextGeneration)]
          && !WasIssued(NextGeneration(w.cache.nextGeneration), w.issued))
      && (root !in w.cache.generations ==> v.cache.generations == w.cache.generations)
  {
    if root in w.cache.generations {
      NextIsNew(w.issued);
    }
  }

  /** No scan is current for a root that was just invalidated. */
  lemma InvalidateKeepsFlight(w: World, root: Path)
    requires GenerationsIssued(w) && SingleFlight(w) && CurrentIsFresh(w)
    requires InvalidatedWorld(w, root).issued <= U64_MODULUS
    ensures SingleFlight(InvalidatedWorld(w, root)) && CurrentIsFresh(InvalidatedWorld(w, root))
  {
    var v := InvalidatedWorld(w, root);
    InvalidateKeepsGenerations(w, root);
    forall b | 0 <= b < |w.scans| && Current(v, b) ensures Current(w, b) && w.scans[b].root != root {
    }
  }

  lemma InvalidateKeepsEntries(w: World, root: Path)
    requires BuildsAreScans(w) && IndexesAreResults(w)
    ensures BuildsAreScans(InvalidatedWorld(w, root)) && IndexesAreResults(InvalidatedWorld(w, root))
  {
  }

  lemma InvalidateKeepsRequests(w: World, root: Path)
    requires RequestsAreSound(w) && TimesInOrder(w) && AnswersNameTheirScan(w) && UseOrder(w)
    ensures var v := InvalidatedWorld(w, root);
      RequestsAreSound(v) && TimesInOrder(v) && AnswersNameTheirScan(v) && UseOrder(v)
  {
    var v := InvalidatedWorld(w, root);
    forall q | 0 <= q < |v.requests| ensures Sound(v, v.requests[q]) {
      assert Sound(w, w.requests[q]);
    }
  }

  lemma ForgetStep(w: World, root: Path)
    requires Inv(w)
    ensures Inv(Step(w, Forget(root)))
  {
    ForgetKeepsValid(w.cache, root);
    WithoutKeepsOrder(w.cache.recent, root, w.touchedAt);
    ForgetKeepsFlight(w, root);
  }

  lemma ForgetKeepsFlight(w: World, root: Path)
    requires SingleFlight(w) && CurrentIsFresh(w) && GenerationsIssued(w) && BuildsAreScans(w) && IndexesAreResults(w)
    ensures var v := Step(w, Forget(root));
      SingleFlight(v) && CurrentIsFresh(v) && GenerationsIssued(v) && BuildsAreScans(v) && IndexesAreResults(v)
  {
    var v := Step(w, Forget(root));
    forall b | 0 <= b < |w.scans| && Current(v, b) ensures Current(w, b) && w.scans[b].root != root {
    }
  }

  lemma CancelStep(w: World, q: nat)
    requires Inv(w) && q < |w.requests|
    ensures Inv(WithProgress(w, q, Cancelled))
  {
  }

  lemma BeginStep(w: World, root: Path)
    requires Inv(w) && w.issued + Issues(root !in w.cache.generations) <= U64_MODULUS
    ensures Inv(AfterBegin(w, root))
  {
    TouchEvictsOnlyTheOldest(w.cache, root);
    TouchKeepsValid(w.cache, root);
    TouchThenDecide(w, root, Touched(w.cache, root));
  }

  lemma TouchThenDecide(w: World, root: Path, t: CacheState)
    requires Inv(w) && w.issued + Issues(root !in w.cache.generations) <= U64_MODULUS
    requires TouchedFrom(w.cache, t, root) && t.Valid() && root in t.generations
    ensures Inv(Decided(TouchedWorld(w, root, t), root, w.clock))
  {
    TouchStep(w, root, t);
    InvalidationsArePast(w, root);
    DecideStep(TouchedWorld(w, root, t), root, w.clock);
  }

  lemma InvalidationsArePast(w: World, root: Path)
    requires TimesInOrder(w)
    ensures LastInvalidated(w, root) <= w.clock
  {
  }

  lemma DecidedCases(w: World, root: Path, now: nat, lookup: Lookup)
    requires root in w.cache.generations && lookup == Decide(w.cache, w.freePermits, root, |w.scans|)
    ensures lookup.Hit? ==>
      && root in w.cache.indexes
      && Decided(w, root, now) == Requested(w, root, Answered(Success(w.cache.indexes[root].1)))
    ensures lookup.Join? ==>
      && root in w.cache.builds
      && Decided(w, root, now) == Requested(w, root, Waiting(w.cache.builds[root].0, w.cache.builds[root].1))
    ensures lookup.Refuse? ==> Decided(w, root, now) == Requested(w, root, Refused)
    ensures lookup.Spawn? ==>
      && w.freePermits > 0
      && (w.cache.Valid() ==> root !in w.cache.builds)
      && lookup == Spawn(w.cache.generations[root], |w.scans|)
      && Decided(w, root, now) ==
         Requested(SpawnedWorld(w, root, w.cache.generations[root], now), root, Waiting(w.cache.generations[root], |w.scans|))
  {
  }

  lemma DecideStep(w: World, root: Path, now: nat)
    requires Inv(w) && root in w.cache.generations && LastInvalidated(w, root) <= now < w.clock
    ensures Inv(Decided(w, root, now))
  {
    var lookup := Decide(w.cache, w.freePermits, root, |w.scans|);
    DecidedCases(w, root, now, lookup);
    match lookup
    case Hit(_) => HitStep(w, root);
    case Join(_, _) => JoinStep(w, root);
    case Refuse => AppendRequest(w, Request(root, LastInvalidated(w, root), Refused));
    case Spawn(_, _) => SpawnThenWait(w, root, now);
  }

  lemma HitStep(w: World, root: Path)
    requires Inv(w) && root in w.cache.indexes
    ensures Inv(Requested(w, root, Answered(Success(w.cache.indexes[root].1))))
  {
    var r := Request(root, LastInvalidated(w, root), Answered(Success(w.cache.indexes[root].1)));
    HitIsSound(w, root, r);
    AppendRequest(w, r);
  }

  lemma JoinStep(w: World, root: Path)
    requires Inv(w) && root in w.cache.builds
    ensures Inv(Requested(w, root, Waiting(w.cache.builds[root].0, w.cache.builds[root].1)))
  {
    var r := Request(root, LastInvalidated(w, root), Waiting(w.cache.builds[root].0, w.cache.builds[root].1));
    JoinIsSound(w, root, r);
    AppendRequest(w, r);
  }

  lemma SpawnThenWait(w: World, root: Path, now: nat)
    requires Inv(w) && CanSpawn(w, root, now)
    ensures Inv(Requested(Spawned(w, root, now), root, Waiting(w.cache.generations[root], |w.scans|)))
  {
    SpawnStep(w, root, now);
    AppendRequest(Spawned(w, root, now),
                  Request(root, LastInvalidated(w, root), Waiting(w.cache.generations[root], |w.scans|)));
  }

  lemma HitIsSound(w: World, root: Path, r: Request)
    requires IndexesAreResults(w) && CurrentIsFresh(w) && w.cache.Valid() && root in w.cache.indexes
    requires r == Request(root, LastInvalidated(w, root), Answered(Success(w.cache.indexes[root].1)))
    ensures Sound(w, r)
  {
    assert Current(w, w.cache.indexes[root].1.scan);
  }

  lemma JoinIsSound(w: World, root: Path, r: Request)
    requires BuildsAreScans(w) && CurrentIsFresh(w) && w.cache.Valid() && root in w.cache.builds
    requires r == Request(root, LastInvalidated(w, root), Waiting(w.cache.builds[root].0, w.cache.builds[root].1))
    ensures Sound(w, r)
  {
    assert Current(w, w.cache.builds[root].1);
  }

  /** How many generations the step issues. */
  function NewGenerations(w: World, event: Event): nat {
    match event
    case Begin(root) => Issues(root !in w.cache.generations)
    case Invalidate(root) => Issues(root in w.cache.generations)
    case _ => 0
  }

  lemma StepIssues(w: World, event: Event)
    ensures Step(w, event).issued == w.issued + NewGenerations(w, event)
  {
  }

  lemma StartStep(w: World, build: BuildId)
    requires Inv(w)
    ensures Inv(Step(w, StartScan(build)))
  {
    if build < |w.scans| && w.scans[build].phase.Queued? {
      PhaseStep(w, build, Running(w.clock));
    }
  }

  lemma FinishStep(w: World, build: BuildId, outcome: Result<seq<IndexedPath>, string>)
    requires Inv(w)
    ensures Inv(Step(w, FinishScan(build, outcome)))
  {
    if build < |w.scans| && w.scans[build].phase.Running? {
      PhaseStep(w, build, Finished(w.scans[build].phase.begun, AnswerOf(build, outcome)));
    }
  }

  lemma ResumeOrNot(w: World, q: nat)
    requires Inv(w)
    ensures Inv(Step(w, Resume(q)))
  {
    if Resumable(w, q) {
      ResumeStep(w, q);
    }
  }

  lemma CancelOrNot(w: World, q: nat)
    requires Inv(w)
    ensures Inv(Step(w, Cancel(q)))
  {
    if q < |w.requests| {
      CancelStep(w, q);
    }
  }

  lemma StepKeepsInv(w: World, event: Event)
    requires Inv(w) && w.issued + NewGenerations(w, event) <= U64_MODULUS
    ensures Inv(Step(w, event))
  {
    match event
    case Begin(root) => BeginStep(w, root);
    case StartScan(build) => StartStep(w, build);
    case FinishScan(build, outcome) => FinishStep(w, build, outcome);
    case Resume(q) => ResumeOrNot(w, q);
    case Cancel(q) => CancelOrNot(w, q);
    case Invalidate(root) => InvalidateStep(w, root);
    case Forget(root) => ForgetStep(w, root);
  }

  lemma {:induction false} RunKeepsInvFrom(w: World, events: seq<Event>)
    requires Inv(w) && Run(w, events).issued <= U64_MODULUS
    ensures Inv(Run(w, events))
    decreases |events|
  {
    if events != [] {
      var n := |events| - 1;
      StepIssues(Run(w, events[..n]), events[n]);
      RunKeepsInvFrom(w, events[..n]);
      StepKeepsInv(Run(w, events[..n]), events[n]);
    }
  }

  /** Some run ends in `w`, and issued no more generations than a `u64` can tell apart. */
  ghost predicate Reachable(w: World) {
    w.issued <= U64_MODULUS && exists events :: w == Run(INITIAL, events)
  }

  /** The invariant holds after every run. */
  lemma RunKeepsInv(w: World)
    requires Reachable(w)
    ensures Inv(w)
  {
    InitialInv();
    var events :| w == Run(INITIAL, events);
    RunKeepsInvFrom(INITIAL, events);
  }

  lemma InitialInv()
    ensures Inv(INITIAL)
  {
  }

  // ---------- What every run promises ----------

  /** The request was answered by a scan of its root begun no earlier than its floor. */
  ghost predicate AnswerIsFresh(w: World, r: Request, snapshot: Snapshot) {
    Returned(w, r.root, snapshot) && r.floor <= w.scans[snapshot.scan].phase.begun
  }

  /** The cached index is the success of a scan of the root begun after its last invalidation. */
  ghost predicate IndexIsFresh(w: World, root: Path)
    requires root in w.cache.indexes
  {
    var snapshot := w.cache.indexes[root].1;
    Returned(w, root, snapshot) && LastInvalidated(w, root) <= w.scans[snapshot.scan].phase.begun
  }

  /**
   * Freshness: whether it hit the cache, joined a build or started one, a request that
   * succeeds gets the result of a scan of its own root that began no earlier than the last
   * invalidation of that root before the request's first lock.
   */
  lemma EveryAnswerIsFresh(w: World, q: nat, snapshot: Snapshot)
    requires Reachable(w) && q < |w.requests|
    requires w.requests[q].progress == Answered(Success(snapshot))
    ensures AnswerIsFresh(w, w.requests[q], snapshot)
  {
    RunKeepsInv(w);
    assert Sound(w, w.requests[q]);
  }

  /** The cache never serves a stale or a failed scan. */
  lemma CachedIndexesAreFresh(w: World, root: Path)
    requires Reachable(w) && root in w.cache.indexes
    ensures IndexIsFresh(w, root)
  {
    RunKeepsInv(w);
    assert Current(w, w.cache.indexes[root].1.scan);
  }

  /** Free permits and unfinished scans always add up to two, whoever was cancelled. */
  lemma PermitsAreConserved(w: World)
    requires Reachable(w)
    ensures w.freePermits + CountUnfinished(w.scans) == 2
  {
    RunKeepsInv(w);
  }

  /** Two unfinished scans never work for the same root under the same generation. */
  lemma ScansFlySingly(w: World, a: BuildId, b: BuildId)
    requires Reachable(w) && a < |w.scans| && b < |w.scans|
    requires Unfinished(w.scans[a]) && Unfinished(w.scans[b])
    requires w.scans[a].root == w.scans[b].root && w.scans[a].generation == w.scans[b].generation
    ensures a == b
  {
    RunKeepsInv(w);
  }

  /** At most eight roots, and exactly they have generations; entries carry the current one. */
  lemma CacheIsStructured(w: World)
    requires Reachable(w)
    ensures w.cache.Valid() && |w.cache.recent| <= 8
    ensures Members(w.cache.recent) == w.cache.generations.Keys
    ensures w.cache.indexes.Keys <= w.cache.generations.Keys && w.cache.builds.Keys <= w.cache.generations.Keys
  {
    RunKeepsInv(w);
  }

  /** Whatever a request pushes out was touched before every root that stays. */
  lemma BeginEvictsLeastRecentlyTouched(w: World, v: World, root: Path, gone: Path, kept: Path)
    requires Reachable(w) && v == Step(w, Begin(root))
    requires gone in w.cache.generations && gone !in v.cache.generations && kept in v.cache.generations
    ensures gone != root && |w.cache.generations| == 8
    ensures gone in v.touchedAt && kept in v.touchedAt && v.touchedAt[gone] < v.touchedAt[kept]
  {
    RunKeepsInv(w);
    BeginEvicts(w, root, gone, kept);
  }

  lemma DecideKeepsGenerations(w: World, root: Path, now: nat)
    requires root in w.cache.generations
    ensures Decided(w, root, now).cache.generations == w.cache.generations
    ensures Decided(w, root, now).touchedAt == w.touchedAt
  {
  }

  lemma BeginEvicts(w: World, root: Path, gone: Path, kept: Path)
    requires w.cache.Valid() && UseOrder(w)
    requires var v := AfterBegin(w, root);
      gone in w.cache.generations && gone !in v.cache.generations && kept in v.cache.generations
    ensures var v := AfterBegin(w, root);
      && gone != root && |w.cache.generations| == MAX_CACHED_ROOTS
      && gone in v.touchedAt && kept in v.touchedAt && v.touchedAt[gone] < v.touchedAt[kept]
  {
    var t := Touched(w.cache, root);
    TouchEvictsOnlyTheOldest(w.cache, root);
    DecideKeepsGenerations(TouchedWorld(w, root, t), root, w.clock);
    EvictedBeforeKept(w, root, t, gone, kept);
  }

  /** A touch that pushes a root out found eight others and pushed out the first. */
  lemma EvictedIsFirst(w: World, root: Path, t: CacheState, others: seq<Path>, gone: Path)
    requires TouchedFrom(w.cache, t, root) && others == Without(w.cache.recent, root)
    requires gone in w.cache.generations && gone !in t.generations
    ensures gone != root && |others| == MAX_CACHED_ROOTS && gone == others[0]
  {
    assert gone in Outgoing(others);
  }

  lemma AsManyGenerationsAsUses(c: CacheState)
    requires c.Valid()
    ensures |c.generations| == |c.recent|
  {
    DistinctCount(c.recent);
    assert Members(c.recent) == c.generations.Keys;
  }

  lemma KeptIsLater(others: seq<Path>, at: map<Path, nat>, kept: Path)
    requires Increasing(others, at) && others != [] && kept in others && kept != others[0]
    ensures at[others[0]] < at[kept]
  {
    IncreasingTail(others, at);
    assert others == [others[0]] + others[1..];
  }

  lemma EvictedBeforeKept(w: World, root: Path, t: CacheState, gone: Path, kept: Path)
    requires w.cache.Valid() && UseOrder(w) && TouchedFrom(w.cache, t, root)
    requires gone in w.cache.generations && gone !in t.generations && kept in t.generations
    ensures var at := w.touchedAt[root := w.clock];
      && gone != root && |w.cache.generations| == MAX_CACHED_ROOTS
      && gone in at && kept in at && at[gone] < at[kept]
  {
    var recent := w.cache.recent;
    var others := Without(recent, root);
    WithoutKeepsOrder(recent, root, w.touchedAt);
    EvictedIsFirst(w, root, t, others, gone);
    AsManyGenerationsAsUses(w.cache);
    if kept != root {
      assert kept in others;
      KeptIsLater(others, w.touchedAt, kept);
    }
  }

  /** What resuming request `q` does to the cache: its build goes, its success may be published. */
  ghost predicate ResumesOnly(w: World, v: World, r: Request, build: BuildId)
    requires build < |w.scans| && w.scans[build].phase.Finished?
  {
    && (forall p :: p in v.cache.builds <==> p in w.cache.builds && w.cache.builds[p].1 != build)
    && (forall p :: p in v.cache.builds ==> v.cache.builds[p] == w.cache.builds[p])
    && (forall p :: p != r.root ==>
        (p in v.cache.indexes <==> p in w.cache.indexes) &&
        (p in v.cache.indexes ==> v.cache.indexes[p] == w.cache.indexes[p]))
    && (w.scans[build].phase.answer.Failure? ==> v.cache.indexes == w.cache.indexes)
    && (!Current(w, build) ==> v.cache.indexes == w.cache.indexes)
  }

  lemma ResumingOnly(w: World, q: nat, r: Request, build: BuildId, v: World)
    requires Resumable(w, q) && r == w.requests[q] && build == r.progress.build && v == AfterResume(w, q)
    requires Sound(w, r) && BuildsAreScans(w)
    ensures ResumesOnly(w, v, r, build)
  {
  }

  lemma ResumingFromInv(w: World, q: nat, r: Request, v: World)
    requires Inv(w) && Resumable(w, q) && r == w.requests[q] && v == Step(w, Resume(q))
    ensures ResumesOnly(w, v, r, r.progress.build)
  {
    assert Sound(w, r);
    ResumingOnly(w, q, r, r.progress.build, v);
  }

  /**
   * A resuming waiter takes down the build it waited on and no other, so from then on a
   * failure is not joined again, and publishes only a success for a root whose generation
   * is unchanged.
   */
  lemma ResumeRemovesOnlyItsBuild(w: World, q: nat, r: Request, v: World)
    requires Reachable(w) && Resumable(w, q) && r == w.requests[q] && v == Step(w, Resume(q))
    ensures ResumesOnly(w, v, r, r.progress.build)
  {
    RunKeepsInv(w);
    ResumingFromInv(w, q, r, v);
  }

  // ---------- A failure nobody waited for ----------

  /** The cache still records a finished scan of `root` that failed, under the current generation. */
  ghost predicate RecordsFailure(w: World, root: Path, build: BuildId, error: string) {
    && w.cache.Valid() && root in w.cache.builds && root !in w.cache.indexes
    && w.cache.builds[root] == (w.cache.generations[root], build)
    && build < |w.scans| && w.scans[build].phase.Finished? && w.scans[build].phase.answer == Failure(error)
  }

  lemma TouchKeepsRecord(c: CacheState, root: Path)
    requires c.Valid() && root in c.generations
    ensures var t := Touched(c, root);
      && t.generations[root] == c.generations[root]
      && (root in t.builds <==> root in c.builds) && (root in c.builds ==> t.builds[root] == c.builds[root])
      && (root in t.indexes <==> root in c.indexes)
  {
    TouchEvictsOnlyTheOldest(c, root);
  }

  lemma BeginJoinsFailure(w: World, root: Path, build: BuildId, error: string, joined: World)
    requires RecordsFailure(w, root, build, error) && joined == Step(w, Begin(root))
    ensures joined.scans == w.scans && |joined.requests| == |w.requests| + 1
    ensures var r := joined.requests[|w.requests|];
      r.root == root && r.progress == Waiting(w.cache.generations[root], build)
    ensures root in joined.cache.builds && joined.cache.builds[root].1 == build
  {
    TouchKeepsRecord(w.cache, root);
    var t := TouchedWorld(w, root, Touched(w.cache, root));
    DecidedCases(t, root, w.clock, Decide(t.cache, t.freePermits, root, |t.scans|));
  }

  lemma ResumeServesFailure(w: World, q: nat, root: Path, build: BuildId, error: string, v: World)
    requires q < |w.requests| && w.requests[q].root == root
    requires w.requests[q].progress.Waiting? && w.requests[q].progress.build == build
    requires build < |w.scans| && w.scans[build].phase.Finished? && w.scans[build].phase.answer == Failure(error)
    requires root in w.cache.builds && w.cache.builds[root].1 == build
    requires v == Step(w, Resume(q))
    ensures v.scans == w.scans && |v.requests| == |w.requests| && v.requests[q].root == root
    ensures v.requests[q].progress == Answered(Failure(error)) && root !in v.cache.builds
  {
    assert Resumable(w, q);
  }

  lemma RunOfTwo(w: World, first: Event, second: Event)
    ensures Run(w, [first, second]) == Step(Step(w, first), second)
  {
    var events := [first, second];
    assert events[..1] == [first] && events[..1][..0] == [];
    assert Run(w, []) == w;
    assert Run(w, events[..1]) == Step(w, first);
  }

  /** A request for such a root starts no scan: it joins the failure and is answered with it. */
  lemma RecordedFailureIsServedAgain(w: World, root: Path, build: BuildId, error: string)
    requires RecordsFailure(w, root, build, error)
    ensures var q := |w.requests|; var v := Run(w, [Begin(root), Resume(q)]);
      && v.scans == w.scans && |v.requests| == q + 1
      && v.requests[q].root == root && v.requests[q].progress == Answered(Failure(error))
      && root !in v.cache.builds
  {
    var q := |w.requests|;
    var joined := Step(w, Begin(root));
    BeginJoinsFailure(w, root, build, error, joined);
    ResumeServesFailure(joined, q, root, build, error, Step(joined, Resume(q)));
    RunOfTwo(w, Begin(root), Resume(q));
  }

  /** The request a `Begin` adds waits for a scan that has already failed. */
  ghost predicate JoinsFailure(w: World, root: Path, build: BuildId, error: string) {
    var v := AfterBegin(w, root);
    && |v.requests| == |w.requests| + 1
    && v.requests[|w.requests|].progress.Waiting? && v.requests[|w.requests|].progress.build == build
    && build < |w.scans| && w.scans[build].phase.Finished? && w.scans[build].phase.answer == Failure(error)
  }

  lemma JoinedIsRecorded(w: World, root: Path, t: World, build: BuildId)
    requires w.cache.Valid() && t == TouchedWorld(w, root, Touched(w.cache, root))
    requires Decide(t.cache, t.freePermits, root, |t.scans|) == Join(t.cache.generations[root], build)
    ensures root in w.cache.builds && root !in w.cache.indexes
    ensures w.cache.builds[root] == (w.cache.generations[root], build)
  {
    TouchEvictsOnlyTheOldest(w.cache, root);
    LookupGenerationsAgree(w.cache, root);
  }

  /** A failure is handed on exactly while the cache records it; every other request scans anew, hits or is refused. */
  lemma FailureIsJoinedIffRecorded(w: World, root: Path, build: BuildId, error: string)
    requires w.cache.Valid()
    ensures JoinsFailure(w, root, build, error) <==> RecordsFailure(w, root, build, error)
  {
    if RecordsFailure(w, root, build, error) {
      BeginJoinsFailure(w, root, build, error, Step(w, Begin(root)));
    }
    if JoinsFailure(w, root, build, error) {
      var t := TouchedWorld(w, root, Touched(w.cache, root));
      var lookup := Decide(t.cache, t.freePermits, root, |t.scans|);
      DecidedCases(t, root, w.clock, lookup);
      assert lookup.Join?;
      JoinedIsRecorded(w, root, t, build);
    }
  }

  /** And such a record is left behind when the only waiter is cancelled before the scan fails. */
  lemma CancelledWaiterLeavesFailure(root: Path, error: string)
    ensures RecordsFailure(Run(INITIAL, [Begin(root), StartScan(0)] + [Cancel(0), FinishScan(0, Failure(error))]), root, 0, error)
  {
    FirstScanStarts(root);
    FirstScanIsRecorded(root);
    var opening, rest := [Begin(root), StartScan(0)], [Cancel(0), FinishScan(0, Failure(error))];
    RunInTwo(INITIAL, opening, rest);
    LateFailureStays(Run(INITIAL, opening), root, error);
  }

  lemma LateFailureStays(w: World, root: Path, error: string)
    requires w.cache.Valid() && root in w.cache.builds && root !in w.cache.indexes
    requires w.cache.builds[root] == (w.cache.generations[root], 0)
    requires w.scans == [Scan(root, 1, 1, Running(2))] && |w.requests| == 1 && w.requests[0].progress == Waiting(1, 0)
    ensures RecordsFailure(Run(w, [Cancel(0), FinishScan(0, Failure(error))]), root, 0, error)
  {
    RunOfTwo(w, Cancel(0), FinishScan(0, Failure(error)));
    var c := Step(w, Cancel(0));
    assert c.scans == w.scans && c.cache == w.cache;
  }

  // ---------- Why generations must be unique ----------

  function Repeated(event: Event, n: nat): seq<Event> {
    if n == 0 then [] else Repeated(event, n - 1) + [event]
  }

  lemma {:induction false} RunInTwo(w: World, first: seq<Event>, second: seq<Event>)
    ensures Run(w, first + second) == Run(Run(w, first), second)
    decreases |second|
  {
    if second == [] {
      assert first + second == first;
    } else {
      var n := |second| - 1;
      assert (first + second)[..|first + second| - 1] == first + second[..n];
      RunInTwo(w, first, second[..n]);
    }
  }

  lemma RunThenOne(w: World, events: seq<Event>, event: Event)
    ensures Run(w, events + [event]) == Step(Run(w, events), event)
  {
    assert (events + [event])[..|events|] == events;
  }

  /** `v` is `w` after `root` was invalidated `n` times and nothing else happened. */
  ghost predicate InvalidatedTimes(w: World, v: World, root: Path, n: nat) {
    && root in v.cache.generations
    && v.cache.generations[root] == v.cache.nextGeneration == (w.cache.nextGeneration + n) % U64_MODULUS
    && v.scans == w.scans && v.requests == w.requests && v.clock == w.clock + n
    && v.issued == w.issued + n
    && (n > 0 ==> LastInvalidated(v, root) == v.clock - 1)
  }

  lemma OneMoreInvalidation(w: World, u: World, v: World, root: Path, n: nat)
    requires InvalidatedTimes(w, u, root, n) && v == Step(u, Invalidate(root))
    ensures InvalidatedTimes(w, v, root, n + 1)
  {
  }

  function InvalidatedRun(w: World, root: Path, n: nat): World {
    if n == 0 then w else Step(InvalidatedRun(w, root, n - 1), Invalidate(root))
  }

  lemma {:induction false} RepeatedRuns(w: World, root: Path, n: nat)
    ensures Run(w, Repeated(Invalidate(root), n)) == InvalidatedRun(w, root, n)
  {
    if n > 0 {
      RepeatedRuns(w, root, n - 1);
      RunThenOne(w, Repeated(Invalidate(root), n - 1), Invalidate(root));
    }
  }

  lemma {:induction false} InvalidatedRunTimes(w: World, root: Path, n: nat)
    requires root in w.cache.generations && w.cache.generations[root] == w.cache.nextGeneration < U64_MODULUS
    ensures InvalidatedTimes(w, InvalidatedRun(w, root, n), root, n)
  {
    if n > 0 {
      InvalidatedRunTimes(w, root, n - 1);
      OneMoreInvalidation(w, InvalidatedRun(w, root, n - 1), InvalidatedRun(w, root, n), root, n - 1);
    }
  }

  lemma AfterInvalidations(w: World, root: Path, n: nat)
    requires root in w.cache.generations && w.cache.generations[root] == w.cache.nextGeneration < U64_MODULUS
    ensures InvalidatedTimes(w, Run(w, Repeated(Invalidate(root), n)), root, n)
  {
    RepeatedRuns(w, root, n);
    InvalidatedRunTimes(w, root, n);
  }

  lemma CircleCloses(start: nat, turns: nat)
    requires start < U64_MODULUS && turns % U64_MODULUS == 0
    ensures (start + turns) % U64_MODULUS == start
  {
  }

  /** A scan begins, its root is invalidated `turns` times, and only then the scan ends. */
  function WrappingRun(root: Path, paths: seq<IndexedPath>, turns: nat): seq<Event> {
    [Begin(root), StartScan(0)] + Repeated(Invalidate(root), turns) + [FinishScan(0, Success(paths)), Resume(0)]
  }

  /** With the counter gone full circle the stale snapshot is taken for a current one. */
  lemma WrappedGenerationCachesAStaleIndex(root: Path, paths: seq<IndexedPath>, turns: nat)
    requires turns > 0 && turns % U64_MODULUS == 0
    ensures var w := Run(INITIAL, WrappingRun(root, paths, turns));
      w.issued == turns + 1 && root in w.cache.indexes && !IndexIsFresh(w, root)
  {
    var opening := [Begin(root), StartScan(0)];
    var start := Run(INITIAL, opening);
    FirstScanStarts(root);
    AfterInvalidations(start, root, turns);
    RunInTwo(INITIAL, opening, Repeated(Invalidate(root), turns));
    RunInTwo(INITIAL, opening + Repeated(Invalidate(root), turns), [FinishScan(0, Success(paths)), Resume(0)]);
    CircleCloses(1, turns);
    LateFinishIsPublished(Run(start, Repeated(Invalidate(root), turns)), root, paths);
  }

  /** Every cached index and every successful answer is fresh. */
  ghost predicate AllFresh(w: World) {
    && (forall root :: root in w.cache.indexes ==> IndexIsFresh(w, root))
    && (forall q :: 0 <= q < |w.requests| && w.requests[q].progress.Answered? && w.requests[q].progress.answer.Success? ==>
        AnswerIsFresh(w, w.requests[q], w.requests[q].progress.answer.value))
  }

  lemma ReachableIsFresh(w: World)
    requires Reachable(w)
    ensures AllFresh(w)
  {
    forall root | root in w.cache.indexes ensures IndexIsFresh(w, root) {
      CachedIndexesAreFresh(w, root);
    }
    forall q | 0 <= q < |w.requests| && w.requests[q].progress.Answered? && w.requests[q].progress.answer.Success?
      ensures AnswerIsFresh(w, w.requests[q], w.requests[q].progress.answer.value)
    {
      EveryAnswerIsFresh(w, q, w.requests[q].progress.answer.value);
    }
  }

  /** Every run that issues at most `n` generations keeps everything fresh. */
  ghost predicate FreshUpTo(n: nat) {
    forall events :: Run(INITIAL, events).issued <= n ==> AllFresh(Run(INITIAL, events))
  }

  /** The bound is exact: freshness holds for all runs of at most `n` generations just when a `u64` tells `n` apart. */
  lemma FreshnessBound(n: nat)
    ensures FreshUpTo(n) <==> n <= 0x1_0000_0000_0000_0000
  {
    if n <= U64_MODULUS {
      forall events | Run(INITIAL, events).issued <= n ensures AllFresh(Run(INITIAL, events)) {
        ReachableIsFresh(Run(INITIAL, events));
      }
    } else {
      var events := WrappingRun("", [], U64_MODULUS);
      WrappedGenerationCachesAStaleIndex("", [], U64_MODULUS);
      assert Run(INITIAL, events).issued <= n && !AllFresh(Run(INITIAL, events));
    }
  }

  lemma FirstScanStarts(root: Path)
    ensures var w := Run(INITIAL, [Begin(root), StartScan(0)]);
      && root in w.cache.generations
      && w.cache.generations[root] == w.cache.nextGeneration == 1
      && w.scans == [Scan(root, 1, 1, Running(2))]
      && |w.requests| == 1 && w.requests[0].root == root && w.requests[0].progress == Waiting(1, 0)
      && w.clock == 3 && w.issued == 1
  {
    TouchEvictsOnlyTheOldest(EMPTY_CACHE, root);
    RunOfTwo(INITIAL, Begin(root), StartScan(0));
    var w := AfterBegin(INITIAL, root);
    assert w.scans == [Scan(root, 1, 1, Queued)];
  }

  lemma FirstScanIsRecorded(root: Path)
    ensures var w := Run(INITIAL, [Begin(root), StartScan(0)]);
      && w.cache.Valid() && root !in w.cache.indexes && root in w.cache.builds && w.cache.builds[root] == (1, 0)
  {
    TouchEvictsOnlyTheOldest(EMPTY_CACHE, root);
    TouchKeepsValid(EMPTY_CACHE, root);
    RunOfTwo(INITIAL, Begin(root), StartScan(0));
    var w := AfterBegin(INITIAL, root);
    assert Step(w, StartScan(0)).cache == w.cache;
  }

  lemma LateFinishIsPublished(w: World, root: Path, paths: seq<IndexedPath>)
    requires root in w.cache.generations && w.cache.generations[root] == 1
    requires w.scans == [Scan(root, 1, 1, Running(2))]
    requires |w.requests| == 1 && w.requests[0].root == root && w.requests[0].progress == Waiting(1, 0)
    ensures var v := Run(w, [FinishScan(0, Success(paths)), Resume(0)]);
      && root in v.cache.indexes && v.cache.indexes[root] == (1, Snapshot(0, paths))
      && |v.scans| == 1 && v.scans[0].phase.Finished? && v.scans[0].phase.begun == 2
      && LastInvalidated(v, root) == LastInvalidated(w, root) && v.issued == w.issued
  {
    RunOfTwo(w, FinishScan(0, Success(paths)), Resume(0));
    var f := Step(w, FinishScan(0, Success(paths)));
    assert Resumable(f, 0);
  }
}
