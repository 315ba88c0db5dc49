/**
 * The loader's classes take the protocol's steps: driving the cache and the loader in place
 * (src-tauri/src/fs.rs, load_path_index_with, invalidate and forget) keeps them in the state
 * that PathIndexProtocol says the world is in.
 */
module PathIndexRefinement {
  import opened PathIndexCaches
  import opened PathIndexProtocol
  import opened Wrappers

  /** The cache, the free permits and the number of builds are those of the world. */
  ghost predicate Shows(loader: PathIndexLoader, w: World)
    reads loader, loader.cache
  {
    && loader.cache.State() == w.cache
    && loader.freePermits == w.freePermits
    && loader.nextBuild == |w.scans|
  }

  /** How a request goes on after its first lock. */
  function ProgressAfter(lookup: Lookup): Progress {
    match lookup
    case Hit(snapshot) => Answered(Success(snapshot))
    case Join(generation, build) => Waiting(generation, build)
    case Spawn(generation, build) => Waiting(generation, build)
    case Refuse => Refused
  }

  /** A `Begin` step is the loader's first critical section, and records its request. */
  lemma BeginIsTheLoaders(w: World, root: Path, touched: CacheState, lookup: Lookup, v: World)
    requires touched == Touched(w.cache, root) && lookup == Decide(touched, w.freePermits, root, |w.scans|)
    requires v == Step(w, Begin(root))
    ensures v.cache == Recorded(touched, root, lookup)
    ensures v.freePermits == w.freePermits - Issues(lookup.Spawn?) && |v.scans| == |w.scans| + Issues(lookup.Spawn?)
    ensures v.requests == w.requests + [Request(root, LastInvalidated(w, root), ProgressAfter(lookup))]
  {
  }

  method BeginInPlace(loader: PathIndexLoader, root: Path, ghost w: World) returns (lookup: Lookup, ghost v: World)
    requires Shows(loader, w)
    modifies loader, loader.cache
    ensures v == Step(w, Begin(root)) && Shows(loader, v)
    ensures v.requests == w.requests + [Request(root, LastInvalidated(w, root), ProgressAfter(lookup))]
  {
    lookup := loader.Begin(root);
    v := Step(w, Begin(root));
    BeginIsTheLoaders(w, root, Touched(w.cache, root), lookup, v);
  }

  /** A waiter resumes with the values it kept from its first lock and its build's result. */
  method ResumeInPlace(loader: PathIndexLoader, root: Path, generation: nat, build: BuildId, result: Answer,
                       ghost w: World, ghost q: nat)
    returns (answer: Answer, ghost v: World)
    requires Shows(loader, w) && Resumable(w, q)
    requires w.requests[q].root == root && w.requests[q].progress == Waiting(generation, build)
    requires w.scans[build].phase.answer == result
    modifies loader.cache
    ensures v == Step(w, Resume(q)) && Shows(loader, v)
    ensures v.requests[q].progress == Answered(answer)
  {
    answer := loader.Finish(root, generation, build, result);
    v := Step(w, Resume(q));
  }

  /** A scan's end gives its permit back, whether or not anyone still waits. */
  method FinishScanInPlace(loader: PathIndexLoader, ghost w: World, ghost build: BuildId,
                           ghost outcome: Result<seq<IndexedPath>, string>)
    returns (ghost v: World)
    requires Shows(loader, w) && build < |w.scans| && w.scans[build].phase.Running?
    modifies loader
    ensures v == Step(w, FinishScan(build, outcome)) && Shows(loader, v)
  {
    loader.Release();
    v := Step(w, FinishScan(build, outcome));
  }

  method InvalidateInPlace(loader: PathIndexLoader, root: Path, ghost w: World) returns (ghost v: World)
    requires Shows(loader, w)
    modifies loader.cache
    ensures v == Step(w, Invalidate(root)) && Shows(loader, v)
  {
    loader.cache.Invalidate(root);
    v := Step(w, Invalidate(root));
  }

  method ForgetInPlace(loader: PathIndexLoader, root: Path, ghost w: World) returns (ghost v: World)
    requires Shows(loader, w)
    modifies loader.cache
    ensures v == Step(w, Forget(root)) && Shows(loader, v)
  {
    loader.cache.Forget(root);
    v := Step(w, Forget(root));
  }

  /** The other two steps, a scan getting its thread and a waiter being dropped, touch neither object. */
  lemma OtherStepsLeaveTheLoader(loader: PathIndexLoader, w: World, event: Event)
    requires Shows(loader, w) && (event.StartScan? || event.Cancel?)
    ensures Shows(loader, Step(w, event))
  {
  }
}
