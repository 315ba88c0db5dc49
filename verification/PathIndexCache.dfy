/**
 * The path index cache (src-tauri/src/fs.rs, PathIndexCache) and the two critical
 * sections of the loader around it (load_path_index_with).
 *
 * `CacheState` is the value of the cache; the functions on it say what each operation
 * does to that value, and the classes do it in place, statement by statement.
 */
module PathIndexCaches {
  import opened Collections
  import opened Wrappers

  type Path = string

  const MAX_CACHED_ROOTS := 8
  const MAX_INDEX_BUILDS := 2
  const U64_MODULUS := 0x1_0000_0000_0000_0000

  datatype IndexedPath = IndexedPath(relative: string, isDir: bool)

  /** A build is known by its allocation: two builds are the same iff their ids are. */
  type BuildId = nat

  /** What a successful scan hands to all its waiters. */
  datatype Snapshot = Snapshot(scan: BuildId, paths: seq<IndexedPath>)

  datatype CacheState = CacheState(
    generations: map<Path, nat>,
    indexes: map<Path, (nat, Snapshot)>,
    builds: map<Path, (nat, BuildId)>,
    recent: seq<Path>,
    nextGeneration: nat)
  {
    /** What holds between any two operations. */
    ghost predicate Valid() {
      && Distinct(recent)
      && |recent| <= MAX_CACHED_ROOTS
      && (forall root :: root in recent <==> root in generations)
      && (forall root :: root in indexes ==> root in generations && indexes[root].0 == generations[root])
      && (forall root :: root in builds ==> root in generations && builds[root].0 == generations[root])
    }
  }

  /** `recent.retain(|path| path != root)` */
  function Without(s: seq<Path>, root: Path): (r: seq<Path>)
    ensures forall p :: p in r <==> p in s && p != root
    ensures |r| <= |s|
    ensures Distinct(s) ==> Distinct(r)
    ensures root !in s ==> r == s
  {
    if s == [] then [] else
      var rest := Without(s[1..], root);
      assert Distinct(s) ==> Distinct(s[1..]) && s[0] !in s[1..];
      if s[0] == root then rest else [s[0]] + rest
  }

  function NextGeneration(generation: nat): nat {
    (generation + 1) % U64_MODULUS
  }

  /** The cache with one root's records dropped and a given use order. */
  function Dropping(c: CacheState, root: Path, recent: seq<Path>): CacheState {
    CacheState(c.generations - {root}, c.indexes - {root}, c.builds - {root}, recent, c.nextGeneration)
  }

  /** Roots leave from the front of the use order until the bound holds. */
  function Evicted(c: CacheState): (r: CacheState)
    ensures |r.recent| <= MAX_CACHED_ROOTS
    decreases |c.recent|
  {
    if |c.recent| > MAX_CACHED_ROOTS then Evicted(Dropping(c, c.recent[0], c.recent[1..])) else c
  }

  function Generated(c: CacheState, root: Path): CacheState {
    if root in c.generations then c
    else
      var next := NextGeneration(c.nextGeneration);
      c.(nextGeneration := next, generations := c.generations[root := next])
  }

  function Touched(c: CacheState, root: Path): (r: CacheState)
    ensures root in r.generations
  {
    Generated(Evicted(c.(recent := Without(c.recent, root) + [root])), root)
  }

  function Invalidated(c: CacheState, root: Path): CacheState {
    var moved :=
      if root in c.generations then
        var next := NextGeneration(c.nextGeneration);
        c.(nextGeneration := next, generations := c.generations[root := next])
      else c;
    moved.(indexes := c.indexes - {root}, builds := c.builds - {root})
  }

  function Forgotten(c: CacheState, root: Path): CacheState {
    Dropping(c, root, Without(c.recent, root))
  }

  // ---------- What the operations keep ----------

  /** The roots a touch of `root` pushes out: the front of a full order, if any. */
  function Outgoing(others: seq<Path>): set<Path> {
    if |others| == MAX_CACHED_ROOTS then {others[0]} else {}
  }

  /** What stays of the other roots. */
  function Kept(others: seq<Path>): seq<Path> {
    if Outgoing(others) == {} then others else others[1..]
  }

  lemma EvictionIsOneStep(c: CacheState, others: seq<Path>, root: Path)
    requires c.recent == others + [root] && |others| <= MAX_CACHED_ROOTS
    ensures var e := Evicted(c); var gone := Outgoing(others);
      && e.generations == c.generations - gone
      && e.indexes == c.indexes - gone
      && e.builds == c.builds - gone
      && e.recent == Kept(others) + [root]
      && e.nextGeneration == c.nextGeneration
  {
    if |others| == MAX_CACHED_ROOTS {
      assert c.recent[0] == others[0] && c.recent[1..] == others[1..] + [root];
      var d := Dropping(c, others[0], others[1..] + [root]);
      assert Evicted(c) == Evicted(d) == d;
    }
  }

  /** `t` is `c` after a touch of `root`, told field by field. */
  ghost predicate TouchedFrom(c: CacheState, t: CacheState, root: Path) {
    var others := Without(c.recent, root);
    var gone := Outgoing(others);
    && root !in gone
    && t.generations.Keys == c.generations.Keys - gone + {root}
    && t.indexes == c.indexes - gone
    && t.builds == c.builds - gone
    && (forall p :: p in c.generations && p !in gone ==> t.generations[p] == c.generations[p])
    && (root !in c.generations ==>
        t.nextGeneration == NextGeneration(c.nextGeneration) == t.generations[root])
    && (root in c.generations ==> t.nextGeneration == c.nextGeneration)
    && t.recent == Kept(others) + [root]
  }

  /**
   * Eviction removes exactly the least recently used other root, only when eight others
   * are cached already, and nothing else changes; the touched root moves to the end.
   */
  lemma TouchEvictsOnlyTheOldest(c: CacheState, root: Path)
    requires |c.recent| <= MAX_CACHED_ROOTS
    ensures TouchedFrom(c, Touched(c, root), root)
  {
    var others := Without(c.recent, root);
    EvictionIsOneStep(c.(recent := others + [root]), others, root);
  }

  lemma KeptAreTheRest(others: seq<Path>, kept: seq<Path>)
    requires Distinct(others) && |others| <= MAX_CACHED_ROOTS && kept == Kept(others)
    ensures Distinct(kept) && |kept| < MAX_CACHED_ROOTS
    ensures forall p :: p in kept <==> p in others && p !in Outgoing(others)
  {
    if Outgoing(others) != {} {
      assert others == [others[0]] + kept;
    }
  }

  lemma OneAtTheEnd(kept: seq<Path>, root: Path, recent: seq<Path>)
    requires Distinct(kept) && root !in kept && recent == kept + [root]
    ensures Distinct(recent) && forall p :: p in recent <==> p in kept || p == root
  {
  }

  lemma TouchedRootsAgree(c: CacheState, t: CacheState, root: Path, others: seq<Path>)
    requires c.Valid() && TouchedFrom(c, t, root) && others == Without(c.recent, root)
    ensures Distinct(t.recent) && |t.recent| <= MAX_CACHED_ROOTS
    ensures forall p :: p in t.recent <==> p in t.generations
  {
    KeptAreTheRest(others, Kept(others));
    OneAtTheEnd(Kept(others), root, t.recent);
  }

  lemma TouchedFromKeepsValid(c: CacheState, t: CacheState, root: Path)
    requires c.Valid() && TouchedFrom(c, t, root)
    ensures t.Valid()
  {
    var others := Without(c.recent, root);
    TouchedRootsAgree(c, t, root, others);
    forall p | p in t.indexes ensures p in t.generations && t.indexes[p].0 == t.generations[p] {
    }
    forall p | p in t.builds ensures p in t.generations && t.builds[p].0 == t.generations[p] {
    }
  }

  lemma TouchKeepsValid(c: CacheState, root: Path)
    requires c.Valid()
    ensures Touched(c, root).Valid()
  {
    TouchEvictsOnlyTheOldest(c, root);
    TouchedFromKeepsValid(c, Touched(c, root), root);
  }

  /** A lookup after `touch` therefore always finds its generation checks satisfied. */
  lemma LookupGenerationsAgree(c: CacheState, root: Path)
    requires c.Valid()
    ensures var t := Touched(c, root);
      && (root in t.indexes ==> t.indexes[root].0 == t.generations[root])
      && (root in t.builds ==> t.builds[root].0 == t.generations[root])
  {
    TouchKeepsValid(c, root);
  }

  lemma InvalidateKeepsValid(c: CacheState, root: Path)
    requires c.Valid()
    ensures Invalidated(c, root).Valid()
    ensures root !in Invalidated(c, root).indexes && root !in Invalidated(c, root).builds
    ensures Invalidated(c, root).generations.Keys == c.generations.Keys
  {
  }

  lemma ForgetKeepsValid(c: CacheState, root: Path)
    requires c.Valid()
    ensures Forgotten(c, root).Valid()
    ensures Forgotten(c, root).generations.Keys == c.generations.Keys - {root}
  {
  }

  /** A watcher that reports late cannot bring back a root the cache no longer knows. */
  lemma LateInvalidateChangesNothing(c: CacheState, root: Path)
    requires c.Valid()
    ensures Invalidated(Forgotten(c, root), root) == Forgotten(c, root)
  {
    var f := Forgotten(c, root);
    assert f.indexes - {root} == f.indexes;
    assert f.builds - {root} == f.builds;
  }

  class PathIndexCache {
    var generations: map<Path, nat>
    var indexes: map<Path, (nat, Snapshot)>
    var builds: map<Path, (nat, BuildId)>
    var recent: seq<Path>
    var nextGeneration: nat

    function State(): CacheState
      reads this
    {
      CacheState(generations, indexes, builds, recent, nextGeneration)
    }

    constructor ()
      ensures State() == CacheState(map[], map[], map[], [], 0)
    {
      generations, indexes, builds := map[], map[], map[];
      recent, nextGeneration := [], 0;
    }

    method Touch(root: Path) returns (generation: nat)
      modifies this
      ensures State() == Touched(old(State()), root)
      ensures generation == State().generations[root]
    {
      recent := Without(recent, root) + [root];
      ghost var moved := State();
      while |recent| > MAX_CACHED_ROOTS
        invariant Evicted(State()) == Evicted(moved)
      {
        var oldest := recent[0];
        recent := recent[1..];
        generations := generations - {oldest};
        indexes := indexes - {oldest};
        builds := builds - {oldest};
      }
      if root !in generations {
        nextGeneration := NextGeneration(nextGeneration);
        generations := generations[root := nextGeneration];
      }
      generation := generations[root];
    }

    method Invalidate(root: Path)
      modifies this
      ensures State() == Invalidated(old(State()), root)
    {
      if root in generations {
        nextGeneration := NextGeneration(nextGeneration);
        generations := generations[root := nextGeneration];
      }
      indexes := indexes - {root};
      builds := builds - {root};
    }

    method Forget(root: Path)
      modifies this
      ensures State() == Forgotten(old(State()), root)
    {
      generations := generations - {root};
      indexes := indexes - {root};
      builds := builds - {root};
      recent := Without(recent, root);
    }
  }

  // ---------- The loader's two critical sections ----------

  /** What a request learns under its first lock. */
  datatype Lookup =
    | Hit(snapshot: Snapshot)
    | Join(generation: nat, build: BuildId)
    | Spawn(generation: nat, build: BuildId)
    | Refuse

  /** The decision, given the touched cache, the free permits and the next build's id. */
  function Decide(touched: CacheState, freePermits: nat, root: Path, nextId: BuildId): Lookup
    requires root in touched.generations
  {
    var generation := touched.generations[root];
    if root in touched.indexes && touched.indexes[root].0 == generation then
      Hit(touched.indexes[root].1)
    else if root in touched.builds && touched.builds[root].0 == generation then
      Join(generation, touched.builds[root].1)
    else if freePermits == 0 then Refuse
    else Spawn(generation, nextId)
  }

  function Recorded(touched: CacheState, root: Path, lookup: Lookup): CacheState {
    if lookup.Spawn? then
      touched.(builds := touched.builds[root := (lookup.generation, lookup.build)])
    else touched
  }

  /** What a request does under its second lock, once its build has a result. */
  function Settled(c: CacheState, root: Path, generation: nat, build: BuildId,
                   result: Result<Snapshot, string>): CacheState
  {
    var cleared :=
      if root in c.builds && c.builds[root].1 == build then c.(builds := c.builds - {root}) else c;
    if root in cleared.generations && cleared.generations[root] == generation && result.Success? then
      cleared.(indexes := cleared.indexes[root := (generation, result.value)])
    else cleared
  }

  class PathIndexLoader {
    const cache: PathIndexCache
    var freePermits: nat
    var nextBuild: BuildId

    constructor (cache: PathIndexCache)
      ensures this.cache == cache && freePermits == MAX_INDEX_BUILDS && nextBuild == 0
    {
      this.cache := cache;
      freePermits, nextBuild := MAX_INDEX_BUILDS, 0;
    }

    /** The first lock: touch, then hit, join, or take a permit and spawn a scan. */
    method Begin(root: Path) returns (lookup: Lookup)
      modifies this, cache
      ensures lookup == Decide(Touched(old(cache.State()), root), old(freePermits), root, old(nextBuild))
      ensures cache.State() == Recorded(Touched(old(cache.State()), root), root, lookup)
      ensures freePermits == old(freePermits) - if lookup.Spawn? then 1 else 0
      ensures nextBuild == old(nextBuild) + if lookup.Spawn? then 1 else 0
    {
      var generation := cache.Touch(root);
      if root in cache.indexes {
        var (cachedGeneration, index) := cache.indexes[root];
        if cachedGeneration == generation {
          return Hit(index);
        }
      }
      if root in cache.builds && cache.builds[root].0 == generation {
        return Join(generation, cache.builds[root].1);
      }
      if freePermits == 0 {
        return Refuse;
      }
      freePermits := freePermits - 1;
      var build := nextBuild;
      nextBuild := nextBuild + 1;
      cache.builds := cache.builds[root := (generation, build)];
      return Spawn(generation, build);
    }

    /** The second lock: drop the build this request waited on and publish if still current. */
    method Finish(root: Path, generation: nat, build: BuildId, result: Result<Snapshot, string>)
      returns (answer: Result<Snapshot, string>)
      modifies cache
      ensures cache.State() == Settled(old(cache.State()), root, generation, build, result)
      ensures answer == result
    {
      if root in cache.builds && cache.builds[root].1 == build {
        cache.builds := cache.builds - {root};
      }
      if root in cache.generations && cache.generations[root] == generation {
        if result.Success? {
          cache.indexes := cache.indexes[root := (generation, result.value)];
        }
      }
      answer := result;
    }

    /** The scan ends: its permit goes back whether or not anyone still waits. */
    method Release()
      modifies this`freePermits
      ensures freePermits == old(freePermits) + 1
    {
      freePermits := freePermits + 1;
    }
  }
}
