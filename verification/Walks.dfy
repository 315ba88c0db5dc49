/**
 * The two explicit-stack directory walks (src-tauri/src/fs.rs,
 * collect_walk_paths_with_limits and count_entries_under) over a tree of directories.
 */
module Walks {
  import opened Collections
  import opened Wrappers

  /** Names and paths are byte strings; a listing is in whatever order the system reads it. */
  type Bytes = seq<Byte>

  /**
   * What `read_dir` and `file_type` find. A directory's listing may break off with an
   * error after its entries; an unreadable directory cannot be listed at all; the type of
   * an opaque entry cannot be read; everything else (files, symlinks, ...) is `Leaf`.
   */
  datatype Node =
    | Leaf
    | Opaque
    | Unreadable
    | Dir(entries: seq<Entry>, broken: bool)

  datatype Entry = Entry(name: Bytes, node: Node)

  const SLASH: Byte := 0x2F
  const BACKSLASH: Byte := 0x5C
  const MAX_INDEXED_PATHS := 100_000

  predicate IsDir(node: Node) {
    node.Dir? || node.Unreadable?
  }

  /** What the walk takes from its surroundings: lossy decoding and the ignored names. */
  datatype Rules = Rules(lossy: Bytes -> Bytes, ignored: Bytes -> bool)
  {
    predicate Skips(name: Bytes) {
      ignored(lossy(name))
    }
  }

  /** `PathBuf::join` */
  function Join(dir: Bytes, name: Bytes): Bytes {
    if dir == [] || dir[|dir| - 1] == SLASH then dir + name else dir + [SLASH] + name
  }

  function Relative(comps: seq<Bytes>): Bytes
    requires comps != []
  {
    if |comps| == 1 then comps[0] else comps[0] + [SLASH] + Relative(comps[1..])
  }

  function Forward(b: Bytes): Bytes {
    seq(|b|, i requires 0 <= i < |b| => if b[i] == BACKSLASH then SLASH else b[i])
  }

  /** `strip_prefix(root)`, decoded lossily, with forward slashes. */
  function Shown(rules: Rules, comps: seq<Bytes>): Bytes
    requires comps != []
  {
    Forward(rules.lossy(Relative(comps)))
  }

  // ---------- The recursive form ----------

  /**
   * What a whole subtree amounts to: the files in it that no ignored name leads to, the
   * entries of its unpruned directories, the bytes of every path the walk would hold for
   * it, and whether everything in it can be read.
   */
  datatype Account = Account(files: multiset<seq<Bytes>>, visited: nat, bytes: nat, clean: bool)

  const NOTHING := Account(multiset{}, 0, 0, true)

  function Plus(a: Account, b: Account): Account {
    Account(a.files + b.files, a.visited + b.visited, a.bytes + b.bytes, a.clean && b.clean)
  }

  /** The contents of a directory at `path`; `comps` is the same place relative to the root. */
  function OfNode(rules: Rules, path: Bytes, comps: seq<Bytes>, node: Node): Account
    decreases node, 0
  {
    match node
    case Dir(entries, broken) => Plus(OfEntries(rules, path, comps, entries), NOTHING.(clean := !broken))
    case _ => NOTHING.(clean := false)
  }

  function OfEntries(rules: Rules, path: Bytes, comps: seq<Bytes>, entries: seq<Entry>): Account
    decreases entries, 1
  {
    if entries == [] then NOTHING
    else Plus(OfEntry(rules, path, comps, entries[0]), OfEntries(rules, path, comps, entries[1..]))
  }

  function OfEntry(rules: Rules, path: Bytes, comps: seq<Bytes>, entry: Entry): Account
    decreases entry
  {
    var inner := comps + [entry.name];
    var visit := NOTHING.(visited := 1);
    if rules.Skips(entry.name) then visit
    else if entry.node.Opaque? then visit.(clean := false)
    else if IsDir(entry.node) then
      var full := Join(path, entry.name);
      Plus(visit.(bytes := |full|), OfNode(rules, full, inner, entry.node))
    else visit.(bytes := |Shown(rules, inner)|, files := multiset{inner})
  }

  // ---------- The walk ----------

  /** A directory on the stack: its path, where that is below the root, and what is there. */
  datatype Pending = Pending(path: Bytes, comps: seq<Bytes>, node: Node)

  function OfPending(rules: Rules, pending: seq<Pending>): Account {
    if pending == [] then NOTHING
    else
      var top := pending[|pending| - 1];
      Plus(OfNode(rules, top.path, top.comps, top.node), OfPending(rules, pending[..|pending| - 1]))
  }

  function PendingBytes(pending: seq<Pending>): nat {
    if pending == [] then 0
    else PendingBytes(pending[..|pending| - 1]) + |pending[|pending| - 1].path|
  }

  function RetainedBytes(paths: seq<Bytes>): nat {
    if paths == [] then 0 else RetainedBytes(paths[..|paths| - 1]) + |paths[|paths| - 1]|
  }

  datatype WalkError = CannotWalk | CannotRead | CannotInspect | TooManyEntries | TooManyPaths | TooManyBytes

  /** The paths shown are those of `found`, one for one. */
  ghost predicate ShowsAll(rules: Rules, paths: seq<Bytes>, found: seq<seq<Bytes>>) {
    && |paths| == |found|
    && forall k :: 0 <= k < |found| ==> found[k] != [] && paths[k] == Shown(rules, found[k])
  }

  /** The walk's variables. */
  datatype Walk = Walk(pending: seq<Pending>, paths: seq<Bytes>, count: nat, visited: nat, bytes: nat)

  datatype Limits = Limits(entries: nat, bytes: nat)

  // ---------- The most a walk holds at once ----------

  /** The directory an entry puts on the stack, if it does. */
  function SubDir(rules: Rules, path: Bytes, comps: seq<Bytes>, entry: Entry): seq<Pending> {
    if rules.Skips(entry.name) || !IsDir(entry.node) then []
    else [Pending(Join(path, entry.name), comps + [entry.name], entry.node)]
  }

  function SubDirs(rules: Rules, path: Bytes, comps: seq<Bytes>, entries: seq<Entry>): seq<Pending> {
    if entries == [] then []
    else SubDir(rules, path, comps, entries[0]) + SubDirs(rules, path, comps, entries[1..])
  }

  /** The bytes of the path an entry makes the walk hold. */
  function Held(rules: Rules, path: Bytes, comps: seq<Bytes>, entry: Entry): nat {
    if rules.Skips(entry.name) || entry.node.Opaque? then 0
    else if IsDir(entry.node) then |Join(path, entry.name)|
    else |Shown(rules, comps + [entry.name])|
  }

  function HeldBy(rules: Rules, path: Bytes, comps: seq<Bytes>, entries: seq<Entry>): nat {
    if entries == [] then 0
    else Held(rules, path, comps, entries[0]) + HeldBy(rules, path, comps, entries[1..])
  }

  function EntriesOf(node: Node): seq<Entry> {
    if node.Dir? then node.entries else []
  }

  function StackSize(pending: seq<Pending>): nat {
    if pending == [] then 0
    else StackSize(pending[..|pending| - 1]) + 1 + EntryTotal(pending[|pending| - 1].node)
  }

  lemma {:induction false} StackSizeJoins(a: seq<Pending>, b: seq<Pending>)
    ensures StackSize(a + b) == StackSize(a) + StackSize(b)
  {
    if b == [] {
      assert a + b == a;
    } else {
      var n := |b| - 1;
      assert (a + b)[..|a + b| - 1] == a + b[..n];
      StackSizeJoins(a, b[..n]);
    }
  }

  lemma {:induction false} SubDirsAreSmaller(rules: Rules, path: Bytes, comps: seq<Bytes>, entries: seq<Entry>)
    ensures StackSize(SubDirs(rules, path, comps, entries)) <= EntriesTotal(entries)
  {
    if entries != [] {
      var first, rest := SubDir(rules, path, comps, entries[0]), SubDirs(rules, path, comps, entries[1..]);
      SubDirsAreSmaller(rules, path, comps, entries[1..]);
      StackSizeJoins(first, rest);
      OneSize(first, entries[0].node);
    }
  }

  lemma OneSize(pending: seq<Pending>, node: Node)
    requires |pending| <= 1 && (pending != [] ==> pending[0].node == node)
    ensures StackSize(pending) <= 1 + EntryTotal(node)
  {
    if pending != [] {
      assert pending[..0] == [];
    }
  }

  /** The stack once the directory on top has been listed. */
  function NextStack(rules: Rules, pending: seq<Pending>): (next: seq<Pending>)
    requires pending != []
    ensures StackSize(next) < StackSize(pending)
  {
    var front, dir := pending[..|pending| - 1], pending[|pending| - 1];
    var inner := SubDirs(rules, dir.path, dir.comps, EntriesOf(dir.node));
    SubDirsAreSmaller(rules, dir.path, dir.comps, EntriesOf(dir.node));
    StackSizeJoins(front, inner);
    front + inner
  }

  /** And the bytes held then: its own path is given back, and what its listing adds is taken on. */
  function NextHeld(rules: Rules, pending: seq<Pending>, held: int): int
    requires pending != []
  {
    var dir := pending[|pending| - 1];
    held - |dir.path| + HeldBy(rules, dir.path, dir.comps, EntriesOf(dir.node))
  }

  function Max(a: int, b: int): int {
    if a < b then b else a
  }

  /**
   * The most bytes held from here on, directory after directory; within a listing they only
   * grow. Which directory comes next depends on the order the listings are read in.
   */
  function PeakFrom(rules: Rules, pending: seq<Pending>, held: int): (peak: int)
    ensures peak >= held
    decreases StackSize(pending)
  {
    if pending == [] then held
    else Max(held, PeakFrom(rules, NextStack(rules, pending), NextHeld(rules, pending, held)))
  }

  /** What is held once everything on the stack has been walked. */
  function LeftBy(rules: Rules, pending: seq<Pending>, held: int): int
    decreases StackSize(pending)
  {
    if pending == [] then held else LeftBy(rules, NextStack(rules, pending), NextHeld(rules, pending, held))
  }

  lemma NextOfJoined(rules: Rules, below: seq<Pending>, top: seq<Pending>, held: int)
    requires top != []
    ensures NextStack(rules, below + top) == below + NextStack(rules, top)
    ensures NextHeld(rules, below + top, held) == NextHeld(rules, top, held)
  {
    assert (below + top)[..|below + top| - 1] == below + top[..|top| - 1];
  }

  /** So a subtree's peak can be told apart: what lies below it on the stack only waits until it is done. */
  lemma {:induction false} PeakSplits(rules: Rules, below: seq<Pending>, top: seq<Pending>, held: int)
    ensures PeakFrom(rules, below + top, held) ==
      Max(PeakFrom(rules, top, held), PeakFrom(rules, below, LeftBy(rules, top, held)))
    decreases StackSize(top)
  {
    if top == [] {
      assert below + top == below;
    } else {
      NextOfJoined(rules, below, top, held);
      PeakSplits(rules, below, NextStack(rules, top), NextHeld(rules, top, held));
    }
  }

  /** The walk's peak over a whole tree; the root's own path is given back before any check. */
  function Peak(rules: Rules, root: Bytes, tree: Node): int {
    PeakFrom(rules, SubDirs(rules, root, [], EntriesOf(tree)), HeldBy(rules, root, [], EntriesOf(tree)))
  }

  /**
   * Within a listing, of which these directories and bytes are still to come: the peak is
   * within the limit just when what is held then leads to no more than the limit.
   */
  ghost predicate Fits(rules: Rules, limits: Limits, peak: int, w: Walk, dirs: seq<Pending>, held: nat) {
    && w.bytes <= limits.bytes
    && (peak <= limits.bytes <==> PeakFrom(rules, w.pending + dirs, w.bytes + held) <= limits.bytes)
  }

  /** The same between two listings, told for the directory that comes off the stack next. */
  ghost predicate FitsNext(rules: Rules, limits: Limits, peak: int, w: Walk) {
    if w.pending == [] then peak <= limits.bytes
    else
      && w.bytes >= |w.pending[|w.pending| - 1].path|
      && var dir := w.pending[|w.pending| - 1];
         Fits(rules, limits, peak, Popped(w), SubDirs(rules, dir.path, dir.comps, EntriesOf(dir.node)),
              HeldBy(rules, dir.path, dir.comps, EntriesOf(dir.node)))
  }

  /** What every refusal of the walk says about the tree, whose walk holds `peak` bytes at its fullest. */
  ghost predicate Explains(whole: Account, peak: int, limits: Limits, error: WalkError) {
    match error
    case TooManyEntries => whole.visited > limits.entries
    case TooManyPaths => |whole.files| > MAX_INDEXED_PATHS
    case TooManyBytes => peak > limits.bytes && whole.bytes > limits.bytes
    case _ => !whole.clean
  }

  /**
   * Between any two entries: what was found, what is `left` of the listing and what is on
   * the stack make up the whole tree, `bytes` is exactly the bytes of the paths held now,
   * and no limit is passed. `spent` adds up every byte ever held.
   */
  ghost predicate Accounts(rules: Rules, limits: Limits, whole: Account, w: Walk,
                           found: seq<seq<Bytes>>, spent: nat, left: Account)
  {
    && (var stacked := OfPending(rules, w.pending);
      && whole.files == multiset(found) + left.files + stacked.files
      && whole.visited == w.visited + left.visited + stacked.visited
      && whole.bytes == spent + left.bytes + stacked.bytes
      && whole.clean == (left.clean && stacked.clean))
    && w.bytes == PendingBytes(w.pending) + RetainedBytes(w.paths) <= spent
    && w.visited <= limits.entries
    && w.count == |w.paths| <= MAX_INDEXED_PATHS
    && RetainedBytes(w.paths) <= limits.bytes
    && ShowsAll(rules, w.paths, found)
  }

  /** Bounds the directories still to be listed. */
  ghost function ToList(rules: Rules, w: Walk): nat {
    OfPending(rules, w.pending).visited + |w.pending|
  }

  function Skipped(w: Walk): Walk {
    w.(visited := w.visited + 1)
  }

  /** An entry that only counts. */
  lemma SkipKeeps(rules: Rules, limits: Limits, whole: Account, w: Walk, found: seq<seq<Bytes>>,
                  spent: nat, entry: Account, left: Account)
    requires Accounts(rules, limits, whole, w, found, spent, Plus(entry, left))
    requires entry == NOTHING.(visited := 1) && w.visited < limits.entries
    ensures Accounts(rules, limits, whole, Skipped(w), found, spent, left)
  {
  }

  function Pushed(w: Walk, next: Pending): Walk {
    w.(visited := w.visited + 1, bytes := w.bytes + |next.path|, pending := w.pending + [next])
  }

  /** A directory goes on the stack with the bytes of its path. */
  lemma PushKeeps(rules: Rules, limits: Limits, whole: Account, w: Walk, found: seq<seq<Bytes>>,
                  spent: nat, entry: Account, left: Account, next: Pending)
    requires Accounts(rules, limits, whole, w, found, spent, Plus(entry, left))
    requires entry == Plus(NOTHING.(visited := 1, bytes := |next.path|), OfNode(rules, next.path, next.comps, next.node))
    requires w.visited < limits.entries
    ensures Accounts(rules, limits, whole, Pushed(w, next), found, spent + |next.path|, left)
    ensures ToList(rules, Pushed(w, next)) == ToList(rules, w) + entry.visited
  {
    assert (w.pending + [next])[..|w.pending|] == w.pending;
  }

  function Retained(w: Walk, path: Bytes): Walk {
    w.(visited := w.visited + 1, bytes := w.bytes + |path|, count := w.count + 1, paths := w.paths + [path])
  }

  lemma OneMorePath(rules: Rules, paths: seq<Bytes>, found: seq<seq<Bytes>>, comps: seq<Bytes>, path: Bytes)
    requires ShowsAll(rules, paths, found) && comps != [] && path == Shown(rules, comps)
    ensures ShowsAll(rules, paths + [path], found + [comps])
    ensures RetainedBytes(paths + [path]) == RetainedBytes(paths) + |path|
    ensures multiset(found + [comps]) == multiset(found) + multiset{comps}
  {
    assert (paths + [path])[..|paths|] == paths;
  }

  /** A file's relative path is kept. */
  lemma RetainKeeps(rules: Rules, limits: Limits, whole: Account, w: Walk, found: seq<seq<Bytes>>,
                    spent: nat, entry: Account, left: Account, comps: seq<Bytes>, path: Bytes)
    requires comps != [] && path == Shown(rules, comps)
    requires Accounts(rules, limits, whole, w, found, spent, Plus(entry, left))
    requires entry == NOTHING.(visited := 1, bytes := |path|, files := multiset{comps})
    requires w.visited < limits.entries && w.count < MAX_INDEXED_PATHS
    requires w.bytes + |path| <= limits.bytes
    ensures Accounts(rules, limits, whole, Retained(w, path), found + [comps], spent + |path|, left)
  {
    OneMorePath(rules, w.paths, found, comps, path);
  }

  /** What a refusal at this entry says about the whole tree. */
  lemma RefusalExplained(rules: Rules, limits: Limits, whole: Account, w: Walk, found: seq<seq<Bytes>>,
                         spent: nat, entry: Account, left: Account)
    requires Accounts(rules, limits, whole, w, found, spent, Plus(entry, left))
    ensures whole.visited >= w.visited + entry.visited
    ensures whole.bytes >= w.bytes + entry.bytes
    ensures whole.clean ==> entry.clean && left.clean
    ensures |whole.files| >= w.count + |entry.files|
  {
    assert |multiset(found)| == |found|;
  }

  /** One entry's directories and bytes join what the walk holds. */
  ghost predicate Takes(limits: Limits, w: Walk, dirs: seq<Pending>, bytes: nat, v: Walk) {
    && v.pending == w.pending + dirs && v.bytes == w.bytes + bytes
    && (bytes > 0 ==> v.bytes <= limits.bytes)
  }

  lemma TakingFits(rules: Rules, limits: Limits, peak: int, w: Walk, first: seq<Pending>, bytes: nat,
                   dirs: seq<Pending>, held: nat, v: Walk)
    requires Fits(rules, limits, peak, w, first + dirs, bytes + held) && Takes(limits, w, first, bytes, v)
    ensures Fits(rules, limits, peak, v, dirs, held)
  {
    assert w.pending + (first + dirs) == v.pending + dirs;
  }

  lemma OverflowIsPeak(rules: Rules, limits: Limits, peak: int, w: Walk, dirs: seq<Pending>, bytes: nat, held: nat)
    requires Fits(rules, limits, peak, w, dirs, bytes + held) && w.bytes + bytes > limits.bytes
    ensures peak > limits.bytes
  {
  }

  /** What visiting one entry leads to, in the order its checks are made. */
  function Visited(rules: Rules, limits: Limits, dir: Pending, entry: Entry, w: Walk): Result<Walk, WalkError> {
    var inner := dir.comps + [entry.name];
    if w.visited + 1 > limits.entries then Failure(TooManyEntries)
    else if rules.Skips(entry.name) then Success(Skipped(w))
    else if entry.node.Opaque? then Failure(CannotInspect)
    else if IsDir(entry.node) then
      var next := Pending(Join(dir.path, entry.name), inner, entry.node);
      if w.bytes + |next.path| > limits.bytes then Failure(TooManyBytes) else Success(Pushed(w, next))
    else if w.count + 1 > MAX_INDEXED_PATHS then Failure(TooManyPaths)
    else if w.bytes + |Shown(rules, inner)| > limits.bytes then Failure(TooManyBytes)
    else Success(Retained(w, Shown(rules, inner)))
  }

  /** The files found once the entry is visited. */
  ghost function FoundWith(rules: Rules, dir: Pending, entry: Entry, found: seq<seq<Bytes>>): seq<seq<Bytes>> {
    if rules.Skips(entry.name) || IsDir(entry.node) then found else found + [dir.comps + [entry.name]]
  }

  lemma VisitTakes(rules: Rules, limits: Limits, dir: Pending, entry: Entry, w: Walk, r: Result<Walk, WalkError>)
    requires r == Visited(rules, limits, dir, entry, w)
    ensures r.Success? ==> Takes(limits, w, SubDir(rules, dir.path, dir.comps, entry), Held(rules, dir.path, dir.comps, entry), r.value)
    ensures r == Failure(TooManyBytes) ==> w.bytes + Held(rules, dir.path, dir.comps, entry) > limits.bytes
  {
    assert w.pending + [] == w.pending;
  }

  /** One entry keeps the account of what was found, what is stacked and what is left. */
  lemma VisitKeepsAccounts(rules: Rules, limits: Limits, dir: Pending, entry: Entry, w: Walk, r: Result<Walk, WalkError>,
                           whole: Account, found: seq<seq<Bytes>>, spent: nat, left: Account)
    requires Accounts(rules, limits, whole, w, found, spent, Plus(OfEntry(rules, dir.path, dir.comps, entry), left))
    requires r == Visited(rules, limits, dir, entry, w) && r.Success?
    ensures Accounts(rules, limits, whole, r.value, FoundWith(rules, dir, entry, found),
                     spent + Held(rules, dir.path, dir.comps, entry), left)
    ensures ToList(rules, r.value) <= ToList(rules, w) + OfEntry(rules, dir.path, dir.comps, entry).visited
  {
    var account, inner := OfEntry(rules, dir.path, dir.comps, entry), dir.comps + [entry.name];
    if rules.Skips(entry.name) {
      SkipKeeps(rules, limits, whole, w, found, spent, account, left);
    } else if IsDir(entry.node) {
      PushKeeps(rules, limits, whole, w, found, spent, account, left, Pending(Join(dir.path, entry.name), inner, entry.node));
    } else {
      RetainKeeps(rules, limits, whole, w, found, spent, account, left, inner, Shown(rules, inner));
    }
  }

  /** A refusal at an entry has a reason that is true of the whole tree. */
  lemma VisitRefusesRightly(rules: Rules, limits: Limits, dir: Pending, entry: Entry, w: Walk, r: Result<Walk, WalkError>,
                            whole: Account, found: seq<seq<Bytes>>, spent: nat, left: Account)
    requires Accounts(rules, limits, whole, w, found, spent, Plus(OfEntry(rules, dir.path, dir.comps, entry), left))
    requires r == Visited(rules, limits, dir, entry, w) && r.Failure?
    ensures Explains(whole, w.bytes + Held(rules, dir.path, dir.comps, entry), limits, r.error)
  {
    RefusalExplained(rules, limits, whole, w, found, spent, OfEntry(rules, dir.path, dir.comps, entry), left);
  }

  /** The body of the inner loop: one entry of the directory being listed. */
  method VisitEntry(rules: Rules, limits: Limits, dir: Pending, entry: Entry, w: Walk) returns (r: Result<Walk, WalkError>)
    ensures r == Visited(rules, limits, dir, entry, w)
  {
    var visited := w.visited + 1;
    if visited > limits.entries {
      return Failure(TooManyEntries);
    }
    if rules.Skips(entry.name) {
      return Success(Walk(w.pending, w.paths, w.count, visited, w.bytes));
    }
    if entry.node.Opaque? {
      return Failure(CannotInspect);
    }
    var inner := dir.comps + [entry.name];
    if IsDir(entry.node) {
      var path := Join(dir.path, entry.name);
      var bytes := w.bytes + |path|;
      if bytes > limits.bytes {
        return Failure(TooManyBytes);
      }
      return Success(Walk(w.pending + [Pending(path, inner, entry.node)], w.paths, w.count, visited, bytes));
    }
    var count := w.count + 1;
    if count > MAX_INDEXED_PATHS {
      return Failure(TooManyPaths);
    }
    var relative := Shown(rules, inner);
    var bytes := w.bytes + |relative|;
    if bytes > limits.bytes {
      return Failure(TooManyBytes);
    }
    return Success(Walk(w.pending, w.paths + [relative], count, visited, bytes));
  }

  /** The directory taken off the stack, before any of its entries is read. */
  function Popped(w: Walk): Walk
    requires w.pending != [] && w.bytes >= |w.pending[|w.pending| - 1].path|
  {
    var n := |w.pending| - 1;
    w.(pending := w.pending[..n], bytes := w.bytes - |w.pending[n].path|)
  }

  lemma PopKeeps(rules: Rules, limits: Limits, whole: Account, w: Walk, found: seq<seq<Bytes>>, spent: nat)
    requires Accounts(rules, limits, whole, w, found, spent, NOTHING) && w.pending != []
    ensures w.bytes >= |w.pending[|w.pending| - 1].path|
    ensures var dir := w.pending[|w.pending| - 1];
      && Accounts(rules, limits, whole, Popped(w), found, spent, OfNode(rules, dir.path, dir.comps, dir.node))
      && ToList(rules, w) == ToList(rules, Popped(w)) + OfNode(rules, dir.path, dir.comps, dir.node).visited + 1
  {
  }

  lemma NextEntry(rules: Rules, dir: Pending, i: nat, last: Account)
    requires dir.node.Dir? && i < |dir.node.entries|
    ensures var entries := dir.node.entries;
      Plus(OfEntries(rules, dir.path, dir.comps, entries[i..]), last) ==
      Plus(OfEntry(rules, dir.path, dir.comps, entries[i]),
           Plus(OfEntries(rules, dir.path, dir.comps, entries[i + 1..]), last))
  {
    var entries := dir.node.entries;
    assert entries[i..] == [entries[i]] + entries[i + 1..];
  }

  /** One more entry is about to be read. */
  lemma EntryNext(rules: Rules, limits: Limits, whole: Account, w: Walk, found: seq<seq<Bytes>>, spent: nat,
                  dir: Pending, i: nat, last: Account)
    requires dir.node.Dir? && i < |dir.node.entries|
    requires Accounts(rules, limits, whole, w, found, spent,
                      Plus(OfEntries(rules, dir.path, dir.comps, dir.node.entries[i..]), last))
    ensures Accounts(rules, limits, whole, w, found, spent,
                     Plus(OfEntry(rules, dir.path, dir.comps, dir.node.entries[i]),
                          Plus(OfEntries(rules, dir.path, dir.comps, dir.node.entries[i + 1..]), last)))
    ensures OfEntries(rules, dir.path, dir.comps, dir.node.entries[i..]).visited
         == OfEntry(rules, dir.path, dir.comps, dir.node.entries[i]).visited
          + OfEntries(rules, dir.path, dir.comps, dir.node.entries[i + 1..]).visited
  {
    NextEntry(rules, dir, i, last);
    var entries := dir.node.entries;
    assert entries[i..] == [entries[i]] + entries[i + 1..];
  }

  /** What the directory still owes from entry `i` on. */
  ghost function Ending(rules: Rules, dir: Pending, i: nat): Account
    requires dir.node.Dir? && i <= |dir.node.entries|
  {
    Plus(OfEntries(rules, dir.path, dir.comps, dir.node.entries[i..]), NOTHING.(clean := !dir.node.broken))
  }

  lemma EndingOwesNothing(rules: Rules, dir: Pending)
    requires dir.node.Dir?
    ensures Ending(rules, dir, |dir.node.entries|) == NOTHING.(clean := !dir.node.broken)
  {
    var entries := dir.node.entries;
    assert entries[|entries|..] == [];
  }

  ghost predicate FitsListing(rules: Rules, limits: Limits, peak: int, w: Walk, dir: Pending, entries: seq<Entry>) {
    Fits(rules, limits, peak, w, SubDirs(rules, dir.path, dir.comps, entries), HeldBy(rules, dir.path, dir.comps, entries))
  }

  lemma ListingFits(rules: Rules, limits: Limits, peak: int, w: Walk, dir: Pending, entries: seq<Entry>, v: Walk)
    requires entries != [] && FitsListing(rules, limits, peak, w, dir, entries)
    requires Takes(limits, w, SubDir(rules, dir.path, dir.comps, entries[0]), Held(rules, dir.path, dir.comps, entries[0]), v)
    ensures FitsListing(rules, limits, peak, v, dir, entries[1..])
  {
    TakingFits(rules, limits, peak, w, SubDir(rules, dir.path, dir.comps, entries[0]), Held(rules, dir.path, dir.comps, entries[0]),
               SubDirs(rules, dir.path, dir.comps, entries[1..]), HeldBy(rules, dir.path, dir.comps, entries[1..]), v);
  }

  lemma RefusalFits(rules: Rules, limits: Limits, whole: Account, peak: int, w: Walk, dir: Pending, entries: seq<Entry>,
                    error: WalkError)
    requires entries != [] && FitsListing(rules, limits, peak, w, dir, entries)
    requires Explains(whole, w.bytes + Held(rules, dir.path, dir.comps, entries[0]), limits, error)
    ensures Explains(whole, peak, limits, error)
  {
    var bytes := Held(rules, dir.path, dir.comps, entries[0]);
    if w.bytes + bytes > limits.bytes {
      OverflowIsPeak(rules, limits, peak, w, SubDirs(rules, dir.path, dir.comps, entries), bytes,
                     HeldBy(rules, dir.path, dir.comps, entries[1..]));
    }
  }

  /** Before entry `i` of a directory is read. */
  ghost predicate Listing(rules: Rules, limits: Limits, whole: Account, peak: int, w: Walk, found: seq<seq<Bytes>>,
                          spent: nat, dir: Pending, i: nat)
    requires dir.node.Dir? && i <= |dir.node.entries|
  {
    && Accounts(rules, limits, whole, w, found, spent, Ending(rules, dir, i))
    && FitsListing(rules, limits, peak, w, dir, dir.node.entries[i..])
  }

  lemma ListingGoesOn(rules: Rules, limits: Limits, whole: Account, peak: int, w: Walk, found: seq<seq<Bytes>>, spent: nat,
                      dir: Pending, i: nat, entry: Entry, r: Result<Walk, WalkError>)
    requires dir.node.Dir? && i < |dir.node.entries| && entry == dir.node.entries[i]
    requires Listing(rules, limits, whole, peak, w, found, spent, dir, i)
    requires r == Visited(rules, limits, dir, entry, w) && r.Success?
    ensures Listing(rules, limits, whole, peak, r.value, FoundWith(rules, dir, entry, found),
                    spent + Held(rules, dir.path, dir.comps, entry), dir, i + 1)
    ensures ToList(rules, r.value) + Ending(rules, dir, i + 1).visited <= ToList(rules, w) + Ending(rules, dir, i).visited
  {
    EntryNext(rules, limits, whole, w, found, spent, dir, i, NOTHING.(clean := !dir.node.broken));
    VisitKeepsAccounts(rules, limits, dir, entry, w, r, whole, found, spent, Ending(rules, dir, i + 1));
    VisitTakes(rules, limits, dir, entry, w, r);
    ListingFits(rules, limits, peak, w, dir, dir.node.entries[i..], r.value);
    assert dir.node.entries[i..][1..] == dir.node.entries[i + 1..];
  }

  lemma ListingRefuses(rules: Rules, limits: Limits, whole: Account, peak: int, w: Walk, found: seq<seq<Bytes>>, spent: nat,
                       dir: Pending, i: nat, entry: Entry, r: Result<Walk, WalkError>)
    requires dir.node.Dir? && i < |dir.node.entries| && entry == dir.node.entries[i]
    requires Listing(rules, limits, whole, peak, w, found, spent, dir, i)
    requires r == Visited(rules, limits, dir, entry, w) && r.Failure?
    ensures Explains(whole, peak, limits, r.error)
  {
    EntryNext(rules, limits, whole, w, found, spent, dir, i, NOTHING.(clean := !dir.node.broken));
    VisitRefusesRightly(rules, limits, dir, entry, w, r, whole, found, spent, Ending(rules, dir, i + 1));
    RefusalFits(rules, limits, whole, peak, w, dir, dir.node.entries[i..], r.error);
  }

  lemma ListingStarts(rules: Rules, limits: Limits, whole: Account, peak: int, w: Walk, found: seq<seq<Bytes>>, spent: nat,
                      dir: Pending)
    requires dir.node.Dir?
    requires Accounts(rules, limits, whole, w, found, spent, OfNode(rules, dir.path, dir.comps, dir.node))
    requires FitsListing(rules, limits, peak, w, dir, EntriesOf(dir.node))
    ensures Listing(rules, limits, whole, peak, w, found, spent, dir, 0)
    ensures Ending(rules, dir, 0) == OfNode(rules, dir.path, dir.comps, dir.node)
  {
    assert dir.node.entries[0..] == dir.node.entries;
  }

  /** The listing is over; a listing that breaks off is not clean. */
  lemma ListingEnds(rules: Rules, limits: Limits, whole: Account, peak: int, w: Walk, found: seq<seq<Bytes>>, spent: nat,
                    dir: Pending)
    requires dir.node.Dir? && Listing(rules, limits, whole, peak, w, found, spent, dir, |dir.node.entries|)
    ensures Fits(rules, limits, peak, w, [], 0)
    ensures if dir.node.broken then !whole.clean else Accounts(rules, limits, whole, w, found, spent, NOTHING)
  {
    assert dir.node.entries[|dir.node.entries|..] == [];
    EndingOwesNothing(rules, dir);
  }

  /** The inner loop: the entries of one directory, in the order they are read. */
  method ListDirectory(rules: Rules, limits: Limits, dir: Pending, start: Walk,
                       ghost whole: Account, ghost peak: int, ghost found: seq<seq<Bytes>>, ghost spent: nat)
    returns (r: Result<Walk, WalkError>, ghost found': seq<seq<Bytes>>, ghost spent': nat)
    requires Accounts(rules, limits, whole, start, found, spent, OfNode(rules, dir.path, dir.comps, dir.node))
    requires FitsListing(rules, limits, peak, start, dir, EntriesOf(dir.node))
    ensures r.Success? ==> Accounts(rules, limits, whole, r.value, found', spent', NOTHING) && Fits(rules, limits, peak, r.value, [], 0)
    ensures r.Success? ==> ToList(rules, r.value) <= ToList(rules, start) + OfNode(rules, dir.path, dir.comps, dir.node).visited
    ensures r.Failure? ==> Explains(whole, peak, limits, r.error)
  {
    found', spent' := found, spent;
    if !dir.node.Dir? {
      return Failure(CannotWalk), found', spent';
    }
    var w := start;
    ListingStarts(rules, limits, whole, peak, w, found, spent, dir);
    for i := 0 to |dir.node.entries|
      invariant Listing(rules, limits, whole, peak, w, found', spent', dir, i)
      invariant ToList(rules, w) + Ending(rules, dir, i).visited <= ToList(rules, start) + Ending(rules, dir, 0).visited
    {
      var entry := dir.node.entries[i];
      r := VisitEntry(rules, limits, dir, entry, w);
      if r.Failure? {
        ListingRefuses(rules, limits, whole, peak, w, found', spent', dir, i, entry, r);
        return;
      }
      ListingGoesOn(rules, limits, whole, peak, w, found', spent', dir, i, entry, r);
      w := r.value;
      found', spent' := FoundWith(rules, dir, entry, found'), spent' + Held(rules, dir.path, dir.comps, entry);
    }
    ListingEnds(rules, limits, whole, peak, w, found', spent', dir);
    if dir.node.broken {
      return Failure(CannotRead), found', spent';
    }
    r := Success(w);
  }

  /** The tree at `root`, with the root's own path. */
  ghost function Whole(rules: Rules, root: Bytes, tree: Node): Account {
    Plus(OfNode(rules, root, [], tree), NOTHING.(bytes := |root|))
  }

  /** The paths retained are those of the files counted, one for one. */
  ghost predicate Retains(rules: Rules, whole: Account, paths: seq<Bytes>, found: seq<seq<Bytes>>) {
    ShowsAll(rules, paths, found) && multiset(found) == whole.files
  }

  /** What the walk promises of the tree it was given. */
  ghost predicate Walked(rules: Rules, limits: Limits, whole: Account, peak: int, r: Result<(seq<Bytes>, nat), WalkError>) {
    match r
    case Success((paths, count)) =>
      && whole.clean
      && whole.visited <= limits.entries
      && count == |paths| == |whole.files| <= MAX_INDEXED_PATHS
      && RetainedBytes(paths) <= limits.bytes && peak <= limits.bytes
      && exists found :: Retains(rules, whole, paths, found)
    case Failure(error) => Explains(whole, peak, limits, error)
  }

  lemma PlusNothing(a: Account)
    ensures Plus(a, NOTHING) == a
  {
    assert a.files + multiset{} == a.files;
  }

  lemma LastOnTheStack(rules: Rules, pending: seq<Pending>, rest: seq<Pending>, dir: Pending, account: Account, below: Account)
    requires pending != [] && dir == pending[|pending| - 1] && rest == pending[..|pending| - 1]
    requires account == OfNode(rules, dir.path, dir.comps, dir.node) && below == OfPending(rules, rest)
    requires rest == [] && Plus(account, NOTHING) == account
    ensures OfPending(rules, pending) == account
  {
    assert below == NOTHING;
  }

  lemma LastPendingBytes(pending: seq<Pending>, rest: seq<Pending>, dir: Pending)
    requires pending != [] && dir == pending[|pending| - 1] && rest == pending[..|pending| - 1] && rest == []
    ensures PendingBytes(pending) == |dir.path|
  {
  }

  lemma OneOnTheStack(rules: Rules, pending: seq<Pending>, dir: Pending, account: Account)
    requires |pending| == 1 && pending[0] == dir && account == OfNode(rules, dir.path, dir.comps, dir.node)
    ensures OfPending(rules, pending) == account && PendingBytes(pending) == |dir.path|
  {
    var rest := pending[..|pending| - 1];
    PlusNothing(account);
    LastOnTheStack(rules, pending, rest, dir, account, OfPending(rules, rest));
    LastPendingBytes(pending, rest, dir);
  }

  lemma WalkStarts(rules: Rules, limits: Limits, whole: Account, w: Walk, dir: Pending, account: Account)
    requires account == OfNode(rules, dir.path, dir.comps, dir.node)
    requires whole == Plus(account, NOTHING.(bytes := |dir.path|))
    requires w == Walk([dir], [], 0, 0, |dir.path|)
    ensures Accounts(rules, limits, whole, w, [], |dir.path|, NOTHING)
  {
    OneOnTheStack(rules, w.pending, dir, account);
    assert RetainedBytes(w.paths) == 0;
  }

  lemma WalkEnds(rules: Rules, limits: Limits, whole: Account, peak: int, w: Walk, found: seq<seq<Bytes>>, spent: nat)
    requires Accounts(rules, limits, whole, w, found, spent, NOTHING) && w.pending == [] && peak <= limits.bytes
    ensures Walked(rules, limits, whole, peak, Success((w.paths, w.count)))
  {
    assert multiset(found) == whole.files;
    assert |multiset(found)| == |found|;
    assert Retains(rules, whole, w.paths, found);
  }

  function Started(root: Bytes, tree: Node): Walk {
    Walk([Pending(root, [], tree)], [], 0, 0, |root|)
  }

  lemma StartFits(rules: Rules, limits: Limits, root: Bytes, tree: Node, w: Walk)
    requires w == Started(root, tree)
    ensures FitsNext(rules, limits, Peak(rules, root, tree), w)
  {
    var inner, added := SubDirs(rules, root, [], EntriesOf(tree)), HeldBy(rules, root, [], EntriesOf(tree));
    var v := Popped(w);
    assert v.pending + inner == inner;
    FitsAs(rules, limits, Peak(rules, root, tree), v, inner, added, inner, added);
  }

  lemma PeakUnfolds(rules: Rules, pending: seq<Pending>, held: int, limit: int, next: seq<Pending>, nextHeld: int)
    requires pending != [] && held <= limit
    requires next == NextStack(rules, pending) && nextHeld == NextHeld(rules, pending, held)
    ensures PeakFrom(rules, pending, held) <= limit <==> PeakFrom(rules, next, nextHeld) <= limit
  {
  }

  lemma PoppedNext(rules: Rules, w: Walk, dir: Pending, inner: seq<Pending>, added: nat)
    requires w.pending != [] && dir == w.pending[|w.pending| - 1] && w.bytes >= |dir.path|
    requires inner == SubDirs(rules, dir.path, dir.comps, EntriesOf(dir.node))
    requires added == HeldBy(rules, dir.path, dir.comps, EntriesOf(dir.node))
    ensures Popped(w).pending + inner == NextStack(rules, w.pending)
    ensures Popped(w).bytes + added == NextHeld(rules, w.pending, w.bytes)
  {
  }

  lemma FitsAs(rules: Rules, limits: Limits, peak: int, v: Walk, dirs: seq<Pending>, held: nat, next: seq<Pending>, nextHeld: int)
    requires next == v.pending + dirs && nextHeld == v.bytes + held && v.bytes <= limits.bytes
    requires peak <= limits.bytes <==> PeakFrom(rules, next, nextHeld) <= limits.bytes
    ensures Fits(rules, limits, peak, v, dirs, held)
  {
  }

  /** Between two listings, what fitted the last one fits the next one. */
  lemma ListedFits(rules: Rules, limits: Limits, peak: int, w: Walk)
    requires Fits(rules, limits, peak, w, [], 0)
    requires w.pending != [] ==> w.bytes >= |w.pending[|w.pending| - 1].path|
    ensures FitsNext(rules, limits, peak, w)
  {
    assert w.pending + [] == w.pending;
    if w.pending != [] {
      var dir := w.pending[|w.pending| - 1];
      var inner := SubDirs(rules, dir.path, dir.comps, EntriesOf(dir.node));
      var added := HeldBy(rules, dir.path, dir.comps, EntriesOf(dir.node));
      var next, nextHeld := NextStack(rules, w.pending), NextHeld(rules, w.pending, w.bytes);
      PoppedNext(rules, w, dir, inner, added);
      PeakUnfolds(rules, w.pending, w.bytes, limits.bytes, next, nextHeld);
      FitsAs(rules, limits, peak, Popped(w), inner, added, next, nextHeld);
    }
  }

  lemma TopIsHeld(rules: Rules, limits: Limits, whole: Account, w: Walk, found: seq<seq<Bytes>>, spent: nat)
    requires Accounts(rules, limits, whole, w, found, spent, NOTHING) && w.pending != []
    ensures w.bytes >= |w.pending[|w.pending| - 1].path|
  {
  }

  /**
   * A walk that succeeds found exactly the files the recursion finds, each as often; one
   * that refuses has a reason that is true of the tree. `bytes`, a natural number, is only
   * ever lowered by what it holds.
   */
  method CollectWalkPaths(rules: Rules, root: Bytes, tree: Node, limits: Limits)
    returns (r: Result<(seq<Bytes>, nat), WalkError>)
    ensures Walked(rules, limits, Whole(rules, root, tree), Peak(rules, root, tree), r)
  {
    ghost var whole, peak := Whole(rules, root, tree), Peak(rules, root, tree);
    var w := Started(root, tree);
    WalkStarts(rules, limits, whole, w, Pending(root, [], tree), OfNode(rules, root, [], tree));
    StartFits(rules, limits, root, tree, w);
    ghost var found: seq<seq<Bytes>> := [];
    ghost var spent: nat := |root|;
    while w.pending != []
      invariant Accounts(rules, limits, whole, w, found, spent, NOTHING)
      invariant FitsNext(rules, limits, peak, w)
      decreases ToList(rules, w)
    {
      PopKeeps(rules, limits, whole, w, found, spent);
      var dir := w.pending[|w.pending| - 1];
      var listed;
      listed, found, spent := ListDirectory(rules, limits, dir, Popped(w), whole, peak, found, spent);
      if listed.Failure? {
        return Failure(listed.error);
      }
      w := listed.value;
      if w.pending != [] {
        TopIsHeld(rules, limits, whole, w, found, spent);
      }
      ListedFits(rules, limits, peak, w);
    }
    WalkEnds(rules, limits, whole, peak, w, found, spent);
    return Success((w.paths, w.count));
  }

  /** A tree is indexed exactly when it can be read and fits every limit, its bytes at the fullest moment. */
  lemma IndexedIffItFits(rules: Rules, limits: Limits, whole: Account, peak: int, r: Result<(seq<Bytes>, nat), WalkError>)
    requires Walked(rules, limits, whole, peak, r)
    ensures r.Success? <==>
      whole.clean && whole.visited <= limits.entries && |whole.files| <= 100_000 && peak <= limits.bytes
  {
  }

  /** In particular when all its paths together stay within the limit, in whatever order it is read. */
  lemma FittingTreeIsIndexed(rules: Rules, limits: Limits, whole: Account, peak: int, r: Result<(seq<Bytes>, nat), WalkError>)
    requires Walked(rules, limits, whole, peak, r)
    requires whole.clean && whole.visited <= limits.entries
    requires |whole.files| <= 100_000 && whole.bytes <= limits.bytes
    ensures r.Success?
  {
  }

  // ---------- What the recursive form means ----------

  /** The components lead from a directory to a leaf without passing an ignored name. */
  ghost predicate IsFile(rules: Rules, node: Node, comps: seq<Bytes>)
    decreases comps
  {
    && node.Dir? && comps != []
    && exists i :: 0 <= i < |node.entries| && LeadsTo(rules, node.entries[i], comps)
  }

  ghost predicate LeadsTo(rules: Rules, entry: Entry, comps: seq<Bytes>)
    requires comps != []
    decreases comps, 0
  {
    && entry.name == comps[0] && !rules.Skips(entry.name)
    && if |comps| == 1 then entry.node.Leaf? else IsFile(rules, entry.node, comps[1..])
  }

  ghost predicate DistinctNames(node: Node)
    decreases node, 0
  {
    node.Dir? ==> DistinctIn(node.entries)
  }

  ghost predicate DistinctIn(entries: seq<Entry>)
    decreases entries
  {
    entries != [] ==>
      && DistinctNames(entries[0].node)
      && (forall j :: 1 <= j < |entries| ==> entries[j].name != entries[0].name)
      && DistinctIn(entries[1..])
  }

  /** How often `at + comps` is among the files below a directory at `at`. */
  lemma {:induction false} FilesBelowNode(rules: Rules, path: Bytes, at: seq<Bytes>, node: Node, c: seq<Bytes>)
    ensures c in OfNode(rules, path, at, node).files <==> at <= c && IsFile(rules, node, c[|at|..])
    ensures DistinctNames(node) ==> OfNode(rules, path, at, node).files[c] <= 1
    decreases node, 0
  {
    if node.Dir? {
      FilesBelowEntries(rules, path, at, node.entries, c);
    }
  }

  lemma {:induction false} FilesBelowEntries(rules: Rules, path: Bytes, at: seq<Bytes>, entries: seq<Entry>, c: seq<Bytes>)
    ensures c in OfEntries(rules, path, at, entries).files <==>
      at < c && exists i :: 0 <= i < |entries| && LeadsTo(rules, entries[i], c[|at|..])
    ensures DistinctIn(entries) ==> OfEntries(rules, path, at, entries).files[c] <= 1
    decreases entries, 1
  {
    if entries != [] {
      FilesBelowEntry(rules, path, at, entries[0], c);
      FilesBelowEntries(rules, path, at, entries[1..], c);
    }
  }

  lemma {:induction false} FilesBelowEntry(rules: Rules, path: Bytes, at: seq<Bytes>, entry: Entry, c: seq<Bytes>)
    ensures c in OfEntry(rules, path, at, entry).files <==> at < c && LeadsTo(rules, entry, c[|at|..])
    ensures DistinctNames(entry.node) ==> OfEntry(rules, path, at, entry).files[c] <= 1
    decreases entry
  {
    var inner := at + [entry.name];
    if at < c {
      var rest := c[|at|..];
      assert inner <= c <==> rest[0] == entry.name;
      assert rest[1..] == c[|inner|..];
      assert c == at + rest && (|rest| == 1 ==> rest == [rest[0]]);
    }
    if IsDir(entry.node) {
      FilesBelowNode(rules, Join(path, entry.name), inner, entry.node, c);
    }
  }

  // ---------- The order of a listing does not matter ----------

  lemma PlusSwaps(a: Account, b: Account, c: Account)
    ensures Plus(a, Plus(b, c)) == Plus(b, Plus(a, c))
  {
    assert a.files + (b.files + c.files) == b.files + (a.files + c.files);
  }

  lemma {:induction false} TakeOut(rules: Rules, path: Bytes, comps: seq<Bytes>, entries: seq<Entry>, j: nat)
    requires j < |entries|
    ensures OfEntries(rules, path, comps, entries) ==
      Plus(OfEntry(rules, path, comps, entries[j]), OfEntries(rules, path, comps, entries[..j] + entries[j + 1..]))
  {
    if j == 0 {
      assert entries[..0] + entries[1..] == entries[1..];
    } else {
      TakeOut(rules, path, comps, entries[1..], j - 1);
      var rest := entries[..j] + entries[j + 1..];
      assert rest == [entries[0]] + (entries[1..][..j - 1] + entries[1..][j..]);
      assert entries[1..][j - 1] == entries[j];
      PlusSwaps(OfEntry(rules, path, comps, entries[0]), OfEntry(rules, path, comps, entries[j]),
                OfEntries(rules, path, comps, rest[1..]));
    }
  }

  lemma WithoutOne<T>(s: seq<T>, j: nat)
    requires j < |s|
    ensures multiset(s[..j] + s[j + 1..]) == multiset(s) - multiset{s[j]}
  {
    assert s == s[..j] + [s[j]] + s[j + 1..];
  }

  lemma WithoutFirst<T>(s: seq<T>)
    requires s != []
    ensures multiset(s[1..]) == multiset(s) - multiset{s[0]}
  {
    assert s == [s[0]] + s[1..];
  }

  /** The first entry of one order, found and taken out of the other. */
  lemma FirstElsewhere(a: seq<Entry>, b: seq<Entry>, all: multiset<Entry>) returns (j: nat)
    requires all == multiset(a) == multiset(b) && a != []
    ensures j < |b| && b[j] == a[0] && multiset(a[1..]) == multiset(b[..j] + b[j + 1..])
  {
    assert a[0] in all;
    j :| 0 <= j < |b| && b[j] == a[0];
    WithoutFirst(a);
    WithoutOne(b, j);
  }

  /** A directory amounts to the same whatever order its entries are read in. */
  lemma {:induction false} ListingOrderIsIrrelevant(rules: Rules, path: Bytes, comps: seq<Bytes>, a: seq<Entry>, b: seq<Entry>)
    requires multiset(a) == multiset(b)
    ensures OfEntries(rules, path, comps, a) == OfEntries(rules, path, comps, b)
    decreases |a|
  {
    if a == [] {
      assert |multiset(b)| == 0;
    } else {
      var j := FirstElsewhere(a, b, multiset(a));
      ListingOrderIsIrrelevant(rules, path, comps, a[1..], b[..j] + b[j + 1..]);
      TakeOut(rules, path, comps, b, j);
    }
  }

  /** `b` is `a` with the listings of any of its directories, at any depth, read in another order. */
  ghost predicate Reordered(a: Node, b: Node)
    decreases a
  {
    if a.Dir? then
      && b.Dir? && a.broken == b.broken
      && exists middle :: Paired(a.entries, middle) && multiset(middle) == multiset(b.entries)
    else a == b
  }

  /** Entry by entry the same names, over reordered nodes. */
  ghost predicate Paired(a: seq<Entry>, b: seq<Entry>)
    decreases a
  {
    && |a| == |b|
    && (a != [] ==> a[0].name == b[0].name && Reordered(a[0].node, b[0].node) && Paired(a[1..], b[1..]))
  }

  lemma {:induction false} ReorderedNodesAgree(rules: Rules, path: Bytes, comps: seq<Bytes>, a: Node, b: Node)
    requires Reordered(a, b)
    ensures OfNode(rules, path, comps, a) == OfNode(rules, path, comps, b)
    decreases a
  {
    if a.Dir? {
      var middle :| Paired(a.entries, middle) && multiset(middle) == multiset(b.entries);
      PairedEntriesAgree(rules, path, comps, a.entries, middle);
      ListingOrderIsIrrelevant(rules, path, comps, middle, b.entries);
    }
  }

  lemma {:induction false} PairedEntriesAgree(rules: Rules, path: Bytes, comps: seq<Bytes>, a: seq<Entry>, b: seq<Entry>)
    requires Paired(a, b)
    ensures OfEntries(rules, path, comps, a) == OfEntries(rules, path, comps, b)
    decreases a
  {
    if a != [] {
      ReorderedNodesAgree(rules, Join(path, a[0].name), comps + [a[0].name], a[0].node, b[0].node);
      PairedEntriesAgree(rules, path, comps, a[1..], b[1..]);
    }
  }

  /** In whatever order the listings of a tree are read, at every depth, the same is found in it. */
  lemma ReadingOrderIsIrrelevant(rules: Rules, root: Bytes, a: Node, b: Node)
    requires Reordered(a, b)
    ensures Whole(rules, root, a) == Whole(rules, root, b)
  {
    ReorderedNodesAgree(rules, root, [], a, b);
  }

  lemma TwiceCountsTwice<T>(s: seq<T>, i: nat, j: nat)
    requires i < j < |s|
    ensures s[i] == s[j] ==> multiset(s)[s[i]] >= 2
  {
    assert s == s[..j] + [s[j]] + s[j + 1..];
    assert s[i] in s[..j];
  }

  /** Each file no ignored name leads to, exactly once, and nothing else. */
  ghost predicate FilesOnce(rules: Rules, tree: Node, found: seq<seq<Bytes>>) {
    && (forall c :: c in found <==> IsFile(rules, tree, c))
    && (forall i, j :: 0 <= i < j < |found| ==> found[i] != found[j])
  }

  lemma RetainedFilesOnce(rules: Rules, root: Bytes, tree: Node, whole: Account, paths: seq<Bytes>, found: seq<seq<Bytes>>)
    requires whole == Whole(rules, root, tree) && Retains(rules, whole, paths, found) && DistinctNames(tree)
    ensures FilesOnce(rules, tree, found)
  {
    forall c ensures c in found <==> IsFile(rules, tree, c) {
      FilesBelowNode(rules, root, [], tree, c);
      assert c[0..] == c;
      assert c in found <==> c in multiset(found);
    }
    forall i, j | 0 <= i < j < |found| ensures found[i] != found[j] {
      FilesBelowNode(rules, root, [], tree, found[i]);
      TwiceCountsTwice(found, i, j);
    }
  }

  /**
   * What a successful walk retains, for a tree whose directories have distinct names: the
   * shown paths of all the files no ignored name leads to, each exactly once, and no other.
   */
  lemma WalkFindsEachFileOnce(rules: Rules, limits: Limits, root: Bytes, tree: Node,
                              r: Result<(seq<Bytes>, nat), WalkError>)
    requires Walked(rules, limits, Whole(rules, root, tree), Peak(rules, root, tree), r) && r.Success?
    requires DistinctNames(tree)
    ensures exists found :: ShowsAll(rules, r.value.0, found) && FilesOnce(rules, tree, found)
  {
    var whole := Whole(rules, root, tree);
    var found :| Retains(rules, whole, r.value.0, found);
    RetainedFilesOnce(rules, root, tree, whole, r.value.0, found);
  }

  // ---------- Counting the entries under a directory ----------

  /** All entries below `node`, ignored names and all. */
  function EntryTotal(node: Node): nat
    decreases node, 0
  {
    if node.Dir? then EntriesTotal(node.entries) else 0
  }

  function EntriesTotal(entries: seq<Entry>): nat
    decreases entries, 1
  {
    if entries == [] then 0 else 1 + EntryTotal(entries[0].node) + EntriesTotal(entries[1..])
  }

  /** Every listing below `node` that opens also ends without an error. */
  predicate ListsThrough(node: Node)
    decreases node, 0
  {
    node.Dir? ==> !node.broken && AllListThrough(node.entries)
  }

  predicate AllListThrough(entries: seq<Entry>)
    decreases entries, 1
  {
    entries == [] || (ListsThrough(entries[0].node) && AllListThrough(entries[1..]))
  }

  function StackTotal(stack: seq<Node>): nat {
    if stack == [] then 0 else StackTotal(stack[..|stack| - 1]) + EntryTotal(stack[|stack| - 1])
  }

  predicate StackListsThrough(stack: seq<Node>) {
    stack == [] || (StackListsThrough(stack[..|stack| - 1]) && ListsThrough(stack[|stack| - 1]))
  }

  datatype EntryCount = EntryCount(count: nat, capped: bool, cap: nat)

  /** The directories among the entries, in the order they go on the stack. */
  function DirsAmong(entries: seq<Entry>): seq<Node> {
    if entries == [] then []
    else
      var last := entries[|entries| - 1].node;
      DirsAmong(entries[..|entries| - 1]) + if IsDir(last) then [last] else []
  }

  lemma {:induction false} DirsAmongTotal(stack: seq<Node>, entries: seq<Entry>)
    ensures StackTotal(stack + DirsAmong(entries)) + |entries| == StackTotal(stack) + EntriesTotal(entries)
    ensures |DirsAmong(entries)| <= |entries|
    ensures StackListsThrough(stack + DirsAmong(entries)) <==> StackListsThrough(stack) && AllListThrough(entries)
  {
    if entries == [] {
      assert stack + [] == stack;
    } else {
      var n := |entries| - 1;
      var node, front := entries[n].node, stack + DirsAmong(entries[..n]);
      DirsAmongTotal(stack, entries[..n]);
      EntriesTotalOfLast(entries, n);
      if IsDir(node) {
        assert stack + DirsAmong(entries) == front + [node];
        assert (front + [node])[..|front|] == front;
      } else {
        assert stack + DirsAmong(entries) == front;
      }
    }
  }

  lemma {:induction false} EntriesTotalOfLast(entries: seq<Entry>, n: nat)
    requires n == |entries| - 1
    ensures EntriesTotal(entries) == EntriesTotal(entries[..n]) + 1 + EntryTotal(entries[n].node)
    ensures AllListThrough(entries) <==> AllListThrough(entries[..n]) && ListsThrough(entries[n].node)
  {
    if n > 0 {
      EntriesTotalOfLast(entries[1..], n - 1);
      assert entries[1..][..n - 1] == entries[..n][1..];
    }
  }

  /**
   * The walk, listing after listing: what can be listed is counted first, so a listing that
   * passes the cap before it breaks off is no error.
   */
  function CountOutcome(stack: seq<Node>, count: nat, cap: nat): Result<EntryCount, WalkError>
    decreases StackTotal(stack) + |stack|
  {
    if stack == [] then Success(EntryCount(count, false, cap))
    else
      var rest, dir := stack[..|stack| - 1], stack[|stack| - 1];
      if !dir.Dir? then CountOutcome(rest, count, cap)
      else if count + |dir.entries| > cap then Success(EntryCount(cap, true, cap))
      else if dir.broken then Failure(CannotRead)
      else
        DirsAmongTotal(rest, dir.entries);
        CountOutcome(rest + DirsAmong(dir.entries), count + |dir.entries|, cap)
  }

  /** The end of one listing, reached within the cap. */
  lemma ListingCounted(stack: seq<Node>, rest: seq<Node>, dir: Node, count: nat, cap: nat)
    requires stack != [] && rest == stack[..|stack| - 1] && dir == stack[|stack| - 1] && dir.Dir?
    requires count + |dir.entries| <= cap
    ensures CountOutcome(stack, count, cap) ==
      if dir.broken then Failure(CannotRead) else CountOutcome(rest + DirsAmong(dir.entries), count + |dir.entries|, cap)
  {
  }

  ghost predicate CountsExactly(total: nat, listsThrough: bool, cap: nat, r: Result<EntryCount, WalkError>) {
    && (r.Success? && !r.value.capped ==> r.value == EntryCount(total, false, cap) && total <= cap && listsThrough)
    && (r.Success? && r.value.capped ==> r.value == EntryCount(cap, true, cap) && total > cap)
    && (r.Failure? ==> !listsThrough)
  }

  lemma {:induction false} OutcomeIsExact(stack: seq<Node>, count: nat, cap: nat)
    requires count <= cap
    ensures CountsExactly(count + StackTotal(stack), StackListsThrough(stack), cap, CountOutcome(stack, count, cap))
    decreases StackTotal(stack) + |stack|
  {
    if stack != [] {
      var rest, dir := stack[..|stack| - 1], stack[|stack| - 1];
      if !dir.Dir? {
        OutcomeIsExact(rest, count, cap);
      } else {
        DirsAmongTotal(rest, dir.entries);
        if count + |dir.entries| <= cap {
          ListingCounted(stack, rest, dir, count, cap);
          if !dir.broken {
            OutcomeIsExact(rest + DirsAmong(dir.entries), count + |dir.entries|, cap);
          }
        } else {
          TotalIsNoLess(dir.entries);
        }
      }
    }
  }

  lemma {:induction false} TotalIsNoLess(entries: seq<Entry>)
    ensures EntriesTotal(entries) >= |entries|
  {
    if entries != [] {
      TotalIsNoLess(entries[1..]);
    }
  }

  lemma OneToCount(tree: Node, stack: seq<Node>, cap: nat)
    requires |stack| == 1 && stack[0] == tree
    ensures CountsExactly(EntryTotal(tree), ListsThrough(tree), cap, CountOutcome(stack, 0, cap))
    ensures !IsDir(tree) ==> CountOutcome(stack, 0, cap) == Success(EntryCount(0, false, cap))
  {
    OutcomeIsExact(stack, 0, cap);
    var rest := stack[..|stack| - 1];
    assert rest == [] && StackTotal(rest) == 0 && StackListsThrough(rest);
    assert CountOutcome(rest, 0, cap) == Success(EntryCount(0, false, cap));
  }

  /**
   * The count is exact when it stays within the cap and says it is capped when it does not;
   * a listing that breaks off is an error unless the cap was passed first.
   */
  method CountEntriesUnder(tree: Node, cap: nat) returns (r: Result<EntryCount, WalkError>)
    ensures r.Success? && !r.value.capped ==>
      r.value == EntryCount(EntryTotal(tree), false, cap) && EntryTotal(tree) <= cap && ListsThrough(tree)
    ensures r.Success? && r.value.capped ==> r.value == EntryCount(cap, true, cap) && EntryTotal(tree) > cap
    ensures r.Failure? ==> !ListsThrough(tree)
    ensures r == CountOutcome([tree], 0, cap)
  {
    var count := 0;
    var stack := [tree];
    ghost var whole := stack;
    OneToCount(tree, whole, cap);
    if !IsDir(tree) {
      return Success(EntryCount(0, false, cap));
    }
    while stack != []
      invariant count <= cap && CountOutcome(stack, count, cap) == CountOutcome(whole, 0, cap)
      decreases StackTotal(stack) + |stack|
    {
      ghost var before, counted := stack, count;
      var dir := stack[|stack| - 1];
      stack := stack[..|stack| - 1];
      if !dir.Dir? {
        continue;
      }
      ghost var rest := stack;
      assert rest + [] == rest;
      for i := 0 to |dir.entries|
        invariant count == counted + i <= cap && stack == rest + DirsAmong(dir.entries[..i])
      {
        var entry := dir.entries[i];
        assert dir.entries[..i + 1][..i] == dir.entries[..i];
        count := count + 1;
        if count > cap {
          return Success(EntryCount(cap, true, cap));
        }
        if IsDir(entry.node) {
          stack := stack + [entry.node];
        }
      }
      assert dir.entries[..|dir.entries|] == dir.entries;
      ListingCounted(before, rest, dir, counted, cap);
      DirsAmongTotal(rest, dir.entries);
      if dir.broken {
        return Failure(CannotRead);
      }
    }
    return Success(EntryCount(count, false, cap));
  }
}
