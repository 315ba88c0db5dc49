/**
 * Coalescing of file system events (src-tauri/src/fs.rs, PendingChanges, the watcher
 * callback in fs_watch_dirs and publish_watch_batches): a bounded set of changed paths, a
 * one-slot wake-up channel, and a publisher with a debounce window.
 */
module WatchBatches {
  import opened Collections

  /** A path's bytes, whatever they encode. */
  type Path = seq<Byte>

  const WATCH_CHANGED_PATHS_MAX := 1024
  const WATCH_CHANGED_BYTES_MAX := 512 * 1024

  /** What the watcher reports: an error, or an event of some kind about some paths. */
  datatype Report =
    | WatchError
    | Event(access: bool, needsRescan: bool, paths: seq<Path>)

  datatype Changes = Changes(paths: set<Path>, bytes: nat, rescan: bool)
  {
    predicate Empty() {
      !rescan && paths == {}
    }
  }

  const NO_CHANGES := Changes({}, 0, false)
  const RESCAN := Changes({}, 0, true)

  ghost function TotalBytes(paths: set<Path>): nat {
    if paths == {} then 0 else
      var p :| p in paths;
      |p| + TotalBytes(paths - {p})
  }

  lemma {:induction false} TotalWithout(paths: set<Path>, p: Path)
    requires p in paths
    ensures TotalBytes(paths) == |p| + TotalBytes(paths - {p})
    decreases |paths|
  {
    var q :| q in paths && TotalBytes(paths) == |q| + TotalBytes(paths - {q});
    if q != p {
      TotalWithout(paths - {q}, p);
      TotalWithout(paths - {p}, q);
      assert paths - {q} - {p} == paths - {p} - {q};
    }
  }

  lemma TotalWith(paths: set<Path>, p: Path)
    requires p !in paths
    ensures TotalBytes(paths + {p}) == TotalBytes(paths) + |p|
  {
    TotalWithout(paths + {p}, p);
    assert paths + {p} - {p} == paths;
  }

  /** The bounds a pending set keeps; once it degrades to a rescan it holds nothing. */
  ghost predicate Bounded(c: Changes) {
    && |c.paths| <= WATCH_CHANGED_PATHS_MAX
    && c.bytes == TotalBytes(c.paths) <= WATCH_CHANGED_BYTES_MAX
    && (c.rescan ==> c.paths == {} && c.bytes == 0)
  }

  /** Whether the report is news at all: anything but an access. */
  predicate IsNews(report: Report) {
    report.Event? ==> !report.access
  }

  function Named(report: Report): set<Path>
    requires report.Event?
  {
    set p | p in report.paths
  }

  /** Why the paths of a report cannot just join the pending ones. */
  ghost predicate MustRescan(c: Changes, report: Report) {
    || c.rescan
    || report.WatchError?
    || report.needsRescan
    || report.paths == []
    || |c.paths + Named(report)| > WATCH_CHANGED_PATHS_MAX
    || TotalBytes(c.paths + Named(report)) > WATCH_CHANGED_BYTES_MAX
  }

  /** What one report makes of the pending changes: all of it joins, or none is kept. */
  ghost function Added(c: Changes, report: Report): Changes {
    if !IsNews(report) then c
    else if MustRescan(c, report) then RESCAN
    else Changes(c.paths + Named(report), TotalBytes(c.paths + Named(report)), false)
  }

  /** The set tells about everything the report does, or tells to look everywhere. */
  ghost predicate Covers(c: Changes, report: Report) {
    c.rescan || (report.Event? && !report.needsRescan && report.paths != [] && Named(report) <= c.paths)
  }

  /** An addition keeps the bounds, covers its report, and uncovers no earlier one. */
  lemma AddedCovers(c: Changes, report: Report)
    requires Bounded(c)
    ensures Bounded(Added(c, report))
    ensures IsNews(report) ==> Covers(Added(c, report), report)
    ensures forall earlier :: Covers(c, earlier) ==> Covers(Added(c, report), earlier)
  {
  }

  /** Whatever covers a report is something to publish. */
  lemma CoveringIsNotEmpty(c: Changes, report: Report)
    requires Covers(c, report)
    ensures !c.Empty()
  {
    if !c.rescan {
      assert report.paths[0] in Named(report);
    }
  }

  class PendingChanges {
    var paths: set<Path>
    var bytes: nat
    var rescan: bool

    function View(): Changes
      reads this
    {
      Changes(paths, bytes, rescan)
    }

    constructor ()
      ensures View() == NO_CHANGES
    {
      paths, bytes, rescan := {}, 0, false;
    }

    method Rescan()
      modifies this
      ensures View() == RESCAN
    {
      paths, bytes, rescan := {}, 0, true;
    }

    /** One turn of the loop; a path there is no room for degrades the set to a rescan. */
    method AddPath(path: Path) returns (fits: bool)
      requires !rescan && Bounded(View())
      modifies this
      ensures fits ==> !rescan && Bounded(View()) && paths == old(paths) + {path}
      ensures !fits ==> View() == RESCAN && OverBound(old(paths) + {path})
    {
      if path in paths {
        assert paths + {path} == paths;
        return true;
      }
      var room := if bytes <= WATCH_CHANGED_BYTES_MAX then WATCH_CHANGED_BYTES_MAX - bytes else 0;
      TotalWith(paths, path);
      if |paths| >= WATCH_CHANGED_PATHS_MAX || |path| > room {
        Rescan();
        return false;
      }
      bytes := bytes + |path|;
      paths := paths + {path};
      return true;
    }

    method Add(report: Report) returns (news: bool)
      requires Bounded(View())
      modifies this
      ensures View() == Added(old(View()), report)
      ensures news == IsNews(report)
      ensures report.Event? && report.access ==> !news && View() == old(View())
    {
      ghost var c := View();
      if report.WatchError? {
        Rescan();
        RescansAtOnce(c, report);
        return true;
      }
      if report.access {
        return false;
      }
      if report.needsRescan || report.paths == [] {
        Rescan();
      }
      if rescan {
        RescansAtOnce(c, report);
        return true;
      }
      var i := 0;
      while i < |report.paths|
        invariant i <= |report.paths|
        invariant !rescan && Bounded(View())
        invariant paths == c.paths + NamedBefore(report, i)
      {
        ghost var part := paths + {report.paths[i]};
        NamedNext(c, report, i, part);
        var fits := AddPath(report.paths[i]);
        if !fits {
          TooMuch(c, report, part);
          return true;
        }
        i := i + 1;
      }
      AllJoined(c, report, View());
      return true;
    }

    /** `std::mem::take` */
    method Take() returns (changes: Changes)
      modifies this
      ensures changes == old(View()) && View() == NO_CHANGES
    {
      changes := View();
      paths, bytes, rescan := {}, 0, false;
    }
  }

  lemma {:induction false} TotalIsMonotone(small: set<Path>, large: set<Path>)
    requires small <= large
    ensures |small| <= |large| && TotalBytes(small) <= TotalBytes(large)
    decreases |large - small|
  {
    if large - small != {} {
      var p :| p in large - small;
      TotalWith(small, p);
      assert large - (small + {p}) < large - small;
      TotalIsMonotone(small + {p}, large);
    } else {
      forall p | p in large ensures p in small {
        assert p !in large - small;
      }
      assert small == large;
    }
  }

  ghost predicate OverBound(paths: set<Path>) {
    |paths| > WATCH_CHANGED_PATHS_MAX || TotalBytes(paths) > WATCH_CHANGED_BYTES_MAX
  }

  /** Part of what is pending and reported is over a bound, so the whole is. */
  lemma RescansAtOnce(c: Changes, report: Report)
    requires IsNews(report) && (c.rescan || report.WatchError? || report.needsRescan || report.paths == [])
    ensures Added(c, report) == RESCAN
  {
  }

  lemma TooMuch(c: Changes, report: Report, part: set<Path>)
    requires report.Event? && !report.access && part <= c.paths + Named(report) && OverBound(part)
    ensures Added(c, report) == RESCAN
  {
    TotalIsMonotone(part, c.paths + Named(report));
  }

  /** The first `i` paths of a report. */
  ghost function NamedBefore(report: Report, i: nat): (named: set<Path>)
    requires report.Event? && i <= |report.paths|
    ensures i == 0 ==> named == {}
    ensures i == |report.paths| ==> named == Named(report)
  {
    assert report.paths[..|report.paths|] == report.paths;
    set p | p in report.paths[..i]
  }

  lemma NamedNext(c: Changes, report: Report, i: nat, part: set<Path>)
    requires report.Event? && i < |report.paths|
    requires part == c.paths + NamedBefore(report, i) + {report.paths[i]}
    ensures part == c.paths + NamedBefore(report, i + 1) <= c.paths + Named(report)
  {
    assert report.paths[..i + 1] == report.paths[..i] + [report.paths[i]];
  }

  /** All paths have joined, and they fit. */
  lemma AllJoined(c: Changes, report: Report, d: Changes)
    requires report.Event? && !report.access && !report.needsRescan && report.paths != []
    requires !c.rescan && !d.rescan && Bounded(d)
    requires d.paths == c.paths + NamedBefore(report, |report.paths|)
    ensures d == Added(c, report)
  {
  }

  // ---------- Producers, the channel and the publisher ----------

  /** Where the publishing thread is. */
  datatype Stage =
    | Idle     // blocked in recv
    | Window   // woken, draining tokens until the deadline
    | Taking   // the deadline has passed
    | Exited

  /** One published batch, and the reports that went into it. */
  datatype Batch = Batch(changes: Changes, reports: seq<Report>)

  /**
   * `sends` callbacks have added their report but not yet tried to send. `owed` are the
   * reports added since the last take, and `published` is all that was ever published;
   * both are the observer's.
   */
  datatype World = World(
    pending: Changes,
    token: bool,
    stage: Stage,
    sends: nat,
    alive: bool,
    owed: seq<Report>,
    published: seq<Batch>)

  const INITIAL := World(NO_CHANGES, false, Idle, 0, true, [], [])

  datatype Step =
    | Add(report: Report)
    | Send
    | Receive
    | Deadline
    | Publish
    | DropSender
    | Disconnect

  predicate Enabled(w: World, step: Step) {
    match step
    case Add(_) => w.alive
    case Send => w.sends > 0
    case Receive => w.token && (w.stage.Idle? || w.stage.Window?)
    case Deadline => w.stage.Window?
    case Publish => w.stage.Taking?
    case DropSender => w.alive && w.sends == 0
    case Disconnect => !w.alive && !w.token && (w.stage.Idle? || w.stage.Window?)
  }

  ghost function After(w: World, step: Step): World {
    match step
    case Add(report) =>
      var added := w.(pending := Added(w.pending, report));
      if IsNews(report) then added.(sends := w.sends + 1, owed := w.owed + [report]) else added
    case Send => if w.sends > 0 then w.(token := true, sends := w.sends - 1) else w
    case Receive => w.(token := false, stage := Window)
    case Deadline => w.(stage := Taking)
    case Publish =>
      w.(pending := NO_CHANGES, stage := Idle, owed := [],
         published := if w.pending.Empty() then w.published else w.published + [Batch(w.pending, w.owed)])
    case DropSender => w.(alive := false)
    case Disconnect => w.(stage := Exited)
  }

  /** An interleaving: each step is possible where it is taken. */
  ghost predicate Reaches(w: World, steps: seq<Step>, v: World)
    decreases |steps|
  {
    if steps == [] then w == v
    else Enabled(w, steps[0]) && Reaches(After(w, steps[0]), steps[1..], v)
  }

  ghost predicate Inv(w: World) {
    && Bounded(w.pending)
    && (forall k :: 0 <= k < |w.owed| ==> Covers(w.pending, w.owed[k]))
    && (forall k :: 0 <= k < |w.published| ==> Sufficient(w.published[k]))
    && (w.owed == [] ==> w.pending.Empty())
    && (w.alive ==> !w.stage.Exited?)
    && (w.sends > 0 ==> w.alive)
    && WillWake(w)
  }

  /** A published batch is within bounds and tells about every report that went into it. */
  ghost predicate Sufficient(b: Batch) {
    && Bounded(b.changes) && !b.changes.Empty()
    && forall k :: 0 <= k < |b.reports| ==> Covers(b.changes, b.reports[k])
  }

  /** No wake-up is lost: pending changes have a token, a window or a send under way. */
  ghost predicate WillWake(w: World) {
    w.alive && !w.pending.Empty() ==> w.token || w.stage.Window? || w.stage.Taking? || w.sends > 0
  }

  lemma StepKeepsInv(w: World, step: Step)
    requires Inv(w) && Enabled(w, step)
    ensures Inv(After(w, step))
  {
    match step
    case Add(report) =>
      AddedCovers(w.pending, report);
    case Publish =>
      if w.owed != [] {
        CoveringIsNotEmpty(w.pending, w.owed[0]);
      }
    case _ =>
  }

  lemma {:induction false} NoWakeUpIsLost(w: World, steps: seq<Step>, v: World)
    requires Inv(w) && Reaches(w, steps, v)
    ensures Inv(v)
    decreases |steps|
  {
    if steps != [] {
      StepKeepsInv(w, steps[0]);
      NoWakeUpIsLost(After(w, steps[0]), steps[1..], v);
    }
  }

  ghost function News(step: Step): seq<Report> {
    if step.Add? && IsNews(step.report) then [step.report] else []
  }

  /** Reports that were news, in the order they came. */
  ghost function NewsOf(steps: seq<Step>): seq<Report> {
    if steps == [] then [] else News(steps[0]) + NewsOf(steps[1..])
  }

  ghost function Told(batches: seq<Batch>): seq<Report> {
    if batches == [] then [] else Told(batches[..|batches| - 1]) + batches[|batches| - 1].reports
  }

  /** Everything published so far, and everything still owed. */
  ghost function Accounted(w: World): seq<Report> {
    Told(w.published) + w.owed
  }

  lemma StepAccounts(w: World, step: Step, u: World)
    requires Inv(w) && Enabled(w, step) && u == After(w, step)
    ensures Accounted(u) == Accounted(w) + News(step)
  {
    if step.Publish? {
      if w.pending.Empty() && w.owed != [] {
        CoveringIsNotEmpty(w.pending, w.owed[0]);
      }
      var b := Batch(w.pending, w.owed);
      assert (w.published + [b])[..|w.published|] == w.published;
    }
  }

  lemma Joined(a: seq<Report>, next: seq<Report>, rest: seq<Report>, b: seq<Report>, c: seq<Report>)
    requires b == a + next && c == b + rest
    ensures c == a + (next + rest)
  {
  }

  /** Every report is accounted for once and in order: in a published batch, or still owed. */
  lemma {:induction false} EveryReportIsAccountedFor(w: World, steps: seq<Step>, v: World)
    requires Inv(w) && Reaches(w, steps, v)
    ensures Accounted(v) == Accounted(w) + NewsOf(steps)
    decreases |steps|, 1
  {
    if steps == [] {
      assert Accounted(w) + [] == Accounted(w);
    } else {
      StepKeepsInv(w, steps[0]);
      StepThenRest(w, steps[0], steps[1..], After(w, steps[0]), v);
      assert NewsOf(steps) == News(steps[0]) + NewsOf(steps[1..]);
    }
  }

  lemma {:induction false} StepThenRest(w: World, step: Step, rest: seq<Step>, u: World, v: World)
    requires Inv(w) && Enabled(w, step) && u == After(w, step)
    requires Inv(u) && Reaches(u, rest, v)
    ensures Accounted(v) == Accounted(w) + (News(step) + NewsOf(rest))
    decreases |rest| + 1, 0
  {
    StepAccounts(w, step, u);
    EveryReportIsAccountedFor(u, rest, v);
    Joined(Accounted(w), News(step), NewsOf(rest), Accounted(u), Accounted(v));
  }

  /**
   * No change is lost: in every interleaving from the start, each news report is either in
   * a published batch that tells all its paths or to look everywhere, or is still covered
   * by what is pending, and then, while the sender lives, the publisher will be woken.
   */
  lemma NoChangeIsLost(steps: seq<Step>, v: World)
    requires Reaches(INITIAL, steps, v)
    ensures Told(v.published) + v.owed == NewsOf(steps)
    ensures forall k :: 0 <= k < |v.published| ==> Sufficient(v.published[k])
    ensures forall k :: 0 <= k < |v.owed| ==> Covers(v.pending, v.owed[k])
    ensures Bounded(v.pending)
    ensures v.alive && v.owed != [] ==> v.token || v.stage.Window? || v.stage.Taking? || v.sends > 0
  {
    assert Inv(INITIAL);
    NoWakeUpIsLost(INITIAL, steps, v);
    EveryReportIsAccountedFor(INITIAL, steps, v);
    if v.owed != [] {
      CoveringIsNotEmpty(v.pending, v.owed[0]);
    }
  }

  // ---------- Left alone, the threads publish everything ----------

  /** A step of a thread already under way: no new report, and the sender is not dropped. */
  predicate Quiet(step: Step) {
    step.Send? || step.Receive? || step.Deadline? || step.Publish?
  }

  /** Bounds the quiet steps still to come: a send may leave a token, a token may open a window. */
  function Work(w: World): nat {
    4 * w.sends + (if w.token then 3 else 0) + match w.stage case Idle => 0 case Taking => 1 case Window => 2 case Exited => 0
  }

  lemma QuietStepWorks(w: World, step: Step)
    requires Enabled(w, step) && Quiet(step)
    ensures Work(After(w, step)) < Work(w)
    ensures After(w, step).alive == w.alive && News(step) == []
  {
  }

  /** Quiet runs end, whatever order the threads are scheduled in. */
  lemma {:induction false} QuietRunsEnd(w: World, steps: seq<Step>, v: World)
    requires Reaches(w, steps, v) && forall k :: 0 <= k < |steps| ==> Quiet(steps[k])
    ensures |steps| + Work(v) <= Work(w)
    ensures v.alive == w.alive && NewsOf(steps) == []
    decreases |steps|
  {
    if steps != [] {
      QuietStepWorks(w, steps[0]);
      var u, rest := After(w, steps[0]), steps[1..];
      assert forall k :: 0 <= k < |rest| ==> rest[k] == steps[k + 1];
      QuietRunsEnd(u, rest, v);
    }
  }

  /** While something is owed and the sender lives, some quiet step can be taken. */
  lemma OwedMeansWork(w: World)
    requires Inv(w) && w.alive && w.owed != []
    ensures exists step :: Quiet(step) && Enabled(w, step)
  {
    CoveringIsNotEmpty(w.pending, w.owed[0]);
    assert Quiet(Send) && Quiet(Receive) && Quiet(Deadline) && Quiet(Publish);
    if w.sends > 0 {
      assert Enabled(w, Send);
    } else if w.stage.Taking? {
      assert Enabled(w, Publish);
    } else if w.stage.Window? {
      assert Enabled(w, Deadline);
    } else {
      assert Enabled(w, Receive);
    }
  }

  /** What is owed goes out whole: `v` has published nothing more than `w`, or all of it in one batch. */
  ghost predicate PublishedWhole(w: World, v: World) {
    if v.owed == [] then
      v.pending == NO_CHANGES && v.published == if w.owed == [] then w.published else w.published + [Batch(w.pending, w.owed)]
    else v.owed == w.owed && v.pending == w.pending && v.published == w.published
  }

  lemma QuietStepPublishesWhole(w: World, u: World, step: Step, v: World)
    requires Inv(u) && PublishedWhole(w, u) && Quiet(step) && Enabled(u, step) && v == After(u, step)
    ensures PublishedWhole(w, v)
  {
    if u.owed != [] {
      CoveringIsNotEmpty(u.pending, u.owed[0]);
    }
  }

  lemma {:induction false} QuietRunPublishesWhole(w: World, u: World, steps: seq<Step>, v: World)
    requires Inv(u) && PublishedWhole(w, u)
    requires Reaches(u, steps, v) && forall k :: 0 <= k < |steps| ==> Quiet(steps[k])
    ensures PublishedWhole(w, v)
    decreases |steps|
  {
    if steps != [] {
      var next, rest := After(u, steps[0]), steps[1..];
      StepKeepsInv(u, steps[0]);
      QuietStepPublishesWhole(w, u, steps[0], next);
      assert forall k :: 0 <= k < |rest| ==> rest[k] == steps[k + 1];
      QuietRunPublishesWhole(w, next, rest, v);
    }
  }

  /**
   * From every reachable state with something owed, every schedule of the threads already
   * under way ends, and when none of them can go on exactly one batch has been published,
   * with everything owed in it, as long as the sender lives and nothing new is reported.
   */
  lemma OwedReportsGetPublished(w: World, steps: seq<Step>, v: World)
    requires Inv(w) && w.alive && w.owed != []
    requires Reaches(w, steps, v) && forall k :: 0 <= k < |steps| ==> Quiet(steps[k])
    ensures |steps| <= Work(w)
    ensures (forall step :: Quiet(step) ==> !Enabled(v, step)) ==>
      v.owed == [] && v.published == w.published + [Batch(w.pending, w.owed)]
  {
    QuietRunsEnd(w, steps, v);
    NoWakeUpIsLost(w, steps, v);
    QuietRunPublishesWhole(w, w, steps, v);
    if v.owed != [] {
      OwedMeansWork(v);
    }
  }

  // ---------- What exactly a batch tells ----------

  /** An access to a path is no news and leaves what is pending as it is. */
  lemma AccessChangesNothing(w: World, report: Report)
    requires report.Event? && report.access
    ensures After(w, Add(report)) == w
  {
  }

  /** A report of its own asks to look everywhere. */
  predicate AsksForRescan(report: Report) {
    report.WatchError? || report.needsRescan || report.paths == []
  }

  /** All the paths that some of the reports name. */
  ghost function AllNamed(reports: seq<Report>): set<Path> {
    set k, p | 0 <= k < |reports| && reports[k].Event? && p in reports[k].paths :: p
  }

  /**
   * The changes are those of the reports and nothing else: to look everywhere exactly when
   * one of them asks for it or their paths together pass a bound, and else all their paths.
   */
  ghost predicate TellsExactly(c: Changes, reports: seq<Report>) {
    && (c.rescan <==>
        || (exists k :: 0 <= k < |reports| && AsksForRescan(reports[k]))
        || |AllNamed(reports)| > 1024 || TotalBytes(AllNamed(reports)) > 512 * 1024)
    && c.paths == (if c.rescan then {} else AllNamed(reports))
    && c.bytes == TotalBytes(c.paths)
  }

  lemma NamedWithOneMore(reports: seq<Report>, report: Report)
    ensures AllNamed(reports + [report]) == AllNamed(reports) + if report.Event? then Named(report) else {}
    ensures (exists k :: 0 <= k < |reports + [report]| && AsksForRescan((reports + [report])[k])) <==>
      (exists k :: 0 <= k < |reports| && AsksForRescan(reports[k])) || AsksForRescan(report)
  {
    var more := reports + [report];
    assert more[|reports|] == report;
    forall p ensures p in AllNamed(more) <==> p in AllNamed(reports) || (report.Event? && p in report.paths) {
      if p in AllNamed(reports) {
        var k :| 0 <= k < |reports| && reports[k].Event? && p in reports[k].paths;
        assert more[k] == reports[k];
      }
    }
    if k :| 0 <= k < |reports| && AsksForRescan(reports[k]) {
      assert more[k] == reports[k];
    }
  }

  lemma AddedTellsExactly(c: Changes, reports: seq<Report>, report: Report)
    requires TellsExactly(c, reports) && IsNews(report)
    ensures TellsExactly(Added(c, report), reports + [report])
  {
    NamedWithOneMore(reports, report);
    var all := AllNamed(reports + [report]);
    TotalIsMonotone(AllNamed(reports), all);
    if !c.rescan && !AsksForRescan(report) {
      assert c.paths + Named(report) == all;
    }
  }

  /** Published and pending alike. */
  ghost predicate AllExact(w: World) {
    && TellsExactly(w.pending, w.owed)
    && forall k :: 0 <= k < |w.published| ==> TellsExactly(w.published[k].changes, w.published[k].reports)
  }

  lemma StepStaysExact(w: World, step: Step)
    requires AllExact(w)
    ensures AllExact(After(w, step))
  {
    if step.Add? && IsNews(step.report) {
      AddedTellsExactly(w.pending, w.owed, step.report);
    }
    assert AllNamed([]) == {};
  }

  lemma {:induction false} RunStaysExact(w: World, steps: seq<Step>, v: World)
    requires AllExact(w) && Reaches(w, steps, v)
    ensures AllExact(v)
    decreases |steps|
  {
    if steps != [] {
      StepStaysExact(w, steps[0]);
      RunStaysExact(After(w, steps[0]), steps[1..], v);
    }
  }

  /** In every interleaving each batch tells exactly what its reports say, whatever their order. */
  lemma BatchesAreExact(steps: seq<Step>, v: World, k: nat)
    requires Reaches(INITIAL, steps, v) && k < |v.published|
    ensures TellsExactly(v.published[k].changes, v.published[k].reports)
  {
    assert AllNamed([]) == {};
    RunStaysExact(INITIAL, steps, v);
  }

  lemma Reaching(w: World, step: Step, rest: seq<Step>, v: World)
    requires Enabled(w, step) && Reaches(After(w, step), rest, v)
    ensures Reaches(w, [step] + rest, v)
  {
    assert ([step] + rest)[1..] == rest;
  }

  /** From here on the publisher goes through to the end of its window. */
  lemma WindowIsPublished(u: World) returns (steps: seq<Step>, v: World)
    requires Inv(u) && !u.pending.Empty() && !u.stage.Exited? && (u.stage.Idle? ==> u.token)
    ensures Reaches(u, steps, v) && v.published == u.published + [Batch(u.pending, u.owed)]
    decreases match u.stage case Idle => 3 case Window => 2 case Taking => 1 case Exited => 0
  {
    var step := match u.stage case Idle => Receive case Window => Deadline case Taking => Publish case Exited => Publish;
    var next := After(u, step);
    if step == Publish {
      steps, v := [step], next;
      assert steps[1..] == [] && Reaches(next, [], next);
    } else {
      StepKeepsInv(u, step);
      var rest;
      rest, v := WindowIsPublished(next);
      steps := [step] + rest;
      Reaching(u, step, rest, v);
    }
  }

  /** And reports do get through: any news, whenever the sender lives, can be in the next batch. */
  lemma NewsCanBePublished(w: World, report: Report)
    requires Inv(w) && w.alive && IsNews(report)
    ensures exists steps, v ::
      Reaches(After(w, Add(report)), steps, v) && Enabled(w, Add(report)) &&
      v.published == w.published + [Batch(Added(w.pending, report), w.owed + [report])]
  {
    var u := After(w, Add(report));
    StepKeepsInv(w, Add(report));
    CoveringIsNotEmpty(u.pending, report);
    if u.stage.Idle? && !u.token {
      StepKeepsInv(u, Send);
      var rest, v := WindowIsPublished(After(u, Send));
      Reaching(u, Send, rest, v);
    } else {
      var steps, v := WindowIsPublished(u);
    }
  }

  /** How often a callback has tried to send. */
  ghost function SendsOf(steps: seq<Step>): nat {
    if steps == [] then 0 else SendsOf(steps[1..]) + if steps[0].Send? then 1 else 0
  }

  /** Each news report tries to wake the publisher once, no more and no less. */
  lemma {:induction false} OneSendForEachNews(w: World, steps: seq<Step>, v: World)
    requires Reaches(w, steps, v)
    ensures v.sends + SendsOf(steps) == w.sends + |NewsOf(steps)|
    decreases |steps|
  {
    if steps != [] {
      OneSendForEachNews(After(w, steps[0]), steps[1..], v);
    }
  }

  /** The sender can always go, and then the publisher takes what is left of a wake-up and ends. */
  lemma PublisherEnds(w: World)
    requires !w.stage.Exited?
    ensures exists steps, v :: Reaches(w, steps, v) && !v.alive && v.stage.Exited?
    decreases w.alive, w.sends, if w.stage.Taking? then 2 else if w.token then 1 else 0
  {
    var step :=
      if w.alive then (if w.sends > 0 then Send else DropSender)
      else if w.stage.Taking? then Publish else if w.token then Receive else Disconnect;
    var next := After(w, step);
    if next.stage.Exited? {
      assert Reaches(next, [], next);
      Reaching(w, step, [], next);
    } else {
      PublisherEnds(next);
      var rest, v :| Reaches(next, rest, v) && !v.alive && v.stage.Exited?;
      Reaching(w, step, rest, v);
    }
  }
}
