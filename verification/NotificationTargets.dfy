/**
 * Which session a desktop notification belongs to (src-tauri/src/notifications.rs, module
 * `targets`): two maps that forget what is old and what does not fit, and must never answer
 * wrongly for it. Each call is one step at one instant, and instants never go back.
 */
module NotificationTargets {
  import opened Collections
  import opened Wrappers

  type Notification = nat
  type Session = int
  type Instant = nat

  /** `NOTIFICATION_TARGET_TTL`, in seconds. */
  const TTL := 3600
  const CAP := 256

  type Targets = map<Notification, (Session, Instant)>
  type Latest = map<Session, (Notification, Instant)>

  datatype Store = Store(targets: Targets, latest: Latest)

  const EMPTY := Store(map[], map[])

  predicate Young(at: Instant, now: Instant) {
    now - at < TTL
  }

  /** `retain(|_, (_, at)| now.duration_since(*at) < TTL)` */
  function Fresh<K, V>(m: map<K, (V, Instant)>, now: Instant): map<K, (V, Instant)> {
    map k | k in m && Young(m[k].1, now) :: m[k]
  }

  /** No entry of `m` is older than that of `k`. */
  ghost predicate IsOldest<K(!new), V>(m: map<K, (V, Instant)>, k: K) {
    k in m && forall j :: j in m ==> m[k].1 <= m[j].1
  }

  /** An entry goes in; `full` says whether one of the oldest had to make room. */
  ghost predicate Inserted<K(!new), V>(kept: map<K, (V, Instant)>, full: bool, k: K, entry: (V, Instant),
                                 after: map<K, (V, Instant)>)
  {
    if full then exists o :: IsOldest(kept, o) && after == (kept - {o})[k := entry]
    else after == kept[k := entry]
  }

  datatype Call =
    | RememberTarget(notification: Notification, session: Session, at: Instant)
    | TakeTarget(notification: Notification, at: Instant)
    | Replaceable(session: Session, at: Instant)
    | RememberReplacement(replaced: Notification, notification: Notification, session: Session, at: Instant)
    | Forget(notification: Notification, at: Instant)

  datatype Answer = Nothing | Target(session: Option<Session>) | Replaces(notification: Notification)

  function TakenFrom(targets: Targets, notification: Notification, now: Instant): Option<Session> {
    if notification in targets && Young(targets[notification].1, now) then Some(targets[notification].0) else None
  }

  function ReplaceableIn(latest: Latest, session: Session, now: Instant): Notification {
    if session in latest && Young(latest[session].1, now) then latest[session].0 else 0
  }

  /** The replaced notification is consumed before the new one is remembered. */
  function WithoutReplaced(targets: Targets, replaced: Notification, notification: Notification): Targets {
    if replaced != 0 && replaced != notification then targets - {replaced} else targets
  }

  /** One call: what it leaves, which is not determined when the oldest entries tie, and its answer. */
  ghost predicate Step(s: Store, call: Call, t: Store, answer: Answer) {
    match call
    case RememberTarget(n, session, now) =>
      var kept := Fresh(s.targets, now);
      Inserted(kept, |kept| >= CAP, n, (session, now), t.targets) && t.latest == s.latest && answer == Nothing
    case TakeTarget(n, now) =>
      t == s.(targets := s.targets - {n}) && answer == Target(TakenFrom(s.targets, n, now))
    case Replaceable(session, now) =>
      t == s && answer == Replaces(ReplaceableIn(s.latest, session, now))
    case RememberReplacement(replaced, n, session, now) =>
      var kept := Fresh(WithoutReplaced(s.targets, replaced, n), now);
      var held := Fresh(s.latest, now);
      && Inserted(kept, |kept| >= CAP, n, (session, now), t.targets)
      && Inserted(held, |held| >= CAP && session !in held, session, (n, now), t.latest)
      && answer == Nothing
    case Forget(n, now) =>
      && t.targets == s.targets - {n}
      && t.latest == (map session | session in s.latest && s.latest[session].0 != n :: s.latest[session])
      && answer == Nothing
  }

  // ---------- The code ----------

  /** `min_by_key`: the map is read in any order and the first of the oldest wins. */
  method Oldest<K(==, !new), V>(m: map<K, (V, Instant)>) returns (oldest: K)
    requires m != map[]
    ensures IsOldest(m, oldest)
  {
    assert m.Keys == {} ==> m == map[];
    oldest :| oldest in m.Keys;
    var rest := m.Keys - {oldest};
    while rest != {}
      invariant rest <= m.Keys && oldest in m
      invariant forall k :: k in m.Keys - rest ==> m[oldest].1 <= m[k].1
      decreases rest
    {
      var k :| k in rest;
      rest := rest - {k};
      if m[k].1 < m[oldest].1 {
        oldest := k;
      }
    }
  }

  class TargetStore {
    var targets: Targets
    var latest: Latest

    function View(): Store
      reads this
    {
      Store(targets, latest)
    }

    constructor ()
      ensures View() == EMPTY
    {
      targets, latest := map[], map[];
    }

    method RememberTarget(notification: Notification, session: Session, now: Instant)
      modifies this`targets
      ensures Step(old(View()), Call.RememberTarget(notification, session, now), View(), Nothing)
    {
      targets := Fresh(targets, now);
      if |targets| >= CAP {
        var oldest := Oldest(targets);
        targets := targets - {oldest};
      }
      targets := targets[notification := (session, now)];
    }

    method TakeTarget(notification: Notification, now: Instant) returns (session: Option<Session>)
      modifies this`targets
      ensures Step(old(View()), Call.TakeTarget(notification, now), View(), Target(session))
    {
      if notification !in targets {
        assert targets - {notification} == targets;
        return None;
      }
      var (held, at) := targets[notification];
      targets := targets - {notification};
      return if now - at < TTL then Some(held) else None;
    }

    method Replaceable(session: Session, now: Instant) returns (notification: Notification)
      ensures Step(View(), Call.Replaceable(session, now), View(), Replaces(notification))
    {
      if session in latest && now - latest[session].1 < TTL {
        return latest[session].0;
      }
      return 0;
    }

    method RememberReplacement(replaced: Notification, notification: Notification, session: Session, now: Instant)
      modifies this
      ensures Step(old(View()), Call.RememberReplacement(replaced, notification, session, now), View(), Nothing)
    {
      if replaced != 0 && replaced != notification {
        var taken := TakeTarget(replaced, now);
      }
      RememberTarget(notification, session, now);
      latest := Fresh(latest, now);
      if |latest| >= CAP && session !in latest {
        var oldest := Oldest(latest);
        latest := latest - {oldest};
      }
      latest := latest[session := (notification, now)];
    }

    method Forget(notification: Notification, now: Instant)
      modifies this
      ensures Step(old(View()), Call.Forget(notification, now), View(), Nothing)
    {
      var taken := TakeTarget(notification, now);
      latest := map s | s in latest && latest[s].0 != notification :: latest[s];
    }
  }

  // ---------- The unbounded history ----------

  /** The session last remembered for `n`, unless it was taken, replaced or closed since. */
  ghost function LastTarget(log: seq<Call>, n: Notification): Option<(Session, Instant)> {
    if log == [] then None
    else
      var before := LastTarget(log[..|log| - 1], n);
      match log[|log| - 1]
      case RememberTarget(m, session, at) => if m == n then Some((session, at)) else before
      case TakeTarget(m, _) => if m == n then None else before
      case Replaceable(_, _) => before
      case RememberReplacement(replaced, m, session, at) =>
        if m == n then Some((session, at)) else if replaced == n && n != 0 then None else before
      case Forget(m, _) => if m == n then None else before
  }

  /** The notification last shown for `session`, unless it was closed since. */
  ghost function LastShown(log: seq<Call>, session: Session): Option<(Notification, Instant)> {
    if log == [] then None
    else
      var before := LastShown(log[..|log| - 1], session);
      match log[|log| - 1]
      case RememberReplacement(_, n, shown, at) => if shown == session then Some((n, at)) else before
      case Forget(n, _) => if before.Some? && before.value.0 == n then None else before
      case _ => before
  }

  ghost predicate TargetsRefine(targets: Targets, log: seq<Call>) {
    (forall n :: n in targets ==> LastTarget(log, n) == Some(targets[n])) && |targets| <= CAP
  }

  ghost predicate LatestRefines(latest: Latest, log: seq<Call>) {
    (forall session :: session in latest ==> LastShown(log, session) == Some(latest[session])) && |latest| <= CAP
  }

  /** What the maps hold is what the history says, and it fits. */
  ghost predicate Refines(s: Store, log: seq<Call>) {
    TargetsRefine(s.targets, log) && LatestRefines(s.latest, log)
  }

  lemma {:induction false} FreshIsSmaller<K, V>(m: map<K, (V, Instant)>, now: Instant)
    ensures |Fresh(m, now)| <= |m|
  {
    SubsetIsSmaller(Fresh(m, now).Keys, m.Keys);
  }

  lemma InsertedFits<K(!new), V>(kept: map<K, (V, Instant)>, full: bool, k: K, entry: (V, Instant), after: map<K, (V, Instant)>)
    requires Inserted(kept, full, k, entry, after)
    requires |kept| <= CAP && (full || |kept| < CAP || k in kept)
    ensures |after| <= CAP
    ensures k in after && after[k] == entry
    ensures forall j :: j in after && j != k ==> j in kept && after[j] == kept[j]
  {
    if full {
      var o :| IsOldest(kept, o) && after == (kept - {o})[k := entry];
      SubsetIsSmaller(after.Keys, (kept.Keys - {o}) + {k});
    } else {
      assert after.Keys == kept.Keys + {k};
    }
  }

  lemma StepRefines(s: Store, log: seq<Call>, call: Call, t: Store, answer: Answer)
    requires Refines(s, log) && Step(s, call, t, answer)
    ensures Refines(t, log + [call])
  {
    match call
    case RememberTarget(n, session, now) =>
      RememberedTargetsRefine(s.targets, log, call, s.targets, n, (session, now), t.targets);
      LatestUntouched(s.latest, log, call);
    case TakeTarget(n, now) =>
      ConsumedTargetsRefine(s.targets, log, call, n, t.targets);
      LatestUntouched(s.latest, log, call);
    case Replaceable(_, _) =>
      assert (log + [call])[..|log|] == log;
    case RememberReplacement(replaced, n, session, now) =>
      var left := WithoutReplaced(s.targets, replaced, n);
      RememberedTargetsRefine(s.targets, log, call, left, n, (session, now), t.targets);
      ReplacedLatestRefines(s.latest, log, call, t.latest);
    case Forget(n, now) =>
      ConsumedTargetsRefine(s.targets, log, call, n, t.targets);
      ForgottenLatestRefines(s.latest, log, call, t.latest);
  }

  /** Remembering a target, after what it replaces is gone. */
  lemma RememberedTargetsRefine(targets: Targets, log: seq<Call>, call: Call, left: Targets, n: Notification,
                                entry: (Session, Instant), after: Targets)
    requires TargetsRefine(targets, log)
    requires match call
      case RememberTarget(m, session, now) => left == targets && m == n && entry == (session, now)
      case RememberReplacement(replaced, m, session, now) =>
        left == WithoutReplaced(targets, replaced, n) && m == n && entry == (session, now)
      case _ => false
    requires var kept := Fresh(left, entry.1); Inserted(kept, |kept| >= CAP, n, entry, after)
    ensures TargetsRefine(after, log + [call])
  {
    assert (log + [call])[..|log|] == log;
    var kept := Fresh(left, entry.1);
    SubsetIsSmaller(left.Keys, targets.Keys);
    FreshIsSmaller(left, entry.1);
    InsertedFits(kept, |kept| >= CAP, n, entry, after);
  }

  lemma ConsumedTargetsRefine(targets: Targets, log: seq<Call>, call: Call, n: Notification, after: Targets)
    requires TargetsRefine(targets, log) && after == targets - {n}
    requires call.TakeTarget? || call.Forget?
    requires call.notification == n
    ensures TargetsRefine(after, log + [call])
  {
    assert (log + [call])[..|log|] == log;
    SubsetIsSmaller(after.Keys, targets.Keys);
  }

  lemma LatestUntouched(latest: Latest, log: seq<Call>, call: Call)
    requires LatestRefines(latest, log) && (call.RememberTarget? || call.TakeTarget?)
    ensures LatestRefines(latest, log + [call])
  {
    assert (log + [call])[..|log|] == log;
  }

  lemma ReplacedLatestRefines(latest: Latest, log: seq<Call>, call: Call, after: Latest)
    requires LatestRefines(latest, log) && call.RememberReplacement?
    requires var held := Fresh(latest, call.at);
      Inserted(held, |held| >= CAP && call.session !in held, call.session, (call.notification, call.at), after)
    ensures LatestRefines(after, log + [call])
  {
    assert (log + [call])[..|log|] == log;
    var held := Fresh(latest, call.at);
    FreshIsSmaller(latest, call.at);
    InsertedFits(held, |held| >= CAP && call.session !in held, call.session, (call.notification, call.at), after);
  }

  lemma ForgottenLatestRefines(latest: Latest, log: seq<Call>, call: Call, after: Latest)
    requires LatestRefines(latest, log) && call.Forget?
    requires after == map session | session in latest && latest[session].0 != call.notification :: latest[session]
    ensures LatestRefines(after, log + [call])
  {
    assert (log + [call])[..|log|] == log;
    SubsetIsSmaller(after.Keys, latest.Keys);
  }

  // ---------- Every run ----------

  /** The instant of the last call; none of them goes back. */
  ghost function Now(log: seq<Call>): Instant {
    if log == [] then 0 else log[|log| - 1].at
  }

  ghost predicate Follows(r: Store, call: Call, s: Store) {
    exists answer :: Step(r, call, s, answer)
  }

  /**
   * Some run of these calls, at instants in order, ends in `s`. In a `roomy` run every call
   * found room for what it remembered.
   */
  ghost predicate Reaches(log: seq<Call>, s: Store, roomy: bool) {
    if log == [] then s == EMPTY
    else
      var front, call := log[..|log| - 1], log[|log| - 1];
      exists r :: Reaches(front, r, roomy) && Extends(front, r, call, s, roomy)
  }

  /** One more call takes the run `front`, which ends in `r`, to `s`. */
  ghost predicate Extends(front: seq<Call>, r: Store, call: Call, s: Store, roomy: bool) {
    Follows(r, call, s) && Now(front) <= call.at && (roomy ==> HasRoom(r, call))
  }

  /** The call finds room for what it remembers. */
  ghost predicate HasRoom(s: Store, call: Call) {
    match call
    case RememberTarget(_, _, now) => |Fresh(s.targets, now)| < CAP
    case RememberReplacement(replaced, n, session, now) =>
      && |Fresh(WithoutReplaced(s.targets, replaced, n), now)| < CAP
      && (|Fresh(s.latest, now)| < CAP || session in Fresh(s.latest, now))
    case _ => true
  }

  /** The last call of a run, with the store before it. */
  lemma SplitRun(log: seq<Call>, s: Store, roomy: bool) returns (front: seq<Call>, call: Call, r: Store)
    requires log != [] && Reaches(log, s, roomy)
    ensures log == front + [call] && |front| < |log|
    ensures Reaches(front, r, roomy) && Extends(front, r, call, s, roomy)
  {
    front, call := log[..|log| - 1], log[|log| - 1];
    r :| Reaches(front, r, roomy) && Extends(front, r, call, s, roomy);
  }

  lemma CallRefines(r: Store, front: seq<Call>, call: Call, s: Store, log: seq<Call>)
    requires Refines(r, front) && Follows(r, call, s) && log == front + [call]
    ensures Refines(s, log)
  {
    var answer :| Step(r, call, s, answer);
    StepRefines(r, front, call, s, answer);
  }

  lemma EmptyRefines(log: seq<Call>, s: Store)
    requires log == [] && s == EMPTY
    ensures Refines(s, log)
  {
  }

  lemma {:induction false} RunsRefine(log: seq<Call>, s: Store, roomy: bool)
    requires Reaches(log, s, roomy)
    ensures Refines(s, log)
  {
    if log == [] {
      EmptyRefines(log, s);
    } else {
      var front, call, r := SplitRun(log, s, roomy);
      RunsRefine(front, r, roomy);
      CallRefines(r, front, call, s, log);
    }
  }

  /**
   * No wrong answer in any run: a session is named only if it is the one last remembered
   * for the notification, not consumed, replaced or closed since, and still young; likewise
   * for the notification a session would replace. Both maps stay within 256 entries.
   */
  lemma AnswersAreRight(log: seq<Call>, s: Store, roomy: bool, n: Notification, session: Session, now: Instant)
    requires Reaches(log, s, roomy) && Now(log) <= now
    ensures |s.targets| <= 256 && |s.latest| <= 256
    ensures TakenFrom(s.targets, n, now) == Some(session) ==>
      LastTarget(log, n).Some? && LastTarget(log, n).value.0 == session && now - LastTarget(log, n).value.1 < 3600
    ensures ReplaceableIn(s.latest, session, now) == n && n != 0 ==>
      LastShown(log, session).Some? && LastShown(log, session).value.0 == n && now - LastShown(log, session).value.1 < 3600
  {
    RunsRefine(log, s, roomy);
  }

  // ---------- And no answer is missed while there is room ----------

  /** Nothing still young has been dropped to make room. */
  ghost predicate Complete(s: Store, log: seq<Call>, now: Instant) {
    && (forall n :: LastTarget(log, n).Some? && Young(LastTarget(log, n).value.1, now) ==> n in s.targets)
    && (forall session :: LastShown(log, session).Some? && Young(LastShown(log, session).value.1, now) ==> session in s.latest)
  }

  lemma CallStaysComplete(r: Store, front: seq<Call>, call: Call, s: Store, log: seq<Call>)
    requires log == front + [call]
    requires Refines(r, front) && Complete(r, front, Now(front)) && Now(front) <= call.at
    requires Follows(r, call, s) && HasRoom(r, call)
    ensures Complete(s, log, Now(log))
  {
    assert log[..|front|] == front;
    var answer :| Step(r, call, s, answer);
    forall n | LastTarget(log, n).Some? && Young(LastTarget(log, n).value.1, call.at) ensures n in s.targets {
      TargetStays(r, front, call, s, answer, n);
    }
    forall session | LastShown(log, session).Some? && Young(LastShown(log, session).value.1, call.at) ensures session in s.latest {
      ShownStays(r, front, call, s, answer, session);
    }
  }

  lemma TargetStays(r: Store, front: seq<Call>, call: Call, s: Store, answer: Answer, n: Notification)
    requires n in r.targets ==> LastTarget(front, n) == Some(r.targets[n])
    requires LastTarget(front, n).Some? && Young(LastTarget(front, n).value.1, Now(front)) ==> n in r.targets
    requires Step(r, call, s, answer) && HasRoom(r, call) && Now(front) <= call.at
    requires LastTarget(front + [call], n).Some? && Young(LastTarget(front + [call], n).value.1, call.at)
    ensures n in s.targets
  {
    assert (front + [call])[..|front|] == front;
  }

  lemma ShownStays(r: Store, front: seq<Call>, call: Call, s: Store, answer: Answer, session: Session)
    requires session in r.latest ==> LastShown(front, session) == Some(r.latest[session])
    requires LastShown(front, session).Some? && Young(LastShown(front, session).value.1, Now(front)) ==> session in r.latest
    requires Step(r, call, s, answer) && HasRoom(r, call) && Now(front) <= call.at
    requires LastShown(front + [call], session).Some? && Young(LastShown(front + [call], session).value.1, call.at)
    ensures session in s.latest
  {
    assert (front + [call])[..|front|] == front;
  }

  lemma {:induction false} RoomyRunsAreComplete(log: seq<Call>, s: Store)
    requires Reaches(log, s, true)
    ensures Complete(s, log, Now(log))
  {
    if log != [] {
      var front, call, r := SplitRun(log, s, true);
      RoomyRunsAreComplete(front, r);
      RunsRefine(front, r, true);
      CallStaysComplete(r, front, call, s, log);
    }
  }

  /** While there was always room, each answer is exactly what the unbounded history says. */
  lemma RoomyAnswersAreExact(log: seq<Call>, s: Store, n: Notification, session: Session, now: Instant)
    requires Reaches(log, s, true) && Now(log) <= now
    ensures var last := LastTarget(log, n);
      TakenFrom(s.targets, n, now) == if last.Some? && now - last.value.1 < 3600 then Some(last.value.0) else None
    ensures var last := LastShown(log, session);
      ReplaceableIn(s.latest, session, now) == if last.Some? && now - last.value.1 < 3600 then last.value.0 else 0
  {
    RunsRefine(log, s, true);
    RoomyRunsAreComplete(log, s);
  }

  // ---------- What a full store can lose ----------

  /** A run with every store on its way. */
  ghost predicate IsRun(log: seq<Call>, stores: seq<Store>) {
    && |stores| == |log| + 1 && stores[0] == EMPTY
    && forall k: nat :: k < |log| ==> Follows(stores[k], log[k], stores[k + 1]) && Now(log[..k]) <= log[k].at
  }

  lemma FrontOfRun(log: seq<Call>, stores: seq<Store>, n: nat, front: seq<Call>, before: seq<Store>)
    requires IsRun(log, stores) && n <= |log|
    requires front == log[..n] && before == stores[..n + 1]
    ensures IsRun(front, before) && before[n] == stores[n]
  {
    forall k: nat | k < |front|
      ensures Follows(before[k], front[k], before[k + 1]) && Now(front[..k]) <= front[k].at
    {
      assert front[..k] == log[..k];
    }
  }

  lemma {:induction false} RunReaches(log: seq<Call>, stores: seq<Store>)
    requires IsRun(log, stores)
    ensures Reaches(log, stores[|log|], false)
  {
    if log != [] {
      var front := log[..|log| - 1];
      FrontOfRun(log, stores, |front|, front, stores[..|log|]);
      RunReaches(front, stores[..|log|]);
      assert Extends(front, stores[|front|], log[|front|], stores[|log|], false);
    }
  }

  lemma RunGrows(front: seq<Call>, before: seq<Store>, call: Call, s: Store)
    requires IsRun(front, before) && Extends(front, before[|front|], call, s, false)
    ensures IsRun(front + [call], before + [s])
  {
    var log, stores := front + [call], before + [s];
    forall k: nat | k < |log| ensures Follows(stores[k], log[k], stores[k + 1]) && Now(log[..k]) <= log[k].at {
      assert log[..k] == front[..k];
      assert k == |front| ==> front[..k] == front;
    }
  }

  /** What is reached is reached by such a run. */
  lemma {:induction false} ReachedByRun(log: seq<Call>, s: Store) returns (stores: seq<Store>)
    requires Reaches(log, s, false)
    ensures IsRun(log, stores) && stores[|log|] == s
  {
    if log == [] {
      stores := [s];
    } else {
      var front, call, r := SplitRun(log, s, false);
      var before := ReachedByRun(front, r);
      RunGrows(front, before, call, s);
      stores := before + [s];
    }
  }

  lemma ReachedIsRun(log: seq<Call>, s: Store)
    ensures Reaches(log, s, false) <==> exists stores :: IsRun(log, stores) && stores[|log|] == s
  {
    if Reaches(log, s, false) {
      var stores := ReachedByRun(log, s);
    }
    if stores :| IsRun(log, stores) && stores[|log|] == s {
      RunReaches(log, stores);
    }
  }

  /** The targets from which the call makes its choice, if it remembers one. */
  function KeptBy(s: Store, call: Call): Targets
    requires call.RememberTarget? || call.RememberReplacement?
  {
    match call
    case RememberTarget(_, _, now) => Fresh(s.targets, now)
    case RememberReplacement(replaced, n, _, now) => Fresh(WithoutReplaced(s.targets, replaced, n), now)
  }

  /** The call drops `n` because the targets are full and none of them is older. */
  ghost predicate DropsTarget(s: Store, call: Call, t: Store, n: Notification, entry: (Session, Instant)) {
    && (call.RememberTarget? || call.RememberReplacement?) && call.notification != n
    && n !in t.targets
    && var kept := KeptBy(s, call);
    && |kept| >= CAP && IsOldest(kept, n) && kept[n] == entry
  }

  /** The call drops `session` because as many sessions are known as may be, and none is older. */
  ghost predicate DropsShown(s: Store, call: Call, t: Store, session: Session, entry: (Notification, Instant)) {
    && call.RememberReplacement? && call.session != session
    && session !in t.latest
    && var held := Fresh(s.latest, call.at);
    && |held| >= CAP && call.session !in held && IsOldest(held, session) && held[session] == entry
  }

  lemma TargetGoesOnlyIfDropped(r: Store, front: seq<Call>, call: Call, s: Store, n: Notification, entry: (Session, Instant))
    requires Follows(r, call, s) && n in r.targets && r.targets[n] == entry && LastTarget(front, n) == Some(entry)
    requires LastTarget(front + [call], n) == Some(entry) && Young(entry.1, call.at) && n !in s.targets
    ensures DropsTarget(r, call, s, n, entry)
  {
    assert (front + [call])[..|front|] == front;
  }

  lemma ShownGoesOnlyIfDropped(r: Store, front: seq<Call>, call: Call, s: Store, session: Session, entry: (Notification, Instant))
    requires Follows(r, call, s) && session in r.latest && r.latest[session] == entry && LastShown(front, session) == Some(entry)
    requires LastShown(front + [call], session) == Some(entry) && Young(entry.1, call.at) && session !in s.latest
    ensures DropsShown(r, call, s, session, entry)
  {
    assert (front + [call])[..|front|] == front;
  }

  /** Call `k` of the run drops the entry, which is the last one remembered until then. */
  ghost predicate DropsTargetAt(log: seq<Call>, stores: seq<Store>, k: nat, n: Notification, entry: (Session, Instant)) {
    && k < |log| && |stores| == |log| + 1
    && DropsTarget(stores[k], log[k], stores[k + 1], n, entry) && LastTarget(log[..k], n) == Some(entry)
  }

  ghost predicate DropsShownAt(log: seq<Call>, stores: seq<Store>, k: nat, session: Session, entry: (Notification, Instant)) {
    && k < |log| && |stores| == |log| + 1
    && DropsShown(stores[k], log[k], stores[k + 1], session, entry) && LastShown(log[..k], session) == Some(entry)
  }

  lemma MissingTarget(front: seq<Call>, call: Call, r: Store, s: Store, n: Notification, entry: (Session, Instant))
    requires Refines(r, front) && Follows(r, call, s)
    requires LastTarget(front + [call], n) == Some(entry) && Young(entry.1, call.at) && n !in s.targets
    ensures LastTarget(front, n) == Some(entry)
    ensures n in r.targets ==> DropsTarget(r, call, s, n, entry)
  {
    assert (front + [call])[..|front|] == front;
    if n in r.targets {
      TargetGoesOnlyIfDropped(r, front, call, s, n, entry);
    }
  }

  lemma MissingShown(front: seq<Call>, call: Call, r: Store, s: Store, session: Session, entry: (Notification, Instant))
    requires Refines(r, front) && Follows(r, call, s)
    requires LastShown(front + [call], session) == Some(entry) && Young(entry.1, call.at) && session !in s.latest
    ensures LastShown(front, session) == Some(entry)
    ensures session in r.latest ==> DropsShown(r, call, s, session, entry)
  {
    assert (front + [call])[..|front|] == front;
    if session in r.latest {
      ShownGoesOnlyIfDropped(r, front, call, s, session, entry);
    }
  }

  lemma RunRefines(log: seq<Call>, stores: seq<Store>)
    requires IsRun(log, stores)
    ensures Refines(stores[|log|], log)
  {
    RunReaches(log, stores);
    RunsRefine(log, stores[|log|], false);
  }

  /** The last call of a run, with all stores before it. */
  lemma UnfoldRun(log: seq<Call>, stores: seq<Store>) returns (front: seq<Call>, call: Call, before: seq<Store>, r: Store, s: Store)
    requires IsRun(log, stores) && log != []
    ensures log == front + [call] && stores == before + [s] && IsRun(front, before)
    ensures r == before[|front|] && Refines(r, front) && Follows(r, call, s)
    ensures Now(front) <= call.at == Now(log)
  {
    front, before := log[..|log| - 1], stores[..|log|];
    call, r, s := log[|front|], stores[|front|], stores[|log|];
    FrontOfRun(log, stores, |front|, front, before);
    RunRefines(front, before);
    assert Follows(stores[|front|], log[|front|], stores[|front| + 1]) && Now(log[..|front|]) <= log[|front|].at;
  }

  lemma DroppedEarlier(front: seq<Call>, call: Call, before: seq<Store>, s: Store, k: nat)
    requires k < |front| && |before| == |front| + 1
    ensures (front + [call])[..k] == front[..k] && (front + [call])[k] == front[k]
    ensures (before + [s])[k] == before[k] && (before + [s])[k + 1] == before[k + 1]
  {
  }

  /**
   * Whatever the run: a target that was remembered, not consumed since and is still young is
   * missing only because some call found the targets full and no older one among them.
   */
  lemma {:induction false} LostTargetWasDropped(log: seq<Call>, stores: seq<Store>, n: Notification, entry: (Session, Instant))
    returns (k: nat)
    requires IsRun(log, stores) && LastTarget(log, n) == Some(entry) && Young(entry.1, Now(log))
    requires n !in stores[|log|].targets
    ensures DropsTargetAt(log, stores, k, n, entry)
    decreases |log|
  {
    var front, call, before, r, s := UnfoldRun(log, stores);
    MissingTarget(front, call, r, s, n, entry);
    if n in r.targets {
      k := |front|;
      assert log[..k] == front;
    } else {
      k := LostTargetWasDropped(front, before, n, entry);
      DroppedEarlier(front, call, before, s, k);
    }
  }

  /** Likewise for the notification a session would replace. */
  lemma {:induction false} LostShownWasDropped(log: seq<Call>, stores: seq<Store>, session: Session, entry: (Notification, Instant))
    returns (k: nat)
    requires IsRun(log, stores) && LastShown(log, session) == Some(entry) && Young(entry.1, Now(log))
    requires session !in stores[|log|].latest
    ensures DropsShownAt(log, stores, k, session, entry)
    decreases |log|
  {
    var front, call, before, r, s := UnfoldRun(log, stores);
    MissingShown(front, call, r, s, session, entry);
    if session in r.latest {
      k := |front|;
      assert log[..k] == front;
    } else {
      k := LostShownWasDropped(front, before, session, entry);
      DroppedEarlier(front, call, before, s, k);
    }
  }

  /** Other notifications, each remembered last no earlier than `at`, and young at the call that follows. */
  ghost predicate Crowd(log: seq<Call>, call: Call, n: Notification, at: Instant, others: set<Notification>) {
    && |others| >= 255 && n !in others
    && forall m :: m in others ==>
        LastTarget(log, m).Some? && at <= LastTarget(log, m).value.1 && Young(LastTarget(log, m).value.1, call.at)
  }

  ghost predicate CrowdOfSessions(log: seq<Call>, call: Call, session: Session, at: Instant, others: set<Session>) {
    && |others| >= 255 && session !in others
    && forall m :: m in others ==>
        LastShown(log, m).Some? && at <= LastShown(log, m).value.1 && Young(LastShown(log, m).value.1, call.at)
  }

  lemma StoresRefine(log: seq<Call>, stores: seq<Store>, k: nat)
    requires IsRun(log, stores) && k <= |log|
    ensures Refines(stores[k], log[..k])
  {
    FrontOfRun(log, stores, k, log[..k], stores[..k + 1]);
    RunRefines(log[..k], stores[..k + 1]);
  }

  lemma OthersKept<K, V>(kept: map<K, V>, k: K) returns (others: set<K>)
    requires k in kept
    ensures others == kept.Keys - {k} && |others| == |kept| - 1
  {
    others := kept.Keys - {k};
    assert kept.Keys == others + {k};
  }

  /**
   * So what the cap can lose is bounded by the history alone: a target goes missing only
   * where 255 other notifications have young targets that were remembered no earlier.
   */
  lemma LostTargetWasCrowdedOut(log: seq<Call>, stores: seq<Store>, n: Notification, entry: (Session, Instant))
    requires IsRun(log, stores) && LastTarget(log, n) == Some(entry) && Young(entry.1, Now(log))
    requires n !in stores[|log|].targets
    ensures exists k: nat, others :: k < |log| && Crowd(log[..k], log[k], n, entry.1, others)
  {
    var k := LostTargetWasDropped(log, stores, n, entry);
    StoresRefine(log, stores, k);
    var others := OthersKept(KeptBy(stores[k], log[k]), n);
    assert Crowd(log[..k], log[k], n, entry.1, others);
  }

  lemma LostShownWasCrowdedOut(log: seq<Call>, stores: seq<Store>, session: Session, entry: (Notification, Instant))
    requires IsRun(log, stores) && LastShown(log, session) == Some(entry) && Young(entry.1, Now(log))
    requires session !in stores[|log|].latest
    ensures exists k: nat, others :: k < |log| && CrowdOfSessions(log[..k], log[k], session, entry.1, others)
  {
    var k := LostShownWasDropped(log, stores, session, entry);
    StoresRefine(log, stores, k);
    var others := OthersKept(Fresh(stores[k].latest, log[k].at), session);
    assert CrowdOfSessions(log[..k], log[k], session, entry.1, others);
  }
}
