/**
 * Two scanners of one argument vector (src-tauri/src/daemon_host.rs,
 * reject_unrecognized_args and parse_channel_flag), and the flag checks that ignore both
 * (print_target_requested, and main.rs beside it).
 */
module LaunchArguments {
  import opened Wrappers

  const CHANNEL := "--channel"
  const CHANNEL_EQUALS := "--channel="
  const BENCH_EQUALS := "--bench="
  const STANDALONE := [
    "--print-target", "--daemon-fresh", "--spike-invoke",
    "--spike-webview", "--spike-webview-auto", "--browser-selftest"]
  const MAX_CHANNEL_LEN := 32

  /**
   * What the scanners take from their surroundings: whether the build has the `bench`
   * feature, which names end in the transfer extension, and which characters are blank.
   */
  datatype Setting = Setting(bench: bool, hasTransferExtension: string -> bool, blank: char -> bool)
  {
    /** Nothing a flag or a channel name is written with is blank. */
    ghost predicate Sane() {
      forall c :: InChannelName(c) ==> !blank(c)
    }

    predicate IsStandalone(arg: string) {
      arg in STANDALONE || (bench && arg == "--bench")
    }

    predicate IsTransferPath(arg: string) {
      !("-" <= arg) && hasTransferExtension(arg)
    }

    /** Every token the launcher accepts where a flag may stand. */
    predicate Recognizes(arg: string) {
      || arg == CHANNEL || CHANNEL_EQUALS <= arg
      || (bench && BENCH_EQUALS <= arg)
      || IsStandalone(arg)
      || IsTransferPath(arg)
    }

    /** `value.trim()` */
    function Trimmed(s: string): string
      decreases |s|
    {
      if s == "" then s
      else if blank(s[0]) then Trimmed(s[1..])
      else if blank(s[|s| - 1]) then Trimmed(s[..|s| - 1])
      else s
    }
  }

  predicate InChannelName(c: char) {
    'a' <= c <= 'z' || '0' <= c <= '9' || c == '-'
  }

  // ---------- Token boundaries ----------

  /** `--channel` takes the next argument with it. */
  function Width(arg: string): nat {
    if arg == CHANNEL then 2 else 1
  }

  /** The positions a scan that starts at `i` looks at. */
  function Boundaries(args: seq<string>, i: nat): (at: seq<nat>)
    ensures forall k :: 0 <= k < |at| ==> i <= at[k] < |args|
    decreases |args| - i
  {
    if i >= |args| then [] else [i] + Boundaries(args, i + Width(args[i]))
  }

  /** A scan from `from` has looked at `visited` and stands at `i`. */
  ghost predicate StandsAt(args: seq<string>, from: nat, visited: seq<nat>, i: nat) {
    visited + Boundaries(args, i) == Boundaries(args, from) && forall k :: 0 <= k < |visited| ==> visited[k] < |args|
  }

  lemma ScanSteps(args: seq<string>, from: nat, visited: seq<nat>, i: nat)
    requires StandsAt(args, from, visited, i) && i < |args|
    ensures StandsAt(args, from, visited + [i], i + Width(args[i]))
  {
    assert Boundaries(args, i) == [i] + Boundaries(args, i + Width(args[i]));
    assert visited + [i] + Boundaries(args, i + Width(args[i])) == visited + Boundaries(args, i);
  }

  /** What a scan has visited comes first among the boundaries, and where it stands comes next. */
  lemma ScanLooksAt(args: seq<string>, from: nat, visited: seq<nat>, i: nat)
    requires StandsAt(args, from, visited, i) && i < |args|
    ensures |visited| < |Boundaries(args, from)| && Boundaries(args, from)[|visited|] == i
    ensures forall k :: 0 <= k < |visited| ==> Boundaries(args, from)[k] == visited[k]
  {
    var rest := Boundaries(args, i);
    assert (visited + rest)[|visited|] == rest[0] == i;
  }

  lemma ScanEnds(args: seq<string>, from: nat, visited: seq<nat>, i: nat)
    requires StandsAt(args, from, visited, i) && i >= |args|
    ensures visited == Boundaries(args, from)
  {
    assert Boundaries(args, i) == [];
  }

  predicate IsChannelToken(arg: string) {
    arg == CHANNEL || CHANNEL_EQUALS <= arg
  }

  // ---------- The first scanner ----------

  /** The first of these positions that holds an unrecognized token. */
  ghost predicate FirstUnrecognized(setting: Setting, args: seq<string>, at: seq<nat>, n: nat)
    requires forall k :: 0 <= k < |at| ==> at[k] < |args|
  {
    && n < |at| && !setting.Recognizes(args[at[n]])
    && forall k :: 0 <= k < n ==> setting.Recognizes(args[at[k]])
  }

  /** Where a scan of `at` may stop: at the end, or after any of its positions. */
  ghost predicate IsCut(visited: seq<nat>, at: seq<nat>) {
    visited <= at && (at != [] ==> visited != [])
  }

  /** What the first scanner is to answer, for a scan of `at`. */
  ghost predicate IsRejection(setting: Setting, args: seq<string>, at: seq<nat>, rejected: Option<string>)
    requires forall k :: 0 <= k < |at| ==> at[k] < |args|
  {
    match rejected
    case None => forall k :: 0 <= k < |at| ==> setting.Recognizes(args[at[k]])
    case Some(token) => exists n: nat :: FirstUnrecognized(setting, args, at, n) && token == args[at[n]]
  }

  /** And where it looks to find that out: everywhere, or up to the token it rejects. */
  ghost predicate LookedAt(setting: Setting, args: seq<string>, at: seq<nat>, rejected: Option<string>, visited: seq<nat>)
    requires forall k :: 0 <= k < |at| ==> at[k] < |args|
  {
    IsCut(visited, at) &&
    if rejected.None? then visited == at else visited != [] && FirstUnrecognized(setting, args, at, |visited| - 1)
  }

  lemma StopsAtRejection(setting: Setting, args: seq<string>, at: seq<nat>, before: seq<nat>, i: nat)
    requires forall k :: 0 <= k < |at| ==> at[k] < |args|
    requires |before| < |at| && at[|before|] == i && forall k :: 0 <= k < |before| ==> at[k] == before[k]
    requires !setting.Recognizes(args[i]) && forall k :: 0 <= k < |before| ==> setting.Recognizes(args[at[k]])
    ensures IsRejection(setting, args, at, Some(args[i])) && LookedAt(setting, args, at, Some(args[i]), before + [i])
  {
    assert FirstUnrecognized(setting, args, at, |before|);
  }

  /** The first unrecognized token at a boundary, if there is one. */
  method RejectUnrecognizedArgs(setting: Setting, args: seq<string>)
    returns (rejected: Option<string>, ghost visited: seq<nat>)
    ensures IsRejection(setting, args, Boundaries(args, 1), rejected)
    ensures LookedAt(setting, args, Boundaries(args, 1), rejected, visited)
  {
    var i := 1;
    visited := [];
    while i < |args|
      invariant StandsAt(args, 1, visited, i)
      invariant forall k :: 0 <= k < |visited| ==> setting.Recognizes(args[visited[k]])
      decreases |args| - i
    {
      var arg := args[i];
      ScanLooksAt(args, 1, visited, i);
      ScanSteps(args, 1, visited, i);
      ghost var before := visited;
      visited := visited + [i];
      if arg == CHANNEL {
        i := i + 2;
        continue;
      }
      if CHANNEL_EQUALS <= arg {
        i := i + 1;
        continue;
      }
      if setting.bench && BENCH_EQUALS <= arg {
        i := i + 1;
        continue;
      }
      if setting.IsStandalone(arg) {
        i := i + 1;
        continue;
      }
      if setting.IsTransferPath(arg) {
        i := i + 1;
        continue;
      }
      StopsAtRejection(setting, args, Boundaries(args, 1), before, i);
      return Some(arg), visited;
    }
    ScanEnds(args, 1, visited, i);
    return None, visited;
  }

  // ---------- The second scanner ----------

  datatype ChannelFlagError = MissingValue | EmptyValue(raw: string)

  /** `--channel` reads the argument after it. */
  function NextValue(setting: Setting, args: seq<string>, i: nat): Result<string, ChannelFlagError> {
    if i + 1 >= |args| then Failure(MissingValue)
    else if setting.Trimmed(args[i + 1]) != "" then Success(args[i + 1])
    else Failure(EmptyValue(args[i + 1]))
  }

  /** `--channel=` reads what follows it. */
  function InlineValue(setting: Setting, arg: string): Result<string, ChannelFlagError>
    requires CHANNEL_EQUALS <= arg
  {
    var value := arg[|CHANNEL_EQUALS|..];
    if setting.Trimmed(value) == "" then Failure(EmptyValue(value)) else Success(value)
  }

  /** What the channel token at `i` says. */
  function ValueAt(setting: Setting, args: seq<string>, i: nat): Result<string, ChannelFlagError>
    requires i < |args| && IsChannelToken(args[i])
  {
    if args[i] == CHANNEL then NextValue(setting, args, i) else InlineValue(setting, args[i])
  }

  /** The last of the positions `at` that holds a channel token. */
  function LastChannel(args: seq<string>, at: seq<nat>): (last: Option<nat>)
    requires forall k :: 0 <= k < |at| ==> at[k] < |args|
    ensures last.Some? ==> last.value in at && last.value < |args| && IsChannelToken(args[last.value])
    ensures last.None? ==> forall k :: 0 <= k < |at| ==> !IsChannelToken(args[at[k]])
  {
    if at == [] then None
    else if IsChannelToken(args[at[|at| - 1]]) then Some(at[|at| - 1])
    else LastChannel(args, at[..|at| - 1])
  }

  /** What the last channel token among the positions `at` says. */
  function LastValue(setting: Setting, args: seq<string>, at: seq<nat>): Option<Result<string, ChannelFlagError>>
    requires forall k :: 0 <= k < |at| ==> at[k] < |args|
  {
    match LastChannel(args, at)
    case None => None
    case Some(i) => Some(ValueAt(setting, args, i))
  }

  lemma LastValueOfMore(setting: Setting, args: seq<string>, at: seq<nat>, i: nat)
    requires forall k :: 0 <= k < |at| ==> at[k] < |args|
    requires i < |args|
    ensures LastValue(setting, args, at + [i]) ==
      if IsChannelToken(args[i]) then Some(ValueAt(setting, args, i)) else LastValue(setting, args, at)
  {
    assert (at + [i])[..|at|] == at;
  }

  /** `last.map_or(Ok(None), |r| r.map(Some))` */
  function FlagOf(last: Option<Result<string, ChannelFlagError>>): Result<Option<string>, ChannelFlagError> {
    match last
    case None => Success(None)
    case Some(Success(value)) => Success(Some(value))
    case Some(Failure(error)) => Failure(error)
  }

  function ChannelFlag(setting: Setting, args: seq<string>): Result<Option<string>, ChannelFlagError> {
    FlagOf(LastValue(setting, args, Boundaries(args, 0)))
  }

  /** The value of the last channel token among the boundaries from the start. */
  method ParseChannelFlag(setting: Setting, args: seq<string>)
    returns (r: Result<Option<string>, ChannelFlagError>, ghost visited: seq<nat>)
    ensures r == ChannelFlag(setting, args)
    ensures visited == Boundaries(args, 0)
  {
    var last: Option<Result<string, ChannelFlagError>> := None;
    var i := 0;
    visited := [];
    while i < |args|
      invariant StandsAt(args, 0, visited, i)
      invariant last == LastValue(setting, args, visited)
      decreases |args| - i
    {
      var arg := args[i];
      LastValueOfMore(setting, args, visited, i);
      ScanSteps(args, 0, visited, i);
      visited := visited + [i];
      if arg == CHANNEL {
        last := Some(NextValue(setting, args, i));
        i := i + 2;
        continue;
      }
      if CHANNEL_EQUALS <= arg {
        last := Some(InlineValue(setting, arg));
      }
      i := i + 1;
    }
    ScanEnds(args, 0, visited, i);
    r := FlagOf(last);
  }

  /** The first scanner's positions are the second's after the program name, up to the rejection. */
  ghost predicate LooksAlong(first: seq<nat>, second: seq<nat>) {
    |second| > |first| && first == second[1..|first| + 1]
  }

  lemma BoundariesAgree(args: seq<string>)
    requires args != [] && (args[0] != CHANNEL || |args| == 1)
    ensures Boundaries(args, 0) == [0] + Boundaries(args, 1)
  {
  }

  lemma PrefixLooksAlong(first: seq<nat>, all: seq<nat>, second: seq<nat>)
    requires |first| <= |all| && first == all[..|first|] && second == [0] + all
    ensures LooksAlong(first, second)
  {
    assert second[1..|first| + 1] == all[..|first|];
  }

  lemma OtherFirstLooksElsewhere(first: seq<nat>, second: seq<nat>)
    requires first != [] && first[0] == 1 && (|second| > 1 ==> second[1] != 1)
    ensures !LooksAlong(first, second)
  {
  }

  /** A `--channel` for a name makes the second scanner jump over the first argument. */
  lemma ChannelNameShiftsTheScan(args: seq<string>, second: seq<nat>)
    requires |args| > 1 && args[0] == CHANNEL && second == Boundaries(args, 0)
    ensures |second| > 1 ==> second[1] != 1
  {
    assert second == [0] + Boundaries(args, 2);
  }

  lemma CutStartsBehindTheName(args: seq<string>, all: seq<nat>, first: seq<nat>)
    requires |args| > 1 && all == Boundaries(args, 1) && IsCut(first, all)
    ensures first != [] && first[0] == 1
  {
    assert all[0] == 1;
  }

  /**
   * Both scanners look at the same tokens, however early the first one stops at a rejection,
   * exactly when the program's own name is not a `--channel` before other arguments.
   */
  lemma ScannersAgree(args: seq<string>, all: seq<nat>, first: seq<nat>, second: seq<nat>)
    requires args != [] && all == Boundaries(args, 1) && second == Boundaries(args, 0) && IsCut(first, all)
    ensures LooksAlong(first, second) <==> args[0] != CHANNEL || |args| == 1
  {
    if args[0] != CHANNEL || |args| == 1 {
      BoundariesAgree(args);
      PrefixLooksAlong(first, all, second);
    } else {
      ChannelNameShiftsTheScan(args, second);
      CutStartsBehindTheName(args, all, first);
      OtherFirstLooksElsewhere(first, second);
    }
  }

  // ---------- Whole-argv flag checks ----------

  /** `args.iter().any(|arg| arg == flag)` */
  predicate Requested(args: seq<string>, flag: string) {
    flag in args
  }

  /** The flag stands where a scan of the tokens looks. */
  ghost predicate IsToken(args: seq<string>, flag: string) {
    exists k :: 0 <= k < |Boundaries(args, 0)| && args[Boundaries(args, 0)[k]] == flag
  }

  /** `args[j]` is the value a `--channel` before it takes. */
  ghost predicate IsTakenValue(args: seq<string>, j: nat) {
    0 < j < |args| && (j - 1) in Boundaries(args, 0) && args[j - 1] == CHANNEL
  }

  lemma {:induction false} BoundaryOrTaken(args: seq<string>, i: nat, j: nat)
    requires i <= j < |args|
    ensures j in Boundaries(args, i) || (j > i && (j - 1) in Boundaries(args, i) && args[j - 1] == CHANNEL)
    decreases |args| - i
  {
    var rest := Boundaries(args, i + Width(args[i]));
    assert Boundaries(args, i) == [i] + rest;
    if j >= i + Width(args[i]) {
      BoundaryOrTaken(args, i + Width(args[i]), j);
    }
  }

  /** The exact gap: a check over all arguments sees more than the tokens only in taken values. */
  lemma RequestedBeyondTokens(args: seq<string>, flag: string)
    ensures Requested(args, flag) <==> IsToken(args, flag) || exists j: nat :: IsTakenValue(args, j) && args[j] == flag
  {
    if Requested(args, flag) {
      var j :| 0 <= j < |args| && args[j] == flag;
      BoundaryOrTaken(args, 0, j);
      if j in Boundaries(args, 0) {
        var k :| 0 <= k < |Boundaries(args, 0)| && Boundaries(args, 0)[k] == j;
        assert IsToken(args, flag);
      } else {
        assert IsTakenValue(args, j);
      }
    }
  }

  /** `args.iter().skip(from).any(test)` */
  ghost predicate Matches(args: seq<string>, from: nat, test: string -> bool) {
    exists j :: from <= j < |args| && test(args[j])
  }

  /** A match stands where a scan of the tokens looks. */
  ghost predicate TokenMatches(args: seq<string>, from: nat, test: string -> bool) {
    exists j: nat :: from <= j < |args| && j in Boundaries(args, 0) && test(args[j])
  }

  /** A match stands where some `--channel` takes its value. */
  ghost predicate ValueMatches(args: seq<string>, from: nat, test: string -> bool) {
    exists j: nat :: from <= j < |args| && IsTakenValue(args, j) && test(args[j])
  }

  /** The same gap for a check by any test. */
  lemma MatchesBeyondTokens(args: seq<string>, from: nat, test: string -> bool)
    ensures Matches(args, from, test) <==> TokenMatches(args, from, test) || ValueMatches(args, from, test)
  {
    if Matches(args, from, test) {
      var j: nat :| from <= j < |args| && test(args[j]);
      BoundaryOrTaken(args, 0, j);
    }
  }

  /** `paths::validate_channel`: the channel's name, or the release channel for none. */
  function ValidateChannel(setting: Setting, raw: string): Result<Option<string>, ()> {
    var name := setting.Trimmed(raw);
    if name == "" || name == "release" then Success(None)
    else if |name| <= MAX_CHANNEL_LEN && (forall i :: 0 <= i < |name| ==> InChannelName(name[i]))
        && name[0] != '-' && name[|name| - 1] != '-' then Success(Some(name))
    else Failure(())
  }

  /** `resolve_owning_channel` */
  function ResolveOwningChannel(setting: Setting, debugBuild: bool, channelFlag: Option<string>): Result<Option<string>, ()> {
    match channelFlag
    case Some(raw) => ValidateChannel(setting, raw)
    case None => Success(if debugBuild then Some("dev") else None)
  }

  lemma {:induction false} UnblankIsTrimmed(setting: Setting, s: string)
    requires forall i :: 0 <= i < |s| ==> !setting.blank(s[i])
    ensures setting.Trimmed(s) == s
  {
  }

  lemma {:induction false} TrimmingKeepsTheFirst(setting: Setting, s: string)
    requires s != "" && !setting.blank(s[0])
    ensures var t := setting.Trimmed(s); t != "" && t[0] == s[0]
    decreases |s|
  {
    if setting.blank(s[|s| - 1]) {
      TrimmingKeepsTheFirst(setting, s[..|s| - 1]);
    }
  }

  /** Nothing that starts with a dash passes for a channel. */
  lemma DashIsNoChannel(setting: Setting, arg: string)
    requires setting.Sane() && "-" <= arg
    ensures ValidateChannel(setting, arg).Failure?
  {
    assert arg[0] == "-"[0] == '-';
    TrimmingKeepsTheFirst(setting, arg);
  }

  /** In particular no flag does. */
  lemma FlagsAreNoChannels(setting: Setting, flag: string)
    requires setting.Sane() && setting.IsStandalone(flag)
    ensures ValidateChannel(setting, flag).Failure?
  {
    assert flag[..1] == "-";
    DashIsNoChannel(setting, flag);
  }

  /** At most one of the tokens is about the channel. */
  ghost predicate OneChannelToken(args: seq<string>) {
    forall i, j :: i in Boundaries(args, 0) && j in Boundaries(args, 0) && IsChannelToken(args[i]) && IsChannelToken(args[j]) ==> i == j
  }

  /** What a channel token takes is what the second scanner reads. */
  lemma TakenValueIsRead(setting: Setting, args: seq<string>, j: nat)
    requires OneChannelToken(args) && IsTakenValue(args, j) && ChannelFlag(setting, args).Success?
    ensures ChannelFlag(setting, args) == Success(Some(args[j]))
  {
    var at := Boundaries(args, 0);
    LastChannelExists(args, at, j - 1);
    assert LastChannel(args, at).value == j - 1;
  }

  /**
   * With at most one channel token, and that one valid, every check over all arguments, from
   * whichever place on, agrees with the tokens, as long as it matches nothing but what
   * starts with a dash: then no value can be mistaken for a flag.
   */
  lemma DashChecksAgreeWithTokens(setting: Setting, args: seq<string>, debugBuild: bool, from: nat, test: string -> bool)
    requires setting.Sane() && OneChannelToken(args) && forall arg :: test(arg) ==> "-" <= arg
    requires ChannelFlag(setting, args).Success?
    requires ResolveOwningChannel(setting, debugBuild, ChannelFlag(setting, args).value).Success?
    ensures Matches(args, from, test) <==> TokenMatches(args, from, test)
  {
    MatchesBeyondTokens(args, from, test);
    if ValueMatches(args, from, test) {
      var j: nat :| from <= j < |args| && IsTakenValue(args, j) && test(args[j]);
      TakenValueIsRead(setting, args, j);
      DashIsNoChannel(setting, args[j]);
    }
  }

  /** The standalone flags are checked for from the start. */
  lemma ChecksAgreeWithTokens(setting: Setting, args: seq<string>, debugBuild: bool, flag: string)
    requires setting.Sane() && setting.IsStandalone(flag) && OneChannelToken(args)
    requires ChannelFlag(setting, args).Success?
    requires ResolveOwningChannel(setting, debugBuild, ChannelFlag(setting, args).value).Success?
    ensures Requested(args, flag) <==> IsToken(args, flag)
  {
    RequestedBeyondTokens(args, flag);
    if j: nat :| IsTakenValue(args, j) && args[j] == flag {
      TakenValueIsRead(setting, args, j);
      FlagsAreNoChannels(setting, flag);
    }
  }

  /** `arg == "--bench" || arg.starts_with("--bench=")` */
  predicate IsBench(arg: string) {
    arg == "--bench" || BENCH_EQUALS <= arg
  }

  /** Scenarios of the bench are looked for behind the program's name, or in it as well. */
  lemma BenchChecksAgreeWithTokens(setting: Setting, args: seq<string>, debugBuild: bool, from: nat)
    requires setting.Sane() && OneChannelToken(args)
    requires ChannelFlag(setting, args).Success?
    requires ResolveOwningChannel(setting, debugBuild, ChannelFlag(setting, args).value).Success?
    ensures Matches(args, from, IsBench) <==> TokenMatches(args, from, IsBench)
  {
    forall arg | IsBench(arg) ensures "-" <= arg {
      assert BENCH_EQUALS[..1] == "-" == "--bench"[..1];
      assert arg[..1] == "-";
    }
    DashChecksAgreeWithTokens(setting, args, debugBuild, from, IsBench);
  }

  /**
   * `channel_flag_present` needs none of this: whatever the vector, it finds something
   * exactly when the second scanner comes to a channel token.
   */
  lemma ChannelIsPresentIffRead(setting: Setting, args: seq<string>)
    ensures Matches(args, 0, IsChannelToken) <==> ChannelFlag(setting, args) != Success(None)
  {
    var at := Boundaries(args, 0);
    MatchesBeyondTokens(args, 0, IsChannelToken);
    if Matches(args, 0, IsChannelToken) {
      var i: nat :| i < |args| && i in at && IsChannelToken(args[i]);
      LastChannelExists(args, at, i);
    }
  }

  lemma {:induction false} LastChannelExists(args: seq<string>, at: seq<nat>, i: nat)
    requires forall k :: 0 <= k < |at| ==> at[k] < |args|
    requires i in at && IsChannelToken(args[i])
    ensures LastChannel(args, at).Some?
  {
  }

  /** The boundaries of a vector with `--channel` in its second and fourth places. */
  lemma TwoChannelBoundaries(args: seq<string>, i: nat)
    requires |args| == 5 && args[0] != CHANNEL && args[1] == args[3] == CHANNEL && i == 1
    ensures Boundaries(args, i) == [1, 3] && Boundaries(args, i - 1) == [0, 1, 3]
  {
    assert Boundaries(args, i + 4) == [];
    assert Boundaries(args, i + 2) == [3];
    assert Boundaries(args, i) == [1] + Boundaries(args, i + 2);
    assert Boundaries(args, i - 1) == [0] + Boundaries(args, i);
  }

  lemma DevIsAChannel(setting: Setting, name: string)
    requires setting.Sane() && name == "dev"
    ensures setting.Trimmed(name) == name && ValidateChannel(setting, name) == Success(Some(name))
  {
    assert forall i :: 0 <= i < |name| ==> InChannelName(name[i]);
    UnblankIsTrimmed(setting, name);
  }

  lemma OverriddenChannel(setting: Setting, args: seq<string>, value: string)
    requires |args| == 5 && args[0] != CHANNEL && args[1] == args[3] == CHANNEL
    requires args[4] == value && setting.Trimmed(value) != ""
    ensures ChannelFlag(setting, args) == Success(Some(value))
  {
    TwoChannelBoundaries(args, 1);
    var at := Boundaries(args, 0);
    assert at == [0, 1, 3] && at[|at| - 1] == 3;
    assert LastChannel(args, at) == Some(3);
  }

  /** With a second `--channel` the first one's value is nobody's token but still a match. */
  lemma OverriddenValueIsStillMatched(setting: Setting, args: seq<string>, flag: string)
    requires setting.Sane() && flag == "--print-target"
    requires args == ["houston", CHANNEL, flag, CHANNEL, "dev"]
    ensures forall k :: 0 <= k < |Boundaries(args, 1)| ==> setting.Recognizes(args[Boundaries(args, 1)[k]])
    ensures ChannelFlag(setting, args) == Success(Some("dev"))
    ensures ResolveOwningChannel(setting, false, Some("dev")) == Success(Some("dev"))
    ensures Requested(args, flag) && !IsToken(args, flag)
  {
    var dev := args[4];
    DevIsAChannel(setting, dev);
    OverriddenChannel(setting, args, dev);
    TwoChannelBoundaries(args, 1);
    assert args[2] == flag;
  }
}
