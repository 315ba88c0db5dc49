/**
 * What the launcher's arguments say (src-tauri/src/daemon_host.rs), told without the two
 * scanners: which tokens are accepted, where tokens stand, and which channel is meant.
 */
module LaunchChannels {
  import opened LaunchArguments
  import opened Wrappers

  // ---------- Tokens ----------

  /** Everything that may stand where a flag may. */
  lemma AcceptedTokens(setting: Setting, arg: string)
    ensures setting.Recognizes(arg) <==>
      || arg == "--channel" || "--channel=" <= arg
      || arg == "--print-target" || arg == "--daemon-fresh" || arg == "--spike-invoke"
      || arg == "--spike-webview" || arg == "--spike-webview-auto" || arg == "--browser-selftest"
      || (setting.bench && (arg == "--bench" || "--bench=" <= arg))
      || (setting.hasTransferExtension(arg) && (arg == "" || arg[0] != '-'))
  {
    assert "-" <= arg <==> arg != "" && arg[0] == '-';
  }

  /** The positions looked at start with the first, go on by two after a `--channel` and by one else, to the end. */
  lemma {:induction false} TokensStandBehindEachOther(args: seq<string>, i: nat, at: seq<nat>)
    requires i < |args| && at == Boundaries(args, i)
    ensures at != [] && at[0] == i
    ensures forall k :: 0 <= k < |at| ==> at[k] < |args|
    ensures forall k :: 0 <= k < |at| - 1 ==> at[k + 1] == at[k] + if args[at[k]] == "--channel" then 2 else 1
    ensures at[|at| - 1] + (if args[at[|at| - 1]] == "--channel" then 2 else 1) >= |args|
    decreases |args| - i
  {
    var next := i + if args[i] == "--channel" then 2 else 1;
    var rest := Boundaries(args, next);
    assert at == [i] + rest;
    if next < |args| {
      TokensStandBehindEachOther(args, next, rest);
      forall k | 0 <= k < |at| - 1 ensures at[k + 1] == at[k] + if args[at[k]] == "--channel" then 2 else 1 {
        assert k > 0 ==> at[k] == rest[k - 1] && at[k + 1] == rest[k];
      }
    }
  }

  /** The arguments pass exactly when every token behind the name is accepted, and else the first other one is named. */
  lemma RejectedIsTheFirst(setting: Setting, args: seq<string>, at: seq<nat>, rejected: Option<string>)
    requires at == Boundaries(args, 1) && IsRejection(setting, args, at, rejected)
    ensures rejected.None? <==> forall j :: j in at ==> setting.Recognizes(args[j])
    ensures rejected.Some? ==> exists k ::
      && 0 <= k < |at| && args[at[k]] == rejected.value && !setting.Recognizes(rejected.value)
      && forall j :: 0 <= j < k ==> setting.Recognizes(args[at[j]])
  {
    match rejected
    case None =>
    case Some(token) =>
      var n: nat :| FirstUnrecognized(setting, args, at, n) && token == args[at[n]];
      assert at[n] in at;
  }

  // ---------- The channel flag ----------

  /** What a `--channel` with nothing, with blanks or with a value behind it says. */
  ghost predicate Says(setting: Setting, value: Option<string>, flag: Result<Option<string>, ChannelFlagError>) {
    match value
    case None => flag == Failure(MissingValue)
    case Some(raw) =>
      if forall c :: c in raw ==> setting.blank(c) then flag == Failure(EmptyValue(raw)) else flag == Success(Some(raw))
  }

  lemma {:induction false} LastIsLast(args: seq<string>, at: seq<nat>, k: nat)
    requires forall j :: 0 <= j < |at| ==> at[j] < |args|
    requires k < |at| && IsChannelToken(args[at[k]])
    requires forall j :: k < j < |at| ==> !IsChannelToken(args[at[j]])
    ensures LastChannel(args, at) == Some(at[k])
    decreases |at|
  {
    if k < |at| - 1 {
      LastIsLast(args, at[..|at| - 1], k);
    }
  }

  lemma LastTokenIsRead(setting: Setting, args: seq<string>, at: seq<nat>, k: nat)
    requires at == Boundaries(args, 0) && k < |at| && IsChannelToken(args[at[k]])
    requires forall j :: k < j < |at| ==> !IsChannelToken(args[at[j]])
    ensures ChannelFlag(setting, args) == FlagOf(Some(ValueAt(setting, args, at[k])))
  {
    LastIsLast(args, at, k);
  }

  /** The last channel token among the tokens decides, whether its value stands behind it or in it. */
  lemma LastTokenDecides(setting: Setting, args: seq<string>, at: seq<nat>, k: nat, i: nat)
    requires at == Boundaries(args, 0) && k < |at| && i == at[k]
    requires args[i] == "--channel" || "--channel=" <= args[i]
    requires forall j :: k < j < |at| ==> args[at[j]] != "--channel" && !("--channel=" <= args[at[j]])
    ensures args[i] == "--channel" ==>
      Says(setting, if i + 1 < |args| then Some(args[i + 1]) else None, ChannelFlag(setting, args))
    ensures "--channel=" <= args[i] ==> Says(setting, Some(args[i][10..]), ChannelFlag(setting, args))
  {
    assert IsChannelToken(args[i]);
    assert forall j :: k < j < |at| ==> !IsChannelToken(args[at[j]]);
    LastTokenIsRead(setting, args, at, k);
    TokenSays(setting, args, i);
  }

  lemma TokenSays(setting: Setting, args: seq<string>, i: nat)
    requires i < |args| && IsChannelToken(args[i])
    ensures args[i] == "--channel" ==>
      Says(setting, if i + 1 < |args| then Some(args[i + 1]) else None, FlagOf(Some(ValueAt(setting, args, i))))
    ensures "--channel=" <= args[i] ==> Says(setting, Some(args[i][10..]), FlagOf(Some(ValueAt(setting, args, i))))
  {
    assert |"--channel="| == 10 && |"--channel"| == 9;
    if args[i] == "--channel" {
      if i + 1 < |args| {
        TrimmedAwayIffBlank(setting, args[i + 1]);
      }
    } else {
      TrimmedAwayIffBlank(setting, args[i][10..]);
    }
  }

  /** And without any channel token the flag is not given. */
  lemma NoTokenNoChannel(setting: Setting, args: seq<string>)
    requires forall j :: j in Boundaries(args, 0) ==> args[j] != "--channel" && !("--channel=" <= args[j])
    ensures ChannelFlag(setting, args) == Success(None)
  {
    assert forall k :: 0 <= k < |Boundaries(args, 0)| ==> Boundaries(args, 0)[k] in Boundaries(args, 0);
  }

  // ---------- Blanks ----------

  /** Trimming takes away blanks at both ends, all of them, and nothing else. */
  lemma {:induction false} TrimmingTakesBlankEnds(setting: Setting, s: string) returns (front: string, back: string)
    ensures s == front + setting.Trimmed(s) + back
    ensures forall c :: c in front || c in back ==> setting.blank(c)
    ensures var t := setting.Trimmed(s); t != "" ==> !setting.blank(t[0]) && !setting.blank(t[|t| - 1])
    decreases |s|
  {
    front, back := "", "";
    if s == "" {
    } else if setting.blank(s[0]) {
      front, back := TrimmingTakesBlankEnds(setting, s[1..]);
      front := [s[0]] + front;
    } else if setting.blank(s[|s| - 1]) {
      front, back := TrimmingTakesBlankEnds(setting, s[..|s| - 1]);
      back := back + [s[|s| - 1]];
    }
  }

  lemma TrimmedAwayIffBlank(setting: Setting, s: string)
    ensures setting.Trimmed(s) == "" <==> forall c :: c in s ==> setting.blank(c)
  {
    var front, back := TrimmingTakesBlankEnds(setting, s);
    var t := setting.Trimmed(s);
    if t != "" {
      assert t[0] in s;
    }
  }

  // ---------- Channel names ----------

  /** A lower-case letter, a digit or a dash, by its code in ASCII. */
  predicate StandsInName(c: char) {
    97 <= c as int <= 122 || 48 <= c as int <= 57 || c as int == 45
  }

  /** A valid name has up to 32 characters, lower-case letters, digits and dashes, with no dash at an end. */
  ghost predicate IsChannelName(name: string) {
    && 1 <= |name| <= 32 && name[0] != '-' && name[|name| - 1] != '-'
    && forall i :: 0 <= i < |name| ==> StandsInName(name[i])
  }

  /** The release channel has no name of its own; every other valid one stands for itself, once trimmed. */
  lemma ValidChannels(setting: Setting, raw: string, name: string)
    requires name == setting.Trimmed(raw)
    ensures ValidateChannel(setting, raw) ==
      if name == "" || name == "release" then Success(None)
      else if IsChannelName(name) then Success(Some(name))
      else Failure(())
  {
    forall i | 0 <= i < |name| ensures InChannelName(name[i]) <==> StandsInName(name[i]) {
    }
  }

  /** A flag decides; without one a debug build is on its own channel and any other on the release channel. */
  lemma OwningChannels(setting: Setting, debugBuild: bool, raw: string)
    ensures ResolveOwningChannel(setting, debugBuild, Some(raw)) == ValidateChannel(setting, raw)
    ensures ResolveOwningChannel(setting, true, None) == Success(Some("dev"))
    ensures ResolveOwningChannel(setting, false, None) == Success(None)
  {
  }
}
