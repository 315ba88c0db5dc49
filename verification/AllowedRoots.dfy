/**
 * The gates in front of every file command (src-tauri/src/fs_allowlist.rs): a resolver that
 * peels components until the rest can be canonicalized and puts them back lexically, and
 * the two checks built on it.
 */
module AllowedRoots {
  import opened Wrappers

  type Name = string

  /** A component of an absolute path after the root. */
  datatype Component = ParentDir | Normal(name: Name)

  /** A resolved path: the names from the root down. */
  type Real = seq<Name>

  /**
   * An absolute path as `components` sees it, and whether it was written with something
   * after its last component (a slash or `/.`), which only the system calls can tell.
   */
  datatype Absolute = Absolute(comps: seq<Component>, trailing: bool)

  /** `canonicalize`: where the path leads, if it exists. */
  type Canonicalize = Absolute -> Option<Real>

  // ---------- Strings to components ----------

  function SplitSlash(s: string): (r: seq<string>)
    ensures r != []
  {
    if s == "" then [""]
    else
      var rest := SplitSlash(s[1..]);
      if s[0] == '/' then [""] + rest else [[s[0]] + rest[0]] + rest[1..]
  }

  /** Empty segments and single dots name nothing. */
  function Components(segments: seq<string>): seq<Component> {
    if segments == [] then []
    else
      var rest := Components(segments[1..]);
      if segments[0] == "" || segments[0] == "." then rest
      else [if segments[0] == ".." then ParentDir else Normal(segments[0])] + rest
  }

  /** `to_absolute_raw`: a relative path is appended to the current directory. */
  function ToAbsoluteRaw(input: string, cwd: string): string {
    if input != "" && input[0] == '/' then input else cwd + "/" + input
  }

  function Parse(raw: string): Absolute {
    var segments := SplitSlash(raw);
    var last := segments[|segments| - 1];
    Absolute(Components(segments), last == "" || last == ".")
  }

  // ---------- The resolver ----------

  /** `append_tail` one component at a time: `..` pops, and pops nothing at the root. */
  function Fold(base: Real, comps: seq<Component>): Real {
    if comps == [] then base
    else
      var front := Fold(base, comps[..|comps| - 1]);
      match comps[|comps| - 1]
      case ParentDir => if front == [] then [] else front[..|front| - 1]
      case Normal(name) => front + [name]
  }

  /** The first `k` components; only the whole path keeps what was written after it. */
  function Prefix(p: Absolute, k: nat): Absolute
    requires k <= |p.comps|
  {
    if k == |p.comps| then p else Absolute(p.comps[..k], false)
  }

  /** The length of the longest prefix, of at most `n` components, that can be canonicalized. */
  ghost function Longest(canonicalize: Canonicalize, p: Absolute, n: nat): (k: Option<nat>)
    requires n <= |p.comps|
    ensures k.Some? ==> k.value <= n && canonicalize(Prefix(p, k.value)).Some?
    ensures forall j: nat :: j <= n && (k.Some? ==> k.value < j) ==> canonicalize(Prefix(p, j)).None?
  {
    if canonicalize(Prefix(p, n)).Some? then Some(n)
    else if n == 0 then None
    else Longest(canonicalize, p, n - 1)
  }

  /**
   * What the resolver is for: the canonical form of the longest prefix that has one, with
   * the components after it folded on; with no such prefix, everything folded onto the root.
   */
  ghost function Resolve(canonicalize: Canonicalize, p: Absolute): Real {
    match Longest(canonicalize, p, |p.comps|)
    case Some(k) => Fold(canonicalize(Prefix(p, k)).value, p.comps[k..])
    case None => Fold([], p.comps)
  }

  function Reversed(s: seq<Component>): (r: seq<Component>)
    ensures |r| == |s|
    ensures forall i :: 0 <= i < |s| ==> r[i] == s[|s| - 1 - i]
  {
    if s == [] then [] else Reversed(s[1..]) + [s[0]]
  }

  /** `tail` was pushed from the last component inward, so it is read back to front. */
  method AppendTail(base: Real, tail: seq<Component>) returns (result: Real)
    ensures result == Fold(base, Reversed(tail))
  {
    result := base;
    ghost var comps := Reversed(tail);
    var i := |tail|;
    while i > 0
      invariant 0 <= i <= |tail|
      invariant result == Fold(base, comps[..|tail| - i])
    {
      i := i - 1;
      var component := tail[i];
      ghost var n := |tail| - i;
      assert comps[..n][..n - 1] == comps[..n - 1] && comps[..n][n - 1] == component;
      match component
      case ParentDir =>
        if result != [] { result := result[..|result| - 1]; }
      case Normal(name) => result := result + [name];
    }
    assert comps[..|tail|] == comps;
  }

  lemma ReversedGrows(tail: seq<Component>, last: Component)
    ensures Reversed(tail + [last]) == [last] + Reversed(tail)
  {
  }

  /** The state of the peeling: `p` is the prefix of `k` components, `tail` what came off. */
  ghost predicate Peeled(canonicalize: Canonicalize, absolute: Absolute, p: Absolute, tail: seq<Component>) {
    var k := |p.comps|;
    && k <= |absolute.comps|
    && p == Prefix(absolute, k)
    && Reversed(tail) == absolute.comps[k..]
    && Longest(canonicalize, absolute, |absolute.comps|) == Longest(canonicalize, absolute, k)
  }

  /** Peels the path until what is left can be canonicalized, or nothing is left. */
  method RealOrNearestAncestorOf(canonicalize: Canonicalize, absolute: Absolute) returns (r: Real)
    ensures r == Resolve(canonicalize, absolute)
  {
    var p := absolute;
    var tail: seq<Component> := [];
    while canonicalize(p).None? && p.comps != []
      invariant Peeled(canonicalize, absolute, p, tail)
      decreases |p.comps|
    {
      var m := |p.comps| - 1;
      ReversedGrows(tail, p.comps[m]);
      assert absolute.comps[m..] == [absolute.comps[m]] + absolute.comps[m + 1..];
      assert p.comps[..m] == absolute.comps[..m];
      tail := tail + [p.comps[m]];
      p := Absolute(p.comps[..m], false);
    }
    match canonicalize(p)
    case Some(found) => r := AppendTail(found, tail);
    case None =>
      assert absolute.comps[0..] == absolute.comps;
      r := AppendTail([], tail);
  }

  // ---------- The gates ----------

  datatype Refusal = Outside | NotAnEntryName

  predicate StartsWith(resolved: Real, root: Real) {
    root <= resolved
  }

  /** `check_within` */
  predicate Within(resolved: Real, roots: seq<Real>) {
    exists k :: 0 <= k < |roots| && StartsWith(resolved, roots[k])
  }

  /** The read gate: the resolved path, if it is a root or below one. */
  ghost function ReadGate(canonicalize: Canonicalize, p: Absolute, roots: seq<Real>): Result<Real, Refusal> {
    var resolved := Resolve(canonicalize, p);
    if Within(resolved, roots) then Success(resolved) else Failure(Outside)
  }

  method AssertWithinAllowedRoots(canonicalize: Canonicalize, path: string, cwd: string, roots: seq<Real>)
    returns (r: Result<Real, Refusal>)
    ensures r == ReadGate(canonicalize, Parse(ToAbsoluteRaw(path, cwd)), roots)
  {
    var resolved := RealOrNearestAncestorOf(canonicalize, Parse(ToAbsoluteRaw(path, cwd)));
    r := if Within(resolved, roots) then Success(resolved) else Failure(Outside);
  }

  /** `path.trim_end_matches('/').rsplit('/').next()` */
  function LastSegment(path: string): string {
    if path != "" && path[|path| - 1] == '/' then LastSegment(path[..|path| - 1])
    else
      var segments := SplitSlash(path);
      segments[|segments| - 1]
  }

  predicate NamesNoEntry(segment: string) {
    segment == "" || segment == "." || segment == ".."
  }

  /** The path without its last component. */
  function Parent(p: Absolute): Absolute
    requires p.comps != []
  {
    Absolute(p.comps[..|p.comps| - 1], false)
  }

  /** The entry gate: the last component stays as written, only its parent is resolved. */
  ghost function EntryGate(canonicalize: Canonicalize, path: string, cwd: string, roots: seq<Real>): Result<Real, Refusal> {
    var p := Parse(ToAbsoluteRaw(path, cwd));
    if NamesNoEntry(LastSegment(path)) || p.comps == [] || !p.comps[|p.comps| - 1].Normal? then Failure(NotAnEntryName)
    else
      var parent := Resolve(canonicalize, Parent(p));
      if Within(parent, roots) then Success(parent + [p.comps[|p.comps| - 1].name]) else Failure(Outside)
  }

  method AssertEntryWithinAllowedRoots(canonicalize: Canonicalize, path: string, cwd: string, roots: seq<Real>)
    returns (r: Result<Real, Refusal>)
    ensures r == EntryGate(canonicalize, path, cwd, roots)
  {
    if NamesNoEntry(LastSegment(path)) {
      return Failure(NotAnEntryName);
    }
    var absolute := Parse(ToAbsoluteRaw(path, cwd));
    if absolute.comps == [] || !absolute.comps[|absolute.comps| - 1].Normal? {
      return Failure(NotAnEntryName);
    }
    var parentReal := RealOrNearestAncestorOf(canonicalize, Parent(absolute));
    if !Within(parentReal, roots) {
      return Failure(Outside);
    }
    return Success(parentReal + [absolute.comps[|absolute.comps| - 1].name]);
  }

  // ---------- The last segment and the last component ----------

  lemma {:induction false} SplitJoins(a: string, b: string)
    ensures SplitSlash(a + "/" + b) == SplitSlash(a) + SplitSlash(b)
  {
    var s := a + "/" + b;
    if a == "" {
      assert s[1..] == b;
    } else {
      assert s[1..] == a[1..] + "/" + b;
      SplitJoins(a[1..], b);
    }
  }

  lemma {:induction false} ComponentsJoin(a: seq<string>, b: seq<string>)
    ensures Components(a + b) == Components(a) + Components(b)
  {
    if a == [] {
      assert a + b == b;
    } else {
      assert (a + b)[1..] == a[1..] + b;
      ComponentsJoin(a[1..], b);
    }
  }

  /** An entry name at the end of the path is its last component. */
  lemma {:induction false} LastSegmentIsLastComponent(path: string)
    requires !NamesNoEntry(LastSegment(path))
    ensures var comps := Components(SplitSlash(path));
      comps != [] && comps[|comps| - 1] == Normal(LastSegment(path))
  {
    var n := |path| - 1;
    if path != "" && path[n] == '/' {
      LastSegmentIsLastComponent(path[..n]);
      assert path == path[..n] + "/" + "";
      SplitJoins(path[..n], "");
      ComponentsJoin(SplitSlash(path[..n]), [""]);
    } else {
      var segments := SplitSlash(path);
      var front, last := segments[..|segments| - 1], segments[|segments| - 1];
      assert segments == front + [last];
      ComponentsJoin(front, [last]);
      assert Components([last]) == [Normal(last)];
    }
  }

  /** Made absolute, a path keeps its own components at the end. */
  lemma AbsoluteKeepsComponents(path: string, cwd: string, raw: string) returns (front: seq<Component>)
    requires raw == ToAbsoluteRaw(path, cwd)
    ensures Components(SplitSlash(raw)) == front + Components(SplitSlash(path))
  {
    if raw == path {
      front := [];
    } else {
      front := Components(SplitSlash(cwd));
      SplitJoins(cwd, path);
      ComponentsJoin(SplitSlash(cwd), SplitSlash(path));
    }
  }

  lemma LastOfJoined(front: seq<Component>, own: seq<Component>, all: seq<Component>, last: Component)
    requires all == front + own && own != [] && own[|own| - 1] == last
    ensures all != [] && all[|all| - 1] == last
  {
  }

  lemma AbsoluteKeepsLast(path: string, cwd: string, raw: string, own: seq<Component>, all: seq<Component>, last: Component)
    requires raw == ToAbsoluteRaw(path, cwd)
    requires own == Components(SplitSlash(path)) && all == Components(SplitSlash(raw))
    requires own != [] && own[|own| - 1] == last
    ensures all != [] && all[|all| - 1] == last
  {
    var front := AbsoluteKeepsComponents(path, cwd, raw);
    LastOfJoined(front, own, all, last);
  }

  /** So the gate's own check of the last component never refuses what its first check let by. */
  lemma EntryNameIsKnownOnce(path: string, cwd: string)
    requires !NamesNoEntry(LastSegment(path))
    ensures var comps := Parse(ToAbsoluteRaw(path, cwd)).comps;
      comps != [] && comps[|comps| - 1] == Normal(LastSegment(path))
  {
    LastSegmentIsLastComponent(path);
    var raw := ToAbsoluteRaw(path, cwd);
    AbsoluteKeepsLast(path, cwd, raw, Components(SplitSlash(path)), Components(SplitSlash(raw)), Normal(LastSegment(path)));
  }

  // ---------- What the strings say ----------

  /** The segments with slashes between them. */
  function JoinSlash(segments: seq<string>): string
    requires segments != []
  {
    if |segments| == 1 then segments[0] else segments[0] + "/" + JoinSlash(segments[1..])
  }

  /** Splitting takes a text apart at its slashes, all of them, and nowhere else. */
  lemma {:induction false} SplittingIsExact(s: string)
    ensures JoinSlash(SplitSlash(s)) == s
    ensures forall i :: 0 <= i < |SplitSlash(s)| ==> '/' !in SplitSlash(s)[i]
  {
    SegmentsHaveNoSlash(s);
    if s != "" {
      SplittingIsExact(s[1..]);
      var rest := SplitSlash(s[1..]);
      var all := SplitSlash(s);
      assert s == [s[0]] + s[1..];
      if s[0] == '/' {
        assert all == [""] + rest && all[1..] == rest && |all| > 1;
      } else {
        assert all[1..] == rest[1..] && all[0] == [s[0]] + rest[0];
      }
    }
  }

  /** A relative path stands below the current directory, an absolute one for itself. */
  lemma RelativeStandsBelowCwd(path: string, cwd: string)
    ensures path != "" && path[0] == '/' ==>
      Parse(ToAbsoluteRaw(path, cwd)).comps == Components(SplitSlash(path))
    ensures path == "" || path[0] != '/' ==>
      Parse(ToAbsoluteRaw(path, cwd)).comps == Components(SplitSlash(cwd)) + Components(SplitSlash(path))
  {
    if path == "" || path[0] != '/' {
      SplitJoins(cwd, path);
      ComponentsJoin(SplitSlash(cwd), SplitSlash(path));
    }
  }

  lemma {:induction false} NoSlashIsOneSegment(s: string)
    requires '/' !in s
    ensures SplitSlash(s) == [s]
  {
    if s != "" {
      NoSlashIsOneSegment(s[1..]);
      assert s == [s[0]] + s[1..];
    }
  }

  lemma LastOfSplit(front: string, segment: string, raw: string)
    requires raw == front + "/" + segment && '/' !in segment
    ensures SplitSlash(raw)[|SplitSlash(raw)| - 1] == segment
  {
    SplitJoins(front, segment);
    NoSlashIsOneSegment(segment);
  }

  /** What the system calls can tell apart: a slash, or a slash and a dot, behind the last component. */
  lemma TrailingIsWritten(front: string, segment: string, raw: string)
    requires raw == front + "/" + segment && '/' !in segment
    ensures Parse(raw).trailing <==> segment == "" || segment == "."
  {
    LastOfSplit(front, segment, raw);
  }

  /** Segments that are no `.` and not empty are the components, in their order; `..` goes up. */
  lemma {:induction false} SegmentsAreComponents(segments: seq<string>)
    requires forall i :: 0 <= i < |segments| ==> segments[i] != "" && segments[i] != "."
    ensures |Components(segments)| == |segments|
    ensures forall i :: 0 <= i < |segments| ==>
      Components(segments)[i] == if segments[i] == ".." then ParentDir else Normal(segments[i])
  {
    if segments != [] {
      SegmentsAreComponents(segments[1..]);
    }
  }

  /** The read gate lets by exactly what resolves to a root or below one. */
  lemma ReadGateLetsBy(canonicalize: Canonicalize, p: Absolute, roots: seq<Real>)
    ensures var r := ReadGate(canonicalize, p, roots);
      && (r.Success? <==> exists k :: 0 <= k < |roots| && roots[k] <= Resolve(canonicalize, p))
      && (r.Success? ==> r.value == Resolve(canonicalize, p))
  {
    forall k | 0 <= k < |roots| && roots[k] <= Resolve(canonicalize, p) ensures StartsWith(Resolve(canonicalize, p), roots[k]) {
    }
  }

  // ---------- What resolution gives ----------

  /** A name that can stand in a resolved path. */
  predicate IsName(name: Name) {
    name != "" && name != "." && name != ".." && '/' !in name
  }

  ghost predicate Clean(r: Real) {
    forall i :: 0 <= i < |r| ==> IsName(r[i])
  }

  ghost predicate CleanComponents(comps: seq<Component>) {
    forall i :: 0 <= i < |comps| && comps[i].Normal? ==> IsName(comps[i].name)
  }

  lemma {:induction false} SegmentsHaveNoSlash(s: string)
    ensures forall i :: 0 <= i < |SplitSlash(s)| ==> '/' !in SplitSlash(s)[i]
  {
    if s != "" {
      SegmentsHaveNoSlash(s[1..]);
    }
  }

  lemma {:induction false} ComponentsAreClean(segments: seq<string>)
    requires forall i :: 0 <= i < |segments| ==> '/' !in segments[i]
    ensures CleanComponents(Components(segments))
  {
    if segments != [] {
      ComponentsAreClean(segments[1..]);
    }
  }

  lemma {:induction false} FoldIsClean(base: Real, comps: seq<Component>)
    requires Clean(base) && CleanComponents(comps)
    ensures Clean(Fold(base, comps))
  {
    if comps != [] {
      FoldIsClean(base, comps[..|comps| - 1]);
    }
  }

  /** No `..` survives resolution, whatever the path, as long as none comes from the system. */
  lemma ResolvedIsClean(canonicalize: Canonicalize, raw: string)
    requires forall p :: canonicalize(p).Some? ==> Clean(canonicalize(p).value)
    ensures Clean(Resolve(canonicalize, Parse(raw)))
  {
    SegmentsHaveNoSlash(raw);
    ComponentsAreClean(SplitSlash(raw));
    var p := Parse(raw);
    match Longest(canonicalize, p, |p.comps|)
    case Some(k) => FoldIsClean(canonicalize(Prefix(p, k)).value, p.comps[k..]);
    case None => FoldIsClean([], p.comps);
  }

  lemma PrefixesOfParent(canonicalize: Canonicalize, p: Absolute, n: nat)
    requires p.comps != [] && n < |p.comps|
    ensures Longest(canonicalize, p, n) == Longest(canonicalize, Parent(p), n)
  {
    assert p.comps[..n] == Parent(p).comps[..n];
    assert Prefix(p, n) == Prefix(Parent(p), n);
    if n > 0 {
      PrefixesOfParent(canonicalize, p, n - 1);
    }
  }

  lemma FoldEndsWithName(base: Real, comps: seq<Component>, k: nat)
    requires k < |comps| && comps[|comps| - 1].Normal?
    ensures Fold(base, comps[k..]) == Fold(base, comps[k..|comps| - 1]) + [comps[|comps| - 1].name]
  {
    assert comps[k..][..|comps| - 1 - k] == comps[k..|comps| - 1];
  }

  /** A path that does not exist resolves to its parent's resolution and its last name. */
  lemma MissingResolvesThroughParent(canonicalize: Canonicalize, p: Absolute)
    requires p.comps != [] && p.comps[|p.comps| - 1].Normal? && canonicalize(p).None?
    ensures Resolve(canonicalize, p) == Resolve(canonicalize, Parent(p)) + [p.comps[|p.comps| - 1].name]
  {
    var n := |p.comps| - 1;
    PrefixesOfParent(canonicalize, p, n);
    match Longest(canonicalize, p, n)
    case Some(k) =>
      FoldEndsWithName(canonicalize(Prefix(p, k)).value, p.comps, k);
      assert Parent(p).comps[k..] == p.comps[k..n];
      assert Parent(p).comps[..k] == p.comps[..k] && Prefix(p, k) == Prefix(Parent(p), k);
    case None =>
      FoldEndsWithName([], p.comps, 0);
      assert p.comps[0..] == p.comps && p.comps[0..n] == Parent(p).comps;
  }

  /** The last component is a link: following it leaves the place its parent and name give. */
  ghost predicate LeadsElsewhere(canonicalize: Canonicalize, p: Absolute)
    requires p.comps != [] && p.comps[|p.comps| - 1].Normal?
  {
    && canonicalize(p).Some?
    && canonicalize(p).value != Resolve(canonicalize, Parent(p)) + [p.comps[|p.comps| - 1].name]
  }

  /**
   * The two gates speak of the same place exactly when the last component is not a link.
   * Then the entry gate lets by precisely what lies strictly below a root, where the read
   * gate also lets by the roots themselves.
   */
  lemma GatesAgree(canonicalize: Canonicalize, path: string, cwd: string, roots: seq<Real>)
    requires !NamesNoEntry(LastSegment(path))
    ensures var p := Parse(ToAbsoluteRaw(path, cwd));
      && p.comps != [] && p.comps[|p.comps| - 1].Normal?
      && var place := Resolve(canonicalize, Parent(p)) + [p.comps[|p.comps| - 1].name];
      && (Resolve(canonicalize, p) == place <==> !LeadsElsewhere(canonicalize, p))
      && EntryGate(canonicalize, path, cwd, roots) ==
         (if exists k :: 0 <= k < |roots| && roots[k] < place then Success(place) else Failure(Outside))
      && (!LeadsElsewhere(canonicalize, p) && EntryGate(canonicalize, path, cwd, roots).Success? ==>
          ReadGate(canonicalize, p, roots) == EntryGate(canonicalize, path, cwd, roots))
  {
    var p := Parse(ToAbsoluteRaw(path, cwd));
    EntryNameIsKnownOnce(path, cwd);
    var n := |p.comps| - 1;
    if canonicalize(p).Some? {
      assert p.comps[n + 1..] == [];
    } else {
      MissingResolvesThroughParent(canonicalize, p);
    }
    var parent := Resolve(canonicalize, Parent(p));
    var place := parent + [p.comps[n].name];
    forall k | 0 <= k < |roots| ensures StartsWith(parent, roots[k]) <==> roots[k] < place {
      BelowIsWithinParent(parent, p.comps[n].name, roots[k]);
    }
  }

  lemma BelowIsWithinParent(parent: Real, name: Name, root: Real)
    ensures root <= parent <==> root < parent + [name]
  {
    if root < parent + [name] {
      assert (parent + [name])[..|root|] == parent[..|root|];
    }
  }
}
