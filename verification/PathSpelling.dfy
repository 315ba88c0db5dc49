/**
 * Which spellings of a path the resolver (src-tauri/src/fs_allowlist.rs) can be trusted with
 * in every file system: a condition on the components alone, and for each path that fails it
 * a file system in which the resolver's answer leads elsewhere.
 */
module PathSpelling {
  import opened AllowedRoots
  import opened ResolvedPlaces
  import opened Wrappers

  /** How many of the names are left once each `..` has taken the name before it. */
  function Surviving(comps: seq<Component>): nat {
    if comps == [] then 0
    else
      var before := Surviving(comps[..|comps| - 1]);
      match comps[|comps| - 1]
      case ParentDir => if before == 0 then 0 else before - 1
      case Normal(_) => before + 1
  }

  /** A name directly before a `..`. */
  predicate Backtracks(comps: seq<Component>, m: int) {
    0 < m < |comps| && comps[m - 1].Normal? && comps[m].ParentDir?
  }

  /** From some such `..` on, a name is left. */
  ghost predicate ReturnsBelow(comps: seq<Component>) {
    exists m :: Backtracks(comps, m) && Surviving(comps[m..]) > 0
  }

  predicate EndsInName(comps: seq<Component>) {
    comps != [] && comps[|comps| - 1].Normal?
  }

  /** No name is left behind a name and its `..`, and no slash stands after a last name. */
  ghost predicate SettlesBySpelling(p: Absolute) {
    !ReturnsBelow(p.comps) && !(p.trailing && EndsInName(p.comps))
  }

  // ---------- Folding ----------

  lemma {:induction false} SurvivingOfMore(a: seq<Component>, b: seq<Component>)
    ensures Surviving(a + b) >= Surviving(b)
  {
    if b != [] {
      var n := |b| - 1;
      SurvivingOfMore(a, b[..n]);
      assert (a + b)[..|a| + n] == a + b[..n];
    }
  }

  /** What is folded is a front of the base, followed by surviving names. */
  lemma {:induction false} FoldKeepsFront(base: Real, comps: seq<Component>) returns (e: nat)
    ensures |base| - |comps| <= e <= |base| && |Fold(base, comps)| == e + Surviving(comps)
    ensures Fold(base, comps)[..e] == base[..e]
    ensures forall t :: e <= t < |Fold(base, comps)| ==> Normal(Fold(base, comps)[t]) in comps
    ensures comps != [] && comps[0].ParentDir? && base != [] ==> e < |base|
  {
    if comps == [] {
      e := |base|;
    } else {
      var n := |comps| - 1;
      var front := Fold(base, comps[..n]);
      e := FoldKeepsFront(base, comps[..n]);
      assert comps == comps[..n] + [comps[n]];
      match comps[n]
      case ParentDir =>
        if Surviving(comps[..n]) == 0 && e > 0 { e := e - 1; }
      case Normal(name) => assert Fold(base, comps) == front + [name];
    }
  }

  lemma {:induction false} FoldOfJoined(base: Real, a: seq<Component>, b: seq<Component>)
    ensures Fold(base, a + b) == Fold(Fold(base, a), b)
  {
    if b == [] {
      assert a + b == a;
    } else {
      var n := |b| - 1;
      FoldOfJoined(base, a, b[..n]);
      assert (a + b)[..|a| + n] == a + b[..n];
    }
  }

  /** Where no name survives, folding gives a front of the base. */
  lemma FoldsToFront(base: Real, comps: seq<Component>)
    requires Surviving(comps) == 0
    ensures Fold(base, comps) <= base
  {
    var e := FoldKeepsFront(base, comps);
    assert Fold(base, comps)[..e] == Fold(base, comps);
  }

  // ---------- Spellings that settle everywhere ----------

  lemma FirstParent(comps: seq<Component>) returns (j: nat)
    requires ParentDir in comps
    ensures j < |comps| && comps[j].ParentDir? && ParentDir !in comps[..j]
  {
    j := 0;
    while !comps[j].ParentDir?
      invariant j < |comps| && ParentDir !in comps[..j] && ParentDir in comps[j..]
      decreases |comps| - j
    {
      assert comps[..j + 1] == comps[..j] + [comps[j]];
      assert comps[j..] == [comps[j]] + comps[j + 1..];
      j := j + 1;
    }
  }

  /** A front of a real place and of missing names behind it is real or missing. */
  lemma FrontsSettle(fs: FileSystem, base: Real, names: seq<Component>, place: Real)
    requires IsReal(fs, base) && ParentDir !in names
    requires names != [] ==> StepInto(fs, base, names[0]).None?
    requires place <= Fold(base, names)
    ensures Settled(fs, place)
  {
    NamesAreAppended(base, names);
    if |place| <= |base| {
      assert place == base[..|place|];
      RealFromTheRoot(fs, base, |place|);
      RealPlacesAreTheirOwn(fs, place);
    } else {
      BeyondMissingName(fs, base, place);
    }
  }

  /** The first `..` that is folded stands behind a name. */
  lemma FoldedParentFollowsName(fs: FileSystem, comps: seq<Component>, k: nat, j: nat)
    requires WellFormed(fs) && k + j < |comps| && Walk(fs, comps[..k]).Some?
    requires StepInto(fs, Walk(fs, comps[..k]).value, comps[k]).None?
    requires comps[k + j].ParentDir? && ParentDir !in comps[k..][..j]
    ensures Backtracks(comps, k + j)
  {
    if j == 0 {
      FilesAreReachedByName(fs, comps[..k]);
    } else {
      assert comps[k..][..j][j - 1] == comps[k + j - 1];
    }
  }

  lemma FoldedParentSettles(fs: FileSystem, p: Absolute, k: nat, base: Real)
    requires WellFormed(fs) && k == Stop(fs, p) && FoldsParent(fs, p) && !OnlyTrailing(fs, p)
    requires !ReturnsBelow(p.comps)
    requires Walk(fs, p.comps[..k]) == Some(base) && StepInto(fs, base, p.comps[k]).None?
    ensures Settled(fs, Fold(base, p.comps[k..]))
  {
    var rest := p.comps[k..];
    var j := FirstParent(rest);
    FoldedParentFollowsName(fs, p.comps, k, j);
    assert p.comps[k + j..] == rest[j..];
    assert rest == rest[..j] + rest[j..];
    FoldOfJoined(base, rest[..j], rest[j..]);
    FoldsToFront(Fold(base, rest[..j]), rest[j..]);
    WalkIsReal(fs, p.comps[..k]);
    FrontsSettle(fs, base, rest[..j], Fold(base, rest));
  }

  lemma SpellingSuffices(fs: FileSystem, p: Absolute)
    requires WellFormed(fs) && SettlesBySpelling(p)
    ensures Settled(fs, Resolve(Canonicalizer(fs), p))
  {
    var k := Stop(fs, p);
    if OnlyTrailing(fs, p) {
      FilesAreReachedByName(fs, p.comps);
      assert false;
    } else if k == |p.comps| {
      WholePathSettles(fs, p);
    } else if !FoldsParent(fs, p) {
      PeeledNamesSettle(fs, p, k);
    } else {
      StopsAtNothing(fs, p, k);
      assert Prefix(p, k).comps == p.comps[..k];
      FoldedParentSettles(fs, p, k, Walk(fs, p.comps[..k]).value);
    }
  }

  // ---------- A file system for every other spelling ----------

  /**
   * Directories down to `r` and `l` and to the file `x`; in `r` the name `c` is a link to the
   * file, in `l` the name `s` is a link to the root.
   */
  function TwoLinks(r: Real, c: Name, l: Real, s: Name, x: Real): FileSystem {
    FileSystem(
      (at, name) =>
        if at == r && name == c then Some(x)
        else if at == l && name == s then Some([])
        else if Made(r, l, x, at + [name]) then Some(at + [name])
        else None,
      at => Made(r, l, x, at) && at != x)
  }

  predicate Made(r: Real, l: Real, x: Real, place: Real) {
    place <= r || place <= l || place <= x
  }

  /** The file is nothing's parent, and the links stand where nothing else was made. */
  predicate Apart(r: Real, c: Name, l: Real, s: Name, x: Real) {
    && x != [] && !(x <= r) && !(x <= l)
    && !Made(r, l, x, r + [c]) && !Made(r, l, x, l + [s])
  }

  lemma {:induction false} MadeIsReal(r: Real, c: Name, l: Real, s: Name, x: Real, place: Real)
    requires Apart(r, c, l, s, x) && Made(r, l, x, place)
    ensures IsReal(TwoLinks(r, c, l, s, x), place)
  {
    if place != [] {
      var n := |place| - 1;
      var front := place[..n];
      assert place == front + [place[n]];
      assert front <= place;
      MadeIsReal(r, c, l, s, x, front);
    }
  }

  lemma TwoLinksIsWellFormed(r: Real, c: Name, l: Real, s: Name, x: Real)
    requires Apart(r, c, l, s, x)
    ensures WellFormed(TwoLinks(r, c, l, s, x))
  {
    var fs := TwoLinks(r, c, l, s, x);
    forall at, name | fs.lookup(at, name).Some? ensures IsReal(fs, fs.lookup(at, name).value) {
      MadeIsReal(r, c, l, s, x, fs.lookup(at, name).value);
    }
  }

  /** Each `..` comes before each name. */
  ghost predicate ParentsFirst(comps: seq<Component>) {
    forall m :: !Backtracks(comps, m)
  }

  lemma {:induction false} OnlyParentsFoldAway(comps: seq<Component>)
    requires ParentsFirst(comps) && !EndsInName(comps)
    ensures Fold([], comps) == []
  {
    if comps != [] {
      var front := comps[..|comps| - 1];
      assert forall m :: Backtracks(front, m) ==> Backtracks(comps, m);
      assert EndsInName(front) ==> Backtracks(comps, |comps| - 1);
      OnlyParentsFoldAway(front);
    }
  }

  lemma {:induction false} WalkFolds(r: Real, c: Name, l: Real, s: Name, x: Real, comps: seq<Component>)
    requires Apart(r, c, l, s, x) && ParentsFirst(comps) && Fold([], comps) <= r
    ensures Walk(TwoLinks(r, c, l, s, x), comps) == Some(Fold([], comps))
  {
    if comps != [] {
      var n := |comps| - 1;
      var front := comps[..n];
      assert forall m :: Backtracks(front, m) ==> Backtracks(comps, m);
      if comps[n].ParentDir? {
        assert EndsInName(front) ==> Backtracks(comps, n);
        OnlyParentsFoldAway(front);
      }
      WalkFolds(r, c, l, s, x, front);
    }
  }

  /** A name the path does not use. */
  function NewName(comps: seq<Component>): (q: Name)
    ensures q != "" && forall name :: Normal(name) in comps ==> |name| < |q|
  {
    if comps == [] then "q"
    else
      assert comps == [comps[0]] + comps[1..];
      var rest := NewName(comps[1..]);
      match comps[0]
      case ParentDir => rest
      case Normal(name) => name + rest
  }

  /** A place far below the root under a name that is not in the path. */
  ghost predicate FarAway(comps: seq<Component>, x: Real) {
    |x| >= 2 * |comps| + 1 && forall t :: 0 <= t < |x| ==> Normal(x[t]) !in comps
  }

  lemma SomewhereFarAway(comps: seq<Component>) returns (x: Real)
    ensures FarAway(comps, x)
  {
    x := seq(2 * |comps| + 1, _ => NewName(comps));
  }

  /** Up to the link the path stays on what was made; the link leads to the file. */
  lemma WalkToFile(r: Real, c: Name, l: Real, s: Name, x: Real, comps: seq<Component>, i: nat)
    requires Apart(r, c, l, s, x) && i < |comps| && comps[i] == Normal(c)
    requires ParentsFirst(comps[..i]) && r == Fold([], comps[..i])
    ensures Walk(TwoLinks(r, c, l, s, x), comps[..i]) == Some(r)
    ensures Walk(TwoLinks(r, c, l, s, x), comps[..i + 1]) == Some(x)
  {
    WalkFolds(r, c, l, s, x, comps[..i]);
    assert comps[..i + 1][..i] == comps[..i];
  }

  lemma StopsAtFile(fs: FileSystem, p: Absolute, m: nat, x: Real)
    requires WellFormed(fs) && m < |p.comps| && Walk(fs, p.comps[..m]) == Some(x) && !fs.isDir(x)
    ensures Resolve(Canonicalizer(fs), p) == Fold(x, p.comps[m..])
  {
    forall j: nat | m < j <= |p.comps| ensures Canonical(fs, Prefix(p, j)).None? {
      assert p.comps[..m + 1][..m] == p.comps[..m];
      assert p.comps[..j][..m + 1] == p.comps[..m + 1];
      assert Prefix(p, j).comps == p.comps[..j];
      NothingBeyond(fs, p.comps[..j], m + 1);
    }
    ResolvesFrom(fs, p, m, x);
  }

  /** The folded place ends in names of the path below a front of the far-away place. */
  lemma FoldedPlaceIsApart(r: Real, c: Name, l: Real, s: Name, x: Real, comps: seq<Component>, rest: seq<Component>)
    requires FarAway(comps, x) && |r| < |comps| && Normal(c) in comps
    requires |rest| < |comps| && (forall b :: b in rest ==> b in comps)
    requires rest != [] && rest[0].ParentDir? && Surviving(rest) > 0 && Fold(x, rest) == l + [s]
    ensures Apart(r, c, l, s, x) && |r| < |l|
  {
    var place := Fold(x, rest);
    var e := FoldKeepsFront(x, rest);
    assert |r| < e < |x| && e <= |l|;
    assert l[..e] == place[..e] == x[..e];
    assert l[|r|] == l[..e][|r|] == x[..e][|r|] == x[|r|];
    assert Normal(place[e]) in rest && Normal(place[|l|]) in rest;
    assert e < |l| ==> l[e] == place[e];
  }

  lemma LinkBelowReal(r: Real, c: Name, l: Real, s: Name, x: Real)
    requires Apart(r, c, l, s, x) && |r| < |l|
    ensures !Settled(TwoLinks(r, c, l, s, x), l + [s])
  {
    var fs := TwoLinks(r, c, l, s, x);
    MadeIsReal(r, c, l, s, x, l);
    SettledBelow(fs, l, s);
  }

  lemma {:induction false} FoldIsNoLonger(base: Real, comps: seq<Component>)
    ensures |Fold(base, comps)| <= |base| + |comps|
  {
    if comps != [] {
      FoldIsNoLonger(base, comps[..|comps| - 1]);
    }
  }

  /** A name that is left behind a name and its `..` can be a link, with the first such name one to a file. */
  lemma ReturningLeadsElsewhere(p: Absolute, m: nat) returns (fs: FileSystem)
    requires Backtracks(p.comps, m) && ParentsFirst(p.comps[..m]) && Surviving(p.comps[m..]) > 0
    ensures WellFormed(fs) && !Settled(fs, Resolve(Canonicalizer(fs), p))
  {
    var x := SomewhereFarAway(p.comps);
    var i, rest := m - 1, p.comps[m..];
    assert p.comps[..m][..i] == p.comps[..i];
    assert forall t :: Backtracks(p.comps[..i], t) ==> Backtracks(p.comps[..m], t);
    var r, c := Fold([], p.comps[..i]), p.comps[i].name;
    FoldIsNoLonger([], p.comps[..i]);
    var place := Fold(x, rest);
    var e := FoldKeepsFront(x, rest);
    var l, s := place[..|place| - 1], place[|place| - 1];
    assert place == l + [s];
    assert p.comps[i] in p.comps && rest[0] == p.comps[m];
    FoldedPlaceIsApart(r, c, l, s, x, p.comps, rest);
    fs := TwoLinks(r, c, l, s, x);
    TwoLinksIsWellFormed(r, c, l, s, x);
    WalkToFile(r, c, l, s, x, p.comps, i);
    StopsAtFile(fs, p, m, x);
    LinkBelowReal(r, c, l, s, x);
  }

  /** A last name with a slash behind it can be a link to a file. */
  lemma SlashLeadsElsewhere(p: Absolute) returns (fs: FileSystem)
    requires p.trailing && EndsInName(p.comps) && ParentsFirst(p.comps)
    ensures WellFormed(fs) && !Settled(fs, Resolve(Canonicalizer(fs), p))
  {
    var x := SomewhereFarAway(p.comps);
    var i := |p.comps| - 1;
    assert forall t :: Backtracks(p.comps[..i], t) ==> Backtracks(p.comps, t);
    var r, c := Fold([], p.comps[..i]), p.comps[i].name;
    FoldIsNoLonger([], p.comps[..i]);
    assert p.comps[i] in p.comps;
    assert Normal(x[|r|]) !in p.comps && (r + [c])[|r|] == c;
    assert Apart(r, c, r, c, x);
    fs := TwoLinks(r, c, r, c, x);
    TwoLinksIsWellFormed(r, c, r, c, x);
    WalkToFile(r, c, r, c, x, p.comps, i);
    assert p.comps[..i + 1] == p.comps;
    DroppedSlashResolves(fs, p, i, r, c);
    MadeIsReal(r, c, r, c, x, r);
    SettledBelow(fs, r, c);
  }

  /** The first `..` behind a name. */
  lemma FirstBacktrack(comps: seq<Component>) returns (m: nat)
    requires !ParentsFirst(comps)
    ensures Backtracks(comps, m) && ParentsFirst(comps[..m])
    ensures forall j :: Backtracks(comps, j) ==> m <= j
  {
    m := 0;
    while !Backtracks(comps, m)
      invariant forall j :: Backtracks(comps, j) ==> m <= j
      decreases |comps| - m
    {
      m := m + 1;
    }
    forall j ensures !Backtracks(comps[..m], j) {
      assert Backtracks(comps[..m], j) ==> Backtracks(comps, j);
    }
  }

  /** A last name is left wherever the folding starts. */
  lemma LastNameSurvives(comps: seq<Component>, m: nat, rest: seq<Component>)
    requires m < |comps| && EndsInName(comps) && rest == comps[m..]
    ensures Surviving(rest) > 0
  {
    assert rest[|rest| - 1] == comps[|comps| - 1];
  }

  lemma FirstBacktrackSurvives(p: Absolute, m: nat)
    requires !SettlesBySpelling(p) && Backtracks(p.comps, m)
    requires forall j :: Backtracks(p.comps, j) ==> m <= j
    ensures Surviving(p.comps[m..]) > 0
  {
    if ReturnsBelow(p.comps) {
      var j :| Backtracks(p.comps, j) && Surviving(p.comps[j..]) > 0;
      assert p.comps[m..] == p.comps[m..j] + p.comps[j..];
      SurvivingOfMore(p.comps[m..j], p.comps[j..]);
    } else {
      LastNameSurvives(p.comps, m, p.comps[m..]);
    }
  }

  lemma SpellingIsNeeded(p: Absolute) returns (fs: FileSystem)
    requires !SettlesBySpelling(p)
    ensures WellFormed(fs) && !Settled(fs, Resolve(Canonicalizer(fs), p))
  {
    if ParentsFirst(p.comps) {
      fs := SlashLeadsElsewhere(p);
    } else {
      var m := FirstBacktrack(p.comps);
      FirstBacktrackSurvives(p, m);
      fs := ReturningLeadsElsewhere(p, m);
    }
  }

  /**
   * A path resolves to its own canonical form, or to nothing, in every file system exactly
   * when its spelling says so.
   */
  lemma SettlingIsSpelled(p: Absolute)
    ensures SettlesBySpelling(p) <==>
      forall fs :: WellFormed(fs) ==> Settled(fs, Resolve(Canonicalizer(fs), p))
  {
    if SettlesBySpelling(p) {
      forall fs | WellFormed(fs) ensures Settled(fs, Resolve(Canonicalizer(fs), p)) {
        SpellingSuffices(fs, p);
      }
    } else {
      var fs := SpellingIsNeeded(p);
    }
  }

  /** So for such a spelling, what the read gate lets by leads below an allowed root if it exists. */
  lemma SpelledPathsStayWithin(fs: FileSystem, path: string, cwd: string, roots: seq<Real>)
    requires WellFormed(fs) && SettlesBySpelling(Parse(ToAbsoluteRaw(path, cwd)))
    ensures var r := ReadGate(Canonicalizer(fs), Parse(ToAbsoluteRaw(path, cwd)), roots);
      r.Success? && Canonical(fs, AsPath(r.value)).Some? ==> Within(Canonical(fs, AsPath(r.value)).value, roots)
  {
    SpellingSuffices(fs, Parse(ToAbsoluteRaw(path, cwd)));
  }
}
