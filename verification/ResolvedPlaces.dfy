/**
 * Where resolved paths are (src-tauri/src/fs_allowlist.rs over a file system with links):
 * when the resolver's lexical answer is the place the system itself would lead to.
 */
module ResolvedPlaces {
  import opened AllowedRoots
  import opened Wrappers

  /** Where an entry of a real directory leads, links followed, and which real places are directories. */
  datatype FileSystem = FileSystem(lookup: (Real, Name) -> Option<Real>, isDir: Real -> bool)

  function StepInto(fs: FileSystem, at: Real, component: Component): Option<Real> {
    if !fs.isDir(at) then None
    else match component
      case ParentDir => Some(if at == [] then [] else at[..|at| - 1])
      case Normal(name) => fs.lookup(at, name)
  }

  /** Following the components from the root. */
  function Walk(fs: FileSystem, comps: seq<Component>): Option<Real> {
    if comps == [] then Some([])
    else match Walk(fs, comps[..|comps| - 1])
      case None => None
      case Some(at) => StepInto(fs, at, comps[|comps| - 1])
  }

  /** `canonicalize`: a path written with a slash at its end must lead to a directory. */
  function Canonical(fs: FileSystem, p: Absolute): Option<Real> {
    match Walk(fs, p.comps)
    case None => None
    case Some(at) => if p.trailing && !fs.isDir(at) then None else Some(at)
  }

  function Canonicalizer(fs: FileSystem): Canonicalize {
    p => Canonical(fs, p)
  }

  /** A real place: each name is an entry of the place before it, and no link. */
  predicate IsReal(fs: FileSystem, place: Real) {
    place == [] ||
    var n := |place| - 1;
    IsReal(fs, place[..n]) && fs.isDir(place[..n]) && fs.lookup(place[..n], place[n]) == Some(place)
  }

  ghost predicate WellFormed(fs: FileSystem) {
    fs.isDir([]) && forall at, name :: fs.lookup(at, name).Some? ==> IsReal(fs, fs.lookup(at, name).value)
  }

  function Names(place: Real): seq<Component> {
    seq(|place|, i requires 0 <= i < |place| => Normal(place[i]))
  }

  function AsPath(place: Real): Absolute {
    Absolute(Names(place), false)
  }

  lemma {:induction false} WalkIsReal(fs: FileSystem, comps: seq<Component>)
    requires WellFormed(fs)
    ensures Walk(fs, comps).Some? ==> IsReal(fs, Walk(fs, comps).value)
  {
    if comps != [] {
      WalkIsReal(fs, comps[..|comps| - 1]);
    }
  }

  lemma {:induction false} RealPlacesAreTheirOwn(fs: FileSystem, place: Real)
    requires IsReal(fs, place)
    ensures Walk(fs, Names(place)) == Some(place)
  {
    if place != [] {
      var n := |place| - 1;
      RealPlacesAreTheirOwn(fs, place[..n]);
      assert Names(place)[..n] == Names(place[..n]);
    }
  }

  /** What a walk cannot reach, it cannot get past. */
  lemma {:induction false} NothingBeyond(fs: FileSystem, comps: seq<Component>, k: nat)
    requires k <= |comps| && Walk(fs, comps[..k]).None?
    ensures Walk(fs, comps).None?
    decreases |comps|
  {
    if k < |comps| {
      var n := |comps| - 1;
      assert comps[..n][..k] == comps[..k];
      NothingBeyond(fs, comps[..n], k);
    } else {
      assert comps[..k] == comps;
    }
  }

  // ---------- Resolved places ----------

  /** The place is its own canonical form, or does not exist. */
  ghost predicate Settled(fs: FileSystem, place: Real) {
    Canonical(fs, AsPath(place)).Some? ==> Canonical(fs, AsPath(place)) == Some(place)
  }

  /** Where the resolver stopped peeling. */
  ghost function Stop(fs: FileSystem, p: Absolute): (k: nat)
    requires WellFormed(fs)
    ensures k <= |p.comps| && Canonical(fs, Prefix(p, k)).Some?
    ensures Longest(Canonicalizer(fs), p, |p.comps|) == Some(k)
  {
    var longest := Longest(Canonicalizer(fs), p, |p.comps|);
    assert longest.None? ==> Canonicalizer(fs)(Prefix(p, 0)).None?;
    assert Prefix(p, 0).comps == [];
    longest.value
  }

  /** A `..` was folded lexically, after a component that leads nowhere. */
  ghost predicate FoldsParent(fs: FileSystem, p: Absolute)
    requires WellFormed(fs)
  {
    ParentDir in p.comps[Stop(fs, p)..]
  }

  /** Only the slash written at the end keeps the path from being canonicalized. */
  ghost predicate OnlyTrailing(fs: FileSystem, p: Absolute) {
    p.trailing && Walk(fs, p.comps).Some? && !fs.isDir(Walk(fs, p.comps).value)
  }

  /** Names without `..` are folded on as they are. */
  lemma {:induction false} NamesAreAppended(base: Real, names: seq<Component>)
    requires ParentDir !in names
    ensures base <= Fold(base, names)
    ensures names != [] ==> |Fold(base, names)| > |base| && Normal(Fold(base, names)[|base|]) == names[0]
  {
    if names != [] {
      var n := |names| - 1;
      assert names[n] in names;
      NamesAreAppended(base, names[..n]);
    }
  }

  /** What would lie behind a missing name is missing. */
  lemma BeyondMissingName(fs: FileSystem, base: Real, place: Real)
    requires IsReal(fs, base) && base < place && StepInto(fs, base, Normal(place[|base|])).None?
    ensures Canonical(fs, AsPath(place)).None?
  {
    RealPlacesAreTheirOwn(fs, base);
    var all := Names(place);
    assert all[..|base| + 1][..|base|] == Names(base);
    NothingBeyond(fs, all, |base| + 1);
  }

  /** The component after the longest prefix leads nowhere, unless only the trailing slash is in the way. */
  lemma StopsAtNothing(fs: FileSystem, p: Absolute, k: nat)
    requires WellFormed(fs) && k == Stop(fs, p) && k < |p.comps| && !OnlyTrailing(fs, p)
    ensures Walk(fs, p.comps[..k]).Some? && StepInto(fs, Walk(fs, p.comps[..k]).value, p.comps[k]).None?
  {
    assert Prefix(p, k).comps == p.comps[..k];
    assert Canonicalizer(fs)(Prefix(p, k + 1)).None?;
    assert p.comps[..k + 1][..k] == p.comps[..k];
    assert k + 1 == |p.comps| ==> p.comps[..k + 1] == p.comps;
  }

  /** Where the peeling stops, and what the resolver makes of the rest. */
  lemma ResolvesFrom(fs: FileSystem, p: Absolute, k: nat, base: Real)
    requires WellFormed(fs) && k < |p.comps| && Walk(fs, p.comps[..k]) == Some(base)
    requires forall j: nat :: k < j <= |p.comps| ==> Canonical(fs, Prefix(p, j)).None?
    ensures Stop(fs, p) == k && Resolve(Canonicalizer(fs), p) == Fold(base, p.comps[k..])
  {
    assert Prefix(p, k).comps == p.comps[..k] && Canonicalizer(fs)(Prefix(p, k)) == Some(base);
  }

  /** A path that is not peeled resolves to a real place. */
  lemma WholePathSettles(fs: FileSystem, p: Absolute)
    requires WellFormed(fs) && Stop(fs, p) == |p.comps|
    ensures Settled(fs, Resolve(Canonicalizer(fs), p))
  {
    var place := Walk(fs, p.comps).value;
    assert p.comps[|p.comps|..] == [];
    assert Resolve(Canonicalizer(fs), p) == place;
    WalkIsReal(fs, p.comps);
    RealPlacesAreTheirOwn(fs, place);
  }

  /** Peeled names, put back behind the place that exists, do not exist. */
  lemma PeeledNamesSettle(fs: FileSystem, p: Absolute, k: nat)
    requires WellFormed(fs) && k == Stop(fs, p) && k < |p.comps|
    requires !FoldsParent(fs, p) && !OnlyTrailing(fs, p)
    ensures Canonical(fs, AsPath(Resolve(Canonicalizer(fs), p))).None?
  {
    StopsAtNothing(fs, p, k);
    assert Prefix(p, k).comps == p.comps[..k];
    var base, rest := Walk(fs, p.comps[..k]).value, p.comps[k..];
    WalkIsReal(fs, p.comps[..k]);
    NamesAreAppended(base, rest);
    BeyondMissingName(fs, base, Fold(base, rest));
  }

  // ---------- Links ----------

  /** On the way down the place an entry of a real directory leads elsewhere than to its own name. */
  ghost predicate PassesLink(fs: FileSystem, place: Real) {
    exists i ::
      && 0 <= i < |place| && IsReal(fs, place[..i]) && fs.isDir(place[..i])
      && fs.lookup(place[..i], place[i]) !in [None, Some(place[..i + 1])]
  }

  /** The last component is an entry that leads elsewhere than to its own name. */
  ghost predicate EndsAtLink(fs: FileSystem, p: Absolute)
    requires p.comps != [] && p.comps[|p.comps| - 1].Normal?
  {
    var n := |p.comps| - 1;
    Walk(fs, p.comps[..n]).Some? &&
    var parent := Walk(fs, p.comps[..n]).value;
    Canonical(fs, p).Some? && StepInto(fs, parent, p.comps[n]) != Some(parent + [p.comps[n].name])
  }

  lemma {:induction false} RealFromTheRoot(fs: FileSystem, place: Real, i: nat)
    requires IsReal(fs, place) && i <= |place|
    ensures IsReal(fs, place[..i])
  {
    if i == |place| {
      assert place[..i] == place;
    } else {
      var n := |place| - 1;
      RealFromTheRoot(fs, place[..n], i);
      assert place[..n][..i] == place[..i];
    }
  }

  lemma {:induction false} UnrealPlacesPassLinks(fs: FileSystem, place: Real)
    requires WellFormed(fs) && Walk(fs, Names(place)).Some? && !IsReal(fs, place)
    ensures PassesLink(fs, place)
  {
    var n := |place| - 1;
    var front := place[..n];
    assert Names(place)[..n] == Names(front);
    assert place[..n + 1] == place;
    if IsReal(fs, front) {
      RealPlacesAreTheirOwn(fs, front);
    } else {
      UnrealPlacesPassLinks(fs, front);
      var i :| 0 <= i < n && IsReal(fs, front[..i]) && fs.isDir(front[..i]) &&
        fs.lookup(front[..i], front[i]) !in [None, Some(front[..i + 1])];
      assert front[..i] == place[..i] && front[..i + 1] == place[..i + 1];
    }
  }

  /** A place that exists leads elsewhere exactly when there is a link on the way to it. */
  lemma ElsewhereIffPassesLink(fs: FileSystem, place: Real)
    requires WellFormed(fs) && Walk(fs, Names(place)).Some?
    ensures Walk(fs, Names(place)) != Some(place) <==> PassesLink(fs, place)
  {
    if IsReal(fs, place) {
      RealPlacesAreTheirOwn(fs, place);
      forall i | 0 <= i < |place| ensures fs.lookup(place[..i], place[i]) == Some(place[..i + 1]) {
        RealFromTheRoot(fs, place, i + 1);
        assert place[..i + 1][..i] == place[..i];
      }
    } else {
      WalkIsReal(fs, Names(place));
      UnrealPlacesPassLinks(fs, place);
    }
  }

  /**
   * The resolver's answer is its own canonical form or does not exist, except exactly when
   * a `..` was folded behind a component that leads nowhere, or a slash was dropped that
   * was written after something that is no directory, and the folded place exists with a
   * link on the way to it.
   */
  lemma ResolvedPlacesSettle(fs: FileSystem, p: Absolute)
    requires WellFormed(fs)
    ensures var place := Resolve(Canonicalizer(fs), p);
      !Settled(fs, place) <==>
      (FoldsParent(fs, p) || OnlyTrailing(fs, p)) && Walk(fs, Names(place)).Some? && PassesLink(fs, place)
  {
    var k := Stop(fs, p);
    var place := Resolve(Canonicalizer(fs), p);
    if k == |p.comps| {
      WholePathSettles(fs, p);
    } else if !FoldsParent(fs, p) && !OnlyTrailing(fs, p) {
      PeeledNamesSettle(fs, p, k);
    }
    if Walk(fs, Names(place)).Some? {
      ElsewhereIffPassesLink(fs, place);
    }
  }

  lemma FoldOfOne(base: Real, comps: seq<Component>, n: nat)
    requires n + 1 == |comps| && comps[n].Normal?
    ensures Fold(base, comps[n..]) == base + [comps[n].name]
  {
    var rest := comps[n..];
    assert rest == [comps[n]] && rest[..0] == [];
  }

  /** A place below a real one is where the last name leads from there. */
  lemma WalkBelow(fs: FileSystem, base: Real, name: Name)
    requires IsReal(fs, base)
    ensures Walk(fs, Names(base + [name])) == StepInto(fs, base, Normal(name))
  {
    RealPlacesAreTheirOwn(fs, base);
    assert Names(base + [name])[..|base|] == Names(base);
  }

  /** What a walk ends at with `..` is a directory, and so is what it starts from. */
  lemma FilesAreReachedByName(fs: FileSystem, comps: seq<Component>)
    requires WellFormed(fs) && Walk(fs, comps).Some? && !fs.isDir(Walk(fs, comps).value)
    ensures comps != [] && comps[|comps| - 1].Normal?
  {
    if comps != [] {
      var n := |comps| - 1;
      var at := Walk(fs, comps[..n]).value;
      WalkIsReal(fs, comps[..n]);
      assert at != [] ==> fs.isDir(at[..|at| - 1]);
    }
  }

  lemma DroppedSlashResolves(fs: FileSystem, p: Absolute, n: nat, base: Real, name: Name)
    requires WellFormed(fs) && OnlyTrailing(fs, p)
    requires n + 1 == |p.comps| && p.comps[n] == Normal(name) && Walk(fs, p.comps[..n]) == Some(base)
    ensures Resolve(Canonicalizer(fs), p) == base + [name]
  {
    assert Prefix(p, |p.comps|) == p && Canonical(fs, p).None?;
    ResolvesFrom(fs, p, n, base);
    FoldOfOne(base, p.comps, n);
  }

  lemma SettledBelow(fs: FileSystem, base: Real, name: Name)
    requires IsReal(fs, base)
    ensures Settled(fs, base + [name]) <==> StepInto(fs, base, Normal(name)) in [None, Some(base + [name])]
  {
    WalkBelow(fs, base, name);
  }

  /** For a slash that was dropped, whether the path without it ends at a link. */
  lemma DroppedSlashSettles(fs: FileSystem, p: Absolute)
    requires WellFormed(fs) && OnlyTrailing(fs, p)
    ensures p.comps != [] && p.comps[|p.comps| - 1].Normal?
    ensures !Settled(fs, Resolve(Canonicalizer(fs), p)) <==> EndsAtLink(fs, Absolute(p.comps, false))
  {
    FilesAreReachedByName(fs, p.comps);
    var n := |p.comps| - 1;
    var base, name := Walk(fs, p.comps[..n]).value, p.comps[n].name;
    DroppedSlashResolves(fs, p, n, base, name);
    WalkIsReal(fs, p.comps[..n]);
    SettledBelow(fs, base, name);
  }

  /** In particular, a path without `..` and without a slash at its end always settles. */
  lemma PlainPathsSettle(fs: FileSystem, p: Absolute, roots: seq<Real>)
    requires WellFormed(fs) && ParentDir !in p.comps && !p.trailing
    ensures Settled(fs, Resolve(Canonicalizer(fs), p))
    ensures var r := ReadGate(Canonicalizer(fs), p, roots);
      r.Success? && Canonical(fs, AsPath(r.value)).Some? ==> Within(Canonical(fs, AsPath(r.value)).value, roots)
  {
    ResolvedPlacesSettle(fs, p);
    assert forall c :: c in p.comps[Stop(fs, p)..] ==> c in p.comps;
  }

  // ---------- Two paths that do not settle ----------

  /** `/ws` and `/other`; `/ws/link` leads to `/other`, and `/ws/note` to the file `/other/note`. */
  function Linked(): FileSystem {
    FileSystem(
      (at, name) =>
        if at == [] && (name == "ws" || name == "other") then Some([name])
        else if at == ["ws"] && name == "link" then Some(["other"])
        else if (at == ["ws"] || at == ["other"]) && name == "note" then Some(["other", "note"])
        else None,
      at => at == [] || at == ["ws"] || at == ["other"])
  }

  lemma LinkedIsWellFormed()
    ensures WellFormed(Linked())
  {
    var fs := Linked();
    assert IsReal(fs, []);
    assert ["ws"][..0] == [] && ["other"][..0] == [] && ["other", "note"][..1] == ["other"];
    assert IsReal(fs, ["ws"]) && IsReal(fs, ["other"]) && IsReal(fs, ["other", "note"]);
  }

  lemma WalkOn(fs: FileSystem, comps: seq<Component>, component: Component)
    ensures Walk(fs, comps + [component]) ==
      match Walk(fs, comps) case None => None case Some(at) => StepInto(fs, at, component)
  {
    assert (comps + [component])[..|comps|] == comps;
  }

  lemma WalkTwo(fs: FileSystem, first: Name, second: Name, comps: seq<Component>)
    requires fs.isDir([]) && fs.lookup([], first) == Some([first]) && fs.isDir([first])
    requires comps == [Normal(first), Normal(second)]
    ensures Walk(fs, comps[..1]) == Some([first]) && Walk(fs, comps) == fs.lookup([first], second)
  {
    WalkOn(fs, [], Normal(first));
    assert [] + [Normal(first)] == comps[..1];
    WalkOn(fs, comps[..1], Normal(second));
    assert comps[..1] + [Normal(second)] == comps;
  }

  /** `/ws/missing/../link` is folded to `/ws/link`, which the system leads to `/other`. */
  lemma FoldedParentLeadsElsewhere(fs: FileSystem, p: Absolute)
    requires fs == Linked() && p == Absolute([Normal("ws"), Normal("missing"), ParentDir, Normal("link")], false)
    ensures WellFormed(fs) && Resolve(Canonicalizer(fs), p) == ["ws", "link"]
    ensures Canonical(fs, AsPath(["ws", "link"])) == Some(["other"]) && !Settled(fs, ["ws", "link"])
  {
    LinkedIsWellFormed();
    WalkTwo(fs, "ws", "missing", [Normal("ws"), Normal("missing")]);
    assert p.comps[..2] == [Normal("ws"), Normal("missing")] && p.comps[..1] == p.comps[..2][..1];
    assert Walk(fs, p.comps[..2]).None?;
    NothingBeyond(fs, p.comps[..3], 2);
    assert p.comps[..3][..2] == p.comps[..2];
    NothingBeyond(fs, p.comps, 2);
    assert Stop(fs, p) == 1 by { OnlyFirst(fs, p); }
    assert Prefix(p, 1).comps == p.comps[..1];
    var rest := p.comps[1..];
    assert rest == [Normal("missing"), ParentDir, Normal("link")];
    assert rest[..2] == [Normal("missing"), ParentDir] && rest[..2][..1] == [Normal("missing")] && rest[..2][..1][..0] == [];
    assert Fold(["ws"], rest[..2][..1]) == ["ws", "missing"];
    assert Fold(["ws"], rest[..2]) == ["ws"];
    assert Fold(["ws"], rest) == ["ws", "link"];
    WalkTwo(fs, "ws", "link", Names(["ws", "link"]));
  }

  lemma OnlyFirst(fs: FileSystem, p: Absolute)
    requires WellFormed(fs) && |p.comps| == 4 && !p.trailing
    requires Walk(fs, p.comps[..1]).Some? && Walk(fs, p.comps[..2]).None? && Walk(fs, p.comps[..3]).None? && Walk(fs, p.comps).None?
    ensures Stop(fs, p) == 1
  {
    assert Prefix(p, 1).comps == p.comps[..1] && Canonicalizer(fs)(Prefix(p, 1)).Some?;
    assert p.comps[..4] == p.comps;
    forall j: nat | 1 < j <= 4 ensures Canonical(fs, Prefix(p, j)).None? {
      assert Prefix(p, j).comps == p.comps[..j];
    }
  }

  /** `/ws/note/` is taken for `/ws/note`, which the system leads to `/other/note`. */
  lemma TrailingSlashLeadsElsewhere(fs: FileSystem, p: Absolute)
    requires fs == Linked() && p == Absolute([Normal("ws"), Normal("note")], true)
    ensures WellFormed(fs) && Resolve(Canonicalizer(fs), p) == ["ws", "note"]
    ensures Canonical(fs, AsPath(["ws", "note"])) == Some(["other", "note"]) && !Settled(fs, ["ws", "note"])
  {
    LinkedIsWellFormed();
    WalkTwo(fs, "ws", "note", p.comps);
    var k := Stop(fs, p);
    assert Prefix(p, 1).comps == p.comps[..1] && Canonicalizer(fs)(Prefix(p, 1)).Some?;
    assert Canonical(fs, p).None? && Prefix(p, 2) == p;
    assert k == 1;
    assert p.comps[1..] == [Normal("note")] && p.comps[1..][..0] == [];
    assert Fold(["ws"], p.comps[1..]) == ["ws", "note"];
    WalkTwo(fs, "ws", "note", Names(["ws", "note"]));
  }

  // ---------- The gates ----------

  /** For the gates, a last component leads elsewhere exactly when it is a link. */
  lemma LeadingElsewhereIsLinking(fs: FileSystem, p: Absolute)
    requires WellFormed(fs) && p.comps != [] && p.comps[|p.comps| - 1].Normal?
    ensures LeadsElsewhere(Canonicalizer(fs), p) <==> EndsAtLink(fs, p)
  {
    var n := |p.comps| - 1;
    var parent := Parent(p);
    if Canonical(fs, p).Some? {
      assert Canonicalizer(fs)(Prefix(parent, n)).Some?;
      assert parent.comps[n..] == [];
      assert Resolve(Canonicalizer(fs), parent) == Walk(fs, p.comps[..n]).value;
    }
  }
}
