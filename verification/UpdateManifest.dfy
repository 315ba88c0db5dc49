/**
 * Accepting a release's artifacts (scripts/gen-update-manifest.py, match_bundle, collect
 * and assemble): the set of files is published only if it is exactly a complete release.
 */
module UpdateManifest {
  import opened Collections
  import opened Wrappers

  datatype Kind = AppImageTar | AppImage | Deb | Nsis

  /** One alternative of a bundle pattern: an architecture as it is spelled, and what ends the name. */
  datatype Form = Form(kind: Kind, spelled: string, suffix: string, arch: string)

  /** BUNDLES in order, with the architecture each spelling stands for (ARCHES). */
  const FORMS := [
    Form(AppImageTar, "amd64", ".AppImage.tar.gz", "x86_64"),
    Form(AppImageTar, "aarch64", ".AppImage.tar.gz", "aarch64"),
    Form(AppImageTar, "armv7", ".AppImage.tar.gz", "armv7"),
    Form(AppImageTar, "i686", ".AppImage.tar.gz", "i686"),
    Form(AppImage, "amd64", ".AppImage", "x86_64"),
    Form(AppImage, "aarch64", ".AppImage", "aarch64"),
    Form(AppImage, "armv7", ".AppImage", "armv7"),
    Form(AppImage, "i686", ".AppImage", "i686"),
    Form(Deb, "amd64", ".deb", "x86_64"),
    Form(Deb, "arm64", ".deb", "aarch64"),
    Form(Deb, "i386", ".deb", "i686"),
    Form(Deb, "armhf", ".deb", "armv7"),
    Form(Nsis, "x64", "-setup.exe", "x86_64"),
    Form(Nsis, "arm64", "-setup.exe", "aarch64")]

  const EXPECTED_LINUX := ["x86_64", "aarch64"]
  const EXPECTED_WINDOWS := ["x86_64"]

  // ---------- Names ----------

  /** The name the form's pattern matches with this version. */
  function NameOf(form: Form, version: string): string {
    "Houston_" + version + "_" + form.spelled + form.suffix
  }

  /** `[^_]+` */
  predicate IsVersion(version: string) {
    version != "" && '_' !in version
  }

  /** The stretch before the first `_`, if there is one. */
  function UpToUnderscore(s: string): Option<string> {
    if s == "" then None
    else if s[0] == '_' then Some("")
    else match UpToUnderscore(s[1..]) case None => None case Some(v) => Some([s[0]] + v)
  }

  /** Matching one pattern alternative: the version, if the name has this form. */
  function MatchForm(form: Form, name: string): Option<string> {
    if !("Houston_" <= name) then None
    else match UpToUnderscore(name[8..])
      case None => None
      case Some(version) => if version != "" && name == NameOf(form, version) then Some(version) else None
  }

  datatype Found = Found(kind: Kind, version: string, arch: string)

  /** The first form that matches. */
  function MatchIn(forms: seq<Form>, name: string): Option<Found> {
    if forms == [] then None
    else match MatchForm(forms[0], name)
      case Some(version) => Some(Found(forms[0].kind, version, forms[0].arch))
      case None => MatchIn(forms[1..], name)
  }

  function MatchBundle(name: string): Option<Found> {
    MatchIn(FORMS, name)
  }

  lemma {:induction false} VersionEndsAtUnderscore(version: string, rest: string)
    requires '_' !in version
    ensures UpToUnderscore(version + "_" + rest) == Some(version)
  {
    var s := version + "_" + rest;
    if version != "" {
      assert s[1..] == version[1..] + "_" + rest;
      assert s[0] == version[0] && version[0] in version;
      VersionEndsAtUnderscore(version[1..], rest);
      assert version == [version[0]] + version[1..];
    }
  }

  lemma {:induction false} UnderscoreFree(s: string)
    ensures UpToUnderscore(s).Some? ==> '_' !in UpToUnderscore(s).value
  {
    if s != "" && s[0] != '_' {
      UnderscoreFree(s[1..]);
    }
  }

  lemma MatchFormIsExact(form: Form, name: string, version: string)
    ensures MatchForm(form, name) == Some(version) <==> IsVersion(version) && name == NameOf(form, version)
  {
    if name == NameOf(form, version) && IsVersion(version) {
      assert name[8..] == version + "_" + (form.spelled + form.suffix);
      VersionEndsAtUnderscore(version, form.spelled + form.suffix);
    }
    if "Houston_" <= name {
      UnderscoreFree(name[8..]);
    }
  }

  /** The form says this of the name. */
  predicate Describes(form: Form, name: string, found: Found) {
    IsVersion(found.version) && name == NameOf(form, found.version) && found.kind == form.kind && found.arch == form.arch
  }

  lemma {:induction false} MatchInFinds(forms: seq<Form>, name: string)
    ensures match MatchIn(forms, name)
      case Some(found) => exists i :: 0 <= i < |forms| && Describes(forms[i], name, found)
      case None => forall i, version :: 0 <= i < |forms| && IsVersion(version) ==> name != NameOf(forms[i], version)
  {
    if forms != [] {
      forall version ensures MatchForm(forms[0], name) == Some(version) <==> IsVersion(version) && name == NameOf(forms[0], version) {
        MatchFormIsExact(forms[0], name, version);
      }
      var rest := forms[1..];
      MatchInFinds(rest, name);
      match MatchForm(forms[0], name) {
        case Some(version) => assert Describes(forms[0], name, MatchIn(forms, name).value);
        case None =>
          assert forall i :: 0 <= i < |rest| ==> rest[i] == forms[i + 1];
          match MatchIn(rest, name) {
            case Some(found) =>
              var i :| 0 <= i < |rest| && Describes(rest[i], name, found);
              assert Describes(forms[i + 1], name, found);
            case None =>
              forall i, version | 0 <= i < |forms| && IsVersion(version) ensures name != NameOf(forms[i], version) {
                assert i > 0 ==> forms[i] == rest[i - 1];
              }
          }
      }
    }
  }

  /** No two forms of one kind stand for the same architecture. */
  lemma FormsAreDistinct(i: nat, j: nat)
    requires i < |FORMS| && j < |FORMS|
    requires FORMS[i].kind == FORMS[j].kind && FORMS[i].arch == FORMS[j].arch
    ensures FORMS[i] == FORMS[j]
  {
    assert "x86_64"[0] == 'x' && "i686"[0] == 'i' && "aarch64"[1] == 'a' && "armv7"[1] == 'r';
  }

  /** A kind, a version and an architecture belong to one name only. */
  lemma FoundDeterminesName(a: string, b: string)
    requires MatchBundle(a).Some? && MatchBundle(a) == MatchBundle(b)
    ensures a == b
  {
    MatchInFinds(FORMS, a);
    MatchInFinds(FORMS, b);
    var found := MatchBundle(a).value;
    var i :| 0 <= i < |FORMS| && Describes(FORMS[i], a, found);
    var j :| 0 <= j < |FORMS| && Describes(FORMS[j], b, found);
    FormsAreDistinct(i, j);
  }

  // ---------- Collecting ----------

  const SIG := ".sig"

  predicate IsSig(name: string) {
    |name| >= 4 && name[|name| - 4..] == SIG
  }

  /** `path.name[: -len(".sig")]` */
  function Signed(name: string): string
    requires IsSig(name)
  {
    name[..|name| - 4]
  }

  type Linux = map<string, map<Kind, string>>
  type Windows = map<string, string>

  datatype Collected = Collected(linux: Linux, windows: Windows, signatures: map<string, string>)

  datatype Refusal =
    | AlreadyThere | BadSignature | Unrecognised | WrongVersion | TwoBundles
    | MissingSignature | OrphanSignature | InvalidSet | Unverified

  /** The bundle a file is, if its name says so. */
  predicate IsBundle(name: string, version: string, kind: Kind, arch: string) {
    !IsSig(name) && MatchBundle(name) == Some(Found(kind, version, arch))
  }

  /** Every entry of the tables is a bundle among `done` with its architecture and kind. */
  ghost predicate EntriesAreBundles(done: set<string>, version: string, linux: Linux, windows: Windows) {
    && (forall arch, kind :: arch in linux && kind in linux[arch] ==>
        kind != Nsis && linux[arch][kind] in done && IsBundle(linux[arch][kind], version, kind, arch))
    && (forall arch :: arch in linux ==> linux[arch] != map[])
    && (forall arch :: arch in windows ==> windows[arch] in done && IsBundle(windows[arch], version, Nsis, arch))
  }

  predicate PlacedAt(name: string, kind: Kind, arch: string, linux: Linux, windows: Windows) {
    if kind == Nsis then arch in windows && windows[arch] == name
    else arch in linux && kind in linux[arch] && linux[arch][kind] == name
  }

  /** The file is a bundle of this version and has its place in the tables. */
  ghost predicate Placed(name: string, version: string, linux: Linux, windows: Windows) {
    var found := MatchBundle(name);
    found.Some? && found.value.version == version && PlacedAt(name, found.value.kind, found.value.arch, linux, windows)
  }

  /** The tables hold exactly the bundles among `done`. */
  ghost predicate Tabled(done: set<string>, version: string, linux: Linux, windows: Windows) {
    && EntriesAreBundles(done, version, linux, windows)
    && (forall n :: n in done && !IsSig(n) ==> Placed(n, version, linux, windows))
  }

  /** The signatures read so far are those of the `.sig` files among `done`. */
  ghost predicate SignaturesRead(done: set<string>, read: string -> Option<string>, signatures: map<string, string>) {
    && (forall n :: n in done && IsSig(n) ==> read(n).Some? && Signed(n) in signatures)
    && (forall b :: b in signatures ==> b + SIG in done && read(b + SIG) == Some(signatures[b]))
  }

  /** A Linux or Windows bundle for `arch` is among the files. */
  ghost predicate Has(names: set<string>, version: string, kind: Kind, arch: string) {
    exists n :: n in names && IsBundle(n, version, kind, arch)
  }

  ghost predicate HasLinux(names: set<string>, version: string, arch: string) {
    Has(names, version, AppImageTar, arch) || Has(names, version, AppImage, arch) || Has(names, version, Deb, arch)
  }

  function ByKind(linux: Linux, arch: string): map<Kind, string> {
    if arch in linux then linux[arch] else map[]
  }

  /** A second bundle for a place in the tables would be the same file. */
  lemma PlaceIsFree(done: set<string>, version: string, linux: Linux, windows: Windows, name: string)
    requires Tabled(done, version, linux, windows) && name !in done && !IsSig(name)
    requires MatchBundle(name).Some? && MatchBundle(name).value.version == version
    ensures var found := MatchBundle(name).value;
      && (found.kind == Nsis ==> found.arch !in windows)
      && (found.kind != Nsis ==> found.kind !in ByKind(linux, found.arch))
  {
    var found := MatchBundle(name).value;
    if found.kind == Nsis && found.arch in windows {
      FoundDeterminesName(name, windows[found.arch]);
    }
    if found.kind != Nsis && found.kind in ByKind(linux, found.arch) {
      FoundDeterminesName(name, linux[found.arch][found.kind]);
    }
  }

  lemma TabledSig(done: set<string>, version: string, linux: Linux, windows: Windows, name: string)
    requires Tabled(done, version, linux, windows) && IsSig(name)
    ensures Tabled(done + {name}, version, linux, windows)
  {
  }

  lemma TabledNsis(done: set<string>, version: string, linux: Linux, windows: Windows, name: string, arch: string)
    requires Tabled(done, version, linux, windows) && IsBundle(name, version, Nsis, arch) && arch !in windows
    ensures Tabled(done + {name}, version, linux, windows[arch := name])
  {
  }

  function WithLinux(linux: Linux, arch: string, kind: Kind, name: string): Linux {
    linux[arch := ByKind(linux, arch)[kind := name]]
  }

  lemma PlacesStay(linux: Linux, windows: Windows, arch: string, kind: Kind, name: string)
    requires kind != Nsis && kind !in ByKind(linux, arch)
    ensures var after := WithLinux(linux, arch, kind, name);
      && PlacedAt(name, kind, arch, after, windows)
      && (forall n, k, a :: PlacedAt(n, k, a, linux, windows) ==> PlacedAt(n, k, a, after, windows))
      && (forall a, k :: a in after && k in after[a] && !(a == arch && k == kind) ==>
          a in linux && k in linux[a] && linux[a][k] == after[a][k])
      && (forall a :: a in after ==> a in linux || a == arch)
      && after[arch] != map[]
  {
    var after := WithLinux(linux, arch, kind, name);
    assert kind in after[arch];
  }

  lemma TabledLinux(done: set<string>, version: string, linux: Linux, windows: Windows, name: string, kind: Kind, arch: string)
    requires Tabled(done, version, linux, windows) && IsBundle(name, version, kind, arch)
    requires kind != Nsis && kind !in ByKind(linux, arch)
    ensures Tabled(done + {name}, version, WithLinux(linux, arch, kind, name), windows)
  {
    PlacesStay(linux, windows, arch, kind, name);
    EntriesStay(done, version, linux, windows, name, kind, arch, WithLinux(linux, arch, kind, name));
    var after := WithLinux(linux, arch, kind, name);
    forall n | n in done + {name} && !IsSig(n) ensures Placed(n, version, after, windows) {
      if n in done {
        assert Placed(n, version, linux, windows);
      }
    }
  }

  lemma EntriesStay(done: set<string>, version: string, linux: Linux, windows: Windows, name: string, kind: Kind,
                    arch: string, after: Linux)
    requires EntriesAreBundles(done, version, linux, windows) && IsBundle(name, version, kind, arch) && kind != Nsis
    requires arch in after && kind in after[arch] && after[arch][kind] == name
    requires forall a, k :: a in after && k in after[a] && !(a == arch && k == kind) ==>
      a in linux && k in linux[a] && linux[a][k] == after[a][k]
    requires forall a :: a in after ==> after[a] != map[]
    ensures EntriesAreBundles(done + {name}, version, after, windows)
  {
  }

  /** A signature file joins what was read. */
  lemma SignatureJoins(done: set<string>, read: string -> Option<string>, signatures: map<string, string>, name: string)
    requires SignaturesRead(done, read, signatures)
    ensures !IsSig(name) ==> SignaturesRead(done + {name}, read, signatures)
    ensures IsSig(name) && read(name).Some? ==>
      SignaturesRead(done + {name}, read, signatures[Signed(name) := read(name).value])
  {
    if IsSig(name) {
      assert Signed(name) + SIG == name;
    }
    forall b ensures IsSig(b + SIG) && Signed(b + SIG) == b {
    }
  }

  /** The first loop: every file is a signature or a bundle of this version. */
  ghost predicate Sortable(names: set<string>, version: string, read: string -> Option<string>) {
    && "latest.json" !in names
    && (forall n :: n in names && IsSig(n) ==> read(n).Some?)
    && (forall n :: n in names && !IsSig(n) ==> MatchBundle(n).Some? && MatchBundle(n).value.version == version)
  }

  /** The reason given is true of the files. */
  ghost predicate IsTrueOf(names: set<string>, version: string, read: string -> Option<string>, includeWindows: bool, refusal: Refusal) {
    match refusal
    case AlreadyThere => "latest.json" in names
    case BadSignature => exists n :: n in names && IsSig(n) && read(n).None?
    case Unrecognised => exists n :: n in names && !IsSig(n) && MatchBundle(n).None?
    case WrongVersion => exists n :: n in names && !IsSig(n) && MatchBundle(n).Some? && MatchBundle(n).value.version != version
    case MissingSignature => exists n :: n in names && !IsSig(n) && n + SIG !in names
    case OrphanSignature => exists n :: n in names && IsSig(n) && (Signed(n) !in names || IsSig(Signed(n)))
    case InvalidSet => !RightArches(names, version, includeWindows)
    case TwoBundles => false
    case Unverified => false
  }

  method SortFiles(names: seq<string>, version: string, read: string -> Option<string>)
    returns (r: Result<Collected, Refusal>)
    requires Distinct(names)
    ensures r.Success? <==> Sortable(Members(names), version, read)
    ensures r.Success? ==> Tabled(Members(names), version, r.value.linux, r.value.windows)
    ensures r.Success? ==> SignaturesRead(Members(names), read, r.value.signatures)
    ensures r != Failure(TwoBundles)
    ensures forall includeWindows :: r.Failure? ==> IsTrueOf(Members(names), version, read, includeWindows, r.error)
  {
    var linux: Linux := map[];
    var windows: Windows := map[];
    var signatures: map<string, string> := map[];
    for i := 0 to |names|
      invariant Tabled(Members(names[..i]), version, linux, windows)
      invariant SignaturesRead(Members(names[..i]), read, signatures)
      invariant Sortable(Members(names[..i]), version, read)
    {
      var name := names[i];
      ghost var done := Members(names[..i]);
      assert name in Members(names) && name !in done;
      assert Members(names[..i + 1]) == done + {name};
      SignatureJoins(done, read, signatures, name);
      if name == "latest.json" {
        return Failure(AlreadyThere);
      }
      if IsSig(name) {
        var signature := read(name);
        match signature {
          case None => return Failure(BadSignature);
          case Some(text) =>
            TabledSig(done, version, linux, windows, name);
            signatures := signatures[Signed(name) := text];
        }
      } else {
        match MatchBundle(name) {
          case None => return Failure(Unrecognised);
          case Some(found) =>
            if found.version != version {
              return Failure(WrongVersion);
            }
            PlaceIsFree(done, version, linux, windows, name);
            if found.kind == Nsis {
              if found.arch in windows {
                return Failure(TwoBundles);
              }
              TabledNsis(done, version, linux, windows, name, found.arch);
              windows := windows[found.arch := name];
            } else {
              var byKind := ByKind(linux, found.arch);
              if found.kind in byKind {
                return Failure(TwoBundles);
              }
              TabledLinux(done, version, linux, windows, name, found.kind, found.arch);
              linux := WithLinux(linux, found.arch, found.kind, name);
            }
        }
      }
    }
    assert names[..|names|] == names;
    return Success(Collected(linux, windows, signatures));
  }

  // ---------- Judging the tables ----------

  /** The names of the bundles in the tables. */
  function Every(linux: Linux, windows: Windows): set<string> {
    (set arch, kind | arch in linux && kind in linux[arch] :: linux[arch][kind]) + set arch | arch in windows :: windows[arch]
  }

  /** No `problems` are found. */
  predicate Complete(linux: Linux, windows: Windows, includeWindows: bool) {
    && (forall arch :: arch in EXPECTED_LINUX ==> arch in linux)
    && (forall arch :: arch in EXPECTED_LINUX && arch in linux ==>
        (AppImage in linux[arch] || AppImageTar in linux[arch]) && Deb in linux[arch])
    && (if includeWindows then forall arch :: arch in EXPECTED_WINDOWS ==> arch in windows else windows == map[])
    && (forall arch :: arch in linux ==> arch in EXPECTED_LINUX)
    && (forall arch :: arch in windows ==> arch in EXPECTED_WINDOWS)
  }

  /** The tables name every file that is not a signature, and nothing else. */
  lemma TablesNameTheBundles(names: set<string>, version: string, linux: Linux, windows: Windows)
    requires Tabled(names, version, linux, windows)
    ensures Every(linux, windows) == set n | n in names && !IsSig(n)
  {
    forall n | n in names && !IsSig(n) ensures n in Every(linux, windows) {
      assert Placed(n, version, linux, windows);
    }
  }

  lemma TablesTell(names: set<string>, version: string, linux: Linux, windows: Windows, kind: Kind, arch: string)
    requires Tabled(names, version, linux, windows)
    ensures Has(names, version, kind, arch) <==> if kind == Nsis then arch in windows else kind in ByKind(linux, arch)
  {
    if Has(names, version, kind, arch) {
      var n :| n in names && IsBundle(n, version, kind, arch);
      assert Placed(n, version, linux, windows);
    }
  }

  lemma LinuxTells(names: set<string>, version: string, linux: Linux, windows: Windows, arch: string)
    requires Tabled(names, version, linux, windows)
    ensures HasLinux(names, version, arch) <==> arch in linux
  {
    TablesTell(names, version, linux, windows, AppImageTar, arch);
    TablesTell(names, version, linux, windows, AppImage, arch);
    TablesTell(names, version, linux, windows, Deb, arch);
    if arch in linux {
      var kind :| kind in linux[arch];
      assert kind != Nsis;
    }
  }

  /** Signatures and bundles pair off. */
  ghost predicate PairedOff(names: set<string>) {
    && (forall b :: b in names && !IsSig(b) ==> b + SIG in names)
    && (forall n :: n in names && IsSig(n) ==> Signed(n) in names && !IsSig(Signed(n)))
  }

  ghost predicate RightArches(names: set<string>, version: string, includeWindows: bool) {
    && (forall arch :: HasLinux(names, version, arch) <==> arch in EXPECTED_LINUX)
    && (forall arch :: arch in EXPECTED_LINUX ==>
        (Has(names, version, AppImageTar, arch) || Has(names, version, AppImage, arch)) && Has(names, version, Deb, arch))
    && (forall arch :: Has(names, version, Nsis, arch) <==> includeWindows && arch in EXPECTED_WINDOWS)
  }

  lemma SignaturesTell(names: set<string>, read: string -> Option<string>, signatures: map<string, string>, every: set<string>)
    requires SignaturesRead(names, read, signatures) && every == set n | n in names && !IsSig(n)
    ensures PairedOff(names) <==> every == signatures.Keys
  {
    forall b ensures IsSig(b + SIG) && Signed(b + SIG) == b {
    }
    forall n | IsSig(n) ensures Signed(n) + SIG == n {
    }
    forall b | b in signatures ensures b + SIG in names {
    }
  }

  /** The tables answer every question about the presence of a bundle. */
  ghost predicate Told(names: set<string>, version: string, linux: Linux, windows: Windows) {
    && (forall arch :: HasLinux(names, version, arch) <==> arch in linux)
    && (forall kind, arch :: kind != Nsis ==> (Has(names, version, kind, arch) <==> kind in ByKind(linux, arch)))
    && (forall arch :: Has(names, version, Nsis, arch) <==> arch in windows)
  }

  lemma TabledIsTold(names: set<string>, version: string, linux: Linux, windows: Windows)
    requires Tabled(names, version, linux, windows)
    ensures Told(names, version, linux, windows)
  {
    forall arch ensures HasLinux(names, version, arch) <==> arch in linux {
      LinuxTells(names, version, linux, windows, arch);
    }
    forall kind, arch
      ensures Has(names, version, kind, arch) <==> if kind == Nsis then arch in windows else kind in ByKind(linux, arch)
    {
      TablesTell(names, version, linux, windows, kind, arch);
    }
  }

  lemma CompleteIsRightArches(names: set<string>, version: string, linux: Linux, windows: Windows, includeWindows: bool)
    requires Told(names, version, linux, windows)
    ensures Complete(linux, windows, includeWindows) <==> RightArches(names, version, includeWindows)
  {
    if RightArches(names, version, includeWindows) {
      assert !includeWindows ==> windows == map[];
    }
  }

  /** The rule a release must meet, said without any of the bookkeeping. */
  ghost predicate IsRelease(names: set<string>, version: string, read: string -> Option<string>, includeWindows: bool) {
    Sortable(names, version, read) && PairedOff(names) && RightArches(names, version, includeWindows)
  }

  lemma MissingIsTrue(names: set<string>, version: string, read: string -> Option<string>, includeWindows: bool,
                      signatures: map<string, string>, every: set<string>)
    requires SignaturesRead(names, read, signatures) && every == set n | n in names && !IsSig(n)
    requires every - signatures.Keys != {}
    ensures IsTrueOf(names, version, read, includeWindows, MissingSignature)
  {
    var b :| b in every - signatures.Keys;
    assert IsSig(b + SIG) && Signed(b + SIG) == b;
  }

  lemma OrphanIsTrue(names: set<string>, version: string, read: string -> Option<string>, includeWindows: bool,
                     signatures: map<string, string>, every: set<string>)
    requires SignaturesRead(names, read, signatures) && every == set n | n in names && !IsSig(n)
    requires signatures.Keys - every != {}
    ensures IsTrueOf(names, version, read, includeWindows, OrphanSignature)
  {
    var b :| b in signatures.Keys - every;
    assert IsSig(b + SIG) && Signed(b + SIG) == b;
  }

  /** Accepting the files: exactly the complete releases pass, and no two bundles ever clash. */
  method Collect(names: seq<string>, version: string, read: string -> Option<string>, includeWindows: bool)
    returns (r: Result<Collected, Refusal>)
    requires Distinct(names)
    ensures r.Success? <==> IsRelease(Members(names), version, read, includeWindows)
    ensures r.Success? ==> Tabled(Members(names), version, r.value.linux, r.value.windows)
    ensures r.Success? ==> SignaturesRead(Members(names), read, r.value.signatures)
    ensures r.Success? ==> Complete(r.value.linux, r.value.windows, includeWindows)
    ensures r.Success? ==> Every(r.value.linux, r.value.windows) == r.value.signatures.Keys
    ensures r != Failure(TwoBundles)
    ensures r.Failure? ==> IsTrueOf(Members(names), version, read, includeWindows, r.error)
  {
    r := SortFiles(names, version, read);
    match r {
      case Failure(_) =>
      case Success(collected) =>
        ghost var members := Members(names);
        var every := Every(collected.linux, collected.windows);
        TablesNameTheBundles(members, version, collected.linux, collected.windows);
        SignaturesTell(members, read, collected.signatures, every);
        TabledIsTold(members, version, collected.linux, collected.windows);
        CompleteIsRightArches(members, version, collected.linux, collected.windows, includeWindows);
        if every - collected.signatures.Keys != {} {
          MissingIsTrue(members, version, read, includeWindows, collected.signatures, every);
          return Failure(MissingSignature);
        }
        if collected.signatures.Keys - every != {} {
          OrphanIsTrue(members, version, read, includeWindows, collected.signatures, every);
          return Failure(OrphanSignature);
        }
        if !Complete(collected.linux, collected.windows, includeWindows) {
          return Failure(InvalidSet);
        }
    }
  }
}
