/**
 * A release spelled out (scripts/gen-update-manifest.py): the file names it is made of, and
 * what stands under each key of its manifest, in the texts themselves.
 */
module ReleaseNames {
  import opened Collections
  import opened ManifestAssembly
  import opened UpdateManifest
  import opened Wrappers

  /** What a release's files are called behind the version. */
  datatype Tail = Tail(text: string, kind: Kind, arch: string)

  const AMD64_TAR := Tail("amd64.AppImage.tar.gz", AppImageTar, "x86_64")
  const AMD64_IMAGE := Tail("amd64.AppImage", AppImage, "x86_64")
  const AMD64_DEB := Tail("amd64.deb", Deb, "x86_64")
  const ARM64_TAR := Tail("aarch64.AppImage.tar.gz", AppImageTar, "aarch64")
  const ARM64_IMAGE := Tail("aarch64.AppImage", AppImage, "aarch64")
  const ARM64_DEB := Tail("arm64.deb", Deb, "aarch64")
  const X64_SETUP := Tail("x64-setup.exe", Nsis, "x86_64")

  function TailOf(form: Form): string {
    form.spelled + form.suffix
  }

  function FileName(version: string, tail: string): string {
    "Houston_" + version + "_" + tail
  }

  lemma NameEndsInTail(form: Form, version: string)
    ensures NameOf(form, version) == FileName(version, TailOf(form))
  {
    assert "Houston_" + version + "_" + form.spelled + form.suffix ==
      "Houston_" + version + "_" + (form.spelled + form.suffix);
  }

  /** The forms' ends differ: by their length, or by their second or fourth character. */
  lemma TailsAreDistinct(i: nat, j: nat)
    requires i < |FORMS| && j < |FORMS| && TailOf(FORMS[i]) == TailOf(FORMS[j])
    ensures i == j
  {
    var s, t := TailOf(FORMS[i]), TailOf(FORMS[j]);
    assert |s| == |t| && s[0] == t[0] && s[1] == t[1] && s[3] == t[3];
  }

  lemma FileNamesAreExact(v: string, a: string, w: string, b: string)
    requires IsVersion(v) && IsVersion(w) && FileName(v, a) == FileName(w, b)
    ensures v == w && a == b
  {
    var name := FileName(v, a);
    assert name[8..] == v + "_" + a;
    assert name[8..] == w + "_" + b;
    VersionEndsAtUnderscore(v, a);
    VersionEndsAtUnderscore(w, b);
    assert name[9 + |v|..] == a && name[9 + |w|..] == b;
  }

  /** The name of a form is matched as what the form stands for. */
  lemma FormIsMatched(i: nat, version: string)
    requires i < |FORMS| && IsVersion(version)
    ensures MatchBundle(NameOf(FORMS[i], version)) == Some(Found(FORMS[i].kind, version, FORMS[i].arch))
  {
    var name := NameOf(FORMS[i], version);
    MatchInFinds(FORMS, name);
    var found := MatchBundle(name).value;
    var j :| 0 <= j < |FORMS| && Describes(FORMS[j], name, found);
    NameEndsInTail(FORMS[i], version);
    NameEndsInTail(FORMS[j], found.version);
    FileNamesAreExact(version, TailOf(FORMS[i]), found.version, TailOf(FORMS[j]));
    TailsAreDistinct(i, j);
  }

  ghost predicate IsFormsTail(t: Tail, i: nat) {
    i < |FORMS| && FORMS[i].kind == t.kind && FORMS[i].arch == t.arch && TailOf(FORMS[i]) == t.text
  }

  lemma TailIsNoSignature(version: string, tail: string)
    requires |tail| >= 4 && tail[|tail| - 4..] != ".sig"
    ensures !IsSig(FileName(version, tail))
  {
    var name := FileName(version, tail);
    assert name[|name| - 4..] == tail[|tail| - 4..];
  }

  /** Of each kind and architecture a version has one file, and it has this name. */
  lemma BundleIsNamed(t: Tail, i: nat, version: string, name: string)
    requires IsFormsTail(t, i) && IsVersion(version)
    requires |t.text| >= 4 && t.text[|t.text| - 4..] != ".sig"
    ensures IsBundle(name, version, t.kind, t.arch) <==> name == FileName(version, t.text)
  {
    var file := FileName(version, t.text);
    NameEndsInTail(FORMS[i], version);
    FormIsMatched(i, version);
    TailIsNoSignature(version, t.text);
    if IsBundle(name, version, t.kind, t.arch) {
      FoundDeterminesName(name, file);
    }
  }

  lemma NoTailIsSignature(t: Tail)
    requires t in [AMD64_TAR, AMD64_IMAGE, AMD64_DEB, ARM64_TAR, ARM64_IMAGE, ARM64_DEB, X64_SETUP]
    ensures |t.text| >= 4 && t.text[|t.text| - 4..] != ".sig"
  {
    assert ".sig"[0] == '.' && ".sig"[1] == 's' && ".sig"[2] == 'i' && ".sig"[3] == 'g';
    var n := |t.text|;
    assert t.text[n - 4..][3] == t.text[n - 1] && t.text[n - 4..][2] == t.text[n - 2];
  }

  lemma Amd64TarIsSpelled(form: Form, text: string)
    requires form == Form(AppImageTar, "amd64", ".AppImage.tar.gz", "x86_64") && text == "amd64.AppImage.tar.gz"
    ensures TailOf(form) == text
  {
  }

  lemma Amd64TarIsNamed(version: string, name: string)
    requires IsVersion(version)
    ensures IsBundle(name, version, AMD64_TAR.kind, AMD64_TAR.arch) <==> name == FileName(version, AMD64_TAR.text)
  {
    Amd64TarIsSpelled(FORMS[0], AMD64_TAR.text);
    NoTailIsSignature(AMD64_TAR);
    BundleIsNamed(AMD64_TAR, 0, version, name);
  }

  lemma Amd64ImageIsNamed(version: string, name: string)
    requires IsVersion(version)
    ensures IsBundle(name, version, AMD64_IMAGE.kind, AMD64_IMAGE.arch) <==> name == FileName(version, AMD64_IMAGE.text)
  {
    assert TailOf(FORMS[4]) == AMD64_IMAGE.text;
    NoTailIsSignature(AMD64_IMAGE);
    BundleIsNamed(AMD64_IMAGE, 4, version, name);
  }

  lemma Amd64DebIsNamed(version: string, name: string)
    requires IsVersion(version)
    ensures IsBundle(name, version, AMD64_DEB.kind, AMD64_DEB.arch) <==> name == FileName(version, AMD64_DEB.text)
  {
    assert TailOf(FORMS[8]) == AMD64_DEB.text;
    NoTailIsSignature(AMD64_DEB);
    BundleIsNamed(AMD64_DEB, 8, version, name);
  }

  lemma Arm64TarIsNamed(version: string, name: string)
    requires IsVersion(version)
    ensures IsBundle(name, version, ARM64_TAR.kind, ARM64_TAR.arch) <==> name == FileName(version, ARM64_TAR.text)
  {
    assert TailOf(FORMS[1]) == ARM64_TAR.text;
    NoTailIsSignature(ARM64_TAR);
    BundleIsNamed(ARM64_TAR, 1, version, name);
  }

  lemma Arm64ImageIsNamed(version: string, name: string)
    requires IsVersion(version)
    ensures IsBundle(name, version, ARM64_IMAGE.kind, ARM64_IMAGE.arch) <==> name == FileName(version, ARM64_IMAGE.text)
  {
    assert TailOf(FORMS[5]) == ARM64_IMAGE.text;
    NoTailIsSignature(ARM64_IMAGE);
    BundleIsNamed(ARM64_IMAGE, 5, version, name);
  }

  lemma Arm64DebIsNamed(version: string, name: string)
    requires IsVersion(version)
    ensures IsBundle(name, version, ARM64_DEB.kind, ARM64_DEB.arch) <==> name == FileName(version, ARM64_DEB.text)
  {
    assert TailOf(FORMS[9]) == ARM64_DEB.text;
    NoTailIsSignature(ARM64_DEB);
    BundleIsNamed(ARM64_DEB, 9, version, name);
  }

  lemma X64SetupIsNamed(version: string, name: string)
    requires IsVersion(version)
    ensures IsBundle(name, version, X64_SETUP.kind, X64_SETUP.arch) <==> name == FileName(version, X64_SETUP.text)
  {
    assert TailOf(FORMS[12]) == X64_SETUP.text;
    NoTailIsSignature(X64_SETUP);
    BundleIsNamed(X64_SETUP, 12, version, name);
  }

  // ---------- The files of a release ----------

  /** The kinds and architectures a release carries. */
  predicate IsPlatform(kind: Kind, arch: string, includeWindows: bool) {
    if kind == Nsis then includeWindows && arch == "x86_64" else arch == "x86_64" || arch == "aarch64"
  }

  /** The file of this kind and architecture. */
  function FileOf(version: string, kind: Kind, arch: string): string {
    FileName(version,
      match kind
      case AppImageTar => if arch == "x86_64" then "amd64.AppImage.tar.gz" else "aarch64.AppImage.tar.gz"
      case AppImage => if arch == "x86_64" then "amd64.AppImage" else "aarch64.AppImage"
      case Deb => if arch == "x86_64" then "amd64.deb" else "arm64.deb"
      case Nsis => "x64-setup.exe")
  }

  lemma BundleIsItsFile(version: string, kind: Kind, arch: string, name: string)
    requires IsVersion(version) && IsPlatform(kind, arch, true)
    ensures IsBundle(name, version, kind, arch) <==> name == FileOf(version, kind, arch)
  {
    match kind
    case AppImageTar => Amd64TarIsNamed(version, name); Arm64TarIsNamed(version, name);
    case AppImage => Amd64ImageIsNamed(version, name); Arm64ImageIsNamed(version, name);
    case Deb => Amd64DebIsNamed(version, name); Arm64DebIsNamed(version, name);
    case Nsis => X64SetupIsNamed(version, name);
  }

  lemma HasItsFile(names: set<string>, version: string, kind: Kind, arch: string)
    requires IsVersion(version) && IsPlatform(kind, arch, true)
    ensures Has(names, version, kind, arch) <==> FileOf(version, kind, arch) in names
  {
    BundleIsItsFile(version, kind, arch, FileOf(version, kind, arch));
    if n :| n in names && IsBundle(n, version, kind, arch) {
      BundleIsItsFile(version, kind, arch, n);
    }
  }

  /** Every file is one of a platform's, or a signature beside one. */
  ghost predicate OnlyPlatformFiles(names: set<string>, version: string, includeWindows: bool) {
    forall n :: n in names ==>
      exists kind, arch :: IsPlatform(kind, arch, includeWindows) && IsItsFile(n, FileOf(version, kind, arch))
  }

  predicate IsItsFile(n: string, file: string) {
    n == file || n == file + ".sig"
  }

  /** A file and its signature come together, and the signature can be read. */
  ghost predicate FilesAreSigned(names: set<string>, version: string, read: string -> Option<string>, includeWindows: bool) {
    forall kind, arch :: IsPlatform(kind, arch, includeWindows) ==>
      && (FileOf(version, kind, arch) in names <==> FileOf(version, kind, arch) + ".sig" in names)
      && (FileOf(version, kind, arch) + ".sig" in names ==> read(FileOf(version, kind, arch) + ".sig").Some?)
  }

  /** On both Linux architectures the package and one AppImage form, and the Windows installer when included. */
  ghost predicate AllPlatformsAreThere(names: set<string>, version: string, includeWindows: bool) {
    && (FileOf(version, AppImageTar, "x86_64") in names || FileOf(version, AppImage, "x86_64") in names)
    && (FileOf(version, AppImageTar, "aarch64") in names || FileOf(version, AppImage, "aarch64") in names)
    && FileOf(version, Deb, "x86_64") in names && FileOf(version, Deb, "aarch64") in names
    && (includeWindows ==> FileOf(version, Nsis, "x86_64") in names)
  }

  ghost predicate IsSpelledOut(names: set<string>, version: string, read: string -> Option<string>, includeWindows: bool) {
    && IsVersion(version) && OnlyPlatformFiles(names, version, includeWindows)
    && FilesAreSigned(names, version, read, includeWindows) && AllPlatformsAreThere(names, version, includeWindows)
  }

  lemma SignatureOf(name: string)
    ensures IsSig(name + ".sig") && Signed(name + ".sig") == name
    ensures IsSig(name) ==> Signed(name) + ".sig" == name
  {
    assert (name + ".sig")[|name + ".sig"| - 4..] == ".sig";
  }

  /** In a release every bundle is one of the platforms' files. */
  lemma ReleaseBundle(names: set<string>, version: string, read: string -> Option<string>, includeWindows: bool, n: string)
    returns (kind: Kind, arch: string)
    requires IsRelease(names, version, read, includeWindows) && n in names && !IsSig(n)
    ensures IsVersion(version) && IsPlatform(kind, arch, includeWindows) && n == FileOf(version, kind, arch)
  {
    MatchInFinds(FORMS, n);
    var found := MatchBundle(n).value;
    kind, arch := found.kind, found.arch;
    assert IsBundle(n, version, kind, arch);
    assert Has(names, version, kind, arch);
    assert kind != Nsis ==> HasLinux(names, version, arch);
    ExpectedArches(arch);
    BundleIsItsFile(version, kind, arch, n);
  }

  lemma ExpectedArches(arch: string)
    ensures arch in EXPECTED_LINUX <==> arch == "x86_64" || arch == "aarch64"
    ensures arch in EXPECTED_WINDOWS <==> arch == "x86_64"
  {
  }

  lemma ReleaseVersion(names: set<string>, version: string, read: string -> Option<string>, includeWindows: bool)
    requires IsRelease(names, version, read, includeWindows)
    ensures IsVersion(version)
  {
    ExpectedArches("x86_64");
    assert Has(names, version, Deb, "x86_64");
    var n :| n in names && IsBundle(n, version, Deb, "x86_64");
    var kind, arch := ReleaseBundle(names, version, read, includeWindows, n);
  }

  lemma ReleaseHasOnlyFiles(names: set<string>, version: string, read: string -> Option<string>, includeWindows: bool)
    requires IsRelease(names, version, read, includeWindows)
    ensures OnlyPlatformFiles(names, version, includeWindows)
  {
    forall n | n in names
      ensures exists kind, arch :: IsPlatform(kind, arch, includeWindows) && IsItsFile(n, FileOf(version, kind, arch))
    {
      SignatureOf(n);
      var bundle := if IsSig(n) then Signed(n) else n;
      var kind, arch := ReleaseBundle(names, version, read, includeWindows, bundle);
      assert IsItsFile(n, FileOf(version, kind, arch));
    }
  }

  lemma ReleaseIsSigned(names: set<string>, version: string, read: string -> Option<string>, includeWindows: bool)
    requires IsRelease(names, version, read, includeWindows) && IsVersion(version)
    ensures FilesAreSigned(names, version, read, includeWindows)
  {
    forall kind, arch | IsPlatform(kind, arch, includeWindows)
      ensures FileOf(version, kind, arch) in names <==> FileOf(version, kind, arch) + ".sig" in names
      ensures FileOf(version, kind, arch) + ".sig" in names ==> read(FileOf(version, kind, arch) + ".sig").Some?
    {
      var file := FileOf(version, kind, arch);
      BundleIsItsFile(version, kind, arch, file);
      SignatureOf(file);
    }
  }

  lemma ReleaseHasAllPlatforms(names: set<string>, version: string, includeWindows: bool)
    requires RightArches(names, version, includeWindows) && IsVersion(version)
    ensures AllPlatformsAreThere(names, version, includeWindows)
  {
    forall arch ensures (arch in EXPECTED_LINUX <==> arch == "x86_64" || arch == "aarch64") && (arch in EXPECTED_WINDOWS <==> arch == "x86_64") {
      ExpectedArches(arch);
    }
    forall kind, arch | IsPlatform(kind, arch, true) ensures Has(names, version, kind, arch) <==> FileOf(version, kind, arch) in names {
      HasItsFile(names, version, kind, arch);
    }
  }

  /** A bundle among spelled-out files is of one of their platforms. */
  lemma BundleOfFiles(names: set<string>, version: string, includeWindows: bool, n: string, kind: Kind, arch: string)
    requires IsVersion(version) && OnlyPlatformFiles(names, version, includeWindows)
    requires n in names && IsBundle(n, version, kind, arch)
    ensures IsPlatform(kind, arch, includeWindows)
  {
    var k, a :| IsPlatform(k, a, includeWindows) && IsItsFile(n, FileOf(version, k, a));
    SignatureOf(FileOf(version, k, a));
    BundleIsItsFile(version, k, a, n);
  }

  lemma FileIsNotLatest(version: string, kind: Kind, arch: string)
    ensures FileOf(version, kind, arch) != "latest.json" && FileOf(version, kind, arch) + ".sig" != "latest.json"
  {
    assert FileOf(version, kind, arch)[0] == 'H' && "latest.json"[0] == 'l';
  }

  /** A file with its signature beside it, and the signature itself, are as sorting wants them. */
  lemma SignedFileIsSorted(names: set<string>, version: string, read: string -> Option<string>, n: string, file: string)
    requires !IsSig(file) && MatchBundle(file).Some? && MatchBundle(file).value.version == version
    requires file in names && file + ".sig" in names && read(file + ".sig").Some?
    requires IsItsFile(n, file)
    ensures IsSig(n) ==> read(n).Some? && Signed(n) in names && !IsSig(Signed(n))
    ensures !IsSig(n) ==> MatchBundle(n).Some? && MatchBundle(n).value.version == version && n + ".sig" in names
  {
    SignatureOf(file);
  }

  lemma PlatformFile(names: set<string>, version: string, read: string -> Option<string>, includeWindows: bool, n: string)
    returns (kind: Kind, arch: string, file: string)
    requires OnlyPlatformFiles(names, version, includeWindows) && FilesAreSigned(names, version, read, includeWindows) && n in names
    ensures IsPlatform(kind, arch, includeWindows) && file == FileOf(version, kind, arch) && IsItsFile(n, file)
    ensures file in names && file + ".sig" in names && read(file + ".sig").Some?
  {
    kind, arch :| IsPlatform(kind, arch, includeWindows) && IsItsFile(n, FileOf(version, kind, arch));
    file := FileOf(version, kind, arch);
  }

  lemma FileIsMatched(version: string, kind: Kind, arch: string, file: string)
    requires IsVersion(version) && IsPlatform(kind, arch, true) && file == FileOf(version, kind, arch)
    ensures !IsSig(file) && MatchBundle(file).Some? && MatchBundle(file).value.version == version
    ensures file != "latest.json" && file + ".sig" != "latest.json"
  {
    BundleIsItsFile(version, kind, arch, file);
    FileIsNotLatest(version, kind, arch);
  }

  lemma SpelledOutFile(names: set<string>, version: string, read: string -> Option<string>, includeWindows: bool, n: string)
    requires IsVersion(version) && OnlyPlatformFiles(names, version, includeWindows)
    requires FilesAreSigned(names, version, read, includeWindows) && n in names
    ensures n != "latest.json"
    ensures IsSig(n) ==> read(n).Some? && Signed(n) in names && !IsSig(Signed(n))
    ensures !IsSig(n) ==> MatchBundle(n).Some? && MatchBundle(n).value.version == version && n + ".sig" in names
  {
    var kind, arch, file := PlatformFile(names, version, read, includeWindows, n);
    FileIsMatched(version, kind, arch, file);
    SignedFileIsSorted(names, version, read, n, file);
  }

  lemma SpelledOutIsSortable(names: set<string>, version: string, read: string -> Option<string>, includeWindows: bool)
    requires IsSpelledOut(names, version, read, includeWindows)
    ensures Sortable(names, version, read) && PairedOff(names)
  {
    forall n | n in names
      ensures n != "latest.json"
      ensures IsSig(n) ==> read(n).Some? && Signed(n) in names && !IsSig(Signed(n))
      ensures !IsSig(n) ==> MatchBundle(n).Some? && MatchBundle(n).value.version == version && n + ".sig" in names
    {
      SpelledOutFile(names, version, read, includeWindows, n);
    }
  }

  lemma OnlyPlatformsAreHad(names: set<string>, version: string, includeWindows: bool, kind: Kind, arch: string)
    requires IsVersion(version) && OnlyPlatformFiles(names, version, includeWindows) && Has(names, version, kind, arch)
    ensures IsPlatform(kind, arch, includeWindows)
  {
    var n :| n in names && IsBundle(n, version, kind, arch);
    BundleOfFiles(names, version, includeWindows, n, kind, arch);
  }

  lemma LinuxIsHad(names: set<string>, version: string, arch: string)
    requires IsVersion(version) && (arch == "x86_64" || arch == "aarch64")
    requires FileOf(version, AppImageTar, arch) in names || FileOf(version, AppImage, arch) in names
    requires FileOf(version, Deb, arch) in names
    ensures (Has(names, version, AppImageTar, arch) || Has(names, version, AppImage, arch)) && Has(names, version, Deb, arch)
  {
    HasItsFile(names, version, AppImageTar, arch);
    HasItsFile(names, version, AppImage, arch);
    HasItsFile(names, version, Deb, arch);
  }

  lemma LinuxArchesAreHad(names: set<string>, version: string, includeWindows: bool, arch: string)
    requires IsVersion(version) && OnlyPlatformFiles(names, version, includeWindows) && AllPlatformsAreThere(names, version, includeWindows)
    ensures HasLinux(names, version, arch) <==> arch in EXPECTED_LINUX
    ensures arch in EXPECTED_LINUX ==>
      (Has(names, version, AppImageTar, arch) || Has(names, version, AppImage, arch)) && Has(names, version, Deb, arch)
  {
    ExpectedArches(arch);
    if arch == "x86_64" || arch == "aarch64" {
      LinuxIsHad(names, version, arch);
    } else if HasLinux(names, version, arch) {
      var kind :| kind != Nsis && Has(names, version, kind, arch);
      OnlyPlatformsAreHad(names, version, includeWindows, kind, arch);
    }
  }

  lemma WindowsArchesAreHad(names: set<string>, version: string, includeWindows: bool, arch: string)
    requires IsVersion(version) && OnlyPlatformFiles(names, version, includeWindows) && AllPlatformsAreThere(names, version, includeWindows)
    ensures Has(names, version, Nsis, arch) <==> includeWindows && arch in EXPECTED_WINDOWS
  {
    ExpectedArches(arch);
    if arch == "x86_64" {
      HasItsFile(names, version, Nsis, arch);
    }
    if Has(names, version, Nsis, arch) {
      OnlyPlatformsAreHad(names, version, includeWindows, Nsis, arch);
    }
  }

  lemma SpelledOutHasRightArches(names: set<string>, version: string, read: string -> Option<string>, includeWindows: bool)
    requires IsSpelledOut(names, version, read, includeWindows)
    ensures RightArches(names, version, includeWindows)
  {
    forall arch
      ensures HasLinux(names, version, arch) <==> arch in EXPECTED_LINUX
      ensures arch in EXPECTED_LINUX ==>
        (Has(names, version, AppImageTar, arch) || Has(names, version, AppImage, arch)) && Has(names, version, Deb, arch)
      ensures Has(names, version, Nsis, arch) <==> includeWindows && arch in EXPECTED_WINDOWS
    {
      LinuxArchesAreHad(names, version, includeWindows, arch);
      WindowsArchesAreHad(names, version, includeWindows, arch);
    }
  }

  /**
   * What is accepted, name by name: of one version, the package and at least one AppImage
   * form for both Linux architectures, the Windows installer exactly when it is included, a
   * readable signature beside each, and no other file.
   */
  lemma ReleaseSpelledOut(names: set<string>, version: string, read: string -> Option<string>, includeWindows: bool)
    ensures IsRelease(names, version, read, includeWindows) <==> IsSpelledOut(names, version, read, includeWindows)
  {
    if IsRelease(names, version, read, includeWindows) {
      ReleaseVersion(names, version, read, includeWindows);
      ReleaseHasOnlyFiles(names, version, read, includeWindows);
      ReleaseIsSigned(names, version, read, includeWindows);
      ReleaseHasAllPlatforms(names, version, includeWindows);
    }
    if IsSpelledOut(names, version, read, includeWindows) {
      SpelledOutIsSortable(names, version, read, includeWindows);
      SpelledOutHasRightArches(names, version, read, includeWindows);
    }
  }

  // ---------- The rows of a manifest ----------

  /** Under this text stands this file, with the signature beside it. */
  ghost predicate Row(platforms: Platforms, read: string -> Option<string>, text: string, file: string) {
    exists key :: key in platforms && Written(key) == text && platforms[key].name == file
      && read(file + ".sig") == Some(platforms[key].signature)
  }

  /** The AppImage that is published: the updater's archive if there is one. */
  function ImageFile(names: set<string>, version: string, arch: string): string {
    if FileOf(version, AppImageTar, arch) in names then FileOf(version, AppImageTar, arch) else FileOf(version, AppImage, arch)
  }

  lemma RowOf(names: set<string>, version: string, read: string -> Option<string>, platforms: Platforms, key: Key,
              kind: Kind, arch: string)
    requires IsVersion(version) && IsPlatform(kind, arch, true) && key in platforms
    requires Publishes(names, version, read, platforms[key], kind, arch)
    ensures Row(platforms, read, Written(key), FileOf(version, kind, arch))
  {
    BundleIsItsFile(version, kind, arch, platforms[key].name);
  }

  lemma LinuxRowsSpelledOut(names: set<string>, version: string, read: string -> Option<string>, arch: string, platforms: Platforms)
    requires IsVersion(version) && (arch == "x86_64" || arch == "aarch64")
    requires LinuxPublished(names, version, read, arch, platforms)
    ensures Row(platforms, read, "linux-" + arch, ImageFile(names, version, arch))
    ensures Row(platforms, read, "linux-" + arch + "-appimage", ImageFile(names, version, arch))
    ensures Row(platforms, read, "linux-" + arch + "-deb", FileOf(version, Deb, arch))
  {
    HasItsFile(names, version, AppImageTar, arch);
    var image := Preferred(names, version, arch);
    RowOf(names, version, read, platforms, LinuxKey(arch), image, arch);
    RowOf(names, version, read, platforms, LinuxAppImageKey(arch), image, arch);
    RowOf(names, version, read, platforms, LinuxDebKey(arch), Deb, arch);
  }

  lemma WindowsRowsSpelledOut(names: set<string>, version: string, read: string -> Option<string>, arch: string, platforms: Platforms)
    requires IsVersion(version) && arch == "x86_64" && WindowsPublished(names, version, read, arch, platforms)
    ensures Row(platforms, read, "windows-" + arch, FileOf(version, Nsis, arch))
    ensures Row(platforms, read, "windows-" + arch + "-nsis", FileOf(version, Nsis, arch))
  {
    RowOf(names, version, read, platforms, WindowsKey(arch), Nsis, arch);
    RowOf(names, version, read, platforms, WindowsNsisKey(arch), Nsis, arch);
  }

  /** Each key of a manifest as it is written, and the file it publishes. */
  lemma ManifestSpelledOut(names: set<string>, version: string, read: string -> Option<string>, includeWindows: bool,
                           platforms: Platforms, arch: string)
    requires IsManifest(names, version, read, includeWindows, platforms) && IsVersion(version)
    ensures arch == "x86_64" || arch == "aarch64" ==>
      && Row(platforms, read, "linux-" + arch, ImageFile(names, version, arch))
      && Row(platforms, read, "linux-" + arch + "-appimage", ImageFile(names, version, arch))
      && Row(platforms, read, "linux-" + arch + "-deb", FileOf(version, Deb, arch))
    ensures arch == "x86_64" && includeWindows ==>
      && Row(platforms, read, "windows-" + arch, FileOf(version, Nsis, arch))
      && Row(platforms, read, "windows-" + arch + "-nsis", FileOf(version, Nsis, arch))
    ensures |platforms| == if includeWindows then 8 else 6
  {
    ExpectedArches(arch);
    ManifestKeyCount(platforms, includeWindows);
    if arch == "x86_64" || arch == "aarch64" {
      assert arch in Members(EXPECTED_LINUX);
      LinuxRowsSpelledOut(names, version, read, arch, platforms);
    }
    if arch == "x86_64" && includeWindows {
      assert arch in WindowsArches(includeWindows);
      WindowsRowsSpelledOut(names, version, read, arch, platforms);
    }
  }
}
