/**
 * Building the manifest from an accepted set of files (scripts/gen-update-manifest.py,
 * assemble): what each platform key points at.
 */
module ManifestAssembly {
  import opened Collections
  import opened Wrappers
  import opened UpdateManifest

  /** What a platform key maps to; the download address is made of the bundle's name. */
  datatype Entry = Entry(name: string, signature: string)

  /** A platform key; Written gives its text. */
  datatype Key =
    | LinuxKey(arch: string) | LinuxAppImageKey(arch: string) | LinuxDebKey(arch: string)
    | WindowsKey(arch: string) | WindowsNsisKey(arch: string)

  type Platforms = map<Key, Entry>

  /** The key as it is written. */
  function Written(key: Key): string {
    match key
    case LinuxKey(arch) => "linux-" + arch
    case LinuxAppImageKey(arch) => "linux-" + arch + "-appimage"
    case LinuxDebKey(arch) => "linux-" + arch + "-deb"
    case WindowsKey(arch) => "windows-" + arch
    case WindowsNsisKey(arch) => "windows-" + arch + "-nsis"
  }

  predicate ForWindows(key: Key) {
    key.WindowsKey? || key.WindowsNsisKey?
  }

  /** `version.split("+", 1)[0]` */
  function ArtifactVersion(version: string): (artifact: string)
    ensures '+' !in artifact && artifact <= version
    ensures |artifact| < |version| ==> version[|artifact|] == '+'
  {
    if version == "" || version[0] == '+' then "" else [version[0]] + ArtifactVersion(version[1..])
  }

  /** The entry publishes this bundle with the signature read from the file beside it. */
  ghost predicate Publishes(names: set<string>, version: string, read: string -> Option<string>, entry: Entry,
                            kind: Kind, arch: string) {
    && entry.name in names && IsBundle(entry.name, version, kind, arch)
    && entry.name + SIG in names && read(entry.name + SIG) == Some(entry.signature)
  }

  /** The AppImage form that is preferred among those present. */
  ghost function Preferred(names: set<string>, version: string, arch: string): Kind {
    if Has(names, version, AppImageTar, arch) then AppImageTar else AppImage
  }

  ghost predicate LinuxPublished(names: set<string>, version: string, read: string -> Option<string>, arch: string,
                                 platforms: Platforms) {
    && LinuxKey(arch) in platforms && LinuxAppImageKey(arch) in platforms && LinuxDebKey(arch) in platforms
    && platforms[LinuxKey(arch)] == platforms[LinuxAppImageKey(arch)]
    && Publishes(names, version, read, platforms[LinuxKey(arch)], Preferred(names, version, arch), arch)
    && Publishes(names, version, read, platforms[LinuxDebKey(arch)], Deb, arch)
  }

  ghost predicate WindowsPublished(names: set<string>, version: string, read: string -> Option<string>, arch: string,
                                   platforms: Platforms) {
    && WindowsKey(arch) in platforms && WindowsNsisKey(arch) in platforms
    && platforms[WindowsKey(arch)] == platforms[WindowsNsisKey(arch)]
    && Publishes(names, version, read, platforms[WindowsKey(arch)], Nsis, arch)
  }

  ghost predicate AllLinux(names: set<string>, version: string, read: string -> Option<string>, arches: set<string>,
                           platforms: Platforms) {
    forall arch :: arch in arches ==> LinuxPublished(names, version, read, arch, platforms)
  }

  ghost predicate AllWindows(names: set<string>, version: string, read: string -> Option<string>, arches: set<string>,
                             platforms: Platforms) {
    forall arch :: arch in arches ==> WindowsPublished(names, version, read, arch, platforms)
  }

  /** The keys are exactly those of these architectures. */
  ghost predicate KeyedBy(platforms: Platforms, linuxArches: set<string>, windowsArches: set<string>) {
    forall key :: key in platforms <==> if ForWindows(key) then key.arch in windowsArches else key.arch in linuxArches
  }

  /** The Windows architectures a release carries. */
  function WindowsArches(includeWindows: bool): set<string> {
    if includeWindows then Members(EXPECTED_WINDOWS) else {}
  }

  /** A manifest of these files: exactly the expected keys, each publishing the right bundle. */
  ghost predicate IsManifest(names: set<string>, version: string, read: string -> Option<string>, includeWindows: bool,
                             platforms: Platforms) {
    && KeyedBy(platforms, Members(EXPECTED_LINUX), WindowsArches(includeWindows))
    && AllLinux(names, version, read, Members(EXPECTED_LINUX), platforms)
    && AllWindows(names, version, read, WindowsArches(includeWindows), platforms)
  }

  // ---------- Counting the keys ----------

  lemma LengthTells(key: Key)
    requires if ForWindows(key) then key.arch == EXPECTED_WINDOWS[0] else key.arch in EXPECTED_LINUX
    ensures |Written(key)| == match key
      case LinuxKey(arch) => if arch == EXPECTED_LINUX[0] then 12 else 13
      case LinuxAppImageKey(arch) => if arch == EXPECTED_LINUX[0] then 21 else 22
      case LinuxDebKey(arch) => if arch == EXPECTED_LINUX[0] then 16 else 17
      case WindowsKey(_) => 14
      case WindowsNsisKey(_) => 19
  {
  }

  /** Written out, no two keys of a manifest are the same text: each has a length of its own. */
  lemma WrittenKeysDiffer(platforms: Platforms, includeWindows: bool, a: Key, b: Key)
    requires KeyedBy(platforms, Members(EXPECTED_LINUX), WindowsArches(includeWindows))
    requires a in platforms && b in platforms && Written(a) == Written(b)
    ensures a == b
  {
    LengthTells(a);
    LengthTells(b);
  }

  function LinuxKeys(arch: string): set<Key> {
    {LinuxKey(arch), LinuxAppImageKey(arch), LinuxDebKey(arch)}
  }

  /** Three keys for each Linux architecture and two for Windows. */
  lemma ManifestKeyCount(platforms: Platforms, includeWindows: bool)
    requires KeyedBy(platforms, Members(EXPECTED_LINUX), WindowsArches(includeWindows))
    ensures |platforms| == if includeWindows then 8 else 6
  {
    var a, b, w := EXPECTED_LINUX[0], EXPECTED_LINUX[1], EXPECTED_WINDOWS[0];
    KeysSpelledOut(platforms.Keys, platforms, includeWindows, a, b, w);
    KeyCount(a, b, w);
  }

  lemma KeyCount(a: string, b: string, w: string)
    requires a != b
    ensures |LinuxKeys(a) + LinuxKeys(b)| == 6 && |LinuxKeys(a) + LinuxKeys(b) + {WindowsKey(w), WindowsNsisKey(w)}| == 8
  {
    LinuxKeyCount(a, b);
    UnionCount(LinuxKeys(a) + LinuxKeys(b), {WindowsKey(w), WindowsNsisKey(w)});
  }

  lemma KeysSpelledOut(keys: set<Key>, platforms: Platforms, includeWindows: bool, a: string, b: string, w: string)
    requires keys == platforms.Keys && KeyedBy(platforms, Members(EXPECTED_LINUX), WindowsArches(includeWindows))
    requires a == EXPECTED_LINUX[0] && b == EXPECTED_LINUX[1] && w == EXPECTED_WINDOWS[0]
    ensures keys == LinuxKeys(a) + LinuxKeys(b) + if includeWindows then {WindowsKey(w), WindowsNsisKey(w)} else {}
  {
  }

  lemma LinuxKeyCount(a: string, b: string)
    requires a != b
    ensures |LinuxKeys(a) + LinuxKeys(b)| == 6
  {
    UnionCount(LinuxKeys(a), LinuxKeys(b));
  }

  lemma UnionCount(x: set<Key>, y: set<Key>)
    requires x !! y
    ensures |x + y| == |x| + |y|
  {
  }

  // ---------- Filling the platforms ----------

  /** What an accepted set of files looks like after collecting. */
  ghost predicate Accepted(names: set<string>, version: string, read: string -> Option<string>, includeWindows: bool,
                           c: Collected) {
    && Tabled(names, version, c.linux, c.windows) && SignaturesRead(names, read, c.signatures)
    && Complete(c.linux, c.windows, includeWindows) && Every(c.linux, c.windows) == c.signatures.Keys
  }

  predicate HasPlace(c: Collected, kind: Kind, arch: string) {
    if kind == Nsis then arch in c.windows else kind in ByKind(c.linux, arch)
  }

  /** The file that holds this place of the tables. */
  function At(c: Collected, kind: Kind, arch: string): string
    requires HasPlace(c, kind, arch)
  {
    if kind == Nsis then c.windows[arch] else c.linux[arch][kind]
  }

  /** Looking up a collected bundle's signature is always defined, and gives what stands beside it. */
  lemma EntryPublishes(names: set<string>, version: string, read: string -> Option<string>, includeWindows: bool,
                       c: Collected, kind: Kind, arch: string)
    requires Accepted(names, version, read, includeWindows, c) && HasPlace(c, kind, arch)
    ensures At(c, kind, arch) in c.signatures
    ensures Publishes(names, version, read, Entry(At(c, kind, arch), c.signatures[At(c, kind, arch)]), kind, arch)
  {
    var name := At(c, kind, arch);
    assert name in Every(c.linux, c.windows);
  }

  /** The lookup of this place's bundle and signature is defined. */
  predicate Usable(c: Collected, kind: Kind, arch: string) {
    HasPlace(c, kind, arch) && At(c, kind, arch) in c.signatures
  }

  function EntryAt(c: Collected, kind: Kind, arch: string): Entry
    requires Usable(c, kind, arch)
  {
    Entry(At(c, kind, arch), c.signatures[At(c, kind, arch)])
  }

  /** `by_kind.get("appimage_tar") or by_kind["appimage"]` */
  function Image(c: Collected, arch: string): Kind {
    if HasPlace(c, AppImageTar, arch) then AppImageTar else AppImage
  }

  /** The tables as the loops see them: no lookup fails. */
  ghost predicate LinuxUsable(c: Collected, arches: set<string>) {
    forall arch :: arch in arches ==> Usable(c, Image(c, arch), arch) && Usable(c, Deb, arch)
  }

  ghost predicate WindowsUsable(c: Collected, arches: set<string>) {
    forall arch :: arch in arches ==> Usable(c, Nsis, arch)
  }

  lemma CompleteHasPlaces(c: Collected, includeWindows: bool, arch: string)
    requires Complete(c.linux, c.windows, includeWindows) && arch in c.linux
    ensures HasPlace(c, Image(c, arch), arch) && HasPlace(c, Deb, arch)
  {
  }

  lemma AcceptedIsUsable(names: set<string>, version: string, read: string -> Option<string>, includeWindows: bool,
                         c: Collected)
    requires Accepted(names, version, read, includeWindows, c)
    ensures LinuxUsable(c, c.linux.Keys) && WindowsUsable(c, c.windows.Keys)
  {
    forall arch | arch in c.linux ensures Usable(c, Image(c, arch), arch) && Usable(c, Deb, arch) {
      CompleteHasPlaces(c, includeWindows, arch);
      EntryPublishes(names, version, read, includeWindows, c, Image(c, arch), arch);
      EntryPublishes(names, version, read, includeWindows, c, Deb, arch);
    }
    forall arch | arch in c.windows ensures Usable(c, Nsis, arch) {
      EntryPublishes(names, version, read, includeWindows, c, Nsis, arch);
    }
  }

  /** What the platforms say of one key once its architecture has been filled in. */
  ghost predicate RowIs(platforms: Platforms, key: Key, c: Collected, kind: Kind) {
    key in platforms && Usable(c, kind, key.arch) && platforms[key] == EntryAt(c, kind, key.arch)
  }

  function KindOf(c: Collected, key: Key): Kind {
    if ForWindows(key) then Nsis else if key.LinuxDebKey? then Deb else Image(c, key.arch)
  }

  /** The platforms hold exactly the keys of these architectures, each with its own bundle. */
  ghost predicate Filled(c: Collected, linuxArches: set<string>, windowsArches: set<string>, platforms: Platforms) {
    && KeyedBy(platforms, linuxArches, windowsArches)
    && forall key :: key in platforms ==> RowIs(platforms, key, c, KindOf(c, key))
  }

  /** The three assignments of the Linux loop. */
  function WithLinuxKeys(before: Platforms, c: Collected, arch: string): Platforms
    requires Usable(c, Image(c, arch), arch) && Usable(c, Deb, arch)
  {
    var appimage := EntryAt(c, Image(c, arch), arch);
    before[LinuxKey(arch) := appimage][LinuxAppImageKey(arch) := appimage][LinuxDebKey(arch) := EntryAt(c, Deb, arch)]
  }

  /** The two assignments of the Windows loop. */
  function WithWindowsKeys(before: Platforms, c: Collected, arch: string): Platforms
    requires Usable(c, Nsis, arch)
  {
    before[WindowsKey(arch) := EntryAt(c, Nsis, arch)][WindowsNsisKey(arch) := EntryAt(c, Nsis, arch)]
  }

  lemma LinuxJoins(c: Collected, linuxArches: set<string>, before: Platforms, arch: string, after: Platforms)
    requires Filled(c, linuxArches, {}, before)
    requires Usable(c, Image(c, arch), arch) && Usable(c, Deb, arch)
    requires after == WithLinuxKeys(before, c, arch)
    ensures Filled(c, linuxArches + {arch}, {}, after)
  {
  }

  lemma WindowsJoins(c: Collected, linuxArches: set<string>, windowsArches: set<string>, before: Platforms, arch: string,
                     after: Platforms)
    requires Filled(c, linuxArches, windowsArches, before)
    requires Usable(c, Nsis, arch)
    requires after == WithWindowsKeys(before, c, arch)
    ensures Filled(c, linuxArches, windowsArches + {arch}, after)
  {
  }

  method FillLinux(c: Collected, arches: set<string>) returns (platforms: Platforms)
    requires LinuxUsable(c, arches)
    ensures Filled(c, arches, {}, platforms)
  {
    platforms := map[];
    var rest := arches;
    assert arches - rest == {};
    while rest != {}
      invariant rest <= arches && Filled(c, arches - rest, {}, platforms)
      decreases |rest|
    {
      var arch :| arch in rest;
      ghost var filled, before := arches - rest, platforms;
      platforms := WithLinuxKeys(platforms, c, arch);
      rest := rest - {arch};
      assert arches - rest == filled + {arch};
      LinuxJoins(c, filled, before, arch, platforms);
    }
    assert arches - rest == arches;
  }

  method FillWindows(c: Collected, arches: set<string>, ghost linuxArches: set<string>, linuxOnly: Platforms)
    returns (platforms: Platforms)
    requires WindowsUsable(c, arches) && Filled(c, linuxArches, {}, linuxOnly)
    ensures Filled(c, linuxArches, arches, platforms)
  {
    platforms := linuxOnly;
    var rest := arches;
    ghost var filled: set<string> := {};
    while rest != {}
      invariant filled + rest == arches && filled !! rest
      invariant Filled(c, linuxArches, filled, platforms)
      decreases |rest|
    {
      var arch :| arch in rest;
      ghost var before := platforms;
      platforms := WithWindowsKeys(platforms, c, arch);
      WindowsJoins(c, linuxArches, filled, before, arch, platforms);
      rest := rest - {arch};
      filled := filled + {arch};
    }
    assert filled == arches;
  }

  lemma CompleteKeys(linux: Linux, windows: Windows, includeWindows: bool)
    requires Complete(linux, windows, includeWindows)
    ensures linux.Keys == Members(EXPECTED_LINUX) && windows.Keys == WindowsArches(includeWindows)
  {
  }

  lemma LinuxRows(c: Collected, platforms: Platforms, linuxArches: set<string>, windowsArches: set<string>, arch: string)
    requires Filled(c, linuxArches, windowsArches, platforms) && arch in linuxArches
    ensures RowIs(platforms, LinuxKey(arch), c, Image(c, arch)) && RowIs(platforms, LinuxAppImageKey(arch), c, Image(c, arch))
    ensures RowIs(platforms, LinuxDebKey(arch), c, Deb)
  {
  }

  lemma ImageIsPreferred(names: set<string>, version: string, read: string -> Option<string>, includeWindows: bool,
                         c: Collected, arch: string)
    requires Accepted(names, version, read, includeWindows, c)
    ensures Image(c, arch) == Preferred(names, version, arch)
  {
    TablesTell(names, version, c.linux, c.windows, AppImageTar, arch);
  }

  lemma RowsArePublished(names: set<string>, version: string, read: string -> Option<string>, includeWindows: bool,
                               c: Collected, platforms: Platforms, image: Kind, arch: string)
    requires Accepted(names, version, read, includeWindows, c) && image == Preferred(names, version, arch)
    requires RowIs(platforms, LinuxKey(arch), c, image) && RowIs(platforms, LinuxAppImageKey(arch), c, image)
    requires RowIs(platforms, LinuxDebKey(arch), c, Deb)
    ensures LinuxPublished(names, version, read, arch, platforms)
  {
    EntryPublishes(names, version, read, includeWindows, c, image, arch);
    EntryPublishes(names, version, read, includeWindows, c, Deb, arch);
  }

  lemma FilledLinuxIsPublished(names: set<string>, version: string, read: string -> Option<string>, includeWindows: bool,
                               c: Collected, platforms: Platforms, linuxArches: set<string>, windowsArches: set<string>,
                               arch: string)
    requires Accepted(names, version, read, includeWindows, c)
    requires Filled(c, linuxArches, windowsArches, platforms) && arch in linuxArches
    ensures LinuxPublished(names, version, read, arch, platforms)
  {
    var image := Image(c, arch);
    LinuxRows(c, platforms, linuxArches, windowsArches, arch);
    ImageIsPreferred(names, version, read, includeWindows, c, arch);
    RowsArePublished(names, version, read, includeWindows, c, platforms, image, arch);
  }

  lemma FilledWindowsIsPublished(names: set<string>, version: string, read: string -> Option<string>, includeWindows: bool,
                                 c: Collected, platforms: Platforms, arch: string)
    requires Accepted(names, version, read, includeWindows, c)
    requires RowIs(platforms, WindowsKey(arch), c, Nsis) && RowIs(platforms, WindowsNsisKey(arch), c, Nsis)
    ensures WindowsPublished(names, version, read, arch, platforms)
  {
    EntryPublishes(names, version, read, includeWindows, c, Nsis, arch);
  }

  lemma FilledIsManifest(names: set<string>, version: string, read: string -> Option<string>, includeWindows: bool,
                         c: Collected, platforms: Platforms, linuxArches: set<string>, windowsArches: set<string>)
    requires Accepted(names, version, read, includeWindows, c)
    requires Filled(c, linuxArches, windowsArches, platforms)
    requires linuxArches == Members(EXPECTED_LINUX) && windowsArches == WindowsArches(includeWindows)
    ensures IsManifest(names, version, read, includeWindows, platforms)
  {
    forall arch | arch in linuxArches ensures LinuxPublished(names, version, read, arch, platforms) {
      FilledLinuxIsPublished(names, version, read, includeWindows, c, platforms, linuxArches, windowsArches, arch);
    }
    forall arch | arch in windowsArches ensures WindowsPublished(names, version, read, arch, platforms) {
      FilledWindowsIsPublished(names, version, read, includeWindows, c, platforms, arch);
    }
  }

  method Fill(ghost names: set<string>, ghost version: string, ghost read: string -> Option<string>,
              ghost includeWindows: bool, c: Collected)
    returns (platforms: Platforms)
    requires Accepted(names, version, read, includeWindows, c)
    ensures IsManifest(names, version, read, includeWindows, platforms)
  {
    CompleteKeys(c.linux, c.windows, includeWindows);
    AcceptedIsUsable(names, version, read, includeWindows, c);
    platforms := FillLinux(c, c.linux.Keys);
    platforms := FillWindows(c, c.windows.Keys, c.linux.Keys, platforms);
    FilledIsManifest(names, version, read, includeWindows, c, platforms, c.linux.Keys, c.windows.Keys);
  }

  // ---------- The whole manifest ----------

  /** Every bundle's signature verifies against the application's key. */
  ghost predicate AllVerify(names: set<string>, read: string -> Option<string>, verified: (string, string) -> bool) {
    forall b :: b in names && b + SIG in names && read(b + SIG).Some? ==> verified(b, read(b + SIG).value)
  }

  method VerifySignatures(signatures: map<string, string>, verified: (string, string) -> bool) returns (ok: bool)
    ensures ok <==> forall b :: b in signatures ==> verified(b, signatures[b])
  {
    var rest := signatures.Keys;
    while rest != {}
      invariant rest <= signatures.Keys
      invariant forall b :: b in signatures && b !in rest ==> verified(b, signatures[b])
      decreases |rest|
    {
      var b :| b in rest;
      if !verified(b, signatures[b]) {
        return false;
      }
      rest := rest - {b};
    }
    return true;
  }

  lemma VerifyingTheCollectedIsVerifyingAll(names: set<string>, version: string, read: string -> Option<string>,
                                            includeWindows: bool, signatures: map<string, string>,
                                            verified: (string, string) -> bool)
    requires SignaturesRead(names, read, signatures) && IsRelease(names, version, read, includeWindows)
    ensures AllVerify(names, read, verified) <==> forall b :: b in signatures ==> verified(b, signatures[b])
  {
    forall b ensures IsSig(b + SIG) && Signed(b + SIG) == b {
    }
  }

  /** A manifest is written exactly for a complete release that verifies; it points every key at the right file. */
  method Assemble(names: seq<string>, version: string, read: string -> Option<string>, includeWindows: bool,
                  verified: (string, string) -> bool)
    returns (r: Result<Platforms, Refusal>)
    requires Distinct(names)
    ensures r.Success? <==> IsRelease(Members(names), ArtifactVersion(version), read, includeWindows)
                            && AllVerify(Members(names), read, verified)
    ensures r.Success? ==> IsManifest(Members(names), ArtifactVersion(version), read, includeWindows, r.value)
    ensures r != Failure(TwoBundles)
    ensures r.Failure? && r.error != Unverified ==>
      IsTrueOf(Members(names), ArtifactVersion(version), read, includeWindows, r.error)
    ensures r == Failure(Unverified) ==> !AllVerify(Members(names), read, verified)
  {
    var artifact := ArtifactVersion(version);
    ghost var members := Members(names);
    var accepted := Collect(names, artifact, read, includeWindows);
    match accepted {
      case Failure(refusal) => return Failure(refusal);
      case Success(c) =>
        VerifyingTheCollectedIsVerifyingAll(members, artifact, read, includeWindows, c.signatures, verified);
        var ok := VerifySignatures(c.signatures, verified);
        if !ok {
          return Failure(Unverified);
        }
        var platforms := Fill(members, artifact, read, includeWindows, c);
        return Success(platforms);
    }
  }
}
