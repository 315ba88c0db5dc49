/**
 * The window-background slot (src-tauri/src/fs.rs, set_window_background_under,
 * park_current_window_background, unpark_window_background, settle_window_background_under,
 * remove_window_background_under): a park/write/settle protocol over one small directory.
 */
module WindowBackground {
  import opened Wrappers

  type Bytes = seq<nat>

  const STEM := "window-background"
  const PREVIOUS_STEM := "window-background-previous"
  const EXTS := ["png", "jpg", "jpeg", "webp", "gif"]

  // ---------- File names ----------

  function NameOf(stem: string, ext: string): string {
    stem + "." + ext
  }

  /** `name.starts_with(&format!("{stem}."))` */
  predicate HasStem(name: string, stem: string) {
    stem + "." <= name
  }

  function AsciiLower(c: char): char {
    if 'A' <= c <= 'Z' then (c as int + 32) as char else c
  }

  function Lowercase(s: string): string {
    seq(|s|, i requires 0 <= i < |s| => AsciiLower(s[i]))
  }

  /** What follows the last dot, in lower case; nothing without a dot. */
  function ExtOf(name: string): string {
    if name == "" then ""
    else if '.' !in name then ""
    else if '.' !in name[1..] && name[0] == '.' then Lowercase(name[1..])
    else ExtOf(name[1..])
  }

  /** An extension as the accepted ones are written. */
  ghost predicate Plain(ext: string) {
    forall c :: c in ext ==> c != '.' && AsciiLower(c) == c
  }

  lemma AcceptedArePlain(ext: string)
    requires ext in EXTS
    ensures Plain(ext)
  {
  }

  lemma {:induction false} ExtOfName(stem: string, ext: string)
    requires Plain(ext)
    ensures ExtOf(stem + "." + ext) == ext
  {
    var name := stem + "." + ext;
    assert '.' in name by { assert name[|stem|] == '.'; }
    if stem == "" {
      assert name[1..] == ext;
      assert Lowercase(ext) == ext;
    } else {
      assert name[1..] == stem[1..] + "." + ext;
      assert '.' in name[1..] by { assert name[1..][|stem| - 1] == '.'; }
      ExtOfName(stem[1..], ext);
    }
  }

  lemma {:induction false} OnlyTheLastDotCounts(stem: string, written: string)
    requires '.' !in written
    ensures ExtOf(stem + "." + written) == Lowercase(written)
  {
    var name := stem + "." + written;
    assert '.' in name by { assert name[|stem|] == '.'; }
    if stem == "" {
      assert name[1..] == written;
    } else {
      assert name[1..] == stem[1..] + "." + written;
      assert '.' in name[1..] by { assert name[1..][|stem| - 1] == '.'; }
      OnlyTheLastDotCounts(stem[1..], written);
    }
  }

  /** `s` is `t` with any of its ASCII letters in upper case. */
  ghost predicate CapitalizesSome(s: string, t: string) {
    && |s| == |t|
    && forall i :: 0 <= i < |s| ==> s[i] == t[i] || ('a' <= t[i] <= 'z' && s[i] as int == t[i] as int - 32)
  }

  /** However its letters are written, an extension is recognized, behind the last dot of a name only. */
  lemma ExtensionIsRecognized(stem: string, written: string, ext: string)
    requires ext in EXTS && CapitalizesSome(written, ext)
    ensures ExtOf(stem + "." + written) == ext && ExtOf(written) == ""
  {
    AcceptedAreLetters(ext);
    forall i | 0 <= i < |written| ensures written[i] != '.' && AsciiLower(written[i]) == ext[i] {
    }
    assert forall c :: c in written ==> c != '.';
    OnlyTheLastDotCounts(stem, written);
    assert Lowercase(written) == ext;
  }

  lemma AcceptedExtensions(ext: string)
    ensures ext in EXTS <==> ext == "png" || ext == "jpg" || ext == "jpeg" || ext == "webp" || ext == "gif"
  {
  }

  lemma AcceptedAreLetters(ext: string)
    requires ext in EXTS
    ensures forall i :: 0 <= i < |ext| ==> 'a' <= ext[i] <= 'z'
  {
  }

  /** The two stems never claim the same file: its eighteenth character tells. */
  lemma StemsAreApart(name: string)
    ensures HasStem(name, STEM) ==> |name| > 17 && name[17] == '.'
    ensures HasStem(name, PREVIOUS_STEM) ==> |name| > 17 && name[17] == '-'
  {
    assert (STEM + ".")[17] == '.';
    assert (PREVIOUS_STEM + ".")[17] == '-';
  }

  // ---------- The slot machine ----------

  datatype Slot = Slot(ext: string, bytes: Bytes)

  /** At most one background in use and at most one parked. */
  datatype Slots = Slots(current: Option<Slot>, previous: Option<Slot>)
  {
    ghost predicate Accepted() {
      && (current.Some? ==> current.value.ext in EXTS)
      && (previous.Some? ==> previous.value.ext in EXTS)
    }

    /** What every command leaves: nothing is parked behind an empty slot. */
    predicate Rested() {
      previous.Some? ==> current.Some?
    }
  }

  const EMPTY := Slots(None, None)

  function FileOf(stem: string, slot: Option<Slot>): map<string, Bytes> {
    match slot
    case None => map[]
    case Some(s) => map[NameOf(stem, s.ext) := s.bytes]
  }

  function DirOf(s: Slots): map<string, Bytes> {
    FileOf(STEM, s.current) + FileOf(PREVIOUS_STEM, s.previous)
  }

  /** How writing the image goes; a failed write may leave part of the file behind. */
  datatype WriteOutcome = Written | WriteFailed(partial: Option<Bytes>)

  datatype Error = Refused | Ambiguous | NotWritten | BadKeep

  function Setting(s: Slots, ext: string, bytes: Bytes, outcome: WriteOutcome): Slots {
    if outcome.Written? then Slots(Some(Slot(ext, bytes)), s.current) else Slots(s.current, None)
  }

  function Settling(s: Slots, keep: string): Slots {
    if keep == "new" then s.(previous := None)
    else if keep == "previous" && s.previous.Some? then Slots(s.previous, None)
    else s
  }

  lemma NamesAreApart(e: string, f: string)
    ensures NameOf(STEM, e) != NameOf(PREVIOUS_STEM, f)
  {
    StemsAreApart(NameOf(STEM, e));
    assert HasStem(NameOf(STEM, e), STEM);
    assert HasStem(NameOf(PREVIOUS_STEM, f), PREVIOUS_STEM);
    StemsAreApart(NameOf(PREVIOUS_STEM, f));
  }

  /** Removing the file of a slot empties the slot. */
  lemma RemovalEmptiesSlot(s: Slots)
    ensures s.current.Some? ==> DirOf(s) - {NameOf(STEM, s.current.value.ext)} == DirOf(Slots(None, s.previous))
    ensures s.previous.Some? ==> DirOf(s) - {NameOf(PREVIOUS_STEM, s.previous.value.ext)} == DirOf(Slots(s.current, None))
  {
    if s.current.Some? && s.previous.Some? {
      NamesAreApart(s.current.value.ext, s.previous.value.ext);
    }
  }

  /** Renaming the only file between the two stems moves the background between the slots. */
  lemma RenameMovesSlot(slot: Slot)
    ensures DirOf(Slots(None, Some(slot))) ==
      (DirOf(Slots(Some(slot), None)) - {NameOf(STEM, slot.ext)})[NameOf(PREVIOUS_STEM, slot.ext) := slot.bytes]
    ensures DirOf(Slots(Some(slot), None)) ==
      (DirOf(Slots(None, Some(slot))) - {NameOf(PREVIOUS_STEM, slot.ext)})[NameOf(STEM, slot.ext) := slot.bytes]
  {
  }

  class BackgroundDir {
    var files: map<string, Bytes>
    ghost var slots: Slots

    ghost predicate Valid()
      reads this
    {
      files == DirOf(slots) && slots.Accepted()
    }

    constructor ()
      ensures Valid() && slots == EMPTY
    {
      files := map[];
      slots := EMPTY;
    }

    /** The directory is read in any order; a second match is an error. */
    method FindSlotWithStem(stem: string) returns (r: Result<Option<string>, Error>)
      ensures match r
        case Success(None) => forall n :: n in files ==> !HasStem(n, stem)
        case Success(Some(name)) => name in files && forall n :: n in files ==> (HasStem(n, stem) <==> n == name)
        case Failure(e) => e == Ambiguous && exists m, n :: m in files && n in files && m != n && HasStem(m, stem) && HasStem(n, stem)
    {
      var rest := files.Keys;
      var found: Option<string> := None;
      while rest != {}
        invariant rest <= files.Keys
        invariant match found
          case None => forall n :: n in files.Keys - rest ==> !HasStem(n, stem)
          case Some(name) => name in files.Keys - rest && forall n :: n in files.Keys - rest ==> (HasStem(n, stem) <==> n == name)
        decreases rest
      {
        var name :| name in rest;
        if HasStem(name, stem) {
          if found.Some? {
            return Failure(Ambiguous);
          }
          found := Some(name);
        }
        rest := rest - {name};
      }
      return Success(found);
    }

    /** With the directory as the slots say, each lookup finds its slot's file. */
    method Find(stem: string, ghost slot: Option<Slot>) returns (r: Result<Option<string>, Error>)
      requires Valid()
      requires (stem == STEM && slot == slots.current) || (stem == PREVIOUS_STEM && slot == slots.previous)
      ensures r == Success(match slot case None => None case Some(s) => Some(NameOf(stem, s.ext)))
    {
      r := FindSlotWithStem(stem);
      forall n | n in files ensures HasStem(n, stem) <==> slot.Some? && n == NameOf(stem, slot.value.ext) {
        StemsAreApart(n);
      }
      assert slot.Some? ==> NameOf(stem, slot.value.ext) in files;
    }

    /** Drops a stale parked file and parks the current one. */
    method Park() returns (r: Result<Option<string>, Error>)
      requires Valid()
      modifies this
      ensures Valid() && slots == Slots(None, old(slots.current))
      ensures r == Success(match slots.previous case None => None case Some(s) => Some(NameOf(PREVIOUS_STEM, s.ext)))
    {
      var stale := Find(PREVIOUS_STEM, slots.previous);
      if stale.Failure? {
        return stale;
      }
      if stale.value.Some? {
        files := files - {stale.value.value};
      }
      RemovalEmptiesSlot(slots);
      slots := Slots(slots.current, None);
      var current := Find(STEM, slots.current);
      if current.Failure? || current.value.None? {
        return current;
      }
      var from := current.value.value;
      ExtOfCurrent();
      var parked := NameOf(PREVIOUS_STEM, ExtOf(from));
      RenameMovesSlot(slots.current.value);
      files := (files - {from})[parked := files[from]];
      slots := Slots(None, slots.current);
      return Success(Some(parked));
    }

    lemma ExtOfCurrent()
      requires Valid()
      ensures slots.current.Some? ==> ExtOf(NameOf(STEM, slots.current.value.ext)) == slots.current.value.ext
      ensures slots.previous.Some? ==> ExtOf(NameOf(PREVIOUS_STEM, slots.previous.value.ext)) == slots.previous.value.ext
    {
      if slots.current.Some? {
        AcceptedArePlain(slots.current.value.ext);
        ExtOfName(STEM, slots.current.value.ext);
      }
      if slots.previous.Some? {
        AcceptedArePlain(slots.previous.value.ext);
        ExtOfName(PREVIOUS_STEM, slots.previous.value.ext);
      }
    }

    /** Puts the parked file back as the current one. */
    method Unpark(parked: string) returns (r: Result<(), Error>)
      requires Valid() && slots.previous.Some? && parked == NameOf(PREVIOUS_STEM, slots.previous.value.ext)
      modifies this
      ensures Valid() && slots == Slots(old(slots.previous), None)
      ensures r == Success(())
    {
      var current := Find(STEM, slots.current);
      match current {
        case Failure(e) => return Failure(e);
        case Success(found) =>
          if found.Some? {
            files := files - {found.value};
          }
      }
      RemovalEmptiesSlot(slots);
      slots := Slots(None, slots.previous);
      ExtOfCurrent();
      RenameMovesSlot(slots.previous.value);
      var restored := NameOf(STEM, ExtOf(parked));
      files := (files - {parked})[restored := files[parked]];
      slots := Slots(slots.previous, None);
      return Success(());
    }

    /** Removes every file of the slot whose extension is another. */
    method RemoveOtherExtSlots(keepExt: string)
      modifies this`files
      ensures files == Keeping(old(files), keepExt)
    {
      ghost var before := files;
      var rest := files.Keys;
      while rest != {}
        invariant rest <= before.Keys
        invariant files == map n | n in before && (n in rest || !Other(n, keepExt)) :: before[n]
        decreases rest
      {
        var name :| name in rest;
        assert STEM + "." <= name ==> name == STEM + "." + name[|STEM| + 1..];
        if HasStem(name, STEM) && name[|STEM| + 1..] != keepExt {
          files := files - {name};
        }
        rest := rest - {name};
      }
    }

    /** `name` is the file name of the image, which is read already; a park that finds no current file leaves nothing to restore. */
    method Set(name: string, image: Result<Bytes, Error>, outcome: WriteOutcome) returns (r: Result<string, Error>)
      requires Valid() && slots.Rested()
      modifies this
      ensures Valid() && slots.Rested()
      ensures ExtOf(name) !in EXTS || image.Failure? ==> r.Failure? && slots == old(slots)
      ensures ExtOf(name) in EXTS && image.Success? ==>
        && slots == Setting(old(slots), ExtOf(name), image.value, outcome)
        && r == if outcome.Written? then Success(NameOf(STEM, ExtOf(name))) else Failure(NotWritten)
    {
      var ext := ExtOf(name);
      if ext !in EXTS {
        return Failure(Refused);
      }
      var bytes;
      match image {
        case Failure(e) => return Failure(e);
        case Success(read) => bytes := read;
      }
      var parking := Park();
      var parked;
      match parking {
        case Failure(e) => return Failure(e);
        case Success(moved) => parked := moved;
      }
      var file := NameOf(STEM, ext);
      if outcome.WriteFailed? {
        ghost var before := files;
        FreshName(ext);
        if outcome.partial.Some? {
          files := files[file := outcome.partial.value];
        }
        files := files - {file};
        assert files == before;
        if parked.Some? {
          var restored := Unpark(parked.value);
        }
        return Failure(NotWritten);
      }
      files := files[file := bytes];
      slots := Slots(Some(Slot(ext, bytes)), slots.previous);
      assert files == DirOf(slots);
      NothingElseToRemove(ext);
      RemoveOtherExtSlots(ext);
      return Success(file);
    }

    lemma FreshName(ext: string)
      requires Valid() && slots.current.None?
      ensures NameOf(STEM, ext) !in files
    {
      StemsAreApart(NameOf(STEM, ext));
      assert HasStem(NameOf(STEM, ext), STEM);
      if slots.previous.Some? {
        StemsAreApart(NameOf(PREVIOUS_STEM, slots.previous.value.ext));
        assert HasStem(NameOf(PREVIOUS_STEM, slots.previous.value.ext), PREVIOUS_STEM);
      }
    }

    lemma NothingElseToRemove(ext: string)
      requires Valid() && slots.current.Some? && slots.current.value.ext == ext
      ensures Keeping(files, ext) == files
    {
      forall n | n in files ensures !Other(n, ext) {
        StemsAreApart(n);
      }
    }

    /** Keeps the new background or goes back to the parked one; says whether one is in use. */
    method Settle(keep: string) returns (r: Result<bool, Error>)
      requires Valid() && slots.Rested()
      modifies this
      ensures Valid() && slots.Rested()
      ensures keep in ["new", "previous"] ==> slots == Settling(old(slots), keep) && r == Success(slots.current.Some?)
      ensures keep !in ["new", "previous"] ==> slots == old(slots) && r == Failure(BadKeep)
    {
      if keep != "new" && keep != "previous" {
        return Failure(BadKeep);
      }
      var parking := Find(PREVIOUS_STEM, slots.previous);
      match parking {
        case Failure(e) => return Failure(e);
        case Success(None) =>
        case Success(Some(parked)) =>
          if keep == "new" {
            files := files - {parked};
            slots := Slots(slots.current, None);
            assert files == DirOf(slots);
          } else {
            var restored := Unpark(parked);
          }
      }
      var current := Find(STEM, slots.current);
      match current {
        case Failure(e) => return Failure(e);
        case Success(found) => return Success(found.Some?);
      }
    }

    /** Both files are looked up before either is removed. */
    method Remove() returns (r: Result<(), Error>)
      requires Valid()
      modifies this
      ensures Valid() && slots == EMPTY && r == Success(())
    {
      var current := Find(STEM, slots.current);
      var previous := Find(PREVIOUS_STEM, slots.previous);
      match (current, previous) {
        case (Failure(e), _) => return Failure(e);
        case (_, Failure(e)) => return Failure(e);
        case (Success(c), Success(p)) =>
          if c.Some? {
            files := files - {c.value};
          }
          if p.Some? {
            files := files - {p.value};
          }
          slots := EMPTY;
          return Success(());
      }
    }
  }

  /** A file of the slot under another extension than `keepExt`. */
  predicate Other(name: string, keepExt: string) {
    HasStem(name, STEM) && name != NameOf(STEM, keepExt)
  }

  function Keeping(files: map<string, Bytes>, keepExt: string): map<string, Bytes> {
    map n | n in files && !Other(n, keepExt) :: files[n]
  }

  // ---------- Every run of commands ----------

  datatype Command =
    | SetCommand(name: string, image: Result<Bytes, Error>, outcome: WriteOutcome)
    | SettleCommand(keep: string)
    | RemoveCommand

  /** What each command's contract says of the slots. */
  function After(s: Slots, command: Command): Slots {
    match command
    case SetCommand(name, image, outcome) =>
      if ExtOf(name) in EXTS && image.Success? then Setting(s, ExtOf(name), image.value, outcome) else s
    case SettleCommand(keep) => Settling(s, keep)
    case RemoveCommand => EMPTY
  }

  function Run(commands: seq<Command>): Slots {
    if commands == [] then EMPTY else After(Run(commands[..|commands| - 1]), commands[|commands| - 1])
  }

  /** A parked file implies a current one, after any run. */
  lemma {:induction false} RunsRest(commands: seq<Command>)
    ensures Run(commands).Rested() && Run(commands).Accepted()
  {
    if commands != [] {
      RunsRest(commands[..|commands| - 1]);
    }
  }

  /** The directory behind the slots holds at most one current and one parked file. */
  lemma SlotsAreSingle(s: Slots)
    requires s.Accepted()
    ensures forall m, n :: m in DirOf(s) && n in DirOf(s) && HasStem(m, STEM) && HasStem(n, STEM) ==> m == n
    ensures forall m, n :: m in DirOf(s) && n in DirOf(s) && HasStem(m, PREVIOUS_STEM) && HasStem(n, PREVIOUS_STEM) ==> m == n
    ensures forall n :: n in DirOf(s) ==> HasStem(n, STEM) || HasStem(n, PREVIOUS_STEM)
  {
    forall n | n in DirOf(s)
      ensures HasStem(n, STEM) ==> s.current.Some? && n == NameOf(STEM, s.current.value.ext)
      ensures HasStem(n, PREVIOUS_STEM) ==> s.previous.Some? && n == NameOf(PREVIOUS_STEM, s.previous.value.ext)
    {
      StemsAreApart(n);
    }
  }

  /**
   * Two slots that differ show different directories: what the directory holds is exactly
   * which background is in use and which is parked, extension and bytes.
   */
  lemma DirectoryTellsTheSlots(s: Slots, t: Slots)
    requires s.Accepted() && t.Accepted() && DirOf(s) == DirOf(t)
    ensures s == t
  {
    FileTellsTheSlot(s, t);
    FileTellsTheSlot(t, s);
  }

  lemma FileTellsTheSlot(s: Slots, t: Slots)
    requires s.Accepted() && DirOf(s) == DirOf(t)
    ensures s.current.Some? ==> t.current == s.current
    ensures s.previous.Some? ==> t.previous == s.previous
  {
    if s.current.Some? {
      var n := NameOf(STEM, s.current.value.ext);
      StemsAreApart(n);
      assert n in DirOf(s) && HasStem(n, STEM);
      assert DirOf(s)[n] == s.current.value.bytes;
      assert t.current.Some? && n == NameOf(STEM, t.current.value.ext);
      assert n[|STEM| + 1..] == s.current.value.ext == t.current.value.ext;
    }
    if s.previous.Some? {
      var n := NameOf(PREVIOUS_STEM, s.previous.value.ext);
      StemsAreApart(n);
      assert n in DirOf(s) && HasStem(n, PREVIOUS_STEM);
      assert t.previous.Some? && n == NameOf(PREVIOUS_STEM, t.previous.value.ext);
      assert n[|PREVIOUS_STEM| + 1..] == s.previous.value.ext == t.previous.value.ext;
    }
  }

  /**
   * Changing one's mind costs nothing: over an existing background, a set that is settled
   * back, or a set whose write fails, leaves the earlier extension and bytes in use.
   */
  lemma EarlierBackgroundComesBack(commands: seq<Command>, name: string, image: Result<Bytes, Error>, outcome: WriteOutcome)
    requires Run(commands).current.Some?
    ensures var set_ := SetCommand(name, image, outcome);
      && (ExtOf(name) in EXTS && image.Success? ==>
          Run(commands + [set_] + [SettleCommand("previous")]) == Slots(Run(commands).current, None))
      && (outcome.WriteFailed? ==> Run(commands + [set_]).current == Run(commands).current)
      && (ExtOf(name) !in EXTS || image.Failure? ==> Run(commands + [set_]) == Run(commands))
  {
    var set_ := SetCommand(name, image, outcome);
    assert (commands + [set_])[..|commands|] == commands;
    assert (commands + [set_] + [SettleCommand("previous")])[..|commands| + 1] == commands + [set_];
  }

  lemma OneMoreCommand(commands: seq<Command>, command: Command)
    ensures Run(commands + [command]) == After(Run(commands), command)
  {
    assert (commands + [command])[..|commands|] == commands;
  }

  /**
   * After any run, an accepted image that is written becomes the background, under its
   * extension and with its bytes, and what was in use before is parked behind it; keeping it
   * drops only what was parked.
   */
  lemma WrittenImageIsUsed(commands: seq<Command>, stem: string, written: string, ext: string, bytes: Bytes, set_: Command)
    requires ext in EXTS && CapitalizesSome(written, ext)
    requires set_ == SetCommand(stem + "." + written, Success(bytes), Written)
    ensures Run(commands + [set_]) == Slots(Some(Slot(ext, bytes)), Run(commands).current)
    ensures Run(commands + [set_] + [SettleCommand("new")]) == Slots(Some(Slot(ext, bytes)), None)
  {
    ExtensionIsRecognized(stem, written, ext);
    OneMoreCommand(commands, set_);
    OneMoreCommand(commands + [set_], SettleCommand("new"));
  }

  lemma SlotNames(ext: string)
    ensures NameOf(STEM, ext) == "window-background." + ext
    ensures NameOf(PREVIOUS_STEM, ext) == "window-background-previous." + ext
  {
    assert STEM + "." == "window-background." && PREVIOUS_STEM + "." == "window-background-previous.";
  }

  /** The directory then holds the image under the slot's name, what is parked under the other, and nothing else. */
  lemma FilesOfSlots(s: Slots, slot: Slot, name: string)
    requires s.current == Some(slot) && name == "window-background." + slot.ext
    ensures s.previous.None? ==> DirOf(s) == map[name := slot.bytes]
  {
    SlotNames(slot.ext);
  }

  lemma FilesOfBothSlots(s: Slots, slot: Slot, parked: Slot, name: string, parkedName: string)
    requires s == Slots(Some(slot), Some(parked))
    requires name == "window-background." + slot.ext && parkedName == "window-background-previous." + parked.ext
    ensures name != parkedName && DirOf(s) == map[name := slot.bytes, parkedName := parked.bytes]
  {
    SlotNames(slot.ext);
    SlotNames(parked.ext);
    NamesAreApart(slot.ext, parked.ext);
  }

  /** Settling with nothing parked, settling for anything else, and removing. */
  lemma OtherCommands(commands: seq<Command>, keep: string)
    ensures Run(commands).previous.None? || keep !in ["new", "previous"] ==>
      Run(commands + [SettleCommand(keep)]) == Run(commands)
    ensures Run(commands + [RemoveCommand]) == Slots(None, None)
  {
    OneMoreCommand(commands, SettleCommand(keep));
    OneMoreCommand(commands, RemoveCommand);
  }
}
