/**
 * Two truncations of UTF-8 text that run in opposite directions: the backward byte scan
 * (src-tauri/src/app_log.rs, truncate_utf8) and the forward accumulation of characters
 * (src-tauri/src/fs.rs, sanitize_dropped_file_name).
 */
module Utf8Truncation {
  import opened Collections
  import PathSearch

  // ---------- The encoding (RFC 3629, section 3) ----------

  function LenUtf8(c: char): (n: nat)
    ensures 1 <= n <= 4
  {
    var u := c as int;
    if u < 0x80 then 1 else if u < 0x800 then 2 else if u < 0x1_0000 then 3 else 4
  }

  /** The continuation octet that carries six bits. */
  function Continuation(bits: int): Byte
    requires 0 <= bits
  {
    (0x80 + bits % 64) as Byte
  }

  function EncodeChar(c: char): (b: seq<Byte>)
    ensures |b| == LenUtf8(c)
    ensures !IsContinuation(b[0])
    ensures forall i :: 1 <= i < |b| ==> IsContinuation(b[i])
  {
    var u := c as int;
    if u < 0x80 then [u as Byte]
    else if u < 0x800 then [(0xC0 + u / 64) as Byte, Continuation(u)]
    else if u < 0x1_0000 then [(0xE0 + u / 4096) as Byte, Continuation(u / 64), Continuation(u)]
    else [(0xF0 + u / 262144) as Byte, Continuation(u / 4096), Continuation(u / 64), Continuation(u)]
  }

  predicate IsContinuation(b: Byte) {
    0x80 <= b < 0xC0
  }

  /** The bytes of a `str`: they are the encoding of some characters. */
  function Encode(text: string): (b: seq<Byte>)
    ensures text == "" ==> b == []
  {
    if text == "" then [] else Encode(text[..|text| - 1]) + EncodeChar(text[|text| - 1])
  }

  lemma {:induction false} EncodePrefix(text: string, k: nat)
    requires k <= |text|
    ensures |Encode(text[..k])| <= |Encode(text)|
    ensures Encode(text)[..|Encode(text[..k])|] == Encode(text[..k])
    ensures |Encode(text)| >= |Encode(text[..k])| + (|text| - k)
    decreases |text|
  {
    if k == |text| {
      assert text[..k] == text;
    } else {
      var n := |text| - 1;
      EncodePrefix(text[..n], k);
      assert text[..n][..k] == text[..k];
    }
  }

  /** `str::is_char_boundary` */
  predicate IsCharBoundary(b: seq<Byte>, i: nat) {
    i == 0 || i == |b| || (i < |b| && !IsContinuation(b[i]))
  }

  /** Whole characters end at this position. */
  ghost predicate EndsAt(text: string, i: nat) {
    exists k: nat :: k <= |text| && i == |Encode(text[..k])|
  }

  lemma EndsInFront(text: string, front: string, i: nat)
    requires text != "" && front == text[..|text| - 1] && i <= |Encode(front)|
    ensures EndsAt(text, i) <==> EndsAt(front, i)
  {
    forall k: nat | k <= |front| ensures front[..k] == text[..k] {
    }
    if EndsAt(text, i) {
      var k: nat :| k <= |text| && i == |Encode(text[..k])|;
      assert text[..|text|] == text;
      assert k <= |front|;
    }
    if EndsAt(front, i) {
      var k: nat :| k <= |front| && i == |Encode(front[..k])|;
      assert text[..k] == front[..k];
    }
  }

  lemma NoEndInside(text: string, front: string, i: nat)
    requires text != "" && front == text[..|text| - 1] && |Encode(front)| < i < |Encode(text)|
    ensures !EndsAt(text, i)
  {
    forall k: nat | k <= |text| ensures i != |Encode(text[..k])| {
      if k <= |front| {
        assert front[..k] == text[..k];
        EncodePrefix(front, k);
      } else {
        assert text[..k] == text;
      }
    }
  }

  lemma EndsAtTheEnd(text: string)
    ensures EndsAt(text, |Encode(text)|)
  {
    assert text[..|text|] == text;
  }

  /** A position is a boundary exactly when whole characters end there. */
  lemma {:induction false} BoundariesAreCharacterEnds(text: string, i: nat)
    requires i <= |Encode(text)|
    ensures IsCharBoundary(Encode(text), i) <==> EndsAt(text, i)
  {
    EndsAtTheEnd(text);
    if i < |Encode(text)| {
      var n := |text| - 1;
      var front, last := text[..n], EncodeChar(text[n]);
      var b, f := Encode(text), Encode(front);
      assert b == f + last;
      EndsAtTheEnd(front);
      if i <= |f| {
        EndsInFront(text, front, i);
        BoundariesAreCharacterEnds(front, i);
        assert b[i] == if i < |f| then f[i] else last[0];
      } else {
        NoEndInside(text, front, i);
        assert b[i] == last[i - |f|];
      }
    }
  }

  // ---------- The longest prefix of whole characters within a limit ----------

  /** `k` characters fit, and no more do. */
  ghost predicate LongestWithin(text: string, limit: nat, k: nat) {
    && k <= |text|
    && |Encode(text[..k])| <= limit
    && (k < |text| ==> |Encode(text[..k + 1])| > limit)
  }

  lemma PrefixesGrow(text: string, j: nat, k: nat)
    requires j <= k <= |text|
    ensures |Encode(text[..j])| <= |Encode(text[..k])|
  {
    EncodePrefix(text[..k], j);
    assert text[..k][..j] == text[..j];
  }

  lemma LongestIsUnique(text: string, limit: nat, j: nat, k: nat)
    requires LongestWithin(text, limit, j) && LongestWithin(text, limit, k)
    ensures j == k
  {
    if j < k {
      PrefixesGrow(text, j + 1, k);
    } else if k < j {
      PrefixesGrow(text, k + 1, j);
    }
  }

  /** `r` is the encoding of the longest prefix of whole characters that fits. */
  ghost predicate IsTruncation(text: string, limit: nat, r: seq<Byte>) {
    exists k: nat :: LongestWithin(text, limit, k) && r == Encode(text[..k])
  }

  /** `truncate_utf8`, on the bytes of a valid string; `end` moves back by at most three. */
  method TruncateUtf8(ghost text: string, s: seq<Byte>, maxBytes: nat) returns (r: seq<Byte>)
    requires s == Encode(text)
    ensures IsTruncation(text, maxBytes, r)
    ensures |s| <= maxBytes ==> r == s
    ensures |s| > maxBytes ==> maxBytes - 3 <= |r| <= maxBytes && r == s[..|r|]
  {
    if |s| <= maxBytes {
      assert text[..|text|] == text;
      assert LongestWithin(text, maxBytes, |text|);
      return s;
    }
    var end: nat := maxBytes;
    while end > 0 && !IsCharBoundary(s, end)
      invariant 0 <= end <= maxBytes
      invariant forall i: nat :: end < i <= maxBytes ==> !IsCharBoundary(s, i)
    {
      end := end - 1;
    }
    BoundariesAreCharacterEnds(text, end);
    ghost var kept: nat :| kept <= |text| && end == |Encode(text[..kept])|;
    LastBoundaryIsLongest(text, maxBytes, end, kept);
    EncodePrefix(text, kept);
    return s[..end];
  }

  lemma LastBoundaryIsLongest(text: string, limit: nat, end: nat, k: nat)
    requires end <= limit < |Encode(text)| && k <= |text| && end == |Encode(text[..k])|
    requires forall i: nat :: end < i <= limit ==> !IsCharBoundary(Encode(text), i)
    ensures LongestWithin(text, limit, k) && limit - end <= 3
  {
    assert text[..|text|] == text;
    assert k < |text|;
    assert text[..k + 1][..k] == text[..k];
    var next := |Encode(text[..k + 1])|;
    assert end < next <= end + 4;
    EncodePrefix(text, k + 1);
    BoundariesAreCharacterEnds(text, next);
  }

  // ---------- The forward loop ----------

  const MAX_NAME_BYTES := 100
  const FALLBACK := "dropped-file"

  /** The loop of `sanitize_dropped_file_name`: characters while they fit. */
  method AccumulateWithin(candidate: string, maxBytes: nat) returns (truncated: string)
    ensures LongestWithin(candidate, maxBytes, |truncated|) && truncated == candidate[..|truncated|]
  {
    truncated := "";
    ghost var k := 0;
    var len := 0;
    assert candidate[..0] == "";
    for i := 0 to |candidate|
      invariant truncated == candidate[..i] && len == |Encode(truncated)| <= maxBytes
    {
      var c := candidate[i];
      assert candidate[..i + 1][..i] == candidate[..i];
      if len + LenUtf8(c) > maxBytes {
        return;
      }
      truncated := truncated + [c];
      assert truncated == candidate[..i + 1];
      len := len + LenUtf8(c);
    }
  }

  lemma SameLengthSamePrefix(text: string, limit: nat, j: nat, k: nat)
    requires LongestWithin(text, limit, j) && LongestWithin(text, limit, k)
    ensures text[..j] == text[..k]
  {
    LongestIsUnique(text, limit, j, k);
  }

  /** The bytes determine the characters. */
  lemma {:induction false} EncodeIsInjective(a: string, b: string)
    requires Encode(a) == Encode(b)
    ensures a == b
    decreases |a|
  {
    if a == "" || b == "" {
      EncodePrefix(a, 0);
      EncodePrefix(b, 0);
    } else {
      var m, n := |a| - 1, |b| - 1;
      LastCharacter(a, b);
      assert Encode(a[..m]) == Encode(a)[..|Encode(a)| - LenUtf8(a[m])];
      assert Encode(b[..n]) == Encode(b)[..|Encode(b)| - LenUtf8(b[n])];
      EncodeIsInjective(a[..m], b[..n]);
      assert a == a[..m] + [a[m]] && b == b[..n] + [b[n]];
    }
  }

  /** One leading byte and its continuations: a shape the end of a text has only once. */
  ghost predicate Unit(b: seq<Byte>) {
    b != [] && !IsContinuation(b[0]) && forall i :: 1 <= i < |b| ==> IsContinuation(b[i])
  }

  lemma TailsAgree(whole: seq<Byte>, c: seq<Byte>, d: seq<Byte>)
    requires Unit(c) && Unit(d) && |c| <= |whole| && |d| <= |whole|
    requires c == whole[|whole| - |c|..] && d == whole[|whole| - |d|..]
    ensures c == d
  {
    assert forall i :: 1 <= i < |c| ==> whole[|whole| - |c| + i] == c[i];
    assert forall i :: 1 <= i < |d| ==> whole[|whole| - |d| + i] == d[i];
    assert whole[|whole| - |c|] == c[0] && whole[|whole| - |d|] == d[0];
  }

  lemma LastCharacter(a: string, b: string)
    requires a != "" && b != "" && Encode(a) == Encode(b)
    ensures a[|a| - 1] == b[|b| - 1]
  {
    var c, d := EncodeChar(a[|a| - 1]), EncodeChar(b[|b| - 1]);
    var whole := Encode(a);
    assert c == whole[|whole| - |c|..] && d == whole[|whole| - |d|..];
    TailsAgree(whole, c, d);
    CharIsInjective(a[|a| - 1], b[|b| - 1]);
  }

  lemma SixBitGroups(u: nat)
    ensures u / 64 / 64 == u / 4096 && u / 4096 / 64 == u / 262144
    ensures u == u / 64 * 64 + u % 64
    ensures u == u / 4096 * 4096 + u / 64 % 64 * 64 + u % 64
    ensures u == u / 262144 * 262144 + u / 4096 % 64 * 4096 + u / 64 % 64 * 64 + u % 64
  {
  }

  lemma CharIsInjective(c: char, d: char)
    requires EncodeChar(c) == EncodeChar(d)
    ensures c == d
  {
    var e, f := EncodeChar(c), EncodeChar(d);
    assert LenUtf8(c) == LenUtf8(d);
    SixBitGroups(c as int);
    SixBitGroups(d as int);
    assert forall i :: 0 <= i < |e| ==> e[i] as int == f[i] as int;
    assert c as int == d as int;
  }

  /**
   * Both loops give the same text for every valid string and every limit: whatever the bytes
   * the backward scan keeps decode to is what the forward loop accumulates.
   */
  lemma TruncationsAgree(text: string, limit: nat, backward: seq<Byte>, decoded: string, forward: string)
    requires IsTruncation(text, limit, backward) && Encode(decoded) == backward
    requires LongestWithin(text, limit, |forward|) && forward == text[..|forward|]
    ensures backward == Encode(forward) && decoded == forward
  {
    var kept: nat :| LongestWithin(text, limit, kept) && backward == Encode(text[..kept]);
    SameLengthSamePrefix(text, limit, kept, |forward|);
    EncodeIsInjective(decoded, forward);
  }

  // ---------- The name a dropped file is stored under ----------

  /** What stands for a truncated name that cannot be stored under. */
  function StoredAs(truncated: string): string {
    if truncated == "" || truncated == "." || truncated == ".." then FALLBACK else truncated
  }

  /** `r` is the longest part of the file name that fits, or the fallback just when that names nothing. */
  ghost predicate IsSanitized(name: string, r: string) {
    exists k: nat :: LongestWithin(PathSearch.FileName(name), MAX_NAME_BYTES, k) && r == StoredAs(PathSearch.FileName(name)[..k])
  }

  method SanitizeDroppedFileName(name: string) returns (r: string)
    ensures IsSanitized(name, r)
  {
    var candidate := PathSearch.FileName(name);
    var truncated := AccumulateWithin(candidate, MAX_NAME_BYTES);
    if truncated == "" || truncated == "." || truncated == ".." {
      return FALLBACK;
    }
    return truncated;
  }

  /** A name that is one component of a path, none of the special ones, and short enough. */
  predicate IsSafeName(r: string) {
    r != "" && r != "." && r != ".." && '/' !in r && |Encode(r)| <= MAX_NAME_BYTES
  }

  /** A name that is nothing, or a step on the way, is replaced. */
  lemma SpecialNamesAreReplaced(name: string, r: string)
    requires IsSanitized(name, r) && PathSearch.FileName(name) == ""
    ensures r == "dropped-file"
  {
  }

  /** The stored name is determined by the dropped one, and always safe. */
  lemma SanitizedIsSafe(name: string, r: string)
    requires IsSanitized(name, r)
    ensures IsSafeName(r) && 0 < |Encode(r)| <= 100 && '/' !in r && r != "." && r != ".."
    ensures forall other :: IsSanitized(name, other) ==> other == r
  {
    var candidate := PathSearch.FileName(name);
    var k: nat :| LongestWithin(candidate, MAX_NAME_BYTES, k) && r == StoredAs(candidate[..k]);
    FileNameHasNoSlash(name);
    FallbackIsSafe();
    forall other | IsSanitized(name, other) ensures other == r {
      var j: nat :| LongestWithin(candidate, MAX_NAME_BYTES, j) && other == StoredAs(candidate[..j]);
      LongestIsUnique(candidate, MAX_NAME_BYTES, j, k);
    }
  }

  lemma {:induction false} FileNameHasNoSlash(s: string)
    ensures '/' !in PathSearch.FileName(s)
  {
    var start := PathSearch.LastSegmentStart(s);
    var segment := s[start..];
    if (segment == "" || segment == ".") && start > 0 {
      FileNameHasNoSlash(s[..start - 1]);
    }
  }

  lemma {:induction false} EncodeAscii(s: string)
    requires forall i :: 0 <= i < |s| ==> s[i] as int < 0x80
    ensures |Encode(s)| == |s|
  {
    if s != "" {
      EncodeAscii(s[..|s| - 1]);
    }
  }

  lemma FallbackIsSafe()
    ensures IsSafeName(FALLBACK)
  {
    EncodeAscii(FALLBACK);
  }

  lemma {:induction false} NoSlashIsOneSegment(s: string)
    requires '/' !in s
    ensures PathSearch.LastSegmentStart(s) == 0
  {
    assert forall i :: 0 <= i < |s| ==> s[i] in s;
  }

  lemma SafeNameIsItsFileName(name: string, k: nat)
    requires IsSafeName(name)
    requires LongestWithin(PathSearch.FileName(name), MAX_NAME_BYTES, k)
    ensures PathSearch.FileName(name) == name && name[..k] == name
  {
    NoSlashIsOneSegment(name);
    assert name[0..] == name;
    if k < |name| {
      PrefixesGrow(name, k + 1, |name|);
    }
    assert name[..|name|] == name;
  }

  /** Exactly the safe names are stored as they are. */
  lemma SafeNamesAreKept(name: string, r: string)
    requires IsSanitized(name, r)
    ensures r == name <==> name != "" && name != "." && name != ".." && '/' !in name && |Encode(name)| <= 100
  {
    SanitizedIsSafe(name, r);
    if IsSafeName(name) {
      var k: nat :| LongestWithin(PathSearch.FileName(name), MAX_NAME_BYTES, k) && r == StoredAs(PathSearch.FileName(name)[..k]);
      SafeNameIsItsFileName(name, k);
    }
  }

  /** Sanitizing twice is sanitizing once. */
  lemma SanitizingIsIdempotent(name: string, once: string, twice: string)
    requires IsSanitized(name, once) && IsSanitized(once, twice)
    ensures twice == once
  {
    SanitizedIsSafe(name, once);
    SafeNamesAreKept(once, twice);
  }
}
