/**
 * Printing a skill as a TOML file (src-tauri/src/skills.rs, escape_gemini_body and the
 * wrapper in write_skill_under), read back under the rules of TOML v1.0.0, section
 * "String", for multi-line basic strings.
 */
module GeminiToml {
  import opened Wrappers

  const QUOTES := "\"\"\""
  const ESCAPED := "\\\"\\\"\\\""

  /** What the wrapper puts after the body: a newline, the closing delimiter, a newline. */
  const CLOSING := "\n\"\"\"\n"

  predicate StartsBlock(s: string) {
    |s| >= 3 && s[0] == '"' && s[1] == '"' && s[2] == '"'
  }

  // ---------- The printer ----------

  /** `content.replace("\"\"\"", "\\\"\\\"\\\"")`: leftmost matches that do not overlap. */
  function Replaced(content: string): string {
    if content == "" then ""
    else if StartsBlock(content) then ESCAPED + Replaced(content[3..])
    else [content[0]] + Replaced(content[1..])
  }

  /** A backslash that ends the text is doubled. */
  function Finished(step1: string): string {
    if step1 != "" && step1[|step1| - 1] == '\\' then step1[..|step1| - 1] + "\\\\" else step1
  }

  function EscapeGeminiBody(content: string): string {
    Finished(Replaced(content))
  }

  function Prompt(content: string): string {
    EscapeGeminiBody(content) + CLOSING
  }

  /** What the wrapper puts before the body; the newline after the delimiter is not content. */
  const HEADER := "description = \"\"\nprompt = \"\"\"\n"

  /** The file `write_skill_under` writes for content that is not TOML already. */
  function Wrapped(content: string): string {
    HEADER + Prompt(content)
  }

  /** The printer as one recursion: a backslash at the very end is doubled. */
  function Encoded(content: string): string {
    if content == "" then ""
    else if StartsBlock(content) then ESCAPED + Encoded(content[3..])
    else if content == "\\" then "\\\\"
    else [content[0]] + Encoded(content[1..])
  }

  lemma ReplacedIsEmpty(content: string)
    ensures Replaced(content) == "" <==> content == ""
  {
  }

  lemma FinishedEnd(front: string, rest: string)
    requires rest != ""
    ensures Finished(front + rest) == front + Finished(rest)
  {
    assert (front + rest)[..|front + rest| - 1] == front + rest[..|rest| - 1];
  }

  lemma {:induction false} EscapeIsEncoded(content: string)
    ensures EscapeGeminiBody(content) == Encoded(content)
  {
    if content != "" {
      var width := if StartsBlock(content) then 3 else 1;
      var rest := content[width..];
      var front := if StartsBlock(content) then ESCAPED else [content[0]];
      EscapeIsEncoded(rest);
      ReplacedIsEmpty(rest);
      assert Replaced(content) == front + Replaced(rest);
      if rest == "" {
        assert front + "" == front && content == content[..width];
      } else {
        FinishedEnd(front, Replaced(rest));
        assert content != "\\";
      }
    }
  }

  // ---------- Finding the closing delimiter ----------

  /** A backslash consumes the next character; the first delimiter left ends the string. */
  function ClosesAt(s: string): Option<nat> {
    if s == "" then None
    else if s[0] == '\\' then (if |s| < 2 then None else Later(2, ClosesAt(s[2..])))
    else if StartsBlock(s) then Some(0)
    else Later(1, ClosesAt(s[1..]))
  }

  function Later(skipped: nat, at: Option<nat>): Option<nat> {
    match at case None => None case Some(i) => Some(skipped + i)
  }

  lemma EncodedStep(c: string)
    requires c != "" && !StartsBlock(c) && c != "\\"
    ensures Encoded(c) == [c[0]] + Encoded(c[1..])
  {
  }

  lemma EncodedHead(c: string)
    requires c != ""
    ensures Encoded(c) != "" && Encoded(c)[0] == if StartsBlock(c) then '\\' else c[0]
  {
  }

  /** What follows in the printed text when the content goes on with `rest`. */
  lemma QuoteFollows(rest: string, s: string)
    requires s == Encoded(rest) + CLOSING
    ensures s != "" && (s[0] == '"' ==> rest != "" && rest[0] == '"' && !StartsBlock(rest))
  {
    if rest != "" {
      EncodedHead(rest);
    }
  }

  /** An unescaped quote of the content never meets two more. */
  lemma NoDelimiterInside(c: string)
    requires c != "" && !StartsBlock(c)
    ensures !StartsBlock(Encoded(c) + CLOSING)
  {
    var s := Encoded(c) + CLOSING;
    QuoteFollows(c, s);
    if s[0] == '"' {
      EncodedStep(c);
      var d := c[1..];
      var t := Encoded(d) + CLOSING;
      assert s == [c[0]] + t;
      QuoteFollows(d, t);
      if t[0] == '"' {
        EncodedStep(d);
        var u := Encoded(d[1..]) + CLOSING;
        assert t == [d[0]] + u;
        QuoteFollows(d[1..], u);
        assert d[1..] == c[2..] && s[2] == u[0];
      }
    }
  }

  lemma OneThen(e: string, a: char, rest: string)
    requires e == [a] + rest
    ensures var s := e + CLOSING; s != "" && s[0] == a && s[1..] == rest + CLOSING
  {
  }

  lemma PairThen(e: string, a: char, b: char, rest: string)
    requires e == [a, b] + rest
    ensures var s := e + CLOSING; |s| >= 2 && s[0] == a && s[1] == b && s[2..] == rest + CLOSING
  {
  }

  /** The three escaped quotes, one pair at a time. */
  lemma BlockParts(s: string, two: string, one: string, rest: string)
    requires s == ESCAPED + rest && two == "\\\"\\\"" + rest && one == "\\\"" + rest
    ensures |s| >= 2 && s[0] == '\\' && s[1] == '"' && s[2..] == two
    ensures |two| >= 2 && two[0] == '\\' && two[1] == '"' && two[2..] == one
    ensures |one| >= 2 && one[0] == '\\' && one[1] == '"' && one[2..] == rest
  {
  }

  /** A backslash before them pairs with the first of theirs and leaves one quote alone. */
  lemma TornParts(s: string, torn: string, two: string, rest: string)
    requires s == "\\" + (ESCAPED + rest) && two == "\\\"\\\"" + rest && torn == "\"" + two
    ensures |s| >= 2 && s[0] == s[1] == '\\' && s[2..] == torn
    ensures |torn| >= 2 && torn[0] == '"' && torn[1] == '\\' && torn[1..] == two
  {
  }

  lemma PairIsSkipped(s: string, rest: string)
    requires |s| >= 2 && s[0] == '\\' && s[2..] == rest
    ensures ClosesAt(s) == Later(2, ClosesAt(rest))
  {
  }

  predicate IsQuotePair(s: string, rest: string) {
    |s| >= 2 && s[0] == '\\' && s[1] == '"' && s[2..] == rest
  }

  lemma ChainIsSkipped(s: string, next: string, two: string, one: string, rest: string)
    requires IsQuotePair(two, one) && IsQuotePair(one, rest)
    requires |s| >= 2 && s[0] == '\\' && s[2..] == next
    requires next == two || (next != "" && next[0] == '"' && !StartsBlock(next) && next[1..] == two)
    ensures ClosesAt(s) == Later(if next == two then 6 else 7, ClosesAt(rest))
  {
    PairIsSkipped(one, rest);
    PairIsSkipped(two, one);
    PairIsSkipped(s, next);
  }

  lemma EscapedBlockIsSkipped(s: string, rest: string)
    requires s == ESCAPED + rest
    ensures ClosesAt(s) == Later(6, ClosesAt(rest))
  {
    var one := "\\\"" + rest;
    var two := "\\\"\\\"" + rest;
    BlockParts(s, two, one, rest);
    ChainIsSkipped(s, two, two, one, rest);
  }

  lemma TornBlockIsSkipped(s: string, rest: string)
    requires s == "\\" + (ESCAPED + rest)
    ensures ClosesAt(s) == Later(7, ClosesAt(rest))
  {
    var one := "\\\"" + rest;
    var two := "\\\"\\\"" + rest;
    var torn := "\"" + two;
    BlockParts(ESCAPED + rest, two, one, rest);
    TornParts(s, torn, two, rest);
    ChainIsSkipped(s, torn, two, one, rest);
  }

  lemma EncodedBackslashBlock(c: string)
    requires |c| > 1 && c[0] == '\\' && StartsBlock(c[1..])
    ensures Encoded(c) == "\\" + (ESCAPED + Encoded(c[4..]))
  {
    EncodedStep(c);
    assert c[1..][3..] == c[4..];
  }

  lemma EncodedTwoBackslashes()
    ensures Encoded("\\\\") == "\\\\\\"
  {
    EncodedStep("\\\\");
    assert "\\\\"[1..] == "\\";
  }

  lemma EncodedBackslashPair(c: string)
    requires |c| > 1 && c[0] == '\\' && !StartsBlock(c[1..]) && c[1..] != "\\"
    ensures Encoded(c) == [c[0], c[1]] + Encoded(c[2..])
  {
    var d := c[1..];
    EncodedStep(c);
    SecondStep(c, d, Encoded(c), Encoded(d));
  }

  lemma SecondStep(c: string, d: string, e: string, f: string)
    requires |c| > 1 && d == c[1..] && !StartsBlock(d) && d != "\\"
    requires f == Encoded(d) && e == [c[0]] + f
    ensures e == [c[0], c[1]] + Encoded(c[2..])
  {
    EncodedStep(d);
    assert d[0] == c[1] && d[1..] == c[2..];
  }

  lemma ClosingCloses()
    ensures ClosesAt(CLOSING) == Some(1)
    ensures ClosesAt("\\\\" + CLOSING) == Some(3)
    ensures ClosesAt("\\\\\\" + CLOSING) == Some(4)
  {
    var end := "\"\"\"\n";
    assert CLOSING[1..] == end;
    assert ClosesAt(end) == Some(0);
    assert ("\\\\" + CLOSING)[2..] == CLOSING;
    var torn := "\\" + CLOSING;
    assert ("\\\\\\" + CLOSING)[2..] == torn && torn[2..] == end;
    assert ClosesAt(torn) == Some(2);
  }

  /** The encoded content runs into the wrapper's own delimiter. */
  ghost predicate Closes(c: string) {
    ClosesAt(Encoded(c) + CLOSING) == Some(|Encoded(c)| + 1)
  }

  lemma BlockCloses(c: string)
    requires StartsBlock(c) && Closes(c[3..])
    ensures Closes(c)
  {
    var rest := Encoded(c[3..]) + CLOSING;
    assert Encoded(c) + CLOSING == ESCAPED + rest;
    EscapedBlockIsSkipped(Encoded(c) + CLOSING, rest);
  }

  lemma BackslashBlockCloses(c: string)
    requires |c| > 1 && c[0] == '\\' && StartsBlock(c[1..]) && Closes(c[4..])
    ensures Closes(c)
  {
    EncodedBackslashBlock(c);
    var rest := Encoded(c[4..]) + CLOSING;
    assert Encoded(c) + CLOSING == "\\" + (ESCAPED + rest);
    TornBlockIsSkipped(Encoded(c) + CLOSING, rest);
  }

  lemma BackslashPairCloses(c: string)
    requires |c| > 1 && c[0] == '\\' && !StartsBlock(c[1..]) && c[1..] != "\\" && Closes(c[2..])
    ensures Closes(c)
  {
    EncodedBackslashPair(c);
    assert (Encoded(c) + CLOSING)[2..] == Encoded(c[2..]) + CLOSING;
  }

  lemma PlainCloses(c: string)
    requires c != "" && !StartsBlock(c) && c[0] != '\\' && Closes(c[1..])
    ensures Closes(c)
  {
    NoDelimiterInside(c);
    assert (Encoded(c) + CLOSING)[1..] == Encoded(c[1..]) + CLOSING;
  }

  lemma {:induction false} EncodedCloses(c: string)
    ensures Closes(c)
    decreases |c|
  {
    if c == "" || c == "\\" {
      ClosingCloses();
      assert "" + CLOSING == CLOSING;
    } else if StartsBlock(c) {
      EncodedCloses(c[3..]);
      BlockCloses(c);
    } else if c[0] != '\\' {
      EncodedCloses(c[1..]);
      PlainCloses(c);
    } else if StartsBlock(c[1..]) {
      EncodedCloses(c[4..]);
      BackslashBlockCloses(c);
    } else if c[1..] == "\\" {
      ClosingCloses();
      EncodedTwoBackslashes();
      assert c == "\\\\";
    } else {
      EncodedCloses(c[2..]);
      BackslashPairCloses(c);
    }
  }

  /** For every content the string ends at the wrapper's own delimiter and nowhere before. */
  lemma WrapperClosesItself(content: string)
    ensures ClosesAt(Prompt(content)) == Some(|EscapeGeminiBody(content)| + 1)
    ensures Prompt(content)[|EscapeGeminiBody(content)| + 1..] == QUOTES + "\n"
  {
    EscapeIsEncoded(content);
    EncodedCloses(content);
  }

  // ---------- Reading the string back ----------

  /** Characters TOML lets stand unescaped: no controls but tab, line feed and return. */
  predicate Permitted(c: char) {
    var u := c as int;
    u == 0x09 || u == 0x0A || u == 0x0D || (u >= 0x20 && u != 0x7F)
  }

  function Unescape(c: char): Option<char> {
    match c
    case 'b' => Some(8 as char)
    case 't' => Some('\t')
    case 'n' => Some('\n')
    case 'f' => Some(12 as char)
    case 'r' => Some('\r')
    case '"' => Some('"')
    case '\\' => Some('\\')
    case _ => None
  }

  predicate IsHex(c: char) {
    '0' <= c <= '9' || 'A' <= c <= 'F' || 'a' <= c <= 'f'
  }

  function HexDigit(c: char): nat
    requires IsHex(c)
  {
    if c <= '9' then c as int - '0' as int
    else if c <= 'F' then c as int - 'A' as int + 10
    else c as int - 'a' as int + 10
  }

  predicate AllHex(s: string) {
    forall i :: 0 <= i < |s| ==> IsHex(s[i])
  }

  function HexValue(s: string): nat
    requires AllHex(s)
  {
    if s == "" then 0 else 16 * HexValue(s[..|s| - 1]) + HexDigit(s[|s| - 1])
  }

  predicate IsScalar(n: nat) {
    n < 0xD800 || 0xE000 <= n < 0x11_0000
  }

  /** Space, tab and newline; a carriage return only before a line feed. */
  function Trimmed(s: string): string {
    if s == "" then s
    else if s[0] == ' ' || s[0] == '\t' || s[0] == '\n' then Trimmed(s[1..])
    else if s[0] == '\r' && |s| > 1 && s[1] == '\n' then Trimmed(s[2..])
    else s
  }

  /** Only spaces and tabs stand before the next newline. */
  predicate LineEnds(s: string) {
    && s != ""
    && (s[0] == '\n' || (s[0] == '\r' && |s| > 1 && s[1] == '\n')
        || ((s[0] == ' ' || s[0] == '\t') && LineEnds(s[1..])))
  }

  function After(c: char, rest: Option<(string, string)>): Option<(string, string)> {
    match rest case None => None case Some((value, left)) => Some(([c] + value, left))
  }

  /** The four or eight hexadecimal digits of a `\u` or `\U` escape. */
  predicate HasCode(s: string, digits: nat) {
    |s| >= 2 + digits && AllHex(s[2..2 + digits]) && IsScalar(HexValue(s[2..2 + digits]))
  }

  /**
   * The value of a multi-line basic string and what follows its closing delimiter, from
   * just after the newline that follows the opening one; None if it is not valid.
   */
  function Decode(s: string): Option<(string, string)>
    decreases |s|
  {
    if s == "" then None
    else if s[0] == '\\' then
      if |s| < 2 then None
      else if Unescape(s[1]).Some? then After(Unescape(s[1]).value, Decode(s[2..]))
      else if s[1] == 'u' then
        if HasCode(s, 4) then After(HexValue(s[2..6]) as char, Decode(s[6..])) else None
      else if s[1] == 'U' then
        if HasCode(s, 8) then After(HexValue(s[2..10]) as char, Decode(s[10..])) else None
      else if LineEnds(s[1..]) then
        TrimmedIsShorter(s[1..]);
        Decode(Trimmed(s[1..]))
      else None
    else if StartsBlock(s) then
      // one or two quotes may stand directly before the closing delimiter
      if |s| > 3 && s[3] == '"' then
        if |s| > 4 && s[4] == '"' then Some(("\"\"", s[5..])) else Some(("\"", s[4..]))
      else Some(("", s[3..]))
    else if !Permitted(s[0]) then None
    else After(s[0], Decode(s[1..]))
  }

  lemma {:induction false} TrimmedIsShorter(s: string)
    ensures |Trimmed(s)| <= |s|
  {
    if s != "" {
      TrimmedIsShorter(s[1..]);
      if |s| > 1 { TrimmedIsShorter(s[2..]); }
    }
  }

  /** Reading the prompt of a file of this shape. */
  function ReadPrompt(file: string): Option<string> {
    if !(HEADER <= file) then None
    else match Decode(file[|HEADER|..])
      case None => None
      case Some((value, left)) => if left == "\n" then Some(value) else None
  }

  // ---------- What content will be read as ----------

  function Also(c: char, rest: Option<string>): Option<string> {
    match rest case None => None case Some(value) => Some([c] + value)
  }

  /** Only blanks stand before the next newline, which may be the wrapper's. */
  predicate LineRunsOut(d: string) {
    || d == "" || d[0] == '\n'
    || (d[0] == '\r' && (|d| == 1 || d[1] == '\n'))
    || ((d[0] == ' ' || d[0] == '\t') && LineRunsOut(d[1..]))
  }

  /** What trimming leaves of the content. */
  function TrimmedContent(d: string): (r: string)
    ensures |r| <= |d|
  {
    if d == "" || d == "\r" then ""
    else if d[0] == ' ' || d[0] == '\t' || d[0] == '\n' then TrimmedContent(d[1..])
    else if d[0] == '\r' && d[1] == '\n' then TrimmedContent(d[2..])
    else d
  }

  /**
   * The value the file will be read as, told by the content alone; None when the file will
   * not be valid TOML. A backslash in the content is an escape, unless it is the last
   * character or stands directly before three quotes.
   */
  function ReadAs(c: string): Option<string>
    decreases |c|
  {
    if c == "" then Some("\n")
    else if StartsBlock(c) then Also('"', Also('"', Also('"', ReadAs(c[3..]))))
    else if c[0] != '\\' then (if Permitted(c[0]) then Also(c[0], ReadAs(c[1..])) else None)
    else if c == "\\" then Some("\\\n")
    else if StartsBlock(c[1..]) then Also('\\', Also('"', Also('"', Also('"', ReadAs(c[4..])))))
    else if c == "\\\\" then Some("\\")
    else if Unescape(c[1]).Some? then Also(Unescape(c[1]).value, ReadAs(c[2..]))
    else if c[1] == 'u' then
      (if HasCode(c, 4) then Also(HexValue(c[2..6]) as char, ReadAs(c[6..])) else None)
    else if c[1] == 'U' then
      (if HasCode(c, 8) then Also(HexValue(c[2..10]) as char, ReadAs(c[10..])) else None)
    else if !LineRunsOut(c[1..]) then None
    else if TrimmedContent(c[1..]) == "" then Some("")
    else ReadAs(TrimmedContent(c[1..]))
  }

  function Told(value: Option<string>): Option<(string, string)> {
    match value case None => None case Some(v) => Some((v, "\n"))
  }

  /** The printed text decodes to what the content will be read as. */
  ghost predicate Reads(c: string) {
    Decode(Encoded(c) + CLOSING) == Told(ReadAs(c))
  }

  // ---------- What one stretch of the encoding decodes to ----------

  lemma PairDecodes(s: string, rest: string)
    requires |s| >= 2 && s[0] == '\\' && s[2..] == rest && Unescape(s[1]).Some?
    ensures Decode(s) == After(Unescape(s[1]).value, Decode(rest))
  {
  }

  lemma PlainDecodes(s: string, rest: string)
    requires s != "" && s[0] != '\\' && !StartsBlock(s) && Permitted(s[0]) && s[1..] == rest
    ensures Decode(s) == After(s[0], Decode(rest))
  {
  }

  lemma EscapedBlockDecodes(s: string, rest: string)
    requires s == ESCAPED + rest
    ensures Decode(s) == After('"', After('"', After('"', Decode(rest))))
  {
    var one := "\\\"" + rest;
    var two := "\\\"\\\"" + rest;
    BlockParts(s, two, one, rest);
    PairDecodes(one, rest);
    PairDecodes(two, one);
    PairDecodes(s, two);
  }

  /** A doubled backslash followed by a quote that stands alone. */
  lemma TornQuoteDecodes(s: string, torn: string, two: string)
    requires |s| >= 2 && s[0] == s[1] == '\\' && s[2..] == torn
    requires |torn| >= 2 && torn[0] == '"' && torn[1] == '\\' && torn[1..] == two
    ensures Decode(s) == After('\\', After('"', Decode(two)))
  {
    PlainDecodes(torn, two);
    PairDecodes(s, torn);
  }

  lemma TornBlockDecodes(s: string, rest: string)
    requires s == "\\" + (ESCAPED + rest)
    ensures Decode(s) == After('\\', After('"', After('"', After('"', Decode(rest)))))
  {
    var one := "\\\"" + rest;
    var two := "\\\"\\\"" + rest;
    var torn := "\"" + two;
    BlockParts(ESCAPED + rest, two, one, rest);
    TornParts(s, torn, two, rest);
    ChainDecodes(s, torn, two, one, rest);
  }

  lemma ChainDecodes(s: string, torn: string, two: string, one: string, rest: string)
    requires IsQuotePair(two, one) && IsQuotePair(one, rest)
    requires |s| >= 2 && s[0] == s[1] == '\\' && s[2..] == torn
    requires |torn| >= 2 && torn[0] == '"' && torn[1] == '\\' && torn[1..] == two
    ensures Decode(s) == After('\\', After('"', After('"', After('"', Decode(rest)))))
  {
    PairDecodes(one, rest);
    PairDecodes(two, one);
    TornQuoteDecodes(s, torn, two);
  }

  lemma ClosingDecodes()
    ensures Decode(CLOSING) == Some(("\n", "\n"))
    ensures Decode("\\\\" + CLOSING) == Some(("\\\n", "\n"))
    ensures Decode("\\\\\\" + CLOSING) == Some(("\\", "\n"))
  {
    var end := "\"\"\"\n";
    assert end[3..] == "\n";
    assert Decode(end) == Some(("", "\n"));
    PlainDecodes(CLOSING, end);
    assert ['\n'] + "" == "\n";
    PairDecodes("\\\\" + CLOSING, CLOSING);
    assert ['\\'] + "\n" == "\\\n";
    TornClosingDecodes();
    PairDecodes("\\\\\\" + CLOSING, "\\" + CLOSING);
    assert ['\\'] + "" == "\\";
  }

  /** A backslash at the end of a line joins it to the delimiter on the next. */
  lemma TornClosingDecodes()
    ensures Decode("\\" + CLOSING) == Some(("", "\n"))
  {
    var end := "\"\"\"\n";
    assert end[3..] == "\n";
    assert CLOSING[1..] == end;
    assert Trimmed(end) == end;
    var torn := "\\" + CLOSING;
    assert torn[1..] == CLOSING;
    assert LineEnds(CLOSING);
  }

  lemma CodeDecodes(s: string, digits: nat)
    requires |s| >= 2 && s[0] == '\\' && ((s[1] == 'u' && digits == 4) || (s[1] == 'U' && digits == 8))
    ensures Decode(s) ==
      if HasCode(s, digits) then After(HexValue(s[2..2 + digits]) as char, Decode(s[2 + digits..])) else None
  {
  }

  lemma LineEndDecodes(s: string)
    requires |s| >= 2 && s[0] == '\\' && Unescape(s[1]).None? && s[1] != 'u' && s[1] != 'U'
    ensures Decode(s) == if LineEnds(s[1..]) then Decode(Trimmed(s[1..])) else None
  {
  }

  lemma PlainOrForbidden(s: string, rest: string)
    requires s != "" && s[0] != '\\' && !StartsBlock(s) && s[1..] == rest
    ensures Decode(s) == if Permitted(s[0]) then After(s[0], Decode(rest)) else None
  {
  }

  /** A character that stands for itself, and what the rest of the content gives. */
  lemma PlainGoesOn(c: string, s: string, t: string)
    requires c != "" && !StartsBlock(c) && c[0] != '\\'
    requires s == Encoded(c) + CLOSING && t == Encoded(c[1..]) + CLOSING
    ensures Decode(s) == if Permitted(c[0]) then After(c[0], Decode(t)) else None
  {
    NoDelimiterInside(c);
    EncodedStep(c);
    OneThen(Encoded(c), c[0], Encoded(c[1..]));
    PlainOrForbidden(s, t);
  }

  lemma EndDecodes()
    ensures Decode(CLOSING[1..]) == Some(("", "\n"))
  {
    var end := "\"\"\"\n";
    assert CLOSING[1..] == end && end[3..] == "\n";
  }

  // ---------- Case by case ----------

  lemma LastReads()
    ensures Reads("") && Reads("\\") && Reads("\\\\")
  {
    ClosingDecodes();
    EncodedTwoBackslashes();
    assert "" + CLOSING == CLOSING;
  }

  lemma BlockReads(c: string)
    requires StartsBlock(c) && Reads(c[3..])
    ensures Reads(c)
  {
    var rest := Encoded(c[3..]) + CLOSING;
    assert Encoded(c) + CLOSING == ESCAPED + rest;
    EscapedBlockDecodes(Encoded(c) + CLOSING, rest);
  }

  lemma PlainReads(c: string)
    requires c != "" && !StartsBlock(c) && c[0] != '\\' && Reads(c[1..])
    ensures Reads(c)
  {
    PlainGoesOn(c, Encoded(c) + CLOSING, Encoded(c[1..]) + CLOSING);
  }

  lemma BackslashBlockReads(c: string)
    requires |c| > 1 && c[0] == '\\' && StartsBlock(c[1..]) && Reads(c[4..])
    ensures Reads(c)
  {
    EncodedBackslashBlock(c);
    var rest := Encoded(c[4..]) + CLOSING;
    assert Encoded(c) + CLOSING == "\\" + (ESCAPED + rest);
    TornBlockDecodes(Encoded(c) + CLOSING, rest);
  }

  /** A backslash that is an escape, with the character after it. */
  predicate IsEscape(c: string) {
    |c| > 1 && c[0] == '\\' && !StartsBlock(c[1..]) && c != "\\\\"
  }

  lemma EscapeReads(c: string)
    requires IsEscape(c) && Unescape(c[1]).Some? && Reads(c[2..])
    ensures Reads(c)
  {
    EncodedEscape(c);
    PairDecodes(Encoded(c) + CLOSING, Encoded(c[2..]) + CLOSING);
  }

  lemma EncodedEscape(c: string)
    requires IsEscape(c)
    ensures Encoded(c) == [c[0], c[1]] + Encoded(c[2..])
    ensures var s := Encoded(c) + CLOSING; |s| >= 2 && s[0] == c[0] && s[1] == c[1] && s[2..] == Encoded(c[2..]) + CLOSING
  {
    assert c[1..] == "\\" ==> c == "\\\\";
    EncodedBackslashPair(c);
    PairThen(Encoded(c), c[0], c[1], Encoded(c[2..]));
  }

  lemma HeadHex(d: string, s: string)
    requires s == Encoded(d) + CLOSING
    ensures s != "" && (IsHex(s[0]) <==> d != "" && IsHex(d[0]))
    ensures IsHex(s[0]) ==> s[0] == d[0] && s[1..] == Encoded(d[1..]) + CLOSING
  {
    if d != "" {
      EncodedHead(d);
      if IsHex(d[0]) {
        EncodedStep(d);
        OneThen(Encoded(d), d[0], Encoded(d[1..]));
      }
    }
  }

  lemma AllHexStep(s: string, k: nat)
    requires 0 < k <= |s|
    ensures AllHex(s[..k]) <==> IsHex(s[0]) && AllHex(s[1..][..k - 1])
    ensures s[..k] == [s[0]] + s[1..][..k - 1]
  {
    var t := s[1..][..k - 1];
    assert s[..k] == [s[0]] + t;
    assert forall i :: 0 <= i < |t| ==> s[..k][i + 1] == t[i];
  }

  /** Hexadecimal digits start the encoding exactly when they start the content. */
  lemma {:induction false} HexAgrees(d: string, s: string, k: nat)
    requires s == Encoded(d) + CLOSING
    ensures k <= |s| && AllHex(s[..k]) <==> k <= |d| && AllHex(d[..k])
    ensures k <= |d| && AllHex(d[..k]) ==> s[..k] == d[..k] && s[k..] == Encoded(d[k..]) + CLOSING
  {
    if k == 0 {
      assert d[0..] == d && s[0..] == s;
    } else {
      HeadHex(d, s);
      if k <= |s| {
        AllHexStep(s, k);
      }
      if k <= |d| {
        AllHexStep(d, k);
      }
      if IsHex(s[0]) {
        HexAgrees(d[1..], s[1..], k - 1);
        assert k <= |s| ==> s[k..] == s[1..][k - 1..];
        assert k <= |d| ==> d[k..] == d[1..][k - 1..];
      }
    }
  }

  lemma TailSlices(s: string, t: string, n: nat)
    requires |s| >= 2 + n && t == s[2..]
    ensures s[2..2 + n] == t[..n] && s[2 + n..] == t[n..]
  {
  }

  /** A code in the printed text is a code in the content. */
  lemma CodesAgree(c: string, s: string, d: string, t: string, digits: nat)
    requires |c| > 1 && d == c[2..] && |s| >= 2 && s[2..] == t && t == Encoded(d) + CLOSING
    ensures HasCode(s, digits) <==> HasCode(c, digits)
    ensures HasCode(c, digits) ==>
      s[2..2 + digits] == c[2..2 + digits] && s[2 + digits..] == Encoded(c[2 + digits..]) + CLOSING
  {
    HexAgrees(d, t, digits);
    if |s| >= 2 + digits {
      TailSlices(s, t, digits);
    }
    if |c| >= 2 + digits {
      TailSlices(c, d, digits);
    }
  }

  lemma CodeIsReadAs(c: string, digits: nat)
    requires IsEscape(c) && ((c[1] == 'u' && digits == 4) || (c[1] == 'U' && digits == 8))
    ensures ReadAs(c) ==
      if HasCode(c, digits) then Also(HexValue(c[2..2 + digits]) as char, ReadAs(c[2 + digits..])) else None
  {
  }

  /** A code decodes to what it is read as, once the rest does. */
  lemma CodesCorrespond(value: char, decoded: Option<(string, string)>, readAs: Option<string>)
    requires decoded == Told(readAs)
    ensures After(value, decoded) == Told(Also(value, readAs))
  {
  }

  lemma CodeReads(c: string, digits: nat)
    requires IsEscape(c) && ((c[1] == 'u' && digits == 4) || (c[1] == 'U' && digits == 8))
    requires HasCode(c, digits) ==> Reads(c[2 + digits..])
    ensures Reads(c)
  {
    EncodedEscape(c);
    var s := Encoded(c) + CLOSING;
    CodesAgree(c, s, c[2..], Encoded(c[2..]) + CLOSING, digits);
    CodeDecodes(s, digits);
    CodeIsReadAs(c, digits);
    if HasCode(c, digits) {
      var rest := c[2 + digits..];
      CodesCorrespond(HexValue(c[2..2 + digits]) as char, Decode(Encoded(rest) + CLOSING), ReadAs(rest));
    }
  }

  /** Only a newline of the content encodes to a newline. */
  lemma EncodedStartsAlike(d: string)
    requires d != "" && d[0] != '\n'
    ensures Encoded(d) != "" && Encoded(d)[0] != '\n'
  {
  }

  lemma TrimAtEnd(d: string)
    requires d == "" || d == "\r"
    ensures Trimmed(Encoded(d) + CLOSING) == CLOSING[1..]
  {
    assert CLOSING[1..][0] == '"' && Trimmed(CLOSING[1..]) == CLOSING[1..];
    if d == "" {
      assert Encoded(d) + CLOSING == CLOSING;
    } else {
      assert Encoded(d[1..]) == "";
      var s := Encoded(d) + CLOSING;
      assert s == "\r" + CLOSING && s[2..] == CLOSING[1..];
    }
  }

  lemma NothingToTrim(s: string)
    requires s != "" && s[0] != ' ' && s[0] != '\t' && s[0] != '\n'
    requires s[0] == '\r' ==> |s| > 1 && s[1] != '\n'
    ensures Trimmed(s) == s
  {
  }

  lemma TrimNothing(d: string)
    requires d != "" && d[0] != ' ' && d[0] != '\t' && d[0] != '\n'
    requires d[0] == '\r' ==> |d| > 1 && d[1] != '\n'
    ensures Trimmed(Encoded(d) + CLOSING) == Encoded(d) + CLOSING
  {
    EncodedHead(d);
    if d[0] == '\r' {
      EncodedStep(d);
      EncodedStartsAlike(d[1..]);
      assert Encoded(d)[1] == Encoded(d[1..])[0];
    }
    NothingToTrim(Encoded(d) + CLOSING);
  }

  lemma TrimmedReturn(s: string)
    requires |s| > 1 && s[0] == '\r' && s[1] == '\n'
    ensures Trimmed(s) == Trimmed(s[2..])
  {
  }

  lemma TrimReturn(d: string)
    requires |d| > 1 && d[0] == '\r' && d[1] == '\n'
    ensures Trimmed(Encoded(d) + CLOSING) == Trimmed(Encoded(d[2..]) + CLOSING)
  {
    EncodedStep(d);
    SecondStep(d, d[1..], Encoded(d), Encoded(d[1..]));
    PairThen(Encoded(d), d[0], d[1], Encoded(d[2..]));
    TrimmedReturn(Encoded(d) + CLOSING);
  }

  lemma BlankIsTrimmed(s: string, rest: string)
    requires s != "" && (s[0] == ' ' || s[0] == '\t' || s[0] == '\n') && s[1..] == rest
    ensures Trimmed(s) == Trimmed(rest)
  {
  }

  lemma TrimBlank(d: string)
    requires d != "" && (d[0] == ' ' || d[0] == '\t' || d[0] == '\n')
    ensures Trimmed(Encoded(d) + CLOSING) == Trimmed(Encoded(d[1..]) + CLOSING)
  {
    EncodedStep(d);
    OneThen(Encoded(d), d[0], Encoded(d[1..]));
    BlankIsTrimmed(Encoded(d) + CLOSING, Encoded(d[1..]) + CLOSING);
  }

  /** Trimming the printed text stops where trimming the content does, or at the closing quotes. */
  lemma {:induction false} TrimmingAgrees(d: string)
    ensures Trimmed(Encoded(d) + CLOSING) ==
      if TrimmedContent(d) == "" then CLOSING[1..] else Encoded(TrimmedContent(d)) + CLOSING
    decreases |d|
  {
    if d == "" || d == "\r" {
      TrimAtEnd(d);
    } else if d[0] == ' ' || d[0] == '\t' || d[0] == '\n' {
      TrimBlank(d);
      TrimmingAgrees(d[1..]);
    } else if d[0] == '\r' && d[1] == '\n' {
      TrimReturn(d);
      TrimmingAgrees(d[2..]);
    } else {
      TrimNothing(d);
    }
  }

  /** How the printed text of some content starts. */
  lemma PrintedHead(d: string, s: string)
    requires s == Encoded(d) + CLOSING
    ensures s != "" && s[0] == if d == "" then '\n' else if StartsBlock(d) then '\\' else d[0]
    ensures d != "" && !StartsBlock(d) && d != "\\" ==> s[1..] == Encoded(d[1..]) + CLOSING
  {
    if d != "" {
      EncodedHead(d);
      if !StartsBlock(d) && d != "\\" {
        EncodedStep(d);
        OneThen(Encoded(d), d[0], Encoded(d[1..]));
      }
    }
  }

  lemma {:induction false} LineEndsAgree(d: string, s: string)
    requires s == Encoded(d) + CLOSING
    ensures LineEnds(s) <==> LineRunsOut(d)
  {
    PrintedHead(d, s);
    if d != "" && (d[0] == ' ' || d[0] == '\t') {
      LineEndsAgree(d[1..], s[1..]);
    } else if d != "" && d[0] == '\r' {
      PrintedHead(d[1..], s[1..]);
      assert s[1] == s[1..][0];
    }
  }

  lemma LineReads(c: string)
    requires IsEscape(c) && Unescape(c[1]).None? && c[1] != 'u' && c[1] != 'U'
    requires TrimmedContent(c[1..]) != "" ==> Reads(TrimmedContent(c[1..]))
    ensures Reads(c)
  {
    EncodedEscape(c);
    var s := Encoded(c) + CLOSING;
    LineEndDecodes(s);
    PrintedHead(c, s);
    LineEndsAgree(c[1..], s[1..]);
    TrimmingAgrees(c[1..]);
    EndDecodes();
  }

  /** Decoding the printed text gives what the content will be read as, for every content. */
  lemma {:induction false} EveryContentReads(c: string)
    ensures Reads(c)
    decreases |c|
  {
    if c == "" || c == "\\" || c == "\\\\" {
      LastReads();
    } else if StartsBlock(c) {
      EveryContentReads(c[3..]);
      BlockReads(c);
    } else if c[0] != '\\' {
      EveryContentReads(c[1..]);
      PlainReads(c);
    } else if StartsBlock(c[1..]) {
      EveryContentReads(c[4..]);
      BackslashBlockReads(c);
    } else {
      EscapedContentReads(c);
    }
  }

  lemma {:induction false} EscapedContentReads(c: string)
    requires IsEscape(c)
    ensures Reads(c)
    decreases |c|, 0
  {
    if Unescape(c[1]).Some? {
      EveryContentReads(c[2..]);
      EscapeReads(c);
    } else if c[1] == 'u' || c[1] == 'U' {
      var digits := if c[1] == 'u' then 4 else 8;
      if HasCode(c, digits) {
        EveryContentReads(c[2 + digits..]);
      }
      CodeReads(c, digits);
    } else {
      EveryContentReads(TrimmedContent(c[1..]));
      LineReads(c);
    }
  }

  /** What the written file is read back as, and whether it can be read at all. */
  lemma FileIsReadAs(content: string)
    ensures ReadPrompt(Wrapped(content)) == ReadAs(content)
    ensures Decode(Prompt(content)).Some? <==> ReadAs(content).Some?
  {
    EscapeIsEncoded(content);
    EveryContentReads(content);
    assert Wrapped(content)[|HEADER|..] == Prompt(content);
  }

  // ---------- The round trip ----------

  /** What reading back depends on: checkable on the content before it is written. */
  predicate Faithful(content: string) {
    forall i :: 0 <= i < |content| ==>
      && Permitted(content[i])
      && (content[i] == '\\' ==> i == |content| - 1 || StartsBlock(content[i + 1..]))
  }

  lemma FaithfulParts(c: string, k: nat)
    requires k <= |c|
    requires forall i :: 0 <= i < k ==> Permitted(c[i]) && (c[i] == '\\' ==> i == |c| - 1 || StartsBlock(c[i + 1..]))
    ensures Faithful(c) <==> Faithful(c[k..])
  {
    forall i | 0 <= i < |c| - k ensures c[k..][i] == c[k + i] && c[k..][i + 1..] == c[k + i + 1..] {
    }
    if Faithful(c[k..]) {
      forall i | k <= i < |c| ensures Permitted(c[i]) && (c[i] == '\\' ==> i == |c| - 1 || StartsBlock(c[i + 1..])) {
        assert c[k..][i - k] == c[i] && c[k..][i - k + 1..] == c[i + 1..];
      }
    }
  }

  /** Content comes back as it was, or shorter or not at all. */
  ghost predicate ComesBackOrShrinks(c: string) {
    var r := ReadAs(c);
    if Faithful(c) then r == Some(c + "\n") else r.Some? ==> |r.value| <= |c|
  }

  lemma QuotedBack(c: string, k: nat, r: string)
    requires 3 <= k <= |c| && StartsBlock(c[k - 3..]) && r == c[k..] + "\n"
    ensures ['"'] + (['"'] + (['"'] + r)) == c[k - 3..] + "\n"
  {
    assert c[k - 3..][0] == c[k - 3] && c[k - 3..][1] == c[k - 2] && c[k - 3..][2] == c[k - 1];
    assert c[k - 3..] == [c[k - 3], c[k - 2], c[k - 1]] + c[k..];
  }

  lemma BlockComesBack(c: string)
    requires StartsBlock(c) && ComesBackOrShrinks(c[3..])
    ensures ComesBackOrShrinks(c)
  {
    FaithfulParts(c, 3);
    assert c[0..] == c;
    if Faithful(c) {
      QuotedBack(c, 3, c[3..] + "\n");
    }
  }

  lemma BackslashBlockComesBack(c: string)
    requires |c| > 1 && c[0] == '\\' && StartsBlock(c[1..]) && ComesBackOrShrinks(c[4..])
    ensures ComesBackOrShrinks(c)
  {
    assert c[1] == c[2] == c[3] == '"' by { assert c[1..][0] == c[1] && c[1..][1] == c[2] && c[1..][2] == c[3]; }
    FaithfulParts(c, 4);
    if Faithful(c) {
      QuotedBack(c, 4, c[4..] + "\n");
      assert ['\\'] + (c[1..] + "\n") == c + "\n";
    }
  }

  lemma PlainComesBack(c: string)
    requires c != "" && !StartsBlock(c) && c[0] != '\\' && ComesBackOrShrinks(c[1..])
    ensures ComesBackOrShrinks(c)
  {
    if Permitted(c[0]) {
      FaithfulParts(c, 1);
      assert [c[0]] + (c[1..] + "\n") == c + "\n";
    }
  }

  lemma EscapeIsUnfaithful(c: string)
    requires IsEscape(c)
    ensures !Faithful(c)
  {
    assert c[0] == '\\' && 0 < |c| - 1 && c[0 + 1..] == c[1..];
  }

  /** An escape gives one character or none for two or more. */
  lemma EscapeShrinks(c: string, pair: string, code: string, trimmed: string)
    requires IsEscape(c)
    requires Unescape(c[1]).Some? ==> pair == c[2..] && ComesBackOrShrinks(pair)
    requires Unescape(c[1]).None? && c[1] == 'u' && HasCode(c, 4) ==> code == c[6..] && ComesBackOrShrinks(code)
    requires Unescape(c[1]).None? && c[1] == 'U' && HasCode(c, 8) ==> code == c[10..] && ComesBackOrShrinks(code)
    requires Unescape(c[1]).None? && c[1] != 'u' && c[1] != 'U' ==>
      trimmed == TrimmedContent(c[1..]) && |trimmed| < |c| && ComesBackOrShrinks(trimmed)
    ensures ComesBackOrShrinks(c)
  {
    EscapeIsUnfaithful(c);
  }

  lemma {:induction false} EveryContentComesBackOrShrinks(c: string)
    ensures ComesBackOrShrinks(c)
    decreases |c|
  {
    if c == "" {
      assert c + "\n" == "\n";
    } else if c == "\\" {
      assert c + "\n" == "\\\n";
    } else if c == "\\\\" {
      assert c[1..] == "\\" && !StartsBlock(c[1..]);
      assert c[0] == '\\';
    } else if StartsBlock(c) {
      EveryContentComesBackOrShrinks(c[3..]);
      BlockComesBack(c);
    } else if c[0] != '\\' {
      EveryContentComesBackOrShrinks(c[1..]);
      PlainComesBack(c);
    } else if StartsBlock(c[1..]) {
      EveryContentComesBackOrShrinks(c[4..]);
      BackslashBlockComesBack(c);
    } else {
      EscapedContentShrinks(c);
    }
  }

  lemma {:induction false} EscapedContentShrinks(c: string)
    requires IsEscape(c)
    ensures ComesBackOrShrinks(c)
    decreases |c|, 0
  {
    var pair, trimmed := c[2..], TrimmedContent(c[1..]);
    var digits := if c[1] == 'u' then 4 else 8;
    var code := if HasCode(c, digits) then c[2 + digits..] else "";
    EveryContentComesBackOrShrinks(pair);
    EveryContentComesBackOrShrinks(code);
    EveryContentComesBackOrShrinks(trimmed);
    EscapeShrinks(c, pair, code, trimmed);
  }

  /**
   * The round trip, exactly: reading the written file gives back the content and the
   * wrapper's final newline if and only if the content has no character TOML forbids and
   * every backslash in it is the last character or stands directly before three quotes.
   */
  lemma RoundTripIffFaithful(content: string)
    ensures ReadPrompt(Wrapped(content)) == Some(content + "\n") <==> Faithful(content)
  {
    FileIsReadAs(content);
    EveryContentComesBackOrShrinks(content);
  }

  /** In particular, content without backslashes and forbidden controls always comes back. */
  lemma PlainContentRoundTrips(content: string)
    requires '\\' !in content && forall c :: c in content ==> Permitted(c)
    ensures ReadPrompt(Wrapped(content)) == Some(content + "\n")
  {
    RoundTripIffFaithful(content);
  }

  lemma {:induction false} NothingToEscape(content: string)
    requires forall i :: 0 <= i < |content| ==> !StartsBlock(content[i..])
    ensures Replaced(content) == content
  {
    if content != "" {
      assert content[0..] == content;
      forall i | 0 <= i < |content[1..]| ensures !StartsBlock(content[1..][i..]) {
        assert content[1..][i..] == content[i + 1..];
      }
      NothingToEscape(content[1..]);
    }
  }

  /** The file as it is written. */
  lemma FileIsSpelledOut(content: string)
    ensures Wrapped(content) ==
      "description = \"\"\nprompt = \"\"\"\n" + (EscapeGeminiBody(content) + "\n\"\"\"\n")
  {
  }

  /** Content without three quotes and a last backslash stands in it unchanged. */
  lemma ContentStandsUnchanged(content: string)
    requires forall i :: 0 <= i < |content| ==> !StartsBlock(content[i..])
    requires content != "" ==> content[|content| - 1] != '\\'
    ensures EscapeGeminiBody(content) == content
  {
    NothingToEscape(content);
  }

  lemma EscapeAloneIsUnfaithful(c: string, letter: char)
    requires c == ['\\', letter] && letter != '"' && letter != '\\'
    ensures IsEscape(c) && !StartsBlock(c) && !Faithful(c)
  {
    assert c[1..] == [letter];
  }

  lemma UnknownEscapeIsUnread(c: string, letter: char)
    requires c == ['\\', letter] && IsEscape(c) && !StartsBlock(c) && letter == 'd'
    ensures ReadAs(c) == None
  {
    assert c[1..] == [letter];
  }

  lemma TabEscapeIsReadAsTab(c: string, letter: char)
    requires c == ['\\', letter] && IsEscape(c) && !StartsBlock(c) && letter == 't'
    ensures ReadAs(c) == Some("\t\n")
  {
    assert c[2..] == "";
    assert ['\t'] + "\n" == "\t\n";
  }

  /** A regular expression's `\d` makes the file no TOML at all; `\t` comes back as a tab. */
  lemma BackslashesAreReadAsEscapes(digit: string, tab: string)
    requires digit == "\\d" && tab == "\\t"
    ensures !Faithful(digit) && ReadPrompt(Wrapped(digit)) == None
    ensures !Faithful(tab) && ReadPrompt(Wrapped(tab)) == Some("\t\n")
  {
    FileIsReadAs(digit);
    FileIsReadAs(tab);
    EscapeAloneIsUnfaithful(digit, 'd');
    UnknownEscapeIsUnread(digit, 'd');
    EscapeAloneIsUnfaithful(tab, 't');
    TabEscapeIsReadAsTab(tab, 't');
  }
}
