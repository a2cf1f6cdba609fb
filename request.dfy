/**
 * The parsing half of `handle_connection` in src/server.rs: the decoded
 * request text is split into lines by a `lines()` iterator, the request
 * line's second whitespace-separated token is the request path, and the
 * following lines up to the first empty one are collected into a header
 * map.
 *
 * The Rust standard-library string operations the handler relies on
 * (`lines`, `split_whitespace`, `split_once`, `trim`, `to_lowercase`) are
 * modelled here as functions with contracts that characterise them.
 */
module Request {
  import opened Bytes

  // ---------------------------------------------------------------------------
  // Decoding

  // `String::from_utf8_lossy`, the way the standard library's `Utf8Chunks`
  // walks the bytes: each well-formed UTF-8 sequence becomes its character,
  // and each maximal invalid part (a byte no sequence starts with, or the
  // longest prefix of a well-formed sequence that is cut short) becomes
  // one U+FFFD.

  /** U+FFFD REPLACEMENT CHARACTER, what invalid bytes decode to. */
  const REPLACEMENT: char := '\U{FFFD}'

  predicate IsContinuation(b: byte) { 0x80 <= b <= 0xBF }

  /** The length of the sequence a byte starts: 0 for a byte that starts none (a continuation byte, 0xC0, 0xC1, 0xF5 to 0xFF). */
  function SequenceLength(lead: byte): nat {
    if lead < 0x80 then 1
    else if 0xC2 <= lead <= 0xDF then 2
    else if 0xE0 <= lead <= 0xEF then 3
    else if 0xF0 <= lead <= 0xF4 then 4
    else 0
  }

  /**
   * The bytes that may follow `lead`: a continuation byte, narrowed after
   * 0xE0 and 0xF0 (no overlong forms), 0xED (no surrogates) and 0xF4
   * (nothing above U+10FFFF).
   */
  predicate ValidSecond(lead: byte, b: byte) {
    if lead == 0xE0 then 0xA0 <= b <= 0xBF
    else if lead == 0xED then 0x80 <= b <= 0x9F
    else if lead == 0xF0 then 0x90 <= b <= 0xBF
    else if lead == 0xF4 then 0x80 <= b <= 0x8F
    else IsContinuation(b)
  }

  /** How many bytes at the start of `bs` belong to a well-formed sequence of length `w`, as far as it goes. */
  function ValidPrefix(bs: seq<byte>, w: nat): (k: nat)
    requires |bs| >= 1 && 2 <= w <= 4
    ensures 1 <= k <= w && k <= |bs|
  {
    if |bs| < 2 || !ValidSecond(bs[0], bs[1]) then 1
    else if w == 2 || |bs| < 3 || !IsContinuation(bs[2]) then 2
    else if w == 3 || |bs| < 4 || !IsContinuation(bs[3]) then 3
    else 4
  }

  /** The code point a well-formed multi-byte sequence encodes: a Unicode scalar value. */
  function CodePoint(bs: seq<byte>): (n: int)
    requires |bs| >= 2 && 2 <= SequenceLength(bs[0]) <= |bs|
    requires ValidPrefix(bs, SequenceLength(bs[0])) == SequenceLength(bs[0])
    ensures 0x80 <= n < 0xD800 || 0xE000 <= n < 0x110000
  {
    var w, b0, b1 := SequenceLength(bs[0]), bs[0] as int, bs[1] as int;
    if w == 2 then (b0 - 0xC0) * 0x40 + (b1 - 0x80)
    else if w == 3 then (b0 - 0xE0) * 0x1000 + (b1 - 0x80) * 0x40 + (bs[2] as int - 0x80)
    else (b0 - 0xF0) * 0x40000 + (b1 - 0x80) * 0x1000 + (bs[2] as int - 0x80) * 0x40 + (bs[3] as int - 0x80)
  }

  /** The next decoded character and how many bytes it takes. */
  function DecodeStep(bs: seq<byte>): (r: (char, nat))
    requires bs != []
    ensures 1 <= r.1 <= |bs|
  {
    var lead := bs[0];
    var w := SequenceLength(lead);
    if lead < 0x80 then (lead as char, 1)
    else if w == 0 then (REPLACEMENT, 1)
    else
      var k := ValidPrefix(bs, w);
      if k < w then (REPLACEMENT, k) else (CodePoint(bs) as char, w)
  }

  /** The text of the bytes read. */
  function Decode(bytes: seq<byte>): (text: string)
    ensures |text| <= |bytes|
    ensures text == "" <==> bytes == []
    decreases |bytes|
  {
    if bytes == [] then ""
    else
      var (c, n) := DecodeStep(bytes);
      [c] + Decode(bytes[n..])
  }

  /** A character's UTF-8 bytes decode to that character, whatever follows them. */
  lemma DecodeStepOfChar(c: char, rest: seq<byte>)
    ensures DecodeStep(EncodeChar(c) + rest) == (c, |EncodeChar(c)|)
  {
    var n := c as int;
    if n < 0x80 {
    } else if n < 0x800 {
      DecodeStepOfTwo(c, rest);
    } else if n < 0x10000 {
      DecodeStepOfThree(c, rest);
    } else {
      DecodeStepOfFour(c, rest);
    }
  }

  lemma DecodeStepOfTwo(c: char, rest: seq<byte>)
    requires 0x80 <= c as int < 0x800
    ensures DecodeStep(EncodeChar(c) + rest) == (c, 2)
  {
    var n := c as int;
    var bs := EncodeChar(c) + rest;
    assert bs[0] == 0xC0 + n / 0x40 && bs[1] == 0x80 + n % 0x40;
    assert CodePoint(bs) == n;
  }

  /** The three 6-bit groups of a code point below 0x10000, read back. */
  lemma SplitThree(n: int)
    requires 0 <= n
    ensures n == 0x1000 * (n / 0x1000) + 0x40 * ((n / 0x40) % 0x40) + n % 0x40
  {
    var q := n / 0x40;
    assert n / 0x1000 == q / 0x40;
  }

  lemma DecodeStepOfThree(c: char, rest: seq<byte>)
    requires 0x800 <= c as int < 0x10000
    ensures DecodeStep(EncodeChar(c) + rest) == (c, 3)
  {
    var n := c as int;
    var bs := EncodeChar(c) + rest;
    var t, s, r := n / 0x1000, (n / 0x40) % 0x40, n % 0x40;
    SplitThree(n);
    assert bs[0] == 0xE0 + t && bs[1] == 0x80 + s && bs[2] == 0x80 + r;
    assert ValidPrefix(bs, 3) == 3;
    assert CodePoint(bs) == n;
  }

  /** The four 6-bit groups of a code point, read back. */
  lemma SplitFour(n: int)
    requires 0 <= n
    ensures n == 0x40000 * (n / 0x40000) + 0x1000 * ((n / 0x1000) % 0x40)
      + 0x40 * ((n / 0x40) % 0x40) + n % 0x40
  {
    var q := n / 0x40;
    var t := q / 0x40;
    assert n / 0x1000 == t && n / 0x40000 == t / 0x40;
  }

  lemma DecodeStepOfFour(c: char, rest: seq<byte>)
    requires 0x10000 <= c as int
    ensures DecodeStep(EncodeChar(c) + rest) == (c, 4)
  {
    var n := c as int;
    var bs := EncodeChar(c) + rest;
    var u, v, s, r := n / 0x40000, (n / 0x1000) % 0x40, (n / 0x40) % 0x40, n % 0x40;
    SplitFour(n);
    assert bs[0] == 0xF0 + u && bs[1] == 0x80 + v && bs[2] == 0x80 + s && bs[3] == 0x80 + r;
    assert ValidPrefix(bs, 4) == 4;
    assert CodePoint(bs) == n;
  }

  /** Decoding the UTF-8 bytes of a text gives the text back. */
  lemma {:induction false} DecodeUtf8(s: string)
    ensures Decode(Utf8(s)) == s
    decreases |s|
  {
    if s != "" {
      var e, rest := EncodeChar(s[0]), Utf8(s[1..]);
      assert Utf8(s) == e + rest;
      DecodeStepOfChar(s[0], rest);
      assert (e + rest)[|e|..] == rest;
      DecodeUtf8(s[1..]);
      assert s == [s[0]] + s[1..];
    }
  }

  /** Decoding gives back ASCII text that was sent as bytes. */
  lemma DecodeAscii(s: string)
    requires IsAscii(s)
    ensures Decode(Ascii(s)) == s
  {
    Utf8OfAscii(s);
    DecodeUtf8(s);
  }

  /** A byte no sequence starts with (a stray continuation byte, 0xC0, 0xC1, 0xF5 to 0xFF) becomes one U+FFFD. */
  lemma StrayByteReplaced(b: byte, rest: seq<byte>)
    requires b >= 0x80 && SequenceLength(b) == 0
    ensures Decode([b] + rest) == [REPLACEMENT] + Decode(rest)
  {
    assert ([b] + rest)[1..] == rest;
  }

  /**
   * A lead byte whose next byte cannot continue its sequence (or that ends
   * the input) becomes one U+FFFD, and decoding goes on at the next byte.
   */
  lemma BrokenLeadReplaced(b: byte, rest: seq<byte>)
    requires SequenceLength(b) >= 2
    requires rest == [] || !ValidSecond(b, rest[0])
    ensures Decode([b] + rest) == [REPLACEMENT] + Decode(rest)
  {
    assert ([b] + rest)[1..] == rest;
  }

  /**
   * A lead byte and a valid second byte of a longer sequence that is cut
   * short there become a single U+FFFD together: the invalid part is the
   * longest prefix of a well-formed sequence, not each byte.
   */
  lemma CutSequenceReplaced(b0: byte, b1: byte, rest: seq<byte>)
    requires SequenceLength(b0) >= 3 && ValidSecond(b0, b1)
    requires rest == [] || !IsContinuation(rest[0])
    ensures Decode([b0, b1] + rest) == [REPLACEMENT] + Decode(rest)
  {
    assert ([b0, b1] + rest)[2..] == rest;
  }


  // ---------------------------------------------------------------------------
  // Whitespace, trimming, case

  /** `char::is_whitespace`: the Unicode White_Space characters. */
  predicate IsWhitespace(c: char) {
    || ('\t' <= c <= '\r') || c == ' ' || c == '\U{85}' || c == '\U{A0}' || c == '\U{1680}'
    || ('\U{2000}' <= c <= '\U{200A}') || c == '\U{2028}' || c == '\U{2029}'
    || c == '\U{202F}' || c == '\U{205F}' || c == '\U{3000}'
  }

  predicate AllWhitespace(s: string) {
    forall i :: 0 <= i < |s| ==> IsWhitespace(s[i])
  }

  /** A non-empty run of characters none of which is whitespace. */
  predicate IsWord(s: string) {
    s != "" && forall i :: 0 <= i < |s| ==> !IsWhitespace(s[i])
  }

  /** Neither end of `s` is whitespace. */
  predicate IsTrimmed(s: string) {
    s == "" || (!IsWhitespace(s[0]) && !IsWhitespace(s[|s| - 1]))
  }

  /** Number of leading whitespace characters. */
  function LeadingWhitespace(s: string): (n: nat)
    ensures n <= |s| && AllWhitespace(s[..n])
    ensures n < |s| ==> !IsWhitespace(s[n])
  {
    if s != "" && IsWhitespace(s[0]) then 1 + LeadingWhitespace(s[1..]) else 0
  }

  /** Number of trailing whitespace characters. */
  function TrailingWhitespace(s: string): (n: nat)
    ensures n <= |s| && AllWhitespace(s[|s| - n..])
    ensures n < |s| ==> !IsWhitespace(s[|s| - n - 1])
  {
    if s != "" && IsWhitespace(s[|s| - 1]) then
      var n := 1 + TrailingWhitespace(s[..|s| - 1]);
      assert s[|s| - n..] == s[..|s| - 1][|s| - n..] + [s[|s| - 1]];
      n
    else 0
  }

  /**
   * `str::trim`: the text between the leading and the trailing whitespace.
   * The result neither starts nor ends with whitespace, and it is empty
   * exactly when the text is all whitespace.
   */
  function Trim(s: string): (r: string)
    ensures IsTrimmed(r) && |r| <= |s|
    ensures r == "" <==> AllWhitespace(s)
  {
    var a := LeadingWhitespace(s);
    if a == |s| then
      assert s[..a] == s;
      ""
    else
      var b := TrailingWhitespace(s);
      assert a < |s| - b;
      var r := s[a..|s| - b];
      assert r[0] == s[a] && r[|r| - 1] == s[|s| - b - 1];
      r
  }

  /** Whitespace, then text that is trimmed, then whitespace: trimming gives back that text. */
  lemma TrimOf(lead: string, r: string, trail: string)
    requires AllWhitespace(lead) && AllWhitespace(trail) && IsTrimmed(r)
    ensures Trim(lead + r + trail) == r
  {
    if r == "" {
      AllWhitespaceAppend(lead, trail);
      assert lead + r + trail == lead + trail;
    } else {
      TrimOfText(lead, r, trail);
    }
  }

  lemma AllWhitespaceAppend(a: string, b: string)
    requires AllWhitespace(a) && AllWhitespace(b)
    ensures AllWhitespace(a + b)
  {
    assert forall i :: 0 <= i < |a + b| ==> (a + b)[i] == if i < |a| then a[i] else b[i - |a|];
  }

  lemma TrimOfText(lead: string, r: string, trail: string)
    requires AllWhitespace(lead) && AllWhitespace(trail) && IsTrimmed(r) && r != ""
    ensures Trim(lead + r + trail) == r
  {
    var s := lead + r + trail;
    assert s == lead + (r + trail);
    LeadingWhitespaceOf(lead, r + trail);
    TrailingWhitespaceOf(lead + r, trail);
    assert s[|lead|..|s| - |trail|] == r;
  }

  lemma {:induction false} TrailingWhitespaceOf(s: string, space: string)
    requires AllWhitespace(space)
    requires s != "" && !IsWhitespace(s[|s| - 1])
    ensures TrailingWhitespace(s + space) == |space|
    decreases |space|
  {
    var t := s + space;
    if space == "" {
      assert t == s;
    } else {
      assert t[..|t| - 1] == s + space[..|space| - 1];
      TrailingWhitespaceOf(s, space[..|space| - 1]);
    }
  }

  function LowerChar(c: char): char {
    if 'A' <= c <= 'Z' then (c as int + 32) as char else c
  }

  /**
   * `str::to_lowercase` on ASCII letters: each capital becomes its small
   * letter and every other character is kept.
   */
  function ToLower(s: string): (r: string)
    ensures |r| == |s|
    ensures forall i :: 0 <= i < |s| ==> !('A' <= r[i] <= 'Z')
    ensures forall i :: 0 <= i < |s| && 'A' <= s[i] <= 'Z' ==> r[i] as int == s[i] as int + 32
    ensures forall i :: 0 <= i < |s| && !('A' <= s[i] <= 'Z') ==> r[i] == s[i]
    ensures forall i :: 0 <= i < |s| ==> (IsWhitespace(r[i]) <==> IsWhitespace(s[i]))
  {
    seq(|s|, i requires 0 <= i < |s| => LowerChar(s[i]))
  }

  /** `c` and `d` are the same letter, ignoring the case of ASCII letters. */
  predicate SameIgnoringCase(c: char, d: char) {
    || c == d
    || ('A' <= c <= 'Z' && d as int == c as int + 32)
    || ('A' <= d <= 'Z' && c as int == d as int + 32)
  }

  /**
   * Texts that differ only in the case of ASCII letters lower-case to the
   * same text: `Host`, `HOST` and `host` name one header.
   */
  lemma ToLowerIgnoresCase(s: string, t: string)
    requires |s| == |t|
    requires forall i :: 0 <= i < |s| ==> SameIgnoringCase(s[i], t[i])
    ensures ToLower(s) == ToLower(t)
  {
    var a, b := ToLower(s), ToLower(t);
    forall i | 0 <= i < |s|
      ensures a[i] == b[i]
    {
      assert SameIgnoringCase(s[i], t[i]);
    }
  }

  // ---------------------------------------------------------------------------
  // Lines

  /**
   * One step of `str::lines()`: the text up to the first `\n` (or all of it
   * when there is none), with one `\r` removed from before that `\n`, and
   * the text after it. None once the text is used up.
   */
  function NextLine(s: string): (r: Option<(string, string)>)
    ensures r.None? <==> s == ""
    ensures r.Some? ==> '\n' !in r.value.0 && |r.value.1| < |s|
    ensures r.Some? ==>
      || s == r.value.0 + "\n" + r.value.1
      || s == r.value.0 + "\r\n" + r.value.1
      || (s == r.value.0 && r.value.1 == "")
    ensures r.Some? && s == r.value.0 + "\n" + r.value.1 ==>
      r.value.0 == "" || r.value.0[|r.value.0| - 1] != '\r'
  {
    if s == "" then None
    else
      var i := IndexOf(s, '\n');
      if i == |s| then Some((s, ""))
      else
        var raw := s[..i];
        if raw != "" && raw[|raw| - 1] == '\r' then
          assert s == raw[..|raw| - 1] + "\r\n" + s[i + 1..];
          Some((raw[..|raw| - 1], s[i + 1..]))
        else
          assert s == raw + "\n" + s[i + 1..];
          Some((raw, s[i + 1..]))
  }

  /** Every line `str::lines()` yields, in order. */
  function Lines(s: string): (ls: seq<string>)
    ensures forall k :: 0 <= k < |ls| ==> '\n' !in ls[k]
    ensures |ls| <= |s|
    decreases |s|
  {
    match NextLine(s)
    case None => []
    case Some((line, rest)) => [line] + Lines(rest)
  }

  /** A line ended by CR LF is yielded without the CR: a CRLF blank line is empty. */
  lemma CrlfLine(line: string, rest: string)
    requires '\n' !in line
    ensures NextLine(line + "\r\n" + rest) == Some((line, rest))
  {
    var s := line + "\r\n" + rest;
    IndexOfSeparator(line + "\r", '\n', rest);
    assert s == (line + "\r") + ['\n'] + rest;
    assert s[..|line| + 1] == line + "\r";
    assert s[|line| + 2..] == rest;
  }

  /**
   * The `lines()` iterator the handler consumes step by step. `rest` is the
   * text not yet split off, as the iterator holds it.
   */
  class LineIterator {
    var rest: string

    constructor (text: string)
      ensures rest == text
    {
      rest := text;
    }

    /** The lines still to come. */
    function Remaining(): seq<string>
      reads this
    {
      Lines(rest)
    }

    /** `Lines::next`: the next line, or None (and nothing changes) when there is none left. */
    method Next() returns (line: Option<string>)
      modifies this
      ensures old(Remaining()) == [] ==> line == None && rest == old(rest)
      ensures old(Remaining()) != [] ==>
        line == Some(old(Remaining())[0]) && Remaining() == old(Remaining())[1..]
    {
      match NextLine(rest)
      case None =>
        line := None;
      case Some((l, r)) =>
        line := Some(l);
        rest := r;
    }
  }

  // ---------------------------------------------------------------------------
  // Headers

  /**
   * What one header line contributes: nothing when it has no `:`; otherwise
   * the part before the first `:` trimmed and lower-cased as the key and the
   * part after it trimmed as the value.
   */
  function HeaderEntry(line: string): Option<(string, string)> {
    match SplitOnce(line, ':')
    case None => None
    case Some((key, value)) => Some((ToLower(Trim(key)), Trim(value)))
  }

  /**
   * A line yields an entry exactly when it holds a colon; the key is the
   * text before the first colon, trimmed and without capitals, and the value
   * is the text after it, trimmed.
   */
  lemma HeaderEntryShape(line: string)
    ensures HeaderEntry(line).None? <==> ':' !in line
    ensures HeaderEntry(line).Some? ==>
      var (key, value) := HeaderEntry(line).value;
      exists name, rest :: line == name + ":" + rest && ':' !in name
        && key == ToLower(Trim(name)) && value == Trim(rest)
    ensures HeaderEntry(line).Some? ==>
      var (key, value) := HeaderEntry(line).value;
      && IsTrimmed(key) && (forall i :: 0 <= i < |key| ==> !('A' <= key[i] <= 'Z'))
      && IsTrimmed(value)
  {
    match SplitOnce(line, ':')
    case None =>
    case Some((name, rest)) =>
      assert line == name + ":" + rest;
  }

  /** `line` is a header line whose key is `key`. */
  predicate SetsKey(line: string, key: string) {
    HeaderEntry(line).Some? && HeaderEntry(line).value.0 == key
  }

  /** `headers.insert(key, value)` for one line, when it has a colon. */
  function Insert(headers: map<string, string>, line: string): map<string, string> {
    match HeaderEntry(line)
    case None => headers
    case Some((key, value)) => headers[key := value]
  }

  /** The header loop over `ls`, starting from `headers`: stop at the first empty line. */
  function InsertAll(headers: map<string, string>, ls: seq<string>): map<string, string>
    decreases |ls|
  {
    if ls == [] || ls[0] == "" then headers
    else InsertAll(Insert(headers, ls[0]), ls[1..])
  }

  /**
   * `while let Some(line) = lines.next()`: the header loop, reading lines
   * from the iterator until it is exhausted or yields an empty line.
   */
  method ParseHeaders(lines: LineIterator) returns (headers: map<string, string>)
    modifies lines
    ensures headers == InsertAll(map[], old(lines.Remaining()))
    ensures lines.Remaining() == AfterBlank(old(lines.Remaining()))
  {
    headers := map[];
    ghost var ls := lines.Remaining();
    ghost var n := 0;
    while true
      invariant n <= |ls| && lines.Remaining() == ls[n..] && NoBlank(ls[..n])
      invariant InsertAll(headers, lines.Remaining()) == InsertAll(map[], ls)
      decreases |lines.Remaining()|
    {
      ghost var before := lines.Remaining();
      var line := lines.Next();
      match line
      case None =>
        BlankAbsent(ls, n);
        break;
      case Some(l) =>
        assert l == ls[n];
        if l == "" {
          FirstBlank(ls, n);
          break;
        }
        NoBlankExtend(ls, n);
        n := n + 1;
        assert before == [l] + lines.Remaining();
        InsertAllStep(headers, l, lines.Remaining());
        headers := Insert(headers, l);
    }
  }

  /** The lines after the first empty one (none when there is no empty line). */
  function AfterBlank(ls: seq<string>): seq<string> {
    var k := IndexOf(ls, "");
    if k < |ls| then ls[k + 1..] else []
  }

  lemma FirstBlank(ls: seq<string>, n: nat)
    requires n < |ls| && NoBlank(ls[..n]) && ls[n] == ""
    ensures IndexOf(ls, "") == n
  {
    assert ls == ls[..n] + [ls[n]] + ls[n + 1..];
    assert forall j :: 0 <= j < n ==> ls[..n][j] != "";
    IndexOfSeparator(ls[..n], "", ls[n + 1..]);
  }

  lemma BlankAbsent(ls: seq<string>, n: nat)
    requires n <= |ls| && ls[n..] == [] && NoBlank(ls[..n])
    ensures AfterBlank(ls) == ls[n..]
  {
    assert ls[..n] == ls;
    assert forall j :: 0 <= j < |ls| ==> ls[j] != "";
  }

  lemma NoBlankExtend(ls: seq<string>, n: nat)
    requires n < |ls| && NoBlank(ls[..n]) && ls[n] != ""
    ensures NoBlank(ls[..n + 1])
  {
    assert ls[..n + 1] == ls[..n] + [ls[n]];
  }

  /** Lines after the first empty line are never inspected. */
  lemma {:induction false} HeadersStopAtBlank(headers: map<string, string>, ls: seq<string>)
    ensures InsertAll(headers, ls) == InsertAll(headers, ls[..IndexOf(ls, "")])
    decreases |ls|
  {
    if |ls| > 0 && ls[0] != "" {
      var first, tail := ls[0], ls[1..];
      var n := IndexOf(tail, "");
      assert IndexOf(ls, "") == n + 1;
      assert ls == [first] + tail;
      assert ls[..n + 1] == [first] + tail[..n];
      InsertAllStep(headers, first, tail);
      InsertAllStep(headers, first, tail[..n]);
      HeadersStopAtBlank(Insert(headers, first), tail);
    } else if |ls| > 0 {
      assert ls[..IndexOf(ls, "")] == [];
    }
  }

  /** A line without a colon, wherever it stands before the blank line, changes nothing. */
  lemma {:induction false} ColonlessLineSkipped(
    headers: map<string, string>, before: seq<string>, line: string, after: seq<string>)
    requires forall k :: 0 <= k < |before| ==> before[k] != ""
    requires line != "" && ':' !in line
    ensures InsertAll(headers, before + [line] + after) == InsertAll(headers, before + after)
    decreases |before|
  {
    var lhs, rhs := before + [line] + after, before + after;
    if |before| == 0 {
      assert InsertAll(headers, lhs) == InsertAll(headers, rhs) by {
        assert lhs == [line] + after && rhs == after;
        ColonlessFirstLine(headers, line, after);
      }
    } else {
      assert InsertAll(headers, lhs) == InsertAll(headers, rhs) by {
        var b0, b1 := before[0], before[1..];
        assert lhs == before + ([line] + after);
        SplitFirst(before, [line] + after);
        SplitFirst(before, after);
        assert b1 + ([line] + after) == b1 + [line] + after;
        assert lhs == [b0] + (b1 + [line] + after);
        assert rhs == [b0] + (b1 + after);
        ColonlessLineSkipped(Insert(headers, b0), b1, line, after);
        SameAfterLine(headers, b0, b1 + [line] + after, b1 + after);
      }
    }
  }

  /** A sequence is its prefix, the element at `i`, and its suffix. */
  lemma SplitAt<T>(s: seq<T>, i: nat)
    requires i < |s|
    ensures s == s[..i] + ([s[i]] + s[i + 1..])
  {
  }

  /** Regrouping a concatenation around the first element of its left part. */
  lemma SplitFirst<T>(s: seq<T>, t: seq<T>)
    requires |s| > 0
    ensures s + t == [s[0]] + (s[1..] + t)
  {
  }

  /** A first line without a colon is passed over. */
  lemma ColonlessFirstLine(headers: map<string, string>, line: string, after: seq<string>)
    requires line != "" && ':' !in line
    ensures InsertAll(headers, [line] + after) == InsertAll(headers, after)
  {
    InsertAllStep(headers, line, after);
    assert Insert(headers, line) == headers;
  }

  /** Two line sequences the loop treats alike still do after a common non-empty first line. */
  lemma SameAfterLine(headers: map<string, string>, line: string, xs: seq<string>, ys: seq<string>)
    requires line != ""
    requires InsertAll(Insert(headers, line), xs) == InsertAll(Insert(headers, line), ys)
    ensures InsertAll(headers, [line] + xs) == InsertAll(headers, [line] + ys)
  {
    InsertAllStep(headers, line, xs);
    InsertAllStep(headers, line, ys);
  }

  /** The loop body for one non-empty line. */
  lemma InsertAllStep(headers: map<string, string>, line: string, ls: seq<string>)
    requires line != ""
    ensures InsertAll(headers, [line] + ls) == InsertAll(Insert(headers, line), ls)
  {
    assert ([line] + ls)[1..] == ls;
  }

  /** None of the lines is empty: the header loop reads all of them. */
  predicate NoBlank(ls: seq<string>) {
    forall j :: 0 <= j < |ls| ==> ls[j] != ""
  }

  /**
   * The last duplicate wins: a key set by line `i` keeps that line's value
   * when no later line sets the same key. (By `HeadersStopAtBlank`, the
   * lines are those before the first empty one.)
   */
  lemma HeaderLastWins(
    headers: map<string, string>, ls: seq<string>, i: nat, key: string, value: string)
    requires NoBlank(ls) && i < |ls|
    requires HeaderEntry(ls[i]) == Some((key, value))
    requires forall j :: i < j < |ls| ==> !SetsKey(ls[j], key)
    ensures key in InsertAll(headers, ls) && InsertAll(headers, ls)[key] == value
  {
    var before, line, after := ls[..i], ls[i], ls[i + 1..];
    var mid := InsertAll(headers, before);
    assert forall j :: 0 <= j < |after| ==> !SetsKey(after[j], key) by {
      forall j | 0 <= j < |after|
        ensures !SetsKey(after[j], key)
      {
        assert after[j] == ls[i + 1 + j];
      }
    }
    assert InsertAll(headers, ls) == InsertAll(Insert(mid, line), after) by {
      SplitAt(ls, i);
      InsertAllAppend(headers, before, [line] + after);
      InsertAllStep(mid, line, after);
    }
    LastSetterWins(mid, line, after, key, value);
  }

  /** The loop over `a + b`, when `a` has no empty line, is the loop over `a` and then over `b`. */
  lemma {:induction false} InsertAllAppend(headers: map<string, string>, a: seq<string>, b: seq<string>)
    requires NoBlank(a)
    ensures InsertAll(headers, a + b) == InsertAll(InsertAll(headers, a), b)
    decreases |a|
  {
    if |a| == 0 {
      assert a + b == b;
    } else {
      assert a + b == [a[0]] + (a[1..] + b);
      InsertAllStep(headers, a[0], a[1..] + b);
      InsertAllAppend(Insert(headers, a[0]), a[1..], b);
    }
  }

  /** The line that sets `key` is followed by none that does. */
  lemma LastSetterWins(
    headers: map<string, string>, line: string, tail: seq<string>, key: string, value: string)
    requires NoBlank(tail)
    requires HeaderEntry(line) == Some((key, value))
    requires forall j :: 0 <= j < |tail| ==> !SetsKey(tail[j], key)
    ensures key in InsertAll(Insert(headers, line), tail)
    ensures InsertAll(Insert(headers, line), tail)[key] == value
  {
    var next := Insert(headers, line);
    assert key in next && next[key] == value;
    HeaderUntouched(next, tail, key);
  }

  /** A key that no line sets keeps whatever the map held for it. */
  lemma {:induction false} HeaderUntouched(headers: map<string, string>, ls: seq<string>, key: string)
    requires NoBlank(ls)
    requires forall j :: 0 <= j < |ls| ==> !SetsKey(ls[j], key)
    ensures key in InsertAll(headers, ls) <==> key in headers
    ensures key in headers ==> InsertAll(headers, ls)[key] == headers[key]
    decreases |ls|
  {
    if |ls| > 0 {
      var first, tail := ls[0], ls[1..];
      assert ls == [first] + tail;
      InsertAllStep(headers, first, tail);
      assert !SetsKey(first, key);
      HeaderUntouched(Insert(headers, first), tail, key);
    }
  }

  // ---------------------------------------------------------------------------
  // The request line

  /** Length of the leading run of non-whitespace characters. */
  function WordLength(s: string): (n: nat)
    ensures n <= |s| && (forall i :: 0 <= i < n ==> !IsWhitespace(s[i]))
    ensures n < |s| ==> IsWhitespace(s[n])
  {
    if s != "" && !IsWhitespace(s[0]) then 1 + WordLength(s[1..]) else 0
  }

  /**
   * One step of `split_whitespace()`: skip whitespace, then take the
   * longest run of non-whitespace as the token. None when only whitespace
   * is left.
   */
  function NextToken(s: string): (r: Option<(string, string)>)
    ensures r.None? <==> AllWhitespace(s)
    ensures r.Some? ==>
      var (token, rest) := r.value;
      && IsWord(token)
      && (rest == "" || IsWhitespace(rest[0]))
      && |token| + |rest| <= |s|
      && s[|s| - |token| - |rest|..] == token + rest
      && AllWhitespace(s[..|s| - |token| - |rest|])
  {
    var k := LeadingWhitespace(s);
    if k == |s| then
      assert s[..k] == s;
      None
    else
      var t := s[k..];
      var n := WordLength(t);
      assert t == t[..n] + t[n..];
      Some((t[..n], t[n..]))
  }

  /** Whitespace, a word, then the end or whitespace: the word is the next token. */
  lemma NextTokenOf(space: string, token: string, rest: string)
    requires AllWhitespace(space) && IsWord(token)
    requires rest == "" || IsWhitespace(rest[0])
    ensures NextToken(space + token + rest) == Some((token, rest))
  {
    var s := space + token + rest;
    assert s == space + (token + rest);
    LeadingWhitespaceOf(space, token + rest);
    var t := s[|space|..];
    assert t == token + rest;
    WordLengthOf(token, rest);
    assert t[..|token|] == token && t[|token|..] == rest;
  }

  lemma {:induction false} LeadingWhitespaceOf(space: string, rest: string)
    requires AllWhitespace(space)
    requires rest != "" && !IsWhitespace(rest[0])
    ensures LeadingWhitespace(space + rest) == |space|
    decreases |space|
  {
    var s := space + rest;
    if space == "" {
      assert s == rest;
    } else {
      assert s[1..] == space[1..] + rest;
      LeadingWhitespaceOf(space[1..], rest);
    }
  }

  lemma {:induction false} WordLengthOf(word: string, rest: string)
    requires forall i :: 0 <= i < |word| ==> !IsWhitespace(word[i])
    requires rest == "" || IsWhitespace(rest[0])
    ensures WordLength(word + rest) == |word|
    decreases |word|
  {
    var s := word + rest;
    if word == "" {
      assert s == rest;
    } else {
      assert s[1..] == word[1..] + rest;
      WordLengthOf(word[1..], rest);
    }
  }

  /**
   * The request path: the second whitespace-separated token of the request
   * line, or `/` when the line has fewer than two tokens.
   */
  function RequestPath(requestLine: string): (path: string)
    ensures IsWord(path)
  {
    match NextToken(requestLine)
    case None => "/"
    case Some((_, afterMethod)) =>
      match NextToken(afterMethod)
      case None => "/"
      case Some((path, _)) => path
  }

  /** In `<method> <path> <version>`, the path is the second token. */
  lemma RequestPathIsSecondToken(
    lead: string, method_: string, gap: string, path: string, rest: string)
    requires AllWhitespace(lead) && IsWord(method_)
    requires AllWhitespace(gap) && gap != "" && IsWord(path)
    requires rest == "" || IsWhitespace(rest[0])
    ensures RequestPath(lead + method_ + gap + path + rest) == path
  {
    var afterMethod := gap + path + rest;
    assert afterMethod[0] == gap[0];
    assert lead + method_ + gap + path + rest == lead + method_ + afterMethod;
    NextTokenOf(lead, method_, afterMethod);
    NextTokenOf(gap, path, rest);
  }

  /**
   * Sent as UTF-8, a request line whose tokens are separated by any
   * whitespace character (U+3000 IDEOGRAPHIC SPACE in `GET\u{3000}/secret
   * HTTP/1.1`, say) still asks for its second token.
   */
  lemma Utf8RequestLinePath(method_: string, gap: string, path: string, rest: string)
    requires IsWord(method_) && AllWhitespace(gap) && gap != "" && IsWord(path)
    requires rest == "" || IsWhitespace(rest[0])
    ensures RequestPath(Decode(Utf8(method_ + gap + path + rest))) == path
  {
    var line := method_ + gap + path + rest;
    DecodeUtf8(line);
    assert "" + method_ == method_;
    RequestPathIsSecondToken("", method_, gap, path, rest);
  }

  /** A request line with a single token, or none, asks for `/`. */
  lemma ShortRequestLineIsRoot(lead: string, method_: string, trail: string)
    requires AllWhitespace(lead) && AllWhitespace(trail)
    requires method_ == "" || IsWord(method_)
    ensures RequestPath(lead + method_ + trail) == "/"
  {
    var s := lead + method_ + trail;
    if method_ == "" {
      assert forall i :: 0 <= i < |s| ==> s[i] == if i < |lead| then lead[i] else trail[i - |lead|];
    } else if trail == "" {
      assert s == lead + method_ + "";
      NextTokenOf(lead, method_, "");
    } else {
      NextTokenOf(lead, method_, trail);
    }
  }
}
