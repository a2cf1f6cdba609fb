/**
 * The response builder of src/http.rs: `HttpResponse`, its serialisation
 * `to_bytes`, and the status-to-message table of `send_error_response`.
 *
 * `ParseResponse` reads a serialised response back (status line, the two
 * headers, then exactly Content-Length body bytes, as section 3.3.2 of
 * RFC 7230 frames a message); it is the inverse the serialiser is proved
 * against.
 */
module Http {
  import opened Bytes

  /** Rust's `u16`, the type of the status code. */
  type u16 = x: int | 0 <= x < 0x1_0000

  /**
   * `HttpResponse`. `HttpResponse::new` stores its four arguments verbatim
   * (the two `&str` become owned `String`s), so it is this constructor.
   */
  datatype HttpResponse = HttpResponse(
    statusCode: u16,
    statusText: string,
    contentType: string,
    body: seq<byte>)

  const CR: byte := 0x0D
  const LF: byte := 0x0A
  const SP: byte := 0x20
  const CRLF: seq<byte> := [CR, LF]

  const STATUS_LINE_START: seq<byte> := Ascii("HTTP/1.1 ")
  const CONTENT_TYPE: seq<byte> := Ascii("Content-Type: ")
  const CONTENT_LENGTH: seq<byte> := Ascii("Content-Length: ")

  /** `HTTP/1.1 <code> <text>\r\n` */
  function StatusLine(r: HttpResponse): seq<byte> {
    STATUS_LINE_START + Decimal(r.statusCode) + [SP] + Utf8(r.statusText) + CRLF
  }

  /** `<name><value>\r\n`, a header line. */
  function HeaderLine(name: seq<byte>, value: seq<byte>): seq<byte> {
    name + value + CRLF
  }

  /**
   * The head that `to_bytes` formats: the status line, `Content-Type: <type>`,
   * `Content-Length: <n>` where `<n>` is the body's length in bytes, and a
   * blank line.
   */
  function Head(r: HttpResponse): seq<byte> {
    StatusLine(r)
    + HeaderLine(CONTENT_TYPE, Utf8(r.contentType))
    + HeaderLine(CONTENT_LENGTH, Decimal(|r.body|))
    + CRLF
  }

  /** The bytes of a response on the wire: the head, then the body. */
  function Wire(r: HttpResponse): seq<byte> {
    Head(r) + r.body
  }

  /**
   * `HttpResponse::to_bytes`: the formatted head turned into a byte vector,
   * then extended with the body.
   */
  method ToBytes(r: HttpResponse) returns (response: seq<byte>)
    ensures response == Wire(r)
    ensures |response| == |Head(r)| + |r.body|
    ensures response[|Head(r)|..] == r.body
  {
    var headers := Head(r);
    response := headers;
    response := response + r.body;
  }

  /** The (status text, body message) pair `send_error_response` picks for a status code. */
  function ErrorReply(status: u16): (string, string) {
    match status
    case 404 => ("Not Found", "Not Found")
    case 403 => ("Forbidden", "Access denied")
    case _ => ("Internal Server Error", "Server Error")
  }

  /**
   * The response `send_error_response` builds: the caller's code, the
   * table's text, content type `text/plain` and the table's message as body.
   */
  function ErrorResponse(status: u16): (r: HttpResponse)
    ensures r.statusCode == status && r.contentType == "text/plain"
    ensures r.statusText in {"Not Found", "Forbidden", "Internal Server Error"}
    ensures r.body == Utf8(ErrorReply(status).1)
  {
    var (text, message) := ErrorReply(status);
    HttpResponse(status, text, "text/plain", Utf8(message))
  }

  /**
   * The three rows of the table: 404 is `Not Found` with body `Not Found`,
   * 403 is `Forbidden` with body `Access denied`, and every other code is
   * `Internal Server Error` with body `Server Error`.
   */
  lemma ErrorTable(status: u16)
    ensures status == 404 ==>
      ErrorResponse(status) == HttpResponse(404, "Not Found", "text/plain", Utf8("Not Found"))
    ensures status == 403 ==>
      ErrorResponse(status) == HttpResponse(403, "Forbidden", "text/plain", Utf8("Access denied"))
    ensures status != 404 && status != 403 ==>
      ErrorResponse(status) ==
        HttpResponse(status, "Internal Server Error", "text/plain", Utf8("Server Error"))
  {
  }

  /**
   * `send_error_response` without the stream: the bytes it writes.
   */
  method SendErrorResponse(status: u16) returns (written: seq<byte>)
    ensures written == Wire(ErrorResponse(status))
  {
    var (statusText, message) := ErrorReply(status);
    var response := HttpResponse(status, statusText, "text/plain", Utf8(message));
    written := ToBytes(response);
  }

  // ---------------------------------------------------------------------------
  // Reading a response back

  /** What a client reads from a response: the fields as bytes, and the body Content-Length frames. */
  datatype ParsedResponse = ParsedResponse(
    statusCode: nat,
    reason: seq<byte>,
    contentType: seq<byte>,
    contentLength: nat,
    body: seq<byte>)

  /** The bytes after the literal `lit`, when `b` starts with it. */
  function Expect(b: seq<byte>, lit: seq<byte>): (r: Option<seq<byte>>)
    ensures r.Some? <==> lit <= b
    ensures r.Some? ==> b == lit + r.value
  {
    if lit <= b then Some(b[|lit|..]) else None
  }

  /** A non-empty run of decimal digits and its value. */
  function Number(ds: seq<byte>): Option<nat> {
    if ds != [] && AllDigits(ds) then Some(DigitsValue(ds)) else None
  }

  /** The status line: the code's digits up to a space, then the reason up to CR LF. */
  function ParseStatusLine(b: seq<byte>): Option<(nat, seq<byte>, seq<byte>)> {
    var afterVersion :- Expect(b, STATUS_LINE_START);
    var code :- SplitOnce(afterVersion, SP);
    var status :- Number(code.0);
    var reason :- SplitOnce(code.1, CR);
    var rest :- Expect(reason.1, [LF]);
    Some((status, reason.0, rest))
  }

  /** A header line with the given name: its value up to CR LF. */
  function ParseHeaderLine(b: seq<byte>, name: seq<byte>): Option<(seq<byte>, seq<byte>)> {
    var afterName :- Expect(b, name);
    var value :- SplitOnce(afterName, CR);
    var rest :- Expect(value.1, [LF]);
    Some((value.0, rest))
  }

  /**
   * A client's reading of the bytes `to_bytes` produces: the status line,
   * the Content-Type and Content-Length headers, the blank line, and then
   * exactly Content-Length bytes of body.
   */
  function ParseResponse(b: seq<byte>): Option<ParsedResponse> {
    var status :- ParseStatusLine(b);
    var contentType :- ParseHeaderLine(status.2, CONTENT_TYPE);
    var length :- ParseHeaderLine(contentType.1, CONTENT_LENGTH);
    var n :- Number(length.0);
    var body :- Expect(length.1, CRLF);
    if |body| < n then None
    else Some(ParsedResponse(status.0, status.1, contentType.0, n, body[..n]))
  }

  lemma ExpectLiteral(lit: seq<byte>, rest: seq<byte>)
    ensures Expect(lit + rest, lit) == Some(rest)
  {
    assert lit <= lit + rest;
    assert (lit + rest)[|lit|..] == rest;
  }

  lemma DigitsAvoid(n: nat, x: byte)
    requires !IsDigit(x)
    ensures x !in Decimal(n)
  {
  }

  lemma HeaderLineRoundTrip(name: seq<byte>, value: seq<byte>, rest: seq<byte>)
    requires CR !in value
    ensures ParseHeaderLine(HeaderLine(name, value) + rest, name) == Some((value, rest))
  {
    ExpectLiteral(name, value + CRLF + rest);
    assert HeaderLine(name, value) + rest == name + (value + CRLF + rest);
    assert value + CRLF + rest == value + [CR] + ([LF] + rest);
    SplitOnceAtFirst(value, CR, [LF] + rest);
    ExpectLiteral([LF], rest);
  }

  lemma StatusLineRoundTrip(r: HttpResponse, rest: seq<byte>)
    requires '\r' !in r.statusText
    ensures ParseStatusLine(StatusLine(r) + rest) == Some((r.statusCode as nat, Utf8(r.statusText), rest))
  {
    var code, text := Decimal(r.statusCode), Utf8(r.statusText);
    Utf8Avoids(r.statusText, '\r');
    var t0 := text + [CR] + ([LF] + rest);
    assert StatusLine(r) + rest == STATUS_LINE_START + (code + [SP] + t0);
    ExpectLiteral(STATUS_LINE_START, code + [SP] + t0);
    DigitsAvoid(r.statusCode, SP);
    SplitOnceAtFirst(code, SP, t0);
    DecimalRoundTrip(r.statusCode);
    SplitOnceAtFirst(text, CR, [LF] + rest);
    ExpectLiteral([LF], rest);
  }

  /**
   * Reading back what `to_bytes` writes recovers the status code, the
   * status text and content type (as UTF-8), a Content-Length equal to the
   * body's byte count, and the body unchanged — provided the text and the
   * type contain no carriage return, which would end their line early.
   */
  lemma WireRoundTrip(r: HttpResponse)
    requires '\r' !in r.statusText && '\r' !in r.contentType
    ensures ParseResponse(Wire(r)) == Some(ParsedResponse(
      r.statusCode, Utf8(r.statusText), Utf8(r.contentType), |r.body|, r.body))
  {
    var text, ctype, len := Utf8(r.statusText), Utf8(r.contentType), Decimal(|r.body|);
    var t2 := CRLF + r.body;
    var t1 := HeaderLine(CONTENT_LENGTH, len) + t2;
    var t0 := HeaderLine(CONTENT_TYPE, ctype) + t1;
    WireLines(r);
    StatusLineRoundTrip(r, t0);
    assert ParseStatusLine(Wire(r)) == Some((r.statusCode as nat, text, t0));
    Utf8Avoids(r.contentType, '\r');
    HeaderLineRoundTrip(CONTENT_TYPE, ctype, t1);
    DigitsAvoid(|r.body|, CR);
    HeaderLineRoundTrip(CONTENT_LENGTH, len, t2);
    NumberOfDecimal(|r.body|);
    ExpectLiteral(CRLF, r.body);
    assert r.body[..|r.body|] == r.body;
  }

  /** The wire form, grouped line by line from the front. */
  lemma WireLines(r: HttpResponse)
    ensures Wire(r) == StatusLine(r) + (HeaderLine(CONTENT_TYPE, Utf8(r.contentType))
      + (HeaderLine(CONTENT_LENGTH, Decimal(|r.body|)) + (CRLF + r.body)))
  {
  }

  lemma NumberOfDecimal(n: nat)
    ensures Number(Decimal(n)) == Some(n)
  {
    DecimalRoundTrip(n);
  }

  /**
   * An error response on the wire carries the caller's status code, its
   * status text, content type `text/plain` and a Content-Length equal to the
   * canned message's length, followed by exactly that message.
   */
  lemma ErrorResponseOnWire(status: u16)
    ensures var r := ErrorResponse(status);
      ParseResponse(Wire(r)) == Some(ParsedResponse(
        status, Utf8(r.statusText), Utf8(r.contentType), |r.body|, r.body))
  {
    var r := ErrorResponse(status);
    TextsHaveNoCR();
    assert r.statusText == "Not Found" || r.statusText == "Forbidden" || r.statusText == "Internal Server Error";
    WireRoundTrip(r);
  }

  /** The fixed texts the server sends hold no carriage return. */
  lemma TextsHaveNoCR()
    ensures '\r' !in "OK" && '\r' !in "text/html" && '\r' !in "text/plain"
    ensures '\r' !in "Not Found" && '\r' !in "Forbidden" && '\r' !in "Internal Server Error"
  {
  }

  /** Every response starts with `HTTP/1.1 `, its code's digits and a space. */
  lemma WireStartsWithCode(r: HttpResponse)
    ensures STATUS_LINE_START + Decimal(r.statusCode) + [SP] <= Wire(r)
  {
    var start := STATUS_LINE_START + Decimal(r.statusCode) + [SP];
    var line := Utf8(r.statusText) + CRLF;
    var tail := HeaderLine(CONTENT_TYPE, Utf8(r.contentType))
      + (HeaderLine(CONTENT_LENGTH, Decimal(|r.body|)) + (CRLF + r.body));
    WireLines(r);
    assert StatusLine(r) == start + line;
    assert Wire(r) == start + (line + tail) by {
      ConcatAssoc(start, line, tail);
    }
    PrefixOfConcat(start, line + tail);
  }

  lemma ConcatAssoc<T>(a: seq<T>, b: seq<T>, c: seq<T>)
    ensures (a + b) + c == a + (b + c)
  {
  }

  lemma PrefixOfConcat<T>(a: seq<T>, b: seq<T>)
    ensures a <= a + b
  {
  }

  /**
   * The error table is total and keeps the caller's code: a code it does
   * not list (418, say) is sent with its own number and the 500 wording,
   * `HTTP/1.1 418 Internal Server Error`.
   */
  lemma UnlistedCodeKeepsItsNumber(status: u16)
    requires status != 404 && status != 403
    ensures STATUS_LINE_START + Decimal(status) + [SP] <= Wire(ErrorResponse(status))
    ensures ErrorResponse(status).statusText == "Internal Server Error"
  {
    WireStartsWithCode(ErrorResponse(status));
  }
}
