/**
 * `handle_connection` of src/server.rs with the socket and the filesystem
 * taken out: the bytes the client sent (or a failed read) go in, and the
 * response bytes the handler writes (or an aborted connection) come out.
 *
 * `Handle` is the handler as a function; `HandleConnection` is the handler
 * as the source runs it, with its fixed-size buffer, its line iterator and
 * its header loop, and is proved to compute `Handle`.
 */
module Server {
  import opened Bytes
  import opened Paths
  import opened Http
  import opened Request

  /** What `read` on the client stream gives: some bytes, or an error (timeouts included). */
  datatype ReadResult = Received(data: seq<byte>) | ReadFailed

  /** What the handler does with the connection: write these bytes, or give up with an error. */
  datatype Outcome = Responded(written: seq<byte>) | Aborted

  /** The status code for a resolver error kind. */
  function StatusFor(kind: ErrorKind): (status: u16)
    ensures status == 404 <==> kind == NotFound
    ensures status == 403 <==> kind == PermissionDenied
    ensures status == 500 <==> kind == Other
  {
    match kind
    case NotFound => 404
    case PermissionDenied => 403
    case Other => 500
  }

  /**
   * The response for a request path: the file's bytes as `text/html` with
   * status 200 when the path resolves and the file can be read; 404 when it
   * resolves but cannot be read; otherwise the error response for the
   * resolver's error kind.
   */
  function Dispatch(fs: FileSystem, requestPath: string): HttpResponse {
    match Resolve(fs, requestPath)
    case Ok(path) =>
      if path in fs.contents then HttpResponse(200, "OK", "text/html", fs.contents[path])
      else ErrorResponse(404)
    case Err(kind) => ErrorResponse(StatusFor(kind))
  }

  /** How many bytes one `read` into the request buffer takes from what the client sent. */
  function BytesRead(data: seq<byte>): nat {
    if |data| < MAX_REQUEST_SIZE then |data| else MAX_REQUEST_SIZE
  }

  /** The text of the request: the bytes read, decoded. */
  function RequestText(data: seq<byte>): string {
    Decode(data[..BytesRead(data)])
  }

  /** The first line of the request text, or the empty line when there is none. */
  function RequestLine(text: string): string {
    match NextLine(text)
    case None => ""
    case Some((line, _)) => line
  }

  /** The header map the handler builds from the lines after the request line. */
  function RequestHeaders(text: string): map<string, string> {
    var ls := Lines(text);
    if ls == [] then map[] else InsertAll(map[], ls[1..])
  }

  /** The handler as a function of the filesystem and the outcome of the read. */
  function Handle(fs: FileSystem, read: ReadResult): Outcome {
    match read
    case ReadFailed => Aborted
    case Received(data) =>
      Responded(Wire(Dispatch(fs, RequestPath(RequestLine(RequestText(data))))))
  }

  /**
   * `client_stream.read(&mut request_buffer)`: copies as much of what the
   * client sent as fits in the buffer and returns how much that was.
   */
  method ReadInto(buffer: array<byte>, data: seq<byte>) returns (bytesRead: nat)
    modifies buffer
    ensures bytesRead <= buffer.Length && bytesRead <= |data|
    ensures bytesRead == |data| || bytesRead == buffer.Length
    ensures buffer[..bytesRead] == data[..bytesRead]
    ensures buffer[bytesRead..] == old(buffer[bytesRead..])
  {
    bytesRead := if |data| < buffer.Length then |data| else buffer.Length;
    forall i | 0 <= i < bytesRead {
      buffer[i] := data[i];
    }
  }

  /**
   * `handle_connection`: read once into an 8192-byte buffer, decode, take
   * the request path from the first line, collect the headers, resolve the
   * path and write either the file or an error response. The header map is
   * returned so that what the loop builds can be stated; the response does
   * not depend on it.
   */
  method HandleConnection(fs: FileSystem, read: ReadResult)
    returns (outcome: Outcome, headers: map<string, string>)
    ensures outcome == Handle(fs, read)
    ensures read.Received? ==> headers == RequestHeaders(RequestText(read.data))
  {
    headers := map[];
    var requestBuffer := new byte[MAX_REQUEST_SIZE](_ => 0);
    if read.ReadFailed? {
      return Aborted, headers;
    }
    var bytesRead := ReadInto(requestBuffer, read.data);
    assert requestBuffer[..bytesRead] == read.data[..BytesRead(read.data)];
    var httpRequest := Decode(requestBuffer[..bytesRead]);
    assert httpRequest == RequestText(read.data);
    var lines := new LineIterator(httpRequest);

    var first := lines.Next();
    var requestLine := if first.Some? then first.value else "";
    assert requestLine == RequestLine(httpRequest) && lines.Remaining() ==
      if Lines(httpRequest) == [] then [] else Lines(httpRequest)[1..];
    var requestPath := RequestPath(requestLine);

    headers := ParseHeaders(lines);

    var written := Respond(fs, requestPath);
    outcome := Responded(written);
  }

  /** The dispatch part of `handle_connection`: the bytes written for a request path. */
  method Respond(fs: FileSystem, requestPath: string) returns (written: seq<byte>)
    ensures written == Wire(Dispatch(fs, requestPath))
  {
    match Resolve(fs, requestPath)
    case Ok(filePath) =>
      if filePath in fs.contents {
        var response := HttpResponse(200, "OK", "text/html", fs.contents[filePath]);
        written := ToBytes(response);
      } else {
        written := SendErrorResponse(404);
      }
    case Err(e) =>
      var status := StatusFor(e);
      written := SendErrorResponse(status);
  }

  // ---------------------------------------------------------------------------
  // Properties of the handler

  /** A 200 is sent exactly when the path resolves and the file is read; its body is the file. */
  lemma ServedIff(fs: FileSystem, requestPath: string)
    ensures Dispatch(fs, requestPath).statusCode == 200 <==>
      Resolve(fs, requestPath).Ok? && Resolve(fs, requestPath).value in fs.contents
    ensures Dispatch(fs, requestPath).statusCode == 200 ==>
      Dispatch(fs, requestPath) ==
        HttpResponse(200, "OK", "text/html", fs.contents[Resolve(fs, requestPath).value])
  {
  }

  /**
   * A served file reaches the client framed correctly: reading the
   * response back gives status 200, a Content-Length equal to the file's
   * size and exactly the file's bytes as the body.
   */
  lemma ServedFileOnWire(fs: FileSystem, requestPath: string, path: Path)
    requires Resolve(fs, requestPath) == Ok(path) && path in fs.contents
    ensures var file, reply := fs.contents[path], ParseResponse(Wire(Dispatch(fs, requestPath)));
      && reply.Some? && reply.value.statusCode == 200
      && reply.value.contentLength == |file| && reply.value.body == file
  {
    var file := fs.contents[path];
    assert Dispatch(fs, requestPath) == HttpResponse(200, "OK", "text/html", file);
    OkResponseFramed(file);
  }

  /** The 200 response for a file, read back from the wire. */
  lemma OkResponseFramed(file: seq<byte>)
    ensures var reply := ParseResponse(Wire(HttpResponse(200, "OK", "text/html", file)));
      && reply.Some? && reply.value.statusCode == 200
      && reply.value.contentLength == |file| && reply.value.body == file
  {
    TextsHaveNoCR();
    WireRoundTrip(HttpResponse(200, "OK", "text/html", file));
  }

  /** A path that resolves but whose file cannot be read is answered with 404. */
  lemma UnreadableIsNotFound(fs: FileSystem, requestPath: string, path: Path)
    requires Resolve(fs, requestPath) == Ok(path) && path !in fs.contents
    ensures Dispatch(fs, requestPath) == ErrorResponse(404)
  {
  }

  /** A resolver error is answered with the error response for its kind. */
  lemma ResolverErrorStatus(fs: FileSystem, requestPath: string)
    requires Resolve(fs, requestPath).Err?
    ensures Dispatch(fs, requestPath).statusCode ==
      match Resolve(fs, requestPath).kind
      case NotFound => 404
      case PermissionDenied => 403
      case Other => 500
    ensures Dispatch(fs, requestPath).statusCode != 200
  {
  }

  /**
   * A request path holding `..`, `//` or a backslash is answered with 403
   * whatever the filesystem holds: it is never served.
   */
  lemma TraversalNeverServed(fs: FileSystem, requestPath: string)
    requires Suspicious(requestPath)
    ensures Dispatch(fs, requestPath) == ErrorResponse(403)
  {
  }

  /**
   * Whatever is served for a non-empty path lies inside the root: its
   * canonical form has the canonical root's components as a prefix and it
   * is within the size cap.
   */
  lemma ServedFilesAreConfined(fs: FileSystem, requestPath: string)
    requires Dispatch(fs, requestPath).statusCode == 200
    requires TrimStartSlashes(requestPath) != ""
    ensures fs.root.Ok?
    ensures var path := Target(fs.root.value, requestPath);
      && path in fs.canonical && fs.root.value <= fs.canonical[path]
      && (path in fs.size ==> fs.size[path] <= MAX_FILE_SIZE)
      && path in fs.contents && Dispatch(fs, requestPath).body == fs.contents[path]
  {
    var path := Resolve(fs, requestPath).value;
    ResolveOkIff(fs, requestPath, path);
  }

  /** The handler's output depends only on the first 8192 bytes the client sends. */
  lemma OnlyFirstBufferParsed(fs: FileSystem, data: seq<byte>, more: seq<byte>)
    requires |data| >= MAX_REQUEST_SIZE
    ensures Handle(fs, Received(data + more)) == Handle(fs, Received(data))
  {
    assert (data + more)[..MAX_REQUEST_SIZE] == data[..MAX_REQUEST_SIZE];
  }

  /** A failed read ends the connection without a response. */
  lemma ReadFailureAborts(fs: FileSystem)
    ensures Handle(fs, ReadFailed) == Aborted
  {
  }

  /**
   * A read of zero bytes is handled as a request for `/`: the request line
   * is empty, so the path defaults to `/` and the root's index.html is
   * served when it can be read.
   */
  lemma EmptyReadServesIndex(fs: FileSystem)
    ensures Handle(fs, Received([])) == Responded(Wire(Dispatch(fs, "/")))
  {
    EmptyRequestIsRoot();
  }

  /** The empty request has an empty request line, whose path defaults to `/`. */
  lemma EmptyRequestIsRoot()
    ensures RequestPath(RequestLine(RequestText([]))) == "/"
  {
    assert RequestText([]) == "";
    assert AllWhitespace("");
  }

  /**
   * A request whose text starts with the line `<method> <path> <version>`
   * ended by CR LF is answered for `<path>`.
   */
  lemma RequestLineSelectsPath(
    fs: FileSystem, data: seq<byte>, method_: string, path: string, version: string, rest: string)
    requires |data| <= MAX_REQUEST_SIZE
    requires IsWord(method_) && IsWord(path) && IsWord(version)
    requires Decode(data) == method_ + " " + path + " " + version + "\r\n" + rest
    ensures Handle(fs, Received(data)) == Responded(Wire(Dispatch(fs, path)))
  {
    var line := method_ + " " + path + " " + version;
    assert RequestText(data) == line + "\r\n" + rest by {
      assert data[..BytesRead(data)] == data;
    }
    FirstLineOfRequest(method_, path, version, rest);
    SecondTokenIsPath(method_, path, version);
  }

  /** The request line `<method> <path> <version>` ended by CR LF is the first line. */
  lemma FirstLineOfRequest(method_: string, path: string, version: string, rest: string)
    requires IsWord(method_) && IsWord(path) && IsWord(version)
    ensures var line := method_ + " " + path + " " + version;
      RequestLine(line + "\r\n" + rest) == line
  {
    var line := method_ + " " + path + " " + version;
    assert '\n' !in line by {
      assert forall i :: 0 <= i < |line| ==> line[i] == ' ' || !IsWhitespace(line[i]);
    }
    CrlfLine(line, rest);
  }

  /** In `<method> <path> <version>`, the path is the second token. */
  lemma SecondTokenIsPath(method_: string, path: string, version: string)
    requires IsWord(method_) && IsWord(path) && IsWord(version)
    ensures RequestPath(method_ + " " + path + " " + version) == path
  {
    assert method_ + " " + path + " " + version == "" + method_ + " " + path + (" " + version);
    RequestPathIsSecondToken("", method_, " ", path, " " + version);
  }

  /**
   * The traversal attempt `GET /../../etc/passwd` is answered with 403
   * Forbidden, whatever the filesystem holds.
   */
  lemma PasswdTraversalForbidden(fs: FileSystem)
    ensures Dispatch(fs, "/../../etc/passwd") == ErrorResponse(403)
    ensures ErrorResponse(403).statusText == "Forbidden"
  {
    var p := "/../../etc/passwd";
    assert p[1] == '.' && p[2] == '.';
    assert HasPair(p, '.', '.');
    TraversalNeverServed(fs, p);
  }

  /**
   * A file that does not exist (`/missing.txt`, say) is answered with 404
   * and the body `Not Found`.
   */
  lemma MissingFileNotFound(fs: FileSystem, requestPath: string)
    requires fs.root.Ok? && !Suspicious(requestPath)
    requires TrimStartSlashes(requestPath) != ""
    requires Target(fs.root.value, requestPath) !in fs.canonical
    ensures Dispatch(fs, requestPath) == ErrorResponse(404)
    ensures ErrorReply(404) == ("Not Found", "Not Found")
  {
    UncanonicalizableIsNotFound(fs, requestPath);
  }

  /**
   * With the root's index.html holding `hi` (the bytes 0x68 0x69), `/` is
   * answered with 200 and a body of length 2 holding exactly those bytes.
   */
  lemma IndexServed(fs: FileSystem)
    requires fs.root.Ok?
    requires fs.root.value + [INDEX_FILE] in fs.contents
    requires fs.contents[fs.root.value + [INDEX_FILE]] == [0x68, 0x69]
    ensures var reply := ParseResponse(Wire(Dispatch(fs, "/")));
      && reply.Some? && reply.value.statusCode == 200
      && reply.value.contentLength == 2 && reply.value.body == [0x68, 0x69]
  {
    RootRequestsAreIndex(fs);
    ServedFileOnWire(fs, "/", fs.root.value + [INDEX_FILE]);
  }
}
