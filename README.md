# simple-web-server: the request pipeline, modelled in Dafny

This project models the request pipeline of a minimal static-file HTTP
server written in Rust. There is no socket and no real filesystem in the
model. It has three parts:

- **The path resolver** (`get_file_path`, src/utils.rs).
  - A request path containing `..`, `//` or `\` is refused with
    PermissionDenied before anything else happens.
  - Leading `/` are trimmed. An empty remainder names the root's
    `index.html`.
  - Otherwise the remainder is pushed onto the canonical root and the
    result is canonicalized. Its canonical form must have the canonical
    root as a component prefix.
  - A file larger than 10 MiB is refused with kind Other.
  - Paths are sequences of components. The filesystem is a `FileSystem`
    value with four parts:
    - the outcome of canonicalizing the root;
    - a map giving each path's canonical form;
    - a map of file sizes;
    - a map of file contents.
    A path that is not in a map is one for which that call fails.
- **The response builder** (src/http.rs).
  - `HttpResponse` is a datatype; `HttpResponse::new` is its constructor.
  - `to_bytes` is the method `Http.ToBytes`. It is specified by the
    function `Http.Wire`.
  - `send_error_response` maps a status code to a reason text and a canned
    body.
  - Against the serialiser stands a reader, `Http.ParseResponse`. It
    parses the status line and the two headers, then takes exactly
    Content-Length bytes of body (section 3.3.2 of RFC 7230). The main
    framing result is that reading back what `to_bytes` writes recovers
    every field and the body unchanged.
- **The connection handler** (`handle_connection`, src/server.rs). It is
  modelled twice:
  - as the function `Server.Handle`, from the outcome of the read and the
    filesystem to the bytes written;
  - as the method `Server.HandleConnection`, which does what the source
    does step by step:
    - it fills a fixed 8192-byte `array` buffer;
    - it decodes the bytes read;
    - it takes the request line from a `LineIterator` object;
    - it runs the `while let` header loop over that iterator, inserting
      into a header map.

    The method is proved to compute `Handle`.

The Rust standard-library string operations the handler uses are modelled
as functions with contracts that characterise them: `from_utf8_lossy`,
`lines`, `split_whitespace`, `split_once`, `trim` and `to_lowercase`.

The modules are `Bytes` (shared helpers), `Paths` (src/utils.rs), `Http`
(src/http.rs), `Request` (the parsing half of src/server.rs) and `Server`
(the dispatch and the handler).

### Behaviour of the code that the model keeps

- **The pre-filter's error kind.** A path the pre-filter refuses gets
  PermissionDenied, the same kind a path that escapes the root gets. Such a
  request is therefore answered with 403 (`Server.TraversalNeverServed`).
- **A read of zero bytes.** This is not an error. The handler parses the
  empty text, so the request path defaults to `/` and the root's
  `index.html` is served when it can be read (`Server.EmptyReadServesIndex`).
- **Directories.** The resolver does not turn a directory into its
  `index.html`. A directory's contents cannot be read, so a request for one
  is answered with 404 (`Server.UnreadableIsNotFound`).
- **Leading slashes.** The resolver strips every leading `/`, not just one.
  After the pre-filter a path cannot start with two, so this is the same
  thing (`Paths.TrimAllIsStripOne`).
- **The empty path.** The resolver returns `<root>/index.html` for it with
  no existence, containment or size check (`Paths.EmptyPathIsIndex`).

## Model

| member | source | states |
|---|---|---|
| Bytes.SplitOnce | src/server.rs:38 | None exactly when the separator is absent; otherwise the text is the part before, the separator and the part after, and the part before holds no separator (the split is at the first one) |
| Bytes.SplitOnceAtFirst | src/server.rs:38 | splitting `a + [sep] + b` where `a` has no `sep` gives back `a` and `b` |
| Bytes.EncodeChar | src/http.rs:38 | one character's UTF-8 encoding is 1 to 4 bytes; exactly ASCII characters take one byte, equal to the code point, and every byte of a longer encoding is at least 0x80 |
| Bytes.Utf8 | src/http.rs:38 | the bytes of a `String` are at least as many as its characters |
| Bytes.Utf8OfAscii | src/http.rs:58 | UTF-8 leaves ASCII text byte for byte as it is |
| Bytes.Utf8Avoids | src/http.rs:38 | an ASCII character missing from a string is missing from its bytes (so a reason text without CR puts no CR on the wire) |
| Bytes.Decimal | src/http.rs:32-35 | `{}` renders a number as a non-empty run of decimal digits without a leading zero |
| Bytes.DecimalRoundTrip | src/http.rs:30-35 | reading the rendered digits back gives the number rendered |
| Bytes.DecimalInjective | src/http.rs:30-35 | distinct numbers have distinct renderings |
| Paths.TrimStartSlashes | src/utils.rs:28 | the result is a suffix of the input, everything removed is `/`, and the result does not start with `/` |
| Paths.Components | src/utils.rs:38 | a pushed relative path adds only components that are non-empty, not `.`, and free of `/` |
| Paths.Resolve | src/utils.rs:9-66 | a success never comes from a path the pre-filter flags or from a failed root; for a non-empty path, a success canonicalizes to a path with the canonical root as component prefix and is within the size cap |
| Paths.PreFilterRejects | src/utils.rs:11-22 | a path with `..`, `//` or `\` gets PermissionDenied on every filesystem, so no file and no root is consulted |
| Paths.EmptyPathIsIndex | src/utils.rs:28-34 | a path empty after trimming leading `/` resolves to canonical root + `index.html` with no existence or size check |
| Paths.RootRequestsAreIndex | src/utils.rs:31-33 | `/` and the empty path both resolve to the root's `index.html` |
| Paths.UncanonicalizableIsNotFound | src/utils.rs:63-64 | a target that cannot be canonicalized gives NotFound |
| Paths.EscapeIsDenied | src/utils.rs:43-50 | a target whose canonical form is not under the canonical root gives PermissionDenied |
| Paths.SiblingIsNotInside | src/utils.rs:43-50 | with root `<p>/www`, a file that canonicalizes into `<p>/www-evil` is refused, although the root's text is a prefix of its text |
| Paths.SingleComponentTarget | src/utils.rs:37-38 | `/<name>` with a one-component name targets root + `[name]` |
| Paths.ComponentsOfName | src/utils.rs:38 | a name with no separator is one component |
| Paths.NoComponents | src/utils.rs:38 | the empty text and `.` add no component |
| Paths.ComponentsOfJoin | src/utils.rs:38 | the components of `a/b` are those of `a` followed by those of `b`; with the two lemmas above this fixes the components of every text as its non-empty, non-`.` segments in order |
| Paths.SizeCap | src/utils.rs:53-58 | past containment, a file larger than 10·1024·1024 bytes gives Other, anything else (exactly 10 MiB, or unreadable metadata) succeeds |
| Paths.ResolveOkIff | src/utils.rs:37-61 | for a non-empty path, success with `p` holds iff the pre-filter passes, the root canonicalizes, `p` is root + the path's components (not the canonical form), `p` canonicalizes under the root, and `p` is within the cap |
| Paths.ResolveDependsOnlyOnTarget | src/utils.rs:9-66 | the result depends only on the request path, the root, and what the filesystem says of the one target: the resolver is deterministic |
| Paths.ParentComponentNeedsDots | src/utils.rs:38 | a `..` component of a relative path requires the text `..` in it |
| Paths.NoParentComponent | src/utils.rs:11-15 | after the pre-filter the pushed path has no `..` component |
| Paths.TrimAllIsStripOne | src/utils.rs:28 | after the pre-filter, trimming all leading `/` is stripping at most one |
| Http.ToBytes | src/http.rs:26-41 | the output is the formatted head followed by the body; its length is head length plus body length, and the body is its suffix unchanged |
| Http.ErrorResponse | src/http.rs:48-59 | the error response keeps the caller's code, has type `text/plain`, a reason from the three texts, and the table's message as body bytes |
| Http.ErrorTable | src/http.rs:48-52 | 404 gives `Not Found` with body `Not Found`, 403 gives `Forbidden` with body `Access denied`, any other code gives `Internal Server Error` with body `Server Error`, all `text/plain` with the caller's code |
| Http.SendErrorResponse | src/http.rs:44-62 | writes exactly the serialised error response for the code |
| Http.HeaderLineRoundTrip | src/http.rs:29-30 | a header line without CR in its value reads back as that value and the remaining bytes |
| Http.StatusLineRoundTrip | src/http.rs:28 | the status line reads back as the code and the reason's bytes |
| Http.WireRoundTrip | src/http.rs:26-41 | reading the serialised response back gives the code, reason, type, a Content-Length equal to the body's byte count, and the body unchanged |
| Http.NumberOfDecimal | src/http.rs:30-35 | the rendered Content-Length parses back to the body length |
| Http.ErrorResponseOnWire | src/http.rs:54-60 | an error response reads back with the caller's code, its reason, `text/plain` and exactly the canned message as body |
| Http.TextsHaveNoCR | src/http.rs:48-57 | none of the fixed reason and type texts holds a carriage return |
| Http.WireStartsWithCode | src/http.rs:28 | every response starts with `HTTP/1.1 `, the code's digits and a space |
| Http.UnlistedCodeKeepsItsNumber | src/http.rs:48-56 | a code other than 404 and 403 (418, say) is sent with its own number and the reason `Internal Server Error` |
| Request.CodePoint | src/server.rs:20 | a well-formed multi-byte sequence encodes a Unicode scalar value of at least 0x80 |
| Request.Decode | src/server.rs:20 | the text has no more characters than there were bytes, and is empty exactly when no bytes were read |
| Request.DecodeStepOfChar | src/server.rs:20 | a character's UTF-8 bytes decode to that character and take exactly its encoding's length, whatever follows |
| Request.DecodeUtf8 | src/server.rs:20 | decoding the UTF-8 bytes of any text gives the text back |
| Request.DecodeAscii | src/server.rs:20 | ASCII text sent as bytes decodes back to itself |
| Request.StrayByteReplaced | src/server.rs:20 | a byte that starts no sequence becomes one U+FFFD and decoding goes on at the next byte |
| Request.BrokenLeadReplaced | src/server.rs:20 | a lead byte not followed by a byte that can continue it becomes one U+FFFD on its own |
| Request.CutSequenceReplaced | src/server.rs:20 | a lead byte and a valid second byte of a sequence cut short there become a single U+FFFD together |
| Request.LeadingWhitespace | src/server.rs:39 | counts a whitespace prefix that is followed by a non-whitespace character or the end |
| Request.TrailingWhitespace | src/server.rs:39 | counts a whitespace suffix preceded by a non-whitespace character or the start |
| Request.Trim | src/server.rs:39 | the result has no whitespace at either end, is no longer than the input, and is empty exactly when the input is all whitespace |
| Request.TrimOf | src/server.rs:39 | trimming whitespace + trimmed text + whitespace gives back exactly that text |
| Request.ToLower | src/server.rs:39 | same length, each capital becomes its small letter, no capital is left, every other character is kept, whitespace where it was |
| Request.ToLowerIgnoresCase | src/server.rs:39 | keys that differ only in the case of ASCII letters (`Host`, `HOST`) lower-case to the same key |
| Request.NextLine | src/server.rs:21 | one `lines()` step: None only on the end of the text; otherwise the line holds no `\n`, and the text is the line followed by `\n`, by `\r\n`, or nothing; a line before a bare `\n` does not end in `\r` |
| Request.Lines | src/server.rs:21 | no line holds `\n`, and there are no more lines than characters |
| Request.CrlfLine | src/server.rs:21 | a line ended by CR LF is yielded without the CR, so a CRLF blank line is empty |
| Request.LineIterator.constructor | src/server.rs:21 | the iterator starts at the whole text |
| Request.LineIterator.Next | src/server.rs:34 | yields the first remaining line and drops it, or yields None and changes nothing when no line is left |
| Request.HeaderEntryShape | src/server.rs:38-39 | a line contributes an entry exactly when it holds `:`; the key is the text before the first `:`, trimmed and lower-cased, and the value is the rest, trimmed |
| Request.ParseHeaders | src/server.rs:33-41 | the loop leaves the header map the specification `InsertAll` gives for the iterator's remaining lines, and leaves the iterator just after the first empty line (exhausted when there is none) |
| Request.HeadersStopAtBlank | src/server.rs:34-37 | only the lines before the first empty one matter; later lines are never inspected |
| Request.ColonlessLineSkipped | src/server.rs:38-40 | a line without `:` before the blank line leaves the headers as if it were absent |
| Request.InsertAllStep | src/server.rs:34-40 | one loop iteration for a non-empty line inserts that line and continues with the rest |
| Request.InsertAllAppend | src/server.rs:34-41 | running the loop over `a + b`, `a` without empty lines, is running it over `a` and then over `b` |
| Request.HeaderLastWins | src/server.rs:39 | a key set by a line keeps that line's value when no later line sets it: the last duplicate wins |
| Request.LastSetterWins | src/server.rs:39 | after the line that sets a key, lines that do not set it keep its value |
| Request.HeaderUntouched | src/server.rs:38-40 | a key no line sets is present afterwards iff it was before, with the same value |
| Request.WordLength | src/server.rs:25 | counts a prefix without whitespace that is followed by whitespace or the end |
| Request.NextToken | src/server.rs:25 | one `split_whitespace` step: None iff only whitespace is left; otherwise a maximal non-whitespace token after leading whitespace, and the rest |
| Request.NextTokenOf | src/server.rs:25 | whitespace, a word and then whitespace or the end: the word is the next token |
| Request.RequestPath | src/server.rs:24-27 | the request path is always a non-empty token without whitespace |
| Request.RequestPathIsSecondToken | src/server.rs:25-27 | in `<method> <path> ...` the path is the second token |
| Request.Utf8RequestLinePath | src/server.rs:20-27 | sent as UTF-8, a request line whose tokens are separated by any Unicode whitespace (U+3000, say) asks for its second token |
| Request.ShortRequestLineIsRoot | src/server.rs:27 | a line with at most one token asks for `/` |
| Server.StatusFor | src/server.rs:55-59 | 404 iff NotFound, 403 iff PermissionDenied, 500 iff any other kind |
| Server.ReadInto | src/server.rs:16-18 | reads as much as fits: the buffer's first `bytes_read` bytes are the client's, the rest unchanged, and `bytes_read` is the smaller of the two lengths |
| Server.HandleConnection | src/server.rs:9-66 | the buffer, the line iterator and the header loop produce exactly the handler function's output, and the header map the header specification gives |
| Server.Respond | src/server.rs:44-62 | writes the serialised response that dispatch chooses for the path |
| Server.ServedIff | src/server.rs:44-53 | status 200 iff the path resolves and the file reads, and then the response is `200 OK text/html` with the file's bytes |
| Server.ServedFileOnWire | src/server.rs:46-49 | a served file reads back as status 200 with Content-Length the file size and exactly the file's bytes as body |
| Server.OkResponseFramed | src/server.rs:48-49 | the 200 response for any file frames it correctly |
| Server.UnreadableIsNotFound | src/server.rs:51 | a path that resolves but cannot be read is answered with the 404 error response |
| Server.ResolverErrorStatus | src/server.rs:54-60 | a resolver error is answered with 404, 403 or 500 by kind, never 200 |
| Server.TraversalNeverServed | src/server.rs:44 | a path with `..`, `//` or `\` is answered with 403 on every filesystem |
| Server.ServedFilesAreConfined | src/server.rs:44-49 | whatever is served for a non-empty path is root + the path, canonicalizes under the root, is within the cap, and its bytes are the body |
| Server.OnlyFirstBufferParsed | src/server.rs:16-20 | the response depends only on the first 8192 bytes sent |
| Server.ReadFailureAborts | src/server.rs:18 | a failed read ends the handler without a response |
| Server.EmptyReadServesIndex | src/server.rs:24-27 | a read of zero bytes is answered as a request for `/` |
| Server.EmptyRequestIsRoot | src/server.rs:24-27 | the empty request's path is `/` |
| Server.RequestLineSelectsPath | src/server.rs:20-27 | a request whose first line is `<method> <path> <version>` ended by CR LF is answered for `<path>` |
| Server.FirstLineOfRequest | src/server.rs:21-24 | that request line is the first line `lines()` yields |
| Server.SecondTokenIsPath | src/server.rs:25-27 | the path is the second token of `<method> <path> <version>` |
| Server.PasswdTraversalForbidden | src/server.rs:44 | `/../../etc/passwd` is answered with 403 `Forbidden` whatever the filesystem holds |
| Server.MissingFileNotFound | src/server.rs:56 | a file that does not exist is answered with 404 and the body `Not Found` |
| Server.IndexServed | src/server.rs:44-49 | with index.html holding `hi`, `/` is answered with 200, Content-Length 2 and body `hi` |

## Left out

- Socket I/O is out. The model takes the read's outcome as a parameter and returns the bytes written. The out-of-scope parts are:
  - the read and write timeouts (src/server.rs:13-14; `CONNECTION_TIMEOUT` in src/utils.rs);
  - write and flush failures;
  - a `read` that returns fewer bytes than are available. A read takes `min(sent, 8192)` bytes.
- Real filesystem calls are out. `fs::canonicalize`, `fs::metadata` and `fs::read` are maps in the `FileSystem` value. Symlink resolution is out, and so are the operating system's rules for which paths canonicalize.
- Time-of-check to time-of-use effects between the resolve and the read are out: the filesystem is one value for the whole request.
- Paths.Components: a trailing `/` or `/.` after a file name is not distinguished. Paths are component sequences, so `/index.html/` is answered as `/index.html` is (200). The program pushes the text `index.html/`, and canonicalizing that fails for a regular file, so the program answers 404.
- Request.ToLower: only the ASCII capitals are lowered. Unicode case mapping, which can change a string's length, is out.
- Request.NextLine: follows the current `str::lines` rule. A last line with no `\n` keeps a trailing `\r`.
- `println!` of the path and the thread id (src/server.rs:29-30) is out, as is all logging.
- src/main.rs is out: binding, the accept loop, one task per connection, and creating the root directory. Concurrency and the std/tokio `TcpStream` mismatch are plumbing.
- The header map is computed and returned by `Server.HandleConnection`. As in the source, nothing uses it.
- Bytes.Utf8: its contract states only the length bound. The other facts the model needs about UTF-8 are separate lemmas (`Bytes.Utf8OfAscii`, `Bytes.Utf8Avoids`).
