# rust_webserver: a verified model of the request-to-response core

The repository is a single-threaded HTTP file server in one Rust file
(`src/main.rs`). For each accepted connection, `handle_connection` does the following:

1. It collects the request head: the lines up to the first empty one (`read_request`).
2. It takes the second whitespace-separated token of the first line as the path, or `/` (`parse_request`).
3. It maps `/` to `./srv/index.html` and any other path `p` to `./srv` + `p`, with no clean-up of `..`.
4. It reads that file. A failed read turns into the body `<p>Error: …</p>` (`read_file_bytes`, `read_file_error`).
5. It picks a content type from the text after the last `.` (`filename_to_content_type`).
6. It writes `HTTP/1.1 200 OK`, `Content-Type` and `Content-Length` as the head. If that write succeeds, it writes the body.

This project models steps 1 to 6 in Dafny and proves what they promise.

- `bytes.dfy` (`Bytes`): the byte type, the ASCII encoding of the head, and the decimal text of `Content-Length`, with its round trip.
- `request.dfy` (`Request`): request-head collection, `split_whitespace`, and `parse_request`.
- `routing.dfy` (`Routing`): the path-mapping `match`.
- `mime.dfy` (`MimeTypes`): `split('.')`, `.last()`, and the extension table.
- `response.dfy` (`Response`): the error body and the head text. It also has a parser that reads a head back. There is a `Connection` class whose `sent` bytes the writes extend, and the `HandleConnection` method.

In `Response`, `Respond` gives the reply for a collected request. `Wire` gives the bytes that reach the peer for given write outcomes. `Transcript` combines the two. `HandleConnection` is proved to append exactly `Transcript` to the connection's sent bytes. The lemmas beside them state the properties: status 200 always, `Content-Length` equal to the body's length, the error body on a failed read, and no body after a failed head write.

Inputs the model takes as parameters:

- The file system is a function `fileSystem: string -> FileRead`. It gives the file's bytes, or the bytes of the OS error text.
- Each `write_all` gets a `WriteOutcome`. `Complete` means the socket takes every byte. `FailsAfter(k)` means the socket fails once it has taken `k` bytes. A write of at most `k` bytes therefore still succeeds, as a `write_all` of empty data does.
- The peer's lines are the `incoming` field of `Connection`.

The content-type table has eight arms (seven extensions and the default), but only seven distinct strings, because `jpg` and `jpeg` share `image/jpeg`. `ContentTypes` is derived from the table: its values plus `text/plain`.

## Model

| member | source | states |
|---|---|---|
| `Request.ReadRequest` | src/main.rs:70-77 | the collected head is a prefix of the incoming lines, holds no empty line, and is either all of them or stops right before an empty line |
| `Request.ReadRequestIsLongestPrefix` | src/main.rs:72-76 | any prefix with those three properties is the collected head, so it is the longest prefix without an empty line |
| `Request.BlankFirstLine` | src/main.rs:75 | a request whose first line is empty collects nothing, whatever follows |
| `Request.Tokens` | src/main.rs:81-82 | `split_whitespace` yields only non-empty tokens without whitespace |
| `Request.TokensAfterBlank` | src/main.rs:81-82 | leading whitespace does not change the tokens |
| `Request.TokensOfLine` | src/main.rs:81-82 | for any tokens, with any leading and trailing whitespace and any non-empty whitespace runs between them, `split_whitespace` gives back exactly those tokens |
| `Request.TokensOfBlank` | src/main.rs:81-82 | a line of whitespace only has no tokens |
| `Request.ParseRequest` | src/main.rs:79-87 | the path is always a non-empty token without whitespace |
| `Request.RequestLinePath` | src/main.rs:80-85 | for a first line `<verb> <path> <version>` the path is `<path>`, whatever header lines follow |
| `Request.RequestLineSecondToken` | src/main.rs:81-85 | for any first line of two or more tokens, with any whitespace around and between them, the path is the second token |
| `Request.RequestPathDefaults` | src/main.rs:80-84 | the path is `/` for an empty request and for a first line of whitespace only |
| `Request.SingleTokenLineDefaults` | src/main.rs:81-84 | the path is `/` for a first line of one token with any whitespace around it |
| `Routing.ResolvePath` | src/main.rs:40-44 | the file always starts with `./srv`; `/` gives `./srv/index.html`; every other path, `/api…` included, gives `./srv` + path unchanged |
| `Routing.ResolvePathInverse` | src/main.rs:42-43 | removing `./srv` from the file gives back every path other than `/` |
| `Routing.ResolvePathCollisions` | src/main.rs:40-44 | two paths reach the same file if and only if they are equal or are `/` and `/index.html` |
| `Routing.ParentSegmentKept` | src/main.rs:43 | a path starting `/..` resolves to `./srv/..` + the rest, so it is not sanitised |
| `MimeTypes.Split` | src/main.rs:100 | `split` yields at least one piece and no piece holds the separator |
| `MimeTypes.JoinSplit` | src/main.rs:100 | joining the pieces with the separator gives the original string |
| `MimeTypes.SplitJoin` | src/main.rs:100 | splitting pieces free of the separator, once joined, gives the same pieces |
| `MimeTypes.ExtensionIsLastSegment` | src/main.rs:100 | `.last()` of the pieces holds no `.`; it is the whole name when there is no `.`, and otherwise the name is stem + `.` + it |
| `MimeTypes.ExtensionOf` | src/main.rs:100 | the last piece of `stem.ext` is `ext` for any stem, when `ext` holds no `.` |
| `MimeTypes.ContentTypeFor` | src/main.rs:100-109 | the matched type is one of the table's types; it is the table's entry for a listed extension and `text/plain` for any other |
| `MimeTypes.ContentType` | src/main.rs:99-110 | `filename_to_content_type` always returns one of the table's types |
| `MimeTypes.ContentTypeOfExtension` | src/main.rs:100-109 | the type of `stem.ext` depends on `ext` alone; an unlisted `ext` gives `text/plain` |
| `MimeTypes.ContentTypeWithoutDot` | src/main.rs:100-108 | a name with no `.` that is not itself a listed extension is looked up whole and gets `text/plain` |
| `MimeTypes.ContentTypeIsCaseSensitive` | src/main.rs:101-108 | `.png` gives `image/png` but `.PNG` gives `text/plain`; `.jpg` and `.jpeg` both give `image/jpeg` |
| `MimeTypes.ContentTypesAreHeaderSafe` | src/main.rs:101-108 | no content type holds a carriage return or line feed, and all are ASCII |
| `Bytes.Decimal` | src/main.rs:55-57 | the rendered length is non-empty decimal digits, ASCII, with no leading zero |
| `Bytes.DecimalRoundTrip` | src/main.rs:55-57 | reading the rendered `Content-Length` gives back the length |
| `Bytes.DecimalInjective` | src/main.rs:55-57 | different lengths render to different text |
| `Bytes.AsciiRoundTrip` | src/main.rs:60 | the head's bytes are one per character and decode back to the head |
| `Bytes.AsciiConcat` | src/main.rs:55-60 | encoding a concatenation is concatenating the encodings |
| `Response.ReadFileError` | src/main.rs:93-97 | the error body is `<p>Error: `, then the error text, then `</p>`, and its length is the text's plus 14 |
| `Response.ReadFileErrorInjective` | src/main.rs:94 | different error texts give different bodies |
| `Response.ReadFileBytes` | src/main.rs:89-91 | the body is the file's bytes on a successful read and the error fragment on a failed one |
| `Response.ResponseHead` | src/main.rs:55-58 | the head starts with the status line `HTTP/1.1 200 OK` |
| `Response.ResponseHeadIsAscii` | src/main.rs:55-58 | the head is ASCII when its content type is |
| `Response.FieldValue` | src/main.rs:55-58 | splitting a header value at the first carriage return loses nothing, and the value holds no carriage return |
| `Response.FieldValueOf` | src/main.rs:55-58 | a value without a carriage return, followed by `\r…`, splits back into the value and the rest |
| `Response.ParseResponseHead` | src/main.rs:55-58 | every head the server writes reads back as exactly the content type and length it was built from |
| `Response.Respond` | src/main.rs:31-48 | there is no reply to an empty request and a reply to every other; the reply's file is under `./srv` |
| `Response.HeadBytes` | src/main.rs:55-60 | the bytes written for the head decode to the head text |
| `Response.HeadDeclaresBody` | src/main.rs:46-58 | every head has status 200 and declares the reply's content type and the body's exact byte length |
| `Response.FailedReadStillOk` | src/main.rs:46-58 | a failed read is answered with status 200; the body is the error fragment; the declared length is the fragment's |
| `Response.RootServesIndex` | src/main.rs:39-48 | `<verb> / <version>` is answered with `./srv/index.html` as `text/html` |
| `Response.BareRequestLineServesIndex` | src/main.rs:39-48 | a first line of one token such as `GET`, or of whitespace only, with any whitespace around it, is answered with the index file as `text/html` |
| `Response.RequestedFileAndType` | src/main.rs:39-48 | `<verb> stem.ext <version>` is answered with the file `./srv` + `stem.ext`, typed by `ext` alone |
| `Response.ExtensionlessPathIsText` | src/main.rs:39-47 | a path other than `/` with no `.` of its own is served as `text/plain`: the file's only `.` is the one in `./srv`, so the "extension" is `/srv` + path |
| `Response.Delivered` | src/main.rs:60 | a write sends a prefix of its data; it sends all of it if and only if the socket takes every byte before failing, and otherwise exactly as many bytes as the socket took |
| `Response.WireIsResponsePrefix` | src/main.rs:60-67 | what reaches the peer is a prefix of head + body; a failed head write sends only part of the head and no body byte; all of head + body is sent if and only if both writes succeed |
| `Response.Connection.WriteAll` | src/main.rs:60-65 | `write_all` succeeds if and only if every byte of its data went out, and appends the delivered bytes to what was sent |
| `Response.TranscriptSteps` | src/main.rs:39-67 | for a non-empty request, what is written is the head built from the resolved file's content type and the body's length, then, only if that write completed, the body read from that file |
| `Response.HandleConnection` | src/main.rs:31-68 | the connection's sent bytes grow by exactly `Transcript`: nothing for an empty request, otherwise the head and, only after a successful head write, the body |

## Left out

- `Server::new` and TCP binding (src/main.rs:12-16): socket I/O, outside the request-handling core.
- `Server::start` (src/main.rs:18-29): an endless blocking accept loop over the socket. Its one-connection-at-a-time order is not modelled.
- `main` (src/main.rs:113-116): it only binds and starts.
- The `Server` struct: it holds only the listener, so no class stands for it. The handlers are module-level members.
- `fs::read` (src/main.rs:90): it is the `fileSystem` parameter. The text of OS errors is opaque bytes.
- Splitting the byte stream into lines (`BufReader::lines`, which drops `\n` and `\r\n`): the model starts from the lines. The `unwrap` panic on a decoding error (src/main.rs:74) is not modelled.
- `println!` logging (src/main.rs:25, 37, 50-53, 61, 66): it has no effect on what is sent.
- What `write_all` does on the socket: its outcome is an input. A failed write is taken to have sent a prefix of its data. Retries on `Interrupted` happen inside `write_all` and are not modelled.
- UTF-8 encoding: the head is encoded as ASCII rather than full UTF-8. The head holds only table content types, digits and fixed text, so the two encodings agree, but a head with a non-ASCII character is outside the model.
- Whitespace: `Request.IsWhitespace` is the Unicode White_Space list that `char::is_whitespace` follows. It is written out as a table, not taken from Unicode data.
