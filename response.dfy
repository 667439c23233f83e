/**
 * What `handle_connection` sends back (src/main.rs): the file or an error
 * fragment as the body, a head that always says 200 and the body's length,
 * and the two writes, the second made only when the first succeeds.
 *
 * The file system and the socket's write results are inputs: `fs::read` is a
 * function from path to outcome, and each `write_all` is told whether it
 * completes or fails after some of its bytes.
 */
module Response {
  import opened Bytes
  import opened Request
  import opened Routing
  import opened MimeTypes

  datatype Option<T> = None | Some(value: T)

  /** A content type the server can send. */
  type MimeType = s: string | s in ContentTypes witness "text/plain"

  /** The outcome of `fs::read`: the file's bytes, or the UTF-8 text of the OS error. */
  datatype FileRead = Contents(bytes: seq<byte>) | ReadError(message: seq<byte>)

  /**
   * How the socket behaves during one `write_all`: it takes every byte
   * offered, or it fails once it has taken `accepted` bytes. A write of no
   * more than `accepted` bytes never reaches the failure.
   */
  datatype WriteOutcome = Complete | FailsAfter(accepted: nat)

  /** `write_all` returns Ok: the socket took all of `data` before any failure. */
  predicate Completes(data: seq<byte>, outcome: WriteOutcome) {
    outcome.Complete? || |data| <= outcome.accepted
  }

  /** The bytes of `data` that reach the peer under `outcome`. */
  function Delivered(data: seq<byte>, outcome: WriteOutcome): (out: seq<byte>)
    ensures out <= data
    ensures out == data <==> Completes(data, outcome)
    ensures !Completes(data, outcome) ==> |out| == outcome.accepted
  {
    if Completes(data, outcome) then data else data[..outcome.accepted]
  }

  const ErrorOpen: string := "<p>Error: "
  const ErrorClose: string := "</p>"

  /** `read_file_error`: the OS error's text wrapped in a paragraph. */
  function ReadFileError(message: seq<byte>): (body: seq<byte>)
    ensures |body| == |ErrorOpen| + |message| + |ErrorClose|
    ensures body[..|ErrorOpen|] == AsciiBytes(ErrorOpen)
    ensures body[|ErrorOpen|..|body| - |ErrorClose|] == message
    ensures body[|body| - |ErrorClose|..] == AsciiBytes(ErrorClose)
  {
    AsciiBytes(ErrorOpen) + message + AsciiBytes(ErrorClose)
  }

  /** Different error texts give different bodies. */
  lemma ReadFileErrorInjective(m1: seq<byte>, m2: seq<byte>)
    requires ReadFileError(m1) == ReadFileError(m2)
    ensures m1 == m2
  {
  }

  /** `read_file_bytes`: the file's bytes, or the error fragment when the read fails. */
  function ReadFileBytes(read: FileRead): (body: seq<byte>)
    ensures read.Contents? ==> body == read.bytes
    ensures read.ReadError? ==> body == ReadFileError(read.message)
  {
    match read
    case Contents(bytes) => bytes
    case ReadError(message) => ReadFileError(message)
  }

  const StatusLine: string := "HTTP/1.1 200 OK"
  const TypeField: string := "\r\nContent-Type: "
  const LengthField: string := "\r\nContent-Length: "
  const HeadEnd: string := "\r\n\r\n"

  /** The response head, with the length written in decimal. */
  function ResponseHead(contentType: string, length: nat): (head: string)
    ensures StatusLine + "\r\n" <= head
  {
    StatusLine + TypeField + contentType + LengthField + Decimal(length) + HeadEnd
  }

  lemma ResponseHeadIsAscii(contentType: string, length: nat)
    requires IsAscii(contentType)
    ensures IsAscii(ResponseHead(contentType, length))
  {
    var d := Decimal(length);
    AsciiConcat(StatusLine, TypeField);
    AsciiConcat(StatusLine + TypeField, contentType);
    AsciiConcat(StatusLine + TypeField + contentType, LengthField);
    AsciiConcat(StatusLine + TypeField + contentType + LengthField, d);
    AsciiConcat(StatusLine + TypeField + contentType + LengthField + d, HeadEnd);
  }

  /** The fields a client reads from a head. */
  datatype HeadFields = HeadFields(contentType: string, contentLength: nat)

  /** Splits `s` at its first carriage return. */
  function FieldValue(s: string): (split: (string, string))
    ensures split.0 + split.1 == s
    ensures '\r' !in split.0
    ensures split.1 == [] || split.1[0] == '\r'
  {
    if s == [] || s[0] == '\r' then ([], s)
    else
      var (value, rest) := FieldValue(s[1..]);
      ([s[0]] + value, rest)
  }

  lemma {:induction false} FieldValueOf(value: string, rest: string)
    requires '\r' !in value
    requires rest == [] || rest[0] == '\r'
    ensures FieldValue(value + rest) == (value, rest)
    decreases |value|
  {
    if value == [] {
      assert value + rest == rest;
    } else {
      assert (value + rest)[0] == value[0];
      assert (value + rest)[1..] == value[1..] + rest;
      FieldValueOf(value[1..], rest);
      assert [value[0]] + value[1..] == value;
    }
  }

  /**
   * Reads a head back: the status line must be "HTTP/1.1 200 OK", followed by
   * the Content-Type and a decimal Content-Length field, and the blank line.
   */
  function ParseHead(head: string): (fields: Option<HeadFields>)
  {
    var start := StatusLine + TypeField;
    if !(start <= head) then None
    else
      var (contentType, afterType) := FieldValue(head[|start|..]);
      if !(LengthField <= afterType) then None
      else
        var (digits, afterLength) := FieldValue(afterType[|LengthField|..]);
        if afterLength == HeadEnd && digits != [] && AllDigits(digits)
        then Some(HeadFields(contentType, DecimalValue(digits)))
        else None
  }

  /** A head the server writes reads back as the content type and length it was given. */
  lemma ParseResponseHead(contentType: string, length: nat)
    requires '\r' !in contentType
    ensures ParseHead(ResponseHead(contentType, length)) == Some(HeadFields(contentType, length))
  {
    var start := StatusLine + TypeField;
    var d := Decimal(length);
    var head := ResponseHead(contentType, length);
    var afterType := LengthField + d + HeadEnd;
    assert start <= head && head[|start|..] == contentType + afterType by {
      assert head == start + (contentType + afterType);
    }
    assert FieldValue(head[|start|..]) == (contentType, afterType) by {
      FieldValueOf(contentType, afterType);
    }
    assert LengthField <= afterType && afterType[|LengthField|..] == d + HeadEnd;
    assert FieldValue(d + HeadEnd) == (d, HeadEnd) by {
      FieldValueOf(d, HeadEnd);
    }
    DecimalRoundTrip(length);
  }

  /** What the server decides to send for a non-empty request. */
  datatype Reply = Reply(file: string, contentType: MimeType, body: seq<byte>)

  /**
   * The reply to a collected request: none for an empty request; otherwise
   * the resolved file, its content type and the body read from it.
   */
  function Respond(request: seq<string>, fileSystem: string -> FileRead): (reply: Option<Reply>)
    ensures reply.None? <==> request == []
    ensures reply.Some? ==> DocumentRoot <= reply.value.file
  {
    if request == [] then None
    else
      var file := ResolvePath(ParseRequest(request));
      Some(Reply(file, ContentType(file), ReadFileBytes(fileSystem(file))))
  }

  function Head(reply: Reply): string {
    ResponseHead(reply.contentType, |reply.body|)
  }

  /** The head as the bytes `write_all` is given. */
  function HeadBytes(reply: Reply): (bytes: seq<byte>)
    ensures AsciiText(bytes) == Head(reply)
  {
    ContentTypesAreHeaderSafe(reply.contentType);
    ResponseHeadIsAscii(reply.contentType, |reply.body|);
    AsciiRoundTrip(Head(reply));
    AsciiBytes(Head(reply))
  }

  /** Every head carries status 200 and declares the body's exact length and its content type. */
  lemma HeadDeclaresBody(reply: Reply)
    ensures StatusLine + "\r\n" <= AsciiText(HeadBytes(reply))
    ensures ParseHead(AsciiText(HeadBytes(reply))) == Some(HeadFields(reply.contentType, |reply.body|))
  {
    ContentTypesAreHeaderSafe(reply.contentType);
    ParseResponseHead(reply.contentType, |reply.body|);
  }

  /**
   * A failed read is still answered with status 200; the body is the error
   * fragment and the head declares its length.
   */
  lemma FailedReadStillOk(request: seq<string>, fileSystem: string -> FileRead, message: seq<byte>)
    requires request != []
    requires fileSystem(ResolvePath(ParseRequest(request))) == ReadError(message)
    ensures Respond(request, fileSystem).Some?
    ensures Respond(request, fileSystem).value.body == ReadFileError(message)
    ensures AsciiBytes(ErrorOpen) <= Respond(request, fileSystem).value.body
    ensures ParseHead(Head(Respond(request, fileSystem).value))
         == Some(HeadFields(Respond(request, fileSystem).value.contentType, |ErrorOpen| + |message| + |ErrorClose|))
  {
    var reply := Respond(request, fileSystem).value;
    HeadDeclaresBody(reply);
  }

  /** `GET / HTTP/1.1` is answered with the index file as HTML. */
  lemma RootServesIndex(verb: string, version: string, headers: seq<string>, fileSystem: string -> FileRead)
    requires IsToken(verb) && IsToken(version)
    ensures Respond([verb + " " + "/" + " " + version] + headers, fileSystem)
         == Some(Reply(IndexFile, ContentType(IndexFile), ReadFileBytes(fileSystem(IndexFile))))
    ensures ContentType(IndexFile) == "text/html"
  {
    RequestLinePath(verb, "/", version, headers);
    assert IndexFile == "./srv/index" + "." + "html";
    ContentTypeOfExtension("./srv/index", "html");
  }

  /**
   * A request line with no path, such as a bare `GET` or one that is only
   * whitespace, is also answered with the index file.
   */
  lemma BareRequestLineServesIndex(lead: string, token: string, trail: string,
                                   headers: seq<string>, fileSystem: string -> FileRead)
    requires IsBlank(lead) && IsBlank(trail)
    ensures IsToken(token)
        ==> Respond([lead + token + trail] + headers, fileSystem)
            == Some(Reply(IndexFile, ContentType(IndexFile), ReadFileBytes(fileSystem(IndexFile))))
    ensures Respond([lead] + headers, fileSystem)
         == Some(Reply(IndexFile, ContentType(IndexFile), ReadFileBytes(fileSystem(IndexFile))))
    ensures ContentType(IndexFile) == "text/html"
  {
    if IsToken(token) {
      SingleTokenLineDefaults(lead, token, trail, headers);
    }
    RequestPathDefaults(lead, headers);
    assert IndexFile == "./srv/index" + "." + "html";
    ContentTypeOfExtension("./srv/index", "html");
  }

  /** For a path `stem.ext` other than "/", the file is `./srv` + path, typed by `ext` alone. */
  lemma RequestedFileAndType(verb: string, stem: string, ext: string, version: string,
                             headers: seq<string>, fileSystem: string -> FileRead)
    requires IsToken(verb) && IsToken(version) && IsToken(stem + "." + ext)
    requires '.' !in ext
    ensures Respond([verb + " " + (stem + "." + ext) + " " + version] + headers, fileSystem)
         == Some(Reply(DocumentRoot + stem + "." + ext, ContentTypeFor(ext),
                       ReadFileBytes(fileSystem(DocumentRoot + stem + "." + ext))))
  {
    var path := stem + "." + ext;
    RequestLinePath(verb, path, version, headers);
    assert path[|stem|] == '.';
    assert DocumentRoot + path == (DocumentRoot + stem) + "." + ext;
    ContentTypeOfExtension(DocumentRoot + stem, ext);
  }

  /**
   * Every request path except "/" resolves to a file name holding a '.'
   * (the one in "./srv"), so a path with no '.' of its own is typed by the
   * text after that dot, "/srv" followed by the path, and is served as plain
   * text.
   */
  lemma ExtensionlessPathIsText(path: string)
    requires path != "/" && '.' !in path
    ensures ContentType(ResolvePath(path)) == "text/plain"
  {
    var ext := "/srv" + path;
    var file := ResolvePath(path);
    assert file == "" + "." + ext by {
      assert file == "./srv" + path;
    }
    assert '.' !in ext by {
      assert ext == "/srv" + path;
    }
    assert ContentType(file) == ContentTypeFor(ext) by {
      ContentTypeOfExtension("", ext);
    }
    assert ext !in ExtensionTable by {
      assert ext[0] == '/';
    }
  }

  /**
   * The bytes that reach the peer: the head as far as its write got, then,
   * only if the head was written in full, the body as far as its write got.
   */
  function Wire(reply: Reply, headWrite: WriteOutcome, bodyWrite: WriteOutcome): seq<byte>
  {
    Delivered(HeadBytes(reply), headWrite)
      + (if Completes(HeadBytes(reply), headWrite) then Delivered(reply.body, bodyWrite) else [])
  }

  /**
   * What is sent is always a prefix of head then body; when the head write
   * fails no body byte is sent; the whole response is sent exactly when both
   * writes succeed, so the declared length is the length of what follows
   * the head.
   */
  lemma WireIsResponsePrefix(reply: Reply, headWrite: WriteOutcome, bodyWrite: WriteOutcome)
    ensures Wire(reply, headWrite, bodyWrite) <= HeadBytes(reply) + reply.body
    ensures !Completes(HeadBytes(reply), headWrite)
        ==> |Wire(reply, headWrite, bodyWrite)| < |HeadBytes(reply)|
    ensures Wire(reply, headWrite, bodyWrite) == HeadBytes(reply) + reply.body
        <==> Completes(HeadBytes(reply), headWrite) && Completes(reply.body, bodyWrite)
  {
    var head := HeadBytes(reply);
    var out := Wire(reply, headWrite, bodyWrite);
    if Completes(head, headWrite) {
      var b := Delivered(reply.body, bodyWrite);
      assert out == head + b;
      assert forall i :: 0 <= i < |out| ==> out[i] == (head + reply.body)[i];
      if out == head + reply.body {
        assert b == (head + reply.body)[|head|..] == reply.body;
      }
    } else {
      assert |out| < |head|;
    }
  }

  /** The peer's end of one accepted connection. */
  class Connection {
    /** The lines the peer sends. */
    const incoming: seq<string>
    /** Every byte written to the peer so far. */
    var sent: seq<byte>

    constructor (incoming: seq<string>)
      ensures this.incoming == incoming && sent == []
    {
      this.incoming := incoming;
      sent := [];
    }

    /** `write_all`: succeeds exactly when every byte of `data` went out. */
    method WriteAll(data: seq<byte>, outcome: WriteOutcome) returns (ok: bool)
      modifies this
      ensures ok <==> Delivered(data, outcome) == data
      ensures sent == old(sent) + Delivered(data, outcome)
    {
      sent := sent + Delivered(data, outcome);
      ok := Completes(data, outcome);
    }
  }

  /**
   * Everything `handle_connection` writes for the lines `incoming`: nothing
   * for an empty request, otherwise the reply as far as the writes get.
   */
  function Transcript(incoming: seq<string>, fileSystem: string -> FileRead,
                      headWrite: WriteOutcome, bodyWrite: WriteOutcome): seq<byte>
  {
    match Respond(ReadRequest(incoming), fileSystem)
    case None => []
    case Some(reply) => Wire(reply, headWrite, bodyWrite)
  }

  lemma Associative(a: seq<byte>, b: seq<byte>, c: seq<byte>)
    ensures (a + b) + c == a + (b + c)
  {
  }

  /** The transcript of a non-empty request, step by step as `handle_connection` builds it. */
  lemma TranscriptSteps(incoming: seq<string>, fileSystem: string -> FileRead,
                        headWrite: WriteOutcome, bodyWrite: WriteOutcome)
    requires ReadRequest(incoming) != []
    ensures var file := ResolvePath(ParseRequest(ReadRequest(incoming)));
            var content := ReadFileBytes(fileSystem(file));
            var head := ResponseHead(ContentType(file), |content|);
            IsAscii(head)
            && Transcript(incoming, fileSystem, headWrite, bodyWrite)
               == Delivered(AsciiBytes(head), headWrite)
                  + (if Completes(AsciiBytes(head), headWrite) then Delivered(content, bodyWrite) else [])
  {
    var reply := Respond(ReadRequest(incoming), fileSystem).value;
    ContentTypesAreHeaderSafe(reply.contentType);
    ResponseHeadIsAscii(reply.contentType, |reply.body|);
  }

  /**
   * `handle_connection`: nothing is written for an empty request; otherwise
   * the head is written and, if that write succeeds, the body.
   */
  method HandleConnection(connection: Connection, fileSystem: string -> FileRead,
                          headWrite: WriteOutcome, bodyWrite: WriteOutcome)
    modifies connection
    ensures connection.sent == old(connection.sent) + Transcript(connection.incoming, fileSystem, headWrite, bodyWrite)
  {
    ghost var transcript := Transcript(connection.incoming, fileSystem, headWrite, bodyWrite);
    var data := ReadRequest(connection.incoming);
    if |data| == 0 {
      assert transcript == [];
      return;
    }
    var path := ParseRequest(data);
    path := ResolvePath(path);
    var content := ReadFileBytes(fileSystem(path));
    var length := |content|;
    var contentType := ContentType(path);
    var headers := ResponseHead(contentType, length);
    TranscriptSteps(connection.incoming, fileSystem, headWrite, bodyWrite);
    var headBytes := AsciiBytes(headers);
    ghost var sentHead := Delivered(headBytes, headWrite);
    ghost var sentBody := Delivered(content, bodyWrite);
    assert !Completes(headBytes, headWrite) ==> transcript == sentHead + [];
    assert Completes(headBytes, headWrite) ==> transcript == sentHead + sentBody;
    ghost var before := connection.sent;
    var ok := connection.WriteAll(headBytes, headWrite);
    if !ok {
      assert connection.sent == before + sentHead;
      return;
    }
    ghost var afterHead := connection.sent;
    ok := connection.WriteAll(content, bodyWrite);
    Associative(before, sentHead, sentBody);
  }
}
