/**
 * Content type from a file name (`filename_to_content_type`, src/main.rs):
 * the segment after the last '.' looked up in a fixed table.
 */
module MimeTypes {

  /**
   * `str::split` on one character: the pieces between separators, in order;
   * k separators give k + 1 pieces, some of them possibly empty.
   */
  function Split(s: string, sep: char): (parts: seq<string>)
    ensures |parts| >= 1
    ensures forall i :: 0 <= i < |parts| ==> sep !in parts[i]
    decreases |s|
  {
    if s == [] then [[]]
    else
      var rest := Split(s[1..], sep);
      if s[0] == sep then [[]] + rest
      else [[s[0]] + rest[0]] + rest[1..]
  }

  /** Puts pieces back together with the separator between them. */
  function Join(parts: seq<string>, sep: char): string
    requires |parts| >= 1
    decreases |parts|
  {
    if |parts| == 1 then parts[0] else parts[0] + [sep] + Join(parts[1..], sep)
  }

  /** Splitting loses nothing: joining the pieces gives the string back. */
  lemma {:induction false} JoinSplit(s: string, sep: char)
    ensures Join(Split(s, sep), sep) == s
    decreases |s|
  {
    if s != [] {
      JoinSplit(s[1..], sep);
      var rest := Split(s[1..], sep);
      if s[0] != sep && |rest| > 1 {
        assert ([[s[0]] + rest[0]] + rest[1..])[1..] == rest[1..];
      }
    }
  }

  /** Pieces without the separator are exactly what splitting their join gives. */
  lemma {:induction false} SplitJoin(parts: seq<string>, sep: char)
    requires |parts| >= 1
    requires forall i :: 0 <= i < |parts| ==> sep !in parts[i]
    ensures Split(Join(parts, sep), sep) == parts
    decreases |parts|
  {
    if |parts| == 1 {
      SplitPiece(parts[0], [], sep);
      assert parts[0] + [] == parts[0];
      assert parts == [parts[0]];
    } else {
      SplitJoin(parts[1..], sep);
      var tail := Join(parts[1..], sep);
      assert parts[0] + [sep] + tail == parts[0] + ([sep] + tail);
      assert ([sep] + tail)[1..] == tail;
      assert Split([sep] + tail, sep) == [[]] + parts[1..];
      SplitPiece(parts[0], [sep] + tail, sep);
      assert parts[0] + [] == parts[0];
    }
  }

  /** A separator-free prefix goes onto the front of the first piece. */
  lemma {:induction false} SplitPiece(w: string, rest: string, sep: char)
    requires sep !in w
    ensures Split(w + rest, sep) == [w + Split(rest, sep)[0]] + Split(rest, sep)[1..]
    decreases |w|
  {
    if w == [] {
      var r := Split(rest, sep);
      assert w + rest == rest;
      assert w + r[0] == r[0];
      assert [r[0]] + r[1..] == r;
    } else {
      assert (w + rest)[1..] == w[1..] + rest;
      SplitPiece(w[1..], rest, sep);
      assert [w[0]] + (w[1..] + Split(rest, sep)[0]) == w + Split(rest, sep)[0];
    }
  }

  /** What `.last()` gives for the pieces of a file name split on '.'. */
  function Extension(filename: string): (ext: string)
  {
    var parts := Split(filename, '.');
    parts[|parts| - 1]
  }

  /**
   * The extension is the text after the last '.', or the whole name if it
   * has no '.'.
   */
  lemma ExtensionIsLastSegment(filename: string)
    ensures '.' !in Extension(filename)
    ensures '.' in filename ==>
      exists stem :: filename == stem + "." + Extension(filename)
    ensures '.' !in filename ==> Extension(filename) == filename
  {
    var parts := Split(filename, '.');
    JoinSplit(filename, '.');
    if |parts| == 1 {
      assert '.' !in filename;
    } else {
      JoinLast(parts, '.');
      var stem := Join(parts[..|parts| - 1], '.');
      assert filename == stem + "." + Extension(filename);
    }
  }

  lemma {:induction false} JoinLast(parts: seq<string>, sep: char)
    requires |parts| > 1
    ensures Join(parts, sep) == Join(parts[..|parts| - 1], sep) + [sep] + parts[|parts| - 1]
    decreases |parts|
  {
    if |parts| > 2 {
      JoinLast(parts[1..], sep);
      assert parts[1..][..|parts| - 2] == parts[..|parts| - 1][1..];
    }
  }

  /** The extension of `stem.ext` is `ext`, whatever the stem holds. */
  lemma ExtensionOf(stem: string, ext: string)
    requires '.' !in ext
    ensures Extension(stem + "." + ext) == ext
  {
    var parts := Split(stem, '.');
    JoinSplit(stem, '.');
    var joined := parts + [ext];
    assert forall i :: 0 <= i < |joined| ==> '.' !in joined[i];
    JoinAppend(parts, ext, '.');
    SplitJoin(joined, '.');
  }

  lemma {:induction false} JoinAppend(parts: seq<string>, last: string, sep: char)
    requires |parts| >= 1
    ensures Join(parts + [last], sep) == Join(parts, sep) + [sep] + last
    decreases |parts|
  {
    if |parts| > 1 {
      JoinAppend(parts[1..], last, sep);
      assert (parts + [last])[1..] == parts[1..] + [last];
    }
  }

  /** The extension table, as a map; every other extension is "text/plain". */
  const ExtensionTable: map<string, string> := map[
    "gif" := "image/gif",
    "html" := "text/html",
    "css" := "text/css",
    "js" := "text/javascript",
    "jpg" := "image/jpeg",
    "jpeg" := "image/jpeg",
    "png" := "image/png"
  ]

  /** The content types the server ever sends: the table's types and the default. */
  const ContentTypes: set<string> := ExtensionTable.Values + {"text/plain"}

  /** The match on the extension: exact, case-sensitive comparison. */
  function ContentTypeFor(ext: string): (contentType: string)
    ensures ext in ExtensionTable ==> contentType == ExtensionTable[ext]
    ensures ext !in ExtensionTable ==> contentType == "text/plain"
    ensures contentType in ContentTypes
  {
    match ext
    case "gif" => "image/gif"
    case "html" => "text/html"
    case "css" => "text/css"
    case "js" => "text/javascript"
    case "jpg" => "image/jpeg"
    case "jpeg" => "image/jpeg"
    case "png" => "image/png"
    case _ => "text/plain"
  }

  /** `filename_to_content_type`. */
  function ContentType(filename: string): (contentType: string)
    ensures contentType in ContentTypes
  {
    ContentTypeFor(Extension(filename))
  }

  /** The content type of `stem.ext` depends on `ext` alone. */
  lemma ContentTypeOfExtension(stem: string, ext: string)
    requires '.' !in ext
    ensures ContentType(stem + "." + ext) == ContentTypeFor(ext)
    ensures ext !in ExtensionTable ==> ContentType(stem + "." + ext) == "text/plain"
  {
    ExtensionOf(stem, ext);
  }

  /** A name without '.' is looked up whole, so it is served as text. */
  lemma ContentTypeWithoutDot(filename: string)
    requires '.' !in filename
    requires filename !in ExtensionTable
    ensures ContentType(filename) == "text/plain"
  {
    ExtensionIsLastSegment(filename);
  }

  /** The comparison is case-sensitive: "PNG" is not "png". */
  lemma ContentTypeIsCaseSensitive(stem: string)
    ensures ContentType(stem + ".png") == "image/png"
    ensures ContentType(stem + ".PNG") == "text/plain"
    ensures ContentType(stem + ".jpg") == ContentType(stem + ".jpeg") == "image/jpeg"
  {
    assert stem + ".png" == stem + "." + "png";
    assert stem + ".PNG" == stem + "." + "PNG";
    assert stem + ".jpg" == stem + "." + "jpg";
    assert stem + ".jpeg" == stem + "." + "jpeg";
    ContentTypeOfExtension(stem, "png");
    ContentTypeOfExtension(stem, "PNG");
    ContentTypeOfExtension(stem, "jpg");
    ContentTypeOfExtension(stem, "jpeg");
  }

  /** No content type holds a carriage return, so each fits in one header line. */
  lemma ContentTypesAreHeaderSafe(contentType: string)
    requires contentType in ContentTypes
    ensures '\r' !in contentType && '\n' !in contentType
    ensures forall i :: 0 <= i < |contentType| ==> contentType[i] as int < 128
  {
  }
}
