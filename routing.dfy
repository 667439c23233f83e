/**
 * Mapping a request path to a file under the document root
 * (the `match` in `handle_connection`, src/main.rs).
 */
module Routing {

  const DocumentRoot: string := "./srv"
  const IndexFile: string := "./srv/index.html"

  /**
   * "/" names the index file; every other path is appended to the document
   * root as it is. The "/api" arm builds the same text as the default arm,
   * and no ".." segment is removed.
   */
  function ResolvePath(path: string): (file: string)
    ensures DocumentRoot <= file
    ensures path == "/" ==> file == IndexFile
    ensures path != "/" ==> file == DocumentRoot + path
  {
    if path == "/" then IndexFile
    else if "/api" <= path then DocumentRoot + path
    else DocumentRoot + path
  }

  /** Stripping the document root from the resolved file gives back any path but "/". */
  lemma ResolvePathInverse(path: string)
    requires path != "/"
    ensures ResolvePath(path)[|DocumentRoot|..] == path
  {
  }

  /**
   * Two request paths reach the same file exactly when they are equal or are
   * "/" and "/index.html".
   */
  lemma ResolvePathCollisions(p: string, q: string)
    ensures ResolvePath(p) == ResolvePath(q)
        <==> p == q || (p == "/" && q == "/index.html") || (p == "/index.html" && q == "/")
  {
    if ResolvePath(p) == ResolvePath(q) {
      assert IndexFile == DocumentRoot + "/index.html";
      if p != "/" && q != "/" {
        ResolvePathInverse(p);
        ResolvePathInverse(q);
      } else if p == "/" && q != "/" {
        ResolvePathInverse(q);
      } else if p != "/" && q == "/" {
        ResolvePathInverse(p);
      }
    }
  }

  /**
   * A path that begins with "/.." resolves to a file whose second segment is
   * "..": the segment is kept as written, not resolved or removed.
   */
  lemma ParentSegmentKept(rest: string)
    ensures ResolvePath("/.." + rest) == "./srv/.." + rest
  {
    var path := "/.." + rest;
    assert path[1] == '.';
    assert DocumentRoot + path == "./srv/.." + rest;
  }
}
