/**
 * Collecting the request head and extracting the request path
 * (`read_request` and `parse_request` in src/main.rs).
 */
module Request {

  /**
   * The lines of the request head: the incoming lines up to, and not
   * including, the first empty one (all of them if none is empty).
   */
  function ReadRequest(lines: seq<string>): (head: seq<string>)
    ensures head <= lines
    ensures forall i :: 0 <= i < |head| ==> head[i] != ""
    ensures head == lines || lines[|head|] == ""
  {
    if lines == [] || lines[0] == "" then [] else [lines[0]] + ReadRequest(lines[1..])
  }

  /** The collected head is the only prefix with the three properties above. */
  lemma {:induction false} ReadRequestIsLongestPrefix(lines: seq<string>, head: seq<string>)
    requires head <= lines
    requires forall i :: 0 <= i < |head| ==> head[i] != ""
    requires head == lines || lines[|head|] == ""
    ensures head == ReadRequest(lines)
  {
  }

  /** An empty first line gives an empty request, whatever follows. */
  lemma BlankFirstLine(rest: seq<string>)
    ensures ReadRequest([""] + rest) == []
  {
  }

  /**
   * The characters `char::is_whitespace` accepts: the Unicode White_Space
   * property.
   */
  predicate IsWhitespace(c: char) {
    ('\t' <= c <= '\r') || c == ' ' || c == '\U{85}' || c == '\U{A0}' || c == '\U{1680}'
    || ('\U{2000}' <= c <= '\U{200A}') || c == '\U{2028}' || c == '\U{2029}'
    || c == '\U{202F}' || c == '\U{205F}' || c == '\U{3000}'
  }

  predicate NoWhitespace(s: string) {
    forall i :: 0 <= i < |s| ==> !IsWhitespace(s[i])
  }

  /** A token as `split_whitespace` yields it: non-empty, no whitespace. */
  predicate IsToken(s: string) {
    s != [] && NoWhitespace(s)
  }

  /** The longest prefix of `s` without whitespace. */
  function Word(s: string): (w: string)
    ensures w <= s && NoWhitespace(w)
    ensures |w| == |s| || IsWhitespace(s[|w|])
  {
    if s == [] || IsWhitespace(s[0]) then [] else [s[0]] + Word(s[1..])
  }

  /**
   * `split_whitespace`: the maximal runs of non-whitespace characters,
   * in order.
   */
  function Tokens(s: string): (ts: seq<string>)
    ensures forall i :: 0 <= i < |ts| ==> IsToken(ts[i])
    decreases |s|
  {
    if s == [] then []
    else if IsWhitespace(s[0]) then Tokens(s[1..])
    else
      var w := Word(s);
      [w] + Tokens(s[|w|..])
  }

  /** Whitespace only (possibly empty). */
  predicate IsBlank(s: string) {
    forall i :: 0 <= i < |s| ==> IsWhitespace(s[i])
  }

  /**
   * Writes `words` with `seps[i]` between `words[i]` and `words[i + 1]`: a
   * line whose tokens are `words`, separated by any runs of whitespace.
   */
  function JoinWith(words: seq<string>, seps: seq<string>): string
    requires |words| >= 1 && |seps| == |words| - 1
    decreases |words|
  {
    if |words| == 1 then words[0] else words[0] + seps[0] + JoinWith(words[1..], seps[1..])
  }

  lemma {:induction false} WordOf(w: string, rest: string)
    requires NoWhitespace(w)
    requires rest == [] || IsWhitespace(rest[0])
    ensures Word(w + rest) == w
    decreases |w|
  {
    if w != [] {
      assert (w + rest)[1..] == w[1..] + rest;
      WordOf(w[1..], rest);
    } else {
      assert w + rest == rest;
    }
  }

  lemma {:induction false} TokensOfWordThen(w: string, rest: string)
    requires IsToken(w)
    requires rest == [] || IsWhitespace(rest[0])
    ensures Tokens(w + rest) == [w] + Tokens(rest)
  {
    WordOf(w, rest);
    assert (w + rest)[|w|..] == rest;
  }

  /** Leading whitespace is skipped. */
  lemma {:induction false} TokensAfterBlank(blank: string, rest: string)
    requires IsBlank(blank)
    ensures Tokens(blank + rest) == Tokens(rest)
    decreases |blank|
  {
    if blank == [] {
      assert blank + rest == rest;
    } else {
      assert (blank + rest)[1..] == blank[1..] + rest;
      TokensAfterBlank(blank[1..], rest);
    }
  }

  /** A line of whitespace only has no tokens. */
  lemma TokensOfBlank(s: string)
    requires IsBlank(s)
    ensures Tokens(s) == []
  {
    TokensAfterBlank(s, "");
    assert s + "" == s;
  }

  lemma {:induction false} TokensOfJoinWithThen(words: seq<string>, seps: seq<string>, trail: string)
    requires |words| >= 1 && |seps| == |words| - 1
    requires forall i :: 0 <= i < |words| ==> IsToken(words[i])
    requires forall i :: 0 <= i < |seps| ==> seps[i] != [] && IsBlank(seps[i])
    requires IsBlank(trail)
    ensures Tokens(JoinWith(words, seps) + trail) == words
    decreases |words|
  {
    if |words| == 1 {
      TokensOfWordThen(words[0], trail);
      TokensOfBlank(trail);
    } else {
      var rest := JoinWith(words[1..], seps[1..]) + trail;
      assert JoinWith(words, seps) + trail == words[0] + (seps[0] + rest);
      TokensOfWordThen(words[0], seps[0] + rest);
      TokensAfterBlank(seps[0], rest);
      TokensOfJoinWithThen(words[1..], seps[1..], trail);
    }
  }

  /**
   * `split_whitespace` gives back the tokens of any line built from them:
   * leading and trailing whitespace and separators of any non-empty
   * whitespace runs are dropped.
   */
  lemma TokensOfLine(lead: string, words: seq<string>, seps: seq<string>, trail: string)
    requires |words| >= 1 && |seps| == |words| - 1
    requires forall i :: 0 <= i < |words| ==> IsToken(words[i])
    requires forall i :: 0 <= i < |seps| ==> seps[i] != [] && IsBlank(seps[i])
    requires IsBlank(lead) && IsBlank(trail)
    ensures Tokens(lead + JoinWith(words, seps) + trail) == words
  {
    var line := JoinWith(words, seps) + trail;
    assert Tokens(lead + line) == words by {
      TokensAfterBlank(lead, line);
      TokensOfJoinWithThen(words, seps, trail);
    }
    assert lead + JoinWith(words, seps) + trail == lead + line;
  }

  /**
   * The request path: the second whitespace-separated token of the first
   * line, or "/" when there is no first line or no second token.
   */
  function ParseRequest(request: seq<string>): (path: string)
    ensures IsToken(path)
  {
    var line := if |request| > 0 then request[0] else "";
    var ts := Tokens(line);
    if |ts| > 1 then ts[1] else "/"
  }

  /** A request line `<verb> <path> <version>` yields `<path>`. */
  lemma RequestLinePath(verb: string, path: string, version: string, headers: seq<string>)
    requires IsToken(verb) && IsToken(path) && IsToken(version)
    ensures ParseRequest([verb + " " + path + " " + version] + headers) == path
  {
    var words, seps := [verb, path, version], [" ", " "];
    assert JoinWith(words[2..], seps[2..]) == version;
    assert "" + JoinWith(words, seps) + "" == verb + " " + path + " " + version;
    TokensOfLine("", words, seps, "");
  }

  /**
   * For a first line of two or more tokens, whatever whitespace surrounds and
   * separates them, the path is the second token.
   */
  lemma RequestLineSecondToken(lead: string, words: seq<string>, seps: seq<string>, trail: string,
                               headers: seq<string>)
    requires |words| >= 2 && |seps| == |words| - 1
    requires forall i :: 0 <= i < |words| ==> IsToken(words[i])
    requires forall i :: 0 <= i < |seps| ==> seps[i] != [] && IsBlank(seps[i])
    requires IsBlank(lead) && IsBlank(trail)
    ensures ParseRequest([lead + JoinWith(words, seps) + trail] + headers) == words[1]
  {
    TokensOfLine(lead, words, seps, trail);
  }

  /**
   * The path defaults to "/" for an empty request and for a first line that
   * is only whitespace.
   */
  lemma RequestPathDefaults(line: string, headers: seq<string>)
    ensures ParseRequest([]) == "/"
    ensures IsBlank(line) ==> ParseRequest([line] + headers) == "/"
  {
    if IsBlank(line) {
      TokensOfBlank(line);
    }
  }

  /**
   * A first line with a single token, such as ` GET `, has no path, so the
   * path defaults to "/", whatever whitespace surrounds the token.
   */
  lemma SingleTokenLineDefaults(lead: string, token: string, trail: string, headers: seq<string>)
    requires IsBlank(lead) && IsToken(token) && IsBlank(trail)
    ensures ParseRequest([lead + token + trail] + headers) == "/"
  {
    TokensOfLine(lead, [token], [], trail);
  }
}
