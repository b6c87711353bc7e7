/** `wormhole://` deep links (apps/desktop/src-tauri/src/lib.rs):
    extracting the join code a link carries. Rust's Unicode upper-casing
    is modelled on the ASCII letters. */
module DeepLink {
  import opened Wrappers
  import opened Strings
  import Crypto
  import Collections

  const FULL_SCHEME: string := "wormhole://"
  const SHORT_SCHEME: string := "wormhole:"
  const JOIN_PREFIX: string := "join/"
  const SHORT_JOIN_PREFIX: string := "j/"

  /** The shortest code a link may carry once cleaned. */
  const MIN_CODE_LENGTH: nat := 6

  /** `trim_start`: drop leading whitespace. */
  function TrimLeft(s: string): (r: string)
    ensures |r| <= |s|
  {
    if |s| > 0 && Crypto.IsWhitespace(s[0]) then TrimLeft(s[1..]) else s
  }

  /** `trim_end`: drop trailing whitespace. */
  function TrimRight(s: string): (r: string)
    ensures |r| <= |s|
  {
    if |s| > 0 && Crypto.IsWhitespace(s[|s| - 1]) then TrimRight(s[..|s| - 1]) else s
  }

  /** `trim`: whitespace dropped at both ends. */
  function Trim(s: string): string {
    TrimRight(TrimLeft(s))
  }

  /** The characters the cleaned code keeps. */
  predicate Keeps(c: char) {
    ('0' <= c <= '9') || ('a' <= c <= 'z') || ('A' <= c <= 'Z') || c == '-'
  }

  /** The characters a parsed code consists of. */
  predicate IsCodeChar(c: char) {
    ('0' <= c <= '9') || ('A' <= c <= 'Z') || c == '-'
  }

  /** A code that a link can carry and give back unchanged. */
  predicate IsLinkCode(code: string) {
    |code| >= MIN_CODE_LENGTH && forall i :: 0 <= i < |code| ==> IsCodeChar(code[i])
  }

  /** `to_uppercase`, on the ASCII letters. */
  function Upper(s: string): (r: string)
    ensures |r| == |s|
    ensures forall i :: 0 <= i < |s| ==> r[i] == Crypto.ToAsciiUpper(s[i])
  {
    seq(|s|, i requires 0 <= i < |s| => Crypto.ToAsciiUpper(s[i]))
  }

  /** The link without its scheme, "wormhole://" tried before "wormhole:". */
  function SchemeRest(url: string): (r: Option<string>)
    ensures r.Some? ==> SHORT_SCHEME <= url
  {
    var full := StripPrefix(url, FULL_SCHEME);
    if full.Some? then full else StripPrefix(url, SHORT_SCHEME)
  }

  /** The path without an optional "join/" or "j/" in front. */
  function CodePart(path: string): string {
    var long := StripPrefix(path, JOIN_PREFIX);
    var short := StripPrefix(path, SHORT_JOIN_PREFIX);
    if long.Some? then long.value else if short.Some? then short.value else path
  }

  /** A code cleaned: trimmed, upper-cased, rid of the characters it does
      not keep, and refused when empty or shorter than six. */
  function Clean(code: string): (r: Option<string>)
    ensures r.Some? ==> IsLinkCode(r.value)
  {
    var upper := Upper(Trim(code));
    if |upper| == 0 then None
    else
      var normalized := Collections.Filter(Keeps, upper);
      if |normalized| >= MIN_CODE_LENGTH then Some(normalized) else None
  }

  /** The code a path after the scheme carries. */
  function CodeOfPath(path: string): Option<string> {
    Clean(CodePart(TrimStart(path, '/')))
  }

  /** `parse_deep_link`: the join code of a link, or None when the link has
      no wormhole scheme or its cleaned code is shorter than six. */
  function ParseDeepLink(url: string): (r: Option<string>)
    ensures r.Some? ==> SHORT_SCHEME <= Trim(url)
    ensures r.Some? ==> IsLinkCode(r.value)
  {
    match SchemeRest(Trim(url))
    case None => None
    case Some(path) => CodeOfPath(path)
  }

  /** Code characters are not whitespace, so trimming keeps a code. */
  lemma TrimKeepsCode(code: string)
    requires IsLinkCode(code)
    ensures Trim(code) == code
  {
    assert !Crypto.IsWhitespace(code[0]);
    assert TrimLeft(code) == code;
    assert !Crypto.IsWhitespace(code[|code| - 1]);
  }

  /** Code characters have no lower-case letters, so upper-casing keeps a code. */
  lemma UpperKeepsCode(code: string)
    requires IsLinkCode(code)
    ensures Upper(code) == code
  {
  }

  /** A code made of code characters is its own cleaned form. */
  lemma CleanCodeFixed(code: string)
    requires IsLinkCode(code)
    ensures Clean(code) == Some(code)
  {
    TrimKeepsCode(code);
    UpperKeepsCode(code);
    Collections.FilterKeepsAll(Keeps, code);
  }

  /** An optional "join/" or "j/" in front of a code is stripped, and so
      is nothing else. */
  lemma PrefixStripped(prefix: string, code: string)
    requires prefix == JOIN_PREFIX || prefix == SHORT_JOIN_PREFIX || prefix == ""
    requires IsLinkCode(code)
    ensures CodeOfPath(prefix + code) == Some(code)
  {
    var path := prefix + code;
    assert path[|prefix|..] == code;
    assert path[0] != '/';
    if prefix == SHORT_JOIN_PREFIX {
      assert path[1] == '/';
    }
    assert CodePart(path) == code;
    CleanCodeFixed(code);
  }

  /** Both scheme spellings are recognised in front of a path that does
      not start with '/'. */
  lemma SchemeStripped(scheme: string, path: string)
    requires scheme == FULL_SCHEME || scheme == SHORT_SCHEME
    requires |path| > 0 && path[0] != '/'
    ensures SchemeRest(scheme + path) == Some(path)
  {
    var url := scheme + path;
    assert url[|scheme|..] == path;
    if scheme == SHORT_SCHEME {
      assert url[9] == path[0];
    }
  }

  /** A link ending in a code needs no trimming. */
  lemma LinkTrimmed(scheme: string, path: string)
    requires scheme == FULL_SCHEME || scheme == SHORT_SCHEME
    requires |path| > 0 && !Crypto.IsWhitespace(path[|path| - 1])
    ensures Trim(scheme + path) == scheme + path
  {
    var url := scheme + path;
    assert url[0] == 'w' && url[|url| - 1] == path[|path| - 1];
  }

  /** A scheme in front of a path whose code is `code`. */
  lemma LinkPath(scheme: string, path: string, code: string)
    requires scheme == FULL_SCHEME || scheme == SHORT_SCHEME
    requires |path| > 0 && path[0] != '/' && !Crypto.IsWhitespace(path[|path| - 1])
    requires CodeOfPath(path) == Some(code)
    ensures ParseDeepLink(scheme + path) == Some(code)
  {
    LinkTrimmed(scheme, path);
    SchemeStripped(scheme, path);
  }

  /** One link form: scheme, optional prefix, code. */
  lemma LinkForm(scheme: string, prefix: string, code: string)
    requires scheme == FULL_SCHEME || scheme == SHORT_SCHEME
    requires prefix == JOIN_PREFIX || prefix == SHORT_JOIN_PREFIX
    requires IsLinkCode(code)
    ensures ParseDeepLink(scheme + prefix + code) == Some(code)
  {
    var path := prefix + code;
    assert scheme + prefix + code == scheme + path;
    assert path[0] != '/' && !Crypto.IsWhitespace(path[|path| - 1]) by {
      assert path[|path| - 1] == code[|code| - 1];
    }
    assert CodeOfPath(path) == Some(code) by {
      PrefixStripped(prefix, code);
    }
    LinkPath(scheme, path, code);
  }

  /** Every link code survives all three link forms, under either scheme
      spelling: a code is a fixed point of the cleaning. */
  lemma LinkRoundTrip(code: string)
    requires IsLinkCode(code)
    ensures ParseDeepLink(FULL_SCHEME + JOIN_PREFIX + code) == Some(code)
    ensures ParseDeepLink(FULL_SCHEME + SHORT_JOIN_PREFIX + code) == Some(code)
    ensures ParseDeepLink(FULL_SCHEME + code) == Some(code)
    ensures ParseDeepLink(SHORT_SCHEME + code) == Some(code)
  {
    LinkForm(FULL_SCHEME, JOIN_PREFIX, code);
    LinkForm(FULL_SCHEME, SHORT_JOIN_PREFIX, code);
    LinkBare(FULL_SCHEME, code);
    LinkBare(SHORT_SCHEME, code);
  }

  /** The link form without a join prefix. */
  lemma LinkBare(scheme: string, code: string)
    requires scheme == FULL_SCHEME || scheme == SHORT_SCHEME
    requires IsLinkCode(code)
    ensures ParseDeepLink(scheme + code) == Some(code)
  {
    assert CodeOfPath(code) == Some(code) by {
      PrefixStripped("", code);
      assert "" + code == code;
    }
    assert code[0] != '/' && !Crypto.IsWhitespace(code[|code| - 1]);
    LinkPath(scheme, code, code);
  }

  /** A parsed code parses again to itself, whichever link form it is put in. */
  lemma ParseIdempotent(url: string)
    requires ParseDeepLink(url).Some?
    ensures ParseDeepLink(FULL_SCHEME + JOIN_PREFIX + ParseDeepLink(url).value) == ParseDeepLink(url)
  {
    LinkRoundTrip(ParseDeepLink(url).value);
  }

  /** Links without a wormhole scheme carry no code. */
  lemma NoSchemeNoCode(url: string)
    requires !(SHORT_SCHEME <= Trim(url))
    ensures ParseDeepLink(url) == None
  {
  }

  /** The sample code of the parser's tests is a link code. */
  lemma SampleIsLinkCode()
    ensures IsLinkCode("ABC-123")
  {
    var code := "ABC-123";
    assert forall i :: 0 <= i < |code| ==> IsCodeChar(code[i]) by {
      forall i | 0 <= i < |code| ensures IsCodeChar(code[i]) {
        assert code[i] in "ABC-123";
      }
    }
  }

  /** The accepted links of the parser's tests. */
  lemma AcceptedExamples()
    ensures ParseDeepLink("wormhole://" + "join/" + "ABC-123") == Some("ABC-123")
    ensures ParseDeepLink("wormhole://" + "j/" + "ABC-123") == Some("ABC-123")
    ensures ParseDeepLink("wormhole://" + "ABC-123") == Some("ABC-123")
  {
    SampleIsLinkCode();
    LinkRoundTrip("ABC-123");
  }

  /** A link code written in lower case cleans back to itself. */
  lemma LowerCleansBack(code: string)
    requires IsLinkCode(code)
    ensures Clean(LowerAscii(code)) == Some(code)
  {
    var low := LowerAscii(code);
    assert !Crypto.IsWhitespace(low[0]) && TrimLeft(low) == low;
    assert !Crypto.IsWhitespace(low[|low| - 1]);
    assert Trim(low) == low;
    assert Upper(low) == code;
    Collections.FilterKeepsAll(Keeps, code);
  }

  /** The code of a "join/" link is read case-insensitively. */
  lemma CaseInsensitive(code: string)
    requires IsLinkCode(code)
    ensures ParseDeepLink(FULL_SCHEME + JOIN_PREFIX + LowerAscii(code)) == Some(code)
  {
    var low := LowerAscii(code);
    var path := JOIN_PREFIX + low;
    assert FULL_SCHEME + JOIN_PREFIX + low == FULL_SCHEME + path;
    assert path[|path| - 1] == low[|low| - 1];
    LinkTrimmed(FULL_SCHEME, path);
    SchemeStripped(FULL_SCHEME, path);
    assert path[5..] == low;
    assert CodeOfPath(path) == Clean(low);
    LowerCleansBack(code);
  }

  /** A lower-case code comes back upper-cased. */
  lemma LowerCaseExample()
    ensures ParseDeepLink("wormhole://" + "join/" + "abc-123") == Some("ABC-123")
  {
    SampleIsLinkCode();
    assert LowerAscii("ABC-123") == "abc-123";
    CaseInsensitive("ABC-123");
  }

  /** The refused links of the parser's tests: no code, and a code too short. */
  lemma RefusedExamples()
    ensures ParseDeepLink("wormhole://") == None
    ensures ParseDeepLink("wormhole://" + "join/") == None
    ensures ParseDeepLink("wormhole://" + "AB") == None
  {
    assert Trim("wormhole://") == "wormhole://";
    assert SchemeRest("wormhole://") == Some("");
    LinkTrimmed(FULL_SCHEME, "join/");
    SchemeStripped(FULL_SCHEME, "join/");
    assert CodePart("join/") == "";
    LinkTrimmed(FULL_SCHEME, "AB");
    SchemeStripped(FULL_SCHEME, "AB");
    assert CodePart("AB") == "AB";
  }
}
