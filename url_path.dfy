/** The path component of a URI reference, as Python's `urllib.parse.urlparse` (CPython 3.12)
    computes it: leading C0 controls and spaces are stripped, tab/CR/LF are deleted, then the
    scheme, the authority (`//netloc`), the fragment (`#...`), the query (`?...`) and, for schemes
    that use them, the `;params` of the last segment are split off (RFC 3986, section 3). The
    bracketed-host and NFKC netloc checks of `urlsplit` are not part of this model. */
module UrlPath {
  import opened Wrappers
  import opened Strings

  datatype ParseResult = ParseResult(
    scheme: string, netloc: string, path: string, params: string, query: string, fragment: string)

  /** The message of the ValueError raised for a netloc with only one of '[' and ']'. */
  const InvalidIpv6Url := "Invalid IPv6 URL"

  /** Schemes whose last path segment may carry `;params` (`urllib.parse.uses_params`). */
  const UsesParams: set<string> := {"", "ftp", "hdl", "prospero", "http", "imap", "https", "shttp",
    "rtsp", "rtsps", "rtspu", "sip", "sips", "mms", "sftp", "tel"}

  /** U+0000..U+0020, stripped from the front of the URL. */
  predicate IsC0ControlOrSpace(ch: char)
  {
    ch <= ' '
  }

  /** Tab, CR and LF, deleted wherever they occur. */
  predicate IsUnsafe(ch: char)
  {
    ch == '\t' || ch == '\r' || ch == '\n'
  }

  predicate IsAsciiLetter(ch: char)
  {
    'a' <= ch <= 'z' || 'A' <= ch <= 'Z'
  }

  predicate IsSchemeChar(ch: char)
  {
    IsAsciiLetter(ch) || '0' <= ch <= '9' || ch == '+' || ch == '-' || ch == '.'
  }

  function RemoveUnsafe(s: string): (r: string)
    ensures |r| <= |s|
  {
    if s == [] then [] else (if IsUnsafe(s[0]) then [] else [s[0]]) + RemoveUnsafe(s[1..])
  }

  /** Deleting characters brings in no new one. */
  lemma {:induction false} RemoveUnsafeAddsNothing(s: string, c: char)
    requires c !in s
    ensures c !in RemoveUnsafe(s)
  {
    if s != [] {
      assert s == [s[0]] + s[1..];
      RemoveUnsafeAddsNothing(s[1..], c);
    }
  }

  lemma {:induction false} RemoveUnsafeAppend(a: string, b: string)
    ensures RemoveUnsafe(a + b) == RemoveUnsafe(a) + RemoveUnsafe(b)
  {
    if a != [] {
      var head := if IsUnsafe(a[0]) then [] else [a[0]];
      assert (a + b)[0] == a[0] && (a + b)[1..] == a[1..] + b;
      RemoveUnsafeAppend(a[1..], b);
      assert RemoveUnsafe(a + b) == head + (RemoveUnsafe(a[1..]) + RemoveUnsafe(b));
    } else {
      assert a + b == b;
    }
  }

  lemma {:induction false} RemoveUnsafeKeepsSafeText(s: string)
    requires forall k :: 0 <= k < |s| ==> !IsUnsafe(s[k])
    ensures RemoveUnsafe(s) == s
  {
    if s != [] {
      RemoveUnsafeKeepsSafeText(s[1..]);
      assert [s[0]] + s[1..] == s;
    }
  }

  /** The text `urlsplit` works on. */
  function Clean(url: string): string
  {
    RemoveUnsafe(TrimStart(url, IsC0ControlOrSpace))
  }

  /** `str.lower()` on a string of scheme characters, which are all ASCII. */
  function AsciiLower(s: string): (r: string)
    ensures |r| == |s|
  {
    seq(|s|, i requires 0 <= i < |s| => if 'A' <= s[i] <= 'Z' then (s[i] as int + 32) as char else s[i])
  }

  /** `scheme:` is split off when the text before the first ':' is non-empty, starts with an ASCII
      letter and holds only scheme characters; the scheme is lower-cased. */
  function SplitScheme(url: string): (r: (string, string))
    ensures r.0 != "" <==> 0 < Find(url, ':') < |url| && IsAsciiLetter(url[0])
                           && forall k :: 0 <= k < Find(url, ':') ==> IsSchemeChar(url[k])
    ensures r.0 != "" ==> |r.0| == Find(url, ':')
    ensures r.0 == "" ==> r.1 == url
    ensures r.0 != "" ==> |r.0| < |url| && url[|r.0|] == ':' && r.0 == AsciiLower(url[..|r.0|])
                          && r.1 == url[|r.0| + 1..]
    ensures EndsWith(url, r.1)
  {
    var i := Find(url, ':');
    if 0 < i < |url| && IsAsciiLetter(url[0]) && (forall k :: 0 <= k < i ==> IsSchemeChar(url[k]))
    then (AsciiLower(url[..i]), url[i + 1..])
    else ("", url)
  }

  predicate IsNetlocDelimiter(ch: char)
  {
    ch == '/' || ch == '?' || ch == '#'
  }

  function Min(a: nat, b: nat): nat
  {
    if a <= b then a else b
  }

  /** The earliest of the first '/', '?' and '#' from index 2 on, or the length. */
  function NetlocEnd(url: string): (d: nat)
    requires 2 <= |url|
    ensures 2 <= d <= |url|
    ensures d < |url| ==> IsNetlocDelimiter(url[d])
    ensures forall k :: 2 <= k < d ==> !IsNetlocDelimiter(url[k])
  {
    Min(FindFrom(url, '/', 2), Min(FindFrom(url, '?', 2), FindFrom(url, '#', 2)))
  }

  /** `//netloc` is split off when the text starts with "//"; the netloc runs up to the first
      '/', '?' or '#'. */
  function SplitNetloc(url: string): (r: (string, string))
    ensures !StartsWith(url, "//") ==> r == ("", url)
    ensures StartsWith(url, "//") ==> url == "//" + r.0 + r.1
    ensures forall k :: 0 <= k < |r.0| ==> !IsNetlocDelimiter(r.0[k])
    ensures StartsWith(url, "//") ==> r.1 == [] || IsNetlocDelimiter(r.1[0])
    ensures EndsWith(url, r.1)
  {
    if StartsWith(url, "//") then
      var d := NetlocEnd(url);
      assert url == url[..2] + url[2..d] + url[d..];
      (url[2..d], url[d..])
    else ("", url)
  }

  predicate UnbalancedBrackets(netloc: string)
  {
    ('[' in netloc) != (']' in netloc)
  }

  /** `if c in s: s, tail = s.split(c, 1)`: around the first `c`, or the whole text and "". */
  function SplitOnce(s: string, c: char): (r: (string, string))
    ensures c in s ==> s == r.0 + [c] + r.1 && c !in r.0
    ensures c !in s ==> r == (s, "")
    ensures r.0 == s[..Find(s, c)]
  {
    var i := Find(s, c);
    if i < |s| then
      assert s == s[..i] + [c] + s[i + 1..];
      (s[..i], s[i + 1..])
    else (s, "")
  }

  /** `_splitparams`: cut at the first ';' after the last '/' (at the first ';' when there is
      no '/'); text without such a ';' keeps no params. */
  function SplitParams(url: string): (r: (string, string))
    requires ';' in url
    ensures (r.1 == "" && r.0 == url) || url == r.0 + ";" + r.1
    ensures '/' !in url ==> url == r.0 + ";" + r.1 && ';' !in r.0
    ensures '/' in url ==> r.0 == url[..FindFrom(url, ';', RFind(url, '/'))]
  {
    var i := if '/' in url then FindFrom(url, ';', RFind(url, '/')) else Find(url, ';');
    if i < |url| then
      assert url == url[..i] + ";" + url[i + 1..];
      (url[..i], url[i + 1..])
    else (url, "")
  }

  /** Path, params, query and fragment of what follows the authority. */
  function SplitRest(usesParams: bool, rest: string): (r: (string, string, string, string))
    ensures '?' !in r.0 && '#' !in r.0
  {
    var (beforeFragment, fragment) := SplitOnce(rest, '#');
    var (beforeQuery, query) := SplitOnce(beforeFragment, '?');
    var (path, params) :=
      if usesParams && ';' in beforeQuery then SplitParams(beforeQuery) else (beforeQuery, "");
    assert path == beforeQuery[..|path|];
    (path, params, query, fragment)
  }

  /** The path after the authority is the text before the first '?' or '#'; only for a scheme in
      `uses_params` is it then cut at `;params`. */
  lemma SplitRestPath(usesParams: bool, rest: string)
    ensures var e := Min(Find(rest, '?'), Find(rest, '#'));
            SplitRest(usesParams, rest).0 ==
              if usesParams && ';' in rest[..e] then SplitParams(rest[..e]).0 else rest[..e]
  {
    var q, f := Find(rest, '?'), Find(rest, '#');
    var beforeFragment := rest[..f];
    assert SplitOnce(rest, '#').0 == beforeFragment;
    var i := Find(beforeFragment, '?');
    if q < f {
      assert beforeFragment[q] == '?';
    }
    assert beforeFragment[..i] == rest[..Min(q, f)];
  }

  /** Everything `urlparse` does once the scheme is split off. */
  function ParseAfterScheme(scheme: string, afterScheme: string): (r: Result<ParseResult, string>)
    ensures r.Err? <==> UnbalancedBrackets(SplitNetloc(afterScheme).0)
    ensures r.Err? ==> r.error == InvalidIpv6Url
    ensures r.Ok? ==> r.value.scheme == scheme && r.value.netloc == SplitNetloc(afterScheme).0
  {
    var (netloc, rest) := SplitNetloc(afterScheme);
    if UnbalancedBrackets(netloc) then Err(InvalidIpv6Url)
    else
      var (path, params, query, fragment) := SplitRest(scheme in UsesParams, rest);
      Ok(ParseResult(scheme, netloc, path, params, query, fragment))
  }

  /** `urllib.parse.urlparse(url)`; the ValueError for unbalanced brackets becomes `Err`. */
  function UrlParse(url: string): (r: Result<ParseResult, string>)
    ensures r.Err? ==> r.error == InvalidIpv6Url
    ensures r.Ok? ==> '?' !in r.value.path && '#' !in r.value.path
  {
    var (scheme, afterScheme) := SplitScheme(Clean(url));
    ParseAfterScheme(scheme, afterScheme)
  }

  /** `urlparse` raises exactly when the authority of the cleaned reference, after its scheme,
      holds only one of '[' and ']'; otherwise it returns that scheme and authority. */
  lemma UrlParseRaisesIff(url: string)
    ensures UrlParse(url).Err? <==> UnbalancedBrackets(SplitNetloc(SplitScheme(Clean(url)).1).0)
    ensures UrlParse(url).Ok? ==>
              UrlParse(url).value.scheme == SplitScheme(Clean(url)).0
              && UrlParse(url).value.netloc == SplitNetloc(SplitScheme(Clean(url)).1).0
  {
  }

  /** The path of a parse, or its error. */
  function PathPart(parsed: Result<ParseResult, string>): Result<string, string>
  {
    match parsed
    case Ok(parts) => Ok(parts.path)
    case Err(e) => Err(e)
  }

  /** `urlparse(url).path` */
  function PathOf(url: string): (r: Result<string, string>)
    ensures r.Ok? ==> '?' !in r.value && '#' !in r.value
  {
    PathPart(UrlParse(url))
  }

  // ---------------------------------------------------------------------------
  // What the path depends on.

  lemma NotInSuffix(s: string, t: string, c: char)
    requires c !in s && EndsWith(s, t)
    ensures c !in t
  {
  }

  /** When the first part holds a ':', the scheme split of the whole is decided inside it. */
  lemma SplitSchemeAppendAtColon(a: string, b: string)
    requires Find(a, ':') < |a|
    ensures SplitScheme(a + b) == (SplitScheme(a).0, SplitScheme(a).1 + b)
  {
    var url := a + b;
    var i := Find(a, ':');
    FindFromAppend(a, b, ':', 0);
    assert Find(url, ':') == i && url[0] == a[0];
    assert url[..i] == a[..i];
    assert url[i + 1..] == a[i + 1..] + b;
    assert forall k :: 0 <= k < i ==> url[k] == a[k];
  }

  /** When the first part holds no ':' and the second starts with a character that cannot belong
      to a scheme, there is no scheme. */
  lemma SplitSchemeAppendNoColon(a: string, b: string)
    requires ':' !in a
    requires b != [] && !IsSchemeChar(b[0]) && b[0] != ':'
    ensures SplitScheme(a + b) == ("", a + b)
  {
    var url := a + b;
    FindFromAppend(a, b, ':', 0);
    assert url[|a|] == b[0];
  }

  /** Text after a character that cannot belong to a scheme does not change the scheme split. */
  lemma SplitSchemeAppend(a: string, b: string)
    requires b != [] && !IsSchemeChar(b[0]) && b[0] != ':'
    ensures SplitScheme(a + b) == (SplitScheme(a).0, SplitScheme(a).1 + b)
  {
    if Find(a, ':') < |a| {
      SplitSchemeAppendAtColon(a, b);
    } else {
      SplitSchemeAppendNoColon(a, b);
    }
  }

  /** Text starting with '?' or '#' ends the authority where the original text ended. */
  lemma SplitNetlocAppend(a: string, b: string)
    requires b != [] && (b[0] == '?' || b[0] == '#')
    ensures SplitNetloc(a + b) == (SplitNetloc(a).0, SplitNetloc(a).1 + b)
  {
    var url := a + b;
    if StartsWith(a, "//") {
      assert url[..2] == a[..2];
      var d := NetlocEnd(a);
      var e := NetlocEnd(url);
      if d < |a| {
        assert url[d] == a[d];
      } else {
        assert url[d] == b[0];
      }
      assert forall k :: 2 <= k < d ==> url[k] == a[k];
      assert e == d;
      assert url[2..d] == a[2..d];
      assert url[d..] == a[d..] + b;
    } else {
      assert !StartsWith(url, "//") by {
        if |a| >= 2 {
          assert url[..2] == a[..2];
        } else {
          assert url[|a|] == b[0];
        }
      }
    }
  }

  /** Once the authority is gone, a suffix starting with '?' or '#' is query or fragment. */
  lemma SplitRestAppend(usesParams: bool, rest: string, s: string)
    requires '?' !in rest && '#' !in rest
    requires s != [] && (s[0] == '?' || s[0] == '#')
    ensures SplitRest(usesParams, rest + s).0 == SplitRest(usesParams, rest).0
  {
    var j := Find(s, '#');
    FindFromAppend(rest, s, '#', 0);
    var beforeFragment := SplitOnce(rest + s, '#').0;
    assert beforeFragment == rest + s[..j];
    var t := s[..j];
    if j == 0 {
      assert rest + t == rest;
    } else {
      assert t[0] == '?';
      FindFromAppend(rest, t, '?', 0);
      assert SplitOnce(rest + t, '?').0 == rest;
    }
  }

  lemma ParseAfterSchemeAppend(scheme: string, afterScheme: string, s: string)
    requires '?' !in afterScheme && '#' !in afterScheme
    requires s != [] && (s[0] == '?' || s[0] == '#')
    ensures PathPart(ParseAfterScheme(scheme, afterScheme + s)) == PathPart(ParseAfterScheme(scheme, afterScheme))
  {
    SplitNetlocAppend(afterScheme, s);
    var (netloc, rest) := SplitNetloc(afterScheme);
    NotInSuffix(afterScheme, rest, '?');
    NotInSuffix(afterScheme, rest, '#');
    SplitRestAppend(scheme in UsesParams, rest, s);
  }

  lemma CleanAppend(url: string, s: string)
    requires s != [] && (s[0] == '?' || s[0] == '#')
    ensures Clean(url + s) == Clean(url) + RemoveUnsafe(s)
  {
    TrimStartAppend(url, s, IsC0ControlOrSpace);
    RemoveUnsafeAppend(TrimStart(url, IsC0ControlOrSpace), s);
  }

  /** Cleaning adds no character. */
  lemma CleanAddsNothing(url: string, c: char)
    requires c !in url
    ensures c !in Clean(url)
  {
    NotInSuffix(url, TrimStart(url, IsC0ControlOrSpace), c);
    RemoveUnsafeAddsNothing(TrimStart(url, IsC0ControlOrSpace), c);
  }

  /** A first character that is kept stays first. */
  lemma RemoveUnsafeKeepsFirst(s: string)
    requires s != [] && !IsUnsafe(s[0])
    ensures RemoveUnsafe(s) != [] && RemoveUnsafe(s)[0] == s[0]
  {
  }

  /** Cleaning `url + s`, for a query or fragment `s`, cleans the two parts separately. */
  lemma CleanOfAppended(url: string, s: string)
    requires '?' !in url && '#' !in url
    requires s != [] && (s[0] == '?' || s[0] == '#')
    ensures Clean(url + s) == Clean(url) + RemoveUnsafe(s)
    ensures '?' !in Clean(url) && '#' !in Clean(url)
    ensures RemoveUnsafe(s) != [] && RemoveUnsafe(s)[0] == s[0]
  {
    CleanAppend(url, s);
    CleanAddsNothing(url, '?');
    CleanAddsNothing(url, '#');
    RemoveUnsafeKeepsFirst(s);
  }

  /** Splitting off the scheme of `u + s`, for a query or fragment `s`, leaves `s` after the scheme. */
  lemma SchemeSplitOfAppended(u: string, s: string)
    requires '?' !in u && '#' !in u
    requires s != [] && (s[0] == '?' || s[0] == '#')
    ensures SplitScheme(u + s) == (SplitScheme(u).0, SplitScheme(u).1 + s)
    ensures '?' !in SplitScheme(u).1 && '#' !in SplitScheme(u).1
  {
    SplitSchemeAppend(u, s);
    NotInSuffix(u, SplitScheme(u).1, '?');
    NotInSuffix(u, SplitScheme(u).1, '#');
  }

  /** A query or fragment never changes the path: `p?q#f` has the path of `p`. */
  lemma PathIgnoresQueryAndFragment(url: string, s: string)
    requires '?' !in url && '#' !in url
    requires s != [] && (s[0] == '?' || s[0] == '#')
    ensures PathOf(url + s) == PathOf(url)
  {
    CleanOfAppended(url, s);
    SchemeSplitOfAppended(Clean(url), RemoveUnsafe(s));
    var (scheme, afterScheme) := SplitScheme(Clean(url));
    ParseAfterSchemeAppend(scheme, afterScheme, RemoveUnsafe(s));
  }

  /** A character that ends no component and that cleaning keeps. */
  predicate IsPlainChar(ch: char)
  {
    ch != ':' && ch != ';' && ch != '?' && ch != '#' && !IsUnsafe(ch)
  }

  /** A relative reference made of path characters only: nothing to strip, no scheme, no
      authority, no params, query or fragment. */
  predicate PlainPath(p: string)
  {
    && (p == [] || !IsC0ControlOrSpace(p[0]))
    && !StartsWith(p, "//")
    && forall k :: 0 <= k < |p| ==> IsPlainChar(p[k])
  }

  /** What follows the scheme and authority of a relative reference that is only a path. */
  lemma PlainPathParts(p: string)
    requires PlainPath(p)
    ensures Clean(p) == p
    ensures SplitScheme(p) == ("", p)
    ensures SplitNetloc(p) == ("", p)
  {
    RemoveUnsafeKeepsSafeText(p);
  }

  /** A plain path is its own path. */
  lemma PlainPathIsKept(p: string)
    requires PlainPath(p)
    ensures PathOf(p) == Ok(p)
  {
    PlainPathParts(p);
    assert SplitRest(true, p).0 == p;
  }

  /** Text with nothing to strip or delete is already clean. */
  lemma SafeTextIsClean(url: string)
    requires url == [] || !IsC0ControlOrSpace(url[0])
    requires forall k :: 0 <= k < |url| ==> !IsUnsafe(url[k])
    ensures Clean(url) == url
  {
    RemoveUnsafeKeepsSafeText(url);
  }

  /** `RemoveUnsafe` leaves no tab, CR or LF behind. */
  lemma {:induction false} RemoveUnsafeIsSafe(s: string)
    ensures forall k :: 0 <= k < |RemoveUnsafe(s)| ==> !IsUnsafe(RemoveUnsafe(s)[k])
  {
    if s != [] {
      RemoveUnsafeIsSafe(s[1..]);
      var head := if IsUnsafe(s[0]) then [] else [s[0]];
      assert RemoveUnsafe(s) == head + RemoveUnsafe(s[1..]);
    }
  }

  /** The cleaned URL starts with no control character or space and holds no tab, CR or LF, so
      cleaning it again changes nothing. */
  lemma CleanIsIdempotent(url: string)
    ensures Clean(url) == [] || !IsC0ControlOrSpace(Clean(url)[0])
    ensures forall k :: 0 <= k < |Clean(url)| ==> !IsUnsafe(Clean(url)[k])
    ensures Clean(Clean(url)) == Clean(url)
  {
    var t := TrimStart(url, IsC0ControlOrSpace);
    RemoveUnsafeIsSafe(t);
    if t != [] {
      RemoveUnsafeKeepsFirst(t);
    }
    SafeTextIsClean(Clean(url));
  }

  /** The cut `_splitparams` makes in `p;params` when `p` has no ';' and `params` no '/'. */
  lemma ParamsSplitAt(p: string, params: string)
    requires ';' !in p && '/' !in params
    ensures SplitParams(p + ";" + params).0 == p
  {
    var url := p + ";" + params;
    assert url[|p|] == ';';
    assert url[..|p|] == p;
    if '/' in url {
      var j := RFind(url, '/');
      assert j < |p|;
      FindFromIsFirst(url, ';', j, |p|);
    } else {
      FindFromIsFirst(url, ';', 0, |p|);
    }
  }

  /** A clean reference without ':' that does not start with "//" is all path and what follows. */
  lemma NoSchemeNoAuthority(url: string)
    requires Clean(url) == url && ':' !in url && !StartsWith(url, "//")
    ensures PathOf(url) == Ok(SplitRest(true, url).0)
  {
    assert SplitScheme(url) == ("", url);
  }

  /** Without query or fragment, the path is what `_splitparams` leaves. */
  lemma SplitRestWithParams(url: string)
    requires '?' !in url && '#' !in url && ';' in url
    ensures SplitRest(true, url).0 == SplitParams(url).0
  {
  }

  /** Path characters and ';', not starting with a C0 control or space: nothing to clean. */
  lemma PathTextIsClean(u: string)
    requires u == [] || !IsC0ControlOrSpace(u[0])
    requires forall k :: 0 <= k < |u| ==> u[k] == ';' || IsPlainChar(u[k])
    ensures Clean(u) == u
  {
    SafeTextIsClean(u);
  }

  /** Path characters and ';': no scheme delimiter, query or fragment. */
  lemma PathTextHasNoDelimiters(u: string)
    requires forall k :: 0 <= k < |u| ==> u[k] == ';' || IsPlainChar(u[k])
    ensures ':' !in u && '?' !in u && '#' !in u
  {
  }

  /** The characters of `p;params`. */
  lemma ParamsUrlChars(p: string, params: string)
    requires PlainPath(p)
    requires forall k :: 0 <= k < |params| ==> params[k] != '/' && (params[k] == ';' || IsPlainChar(params[k]))
    ensures forall k :: 0 <= k < |p + ";" + params| ==> (p + ";" + params)[k] == ';' || IsPlainChar((p + ";" + params)[k])
    ensures !IsC0ControlOrSpace((p + ";" + params)[0])
    ensures !StartsWith(p + ";" + params, "//")
  {
    var url := p + ";" + params;
    forall k | 0 <= k < |url| ensures url[k] == ';' || IsPlainChar(url[k]) {
      if k > |p| { assert url[k] == params[k - |p| - 1]; }
    }
    assert !IsC0ControlOrSpace(url[0]) by {
      if p == [] { assert url[0] == ';'; }
    }
    assert !StartsWith(url, "//") by {
      if |p| >= 2 { assert url[..2] == p[..2]; }
      else { assert url[|p|] == ';'; }
    }
  }

  /** The `;params` of the last segment are not part of the path. */
  lemma ParamsAreDropped(p: string, params: string)
    requires PlainPath(p)
    requires forall k :: 0 <= k < |params| ==> params[k] != '/' && (params[k] == ';' || IsPlainChar(params[k]))
    ensures PathOf(p + ";" + params) == Ok(p)
  {
    var url := p + ";" + params;
    ParamsUrlChars(p, params);
    PathTextIsClean(url);
    PathTextHasNoDelimiters(url);
    NoSchemeNoAuthority(url);
    assert url[|p|] == ';';
    SplitRestWithParams(url);
    assert ';' !in p && '/' !in params;
    ParamsSplitAt(p, params);
  }

  /** `scheme:` is split off a well-formed scheme and lower-cased. */
  lemma SchemeIsSplitOff(scheme: string, afterScheme: string)
    requires scheme != [] && IsAsciiLetter(scheme[0])
    requires forall k :: 0 <= k < |scheme| ==> IsSchemeChar(scheme[k])
    ensures SplitScheme(scheme + ":" + afterScheme) == (AsciiLower(scheme), afterScheme)
  {
    var url := scheme + ":" + afterScheme;
    forall k | 0 <= k < |scheme| ensures url[k] == scheme[k] && url[k] != ':' { }
    FindFromIsFirst(url, ':', 0, |scheme|);
    assert url[..|scheme|] == scheme;
    assert url[|scheme| + 1..] == afterScheme;
  }

  /** `//host` is split off when the host holds no delimiter and the rest is empty or starts
      with '/'. */
  lemma HostIsSplitOff(host: string, p: string)
    requires forall k :: 0 <= k < |host| ==> !IsNetlocDelimiter(host[k])
    requires p == [] || p[0] == '/'
    ensures SplitNetloc("//" + host + p) == (host, p)
  {
    var url := "//" + host + p;
    assert url[..2] == "//";
    forall k | 2 <= k < 2 + |host| ensures url[k] == host[k - 2] { }
    if p != [] {
      assert url[2 + |host|] == '/';
    }
    assert NetlocEnd(url) == 2 + |host|;
    assert url[2..2 + |host|] == host;
    assert url[2 + |host|..] == p;
  }

  /** A reference that is empty or starts with a single '/' has no scheme and no authority. */
  lemma AbsolutePathParts(p: string)
    requires forall k :: 0 <= k < |p| ==> !IsUnsafe(p[k])
    requires p == [] || (p[0] == '/' && !StartsWith(p, "//"))
    ensures PathOf(p) == Ok(SplitRest(true, p).0)
  {
    SafeTextIsClean(p);
    assert SplitScheme(p) == ("", p);
    assert SplitNetloc(p) == ("", p);
  }

  /** `scheme://host/p` built from characters that cleaning keeps is clean. */
  lemma AuthorityUrlIsClean(scheme: string, host: string, p: string)
    requires scheme != [] && IsAsciiLetter(scheme[0])
    requires forall k :: 0 <= k < |scheme| ==> IsSchemeChar(scheme[k])
    requires forall k :: 0 <= k < |host| ==> !IsUnsafe(host[k])
    requires forall k :: 0 <= k < |p| ==> !IsUnsafe(p[k])
    ensures Clean(scheme + "://" + host + p) == scheme + "://" + host + p
  {
    var url := scheme + "://" + host + p;
    forall k | 0 <= k < |url| ensures !IsUnsafe(url[k]) {
      if k < |scheme| { assert url[k] == scheme[k]; }
      else if k < |scheme| + 3 { }
      else if k < |scheme| + 3 + |host| { assert url[k] == host[k - |scheme| - 3]; }
      else { assert url[k] == p[k - |scheme| - 3 - |host|]; }
    }
    assert url[0] == scheme[0];
    SafeTextIsClean(url);
  }

  /** The path of a clean URL, from its scheme split. */
  lemma PathOfCleanUrl(url: string, scheme: string, afterScheme: string)
    requires Clean(url) == url && SplitScheme(url) == (scheme, afterScheme)
    ensures PathOf(url) == PathPart(ParseAfterScheme(scheme, afterScheme))
  {
  }

  /** After a scheme that uses params, `//host/p` has the path `/p` would have on its own, unless
      the host has only one of '[' and ']'. */
  lemma AuthorityPath(scheme: string, host: string, p: string)
    requires scheme in UsesParams
    requires forall k :: 0 <= k < |host| ==> !IsNetlocDelimiter(host[k])
    requires p == [] || p[0] == '/'
    ensures PathPart(ParseAfterScheme(scheme, "//" + host + p))
         == if UnbalancedBrackets(host) then Err(InvalidIpv6Url) else Ok(SplitRest(true, p).0)
  {
    HostIsSplitOff(host, p);
  }

  /** Scheme and authority are not part of the path: `scheme://host/p` has the path of `/p`,
      unless the host has only one of '[' and ']', which raises. */
  lemma AuthorityIsDropped(scheme: string, host: string, p: string)
    requires scheme != [] && IsAsciiLetter(scheme[0])
    requires forall k :: 0 <= k < |scheme| ==> IsSchemeChar(scheme[k])
    requires AsciiLower(scheme) in UsesParams
    requires forall k :: 0 <= k < |host| ==> !IsNetlocDelimiter(host[k]) && !IsUnsafe(host[k])
    requires forall k :: 0 <= k < |p| ==> !IsUnsafe(p[k])
    requires p == [] || (p[0] == '/' && !StartsWith(p, "//"))
    ensures PathOf(scheme + "://" + host + p)
         == if UnbalancedBrackets(host) then Err(InvalidIpv6Url) else PathOf(p)
  {
    var afterScheme := "//" + host + p;
    var url := scheme + ":" + afterScheme;
    assert url == scheme + "://" + host + p;
    AuthorityUrlIsClean(scheme, host, p);
    SchemeIsSplitOff(scheme, afterScheme);
    PathOfCleanUrl(url, AsciiLower(scheme), afterScheme);
    AuthorityPath(AsciiLower(scheme), host, p);
    AbsolutePathParts(p);
  }

  /** `//host/p` built from characters that cleaning keeps is clean and has no scheme. */
  lemma SchemeRelativeUrlParts(host: string, p: string)
    requires forall k :: 0 <= k < |host| ==> !IsUnsafe(host[k])
    requires forall k :: 0 <= k < |p| ==> !IsUnsafe(p[k])
    ensures Clean("//" + host + p) == "//" + host + p
    ensures SplitScheme("//" + host + p) == ("", "//" + host + p)
  {
    var url := "//" + host + p;
    forall k | 0 <= k < |url| ensures !IsUnsafe(url[k]) {
      if k < 2 { }
      else if k < 2 + |host| { assert url[k] == host[k - 2]; }
      else { assert url[k] == p[k - 2 - |host|]; }
    }
    assert url[0] == '/';
    SafeTextIsClean(url);
  }

  /** A scheme-relative reference `//host/p` has the path of `/p`, unless the host has only one
      of '[' and ']', which raises; a ':port' in the host never reads as a scheme. */
  lemma SchemeRelativeAuthorityIsDropped(host: string, p: string)
    requires forall k :: 0 <= k < |host| ==> !IsNetlocDelimiter(host[k]) && !IsUnsafe(host[k])
    requires forall k :: 0 <= k < |p| ==> !IsUnsafe(p[k])
    requires p == [] || (p[0] == '/' && !StartsWith(p, "//"))
    ensures PathOf("//" + host + p)
         == if UnbalancedBrackets(host) then Err(InvalidIpv6Url) else PathOf(p)
  {
    SchemeRelativePath(host, p);
    SchemelessAuthorityPath(host, p);
  }

  /** The path of `//host/p` is the one found after an empty scheme. */
  lemma SchemeRelativePath(host: string, p: string)
    requires forall k :: 0 <= k < |host| ==> !IsUnsafe(host[k])
    requires forall k :: 0 <= k < |p| ==> !IsUnsafe(p[k])
    ensures PathOf("//" + host + p) == PathPart(ParseAfterScheme("", "//" + host + p))
  {
    var url := "//" + host + p;
    SchemeRelativeUrlParts(host, p);
    PathOfCleanUrl(url, "", url);
  }

  /** Without a scheme, `//host/p` has the path of `/p`, unless the host is unbalanced. */
  lemma SchemelessAuthorityPath(host: string, p: string)
    requires forall k :: 0 <= k < |host| ==> !IsNetlocDelimiter(host[k])
    requires forall k :: 0 <= k < |p| ==> !IsUnsafe(p[k])
    requires p == [] || (p[0] == '/' && !StartsWith(p, "//"))
    ensures PathPart(ParseAfterScheme("", "//" + host + p))
         == if UnbalancedBrackets(host) then Err(InvalidIpv6Url) else PathOf(p)
  {
    assert "" in UsesParams;
    AuthorityPath("", host, p);
    AbsolutePathParts(p);
  }
}
