/** Link selection of the static crawler (backend-api.py): `is_html_link` and the candidate
    list that `crawl` builds from the anchors of the start page. */
module Links {
  import opened Wrappers
  import opened Strings
  import opened UrlPath

  predicate HasHtmlExtension(path: string)
  {
    EndsWith(path, ".html") || EndsWith(path, ".htm")
  }

  /** `is_html_link(link)`; the ValueError `urlparse` raises propagates as `Err`. */
  function IsHtmlLink(link: string): (r: Result<bool, string>)
    ensures r.Err? <==> PathOf(link).Err?
    ensures r.Err? ==> r.error == InvalidIpv6Url
    ensures r.Ok? ==> (r.value <==> EndsWith(PathOf(link).value, ".html") || EndsWith(PathOf(link).value, ".htm"))
  {
    match PathOf(link)
    case Err(e) => Err(e)
    case Ok(path) => Ok(HasHtmlExtension(path))
  }

  /** The verdict is decided by the path alone: a query or a fragment never changes it. */
  lemma HtmlLinkIgnoresQueryAndFragment(link: string, suffix: string)
    requires '?' !in link && '#' !in link
    requires suffix != [] && (suffix[0] == '?' || suffix[0] == '#')
    ensures IsHtmlLink(link + suffix) == IsHtmlLink(link)
  {
    PathIgnoresQueryAndFragment(link, suffix);
  }

  /** Scheme and host never make a link an HTML link: `scheme://host/p` is judged as `/p`. */
  lemma HtmlLinkIgnoresAuthority(scheme: string, host: string, p: string)
    requires scheme != [] && IsAsciiLetter(scheme[0])
    requires forall k :: 0 <= k < |scheme| ==> IsSchemeChar(scheme[k])
    requires AsciiLower(scheme) in UsesParams
    requires forall k :: 0 <= k < |host| ==> !IsNetlocDelimiter(host[k]) && !IsUnsafe(host[k])
    requires !UnbalancedBrackets(host)
    requires forall k :: 0 <= k < |p| ==> !IsUnsafe(p[k])
    requires p == [] || (p[0] == '/' && !StartsWith(p, "//"))
    ensures IsHtmlLink(scheme + "://" + host + p) == IsHtmlLink(p)
  {
    AuthorityIsDropped(scheme, host, p);
  }

  /** A scheme-relative link `//host/p` is judged as `/p`, whatever the host (a port included). */
  lemma HtmlLinkIgnoresSchemeRelativeAuthority(host: string, p: string)
    requires forall k :: 0 <= k < |host| ==> !IsNetlocDelimiter(host[k]) && !IsUnsafe(host[k])
    requires !UnbalancedBrackets(host)
    requires forall k :: 0 <= k < |p| ==> !IsUnsafe(p[k])
    requires p == [] || (p[0] == '/' && !StartsWith(p, "//"))
    ensures IsHtmlLink("//" + host + p) == IsHtmlLink(p)
  {
    SchemeRelativeAuthorityIsDropped(host, p);
  }

  /** A plain relative path is an HTML link exactly when it ends in ".html" or ".htm". */
  lemma PlainPathVerdict(p: string)
    requires PlainPath(p)
    ensures IsHtmlLink(p) == Ok(HasHtmlExtension(p))
  {
    PlainPathIsKept(p);
  }

  /** After a plain relative path, a query or a fragment is never part of the verdict:
      `p.html?x=1#f` is an HTML link and `p.php?f=a.html` is not. */
  lemma QueryNeverDecides(p: string, suffix: string)
    requires PlainPath(p)
    requires suffix != [] && (suffix[0] == '?' || suffix[0] == '#')
    ensures IsHtmlLink(p + suffix) == Ok(HasHtmlExtension(p))
  {
    assert '?' !in p && '#' !in p by {
      forall k | 0 <= k < |p| ensures p[k] != '?' && p[k] != '#' {
        assert IsPlainChar(p[k]);
      }
    }
    HtmlLinkIgnoresQueryAndFragment(p, suffix);
    PlainPathVerdict(p);
  }

  /** `;params` after the last segment are split off before the test: `/a.html;x=1` is an HTML link. */
  lemma ParamsNeverDecide(p: string, params: string)
    requires PlainPath(p)
    requires forall k :: 0 <= k < |params| ==> params[k] != '/' && (params[k] == ';' || IsPlainChar(params[k]))
    ensures IsHtmlLink(p + ";" + params) == Ok(HasHtmlExtension(p))
  {
    ParamsAreDropped(p, params);
    PlainPathVerdict(p);
  }

  // ---------------------------------------------------------------------------
  // The candidate list.

  /** `[h for h in hrefs if keep(h)]` where `keep` may raise: the first error aborts it. */
  function Select(hrefs: seq<string>, keep: string -> Result<bool, string>): (r: Result<seq<string>, string>)
    ensures r.Ok? <==> forall k :: 0 <= k < |hrefs| ==> keep(hrefs[k]).Ok?
    ensures r.Ok? ==> forall k :: 0 <= k < |r.value| ==> keep(r.value[k]) == Ok(true)
    ensures r.Ok? ==> |r.value| <= |hrefs|
    ensures r.Err? ==> exists k :: 0 <= k < |hrefs| && keep(hrefs[k]) == Err(r.error)
  {
    if hrefs == [] then Ok([])
    else
      match keep(hrefs[0])
      case Err(e) => Err(e)
      case Ok(kept) =>
        match Select(hrefs[1..], keep)
        case Err(e) =>
          var k :| 0 <= k < |hrefs[1..]| && keep(hrefs[1..][k]) == Err(e);
          assert keep(hrefs[k + 1]) == Err(e);
          Err(e)
        case Ok(rest) =>
          assert forall k :: 1 <= k < |hrefs| ==> hrefs[k] == hrefs[1..][k - 1];
          Ok(if kept then [hrefs[0]] + rest else rest)
  }

  /** The comprehension of `crawl`: the hrefs of the start page that are HTML links. */
  function Candidates(hrefs: seq<string>): (r: Result<seq<string>, string>)
    ensures r.Ok? ==> forall k :: 0 <= k < |r.value| ==> IsHtmlLink(r.value[k]) == Ok(true)
    ensures r.Err? ==> r.error == InvalidIpv6Url
  {
    Select(hrefs, IsHtmlLink)
  }

  /** `a` is `b` with some elements left out, the rest kept in order. */
  predicate IsSubsequence(a: seq<string>, b: seq<string>)
    decreases |b|
  {
    a == [] || (b != [] && ((a[0] == b[0] && IsSubsequence(a[1..], b[1..])) || IsSubsequence(a, b[1..])))
  }

  /** The selection keeps document order, and keeps each accepted href as often as it occurs
      (duplicates included), every other href never. */
  lemma {:induction false} SelectKeepsAcceptedInOrder(hrefs: seq<string>, keep: string -> Result<bool, string>)
    requires Select(hrefs, keep).Ok?
    ensures IsSubsequence(Select(hrefs, keep).value, hrefs)
    ensures forall x :: multiset(Select(hrefs, keep).value)[x]
                        == if keep(x) == Ok(true) then multiset(hrefs)[x] else 0
  {
    if hrefs != [] {
      var rest := Select(hrefs[1..], keep).value;
      SelectKeepsAcceptedInOrder(hrefs[1..], keep);
      assert hrefs == [hrefs[0]] + hrefs[1..];
      assert multiset(hrefs) == multiset{hrefs[0]} + multiset(hrefs[1..]);
      if keep(hrefs[0]) == Ok(true) {
        assert Select(hrefs, keep).value == [hrefs[0]] + rest;
        assert ([hrefs[0]] + rest)[1..] == rest;
        assert multiset([hrefs[0]] + rest) == multiset{hrefs[0]} + multiset(rest);
      } else {
        assert Select(hrefs, keep).value == rest;
      }
    }
  }
}
