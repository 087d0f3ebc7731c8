/** `crawl(start_url)` of the backend (backend-api.py): fetch the start page, then every HTML link
    among its anchors, one after the other; a failing start page ends the crawl, a failing link is
    skipped. */
module Crawler {
  import opened Wrappers
  import opened Links

  /** What fetching a URL yields once the page is parsed: its text (inscriptis `get_text`) and the
      `href` of each of its anchors, in document order. */
  datatype Page = Page(text: string, hrefs: seq<string>)

  /** `navigate_page` followed by text extraction; `None` where `navigate_page` raises ValueError. */
  type Fetcher = string -> Option<Page>

  /** The texts that the loop appends for `links`: one per link that fetches, in link order. */
  function FollowUps(links: seq<string>, fetch: Fetcher): (texts: seq<string>)
    ensures |texts| <= |links|
    ensures links != [] && fetch(links[|links| - 1]).Some? ==>
              texts != [] && texts[|texts| - 1] == fetch(links[|links| - 1]).value.text
  {
    if links == [] then []
    else
      var earlier := FollowUps(links[..|links| - 1], fetch);
      match fetch(links[|links| - 1])
      case None => earlier
      case Some(page) => earlier + [page.text]
  }

  /** How many of `links` fetch successfully. */
  function SuccessCount(links: seq<string>, fetch: Fetcher): (n: nat)
    ensures n <= |links|
  {
    if links == [] then 0
    else SuccessCount(links[..|links| - 1], fetch) + (if fetch(links[|links| - 1]).Some? then 1 else 0)
  }

  /** What `crawl(start_url)` returns; `Err` is the ValueError that `is_html_link` raises while the
      candidate list is built, which is outside the `try` blocks and leaves `crawl`. */
  function CrawlResult(startUrl: string, fetch: Fetcher): (r: Result<seq<string>, string>)
    ensures fetch(startUrl).None? ==> r == Ok([])
    ensures r.Err? <==> fetch(startUrl).Some? && Candidates(fetch(startUrl).value.hrefs).Err?
    ensures r.Ok? && fetch(startUrl).Some? ==>
              r.value != [] && r.value[0] == fetch(startUrl).value.text
              && |r.value| <= 1 + |Candidates(fetch(startUrl).value.hrefs).value|
  {
    match fetch(startUrl)
    case None => Ok([])
    case Some(root) =>
      match Candidates(root.hrefs)
      case Err(e) => Err(e)
      case Ok(links) => Ok([root.text] + FollowUps(links, fetch))
  }

  /** The URLs that `crawl(start_url)` asks `navigate_page` for, in order. */
  ghost function FetchLog(startUrl: string, fetch: Fetcher): (log: seq<string>)
    ensures log != [] && log[0] == startUrl
    ensures |log| > 1 ==> fetch(startUrl).Some? && Candidates(fetch(startUrl).value.hrefs).Ok?
                          && log[1..] == Candidates(fetch(startUrl).value.hrefs).value
    ensures fetch(startUrl).Some? && Candidates(fetch(startUrl).value.hrefs).Ok? ==>
              log[1..] == Candidates(fetch(startUrl).value.hrefs).value
  {
    match fetch(startUrl)
    case None => [startUrl]
    case Some(root) =>
      match Candidates(root.hrefs)
      case Err(_) => [startUrl]
      case Ok(links) => [startUrl] + links
  }

  /** The loop over the candidates: each one is fetched, and its text appended when the fetch succeeds.
      `attempted` records each call of `navigate_page`. */
  method FetchEach(links: seq<string>, fetch: Fetcher) returns (texts: seq<string>, ghost attempted: seq<string>)
    ensures texts == FollowUps(links, fetch)
    ensures attempted == links
  {
    texts := [];
    attempted := [];
    for i := 0 to |links|
      invariant texts == FollowUps(links[..i], fetch)
      invariant attempted == links[..i]
    {
      assert links[..i + 1][..i] == links[..i];
      var page := fetch(links[i]);
      attempted := attempted + [links[i]];
      if page.Some? {
        texts := texts + [page.value.text];
      }
    }
    assert links[..|links|] == links;
  }

  /** `crawl(start_url)`. */
  method Crawl(startUrl: string, fetch: Fetcher) returns (r: Result<seq<string>, string>, ghost attempted: seq<string>)
    ensures r == CrawlResult(startUrl, fetch)
    ensures attempted == FetchLog(startUrl, fetch)
  {
    attempted := [startUrl];
    var root := fetch(startUrl);
    if root.None? {
      return Ok([]), attempted;
    }
    var data := [root.value.text];
    var relevant := Candidates(root.value.hrefs);
    if relevant.Err? {
      return Err(relevant.error), attempted;
    }
    var texts, followed := FetchEach(relevant.value, fetch);
    data := data + texts;
    attempted := attempted + followed;
    return Ok(data), attempted;
  }

  // ---------------------------------------------------------------------------
  // What the loop keeps and what it drops.

  /** Fetching two runs of links one after the other gives the texts of the first, then those of the second. */
  lemma {:induction false} FollowUpsAppend(a: seq<string>, b: seq<string>, fetch: Fetcher)
    ensures FollowUps(a + b, fetch) == FollowUps(a, fetch) + FollowUps(b, fetch)
  {
    if b == [] {
      assert a + b == a;
    } else {
      var b' := b[..|b| - 1];
      assert (a + b)[..|a + b| - 1] == a + b';
      assert (a + b)[|a + b| - 1] == b[|b| - 1];
      FollowUpsAppend(a, b', fetch);
    }
  }

  /** A link whose fetch fails leaves no trace: the result is as if it had not been there. */
  lemma FailedLinkLeavesNoTrace(before: seq<string>, link: string, after: seq<string>, fetch: Fetcher)
    requires fetch(link).None?
    ensures FollowUps(before + [link] + after, fetch) == FollowUps(before + after, fetch)
  {
    FollowUpsAppend(before + [link], after, fetch);
    FollowUpsAppend(before, [link], fetch);
    FollowUpsAppend(before, after, fetch);
    assert ([link])[..0] == [];
  }

  /** When every link fetches, the texts are the links' texts, one each, in link order. */
  lemma {:induction false} FetchedLinksKeepOrder(links: seq<string>, fetch: Fetcher)
    requires forall k :: 0 <= k < |links| ==> fetch(links[k]).Some?
    ensures |FollowUps(links, fetch)| == |links|
    ensures forall k :: 0 <= k < |links| ==> FollowUps(links, fetch)[k] == fetch(links[k]).value.text
  {
    if links != [] {
      var init := links[..|links| - 1];
      FetchedLinksKeepOrder(init, fetch);
      assert forall k :: 0 <= k < |init| ==> init[k] == links[k];
    }
  }

  /** One text per successful fetch. */
  lemma {:induction false} OneTextPerSuccess(links: seq<string>, fetch: Fetcher)
    ensures |FollowUps(links, fetch)| == SuccessCount(links, fetch)
  {
    if links != [] {
      OneTextPerSuccess(links[..|links| - 1], fetch);
    }
  }

  /** The crawl's output: nothing when the start page fails; otherwise the start page's text
      followed by one text per candidate that fetches. */
  lemma CrawlLength(startUrl: string, fetch: Fetcher)
    requires CrawlResult(startUrl, fetch).Ok?
    ensures |CrawlResult(startUrl, fetch).value|
         == if fetch(startUrl).None? then 0
            else 1 + SuccessCount(Candidates(fetch(startUrl).value.hrefs).value, fetch)
  {
    if fetch(startUrl).Some? {
      OneTextPerSuccess(Candidates(fetch(startUrl).value.hrefs).value, fetch);
    }
  }
}
