/** The `/scrape` endpoint of the backend (`scrape_website`, backend-api.py) up to the point where the
    joined page texts are handed to the language-model chain: the API-key gate, the crawl, the
    "no content" check and the corpus. */
module Service {
  import opened Wrappers
  import opened Strings
  import opened Links
  import opened Crawler

  /** The key the endpoint accepts. */
  const ExpectedApiKey: string := "12345678"

  /** The body of a `/scrape` request. */
  datatype ScrapeRequest = ScrapeRequest(url: string, instructions: string)

  /** An `HTTPException`: the status code and the `detail` the response carries. */
  datatype HttpError = HttpError(status: nat, detail: string)

  const InvalidApiKey: HttpError := HttpError(403, "Invalid API key")
  const NoContent: HttpError := HttpError(400, "No content fetched from the URL")

  /** The ValueError raised by the crawl, as the endpoint reports it. */
  function FetchFailed(reason: string): (e: HttpError)
    ensures e.status == 400 && EndsWith(e.detail, reason)
  {
    HttpError(400, "Error fetching URL: " + reason)
  }

  /** The `Authorization` header (absent: `None`) is accepted only when it is exactly "Bearer " and the key. */
  predicate Authorized(authorization: Option<string>)
    ensures Authorized(authorization) <==>
              authorization.Some? && StartsWith(authorization.value, "Bearer ")
              && authorization.value[7..] == ExpectedApiKey
  {
    match authorization
    case None => false
    case Some(header) =>
      assert |header| >= 7 ==> header == header[..7] + header[7..];
      header == "Bearer " + ExpectedApiKey
  }

  /** The text handed to the language-model chain: the page texts, one per line. */
  function Corpus(texts: seq<string>): (corpus: string)
    ensures texts == [] ==> corpus == ""
    ensures texts != [] ==> StartsWith(corpus, texts[0])
  {
    if texts == [] then ""
    else
      JoinStartsWithFirst(texts, "\n");
      Join(texts, "\n")
  }

  /** What the endpoint does before the language-model chain: the corpus, or the HTTP error it raises. */
  function ScrapeOutcome(request: ScrapeRequest, authorization: Option<string>, fetch: Fetcher): (r: Result<string, HttpError>)
    ensures !Authorized(authorization) ==> r == Err(InvalidApiKey)
    ensures Authorized(authorization) && fetch(request.url).None? ==> r == Err(NoContent)
    ensures r.Ok? ==> Authorized(authorization) && fetch(request.url).Some?
                      && StartsWith(r.value, fetch(request.url).value.text)
    ensures r.Err? ==> r.error.status == 403 || r.error.status == 400
    ensures r.Ok? <==> Authorized(authorization) && CrawlResult(request.url, fetch).Ok?
                       && CrawlResult(request.url, fetch).value != []
    ensures Authorized(authorization) && CrawlResult(request.url, fetch).Err? ==>
              r == Err(FetchFailed(CrawlResult(request.url, fetch).error))
    ensures r.Ok? ==> r.value == Corpus(CrawlResult(request.url, fetch).value)
  {
    if !Authorized(authorization) then Err(InvalidApiKey)
    else
      match CrawlResult(request.url, fetch)
      case Err(reason) => Err(FetchFailed(reason))
      case Ok(texts) =>
        if texts == [] then Err(NoContent)
        else Ok(Corpus(texts))
  }

  /** `scrape_website` up to the corpus. `attempted` records each call of `navigate_page`: none at all
      when the key is wrong. */
  method ScrapeWebsite(request: ScrapeRequest, authorization: Option<string>, fetch: Fetcher)
    returns (r: Result<string, HttpError>, ghost attempted: seq<string>)
    ensures r == ScrapeOutcome(request, authorization, fetch)
    ensures attempted == if Authorized(authorization) then FetchLog(request.url, fetch) else []
  {
    if authorization != Some("Bearer " + ExpectedApiKey) {
      return Err(InvalidApiKey), [];
    }
    var response;
    response, attempted := Crawl(request.url, fetch);
    if response.Err? {
      return Err(FetchFailed(response.error)), attempted;
    }
    if response.value == [] {
      return Err(NoContent), attempted;
    }
    return Ok(Corpus(response.value)), attempted;
  }

  // ---------------------------------------------------------------------------
  // The corpus.

  /** The corpus is as long as the texts plus one line break between neighbours. */
  lemma CorpusLength(texts: seq<string>)
    requires texts != []
    ensures |Corpus(texts)| == TotalLength(texts) + |texts| - 1
  {
    JoinLength(texts, "\n");
  }

  /** Page texts without line breaks can be recovered from the corpus by splitting it into lines. */
  lemma CorpusLines(texts: seq<string>)
    requires texts != []
    requires forall k :: 0 <= k < |texts| ==> '\n' !in texts[k]
    ensures Split(Corpus(texts), '\n') == texts
  {
    SplitJoin(texts, '\n');
  }

  /** A successful request's corpus is the start page's text followed by the texts of the candidate
      links that fetch, in link order, one per line. */
  lemma CorpusIsStartPageThenLinks(request: ScrapeRequest, authorization: Option<string>, fetch: Fetcher)
    requires ScrapeOutcome(request, authorization, fetch).Ok?
    ensures fetch(request.url).Some? && Candidates(fetch(request.url).value.hrefs).Ok?
    ensures ScrapeOutcome(request, authorization, fetch).value
         == Corpus([fetch(request.url).value.text] + FollowUps(Candidates(fetch(request.url).value.hrefs).value, fetch))
  {
  }

  /** When no page text holds a line break, the corpus splits back into those texts. */
  lemma CorpusSplitsIntoPages(request: ScrapeRequest, authorization: Option<string>, fetch: Fetcher)
    requires ScrapeOutcome(request, authorization, fetch).Ok?
    requires forall k :: 0 <= k < |CrawlResult(request.url, fetch).value| ==> '\n' !in CrawlResult(request.url, fetch).value[k]
    ensures Split(ScrapeOutcome(request, authorization, fetch).value, '\n')
         == [fetch(request.url).value.text] + FollowUps(Candidates(fetch(request.url).value.hrefs).value, fetch)
  {
    CorpusIsStartPageThenLinks(request, authorization, fetch);
    CorpusLines(CrawlResult(request.url, fetch).value);
  }
}
