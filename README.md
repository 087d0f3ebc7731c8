# Rufus: verified model of the crawler gate and the client SDK

Rufus is a web-scraping service with two parts. The backend (`backend-api.py`) serves a FastAPI
endpoint `/scrape`. It checks a bearer key, crawls a start page and the HTML pages it links to,
joins the page texts into one corpus and hands that corpus to a language-model chain. The client
SDK (`rufus.py`) calls that endpoint and saves the answer to a `.txt`, `.md` or `.json` file.

This project models, in Dafny, the parts of that code whose behaviour is fully visible:

- **Link selection** (`url_path.dfy`, `links.dfy`). `is_html_link` asks whether the path component of
  a link ends in `.html` or `.htm`. The path is computed as Python's `urllib.parse.urlparse`
  computes it, following CPython 3.12 apart from the bracketed-host and NFKC netloc checks:
  - leading C0 controls and spaces are stripped, and tab, CR and LF are deleted;
  - the scheme is split off and lower-cased, and the `//authority` is split off;
  - a netloc with only one of `[` and `]` raises `ValueError("Invalid IPv6 URL")`;
  - the fragment and the query are split off, and for the schemes in `uses_params` so are the
    `;params` of the last segment.

  The candidate list of `crawl` is the list comprehension over the start page's hrefs. The
  exception `is_html_link` can raise is modelled, because it escapes `crawl`.
- **The crawl** (`crawl.dfy`). Fetching and parsing a page is a parameter, `Fetcher`, which maps a
  URL to `None` (where `navigate_page` raises `ValueError`) or to the page's text and hrefs. The
  loop over the candidates is a method proved against a specification function. Ghost output
  records which URLs were fetched.
- **The endpoint's gate** (`service.dfy`). It covers the `Authorization` check (403), the crawl
  error and the empty crawl (both 400), and the `"\n"` join. The model stops where the
  language-model chain begins.
- **The client** (`client.dfy`, `json_text.dfy`). It covers the status check of `scrape` and the
  body `save_to_file` chooses from the file name's extension. For `.json` that body is the exact
  text `json.dump(..., ensure_ascii=False, indent=4)` writes, and it is proved to read back as the
  content.
- **Python string operations** (`strings.dfy`) the code relies on, each with its characterising
  properties: `find`, `rfind`, `endswith`, `strip`, `split`, `join`, `str(n)`.

`wrappers.dfy` holds `Option` and `Result`. A Python exception is an `Err` carrying its message.

## Model

| member | source | states |
|---|---|---|
| `UrlPath.CleanIsIdempotent` | backend-api.py:49 | The cleaned reference starts with no C0 control or space and holds no tab, CR or LF, so cleaning it again changes nothing. |
| `UrlPath.CleanAddsNothing` | backend-api.py:49 | Cleaning never introduces a character the reference did not hold. |
| `UrlPath.CleanOfAppended` | backend-api.py:49 | Cleaning a reference without '?' or '#' followed by a query or fragment cleans the two parts separately. The cleaned reference still holds no '?' or '#', and the delimiter survives. |
| `UrlPath.SplitScheme` | backend-api.py:49 | A scheme is split off if and only if the first ':' has a non-empty prefix that starts with an ASCII letter and holds only scheme characters. The scheme is then exactly that prefix, lower-cased, and the rest is the text after that ':'. Otherwise the text is unchanged. |
| `UrlPath.SplitNetloc` | backend-api.py:49 | Only text starting with "//" has an authority. The authority is delimiter-free, and what follows it is empty or starts at the first '/', '?' or '#'. "//" + netloc + rest gives back the text. |
| `UrlPath.SplitOnce` | backend-api.py:49 | Splitting at the first occurrence of a character gives back the text around it, and the first part does not contain that character. Without an occurrence, the whole text and "" are returned. |
| `UrlPath.SplitParams` | backend-api.py:49 | `;params` are cut at a ';' so that path + ";" + params gives back the text. Without a '/' the cut is at the first ';'. With a '/', the path ends at the first ';' after the last '/'. |
| `UrlPath.SplitRest` | backend-api.py:49 | After the authority, the path never contains '?' or '#'. |
| `UrlPath.SplitRestPath` | backend-api.py:49 | After the authority, the path is the text before the first '?' or '#'. For a scheme in `uses_params` that text is then cut at its `;params`; for any other scheme it is the path as it stands, `;params` included. |
| `UrlPath.ParseAfterScheme` | backend-api.py:49 | The parse fails if and only if the authority holds only one of '[' and ']', and then with "Invalid IPv6 URL". Otherwise it keeps the given scheme and that authority. |
| `UrlPath.UrlParse` | backend-api.py:49 | `urlparse` raises only "Invalid IPv6 URL", and the path it returns never contains '?' or '#'. |
| `UrlPath.UrlParseRaisesIff` | backend-api.py:49 | `urlparse` raises if and only if the authority of the cleaned reference, after its scheme, is unbalanced. Otherwise it returns that scheme and that authority. |
| `UrlPath.PathOf` | backend-api.py:49-50 | A path that is found never contains a query or fragment delimiter. |
| `UrlPath.PathIgnoresQueryAndFragment` | backend-api.py:49-50 | Appending a query or fragment to a reference without '?' or '#' leaves its path, or its error, unchanged. |
| `UrlPath.PlainPathIsKept` | backend-api.py:49-50 | A relative reference made only of path characters is its own path. |
| `UrlPath.ParamsAreDropped` | backend-api.py:49-50 | `p;params` has path `p`: the params of the last segment are not part of the path. |
| `UrlPath.AuthorityIsDropped` | backend-api.py:49-50 | For a scheme in `uses_params`, `scheme://host/p` has the path of `/p`. A host with only one of '[' and ']' raises "Invalid IPv6 URL" instead. |
| `UrlPath.SchemeRelativeAuthorityIsDropped` | backend-api.py:49-50 | `//host/p` has the path of `/p`. A host with only one of '[' and ']' raises "Invalid IPv6 URL" instead. |
| `Links.IsHtmlLink` | backend-api.py:48-50 | The test raises exactly when `urlparse` does, and only "Invalid IPv6 URL". Otherwise it is true if and only if the path ends in ".html" or ".htm". |
| `Links.HtmlLinkIgnoresQueryAndFragment` | backend-api.py:48-50 | A query or fragment never changes the `is_html_link` verdict. |
| `Links.HtmlLinkIgnoresAuthority` | backend-api.py:48-50 | For a scheme in `uses_params` and a balanced host, `scheme://host/p` is an HTML link exactly when `/p` is, so the host's own dots never count. |
| `Links.HtmlLinkIgnoresSchemeRelativeAuthority` | backend-api.py:48-50 | `//host/p` is an HTML link exactly when `/p` is. |
| `Links.PlainPathVerdict` | backend-api.py:48-50 | A plain relative path is an HTML link if and only if it ends in ".html" or ".htm". |
| `Links.QueryNeverDecides` | backend-api.py:48-50 | A plain path followed by a query or fragment is judged by the path alone. So `p.html?x=1#f` is kept and `p.php?f=a.html` is rejected. |
| `Links.ParamsNeverDecide` | backend-api.py:48-50 | `p;params` is judged by `p` alone. |
| `Links.Select` | backend-api.py:64-67 | The comprehension succeeds if and only if every href is classified without error. Every kept href passes the test, and no more hrefs come out than went in. On failure, the error is that of some href. |
| `Links.Candidates` | backend-api.py:64-67 | Every candidate passes `is_html_link`. The only error is "Invalid IPv6 URL". |
| `Links.SelectKeepsAcceptedInOrder` | backend-api.py:64-67 | The candidates are a subsequence of the hrefs. Each href that passes is kept exactly as often as it occurs, duplicates included, and every other href never. |
| `Crawler.FollowUps` | backend-api.py:69-76 | The loop appends at most one text per link. When the last link fetches, the last text is that link's text. |
| `Crawler.CrawlResult` | backend-api.py:52-77 | A failed start page gives []. Otherwise the result starts with the start page's text and has at most 1 + (number of candidates) elements. `crawl` raises exactly when building the candidates raises. |
| `Crawler.FetchLog` | backend-api.py:52-77 | The crawl always fetches the start URL first. It fetches more only when that page is found and the candidates are built. Then it fetches exactly the candidates, in order. |
| `Crawler.FetchEach` | backend-api.py:69-76 | The loop's texts are `FollowUps` of the candidates, and every candidate is fetched, in order. |
| `Crawler.Crawl` | backend-api.py:52-77 | The method returns `CrawlResult`. It fetches the start URL, then, only if that succeeds and the candidates are built, each candidate in order. |
| `Crawler.FollowUpsAppend` | backend-api.py:69-76 | The texts of two runs of links fetched one after the other are the first run's texts followed by the second's. |
| `Crawler.FailedLinkLeavesNoTrace` | backend-api.py:70-75 | A link whose fetch fails changes nothing: the result is as if it were absent. |
| `Crawler.FetchedLinksKeepOrder` | backend-api.py:69-73 | When every link fetches, the texts are exactly the links' texts, one each, in link order. |
| `Crawler.OneTextPerSuccess` | backend-api.py:69-76 | The loop appends as many texts as there are successful fetches. |
| `Crawler.CrawlLength` | backend-api.py:52-77 | The crawl returns 0 texts when the start page fails, and otherwise 1 + the number of candidates that fetch. |
| `Service.FetchFailed` | backend-api.py:92-93 | A crawl `ValueError` becomes a 400 whose detail ends with the error's message. |
| `Service.Authorized` | backend-api.py:81-82 | The header is accepted if and only if it is present, starts with "Bearer " and the rest is exactly the expected key. |
| `Service.Corpus` | backend-api.py:95 | No texts give the empty corpus. Otherwise the corpus starts with the first text. |
| `Service.ScrapeOutcome` | backend-api.py:80-95 | A wrong or missing key gives 403 "Invalid API key". A crawl `ValueError` gives the 400 `FetchFailed` of its message. An empty crawl, such as a failed start page, gives 400 "No content fetched from the URL". The endpoint succeeds if and only if the key matches and the crawl returns at least one text, and then the result is the corpus of exactly those texts. Every error is a 403 or a 400. |
| `Service.ScrapeWebsite` | backend-api.py:80-95 | The endpoint returns `ScrapeOutcome`. With a wrong key it fetches nothing; otherwise it fetches what the crawl fetches. |
| `Service.CorpusLength` | backend-api.py:95 | The corpus's length is the total length of the page texts plus one line break between each pair of neighbours. |
| `Service.CorpusLines` | backend-api.py:95 | Page texts without line breaks are recovered from the corpus by splitting it at line breaks. |
| `Service.CorpusIsStartPageThenLinks` | backend-api.py:52-95 | A successful corpus is the corpus of the start page's text followed by the texts of the candidate links that fetch, in order. |
| `Service.CorpusSplitsIntoPages` | backend-api.py:52-95 | When no page text holds a line break, a successful corpus splits at line breaks back into the start page's text followed by the texts of the candidate links that fetch. |
| `Strings.Strip` | rufus.py:25 | `strip()` is empty exactly when every character is whitespace in the sense of `str.isspace`. Otherwise it starts and ends with a non-whitespace character. |
| `Strings.Split` | rufus.py:29 | `split(c)` gives at least one part and no part holds `c`. There is exactly one part if and only if the text holds no `c`, and that part is then the whole text. |
| `Strings.JoinSplit` | rufus.py:29 | Joining the parts of `split(c)` with `c` gives back the text. |
| `Strings.SplitJoin` | backend-api.py:95 | Splitting at `c` the join with `c` of parts free of `c` gives back the parts. |
| `Strings.JoinLength` | backend-api.py:95 | A join is as long as its parts together plus one separator between each pair of neighbours. |
| `Strings.LastPart` | rufus.py:29 | `split(c)[-1]` holds no `c`, and it is the whole text when the text holds no `c`. |
| `Strings.LastPartIsTextAfterLastSeparator` | rufus.py:29 | `split(c)[-1]` is the longest `c`-free suffix: it follows the last `c`, or it is the whole text when there is no `c`. |
| `Strings.Decimal` | rufus.py:18 | `str(n)` is a non-empty run of digits with no leading zero. |
| `Strings.DecimalValueOfDecimal` | rufus.py:18 | The numeral written for a status code reads back as that code. |
| `JsonText.EscapeChar` | rufus.py:40 | Every character is rendered without raw control characters. A character is written as itself if and only if it is not a control character, a quote or a backslash. |
| `JsonText.Escape` | rufus.py:40 | The rendered string is at least as long as the string. |
| `JsonText.EscapedTextHasNoControlChars` | rufus.py:40 | The rendered string holds no raw control character. |
| `JsonText.ContentObject` | rufus.py:38-40 | The JSON body starts with the `{`, the four-space indent and the `"content"` key, and ends with the closing quote and `}` on its own line. |
| `JsonText.ReadEscaped` | rufus.py:40 | Reading an escaped string followed by text that starts with the closing quote gives back the string and stops right after that quote. |
| `JsonText.ContentObjectReadsBack` | rufus.py:38-40 | The `.json` body reads back as exactly the content. |
| `Client.StatusMessage` | rufus.py:18 | The exception message starts with "Error: " and ends with " - " followed by the detail. |
| `Client.ScrapeResponse` | rufus.py:17-21 | `scrape` returns if and only if the status is 200 and the body is JSON. It returns the `content` field, or `None` when that field is absent. A non-JSON body raises the decoding error. Any other status raises with the status and the detail, or "Unknown Error" without one. |
| `Client.Detail` | rufus.py:18 | The detail is the body's `detail` field when there is one, and "Unknown Error" otherwise. |
| `Client.StatusMessageDeterminesStatusAndDetail` | rufus.py:18 | Two exception messages are equal only for the same status and detail. |
| `Client.ScrapeResult` | rufus.py:15-21 | An exception from `requests.post` leaves `scrape` as it is. A response is handled by `ScrapeResponse`. `scrape` returns only for a 200 response. |
| `Client.RufusClient.constructor` | rufus.py:5-7 | The client keeps the given key and server address. |
| `Client.RufusClient.WithDefaultServer` | rufus.py:5-7 | Without an address the client talks to http://127.0.0.1:8000. |
| `Client.RufusClient.ScrapeCall` | rufus.py:10-15 | The request goes to base URL + "/scrape", with header "Bearer " + key and the url and instructions as payload. |
| `Client.RufusClient.Scrape` | rufus.py:9-21 | The method returns `ScrapeResult` of what `post` gives for `ScrapeCall`: the transport exception, or the handled response. |
| `Client.ClientPassesGateIffKeyMatches` | rufus.py:10 | The backend's key check accepts the header string the client builds if and only if the client was created with "12345678". |
| `Client.Extension` | rufus.py:29 | The extension is a dot-free suffix of the file name, and it is the whole name when there is no dot. |
| `Client.ExtensionFollowsLastDot` | rufus.py:29 | `stem.ext` has extension `ext`, whatever dots the stem holds. |
| `Client.FileBody` | rufus.py:31-42 | A body exists exactly for "txt", "md" and "json". The txt and md bodies end with the content, and the json body reads back as the content. |
| `Client.SaveDecision` | rufus.py:23-45 | `None` content raises, and only `None`. Blank content writes nothing, and only blank content reports that. A saved file is `filename` with the body its extension selects. Any other extension is reported as the caught "Unsupported file format" failure, not raised. |
| `Client.SavedBodyByExtension` | rufus.py:29-42 | For non-blank content saved as `stem.ext`: txt is the content verbatim, md is "# Scraped Content\n\n" + content, json is the indented object. Any other extension is the "Unsupported file format" failure. |
| `Client.RufusClient.SaveToFile` | rufus.py:23-45 | The method reports `SaveDecision`. When it saves, it writes that body to `filename`, and it changes no other file. |

## Left out

- Network I/O. `fetch_content` and `navigate_page`'s exception mapping (backend-api.py:29-46) become the `Fetcher` parameter. Because it is a function, fetching the same URL twice gives the same answer in the model. On the client side `requests.post` (rufus.py:15) becomes the `Poster` parameter. It returns a response or the message of the exception it raises, and `scrape` passes that exception on as `TransportError`; the exception's class is not modelled.
- HTML parsing and text extraction. BeautifulSoup's `find_all('a', href=True)` and inscriptis `get_text` are foreign libraries; a fetched `Page` carries the text and the hrefs as given.
- The language-model chain (backend-api.py:97-128). This covers the vector store, the retriever, the prompt, the Gemini call, its 500 error and the final `{"content": out}` response. It is foreign code and floating-point similarity; the model ends at the corpus.
- FastAPI and Pydantic plumbing. Routing, request-body validation, rendering an `HTTPException` as a JSON `detail`, logging and environment setup are framework code. The header is an `Option<string>`, with `None` when absent.
- `urlsplit` checks not modelled. The ipaddress check of bracketed hosts and the NFKC check of the netloc can raise further `ValueError`s that the model does not raise. Bytes URLs are not modelled either.
- Lone surrogates. Dafny strings hold Unicode scalar values, so Python strings with lone surrogates cannot be expressed. The JSON reader rejects `\u` escapes of surrogates instead of pairing them; the encoder never writes such escapes.
- Response bodies. They are JSON objects with string values. A non-object body, where `.get` raises `AttributeError`, and non-string values of `detail` or `content` are not modelled.
- File I/O. An `open` that fails (its `OSError` is caught and printed in rufus.py:44-45) is not modelled: `SaveToFile` always writes. The UTF-8 encoding of the written text and the `print` output are also left out. The returned `SaveReport` stands for what is printed.
- Client.ClientPassesGateIffKeyMatches: the header is assumed to reach `scrape_website` exactly as the client builds it. An HTTP/1.1 server drops whitespace at the end of a header value (RFC 9110, section 5.5), so a client created with "12345678 " is accepted by the running server although the lemma's "only if" half rejects its header.
- test.py, a script that calls a live server.
