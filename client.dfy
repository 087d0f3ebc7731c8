/** The client SDK (`RufusClient`, rufus.py): the call to `/scrape` with its status check, and
    `save_to_file`, which picks the file body from the file name's extension. */
module Client {
  import opened Wrappers
  import opened Strings
  import opened JsonText
  import Service

  const DefaultBaseUrl: string := "http://127.0.0.1:8000"

  /** What `requests.post` sends: the endpoint, the `Authorization` header and the JSON payload. */
  datatype HttpRequest = HttpRequest(url: string, authorization: string, payload: Service.ScrapeRequest)

  /** What comes back: the status code and the body, when it parses as a JSON object whose values
      are strings (`None` when `response.json()` raises). */
  datatype HttpResponse = HttpResponse(status: nat, json: Option<map<string, string>>)

  /** The server behind `requests.post`; `Err` is the `RequestException` it raises when no response
      arrives (connection refused, timeout), with its message. */
  type Poster = HttpRequest -> Result<HttpResponse, string>

  /** The exceptions `scrape` lets out: the `RequestException` of `requests.post`, the one it raises
      for a status other than 200, and the decoding error of `response.json()`. */
  datatype ScrapeError = TransportError(reason: string) | StatusError(message: string) | BodyNotJson

  /** The message of the exception raised for a status other than 200. */
  function StatusMessage(status: nat, detail: string): (m: string)
    ensures StartsWith(m, "Error: ") && EndsWith(m, " - " + detail)
  {
    "Error: " + Decimal(status) + " - " + detail
  }

  /** `response.json().get('detail', 'Unknown Error')` */
  function Detail(body: map<string, string>): (detail: string)
    ensures "detail" in body ==> detail == body["detail"]
    ensures "detail" !in body ==> detail == "Unknown Error"
  {
    if "detail" in body then body["detail"] else "Unknown Error"
  }

  /** How `scrape` turns a response into its result: the `content` field (`None` when absent) of a
      200 response, or an exception. */
  function ScrapeResponse(response: HttpResponse): (r: Result<Option<string>, ScrapeError>)
    ensures r.Ok? <==> response.status == 200 && response.json.Some?
    ensures r.Ok? ==> r.value.Some? == ("content" in response.json.value)
    ensures r.Ok? && r.value.Some? ==> r.value.value == response.json.value["content"]
    ensures response.json.None? ==> r == Err(BodyNotJson)
    ensures response.status != 200 && response.json.Some? ==>
              r == Err(StatusError(StatusMessage(response.status, Detail(response.json.value))))
  {
    match response.json
    case None => Err(BodyNotJson)
    case Some(body) =>
      if response.status != 200 then
        Err(StatusError(StatusMessage(response.status, Detail(body))))
      else
        Ok(if "content" in body then Some(body["content"]) else None)
  }

  /** What `save_to_file` reports (prints): nothing written for blank content, the file and body
      written, or the caught failure. */
  datatype SaveReport = EmptyContent | Saved(path: string, body: string) | SaveFailed(path: string, reason: string)

  const MarkdownHeading: string := "# Scraped Content\n\n"
  const UnsupportedFormat: string := "Unsupported file format. Please use .txt, .md, or .json."

  /** The AttributeError that `content.strip()` raises on `None`, before the `try`. */
  const NoneContent: string := "'NoneType' object has no attribute 'strip'"

  /** `filename.split('.')[-1]` */
  function Extension(filename: string): (ext: string)
    ensures '.' !in ext && EndsWith(filename, ext)
    ensures '.' !in filename ==> ext == filename
  {
    LastPartIsTextAfterLastSeparator(filename, '.');
    LastPart(filename, '.')
  }

  /** The body written for an extension; `None` for the extensions `save_to_file` rejects. */
  function FileBody(ext: string, content: string): (body: Option<string>)
    ensures body.Some? <==> ext == "txt" || ext == "md" || ext == "json"
    ensures ext == "txt" || ext == "md" ==> EndsWith(body.value, content)
    ensures ext == "json" ==> ReadContentObject(body.value) == Some(content)
  {
    if ext == "txt" then Some(content)
    else if ext == "md" then Some(MarkdownHeading + content)
    else if ext == "json" then
      ContentObjectReadsBack(content);
      Some(ContentObject(content))
    else None
  }

  /** What `scrape` does with what `requests.post` gives it: its exception passes through, and a
      response is handled by `ScrapeResponse`. */
  function ScrapeResult(answer: Result<HttpResponse, string>): (r: Result<Option<string>, ScrapeError>)
    ensures answer.Err? ==> r == Err(TransportError(answer.error))
    ensures answer.Ok? ==> r == ScrapeResponse(answer.value)
    ensures r.Ok? ==> answer.Ok? && answer.value.status == 200
  {
    match answer
    case Err(reason) => Err(TransportError(reason))
    case Ok(response) => ScrapeResponse(response)
  }

  /** What `save_to_file(content, filename)` does; `Err` is the exception that leaves it. */
  function SaveDecision(content: Option<string>, filename: string): (r: Result<SaveReport, string>)
    ensures r.Err? <==> content.None?
    ensures content.Some? && Blank(content.value) ==> r == Ok(EmptyContent)
    ensures r.Ok? && r.value.EmptyContent? ==> Blank(content.value)
    ensures r.Ok? && r.value.Saved? ==>
              r.value.path == filename && FileBody(Extension(filename), content.value) == Some(r.value.body)
    ensures r.Ok? && r.value.SaveFailed? ==>
              r.value.path == filename && FileBody(Extension(filename), content.value).None?
              && r.value.reason == UnsupportedFormat
  {
    match content
    case None => Err(NoneContent)
    case Some(text) =>
      if Strip(text) == [] then Ok(EmptyContent)
      else
        match FileBody(Extension(filename), text)
        case Some(body) => Ok(Saved(filename, body))
        case None => Ok(SaveFailed(filename, UnsupportedFormat))
  }

  /** The files on disk, by path. */
  class FileStore {
    var files: map<string, string>

    constructor ()
      ensures files == map[]
    {
      files := map[];
    }
  }

  class RufusClient {
    const apiKey: string
    const baseUrl: string

    constructor (apiKey: string, baseUrl: string)
      ensures this.apiKey == apiKey && this.baseUrl == baseUrl
    {
      this.apiKey := apiKey;
      this.baseUrl := baseUrl;
    }

    /** `RufusClient(api_key)`, with the default server address. */
    constructor WithDefaultServer(apiKey: string)
      ensures this.apiKey == apiKey && this.baseUrl == DefaultBaseUrl
    {
      this.apiKey := apiKey;
      this.baseUrl := DefaultBaseUrl;
    }

    /** The request `scrape(url, instructions)` posts. */
    function ScrapeCall(url: string, instructions: string): (request: HttpRequest)
      ensures request.url == baseUrl + "/scrape"
      ensures request.authorization == "Bearer " + apiKey
      ensures request.payload == Service.ScrapeRequest(url, instructions)
    {
      HttpRequest(baseUrl + "/scrape", "Bearer " + apiKey, Service.ScrapeRequest(url, instructions))
    }

    /** `scrape(url, instructions)`, with `post` in place of the network. */
    method Scrape(url: string, instructions: string, post: Poster) returns (r: Result<Option<string>, ScrapeError>)
      ensures r == ScrapeResult(post(ScrapeCall(url, instructions)))
    {
      var answer := post(HttpRequest(baseUrl + "/scrape", "Bearer " + apiKey, Service.ScrapeRequest(url, instructions)));
      if answer.Err? {
        return Err(TransportError(answer.error));
      }
      var response := answer.value;
      match response.json
      case None =>
        return Err(BodyNotJson);
      case Some(body) =>
        if response.status != 200 {
          return Err(StatusError(StatusMessage(response.status, Detail(body))));
        }
        return Ok(if "content" in body then Some(body["content"]) else None);
    }

    /** `save_to_file(content, filename)`: writes the chosen body to `filename` and nothing else. */
    method SaveToFile(content: Option<string>, filename: string, store: FileStore) returns (r: Result<SaveReport, string>)
      modifies store
      ensures r == SaveDecision(content, filename)
      ensures r.Ok? && r.value.Saved? ==> store.files == old(store.files)[filename := r.value.body]
      ensures !(r.Ok? && r.value.Saved?) ==> store.files == old(store.files)
    {
      if content.None? {
        return Err(NoneContent);
      }
      var text := content.value;
      if Strip(text) == [] {
        return Ok(EmptyContent);
      }
      var body := FileBody(Extension(filename), text);
      if body.None? {
        return Ok(SaveFailed(filename, UnsupportedFormat));
      }
      store.files := store.files[filename := body.value];
      return Ok(Saved(filename, body.value));
    }
  }

  // ---------------------------------------------------------------------------
  // Properties of the client.

  /** Where the numeral and the detail sit in a message: the numeral runs from index 7 up to the
      first space after it, and the detail follows the " - " after that space. */
  lemma StatusMessageParts(status: nat, detail: string)
    ensures |Decimal(status)| + 10 <= |StatusMessage(status, detail)|
    ensures FindFrom(StatusMessage(status, detail), ' ', 7) == 7 + |Decimal(status)|
    ensures StatusMessage(status, detail)[7..7 + |Decimal(status)|] == Decimal(status)
    ensures StatusMessage(status, detail)[7 + |Decimal(status)| + 3..] == detail
  {
    var m, n := StatusMessage(status, detail), Decimal(status);
    assert m == "Error: " + n + " - " + detail;
    assert m[7 + |n|] == ' ';
    forall k | 7 <= k < 7 + |n| ensures m[k] != ' ' {
      assert m[k] == n[k - 7];
      assert IsDigit(n[k - 7]);
    }
    FindFromIsFirst(m, ' ', 7, 7 + |n|);
  }

  /** The exception message names the status and the detail unambiguously: two messages are equal
      only for the same status and detail. */
  lemma StatusMessageDeterminesStatusAndDetail(s1: nat, d1: string, s2: nat, d2: string)
    requires StatusMessage(s1, d1) == StatusMessage(s2, d2)
    ensures s1 == s2 && d1 == d2
  {
    StatusMessageParts(s1, d1);
    StatusMessageParts(s2, d2);
    assert |Decimal(s1)| == |Decimal(s2)|;
    assert Decimal(s1) == Decimal(s2);
    DecimalInjective(s1, s2);
  }

  /** A client passes the backend's key check exactly when it was created with the expected key. */
  lemma ClientPassesGateIffKeyMatches(client: RufusClient, url: string, instructions: string)
    ensures Service.Authorized(Some(client.ScrapeCall(url, instructions).authorization))
            <==> client.apiKey == Service.ExpectedApiKey
  {
    var header := client.ScrapeCall(url, instructions).authorization;
    assert header[7..] == client.apiKey;
    assert ("Bearer " + Service.ExpectedApiKey)[7..] == Service.ExpectedApiKey;
  }

  /** A file name `stem.ext` has extension `ext` whatever dots the stem holds. */
  lemma ExtensionFollowsLastDot(stem: string, ext: string)
    requires '.' !in ext
    ensures Extension(stem + "." + ext) == ext
  {
    LastPartAfterLastSeparator(stem, ext, '.');
  }

  /** Non-blank content saved as `stem.ext`: the body `ext` selects, or the caught "Unsupported file
      format" failure. */
  lemma SavedBodyByExtension(stem: string, ext: string, content: string)
    requires '.' !in ext
    requires !Blank(content)
    ensures SaveDecision(Some(content), stem + "." + ext)
         == Ok(if ext == "txt" then Saved(stem + "." + ext, content)
               else if ext == "md" then Saved(stem + "." + ext, MarkdownHeading + content)
               else if ext == "json" then Saved(stem + "." + ext, ContentObject(content))
               else SaveFailed(stem + "." + ext, UnsupportedFormat))
  {
    ExtensionFollowsLastDot(stem, ext);
  }
}
