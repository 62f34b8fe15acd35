/**
 * `scrape(url)` in web-scraper/services/scrapingService.js: fetch the page,
 * turn error statuses and network failures into the service's own error
 * messages, extract the page's data and compute its statistics.
 *
 * The network is a parameter: `HttpOutcome` is what the server (or the
 * transport) answered, and the model decides what `axios.get` and the
 * service make of it. The time stamp `new Date().toISOString()` is a
 * parameter too.
 */
module Scraping {
  import opened Wrappers
  import opened Text
  import opened Document
  import opened Urls
  import opened Extraction
  import opened Links

  // ---------------------------------------------------------------------
  // countWords
  // ---------------------------------------------------------------------

  /** `paragraphs.reduce((count, p) => count + p.split(/\s+/).length, 0)`. */
  function CountWords(ps: seq<string>): (n: nat)
    ensures ps == [] ==> n == 0
    ensures n >= |ps|
  {
    if ps == [] then 0 else CountWords(ps[..|ps| - 1]) + SplitOnSpacesCount(ps[|ps| - 1])
  }

  /** The number of words (maximal runs of non-whitespace) in all the
      paragraphs. */
  function WordTotal(ps: seq<string>): nat {
    if ps == [] then 0 else WordTotal(ps[..|ps| - 1]) + WordRuns(ps[|ps| - 1])
  }

  /** On non-empty trimmed paragraphs, `countWords` counts exactly their
      words. */
  lemma {:induction false} CountWordsCountsWords(ps: seq<string>)
    requires forall p :: p in ps ==> p != "" && IsTrimmed(p)
    ensures CountWords(ps) == WordTotal(ps)
    decreases |ps|
  {
    if ps != [] {
      var init := ps[..|ps| - 1];
      assert forall p :: p in init ==> p in ps;
      CountWordsCountsWords(init);
      assert ps[|ps| - 1] in ps;
      TokensOfTrimmed(ps[|ps| - 1]);
    }
  }

  /** The word count of a page is its number of words. */
  lemma PageWordCount(doc: Doc)
    ensures CountWords(Paragraphs(doc)) == WordTotal(Paragraphs(doc))
  {
    ParagraphsWellFormed(doc);
    CountWordsCountsWords(Paragraphs(doc));
  }

  // ---------------------------------------------------------------------
  // The scraped page
  // ---------------------------------------------------------------------

  datatype Stats = Stats(
    totalHeadings: nat,
    totalParagraphs: nat,
    totalLinks: nat,
    totalImages: nat,
    wordCount: nat)

  datatype PageData = PageData(
    url: string,
    scrapedAt: string,
    title: string,
    meta: Meta,
    headings: seq<Heading>,
    paragraphs: seq<string>,
    links: seq<Link>,
    images: seq<Image>,
    stats: Stats)

  /** The statistics describe the extracted data. */
  predicate StatsConsistent(p: PageData) {
    && p.stats.totalHeadings == |p.headings|
    && p.stats.totalParagraphs == |p.paragraphs|
    && p.stats.totalLinks == |p.links|
    && p.stats.totalImages == |p.images|
    && p.stats.wordCount == CountWords(p.paragraphs)
  }

  /** The data `scrape` returns for a page it could read. */
  function PageOf(parser: UrlParser, url: string, scrapedAt: string, doc: Doc): PageData {
    var headings := HeadingsUpTo(doc, 6);
    var paragraphs := Paragraphs(doc);
    var links := PageLinks(parser, url, doc);
    var images := PageImages(parser, url, doc);
    PageData(url, scrapedAt, ExtractTitle(doc), ExtractMeta(doc), headings, paragraphs, links, images,
             Stats(|headings|, |paragraphs|, |links|, |images|, CountWords(paragraphs)))
  }

  // ---------------------------------------------------------------------
  // Fetching and error messages
  // ---------------------------------------------------------------------

  /** What the request met: a response with its status and parsed body, or
      a failure below HTTP with its Node.js error code when it has one
      (`ECONNABORTED` for the timeout, `ENOTFOUND`, `ECONNREFUSED`, ...). */
  datatype HttpOutcome =
    | Response(status: nat, body: Doc)
    | NetworkError(code: Option<string>, message: string)

  /** `validateStatus: status => status < 500`: axios rejects any response
      at or above this status. */
  const RejectedStatus := 500

  /** axios's rejection of a status `validateStatus` refuses carries this
      code and message. */
  const BadResponseCode := "ERR_BAD_RESPONSE"

  function BadResponseMessage(status: nat): string {
    "Request failed with status code " + Decimal(status)
  }

  const NotFoundMessage := "404: Page non trouvée"
  const ForbiddenMessage := "403: Accès refusé"
  const TimeoutMessage := "timeout: Délai d'attente dépassé"
  const DnsMessage := "DNS: Domaine introuvable"
  const RefusedMessage := "Connexion refusée par le serveur"

  function HttpErrorMessage(status: nat): string {
    "Erreur HTTP " + Decimal(status)
  }

  /** The error the status checks throw for an accepted response, `None`
      when the page is read. */
  function StatusError(status: nat): (r: Option<string>)
    ensures r.None? <==> status < 400
  {
    if status == 404 then Some(NotFoundMessage)
    else if status == 403 then Some(ForbiddenMessage)
    else if status >= 400 then Some(HttpErrorMessage(status))
    else None
  }

  /** The `catch` block: three network codes get a message of their own;
      every other error, including those the status checks threw (which
      have no code), is rethrown as it is. */
  function RewriteError(code: Option<string>, message: string): (r: string)
    ensures code !in {Some("ECONNABORTED"), Some("ENOTFOUND"), Some("ECONNREFUSED")} ==> r == message
  {
    if code == Some("ECONNABORTED") then TimeoutMessage
    else if code == Some("ENOTFOUND") then DnsMessage
    else if code == Some("ECONNREFUSED") then RefusedMessage
    else message
  }

  /** The message of the error `scrape` throws, `None` when it returns data. */
  function FailureMessage(outcome: HttpOutcome): Option<string> {
    match outcome
    case NetworkError(code, message) => Some(RewriteError(code, message))
    case Response(status, _) =>
      if status >= RejectedStatus then Some(RewriteError(Some(BadResponseCode), BadResponseMessage(status)))
      else match StatusError(status)
        case Some(m) => Some(RewriteError(None, m))
        case None => None
  }

  /** `scrape` returns data exactly for responses below 400. */
  lemma ScrapeSucceedsIff(outcome: HttpOutcome)
    ensures FailureMessage(outcome).None? <==> outcome.Response? && outcome.status < 400
  {
  }

  /** A server error is reported with axios's own message. */
  lemma ServerErrorKeepsAxiosMessage(status: nat, body: Doc)
    requires status >= RejectedStatus
    ensures FailureMessage(Response(status, body)) == Some(BadResponseMessage(status))
  {
  }

  // ---------------------------------------------------------------------
  // scrape
  // ---------------------------------------------------------------------

  /** `scrape(url)`: the page's data, or the message of the error it
      throws. */
  method Scrape(parser: UrlParser, url: string, scrapedAt: string, outcome: HttpOutcome)
    returns (r: Result<PageData, string>)
    ensures r.Failure? <==> FailureMessage(outcome).Some?
    ensures r.Failure? ==> r.error == FailureMessage(outcome).value
    ensures r.Success? ==> outcome.Response? && r.value == PageOf(parser, url, scrapedAt, outcome.body)
    ensures r.Success? ==> r.value.url == url && StatsConsistent(r.value)
  {
    match outcome {
      case NetworkError(code, message) =>
        return Failure(RewriteError(code, message));
      case Response(status, doc) =>
        if status >= RejectedStatus {
          return Failure(RewriteError(Some(BadResponseCode), BadResponseMessage(status)));
        }
        var thrown := StatusError(status);
        if thrown.Some? {
          return Failure(RewriteError(None, thrown.value));
        }
        var headings := ExtractHeadings(doc);
        var paragraphs := ExtractParagraphs(doc);
        var links := ExtractLinks(parser, url, doc);
        var images := ExtractImages(parser, url, doc);
        var data := PageData(url, scrapedAt, ExtractTitle(doc), ExtractMeta(doc),
                             headings, paragraphs, links, images, Stats(0, 0, 0, 0, 0));
        data := data.(stats := Stats(|data.headings|, |data.paragraphs|, |data.links|,
                                     |data.images|, CountWords(data.paragraphs)));
        return Success(data);
    }
  }

  /** What a scraped page always satisfies: a non-empty trimmed title,
      headings ordered by level, paragraphs longer than 20 characters,
      distinct "http" links, and statistics that describe it. */
  lemma ScrapedPageWellFormed(parser: UrlParser, url: string, scrapedAt: string, doc: Doc)
    ensures var p := PageOf(parser, url, scrapedAt, doc);
      && p.title != "" && IsTrimmed(p.title)
      && (forall h :: h in p.headings ==> 1 <= Rank(h.level) <= 6 && h.text != "")
      && (forall q :: q in p.paragraphs ==> |q| > MinParagraphLength)
      && (forall l :: l in p.links ==> StartsWith(l.url, "http"))
      && p.stats.wordCount == WordTotal(p.paragraphs)
      && StatsConsistent(p)
  {
    var p := PageOf(parser, url, scrapedAt, doc);
    HeadingsWellFormed(doc, 6);
    ParagraphsWellFormed(doc);
    PageWordCount(doc);
    forall l | l in p.links ensures StartsWith(l.url, "http") {
      LinksSound(parser, url, doc, l);
    }
  }
}
