# Web scraper core, modelled in Dafny

The scraper is an Express service. `POST /api/scrape` takes a URL in the request
body and checks it. It then answers from a cache, or it fetches the page with
axios, extracts facts from the HTML with cheerio and answers with them. The
facts are the title, the meta tags, the headings, the paragraphs, the links,
the images and statistics. The repository has two controllers for this route:

- `controllers/scraperController.js` has its own three-step URL check and a
  hand-written cache over a JavaScript `Map` with hit and miss counters and no
  expiry.
- `web-scraper/controllers/scraperController.js` uses the production
  validator `web-scraper/utils/validators.js` and a `node-cache` store whose
  entries live for 600 seconds.

Both controllers call the same scraping service,
`web-scraper/services/scrapingService.js`. They turn its errors into HTTP
statuses by looking for "timeout", "404" and "403" in the error message. The
in-memory controller lower-cases the message first and the production one
does not.

The model is organised by source file:

| file | module | models |
|---|---|---|
| `wrappers.dfy` | `Wrappers` | `Option` and `Result` |
| `js.dfy` | `Js` | a request-body value and JavaScript truthiness |
| `urls.dfy` | `Urls` | the WHATWG URL parser (`new URL`), given as a parameter |
| `text.dfy` | `Text` | `trim`, `replace(/\s+/g, ' ')`, `split(/\s+/)`, `toLowerCase`, `includes`, `split('.')`, decimal numbers |
| `validators.dfy` | `Validators` | `validateUrl`, `isPrivateIP`, `sanitizeString` |
| `document.dfy` | `Document` | a parsed HTML page, seen as its elements in document order, and the cheerio queries the service makes |
| `extraction.dfy` | `Extraction` | `extractTitle`, `extractMeta`, `extractHeadings`, `extractParagraphs` |
| `dedup.dfy` | `Dedup` | keep-the-first deduplication through a `seen` set |
| `links.dfy` | `Links` | `extractLinks`, `extractImages` |
| `scraping.dfy` | `Scraping` | `scrape`, its status checks, its error rewriting, `countWords` |
| `replies.dfy` | `Replies` | the controllers' replies and their status choice |
| `memory_controller.dfy` | `MemoryController` | `controllers/scraperController.js` |
| `web_controller.dfy` | `WebController` | `web-scraper/controllers/scraperController.js` |

Pure code becomes functions and lemmas. Loops become methods proved against a
function (`ExtractHeadings`, `ExtractParagraphs`, `ExtractLinks`,
`ExtractImages`, `StatsCache.GetStats`). The two caches become classes whose
methods update their fields. The network is a parameter: the value
`HttpOutcome` says what the server or the transport answered. The URL parser,
the time a request arrives, the time its page is stored and the time stamp
of a scrape are parameters too.

## Model

| member | source | states |
|---|---|---|
| Text.Trim | web-scraper/services/scrapingService.js:90 | the result has no leading or trailing white space; it is empty exactly when the input is all white space; a trimmed input comes back unchanged |
| Text.TrimIsSlice | web-scraper/services/scrapingService.js:90 | the result of `trim` is a slice of its input with only white space before and after it |
| Text.TrimThenCollapseIsNormalized | web-scraper/services/scrapingService.js:134-136 | trimming and then collapsing white-space runs leaves text with no white space at either end and only single spaces inside |
| Text.TokensOfTrimmed | web-scraper/services/scrapingService.js:216 | on a non-empty trimmed string, the number of pieces `split(/\s+/)` gives is the number of words |
| Text.ToLower | controllers/scraperController.js:49 | lower-casing keeps the length and maps each character on its own |
| Validators.ValidateUrl | web-scraper/utils/validators.js:8-81 | a URL is accepted exactly when it is admissible: a non-empty string that parses, with scheme `http:` or `https:`, whose lower-cased host is not a forbidden local name, not a private IPv4 address and not under `.local`, and which is at most 2048 characters long; an accepted URL is returned in its parsed `href` form; a rejected one carries one of the seven messages |
| Validators.ValidateUrlErrors | web-scraper/utils/validators.js:10-68 | the checks run in the source's order and the first that fails picks the message: missing or not a string, then unparsable, then scheme, then local host, then private address, then `.local`, then length |
| Validators.ValidateUrlIgnoresHostCase | web-scraper/utils/validators.js:30 | two URLs with the same scheme and length whose hosts agree up to case get the same verdict, and the same message when rejected |
| Validators.PrivateAddressExample | web-scraper/utils/validators.js:47-52 | an `http` URL on host 192.168.1.5 is rejected as a private address |
| Validators.LoopbackAliasAdmitted | web-scraper/utils/validators.js:29-52 | every loopback address 127.b.c.d with octets below 256, other than 127.0.0.1, passes every check and is accepted |
| Validators.Octets | web-scraper/utils/validators.js:96 | a dotted quad splits into exactly four numbers, each below 1000 |
| Validators.DottedQuadParses | web-scraper/utils/validators.js:90-96 | round trip: four numbers below 1000, written as a dotted quad, match the IPv4 pattern and split back into the same four numbers |
| Validators.PrivateIPIsBlockMembership | web-scraper/utils/validators.js:88-120 | for a real IPv4 address, `isPrivateIP` holds exactly when the address lies in 10.0.0.0/8, 172.16.0.0/12 or 192.168.0.0/16 (section 3 of RFC 1918), or in 169.254.0.0/16 |
| Validators.PrivateBlocksByOctets | web-scraper/utils/validators.js:99-117 | membership in those four blocks is the source's octet tests: first octet 10; 172 with second octet 16 to 31; 192 with 168; 169 with 254 |
| Validators.LoopbackIsNotPrivate | web-scraper/utils/validators.js:88-120 | no 127.x.y.z address counts as private |
| Validators.RemoveAngleBrackets | web-scraper/utils/validators.js:134 | the result has no `<` or `>`, only holds characters of the input, keeps every other character of the input, and is the input itself when there was nothing to remove |
| Validators.RemoveAngleBracketsAppend | web-scraper/utils/validators.js:134 | removing the brackets from two pieces and joining the results is removing them from the joined string |
| Validators.RemoveAngleBracketsSnoc | web-scraper/utils/validators.js:134 | the replacement is a filter: in order, each `<` and `>` is dropped and every other character is kept |
| Validators.Truncate | web-scraper/utils/validators.js:135 | the result is the longest prefix of the input of at most `n` characters |
| Validators.SanitizeString | web-scraper/utils/validators.js:127-136 | a missing, empty or non-string value gives `''`; otherwise the result is the trimmed input with its brackets removed and cut to its first 1000 characters, so it has no `<` or `>` and only holds characters of the input |
| Validators.SanitizeKeepsCleanText | web-scraper/utils/validators.js:127-136 | text that is already trimmed, has no angle brackets and fits in 1000 characters comes back unchanged |
| Document.First | web-scraper/services/scrapingService.js:91 | `.first()`: present exactly when the page has an element with the tag, and then it is the element at the first position with that tag |
| Document.FirstWithAttr | web-scraper/services/scrapingService.js:100-105 | `$('meta[name="…"]')`: the first element with that tag and attribute value, absent exactly when none matches |
| Extraction.FirstH1Text | web-scraper/services/scrapingService.js:91 | the trimmed text of the first `h1`, `''` when there is none |
| Extraction.ExtractTitle | web-scraper/services/scrapingService.js:89-93 | the title is non-empty and trimmed; it is the trimmed `title` text when that is not blank, otherwise the first `h1` text when that is not empty, otherwise `Sans titre` |
| Extraction.UntitledPage | web-scraper/services/scrapingService.js:89-93 | a page with neither `title` nor `h1` is titled `Sans titre` |
| Extraction.TitleIgnoresLaterH1 | web-scraper/services/scrapingService.js:91 | without a `title`, appending content after the first `h1` does not change the title |
| Extraction.MetaContent | web-scraper/services/scrapingService.js:100-105 | `''` when no meta element matches; otherwise the `content` of the first matching element, `''` when it has none |
| Extraction.ExtractMeta | web-scraper/services/scrapingService.js:98-107 | each of the six fields is the content of the first meta element with its own `name` or `property` |
| Extraction.NoMetaPage | web-scraper/services/scrapingService.js:98-107 | a page without meta elements gives six empty fields |
| Extraction.DescriptionFromFirstTag | web-scraper/services/scrapingService.js:100 | the first `meta name="description"` element's content is the description, whatever the rest of the page holds |
| Extraction.RankOfTag | web-scraper/services/scrapingService.js:114 | `h1` … `h6` have ranks 1 … 6 |
| Extraction.HeadingText | web-scraper/services/scrapingService.js:116 | a heading's text is trimmed |
| Extraction.LevelHeadingsWellFormed | web-scraper/services/scrapingService.js:115-123 | one level yields at most one heading per element of that tag, each with that level and a non-empty trimmed text |
| Extraction.CollectLevel | web-scraper/services/scrapingService.js:115-123 | the `each` loop over one tag computes that level's headings |
| Extraction.ExtractHeadings | web-scraper/services/scrapingService.js:112-126 | the loop over the six tags computes the headings of levels 1 to 6, in that order |
| Extraction.HeadingsWellFormed | web-scraper/services/scrapingService.js:117-121 | every heading has a level from `h1` to `h6` and a non-empty trimmed text |
| Extraction.HeadingsOrderedByLevel | web-scraper/services/scrapingService.js:114-124 | levels never decrease along the result, whatever their order on the page |
| Extraction.HeadingsOfOneLevel | web-scraper/services/scrapingService.js:114-124 | the headings of one level in the result are that level's headings in document order |
| Extraction.ParagraphText | web-scraper/services/scrapingService.js:134-136 | a paragraph's text is trimmed and has single spaces only |
| Extraction.ExtractParagraphs | web-scraper/services/scrapingService.js:131-143 | the loop keeps, in document order, the normalised text of each `p` longer than 20 characters |
| Extraction.ParagraphsWellFormed | web-scraper/services/scrapingService.js:138 | every kept paragraph is longer than 20 characters and normalised |
| Extraction.ParagraphsAtMostOnePerElement | web-scraper/services/scrapingService.js:133-141 | there are no more paragraphs than `p` elements |
| Extraction.LongParagraphKept | web-scraper/services/scrapingService.js:138-140 | every `p` whose normalised text is longer than 20 characters is kept |
| Dedup.DedupDistinct | web-scraper/services/scrapingService.js:166-167 | after deduplication no two entries share a key |
| Dedup.DedupKeys | web-scraper/services/scrapingService.js:166-167 | deduplication loses no key |
| Dedup.FirstIsKept | web-scraper/services/scrapingService.js:166-167 | the first entry with each key is kept |
| Dedup.KeptAreFirst | web-scraper/services/scrapingService.js:166-167 | every kept entry is the first one with its key |
| Dedup.DedupPrefix | web-scraper/services/scrapingService.js:152-173 | deduplicating a prefix gives a prefix of the full result, so the order of first appearance is kept |
| Links.CollectDistinct | web-scraper/services/scrapingService.js:149-173 | the loop with a `seen` set computes the deduplicated candidates, with distinct keys |
| Links.LinkText | web-scraper/services/scrapingService.js:170 | a link's text is the trimmed element text, or `Sans texte` when that is blank; it is never empty |
| Links.LinkCandidate | web-scraper/services/scrapingService.js:153-171 | an element gives a link exactly when it is an `a` with a non-empty `href` whose absolute form exists and starts with "http"; the link carries that absolute form and the link text |
| Links.ExtractLinks | web-scraper/services/scrapingService.js:148-176 | the loop computes the page's links, and no two share a URL |
| Links.LinksSound | web-scraper/services/scrapingService.js:152-173 | every link comes from an `a` element of the page, starts with "http" and has a non-empty trimmed text |
| Links.LinksComplete | web-scraper/services/scrapingService.js:152-173 | every element that gives a candidate has its URL among the links |
| Links.AbsoluteHrefKept | web-scraper/services/scrapingService.js:158-166 | an absolute `href` starting with "http" is kept as written |
| Links.UnresolvableHrefSkipped | web-scraper/services/scrapingService.js:157-163 | a relative `href` the URL parser cannot resolve is skipped |
| Links.LinksInDocumentOrder | web-scraper/services/scrapingService.js:152-173 | the links of a prefix of the page are a prefix of the page's links |
| Links.ImageCandidate | web-scraper/services/scrapingService.js:186-204 | an element gives an image exactly when it is an `img` with a non-empty `src` whose absolute form exists; `alt` and `title` default to `''` |
| Links.ExtractImages | web-scraper/services/scrapingService.js:181-209 | the loop computes the page's images, and no two share a `src` |
| Links.ImagesSound | web-scraper/services/scrapingService.js:185-206 | every image comes from an `img` element of the page |
| Links.ImagesComplete | web-scraper/services/scrapingService.js:185-206 | every element that gives a candidate has its `src` among the images |
| Scraping.CountWords | web-scraper/services/scrapingService.js:214-218 | no paragraphs count zero words, and each paragraph counts at least one |
| Scraping.CountWordsCountsWords | web-scraper/services/scrapingService.js:214-218 | for non-empty trimmed paragraphs the count is the total number of words |
| Scraping.PageWordCount | web-scraper/services/scrapingService.js:65 | the word count of a page's paragraphs is their number of words |
| Scraping.StatusError | web-scraper/services/scrapingService.js:33-41 | the status checks throw exactly for statuses 400 and above |
| Scraping.RewriteError | web-scraper/services/scrapingService.js:70-83 | any error other than the three network codes is rethrown with its message |
| Scraping.ScrapeSucceedsIff | web-scraper/services/scrapingService.js:29-41 | `scrape` returns data exactly for a response below 400 |
| Scraping.ServerErrorKeepsAxiosMessage | web-scraper/services/scrapingService.js:29 | a status of 500 or more is refused by `validateStatus` and reported with axios's own message |
| Scraping.Scrape | web-scraper/services/scrapingService.js:14-84 | fails exactly when the outcome has a failure message, with that message; otherwise it returns the page's data for the requested URL, whose statistics count what was extracted |
| Scraping.ScrapedPageWellFormed | web-scraper/services/scrapingService.js:47-66 | scraped data has a non-empty trimmed title, headings of levels 1 to 6 with text, paragraphs over 20 characters, "http" links, and statistics that describe the data |
| Replies.FailureReply | web-scraper/controllers/scraperController.js:57-85 | the `catch` block answers with an error whose status is the chosen one when it is 408, 404 or 403, and 500 otherwise |
| Replies.DigitsSurviveLower | controllers/scraperController.js:49-58 | a digit string occurs in the lower-cased message exactly when it occurs in the message |
| Replies.WebTimeoutIsMemoryTimeout | controllers/scraperController.js:49-51 | a message the production controller maps to 408 is also mapped to 408 by the in-memory one |
| Replies.SameStatusWithoutTimeout | controllers/scraperController.js:49-60 | the two controllers choose the same status for any message without "timeout" in any case |
| Replies.UpperCaseTimeoutDiffers | controllers/scraperController.js:49-51 | they differ on "TIMEOUT": 500 in production, 408 in memory |
| Replies.NotFoundEndsIn404 | web-scraper/services/scrapingService.js:33-34 | a 404 response ends in a 404 reply from both controllers |
| Replies.ForbiddenEndsIn403 | web-scraper/services/scrapingService.js:36-37 | a 403 response ends in a 403 reply from both controllers |
| Replies.TimeoutEndsIn408 | web-scraper/services/scrapingService.js:71-72 | a timed-out request ends in a 408 reply from both controllers |
| Replies.OtherClientErrorEndsIn500 | web-scraper/services/scrapingService.js:39-40 | any other 4xx response ends in a 500 reply from both controllers |
| Replies.ServerErrorEndsIn500 | web-scraper/services/scrapingService.js:29 | a 5xx response ends in a 500 reply from both controllers |
| Replies.RefusedEndsIn500 | web-scraper/services/scrapingService.js:77-78 | a refused connection ends in a 500 reply from both controllers |
| Replies.DnsFailureEndsIn500 | web-scraper/services/scrapingService.js:74-75 | an unknown domain ends in a 500 reply from both controllers |
| MemoryController.LocalMirrorsFirstChecks | controllers/scraperController.js:3-12 | the local check fails exactly where one of the production validator's first three checks fails, on the matching check |
| MemoryController.ProductionIsStricter | controllers/scraperController.js:3-12 | every URL the production validator accepts is accepted locally |
| MemoryController.LocalhostPassesLocally | controllers/scraperController.js:3-12 | an `http://localhost` URL is accepted locally and rejected by the production validator |
| MemoryController.ValueWithinSize | controllers/scraperController.js:21 | every stored value counts in full towards `vsize` |
| MemoryController.StatsCache.constructor | controllers/scraperController.js:14-15 | the cache starts empty with both counters at zero |
| MemoryController.StatsCache.Get | controllers/scraperController.js:17 | a stored key returns its value and counts a hit; any other key counts a miss; the contents do not change |
| MemoryController.StatsCache.Set | controllers/scraperController.js:18 | the last write wins, a new key goes last in iteration order, and the counters do not move |
| MemoryController.StatsCache.Keys | controllers/scraperController.js:19 | one key per stored entry, in insertion order |
| MemoryController.StatsCache.Clear | controllers/scraperController.js:20 | the store is emptied and both counters are reset |
| MemoryController.StatsCache.GetStats | controllers/scraperController.js:21 | the counters, the number of keys, and the total size of the stored values |
| MemoryController.GetCacheStats | controllers/scraperController.js:64-73 | `keys` equals `ksize`, the number of stored entries; hits and misses add up to the number of lookups |
| MemoryController.ClearCache | controllers/scraperController.js:75-78 | the cache is emptied and both counters are reset |
| MemoryController.ScrapeUrl | controllers/scraperController.js:26-61 | a missing URL gets 400; a URL the local check rejects gets 400 with its reason and changes nothing; a cached URL is answered from the cache with a hit and no scrape; otherwise the page is scraped with a miss, stored when read, and a failure is answered with the status of its lower-cased message |
| WebController.TtlWindow | web-scraper/controllers/scraperController.js:7 | a value stored at time t is found until t + 600000 ms, that instant included, and not after |
| WebController.SetLeavesOthers | web-scraper/controllers/scraperController.js:52 | storing one key changes no lookup of another |
| WebController.ExpiredStaysExpired | web-scraper/controllers/scraperController.js:7 | once an entry has expired it stays expired |
| WebController.DropExpiredInvisible | web-scraper/controllers/scraperController.js:7 | deleting an expired entry, as the periodic check does, changes no later lookup |
| WebController.TtlCache.constructor | web-scraper/controllers/scraperController.js:7 | the cache starts empty with both counters at zero |
| WebController.TtlCache.Get | web-scraper/controllers/scraperController.js:37 | a live entry is a hit and is returned; anything else is a miss, and an expired entry is deleted |
| WebController.TtlCache.Set | web-scraper/controllers/scraperController.js:52 | the value is stored with an expiry ten minutes after the time it is stored |
| WebController.TtlCache.FlushAll | web-scraper/controllers/scraperController.js:107 | no entry is left and both counters are reset |
| WebController.ScrapeAndStore | web-scraper/controllers/scraperController.js:47-55 | a page that could be read is stored with an expiry ten minutes after the time it is stored and returned with `fromCache: false`; a failure leaves the cache alone and is answered with the status of its message |
| WebController.Serve | web-scraper/controllers/scraperController.js:36-55 | an entry still live when the request arrives is answered with `fromCache: true` and `cachedAt` set to its scrape time, without scraping; otherwise the page is scraped with a miss and, when read, stored with an expiry ten minutes after the time it is stored, once the scrape has finished |
| WebController.ScrapeUrl | web-scraper/controllers/scraperController.js:16-87 | a missing URL gets 400; a URL the production validator rejects gets 400 with its reason and changes nothing; an accepted URL is served as `Serve` states, under the string exactly as sent |
| WebController.RequestTwice | web-scraper/controllers/scraperController.js:36-55 | after a successful first scrape, a second request for the same URL is served from the cache, with the first page and its time stamp, exactly when it arrives at most ten minutes after the first page was stored |
| WebController.GetCacheStats | web-scraper/controllers/scraperController.js:92-101 | the number of keys and the two counters |
| WebController.ClearCache | web-scraper/controllers/scraperController.js:106-110 | every later lookup misses and the counters are back to zero |

Behaviour the model follows from the code:

- The title fallback is `Sans titre`.
- A paragraph is kept when it is longer than 20 characters.
- A link without text gets `Sans texte`.
- The cache key is `req.body.url` exactly as sent, not the validator's
  normalised `href`.
- A 5xx response is not passed on as a server error of its own kind. axios
  refuses it (`validateStatus`), its message "Request failed with status code
  …" matches none of the three patterns, and the reply is 500.
- An entry of `node-cache` is still found at the very millisecond of its
  expiry time.

## Left out

- The network, axios's headers, timeout, redirect and body-size options, and
  gzip decoding: what a request met is the parameter `HttpOutcome`.
- HTML parsing and cheerio's selector engine. A page is its elements in
  document order, each with its tag, attributes and `.text()`, so nesting is
  not modelled.
- The WHATWG URL parser (`new URL`): host parsing, IPv4 number forms,
  percent-encoding and relative resolution are the functions of
  `Urls.UrlParser`, supplied by the caller.
- `new Date().toISOString()` and `Date.now()`: the time stamp, the time a
  request arrives and the later time its page is stored are parameters.
- The logger (`utils/logger`); it has no effect on results.
- Asynchrony: each request handler runs to completion before the next one
  starts, so interleaved requests are not modelled.
- Express's `req`/`res`: a handler returns a `Reply` value that stands for the
  status and JSON body it sends.
- Validators.ValidateUrl: lengths are counted in characters, not in the
  UTF-16 code units JavaScript counts, so the 2048 limit differs for text
  outside the Basic Multilingual Plane.
- Validators.SanitizeString: the 1000-character limit is counted in
  characters, not UTF-16 code units.
- Extraction.ExtractParagraphs: the 20-character bound is counted in
  characters, not UTF-16 code units.
- Text.ToLower: lower-cases ASCII letters only; JavaScript's `toLowerCase`
  also maps other letters. The WHATWG parser already lower-cases `http(s)`
  hosts, and the status patterns are ASCII.
- Replies.ServerErrorEndsIn500: stated for statuses below 1000, which covers
  every status HTTP defines.
- MemoryController.StatsCache.GetStats: `vsize` sums
  `JSON.stringify(v).length` over the stored values. JSON serialisation is not
  modelled, so the length is the function parameter `size`.
- WebController.GetCacheStats: omits `ksize` and `vsize`, which are
  `node-cache`'s own size estimates.
- WebController.TtlCache: `node-cache` stores clones of values; pages are
  immutable values here, so cloning is invisible. The periodic check every
  120 seconds is covered only by `DropExpiredInvisible`, which shows that
  deleting an expired entry changes no lookup.
- WebController.RequestTwice: stated over `Serve`, for a URL that has already
  been validated. `ScrapeUrl` states the validation step separately.
- The in-memory controller requires `../services/scrapingService`. The model
  takes this to be the service in `web-scraper/services/scrapingService.js`,
  the only scraping service in the repository.
- `MemoryController.ValidateUrl` has no contract of its own. Its behaviour is
  stated by `LocalMirrorsFirstChecks`, `ProductionIsStricter` and
  `LocalhostPassesLocally`.
