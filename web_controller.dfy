/**
 * The scraper controller of the web application
 * (web-scraper/controllers/scraperController.js): the production
 * `validateUrl`, then a `node-cache` store with a ten-minute time to live,
 * keyed by the URL exactly as the client sent it.
 *
 * Time is a parameter, in milliseconds as `Date.now()` gives it: `now` is
 * the time of the request, when the cache is read, and `storedAt` the later
 * time at which `cache.set` runs, once the awaited scrape has finished.
 * `node-cache` stamps an entry's expiry at that second time.
 */
module WebController {
  import opened Wrappers
  import opened Js
  import opened Urls
  import opened Scraping
  import opened Replies
  import Validators

  /** `stdTTL: 600`, in seconds. */
  const StdTtlSeconds := 600
  /** `node-cache` keeps expiry times in milliseconds. */
  const TtlMillis := StdTtlSeconds * 1000

  /** A stored value and the time after which it has expired. */
  datatype Entry = Entry(value: PageData, expiresAt: int)

  /** What a read of `k` at time `now` finds: the value while `now` has not
      passed its expiry time. */
  function Lookup(entries: map<string, Entry>, k: string, now: int): Option<PageData> {
    if k in entries && now <= entries[k].expiresAt then Some(entries[k].value) else None
  }

  /** A value set at time `t` is found exactly until `t` plus ten minutes,
      that instant included. */
  lemma TtlWindow(entries: map<string, Entry>, k: string, v: PageData, t: int, now: int)
    ensures Lookup(entries[k := Entry(v, t + TtlMillis)], k, now) == Some(v) <==> now <= t + 600000
    ensures now > t + TtlMillis ==> Lookup(entries[k := Entry(v, t + TtlMillis)], k, now) == None
  {
  }

  /** Setting one key does not change what is found under any other. */
  lemma SetLeavesOthers(entries: map<string, Entry>, k: string, e: Entry, other: string, now: int)
    requires other != k
    ensures Lookup(entries[k := e], other, now) == Lookup(entries, other, now)
  {
  }

  /** Once an entry has expired it stays expired. */
  lemma ExpiredStaysExpired(entries: map<string, Entry>, k: string, now: int, later: int)
    requires now <= later
    requires Lookup(entries, k, now).None?
    ensures Lookup(entries, k, later).None?
  {
  }

  /** Deleting an expired entry (as a read of it, or the periodic check,
      does) changes no later lookup of any key. */
  lemma DropExpiredInvisible(entries: map<string, Entry>, k: string, now: int, other: string, later: int)
    requires k in entries && entries[k].expiresAt < now <= later
    ensures Lookup(entries - {k}, other, later) == Lookup(entries, other, later)
  {
  }

  /** Storing under a key does not depend on whether it was dropped first. */
  lemma DropThenSet(entries: map<string, Entry>, k: string, e: Entry)
    ensures (entries - {k})[k := e] == entries[k := e]
  {
  }

  /** The `node-cache` instance: its entries and its hit and miss counters. */
  class TtlCache {
    var entries: map<string, Entry>
    var hits: nat
    var misses: nat

    constructor()
      ensures entries == map[] && hits == 0 && misses == 0
    {
      entries, hits, misses := map[], 0, 0;
    }

    /** `cache.get(k)`: a live entry is a hit; anything else is a miss, and
        an expired entry is deleted on the way. */
    method Get(k: string, now: int) returns (v: Option<PageData>)
      modifies this
      ensures v == Lookup(old(entries), k, now)
      ensures v.Some? ==> entries == old(entries)
      ensures v.None? ==> entries == old(entries) - {k}
      ensures v.Some? ==> hits == old(hits) + 1 && misses == old(misses)
      ensures v.None? ==> hits == old(hits) && misses == old(misses) + 1
    {
      if k in entries && now <= entries[k].expiresAt {
        hits := hits + 1;
        return Some(entries[k].value);
      }
      if k !in entries {
        assert entries - {k} == entries;
      }
      entries := entries - {k};
      misses := misses + 1;
      return None;
    }

    /** `cache.set(k, v)` at time `storedAt`, with the default time to
        live. */
    method Set(k: string, v: PageData, storedAt: int)
      modifies this
      ensures entries == old(entries)[k := Entry(v, storedAt + TtlMillis)]
      ensures hits == old(hits) && misses == old(misses)
    {
      entries := entries[k := Entry(v, storedAt + TtlMillis)];
    }

    /** `cache.flushAll()`: no entry left, counters back to zero. */
    method FlushAll()
      modifies this
      ensures entries == map[] && hits == 0 && misses == 0
      ensures forall k, now :: Lookup(entries, k, now).None?
    {
      entries, hits, misses := map[], 0, 0;
    }
  }

  /** A miss: scrape the page, store it at `storedAt` if it could be read
      (with a fresh time to live), and answer; a failed scrape leaves the
      entries as they are. */
  method ScrapeAndStore(cache: TtlCache, parser: UrlParser, key: string, storedAt: int, scrapedAt: string,
                        outcome: HttpOutcome)
    returns (reply: Reply)
    modifies cache
    ensures cache.hits == old(cache.hits) && cache.misses == old(cache.misses)
    ensures match FailureMessage(outcome)
            case None =>
              var page := PageOf(parser, key, scrapedAt, outcome.body);
              && cache.entries == old(cache.entries)[key := Entry(page, storedAt + TtlMillis)]
              && reply == PageReply(page, false, None)
            case Some(m) =>
              && cache.entries == old(cache.entries)
              && reply == FailureReply(WebStatusOf(m))
  {
    var result := Scrape(parser, key, scrapedAt, outcome);
    match result {
      case Success(page) =>
        cache.Set(key, page, storedAt);
        reply := PageReply(page, false, None);
      case Failure(m) =>
        reply := FailureReply(WebStatusOf(m));
    }
  }

  /** What the handler does with a URL that passed validation: answer from
      the cache while the entry under `key` lives at `now`, otherwise
      scrape, store a page it could read at `storedAt`, and answer. */
  method Serve(cache: TtlCache, parser: UrlParser, key: string, now: int, storedAt: int, scrapedAt: string,
               outcome: HttpOutcome)
    returns (reply: Reply, scraped: bool)
    requires now <= storedAt
    modifies cache
    ensures Lookup(old(cache.entries), key, now).Some? ==>
              var d := Lookup(old(cache.entries), key, now).value;
              && reply == PageReply(d, true, Some(d.scrapedAt))
              && !scraped && cache.entries == old(cache.entries)
              && cache.hits == old(cache.hits) + 1 && cache.misses == old(cache.misses)
    ensures Lookup(old(cache.entries), key, now).None? ==>
              && scraped && cache.hits == old(cache.hits) && cache.misses == old(cache.misses) + 1
              && match FailureMessage(outcome)
                 case None =>
                   var page := PageOf(parser, key, scrapedAt, outcome.body);
                   && cache.entries == old(cache.entries)[key := Entry(page, storedAt + TtlMillis)]
                   && reply == PageReply(page, false, None)
                 case Some(m) =>
                   && cache.entries == old(cache.entries) - {key}
                   && reply == FailureReply(WebStatusOf(m))
  {
    var cached := cache.Get(key, now);
    if cached.Some? {
      return PageReply(cached.value, true, Some(cached.value.scrapedAt)), false;
    }
    scraped := true;
    if outcome.Response? {
      DropThenSet(old(cache.entries), key, Entry(PageOf(parser, key, scrapedAt, outcome.body), storedAt + TtlMillis));
    }
    reply := ScrapeAndStore(cache, parser, key, storedAt, scrapedAt, outcome);
  }

  /** `scrapeUrl`: `url` is `req.body.url`, `now` the time of the request,
      `outcome` what fetching the URL would meet (used only when the
      handler scrapes, which `scraped` reports). A missing or invalid URL is
      answered with 400 and touches nothing; a valid one is served under the
      string exactly as sent. */
  method ScrapeUrl(cache: TtlCache, parser: UrlParser, url: JsValue, now: int, storedAt: int, scrapedAt: string,
                   outcome: HttpOutcome)
    returns (reply: Reply, scraped: bool)
    requires now <= storedAt
    modifies cache
    ensures !IsTruthy(url) ==> reply == MissingUrlReply
    ensures IsTruthy(url) && Validators.ValidateUrl(parser, url).Invalid? ==>
              reply == InvalidUrlReply(Validators.ValidateUrl(parser, url).error)
    ensures Validators.ValidateUrl(parser, url).Invalid? ==>
              !scraped && cache.entries == old(cache.entries)
              && cache.hits == old(cache.hits) && cache.misses == old(cache.misses)
    ensures Validators.ValidateUrl(parser, url).Valid? ==>
              && url.Str?
              && (Lookup(old(cache.entries), url.s, now).Some? ==>
                    var d := Lookup(old(cache.entries), url.s, now).value;
                    && reply == PageReply(d, true, Some(d.scrapedAt))
                    && !scraped && cache.entries == old(cache.entries)
                    && cache.hits == old(cache.hits) + 1 && cache.misses == old(cache.misses))
              && (Lookup(old(cache.entries), url.s, now).None? ==>
                    && scraped && cache.hits == old(cache.hits) && cache.misses == old(cache.misses) + 1
                    && match FailureMessage(outcome)
                       case None =>
                         var page := PageOf(parser, url.s, scrapedAt, outcome.body);
                         && cache.entries == old(cache.entries)[url.s := Entry(page, storedAt + TtlMillis)]
                         && reply == PageReply(page, false, None)
                       case Some(m) =>
                         && cache.entries == old(cache.entries) - {url.s}
                         && reply == FailureReply(WebStatusOf(m)))
  {
    if !IsTruthy(url) {
      return MissingUrlReply, false;
    }
    var validation := Validators.ValidateUrl(parser, url);
    if validation.Invalid? {
      return InvalidUrlReply(validation.error), false;
    }
    reply, scraped := Serve(cache, parser, url.s, now, storedAt, scrapedAt, outcome);
  }

  /** Two requests for the same valid URL that is not in the cache: the
      first arrives at `t1`, its scrape succeeds and its page is stored at
      `stored1`; the second arrives at `t2`. The second is answered from the
      cache, with the first one's page and its time stamp, exactly when it
      comes at most ten minutes after the first page was stored; otherwise
      the page is scraped again. */
  method RequestTwice(cache: TtlCache, parser: UrlParser, key: string, t1: int, stored1: int,
                      t2: int, stored2: int, scrapedAt1: string, scrapedAt2: string,
                      outcome1: HttpOutcome, outcome2: HttpOutcome)
    returns (first: Reply, second: Reply, scrapedAgain: bool)
    requires Lookup(cache.entries, key, t1).None?
    requires FailureMessage(outcome1).None?
    requires t1 <= stored1 <= t2 <= stored2
    modifies cache
    ensures first == PageReply(PageOf(parser, key, scrapedAt1, outcome1.body), false, None)
    ensures scrapedAgain <==> t2 > stored1 + TtlMillis
    ensures !scrapedAgain ==> second == PageReply(first.data, true, Some(scrapedAt1))
  {
    var scraped;
    first, scraped := Serve(cache, parser, key, t1, stored1, scrapedAt1, outcome1);
    ghost var page := PageOf(parser, key, scrapedAt1, outcome1.body);
    assert key in cache.entries && cache.entries[key] == Entry(page, stored1 + TtlMillis);
    assert page.scrapedAt == scrapedAt1;
    second, scrapedAgain := Serve(cache, parser, key, t2, stored2, scrapedAt2, outcome2);
  }

  /** `getCacheStats`, without the library's size estimates: the number of
      stored keys and the two counters. */
  method GetCacheStats(cache: TtlCache) returns (keys: nat, hits: nat, misses: nat)
    ensures keys == |cache.entries| && hits == cache.hits && misses == cache.misses
  {
    keys, hits, misses := |cache.entries|, cache.hits, cache.misses;
  }

  /** `clearCache`: afterwards every request misses. */
  method ClearCache(cache: TtlCache)
    modifies cache
    ensures forall k, now :: Lookup(cache.entries, k, now).None?
    ensures cache.hits == 0 && cache.misses == 0
  {
    cache.FlushAll();
  }
}
