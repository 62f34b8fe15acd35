/**
 * The in-memory scraper controller (controllers/scraperController.js): its
 * own three-step URL check, a hand-written cache over a `Map` with hit and
 * miss counters and no expiry, and the request handler that validates,
 * looks up, scrapes and stores.
 */
module MemoryController {
  import opened Wrappers
  import opened Text
  import opened Js
  import opened Urls
  import opened Scraping
  import opened Replies
  import Validators

  // ---------------------------------------------------------------------
  // validateUrl (local version)
  // ---------------------------------------------------------------------

  datatype LocalValidation = Accepted | Rejected(error: string)

  const MissingOrInvalidError := "URL manquante ou invalide"
  const ProtocolError := "Le protocole doit être http ou https"
  const FormatError := "Format d'URL invalide"

  /** The local `validateUrl`: a non-empty string that parses with scheme
      `http:` or `https:`; nothing else is checked. */
  function ValidateUrl(parser: UrlParser, v: JsValue): LocalValidation {
    if !IsNonEmptyString(v) then Rejected(MissingOrInvalidError)
    else match parser.parse(v.s)
      case None => Rejected(FormatError)
      case Some(u) =>
        if u.protocol != "http:" && u.protocol != "https:" then Rejected(ProtocolError)
        else Accepted
  }

  /** The local check is the first three checks of the production
      validator, with its own messages: it fails exactly where one of them
      fails, with the matching message, and accepts everything else. */
  lemma LocalMirrorsFirstChecks(parser: UrlParser, v: JsValue)
    ensures (ValidateUrl(parser, v) == Rejected(MissingOrInvalidError))
        <==> (Validators.ValidateUrl(parser, v) == Validators.Invalid(Validators.EmptyError))
    ensures (ValidateUrl(parser, v) == Rejected(FormatError))
        <==> (Validators.ValidateUrl(parser, v) == Validators.Invalid(Validators.FormatError))
    ensures (ValidateUrl(parser, v) == Rejected(ProtocolError))
        <==> (Validators.ValidateUrl(parser, v) == Validators.Invalid(Validators.SchemeError))
  {
    Validators.ValidateUrlErrors(parser, v);
  }

  /** Whatever the production validator accepts, the local one accepts. */
  lemma ProductionIsStricter(parser: UrlParser, v: JsValue)
    requires Validators.ValidateUrl(parser, v).Valid?
    ensures ValidateUrl(parser, v) == Accepted
  {
    LocalMirrorsFirstChecks(parser, v);
  }

  /** ...but not conversely: a `localhost` URL passes the local check and
      fails the production one. */
  lemma LocalhostPassesLocally(parser: UrlParser, s: string, href: string)
    requires s != ""
    requires parser.parse(s) == Some(ParsedUrl("http:", "localhost", href))
    ensures ValidateUrl(parser, Str(s)) == Accepted
    ensures Validators.ValidateUrl(parser, Str(s)) == Validators.Invalid(Validators.LocalHostError)
  {
    LocalhostLower();
    assert "localhost" == Validators.ForbiddenHosts[0];
  }

  lemma LocalhostLower()
    ensures ToLower("localhost") == "localhost"
  {
    var h := "localhost";
    assert forall k :: 0 <= k < |h| ==> 'a' <= h[k] <= 'z';
    Validators.LowerKeepsNonLetters(h);
  }

  // ---------------------------------------------------------------------
  // The cache
  // ---------------------------------------------------------------------

  datatype CacheStats = CacheStats(hits: nat, misses: nat, ksize: nat, vsize: nat)

  /** The total size of the values stored under `keys`. */
  function ValuesSize(keys: seq<string>, store: map<string, PageData>, size: PageData -> nat): nat
    requires forall k :: k in keys ==> k in store
  {
    if keys == [] then 0
    else ValuesSize(keys[..|keys| - 1], store, size) + size(store[keys[|keys| - 1]])
  }

  /** Every stored value counts in full towards the total size. */
  lemma {:induction false} ValueWithinSize(keys: seq<string>, store: map<string, PageData>,
                                           size: PageData -> nat, k: string)
    requires forall x :: x in keys ==> x in store
    requires k in keys
    ensures size(store[k]) <= ValuesSize(keys, store, size)
    decreases |keys|
  {
    var init := keys[..|keys| - 1];
    assert forall x :: x in init ==> x in keys;
    if k != keys[|keys| - 1] {
      assert k in init;
      ValueWithinSize(init, store, size, k);
    }
  }

  /** A sequence without repetitions has as many distinct elements as it
      has positions. */
  lemma {:induction false} DistinctSize(s: seq<string>)
    requires forall i, j :: 0 <= i < j < |s| ==> s[i] != s[j]
    ensures |set x | x in s| == |s|
    decreases |s|
  {
    if s != [] {
      var init := s[..|s| - 1];
      DistinctSize(init);
      var last := s[|s| - 1];
      assert (set x | x in s) == (set x | x in init) + {last};
      assert last !in init;
    }
  }

  /** The cache object: a `Map` (its keys in insertion order and its
      contents), and the two counters. */
  class StatsCache {
    var order: seq<string>
    var store: map<string, PageData>
    var hits: nat
    var misses: nat
    /** The number of `get` calls since the last `clear`. */
    ghost var lookups: nat

    ghost predicate Valid()
      reads this
    {
      && (forall k :: k in store <==> k in order)
      && (forall i, j :: 0 <= i < j < |order| ==> order[i] != order[j])
      && hits + misses == lookups
    }

    constructor()
      ensures Valid()
      ensures store == map[] && order == [] && hits == 0 && misses == 0 && lookups == 0
    {
      order, store, hits, misses, lookups := [], map[], 0, 0, 0;
    }

    /** `cache.get(k)`: a hit returns the stored value and counts a hit; a
        miss counts a miss; nothing else changes. */
    method Get(k: string) returns (v: Option<PageData>)
      requires Valid()
      modifies this
      ensures Valid()
      ensures k in old(store) ==> v == Some(old(store)[k]) && hits == old(hits) + 1 && misses == old(misses)
      ensures k !in old(store) ==> v == None && misses == old(misses) + 1 && hits == old(hits)
      ensures store == old(store) && order == old(order) && lookups == old(lookups) + 1
    {
      lookups := lookups + 1;
      if k in store {
        hits := hits + 1;
        return Some(store[k]);
      }
      misses := misses + 1;
      return None;
    }

    /** `cache.set(k, v)`: the last write wins; a new key goes last in
        iteration order; the counters do not move. */
    method Set(k: string, v: PageData)
      requires Valid()
      modifies this
      ensures Valid()
      ensures store == old(store)[k := v]
      ensures order == if k in old(store) then old(order) else old(order) + [k]
      ensures hits == old(hits) && misses == old(misses) && lookups == old(lookups)
    {
      if k !in store {
        order := order + [k];
      }
      store := store[k := v];
    }

    /** `cache.keys()`: one key per stored entry, in insertion order. */
    method Keys() returns (ks: seq<string>)
      requires Valid()
      ensures ks == order
      ensures |ks| == |store|
      ensures forall k :: k in ks <==> k in store
    {
      ks := order;
      DistinctSize(order);
      assert (set x | x in order) == store.Keys;
    }

    /** `cache.clear()`: empties the map and resets both counters. */
    method Clear()
      requires Valid()
      modifies this
      ensures Valid()
      ensures store == map[] && order == [] && hits == 0 && misses == 0 && lookups == 0
    {
      order, store, hits, misses, lookups := [], map[], 0, 0, 0;
    }

    /** `cache.getStats()`: the counters, the number of keys, and the sum of
        the sizes of the stored values (their JSON length, here the function
        `size`). */
    method GetStats(size: PageData -> nat) returns (s: CacheStats)
      requires Valid()
      ensures s.hits == hits && s.misses == misses && s.ksize == |store|
      ensures s.vsize == ValuesSize(order, store, size)
      ensures forall k :: k in store ==> size(store[k]) <= s.vsize
    {
      var total := 0;
      var i := 0;
      while i < |order|
        invariant 0 <= i <= |order|
        invariant total == ValuesSize(order[..i], store, size)
      {
        assert order[..i + 1][..i] == order[..i];
        total := total + size(store[order[i]]);
        i := i + 1;
      }
      assert order[..|order|] == order;
      DistinctSize(order);
      assert (set x | x in order) == store.Keys;
      forall k | k in store ensures size(store[k]) <= total {
        ValueWithinSize(order, store, size, k);
      }
      s := CacheStats(hits, misses, |store|, total);
    }
  }

  /** `getCacheStats`: `keys` is the length of `cache.keys()`, which is
      always the stats' `ksize`. */
  method GetCacheStats(cache: StatsCache, size: PageData -> nat) returns (keys: nat, s: CacheStats)
    requires cache.Valid()
    ensures keys == s.ksize == |cache.store|
    ensures s.hits == cache.hits && s.misses == cache.misses
    ensures s.hits + s.misses == cache.lookups
  {
    s := cache.GetStats(size);
    var ks := cache.Keys();
    keys := |ks|;
  }

  /** `clearCache`. */
  method ClearCache(cache: StatsCache)
    requires cache.Valid()
    modifies cache
    ensures cache.Valid()
    ensures cache.store == map[] && cache.hits == 0 && cache.misses == 0
  {
    cache.Clear();
  }

  // ---------------------------------------------------------------------
  // scrapeUrl
  // ---------------------------------------------------------------------

  /** `scrapeUrl`: `url` is `req.body.url`; `outcome` is what fetching it
      would meet, used only when the handler scrapes, which `scraped`
      reports. */
  method ScrapeUrl(cache: StatsCache, parser: UrlParser, url: JsValue, scrapedAt: string,
                   outcome: HttpOutcome)
    returns (reply: Reply, scraped: bool)
    requires cache.Valid()
    modifies cache
    ensures cache.Valid()
    ensures !IsTruthy(url) ==> reply == MissingUrlReply
    ensures IsTruthy(url) && ValidateUrl(parser, url).Rejected? ==>
              reply == InvalidUrlReply(ValidateUrl(parser, url).error)
    ensures ValidateUrl(parser, url).Rejected? ==>
              !scraped && cache.store == old(cache.store) && cache.order == old(cache.order)
              && cache.hits == old(cache.hits) && cache.misses == old(cache.misses)
    ensures ValidateUrl(parser, url).Accepted? && url.s in old(cache.store) ==>
              && reply == PageReply(old(cache.store)[url.s], true, None)
              && !scraped && cache.store == old(cache.store)
              && cache.hits == old(cache.hits) + 1 && cache.misses == old(cache.misses)
    ensures ValidateUrl(parser, url).Accepted? && url.s !in old(cache.store) ==>
              && scraped && cache.hits == old(cache.hits) && cache.misses == old(cache.misses) + 1
              && match FailureMessage(outcome)
                 case None =>
                   var page := PageOf(parser, url.s, scrapedAt, outcome.body);
                   cache.store == old(cache.store)[url.s := page] && reply == PageReply(page, false, None)
                 case Some(m) =>
                   cache.store == old(cache.store) && reply == FailureReply(MemoryStatusOf(m))
  {
    scraped := false;
    if !IsTruthy(url) {
      return MissingUrlReply, false;
    }
    var validation := ValidateUrl(parser, url);
    if validation.Rejected? {
      return InvalidUrlReply(validation.error), false;
    }
    var cached := cache.Get(url.s);
    if cached.Some? {
      return PageReply(cached.value, true, None), false;
    }
    scraped := true;
    var result := Scrape(parser, url.s, scrapedAt, outcome);
    match result {
      case Success(page) =>
        cache.Set(url.s, page);
        reply := PageReply(page, false, None);
      case Failure(m) =>
        reply := FailureReply(MemoryStatusOf(m));
    }
  }
}
