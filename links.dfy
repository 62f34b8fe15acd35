/**
 * The link and image halves of the scraping service
 * (web-scraper/services/scrapingService.js): every `<a href>` and
 * `<img src>` is made absolute against the page URL when it is relative,
 * links are kept only when they start with "http", and each URL is kept
 * once, at its first occurrence.
 */
module Links {
  import opened Wrappers
  import opened Text
  import opened Document
  import opened Urls
  import Dedup

  datatype Link = Link(url: string, text: string)

  datatype Image = Image(src: string, alt: string, title: string)

  const DefaultLinkText := "Sans texte"

  // ---------------------------------------------------------------------
  // Collecting one candidate per element, then the first of each key
  // ---------------------------------------------------------------------

  /** The candidates `f` yields, element by element, in document order. */
  function Collect<T>(doc: Doc, f: Element -> Option<T>): seq<T> {
    if doc == [] then []
    else
      Collect(doc[..|doc| - 1], f)
        + (match f(doc[|doc| - 1]) case Some(x) => [x] case None => [])
  }

  lemma CollectStep<T>(doc: Doc, f: Element -> Option<T>, i: nat)
    requires i < |doc|
    ensures Collect(doc[..i + 1], f) ==
              Collect(doc[..i], f) + (match f(doc[i]) case Some(x) => [x] case None => [])
  {
    assert doc[..i + 1][..i] == doc[..i];
  }

  /** Every candidate comes from some element. */
  lemma {:induction false} CollectSound<T>(doc: Doc, f: Element -> Option<T>, x: T)
    requires x in Collect(doc, f)
    ensures exists i :: 0 <= i < |doc| && f(doc[i]) == Some(x)
    decreases |doc|
  {
    var init := doc[..|doc| - 1];
    if x in Collect(init, f) {
      CollectSound(init, f, x);
      var i :| 0 <= i < |init| && f(init[i]) == Some(x);
      assert init[i] == doc[i];
    }
  }

  /** Every element's candidate is collected. */
  lemma {:induction false} CollectComplete<T>(doc: Doc, f: Element -> Option<T>, i: nat)
    requires i < |doc| && f(doc[i]).Some?
    ensures f(doc[i]).value in Collect(doc, f)
    decreases |doc|
  {
    var init := doc[..|doc| - 1];
    if i < |doc| - 1 {
      assert init[i] == doc[i];
      CollectComplete(init, f, i);
    }
  }

  /** The candidates of a prefix of the page are a prefix of its
      candidates. */
  lemma {:induction false} CollectPrefix<T>(doc: Doc, f: Element -> Option<T>, n: nat)
    requires n <= |doc|
    ensures Collect(doc[..n], f) <= Collect(doc, f)
    decreases |doc| - n
  {
    if n < |doc| {
      CollectPrefix(doc, f, n + 1);
      CollectStep(doc, f, n);
    } else {
      assert doc[..n] == doc;
    }
  }

  /** The loop shared by `extractLinks` and `extractImages`: walk the
      elements, and push a candidate when its key is not yet in `seen`. */
  method CollectDistinct<T>(doc: Doc, f: Element -> Option<T>, key: T -> string)
    returns (out: seq<T>)
    ensures out == Dedup.Dedup(Collect(doc, f), key)
    ensures Dedup.DistinctKeys(out, key)
  {
    out := [];
    var seen: set<string> := {};
    var i := 0;
    while i < |doc|
      invariant 0 <= i <= |doc|
      invariant out == Dedup.Dedup(Collect(doc[..i], f), key)
      invariant seen == Dedup.Keys(out, key)
    {
      CollectDistinctStep(doc, f, key, i);
      var c := f(doc[i]);
      if c.Some? && key(c.value) !in seen {
        Dedup.KeysAppend(out, c.value, key);
        seen := seen + {key(c.value)};
        out := out + [c.value];
      }
      i := i + 1;
    }
    assert doc[..|doc|] == doc;
    Dedup.DedupDistinct(Collect(doc, f), key);
  }

  lemma CollectDistinctStep<T>(doc: Doc, f: Element -> Option<T>, key: T -> string, i: nat)
    requires i < |doc|
    ensures var kept := Dedup.Dedup(Collect(doc[..i], f), key);
            Dedup.Dedup(Collect(doc[..i + 1], f), key) ==
              match f(doc[i])
              case None => kept
              case Some(x) => if key(x) in Dedup.Keys(kept, key) then kept else kept + [x]
  {
    CollectStep(doc, f, i);
    if f(doc[i]).Some? {
      Dedup.DedupAppend(Collect(doc[..i], f), f(doc[i]).value, key);
    } else {
      assert Collect(doc[..i + 1], f) == Collect(doc[..i], f);
    }
  }

  // ---------------------------------------------------------------------
  // Making references absolute
  // ---------------------------------------------------------------------

  /** The reference starts with '/', './' or '../'. */
  predicate IsRelative(ref: string) {
    StartsWith(ref, "/") || StartsWith(ref, "./") || StartsWith(ref, "../")
  }

  /** A relative reference is replaced by `new URL(ref, base).href` (`None`
      when that throws, and the element is skipped); any other reference is
      kept as written. */
  function Absolutize(parser: UrlParser, ref: string, base: string): Option<string> {
    if IsRelative(ref) then parser.resolve(ref, base) else Some(ref)
  }

  // ---------------------------------------------------------------------
  // extractLinks
  // ---------------------------------------------------------------------

  /** `$(el).text().trim() || 'Sans texte'`. */
  function LinkText(e: Element): (r: string)
    ensures r != "" && IsTrimmed(r)
    ensures !AllSpace(e.text) ==> r == Trim(e.text)
    ensures AllSpace(e.text) ==> r == DefaultLinkText
  {
    var t := Trim(e.text);
    if t != "" then t
    else
      DefaultLinkTextIsTrimmed();
      DefaultLinkText
  }

  lemma DefaultLinkTextIsTrimmed()
    ensures DefaultLinkText != "" && IsTrimmed(DefaultLinkText)
  {
    assert DefaultLinkText[0] == 'S' && DefaultLinkText[|DefaultLinkText| - 1] == 'e';
  }

  /** What one element contributes to `extractLinks` before the `seen`
      check: an `<a>` with a non-empty `href` whose absolute form exists and
      starts with "http". */
  function LinkCandidate(parser: UrlParser, base: string, e: Element): (r: Option<Link>)
    ensures r.Some? <==>
              && e.tag == "a" && AttrOrEmpty(e, "href") != ""
              && Absolutize(parser, AttrOrEmpty(e, "href"), base).Some?
              && StartsWith(Absolutize(parser, AttrOrEmpty(e, "href"), base).value, "http")
    ensures r.Some? ==> Some(r.value.url) == Absolutize(parser, AttrOrEmpty(e, "href"), base)
    ensures r.Some? ==> r.value.text == LinkText(e)
  {
    if e.tag != "a" then None
    else
      var href := AttrOrEmpty(e, "href");
      if href == "" then None
      else match Absolutize(parser, href, base)
        case None => None
        case Some(url) => if StartsWith(url, "http") then Some(Link(url, LinkText(e))) else None
  }

  function LinkOf(parser: UrlParser, base: string): Element -> Option<Link> {
    e => LinkCandidate(parser, base, e)
  }

  function LinkUrl(l: Link): string {
    l.url
  }

  /** The links of the page, as `extractLinks` returns them. */
  function PageLinks(parser: UrlParser, base: string, doc: Doc): seq<Link> {
    Dedup.Dedup(Collect(doc, LinkOf(parser, base)), LinkUrl)
  }

  /** `extractLinks`. */
  method ExtractLinks(parser: UrlParser, base: string, doc: Doc) returns (links: seq<Link>)
    ensures links == PageLinks(parser, base, doc)
    ensures forall i, j :: 0 <= i < j < |links| ==> links[i].url != links[j].url
  {
    links := CollectDistinct(doc, LinkOf(parser, base), LinkUrl);
    assert Dedup.DistinctKeys(links, LinkUrl);
  }

  /** Every link is an "http…" URL that some `<a>` of the page yields, with
      a non-empty trimmed text. */
  lemma LinksSound(parser: UrlParser, base: string, doc: Doc, l: Link)
    requires l in PageLinks(parser, base, doc)
    ensures StartsWith(l.url, "http") && l.text != "" && IsTrimmed(l.text)
    ensures exists i :: 0 <= i < |doc| && doc[i].tag == "a" && LinkCandidate(parser, base, doc[i]) == Some(l)
  {
    var f := LinkOf(parser, base);
    Dedup.KeptAreFirst(Collect(doc, f), LinkUrl, l);
    CollectSound(doc, f, l);
    var i :| 0 <= i < |doc| && f(doc[i]) == Some(l);
    assert LinkCandidate(parser, base, doc[i]) == Some(l);
  }

  /** Every URL some `<a>` yields is among the links. */
  lemma LinksComplete(parser: UrlParser, base: string, doc: Doc, i: nat)
    requires i < |doc| && LinkCandidate(parser, base, doc[i]).Some?
    ensures exists l :: l in PageLinks(parser, base, doc) && l.url == LinkCandidate(parser, base, doc[i]).value.url
  {
    var f := LinkOf(parser, base);
    var cs := Collect(doc, f);
    var c := LinkCandidate(parser, base, doc[i]).value;
    assert f(doc[i]) == Some(c);
    CollectComplete(doc, f, i);
    Dedup.DedupKeys(cs, LinkUrl);
    Dedup.KeysMember(Dedup.Dedup(cs, LinkUrl), LinkUrl, c.url);
  }

  /** An absolute "http…" `href` is kept exactly as written. */
  lemma AbsoluteHrefKept(parser: UrlParser, base: string, doc: Doc, i: nat)
    requires i < |doc| && doc[i].tag == "a"
    requires "href" in doc[i].attrs
    requires !IsRelative(doc[i].attrs["href"]) && StartsWith(doc[i].attrs["href"], "http")
    ensures exists l :: l in PageLinks(parser, base, doc) && l.url == doc[i].attrs["href"]
  {
    LinksComplete(parser, base, doc, i);
  }

  /** A relative `href` whose resolution fails contributes nothing. */
  lemma UnresolvableHrefSkipped(parser: UrlParser, base: string, e: Element)
    requires "href" in e.attrs && IsRelative(e.attrs["href"])
    requires parser.resolve(e.attrs["href"], base).None?
    ensures LinkCandidate(parser, base, e).None?
  {
  }

  /** Links keep document order: the links of a prefix of the page are a
      prefix of the page's links. */
  lemma LinksInDocumentOrder(parser: UrlParser, base: string, doc: Doc, n: nat)
    requires n <= |doc|
    ensures PageLinks(parser, base, doc[..n]) <= PageLinks(parser, base, doc)
  {
    var f := LinkOf(parser, base);
    var cs := Collect(doc, f);
    var ps := Collect(doc[..n], f);
    CollectPrefix(doc, f, n);
    assert ps == cs[..|ps|];
    Dedup.DedupPrefix(cs, LinkUrl, |ps|);
  }

  // ---------------------------------------------------------------------
  // extractImages
  // ---------------------------------------------------------------------

  /** What one element contributes to `extractImages` before the `seen`
      check: an `<img>` with a non-empty `src` whose absolute form exists,
      with its `alt` and `title` ('' when absent). */
  function ImageCandidate(parser: UrlParser, base: string, e: Element): (r: Option<Image>)
    ensures r.Some? <==>
              e.tag == "img" && AttrOrEmpty(e, "src") != ""
              && Absolutize(parser, AttrOrEmpty(e, "src"), base).Some?
    ensures r.Some? ==> Some(r.value.src) == Absolutize(parser, AttrOrEmpty(e, "src"), base)
    ensures r.Some? ==> r.value.alt == AttrOrEmpty(e, "alt") && r.value.title == AttrOrEmpty(e, "title")
  {
    if e.tag != "img" then None
    else
      var src := AttrOrEmpty(e, "src");
      if src == "" then None
      else match Absolutize(parser, src, base)
        case None => None
        case Some(url) => Some(Image(url, AttrOrEmpty(e, "alt"), AttrOrEmpty(e, "title")))
  }

  function ImageOf(parser: UrlParser, base: string): Element -> Option<Image> {
    e => ImageCandidate(parser, base, e)
  }

  function ImageSrc(im: Image): string {
    im.src
  }

  /** The images of the page, as `extractImages` returns them. */
  function PageImages(parser: UrlParser, base: string, doc: Doc): seq<Image> {
    Dedup.Dedup(Collect(doc, ImageOf(parser, base)), ImageSrc)
  }

  /** `extractImages`. */
  method ExtractImages(parser: UrlParser, base: string, doc: Doc) returns (images: seq<Image>)
    ensures images == PageImages(parser, base, doc)
    ensures forall i, j :: 0 <= i < j < |images| ==> images[i].src != images[j].src
  {
    images := CollectDistinct(doc, ImageOf(parser, base), ImageSrc);
    assert Dedup.DistinctKeys(images, ImageSrc);
  }

  /** Every image comes from some `<img>` of the page; its source is never
      empty when resolution never yields an empty URL (a WHATWG `href`
      always has a scheme). */
  lemma ImagesSound(parser: UrlParser, base: string, doc: Doc, im: Image)
    requires im in PageImages(parser, base, doc)
    ensures exists i :: 0 <= i < |doc| && doc[i].tag == "img" && ImageCandidate(parser, base, doc[i]) == Some(im)
    ensures ResolvesNonEmpty(parser) ==> im.src != ""
  {
    var f := ImageOf(parser, base);
    Dedup.KeptAreFirst(Collect(doc, f), ImageSrc, im);
    CollectSound(doc, f, im);
    var i :| 0 <= i < |doc| && f(doc[i]) == Some(im);
    assert ImageCandidate(parser, base, doc[i]) == Some(im);
  }

  /** The resolver never yields an empty URL. */
  ghost predicate ResolvesNonEmpty(parser: UrlParser) {
    forall ref, base :: parser.resolve(ref, base).Some? ==> parser.resolve(ref, base).value != ""
  }

  /** Every source some `<img>` yields is among the images, whatever its
      scheme. */
  lemma ImagesComplete(parser: UrlParser, base: string, doc: Doc, i: nat)
    requires i < |doc| && ImageCandidate(parser, base, doc[i]).Some?
    ensures exists im :: im in PageImages(parser, base, doc) && im.src == ImageCandidate(parser, base, doc[i]).value.src
  {
    var f := ImageOf(parser, base);
    var cs := Collect(doc, f);
    var c := ImageCandidate(parser, base, doc[i]).value;
    assert f(doc[i]) == Some(c);
    CollectComplete(doc, f, i);
    Dedup.DedupKeys(cs, ImageSrc);
    Dedup.KeysMember(Dedup.Dedup(cs, ImageSrc), ImageSrc, c.src);
  }
}
