/**
 * The page-reading half of the scraping service
 * (web-scraper/services/scrapingService.js): the title with its fallbacks,
 * the six meta fields, the headings grouped by level and the normalised
 * paragraphs.
 */
module Extraction {
  import opened Wrappers
  import opened Text
  import opened Document

  // ---------------------------------------------------------------------
  // extractTitle
  // ---------------------------------------------------------------------

  const DefaultTitle := "Sans titre"

  /** The trimmed text of the first `<h1>`, empty when there is none. */
  function FirstH1Text(doc: Doc): (r: string)
    ensures IsTrimmed(r)
    ensures CountTag(doc, "h1") == 0 ==> r == ""
    ensures forall i :: 0 <= i < |doc| && doc[i].tag == "h1" && NoneBefore(doc, "h1", i) ==>
              r == Trim(doc[i].text)
  {
    match First(doc, "h1")
    case None => ""
    case Some(e) => Trim(e.text)
  }

  /** `extractTitle`: the trimmed text of all `<title>` elements, else the
      trimmed text of the first `<h1>`, else `'Sans titre'`; never empty. */
  function ExtractTitle(doc: Doc): (r: string)
    ensures r != "" && IsTrimmed(r)
    ensures !AllSpace(TagText(doc, "title")) ==> r == Trim(TagText(doc, "title"))
    ensures AllSpace(TagText(doc, "title")) && FirstH1Text(doc) != "" ==> r == FirstH1Text(doc)
    ensures AllSpace(TagText(doc, "title")) && FirstH1Text(doc) == "" ==> r == DefaultTitle
  {
    var t := Trim(TagText(doc, "title"));
    if t != "" then t
    else
      var h := FirstH1Text(doc);
      if h != "" then h
      else
        DefaultTitleIsTrimmed();
        DefaultTitle
  }

  lemma DefaultTitleIsTrimmed()
    ensures IsTrimmed(DefaultTitle)
  {
    assert DefaultTitle[0] == 'S' && DefaultTitle[|DefaultTitle| - 1] == 'e';
  }

  /** A page with neither a `<title>` nor an `<h1>` is called
      `'Sans titre'`. */
  lemma UntitledPage(doc: Doc)
    requires CountTag(doc, "title") == 0 && CountTag(doc, "h1") == 0
    ensures ExtractTitle(doc) == DefaultTitle
  {
  }

  /** Only the first `<h1>` can supply the title: whatever follows it does
      not matter. */
  lemma {:induction false} TitleIgnoresLaterH1(doc: Doc, rest: Doc)
    requires CountTag(doc, "title") == 0 && CountTag(rest, "title") == 0
    requires CountTag(doc, "h1") > 0
    ensures ExtractTitle(doc + rest) == ExtractTitle(doc)
  {
    FirstOfAppend(doc, rest, "h1");
    TagTextAppend(doc, rest, "title");
  }

  lemma {:induction false} FirstOfAppend(doc: Doc, rest: Doc, tag: string)
    requires CountTag(doc, tag) > 0
    ensures First(doc + rest, tag) == First(doc, tag)
    decreases |doc|
  {
    CountTagCons(doc, tag);
    assert (doc + rest)[0] == doc[0];
    if doc[0].tag != tag {
      assert (doc + rest)[1..] == doc[1..] + rest;
      FirstOfAppend(doc[1..], rest, tag);
    }
  }

  lemma {:induction false} TagTextAppend(doc: Doc, rest: Doc, tag: string)
    ensures TagText(doc + rest, tag) == TagText(doc, tag) + TagText(rest, tag)
    decreases |rest|
  {
    if rest == [] {
      assert doc + rest == doc;
    } else {
      var init := rest[..|rest| - 1];
      assert (doc + rest)[..|doc + rest| - 1] == doc + init;
      TagTextAppend(doc, init, tag);
    }
  }

  // ---------------------------------------------------------------------
  // extractMeta
  // ---------------------------------------------------------------------

  datatype Meta = Meta(
    description: string,
    keywords: string,
    author: string,
    ogTitle: string,
    ogDescription: string,
    ogImage: string)

  /** `$('meta[name="value"]').attr('content') || ''`: the `content` of the
      first matching `<meta>`, or `''` when there is no such element or it
      has no (or an empty) `content`. */
  function MetaContent(doc: Doc, name: string, value: string): (r: string)
    ensures NoMatchBefore(doc, "meta", name, value, |doc|) ==> r == ""
    ensures forall i :: 0 <= i < |doc| && NoMatchBefore(doc, "meta", name, value, i)
                        && Matches(doc[i], "meta", name, value) ==>
              r == (if "content" in doc[i].attrs then doc[i].attrs["content"] else "")
  {
    match FirstWithAttr(doc, "meta", name, value)
    case None => ""
    case Some(e) => AttrOrEmpty(e, "content")
  }

  /** `extractMeta`: each of the six fields is the `content` of the first
      `<meta>` that carries its name or property. */
  function ExtractMeta(doc: Doc): (m: Meta)
    ensures m.description == MetaContent(doc, "name", "description")
    ensures m.keywords == MetaContent(doc, "name", "keywords")
    ensures m.author == MetaContent(doc, "name", "author")
    ensures m.ogTitle == MetaContent(doc, "property", "og:title")
    ensures m.ogDescription == MetaContent(doc, "property", "og:description")
    ensures m.ogImage == MetaContent(doc, "property", "og:image")
  {
    Meta(
      MetaContent(doc, "name", "description"),
      MetaContent(doc, "name", "keywords"),
      MetaContent(doc, "name", "author"),
      MetaContent(doc, "property", "og:title"),
      MetaContent(doc, "property", "og:description"),
      MetaContent(doc, "property", "og:image"))
  }

  /** A page without `<meta>` elements has six empty fields. */
  lemma NoMetaPage(doc: Doc)
    requires CountTag(doc, "meta") == 0
    ensures ExtractMeta(doc) == Meta("", "", "", "", "", "")
  {
    NoMetaNoMatch(doc, "name", "description");
    NoMetaNoMatch(doc, "name", "keywords");
    NoMetaNoMatch(doc, "name", "author");
    NoMetaNoMatch(doc, "property", "og:title");
    NoMetaNoMatch(doc, "property", "og:description");
    NoMetaNoMatch(doc, "property", "og:image");
  }

  /** A page whose first `<meta name="description">` carries `content="d"`
      has `d` as its description, whatever else the page holds. */
  lemma DescriptionFromFirstTag(doc: Doc, i: nat, d: string)
    requires i < |doc| && doc[i].tag == "meta" && NoMatchBefore(doc, "meta", "name", "description", i)
    requires "name" in doc[i].attrs && doc[i].attrs["name"] == "description"
    requires "content" in doc[i].attrs && doc[i].attrs["content"] == d
    ensures ExtractMeta(doc).description == d
  {
    assert Matches(doc[i], "meta", "name", "description");
  }

  lemma {:induction false} NoMetaNoMatch(doc: Doc, name: string, value: string)
    requires CountTag(doc, "meta") == 0
    ensures NoMatchBefore(doc, "meta", name, value, |doc|)
    decreases |doc|
  {
    if doc != [] {
      CountTagCons(doc, "meta");
      NoMetaNoMatch(doc[1..], name, value);
      assert forall j :: 1 <= j < |doc| ==> doc[j] == doc[1..][j - 1];
    }
  }

  // ---------------------------------------------------------------------
  // extractHeadings
  // ---------------------------------------------------------------------

  const HeadingTags: seq<string> := ["h1", "h2", "h3", "h4", "h5", "h6"]

  datatype Heading = Heading(level: string, text: string)

  /** The rank of a heading level: 1 for `h1` up to 6 for `h6`, 0 for any
      other string. */
  function Rank(level: string): nat {
    if |level| == 2 && level[0] == 'h' && '1' <= level[1] <= '6'
    then level[1] as int - '0' as int
    else 0
  }

  lemma RankOfTag(k: nat)
    requires k < 6
    ensures Rank(HeadingTags[k]) == k + 1
  {
  }

  /** `$(el).text().trim()`. */
  function HeadingText(e: Element): (r: string)
    ensures IsTrimmed(r)
  {
    Trim(e.text)
  }

  /** The headings one pass of `$(tag).each` pushes: every element with the
      tag whose trimmed text is not empty, in document order. */
  function LevelHeadings(doc: Doc, tag: string): seq<Heading>
  {
    if doc == [] then []
    else
      var last := doc[|doc| - 1];
      var text := HeadingText(last);
      LevelHeadings(doc[..|doc| - 1], tag)
        + (if last.tag == tag && text != "" then [Heading(tag, text)] else [])
  }

  /** One pass yields at most one heading per element with the tag, each
      of that level and with a trimmed, non-empty text. */
  lemma {:induction false} LevelHeadingsWellFormed(doc: Doc, tag: string)
    ensures |LevelHeadings(doc, tag)| <= CountTag(doc, tag)
    ensures forall h :: h in LevelHeadings(doc, tag) ==>
              h.level == tag && h.text != "" && IsTrimmed(h.text)
    decreases |doc|
  {
    if doc != [] {
      LevelHeadingsWellFormed(doc[..|doc| - 1], tag);
    }
  }

  /** What `extractHeadings` has collected after the first `n` tags of
      `h1` … `h6`. */
  function HeadingsUpTo(doc: Doc, n: nat): seq<Heading>
    requires n <= 6
  {
    if n == 0 then [] else HeadingsUpTo(doc, n - 1) + LevelHeadings(doc, HeadingTags[n - 1])
  }

  /** `extractHeadings`: one pass over the page per tag, `h1` first. */
  method ExtractHeadings(doc: Doc) returns (hs: seq<Heading>)
    ensures hs == HeadingsUpTo(doc, 6)
  {
    hs := [];
    var t := 0;
    while t < 6
      invariant 0 <= t <= 6
      invariant hs == HeadingsUpTo(doc, t)
    {
      var level := CollectLevel(doc, HeadingTags[t]);
      hs := hs + level;
      t := t + 1;
    }
  }

  /** The body of `$(tag).each(...)`: the headings of one level, in
      document order. */
  method CollectLevel(doc: Doc, tag: string) returns (level: seq<Heading>)
    ensures level == LevelHeadings(doc, tag)
  {
    level := [];
    var i := 0;
    while i < |doc|
      invariant 0 <= i <= |doc|
      invariant level == LevelHeadings(doc[..i], tag)
    {
      var text := HeadingText(doc[i]);
      LevelHeadingsStep(doc, i, tag);
      if doc[i].tag == tag && text != "" {
        level := level + [Heading(tag, text)];
      }
      i := i + 1;
    }
    assert doc[..|doc|] == doc;
  }

  lemma LevelHeadingsStep(doc: Doc, i: nat, tag: string)
    requires i < |doc|
    ensures LevelHeadings(doc[..i + 1], tag) == LevelHeadings(doc[..i], tag)
              + (if doc[i].tag == tag && HeadingText(doc[i]) != "" then [Heading(tag, HeadingText(doc[i]))] else [])
  {
    assert doc[..i + 1][..i] == doc[..i];
  }

  /** Every heading carries a level from `h1` to `h6` and a trimmed,
      non-empty text. */
  lemma {:induction false} HeadingsWellFormed(doc: Doc, n: nat)
    requires n <= 6
    ensures forall h :: h in HeadingsUpTo(doc, n) ==>
              1 <= Rank(h.level) <= n && h.text != "" && IsTrimmed(h.text)
  {
    if n > 0 {
      HeadingsWellFormed(doc, n - 1);
      RankOfTag(n - 1);
      LevelHeadingsWellFormed(doc, HeadingTags[n - 1]);
    }
  }

  /** All `h1` come before any `h2`, and so on: levels never decrease along
      the result, whatever the order of the headings on the page. */
  lemma {:induction false} HeadingsOrderedByLevel(doc: Doc, n: nat)
    requires n <= 6
    ensures forall i, j :: 0 <= i < j < |HeadingsUpTo(doc, n)| ==>
              Rank(HeadingsUpTo(doc, n)[i].level) <= Rank(HeadingsUpTo(doc, n)[j].level)
  {
    if n > 0 {
      HeadingsOrderedByLevel(doc, n - 1);
      HeadingsWellFormed(doc, n - 1);
      RankOfTag(n - 1);
      LevelHeadingsWellFormed(doc, HeadingTags[n - 1]);
      var a := HeadingsUpTo(doc, n - 1);
      var b := LevelHeadings(doc, HeadingTags[n - 1]);
      var hs: seq<Heading> := a + b;
      assert HeadingsUpTo(doc, n) == hs;
      forall i: int, j: int | 0 <= i < j < |hs|
        ensures Rank(hs[i].level) <= Rank(hs[j].level)
      {
        if i < |a| {
          assert hs[i] == a[i] && a[i] in a;
        } else {
          assert hs[i] == b[i - |a|] && b[i - |a|] in b;
        }
        if j < |a| {
          assert hs[j] == a[j] && a[j] in a;
        } else {
          assert hs[j] == b[j - |a|] && b[j - |a|] in b;
        }
      }
    }
  }

  /** The headings of one level, taken from the result. */
  function OfLevel(hs: seq<Heading>, tag: string): (r: seq<Heading>)
    ensures |r| <= |hs|
  {
    if hs == [] then []
    else OfLevel(hs[..|hs| - 1], tag)
           + (if hs[|hs| - 1].level == tag then [hs[|hs| - 1]] else [])
  }

  lemma {:induction false} OfLevelAppend(a: seq<Heading>, b: seq<Heading>, tag: string)
    ensures OfLevel(a + b, tag) == OfLevel(a, tag) + OfLevel(b, tag)
    decreases |b|
  {
    if b == [] {
      assert a + b == a;
    } else {
      assert (a + b)[..|a + b| - 1] == a + b[..|b| - 1];
      OfLevelAppend(a, b[..|b| - 1], tag);
    }
  }

  lemma {:induction false} OfLevelUniform(hs: seq<Heading>, tag: string, level: string)
    requires forall h :: h in hs ==> h.level == level
    ensures OfLevel(hs, tag) == if tag == level then hs else []
    decreases |hs|
  {
    if hs != [] {
      OfLevelUniform(hs[..|hs| - 1], tag, level);
    }
  }

  /** Within one level the page's order is kept: the headings of level
      `HeadingTags[k]` in the result are exactly that level's headings in
      document order. */
  lemma {:induction false} HeadingsOfOneLevel(doc: Doc, n: nat, k: nat)
    requires k < n <= 6
    ensures OfLevel(HeadingsUpTo(doc, n), HeadingTags[k]) == LevelHeadings(doc, HeadingTags[k])
  {
    var tag := HeadingTags[k];
    var a := HeadingsUpTo(doc, n - 1);
    var b := LevelHeadings(doc, HeadingTags[n - 1]);
    assert HeadingsUpTo(doc, n) == a + b;
    OfLevelAppend(a, b, tag);
    LevelHeadingsWellFormed(doc, HeadingTags[n - 1]);
    OfLevelUniform(b, tag, HeadingTags[n - 1]);
    RankOfTag(k);
    RankOfTag(n - 1);
    if k < n - 1 {
      assert tag != HeadingTags[n - 1];
      assert OfLevel(b, tag) == [];
      HeadingsOfOneLevel(doc, n - 1, k);
      assert OfLevel(a, tag) == LevelHeadings(doc, tag);
    } else {
      assert OfLevel(b, tag) == b;
      HeadingsWellFormed(doc, n - 1);
      forall h | h in a ensures h.level != tag {
        assert Rank(h.level) <= k;
      }
      OfLevelNone(a, tag);
    }
  }

  lemma {:induction false} OfLevelNone(hs: seq<Heading>, tag: string)
    requires forall h :: h in hs ==> h.level != tag
    ensures OfLevel(hs, tag) == []
    decreases |hs|
  {
    if hs != [] {
      OfLevelNone(hs[..|hs| - 1], tag);
    }
  }

  // ---------------------------------------------------------------------
  // extractParagraphs
  // ---------------------------------------------------------------------

  const MinParagraphLength := 20

  /** `text.trim().replace(/\s+/g, ' ')`. */
  function ParagraphText(e: Element): (r: string)
    ensures IsNormalized(r)
  {
    TrimThenCollapseIsNormalized(e.text);
    CollapseSpaces(Trim(e.text))
  }

  /** The paragraphs `extractParagraphs` keeps, in document order: the
      normalised text of each `<p>` longer than 20 characters. */
  function Paragraphs(doc: Doc): seq<string>
  {
    if doc == [] then []
    else
      var last := doc[|doc| - 1];
      var text := ParagraphText(last);
      Paragraphs(doc[..|doc| - 1])
        + (if last.tag == "p" && |text| > MinParagraphLength then [text] else [])
  }

  /** `extractParagraphs`. */
  method ExtractParagraphs(doc: Doc) returns (ps: seq<string>)
    ensures ps == Paragraphs(doc)
  {
    ps := [];
    var i := 0;
    while i < |doc|
      invariant 0 <= i <= |doc|
      invariant ps == Paragraphs(doc[..i])
    {
      ParagraphsStep(doc, i);
      var text := ParagraphText(doc[i]);
      if doc[i].tag == "p" && text != "" && |text| > MinParagraphLength {
        ps := ps + [text];
      }
      i := i + 1;
    }
    assert doc[..|doc|] == doc;
  }

  lemma ParagraphsStep(doc: Doc, i: nat)
    requires i < |doc|
    ensures var text := ParagraphText(doc[i]);
      doc[i].tag == "p" && text != "" && |text| > MinParagraphLength ==>
        Paragraphs(doc[..i + 1]) == Paragraphs(doc[..i]) + [text]
    ensures var text := ParagraphText(doc[i]);
      !(doc[i].tag == "p" && text != "" && |text| > MinParagraphLength) ==>
        Paragraphs(doc[..i + 1]) == Paragraphs(doc[..i])
  {
    assert doc[..i + 1][..i] == doc[..i];
    assert Paragraphs(doc[..i]) + [] == Paragraphs(doc[..i]);
  }

  /** Every kept paragraph is longer than 20 characters and normalised (no
      whitespace at either end, only single spaces inside). */
  lemma {:induction false} ParagraphsWellFormed(doc: Doc)
    ensures forall p :: p in Paragraphs(doc) ==> |p| > MinParagraphLength && IsNormalized(p)
    decreases |doc|
  {
    if doc != [] {
      var init := doc[..|doc| - 1];
      var text := ParagraphText(doc[|doc| - 1]);
      ParagraphsWellFormed(init);
      forall p | p in Paragraphs(doc) ensures |p| > MinParagraphLength && IsNormalized(p) {
        if p !in Paragraphs(init) {
          assert p == text;
        }
      }
    }
  }

  /** There are at most as many paragraphs as `<p>` elements. */
  lemma {:induction false} ParagraphsAtMostOnePerElement(doc: Doc)
    ensures |Paragraphs(doc)| <= CountTag(doc, "p")
    decreases |doc|
  {
    if doc != [] {
      ParagraphsAtMostOnePerElement(doc[..|doc| - 1]);
    }
  }

  /** A `<p>` whose normalised text is longer than 20 characters is kept. */
  lemma {:induction false} LongParagraphKept(doc: Doc, i: nat)
    requires i < |doc| && doc[i].tag == "p" && |ParagraphText(doc[i])| > MinParagraphLength
    ensures ParagraphText(doc[i]) in Paragraphs(doc)
    decreases |doc|
  {
    if i < |doc| - 1 {
      assert doc[..|doc| - 1][i] == doc[i];
      LongParagraphKept(doc[..|doc| - 1], i);
    }
  }
}
