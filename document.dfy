/**
 * The parsed page the extraction functions query. An HTML parser turns the
 * response body into elements; here the page is the sequence of its
 * elements in document order, each with its tag name, its attributes and its
 * text content (the concatenated text of the element and its descendants,
 * as `.text()` gives it for one element).
 */
module Document {
  import opened Wrappers

  datatype Element = Element(tag: string, attrs: map<string, string>, text: string)

  type Doc = seq<Element>

  /** `$(el).attr(name)`: the attribute's value, `None` when it is absent. */
  function Attr(e: Element, name: string): Option<string> {
    if name in e.attrs then Some(e.attrs[name]) else None
  }

  /** `$(el).attr(name) || ''`. */
  function AttrOrEmpty(e: Element, name: string): string {
    if name in e.attrs then e.attrs[name] else ""
  }

  /** How many elements have the given tag. */
  function CountTag(doc: Doc, tag: string): nat {
    if doc == [] then 0
    else CountTag(doc[..|doc| - 1], tag) + (if doc[|doc| - 1].tag == tag then 1 else 0)
  }

  /** `$(tag).text()`: the texts of all elements with the tag, concatenated
      in document order. */
  function TagText(doc: Doc, tag: string): (r: string)
    ensures CountTag(doc, tag) == 0 ==> r == ""
  {
    if doc == [] then ""
    else
      var last := doc[|doc| - 1];
      TagText(doc[..|doc| - 1], tag) + (if last.tag == tag then last.text else "")
  }

  /** `$(tag).first()`: the first element with the tag, if any. */
  function First(doc: Doc, tag: string): (r: Option<Element>)
    ensures r.Some? ==> r.value.tag == tag
    ensures r.Some? ==> exists i :: 0 <= i < |doc| && doc[i] == r.value && NoneBefore(doc, tag, i)
    ensures r.None? <==> CountTag(doc, tag) == 0
    ensures forall i :: 0 <= i < |doc| && doc[i].tag == tag && NoneBefore(doc, tag, i) ==> r == Some(doc[i])
  {
    if doc == [] then None
    else
      CountTagCons(doc, tag);
      if doc[0].tag == tag then
        assert NoneBefore(doc, tag, 0);
        Some(doc[0])
      else
        var r := First(doc[1..], tag);
        if r.Some? then
          var i :| 0 <= i < |doc[1..]| && doc[1..][i] == r.value && NoneBefore(doc[1..], tag, i);
          assert doc[i + 1] == r.value && NoneBefore(doc, tag, i + 1);
          r
        else r
  }

  /** No element before position `i` has the tag. */
  predicate NoneBefore(doc: Doc, tag: string, i: int)
    requires 0 <= i <= |doc|
  {
    forall j :: 0 <= j < i ==> doc[j].tag != tag
  }

  /** `$(tag + '[' + name + '="' + value + '"]').first()`: the first element
      with the tag whose attribute `name` is exactly `value`. */
  function FirstWithAttr(doc: Doc, tag: string, name: string, value: string): (r: Option<Element>)
    ensures r.Some? ==> Matches(r.value, tag, name, value)
    ensures r.Some? ==> exists i :: 0 <= i < |doc| && doc[i] == r.value && NoMatchBefore(doc, tag, name, value, i)
    ensures r.None? <==> NoMatchBefore(doc, tag, name, value, |doc|)
    ensures forall i :: 0 <= i < |doc| && NoMatchBefore(doc, tag, name, value, i) && Matches(doc[i], tag, name, value) ==>
              r == Some(doc[i])
  {
    if doc == [] then None
    else if Matches(doc[0], tag, name, value) then
      assert NoMatchBefore(doc, tag, name, value, 0);
      Some(doc[0])
    else
      var r := FirstWithAttr(doc[1..], tag, name, value);
      assert forall i :: 1 <= i < |doc| ==> doc[i] == doc[1..][i - 1];
      if r.Some? then
        var i :| 0 <= i < |doc[1..]| && doc[1..][i] == r.value
                 && NoMatchBefore(doc[1..], tag, name, value, i);
        assert doc[i + 1] == r.value && NoMatchBefore(doc, tag, name, value, i + 1);
        r
      else r
  }

  /** The element matches the selector `tag[name="value"]`. */
  predicate Matches(e: Element, tag: string, name: string, value: string) {
    e.tag == tag && Attr(e, name) == Some(value)
  }

  predicate NoMatchBefore(doc: Doc, tag: string, name: string, value: string, i: int)
    requires 0 <= i <= |doc|
  {
    forall j :: 0 <= j < i ==> !Matches(doc[j], tag, name, value)
  }

  /** Counting from the front gives the same number as counting from the
      back. */
  lemma {:induction false} CountTagCons(doc: Doc, tag: string)
    requires doc != []
    ensures CountTag(doc, tag) == (if doc[0].tag == tag then 1 else 0) + CountTag(doc[1..], tag)
    decreases |doc|
  {
    if |doc| > 1 {
      var init := doc[..|doc| - 1];
      assert init[1..] == doc[1..][..|doc[1..]| - 1];
      assert init[0] == doc[0];
      CountTagCons(init, tag);
    }
  }
}
