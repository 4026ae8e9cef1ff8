/** The parts of an ADEPT `activation.xml` the account code reads, after
    `etree.parse`: the elements below the root in document order, each with
    its qualified tag, its attributes and its text. Parsing itself is a
    function parameter of the callers. */
module Adept {
  import opened Wrappers

  datatype Element = Element(tag: string, attrs: map<string, string>, text: Option<string>)

  /** The elements below the root, in document order. */
  type Document = seq<Element>

  const ADEPT_NS: string := "{http://ns.adobe.com/adept}"

  /** `root.find(".//" + tag)`: the first element below the root with that
      tag. */
  function Find(doc: Document, tag: string): (r: Option<Element>)
    ensures r.Some? ==> r.value in doc && r.value.tag == tag
    ensures r.None? <==> forall i :: 0 <= i < |doc| ==> doc[i].tag != tag
    ensures r.Some? ==> exists i :: 0 <= i < |doc| && doc[i] == r.value && forall k :: 0 <= k < i ==> doc[k].tag != tag
  {
    if doc == [] then None
    else if doc[0].tag == tag then Some(doc[0])
    else
      var r := Find(doc[1..], tag);
      if r.Some? then
        var i :| 0 <= i < |doc[1..]| && doc[1..][i] == r.value && forall k :: 0 <= k < i ==> doc[1..][k].tag != tag;
        assert doc[i + 1] == r.value;
        r
      else r
  }

  /** `element.get(name)` with its default. */
  function Get(e: Element, name: string, default: string): string {
    if name in e.attrs then e.attrs[name] else default
  }

  /** The non-empty text of the first `adept:privateLicenseKey`, if any. */
  function KeyText(doc: Document): (t: Option<string>)
    ensures t.Some? ==> t.value != []
    ensures t.Some? <==> Find(doc, ADEPT_NS + "privateLicenseKey").Some?
                         && Find(doc, ADEPT_NS + "privateLicenseKey").value.text.Some?
                         && Find(doc, ADEPT_NS + "privateLicenseKey").value.text.value != []
  {
    match Find(doc, ADEPT_NS + "privateLicenseKey")
    case None => None
    case Some(e) => if e.text.Some? && e.text.value != [] then e.text else None
  }
}
