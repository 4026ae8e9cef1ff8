/** The text-extraction half of the WeasyPrint-based converter
    (`EpubToPdfConverter`): cleaning one XHTML document, assembling the
    whole book as one HTML page, and collecting the items of type 6 by name.
    UTF-8 decoding is a parameter: it yields no text when the bytes are not
    valid UTF-8. */
module EpubToPdf {
  import opened Wrappers
  import opened Text
  import opened HtmlScan
  import opened Epub

  /** The page head and inline stylesheet that open the assembled page. */
  const HEADER: string :=
    "\n" +
    "        <!DOCTYPE html>\n" +
    "        <html>\n" +
    "        <head>\n" +
    "            <meta charset=\"utf-8\">\n" +
    "            <style>\n" +
    "                body {\n" +
    "                    font-family: \"Noto Serif TC\", \"Microsoft JhengHei\", serif;\n" +
    "                    line-height: 1.8;\n" +
    "                    margin: 2cm;\n" +
    "                    font-size: 12pt;\n" +
    "                }\n" +
    "                h1 { font-size: 24pt; margin-top: 2cm; }\n" +
    "                h2 { font-size: 20pt; margin-top: 1.5cm; }\n" +
    "                h3 { font-size: 16pt; margin-top: 1cm; }\n" +
    "                p { text-align: justify; margin: 0.5cm 0; text-indent: 2em; }\n" +
    "                img { max-width: 100%; height: auto; }\n" +
    "                @page {\n" +
    "                    size: A4;\n" +
    "                    margin: 2cm;\n" +
    "                }\n" +
    "            </style>\n" +
    "        </head>\n" +
    "        <body>\n" +
    "        "

  const CLOSING := "</body></html>"

  /** `_clean_html`: declarations removed, then the body's inner text kept
      when there is a body, then html tags and head blocks removed. */
  function CleanHtml(html: string): string {
    var h := StripDeclarations(html);
    var inner := match BodyContent(h) case Some(b) => b case None => h;
    Sub(HEAD, Sub(HtmlTag, inner))
  }

  /** With a body, only the text inside it survives, and html tags and head
      blocks are removed from that text as well. */
  lemma CleanHtmlWithBody(html: string, i: nat, e: nat)
    requires Search(BODY, StripDeclarations(html), 0) == Some((i, e))
    ensures var h := StripDeclarations(html);
            var g := FirstFrom(h, '>', i + 5).value;
            CleanHtml(html) == Sub(HEAD, Sub(HtmlTag, h[g + 1..e - 7]))
  {
    BodyContentInner(StripDeclarations(html), i, e);
  }

  /** Without a body, the whole text is kept, less its html tags and head
      blocks. */
  lemma CleanHtmlWithoutBody(html: string)
    requires !MatchesSomewhere(BODY, StripDeclarations(html), 0)
    ensures CleanHtml(html) == Sub(HEAD, Sub(HtmlTag, StripDeclarations(html)))
  {
  }

  /** A fragment none of the patterns occurs in passes through unchanged. */
  lemma CleanHtmlPlain(html: string)
    requires !MatchesSomewhere(XmlDecl, html, 0) && !MatchesSomewhere(Doctype, html, 0)
    requires !MatchesSomewhere(BODY, html, 0) && !MatchesSomewhere(HtmlTag, html, 0)
    requires !MatchesSomewhere(HEAD, html, 0)
    ensures CleanHtml(html) == html
  {
    SubAllIdentity(XmlDecl, html, 0);
    SubAllIdentity(Doctype, html, 0);
    assert StripDeclarations(html) == html;
    SubAllIdentity(HtmlTag, html, 0);
    SubAllIdentity(HEAD, html, 0);
  }

  /** The title and author lines (each only when its metadata exists),
      then the rule. */
  function TitleParts(book: Book): seq<string> {
    (if book.titles != [] then ["<h1>" + book.titles[0] + "</h1>"] else [])
    + (if book.creators != []
       then ["<p><strong>Author: " + book.creators[0] + "</strong></p>"] else [])
    + ["<hr/>"]
  }

  /** What one item adds: its cleaned text if it is a document whose bytes
      decode, nothing otherwise. */
  function DocumentPart(decode: seq<byte> -> Option<string>, item: Item): seq<string> {
    if item.kind != DOCUMENT then []
    else match decode(item.content)
      case None => []
      case Some(text) => [CleanHtml(text)]
  }

  /** `DocumentPart` with the decoder fixed, as the function the item loop
      maps. */
  function DocumentParts(decode: seq<byte> -> Option<string>): Item -> seq<string> {
    (item: Item) => DocumentPart(decode, item)
  }

  /** The parts `_extract_content` joins, in order. */
  function ContentParts(book: Book, decode: seq<byte> -> Option<string>): seq<string> {
    [HEADER] + TitleParts(book)
    + ConcatMap(book.items, DocumentParts(decode))
    + [CLOSING]
  }

  /** `_extract_content`. */
  method ExtractContent(book: Book, decode: seq<byte> -> Option<string>) returns (html: string)
    ensures html == Join(ContentParts(book, decode), "\n")
  {
    var parts := [HEADER];
    if book.titles != [] {
      parts := parts + ["<h1>" + book.titles[0] + "</h1>"];
    }
    if book.creators != [] {
      parts := parts + ["<p><strong>Author: " + book.creators[0] + "</strong></p>"];
    }
    parts := parts + ["<hr/>"];
    assert parts == [HEADER] + TitleParts(book);
    var documents := Documents(book, decode);
    parts := parts + documents + [CLOSING];
    html := Join(parts, "\n");
  }

  /** The item loop: the cleaned documents, in item order. */
  method Documents(book: Book, decode: seq<byte> -> Option<string>) returns (documents: seq<string>)
    ensures documents == ConcatMap(book.items, DocumentParts(decode))
  {
    var f := DocumentParts(decode);
    documents := [];
    for i := 0 to |book.items|
      invariant documents == ConcatMap(book.items[..i], f)
    {
      var item := book.items[i];
      ConcatMapPrefix(book.items, i, f);
      if item.kind == DOCUMENT {
        var content := decode(item.content);
        if content.Some? {
          documents := documents + [CleanHtml(content.value)];
        }
      }
    }
    assert book.items[..|book.items|] == book.items;
  }

  /** After the header, the page has the title line exactly when there is
      title metadata, the author line exactly when there is creator
      metadata, then the rule. */
  lemma ContentOrder(book: Book, decode: seq<byte> -> Option<string>)
    ensures var p := ContentParts(book, decode);
            var t := if book.titles != [] then 1 else 0;
            var c := if book.creators != [] then 1 else 0;
            && |p| >= 3 + t + c
            && (book.titles != [] ==> p[1] == "<h1>" + book.titles[0] + "</h1>")
            && (book.creators != [] ==>
                  p[1 + t] == "<p><strong>Author: " + book.creators[0] + "</strong></p>")
            && p[1 + t + c] == "<hr/>"
  {
  }

  /** After the rule come the documents, and the closing tags last. */
  lemma ContentTail(book: Book, decode: seq<byte> -> Option<string>)
    ensures var p := ContentParts(book, decode);
            var k := |TitleParts(book)|;
            && |p| == 2 + k + |ConcatMap(book.items, DocumentParts(decode))|
            && k == 1 + (if book.titles != [] then 1 else 0) + (if book.creators != [] then 1 else 0)
            && p[1 + k..|p| - 1] == ConcatMap(book.items, DocumentParts(decode))
            && p[|p| - 1] == CLOSING
  {
  }

  /** The page text starts with the header and ends with the closing tags. */
  lemma ContentBounds(book: Book, decode: seq<byte> -> Option<string>)
    ensures StartsWith(Join(ContentParts(book, decode), "\n"), HEADER)
    ensures EndsWith(Join(ContentParts(book, decode), "\n"), CLOSING)
  {
    JoinEndsWithLast(ContentParts(book, decode), "\n");
  }

  /** A document whose bytes do not decode is skipped, and the documents
      around it are still emitted in order. */
  lemma UndecodableSkipped(book: Book, decode: seq<byte> -> Option<string>, j: nat)
    requires j < |book.items| && decode(book.items[j].content).None?
    ensures var f := DocumentParts(decode);
            ConcatMap(book.items, f)
              == ConcatMap(book.items[..j], f) + ConcatMap(book.items[j + 1..], f)
  {
    var f := DocumentParts(decode);
    ConcatMapAt(book.items, j, f);
  }

  /** A document that decodes contributes exactly its cleaned text, at its
      place in item order. */
  lemma DecodedEmitted(book: Book, decode: seq<byte> -> Option<string>, j: nat, text: string)
    requires j < |book.items| && book.items[j].kind == DOCUMENT
    requires decode(book.items[j].content) == Some(text)
    ensures var f := DocumentParts(decode);
            ConcatMap(book.items, f)
              == ConcatMap(book.items[..j], f) + [CleanHtml(text)] + ConcatMap(book.items[j + 1..], f)
  {
    var f := DocumentParts(decode);
    ConcatMapAt(book.items, j, f);
  }

  /** The name-to-content table over a prefix of the items: type-6 items only,
      a later one replacing an earlier one of the same name. */
  function Images(items: seq<Item>): map<string, seq<byte>>
    decreases |items|
  {
    if items == [] then map[]
    else
      var last := items[|items| - 1];
      var m := Images(items[..|items| - 1]);
      if last.kind == 6 then m[last.name := last.content] else m
  }

  /** `_extract_images`. */
  method ExtractImages(book: Book) returns (images: map<string, seq<byte>>)
    ensures images == Images(book.items)
  {
    images := map[];
    for i := 0 to |book.items|
      invariant images == Images(book.items[..i])
    {
      var item := book.items[i];
      assert book.items[..i + 1][..i] == book.items[..i];
      if item.kind == 6 {
        images := images[item.name := item.content];
      }
    }
    assert book.items[..|book.items|] == book.items;
  }

  /** The names in the table are exactly those of the type-6 items. */
  lemma {:induction false} ImagesKeys(items: seq<Item>, name: string)
    ensures name in Images(items) <==>
              exists j :: 0 <= j < |items| && items[j].kind == 6 && items[j].name == name
    decreases |items|
  {
    if items != [] {
      var init := items[..|items| - 1];
      ImagesKeys(init, name);
      if exists j :: 0 <= j < |init| && init[j].kind == 6 && init[j].name == name {
        var j :| 0 <= j < |init| && init[j].kind == 6 && init[j].name == name;
        assert items[j] == init[j];
      }
      if exists j :: 0 <= j < |items| && items[j].kind == 6 && items[j].name == name {
        var j :| 0 <= j < |items| && items[j].kind == 6 && items[j].name == name;
        if j < |init| {
          assert init[j] == items[j];
        }
      }
    }
  }

  /** Each name maps to the content of the last type-6 item of that name. */
  lemma {:induction false} ImagesLastWins(items: seq<Item>, j: nat)
    requires j < |items| && items[j].kind == 6
    requires forall k :: j < k < |items| ==> !(items[k].kind == 6 && items[k].name == items[j].name)
    ensures items[j].name in Images(items) && Images(items)[items[j].name] == items[j].content
    decreases |items|
  {
    if j < |items| - 1 {
      var init := items[..|items| - 1];
      assert init[j] == items[j];
      ImagesLastWins(init, j);
    }
  }
}
