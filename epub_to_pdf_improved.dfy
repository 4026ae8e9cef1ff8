/** The text-extraction half of the improved WeasyPrint-based converter
    (`ImprovedEpubToPdfConverter`): documents taken in spine order and
    wrapped as chapters, resources selected for copying, and one stylesheet
    made of a base sheet and the book's own type-8 items. UTF-8 decoding is
    a parameter, as in the first converter. */
module EpubToPdfImproved {
  import opened Wrappers
  import opened Text
  import opened HtmlScan
  import opened Epub
  import EpubToPdf

  /** The page head, which links the generated stylesheet. */
  const PAGE_HEAD: string :=
    "<!DOCTYPE html>\n" +
    "<html>\n" +
    "<head>\n" +
    "    <meta charset=\"utf-8\">\n" +
    "    <link rel=\"stylesheet\" href=\"styles.css\">\n" +
    "</head>\n" +
    "<body>\n"

  /** The stylesheet every conversion starts from. */
  const BASE_CSS: string :=
    "\n" +
    "/* Base settings */\n" +
    "@page {\n" +
    "    size: A4;\n" +
    "    margin: 2cm;\n" +
    "    @bottom-center {\n" +
    "        content: counter(page);\n" +
    "        font-size: 10pt;\n" +
    "        color: #666;\n" +
    "    }\n" +
    "}\n" +
    "\n" +
    "body {\n" +
    "    font-family: \"Noto Serif TC\", \"Microsoft JhengHei\", \"PingFang TC\", \"Apple LiGothic\", serif;\n" +
    "    line-height: 1.8;\n" +
    "    font-size: 11pt;\n" +
    "    text-align: justify;\n" +
    "    hyphens: auto;\n" +
    "}\n" +
    "\n" +
    "/* Title page */\n" +
    ".title-page {\n" +
    "    page-break-after: always;\n" +
    "    text-align: center;\n" +
    "    padding-top: 5cm;\n" +
    "}\n" +
    "\n" +
    ".book-title {\n" +
    "    font-size: 28pt;\n" +
    "    font-weight: bold;\n" +
    "    margin-bottom: 2cm;\n" +
    "}\n" +
    "\n" +
    ".book-author {\n" +
    "    font-size: 16pt;\n" +
    "    color: #666;\n" +
    "}\n" +
    "\n" +
    "/* Chapters */\n" +
    ".chapter {\n" +
    "    page-break-before: always;\n" +
    "}\n" +
    "\n" +
    "h1, h2, h3, h4, h5, h6 {\n" +
    "    page-break-after: avoid;\n" +
    "    margin-top: 1.5em;\n" +
    "    margin-bottom: 0.8em;\n" +
    "    font-weight: bold;\n" +
    "}\n" +
    "\n" +
    "h1 { font-size: 20pt; }\n" +
    "h2 { font-size: 16pt; }\n" +
    "h3 { font-size: 14pt; }\n" +
    "h4 { font-size: 12pt; }\n" +
    "\n" +
    "p {\n" +
    "    margin: 0.5em 0;\n" +
    "    text-indent: 2em;\n" +
    "    orphans: 2;\n" +
    "    widows: 2;\n" +
    "}\n" +
    "\n" +
    "/* Images */\n" +
    "img {\n" +
    "    max-width: 100%;\n" +
    "    height: auto;\n" +
    "    page-break-inside: avoid;\n" +
    "}\n" +
    "\n" +
    "/* Tables */\n" +
    "table {\n" +
    "    width: 100%;\n" +
    "    border-collapse: collapse;\n" +
    "    margin: 1em 0;\n" +
    "    page-break-inside: avoid;\n" +
    "}\n" +
    "\n" +
    "/* Code */\n" +
    "pre, code {\n" +
    "    font-family: \"Courier New\", monospace;\n" +
    "    font-size: 10pt;\n" +
    "    background-color: #f5f5f5;\n" +
    "    padding: 0.2em 0.4em;\n" +
    "}\n" +
    "\n" +
    "pre {\n" +
    "    white-space: pre-wrap;\n" +
    "    padding: 1em;\n" +
    "    margin: 1em 0;\n" +
    "    page-break-inside: avoid;\n" +
    "}\n" +
    "\n" +
    "/* Blockquotes */\n" +
    "blockquote {\n" +
    "    margin: 1em 2em;\n" +
    "    padding-left: 1em;\n" +
    "    border-left: 3px solid #ccc;\n" +
    "    font-style: italic;\n" +
    "}\n"

  const CLOSING := "</body></html>"

  /** `_extract_body_content`: declarations removed; the inner text of the
      body returned as it is when there is one; otherwise html tags and head
      blocks removed. */
  function ExtractBodyContent(html: string): string {
    var h := StripDeclarations(html);
    match BodyContent(h)
    case Some(inner) => inner
    case None => Sub(HEAD, Sub(HtmlTag, h))
  }

  /** With a body, its inner text is returned with no further stripping. */
  lemma BodyReturnedAsIs(html: string, i: nat, e: nat)
    requires Search(BODY, StripDeclarations(html), 0) == Some((i, e))
    ensures var h := StripDeclarations(html);
            ExtractBodyContent(html) == h[FirstFrom(h, '>', i + 5).value + 1..e - 7]
  {
    BodyContentInner(StripDeclarations(html), i, e);
  }

  /** The two converters' cleaners agree on text without a body; with a
      body, the first one also strips html tags and head blocks from the
      text this one returns. */
  lemma CleanersCompared(html: string)
    ensures !MatchesSomewhere(BODY, StripDeclarations(html), 0) ==>
              ExtractBodyContent(html) == EpubToPdf.CleanHtml(html)
    ensures MatchesSomewhere(BODY, StripDeclarations(html), 0) ==>
              EpubToPdf.CleanHtml(html) == Sub(HEAD, Sub(HtmlTag, ExtractBodyContent(html)))
  {
    BodyContentFound(StripDeclarations(html));
  }

  /** The title page, present only with title metadata; the author line
      appears only inside it. */
  function TitlePage(book: Book): seq<string> {
    if book.titles == [] then []
    else
      ["<div class=\"title-page\"><h1 class=\"book-title\">" + book.titles[0] + "</h1>"]
      + (if book.creators != [] then ["<p class=\"book-author\">" + book.creators[0] + "</p>"] else [])
      + ["</div>"]
  }

  /** The chapter wrapper around a chapter's text. */
  function ChapterDiv(id: string, text: string): string {
    "<div class=\"chapter\" id=\"" + id + "\">" + text + "</div>"
  }

  /** What one spine entry adds: nothing when the id names no item, names a
      non-document, or the bytes do not decode, or the extracted text is
      blank; otherwise one chapter. */
  function Chapter(book: Book, decode: seq<byte> -> Option<string>, id: string): seq<string> {
    match ItemWithId(book.items, id)
    case None => []
    case Some(item) =>
      if item.kind != DOCUMENT then []
      else match decode(item.content)
        case None => []
        case Some(text) =>
          var cleaned := ExtractBodyContent(text);
          if Strip(cleaned) == [] then [] else [ChapterDiv(id, cleaned)]
  }

  /** `Chapter` with the book and decoder fixed, as the function the spine
      loop maps. */
  function ChapterOf(book: Book, decode: seq<byte> -> Option<string>): string -> seq<string> {
    (id: string) => Chapter(book, decode, id)
  }

  /** The parts `_extract_content_with_spine` joins, in order. */
  function SpineParts(book: Book, decode: seq<byte> -> Option<string>): seq<string> {
    [PAGE_HEAD] + TitlePage(book)
    + ConcatMap(book.spine, ChapterOf(book, decode))
    + [CLOSING]
  }

  /** `_extract_content_with_spine`. */
  method ExtractContentWithSpine(book: Book, decode: seq<byte> -> Option<string>) returns (html: string)
    ensures html == Join(SpineParts(book, decode), "\n")
  {
    var parts := [PAGE_HEAD];
    if book.titles != [] {
      parts := parts + ["<div class=\"title-page\"><h1 class=\"book-title\">" + book.titles[0] + "</h1>"];
      if book.creators != [] {
        parts := parts + ["<p class=\"book-author\">" + book.creators[0] + "</p>"];
      }
      parts := parts + ["</div>"];
    }
    assert parts == [PAGE_HEAD] + TitlePage(book);
    var chapters := SpineChapters(book, decode);
    parts := parts + chapters + [CLOSING];
    html := Join(parts, "\n");
  }

  /** The spine loop: the chapters, in spine order. */
  method SpineChapters(book: Book, decode: seq<byte> -> Option<string>) returns (chapters: seq<string>)
    ensures chapters == ConcatMap(book.spine, ChapterOf(book, decode))
  {
    var f := ChapterOf(book, decode);
    chapters := [];
    for i := 0 to |book.spine|
      invariant chapters == ConcatMap(book.spine[..i], f)
    {
      var id := book.spine[i];
      var chapter := ChapterFor(book, decode, id);
      ConcatMapPrefix(book.spine, i, f);
      chapters := chapters + chapter;
    }
    assert book.spine[..|book.spine|] == book.spine;
  }

  /** One turn of the spine loop: look the id up, and keep a document's
      non-blank text as a chapter. */
  method ChapterFor(book: Book, decode: seq<byte> -> Option<string>, id: string) returns (chapter: seq<string>)
    ensures chapter == Chapter(book, decode, id)
    ensures |chapter| <= 1
  {
    chapter := [];
    var item := ItemWithId(book.items, id);
    if item.Some? && item.value.kind == DOCUMENT {
      var content := decode(item.value.content);
      if content.Some? {
        var cleaned := ExtractBodyContent(content.value);
        if Strip(cleaned) != [] {
          chapter := [ChapterDiv(id, cleaned)];
        }
      }
    }
  }

  /** The title page exists exactly when there is title metadata, and has the
      author line exactly when there is creator metadata as well. */
  lemma TitlePageShape(book: Book)
    ensures TitlePage(book) == [] <==> book.titles == []
    ensures book.titles != [] ==>
              |TitlePage(book)| == (if book.creators != [] then 3 else 2)
              && TitlePage(book)[|TitlePage(book)| - 1] == "</div>"
  {
  }

  /** The page starts with the head and ends with the closing tags. */
  lemma SpineBounds(book: Book, decode: seq<byte> -> Option<string>)
    ensures StartsWith(Join(SpineParts(book, decode), "\n"), PAGE_HEAD)
    ensures EndsWith(Join(SpineParts(book, decode), "\n"), CLOSING)
  {
    JoinEndsWithLast(SpineParts(book, decode), "\n");
  }

  /** A spine entry that names no item, names a non-document, or yields only
      whitespace is skipped; the other entries keep their spine order. */
  lemma SpineEntrySkipped(book: Book, decode: seq<byte> -> Option<string>, j: nat)
    requires j < |book.spine|
    requires var item := ItemWithId(book.items, book.spine[j]);
             || item.None?
             || item.value.kind != DOCUMENT
             || decode(item.value.content).None?
             || Strip(ExtractBodyContent(decode(item.value.content).value)) == []
    ensures var f := ChapterOf(book, decode);
            ConcatMap(book.spine, f)
              == ConcatMap(book.spine[..j], f) + ConcatMap(book.spine[j + 1..], f)
  {
    ChapterSkipped(book, decode, book.spine[j]);
    ConcatMapAt(book.spine, j, ChapterOf(book, decode));
  }

  lemma ChapterSkipped(book: Book, decode: seq<byte> -> Option<string>, id: string)
    requires var item := ItemWithId(book.items, id);
             || item.None?
             || item.value.kind != DOCUMENT
             || decode(item.value.content).None?
             || Strip(ExtractBodyContent(decode(item.value.content).value)) == []
    ensures Chapter(book, decode, id) == []
  {
  }

  /** A spine entry naming a document with non-blank text becomes one chapter
      div carrying the spine id, at its place in spine order. */
  lemma SpineEntryKept(book: Book, decode: seq<byte> -> Option<string>, j: nat, item: Item, text: string)
    requires j < |book.spine| && ItemWithId(book.items, book.spine[j]) == Some(item)
    requires item.kind == DOCUMENT && decode(item.content) == Some(text)
    requires Strip(ExtractBodyContent(text)) != []
    ensures var f := ChapterOf(book, decode);
            ConcatMap(book.spine, f)
              == ConcatMap(book.spine[..j], f)
                 + [ChapterDiv(book.spine[j], ExtractBodyContent(text))]
                 + ConcatMap(book.spine[j + 1..], f)
  {
    ChapterKept(book, decode, book.spine[j], item, text);
    ConcatMapAt(book.spine, j, ChapterOf(book, decode));
  }

  lemma ChapterKept(book: Book, decode: seq<byte> -> Option<string>, id: string, item: Item, text: string)
    requires ItemWithId(book.items, id) == Some(item)
    requires item.kind == DOCUMENT && decode(item.content) == Some(text)
    requires Strip(ExtractBodyContent(text)) != []
    ensures Chapter(book, decode, id) == [ChapterDiv(id, ExtractBodyContent(text))]
  {
  }

  /** The items `_extract_resources` writes out, in item order. */
  function Resources(items: seq<Item>): seq<Item> {
    ConcatMap(items, (item: Item) => if item.kind in {6, 7, 8} then [item] else [])
  }

  /** Exactly the items of type 6, 7 or 8 are selected, in order. */
  lemma {:induction false} ResourcesExactly(items: seq<Item>)
    ensures forall x :: x in Resources(items) <==> x in items && x.kind in {6, 7, 8}
    ensures |Resources(items)| <= |items|
    decreases |items|
  {
    if items != [] {
      ResourcesExactly(items[..|items| - 1]);
      assert items == items[..|items| - 1] + [items[|items| - 1]];
    }
  }

  /** What one item adds to the stylesheet: its decoded text under a comment
      naming it, when it is of type 8 and its bytes decode. */
  function CssPart(decode: seq<byte> -> Option<string>, item: Item): seq<string> {
    if item.kind != 8 then []
    else match decode(item.content)
      case None => []
      case Some(css) => ["\n/* From " + item.name + " */\n" + css]
  }

  function CssParts(decode: seq<byte> -> Option<string>): Item -> seq<string> {
    (item: Item) => CssPart(decode, item)
  }

  /** The parts `_extract_css` joins: the base sheet, then the book's. */
  function Stylesheet(book: Book, decode: seq<byte> -> Option<string>): seq<string> {
    [BASE_CSS] + ConcatMap(book.items, CssParts(decode))
  }

  /** `_extract_css`. */
  method ExtractCss(book: Book, decode: seq<byte> -> Option<string>) returns (css: string)
    ensures css == Join(Stylesheet(book, decode), "\n")
  {
    var f := CssParts(decode);
    var parts := [BASE_CSS];
    for i := 0 to |book.items|
      invariant parts == [BASE_CSS] + ConcatMap(book.items[..i], f)
    {
      var item := book.items[i];
      ConcatMapPrefix(book.items, i, f);
      if item.kind == 8 {
        var text := decode(item.content);
        if text.Some? {
          parts := parts + ["\n/* From " + item.name + " */\n" + text.value];
        }
      }
    }
    assert book.items[..|book.items|] == book.items;
    css := Join(parts, "\n");
  }

  /** The base sheet comes first; a book without decodable type-8 items gets
      the base sheet alone. */
  lemma CssStartsWithBase(book: Book, decode: seq<byte> -> Option<string>)
    ensures StartsWith(Join(Stylesheet(book, decode), "\n"), BASE_CSS)
    ensures (forall k :: 0 <= k < |book.items| ==> CssPart(decode, book.items[k]) == []) ==>
              Join(Stylesheet(book, decode), "\n") == BASE_CSS
  {
    if forall k :: 0 <= k < |book.items| ==> CssPart(decode, book.items[k]) == [] {
      NothingAdded(book.items, CssParts(decode));
    }
  }

  lemma {:induction false} NothingAdded<T, U>(xs: seq<T>, f: T -> seq<U>)
    requires forall k :: 0 <= k < |xs| ==> f(xs[k]) == []
    ensures ConcatMap(xs, f) == []
    decreases |xs|
  {
    if xs != [] {
      NothingAdded(xs[..|xs| - 1], f);
    }
  }

  /** A type-8 item counts once, under its name, at its place in item order. */
  lemma CssItemEmitted(book: Book, decode: seq<byte> -> Option<string>, j: nat, css: string)
    requires j < |book.items| && book.items[j].kind == 8 && decode(book.items[j].content) == Some(css)
    ensures var f := CssParts(decode);
            ConcatMap(book.items, f)
              == ConcatMap(book.items[..j], f)
                 + ["\n/* From " + book.items[j].name + " */\n" + css]
                 + ConcatMap(book.items[j + 1..], f)
  {
    var f := CssParts(decode);
    ConcatMapAt(book.items, j, f);
  }
}
