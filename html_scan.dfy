/** The regular expressions of the two EPUB converters as explicit scanners.

    - `<\?xml[^>]*\?>` (XmlDecl) and `<!DOCTYPE[^>]*>` (Doctype), case-sensitive;
    - `</?html[^>]*>` (HtmlTag), ignoring case;
    - `<head[^>]*>.*?</head>` and `<body[^>]*>(.*?)</body>` (Block), ignoring
      case, `.` matching newlines.

    A pattern's language is stated on absolute positions: `Matches(p, s, i, e)`
    says that `s[i..e]` is a string of the pattern. `MatchEnd` is the end the
    regular-expression engine picks for a match starting at `i` (the first
    `>` for `[^>]*>`, the nearest close tag for the lazy `.*?`), `SubAll` is
    `re.sub(p, "", s)` and `Search` is `re.search`. Case is ignored for
    ASCII letters only. The scanning functions promise only bounds; what
    they find is stated by the lemmas after each of them. */
module HtmlScan {
  import opened Wrappers
  import opened Text

  datatype Pattern = XmlDecl | Doctype | HtmlTag | Block(open: string, close: string)

  /** `<head[^>]*>.*?</head>` and `<body[^>]*>(.*?)</body>`. */
  const HEAD := Block("<head", "</head>")
  const BODY := Block("<body", "</body>")

  /** `pat` occurs at `k`. */
  predicate At(s: string, k: int, pat: string) {
    0 <= k && k + |pat| <= |s| && forall j :: 0 <= j < |pat| ==> s[k + j] == pat[j]
  }

  /** `pat` (lower case) occurs at `k`, ignoring case. */
  predicate CiAt(s: string, k: int, pat: string) {
    0 <= k && k + |pat| <= |s| && forall j :: 0 <= j < |pat| ==> LowerChar(s[k + j]) == pat[j]
  }

  /** The first index from `from` on holding `c`. */
  function FirstFrom(s: string, c: char, from: nat): (r: Option<nat>)
    ensures r.Some? ==> from <= r.value < |s| && s[r.value] == c
    decreases |s| - from
  {
    if from >= |s| then None else if s[from] == c then Some(from) else FirstFrom(s, c, from + 1)
  }

  /** Nothing before the index found holds `c`, and when none is found no
      index does. */
  lemma {:induction false} FirstFromFirst(s: string, c: char, from: nat)
    ensures FirstFrom(s, c, from).Some? ==>
              forall k :: from <= k < FirstFrom(s, c, from).value ==> s[k] != c
    ensures FirstFrom(s, c, from).None? ==> forall k :: from <= k < |s| ==> s[k] != c
    decreases |s| - from
  {
    if from < |s| && s[from] != c {
      FirstFromFirst(s, c, from + 1);
    }
  }

  /** An occurrence with none before it is the one found. */
  lemma {:induction false} FirstFromIs(s: string, c: char, from: nat, g: nat)
    requires from <= g < |s| && s[g] == c
    requires forall k :: from <= k < g ==> s[k] != c
    ensures FirstFrom(s, c, from) == Some(g)
    decreases g - from
  {
    if from < g {
      FirstFromIs(s, c, from + 1, g);
    }
  }

  /** The first index from `from` on where `pat` occurs, ignoring case. */
  function FindCi(s: string, pat: string, from: nat): (r: Option<nat>)
    ensures r.Some? ==> from <= r.value && CiAt(s, r.value, pat)
    decreases |s| - from
  {
    if from + |pat| > |s| then None
    else if CiAt(s, from, pat) then Some(from)
    else FindCi(s, pat, from + 1)
  }

  /** `pat` occurs nowhere between `from` and the index found, nor anywhere
      from `from` on when none is found. */
  lemma {:induction false} FindCiFirst(s: string, pat: string, from: nat)
    ensures FindCi(s, pat, from).Some? ==>
              forall k :: from <= k < FindCi(s, pat, from).value ==> !CiAt(s, k, pat)
    ensures FindCi(s, pat, from).None? ==> forall k :: from <= k ==> !CiAt(s, k, pat)
    decreases |s| - from
  {
    if from + |pat| <= |s| && !CiAt(s, from, pat) {
      FindCiFirst(s, pat, from + 1);
    }
  }

  /** Where the tag name of `</?html` ends, if the tag starts at `i`. */
  function HtmlNameEnd(s: string, i: nat): Option<nat> {
    if At(s, i, "<") && At(s, i + 1, "/") && CiAt(s, i + 2, "html") then Some(i + 6)
    else if At(s, i, "<") && CiAt(s, i + 1, "html") then Some(i + 5)
    else None
  }

  /** `s[i..e]` is an XML declaration `<?xml…?>` with no `>` inside. */
  predicate IsXmlDecl(s: string, i: nat, e: nat) {
    i + 7 <= e <= |s| && At(s, i, "<?xml") && s[e - 2] == '?' && s[e - 1] == '>'
    && forall k :: i + 5 <= k < e - 1 ==> s[k] != '>'
  }

  /** `s[i..e]` is a `<!DOCTYPE…>` with no `>` inside. */
  predicate IsDoctype(s: string, i: nat, e: nat) {
    i + 10 <= e <= |s| && At(s, i, "<!DOCTYPE") && s[e - 1] == '>'
    && forall k :: i + 9 <= k < e - 1 ==> s[k] != '>'
  }

  /** `s[i..e]` is an opening or closing tag whose name starts with "html". */
  predicate IsHtmlTag(s: string, i: nat, e: nat) {
    HtmlNameEnd(s, i).Some? && HtmlNameEnd(s, i).value < e <= |s| && s[e - 1] == '>'
    && forall k :: HtmlNameEnd(s, i).value <= k < e - 1 ==> s[k] != '>'
  }

  /** `s[i..e]` starts with `open`, has a `>` after it, and ends with a
      `close` that lies wholly after that `>`. */
  predicate IsBlock(open: string, close: string, s: string, i: nat, e: nat) {
    && e <= |s|
    && CiAt(s, i, open)
    && FirstFrom(s, '>', i + |open|).Some?
    && FirstFrom(s, '>', i + |open|).value + 1 + |close| <= e
    && CiAt(s, e - |close|, close)
  }

  /** The pattern's language: `s[i..e]` is one of its strings. */
  predicate Matches(p: Pattern, s: string, i: nat, e: nat) {
    match p
    case XmlDecl => IsXmlDecl(s, i, e)
    case Doctype => IsDoctype(s, i, e)
    case HtmlTag => IsHtmlTag(s, i, e)
    case Block(open, close) => IsBlock(open, close, s, i, e)
  }

  function XmlDeclEnd(s: string, i: nat): (r: Option<nat>)
    ensures r.Some? ==> i < r.value <= |s|
  {
    if !At(s, i, "<?xml") then None
    else match FirstFrom(s, '>', i + 5)
      case None => None
      case Some(g) => if g >= i + 6 && s[g - 1] == '?' then Some(g + 1) else None
  }

  function DoctypeEnd(s: string, i: nat): (r: Option<nat>)
    ensures r.Some? ==> i < r.value <= |s|
  {
    if !At(s, i, "<!DOCTYPE") then None
    else match FirstFrom(s, '>', i + 9)
      case None => None
      case Some(g) => Some(g + 1)
  }

  function HtmlTagEnd(s: string, i: nat): (r: Option<nat>)
    ensures r.Some? ==> i < r.value <= |s|
  {
    match HtmlNameEnd(s, i)
    case None => None
    case Some(n) =>
      match FirstFrom(s, '>', n)
      case None => None
      case Some(g) => Some(g + 1)
  }

  /** The nearest closing tag: `.*?` is lazy. */
  function BlockEnd(open: string, close: string, s: string, i: nat): (r: Option<nat>)
    ensures r.Some? ==> i < r.value <= |s|
  {
    if !CiAt(s, i, open) then None
    else match FirstFrom(s, '>', i + |open|)
      case None => None
      case Some(g) =>
        match FindCi(s, close, g + 1)
        case None => None
        case Some(k) => Some(k + |close|)
  }

  /** A match at `i`, as the engine makes it: its end. */
  function MatchEnd(p: Pattern, s: string, i: nat): (r: Option<nat>)
    ensures r.Some? ==> i < r.value <= |s|
  {
    match p
    case XmlDecl => XmlDeclEnd(s, i)
    case Doctype => DoctypeEnd(s, i)
    case HtmlTag => HtmlTagEnd(s, i)
    case Block(open, close) => BlockEnd(open, close, s, i)
  }

  lemma XmlDeclEndSpec(s: string, i: nat)
    ensures XmlDeclEnd(s, i).Some? ==> IsXmlDecl(s, i, XmlDeclEnd(s, i).value)
    ensures forall e: nat :: IsXmlDecl(s, i, e) ==> XmlDeclEnd(s, i) == Some(e)
  {
    FirstFromFirst(s, '>', i + 5);
    forall e: nat | IsXmlDecl(s, i, e) ensures XmlDeclEnd(s, i) == Some(e) {
      FirstFromIs(s, '>', i + 5, e - 1);
    }
  }

  lemma DoctypeEndSpec(s: string, i: nat)
    ensures DoctypeEnd(s, i).Some? ==> IsDoctype(s, i, DoctypeEnd(s, i).value)
    ensures forall e: nat :: IsDoctype(s, i, e) ==> DoctypeEnd(s, i) == Some(e)
  {
    FirstFromFirst(s, '>', i + 9);
    forall e: nat | IsDoctype(s, i, e) ensures DoctypeEnd(s, i) == Some(e) {
      FirstFromIs(s, '>', i + 9, e - 1);
    }
  }

  lemma HtmlTagEndSpec(s: string, i: nat)
    ensures HtmlTagEnd(s, i).Some? ==> IsHtmlTag(s, i, HtmlTagEnd(s, i).value)
    ensures forall e: nat :: IsHtmlTag(s, i, e) ==> HtmlTagEnd(s, i) == Some(e)
  {
    if HtmlNameEnd(s, i).Some? {
      var n := HtmlNameEnd(s, i).value;
      FirstFromFirst(s, '>', n);
      forall e: nat | IsHtmlTag(s, i, e) ensures HtmlTagEnd(s, i) == Some(e) {
        FirstFromIs(s, '>', n, e - 1);
      }
    }
  }

  lemma BlockEndSpec(open: string, close: string, s: string, i: nat)
    ensures BlockEnd(open, close, s, i).Some? ==>
              IsBlock(open, close, s, i, BlockEnd(open, close, s, i).value)
    ensures forall e :: IsBlock(open, close, s, i, e) ==>
              BlockEnd(open, close, s, i).Some? && BlockEnd(open, close, s, i).value <= e
  {
    var g := FirstFrom(s, '>', i + |open|);
    if CiAt(s, i, open) && g.Some? {
      FindCiFirst(s, close, g.value + 1);
    }
  }

  /** The engine's match at `i` is the shortest string of the language that
      starts there, and there is none exactly when the language has none
      (for the first three patterns that string is the only one). */
  lemma MatchEndSpec(p: Pattern, s: string, i: nat)
    ensures MatchEnd(p, s, i).Some? ==> Matches(p, s, i, MatchEnd(p, s, i).value)
    ensures forall e :: Matches(p, s, i, e) ==>
              MatchEnd(p, s, i).Some? && MatchEnd(p, s, i).value <= e
    ensures !p.Block? ==> forall e: nat :: Matches(p, s, i, e) ==> MatchEnd(p, s, i) == Some(e)
  {
    match p
    case XmlDecl => XmlDeclEndSpec(s, i);
    case Doctype => DoctypeEndSpec(s, i);
    case HtmlTag => HtmlTagEndSpec(s, i);
    case Block(open, close) => BlockEndSpec(open, close, s, i);
  }

  /** `re.sub(p, "", s)` from position `from` on: a match found is dropped
      and the scan resumes after it, any other character is kept. */
  function SubAll(p: Pattern, s: string, from: nat): (r: string)
    requires from <= |s|
    ensures |r| <= |s| - from
    decreases |s| - from
  {
    if from >= |s| then []
    else match MatchEnd(p, s, from)
      case Some(e) => SubAll(p, s, e)
      case None => [s[from]] + SubAll(p, s, from + 1)
  }

  /** `re.sub(p, "", s)`. */
  function Sub(p: Pattern, s: string): string {
    SubAll(p, s, 0)
  }

  /** A match starts somewhere from `from` on. */
  predicate MatchesSomewhere(p: Pattern, s: string, from: nat) {
    exists i :: from <= i < |s| && MatchEnd(p, s, i).Some?
  }

  /** The engine finds a match from `from` on exactly when a string of the
      pattern's language occurs there. */
  lemma MatchesSomewhereLanguage(p: Pattern, s: string, from: nat)
    ensures MatchesSomewhere(p, s, from) <==>
              exists i, e :: from <= i < e <= |s| && Matches(p, s, i, e)
  {
    if MatchesSomewhere(p, s, from) {
      var i :| from <= i < |s| && MatchEnd(p, s, i).Some?;
      MatchEndSpec(p, s, i);
      assert Matches(p, s, i, MatchEnd(p, s, i).value);
    }
    if exists i, e :: from <= i < e <= |s| && Matches(p, s, i, e) {
      var i, e :| from <= i < e <= |s| && Matches(p, s, i, e);
      MatchEndSpec(p, s, i);
    }
  }

  /** Substitution changes the text exactly when the pattern occurs in it. */
  lemma SubAllIdentity(p: Pattern, s: string, from: nat)
    requires from <= |s|
    ensures SubAll(p, s, from) == s[from..] <==> !MatchesSomewhere(p, s, from)
  {
    if MatchesSomewhere(p, s, from) {
      SubAllShrinks(p, s, from);
    } else {
      SubAllKeeps(p, s, from);
    }
  }

  /** Where the pattern occurs nowhere, the text is kept as it is. */
  lemma {:induction false} SubAllKeeps(p: Pattern, s: string, from: nat)
    requires from <= |s| && !MatchesSomewhere(p, s, from)
    ensures SubAll(p, s, from) == s[from..]
    decreases |s| - from
  {
    if from < |s| {
      assert MatchEnd(p, s, from).None?;
      assert !MatchesSomewhere(p, s, from + 1);
      SubAllKeeps(p, s, from + 1);
      assert s[from..] == [s[from]] + s[from + 1..];
    }
  }

  /** Where the pattern occurs, the text gets strictly shorter. */
  lemma SubAllShrinks(p: Pattern, s: string, from: nat)
    requires from <= |s| && MatchesSomewhere(p, s, from)
    ensures |SubAll(p, s, from)| < |s| - from
  {
    SearchNone(p, s, from);
    var m := Search(p, s, from).value;
    SubAllLeftmost(p, s, from, m.0, m.1);
  }

  /** The leftmost match, the one `re.search` finds, is the first one
      removed: everything before it is kept as it is, and the scan goes on
      after it. */
  lemma {:induction false} SubAllLeftmost(p: Pattern, s: string, from: nat, i: nat, e: nat)
    requires from <= |s| && Search(p, s, from) == Some((i, e))
    ensures e <= |s| && SubAll(p, s, from) == s[from..i] + SubAll(p, s, e)
    decreases i - from
  {
    if from < i {
      assert MatchEnd(p, s, from).None?;
      SearchSkips(p, s, from);
      SubAllLeftmost(p, s, from + 1, i, e);
      SubAllKeptBefore(p, s, from, i, e);
    }
  }

  /** A kept character joins the kept text before a match. */
  lemma SubAllKeptBefore(p: Pattern, s: string, from: nat, i: nat, e: nat)
    requires from < i <= e <= |s| && MatchEnd(p, s, from).None?
    requires SubAll(p, s, from + 1) == s[from + 1..i] + SubAll(p, s, e)
    ensures SubAll(p, s, from) == s[from..i] + SubAll(p, s, e)
  {
    SubAllKept(p, s, from);
    ConsSlice(s, from, i, SubAll(p, s, e));
  }

  lemma ConsSlice<T>(s: seq<T>, from: nat, i: nat, tail: seq<T>)
    requires from < i <= |s|
    ensures [s[from]] + (s[from + 1..i] + tail) == s[from..i] + tail
  {
    assert s[from..i] == [s[from]] + s[from + 1..i];
  }

  /** A character where no match starts is kept. */
  lemma SubAllKept(p: Pattern, s: string, from: nat)
    requires from < |s| && MatchEnd(p, s, from).None?
    ensures SubAll(p, s, from) == [s[from]] + SubAll(p, s, from + 1)
  {
  }

  /** One pass of `re.sub` does not leave a text free of the pattern: the
      declaration removed from the middle of `<?x<?xml?>ml?>` joins what
      surrounds it into a new one. */
  lemma DeclarationCanReappear()
    ensures MatchesSomewhere(XmlDecl, "<?x<?xml?>ml?>", 0)
    ensures Sub(XmlDecl, "<?x<?xml?>ml?>") == "<?xml?>"
    ensures MatchesSomewhere(XmlDecl, "<?xml?>", 0)
  {
    var s := "<?x<?xml?>ml?>";
    DeclAt(s, 3, 10);
    ExampleSub(s);
    DeclAt("<?xml?>", 0, 7);
  }

  /** The substitution on the example cuts out its one declaration. */
  lemma ExampleSub(s: string)
    requires s == "<?x<?xml?>ml?>"
    ensures SubAll(XmlDecl, s, 0) == s[..3] + s[10..] == "<?xml?>"
  {
    DeclAt(s, 3, 10);
    forall k: nat | k < |s| && k != 3 ensures MatchEnd(XmlDecl, s, k).None? {
      NoDeclAt(s, k);
    }
    SubAllOneMatch(XmlDecl, s, 3, 10);
  }

  /** A declaration `<?xml?>` at `i`, ending before `e`. */
  lemma DeclAt(s: string, i: nat, e: nat)
    requires i + 7 == e <= |s| && s[i..e] == "<?xml?>"
    ensures MatchEnd(XmlDecl, s, i) == Some(e)
  {
    assert s[i + 5] == '?' && s[i + 6] == '>';
    assert At(s, i, "<?xml") by {
      forall j | 0 <= j < 5 ensures s[i + j] == "<?xml"[j] {
        assert s[i + j] == s[i..e][j];
      }
    }
    assert s[i + 5] != '>';
    assert FirstFrom(s, '>', i + 5) == Some(i + 6);
  }

  lemma NoDeclAt(s: string, k: nat)
    requires s == "<?x<?xml?>ml?>" && k < |s| && k != 3
    ensures MatchEnd(XmlDecl, s, k).None?
  {
    assert !At(s, k, "<?xml") by {
      if k == 0 {
        assert s[k + 3] != "<?xml"[3];
      } else if k + 5 <= |s| {
        assert s[k + 0] != "<?xml"[0];
      }
    }
    assert MatchEnd(XmlDecl, s, k) == XmlDeclEnd(s, k);
  }

  /** A text with a single match: substitution cuts it out. */
  lemma SubAllOneMatch(p: Pattern, s: string, i: nat, e: nat)
    requires i < e <= |s| && MatchEnd(p, s, i) == Some(e)
    requires forall k :: 0 <= k < |s| && k != i ==> MatchEnd(p, s, k).None?
    ensures SubAll(p, s, 0) == s[..i] + s[e..]
  {
    SubAllKeptUpTo(p, s, 0, i);
    assert !MatchesSomewhere(p, s, e);
    SubAllKeeps(p, s, e);
  }

  /** Where no match starts between `from` and `i`, that stretch is kept. */
  lemma {:induction false} SubAllKeptUpTo(p: Pattern, s: string, from: nat, i: nat)
    requires from <= i <= |s|
    requires forall k :: from <= k < i ==> MatchEnd(p, s, k).None?
    ensures SubAll(p, s, from) == s[from..i] + SubAll(p, s, i)
    decreases i - from
  {
    if from < i {
      SubAllKeptUpTo(p, s, from + 1, i);
      SubAllKept(p, s, from);
      ConsSlice(s, from, i, SubAll(p, s, i));
    }
  }

  /** The first two substitutions both converters make: the XML
      declaration, then the DOCTYPE, removed. */
  function StripDeclarations(html: string): string {
    Sub(Doctype, Sub(XmlDecl, html))
  }

  /** `re.search(p, s)`: the leftmost match from `from` on, as its start and
      end. */
  function Search(p: Pattern, s: string, from: nat): (r: Option<(nat, nat)>)
    ensures r.Some? ==> from <= r.value.0 && MatchEnd(p, s, r.value.0) == Some(r.value.1)
    decreases |s| - from
  {
    if from >= |s| then None
    else match MatchEnd(p, s, from)
      case Some(e) => Some((from, e))
      case None => Search(p, s, from + 1)
  }

  /** The search stops at the leftmost match: no match starts between
      `from` and the one found. */
  lemma {:induction false} SearchLeftmost(p: Pattern, s: string, from: nat, i: nat, e: nat, k: nat)
    requires Search(p, s, from) == Some((i, e)) && from <= k < i
    ensures MatchEnd(p, s, k).None?
    decreases k - from
  {
    SearchPasses(p, s, from, i, e);
    if from < k {
      SearchLeftmost(p, s, from + 1, i, e, k);
    }
  }

  /** A search that ends after `from` passes over `from`. */
  lemma SearchPasses(p: Pattern, s: string, from: nat, i: nat, e: nat)
    requires Search(p, s, from) == Some((i, e)) && from < i
    ensures MatchEnd(p, s, from).None? && Search(p, s, from + 1) == Some((i, e))
  {
  }

  /** Where no match starts, the search moves on. */
  lemma SearchSkips(p: Pattern, s: string, from: nat)
    requires from < |s| && MatchEnd(p, s, from).None?
    ensures Search(p, s, from) == Search(p, s, from + 1)
  {
  }

  /** The search finds nothing exactly when the pattern occurs nowhere. */
  lemma SearchNone(p: Pattern, s: string, from: nat)
    ensures Search(p, s, from).None? <==> !MatchesSomewhere(p, s, from)
  {
    if Search(p, s, from).None? {
      forall k | from <= k < |s| ensures MatchEnd(p, s, k).None? {
        SearchNoneNowhere(p, s, from, k);
      }
    } else {
      var i := Search(p, s, from).value.0;
      assert from <= i < |s| && MatchEnd(p, s, i).Some?;
    }
  }

  /** A search that finds nothing finds no match at any position `k` it
      passes over. */
  lemma {:induction false} SearchNoneNowhere(p: Pattern, s: string, from: nat, k: nat)
    requires Search(p, s, from).None? && from <= k < |s|
    ensures MatchEnd(p, s, k).None?
    decreases k - from
  {
    SearchNoneSkips(p, s, from);
    if from < k {
      SearchNoneNowhere(p, s, from + 1, k);
    }
  }

  /** A search that finds nothing passes over `from`. */
  lemma SearchNoneSkips(p: Pattern, s: string, from: nat)
    requires Search(p, s, from).None? && from < |s|
    ensures MatchEnd(p, s, from).None? && Search(p, s, from + 1).None?
  {
  }

  /** Group 1 of `<open[^>]*>(.*?)close`: the text after the first
      opening tag that has a closing tag after it, up to the first closing
      tag that follows. */
  function BlockContent(open: string, close: string, s: string): Option<string> {
    match Search(Block(open, close), s, 0)
    case None => None
    case Some(m) => Some(BlockInner(open, close, s, m.0, m.1))
  }

  /** The text between the opening tag's `>` and the closing tag of the
      block match `s[i..e]`. */
  function BlockInner(open: string, close: string, s: string, i: nat, e: nat): string
    requires MatchEnd(Block(open, close), s, i) == Some(e)
  {
    BlockEndBounds(open, close, s, i, e);
    s[FirstFrom(s, '>', i + |open|).value + 1..e - |close|]
  }

  /** Group 1 of `<body[^>]*>(.*?)</body>`. */
  function BodyContent(s: string): Option<string> {
    BlockContent("<body", "</body>", s)
  }

  /** No body is found exactly when the pattern occurs nowhere. */
  lemma BodyContentFound(s: string)
    ensures BodyContent(s).None? <==> !MatchesSomewhere(BODY, s, 0)
  {
    SearchNone(BODY, s, 0);
  }

  /** A block match runs from its opening tag to the first closing tag
      after the opening tag's `>`. */
  lemma BlockEndShape(open: string, close: string, s: string, i: nat, e: nat)
    requires BlockEnd(open, close, s, i) == Some(e)
    ensures CiAt(s, i, open) && CiAt(s, e - |close|, close)
    ensures FirstFrom(s, '>', i + |open|).Some?
    ensures FindCi(s, close, FirstFrom(s, '>', i + |open|).value + 1) == Some(e - |close|)
    ensures forall k :: FirstFrom(s, '>', i + |open|).value + 1 <= k < e - |close| ==> !CiAt(s, k, close)
  {
    var g := FirstFrom(s, '>', i + |open|).value;
    FindCiFirst(s, close, g + 1);
  }

  /** The body found is the text between the end of the leftmost opening
      `<body…>` tag that has a `</body>` after it and the first such
      `</body>`; it holds no `</body>` itself. */
  lemma BodyContentInner(s: string, i: nat, e: nat)
    requires Search(BODY, s, 0) == Some((i, e))
    ensures CiAt(s, i, "<body") && CiAt(s, e - 7, "</body>")
    ensures forall j :: 0 <= j < i ==> MatchEnd(BODY, s, j).None?
    ensures FirstFrom(s, '>', i + 5).Some?
    ensures BodyContent(s) == Some(s[FirstFrom(s, '>', i + 5).value + 1..e - 7])
    ensures forall k :: FirstFrom(s, '>', i + 5).value + 1 <= k < e - 7 ==> !CiAt(s, k, "</body>")
  {
    BlockContentInner("<body", "</body>", s, i, e);
  }

  /** The same for any block pattern. */
  lemma BlockContentInner(open: string, close: string, s: string, i: nat, e: nat)
    requires Search(Block(open, close), s, 0) == Some((i, e))
    ensures CiAt(s, i, open) && CiAt(s, e - |close|, close)
    ensures forall j :: 0 <= j < i ==> MatchEnd(Block(open, close), s, j).None?
    ensures FirstFrom(s, '>', i + |open|).Some?
    ensures FirstFrom(s, '>', i + |open|).value + 1 <= e - |close|
    ensures BlockContent(open, close, s) ==
              Some(s[FirstFrom(s, '>', i + |open|).value + 1..e - |close|])
    ensures forall k :: FirstFrom(s, '>', i + |open|).value + 1 <= k < e - |close| ==>
              !CiAt(s, k, close)
  {
    BlockContentIs(open, close, s, i, e);
    forall j | 0 <= j < i ensures MatchEnd(Block(open, close), s, j).None? {
      SearchLeftmost(Block(open, close), s, 0, i, e, j);
    }
    BlockEndShape(open, close, s, i, e);
  }

  lemma BlockContentIs(open: string, close: string, s: string, i: nat, e: nat)
    requires Search(Block(open, close), s, 0) == Some((i, e))
    ensures BlockEnd(open, close, s, i) == Some(e)
    ensures FirstFrom(s, '>', i + |open|).Some?
    ensures FirstFrom(s, '>', i + |open|).value + 1 <= e - |close| <= |s|
    ensures BlockContent(open, close, s) ==
              Some(s[FirstFrom(s, '>', i + |open|).value + 1..e - |close|])
  {
    BlockContentOf(open, close, s, i, e);
    BlockInnerIs(open, close, s, i, e);
  }

  lemma BlockContentOf(open: string, close: string, s: string, i: nat, e: nat)
    requires Search(Block(open, close), s, 0) == Some((i, e))
    ensures MatchEnd(Block(open, close), s, i) == Some(e)
    ensures BlockContent(open, close, s) == Some(BlockInner(open, close, s, i, e))
  {
  }

  /** The text between the opening tag's `>` and the closing tag. */
  lemma BlockInnerIs(open: string, close: string, s: string, i: nat, e: nat)
    requires MatchEnd(Block(open, close), s, i) == Some(e)
    ensures BlockEnd(open, close, s, i) == Some(e)
    ensures FirstFrom(s, '>', i + |open|).Some?
    ensures FirstFrom(s, '>', i + |open|).value + 1 <= e - |close| <= |s|
    ensures BlockInner(open, close, s, i, e) == s[FirstFrom(s, '>', i + |open|).value + 1..e - |close|]
  {
    BlockEndBounds(open, close, s, i, e);
  }

  /** A block match ends after the opening tag's `>` and a closing tag. */
  lemma BlockEndBounds(open: string, close: string, s: string, i: nat, e: nat)
    requires MatchEnd(Block(open, close), s, i) == Some(e)
    ensures BlockEnd(open, close, s, i) == Some(e)
    ensures FirstFrom(s, '>', i + |open|).Some?
    ensures FirstFrom(s, '>', i + |open|).value + 1 + |close| <= e <= |s|
  {
  }
}
