/** The page-content extractor of the content script (content/contentExtractor.js).
    The document is given as an abstract page: what each selector's first
    matching element holds, the paragraph texts, the body text with and
    without its noisy elements, the `<meta>` contents and the location.
    Querying the DOM, cloning and removing elements are not modelled. */
module ContentExtractor {
  import opened Wrappers
  import opened JsText

  /** The document as the extractor sees it. `selected` maps a selector to
      the `textContent` of the first element `querySelector` finds for it
      (no entry: nothing matches); `paragraphs` are the `textContent`s of the
      `<p>` elements in document order; `strippedBody` is what
      `getBodyContent` returns; `body` is `document.body.textContent`;
      `meta` maps a name to the `content` of the first `<meta>` whose `name`
      or `property` is that name. */
  datatype Page = Page(
    selected: map<string, string>,
    paragraphs: seq<string>,
    strippedBody: string,
    body: string,
    meta: map<string, string>,
    href: string,
    hostname: string,
    title: string)

  datatype Metadata = Metadata(
    author: Option<string>,
    publishDate: Option<string>,
    keywords: Option<string>,
    description: Option<string>)

  datatype PageContent = PageContent(
    url: string,
    domain: string,
    title: string,
    content: string,
    metadata: Metadata,
    timestamp: nat)

  /** `settings.minContentLength`. */
  const MinContentLength: nat := 100
  /** Paragraphs of this many UTF-16 units or fewer are dropped. */
  const MinParagraphLength: nat := 20
  const ParagraphSeparator: string := "\n\n"
  const NotEnoughContentMessage: string := "Not enough content found on page"
  const MainSelector: string := "main"

  /** The selectors `getArticleContent` tries, in order. */
  const ArticleSelectors: seq<string> :=
    ["article", "[role=\"article\"]", "[role=\"main\"]", "main",
     "#article", ".article", ".post-content", ".entry-content"]

  // ------------------------------------------------------------------
  // The strategies

  /** The text of the first selector of `selectors` that matches anything. */
  function FirstSelected(selected: map<string, string>, selectors: seq<string>): (r: Option<string>)
    ensures r.None? <==> forall i :: 0 <= i < |selectors| ==> selectors[i] !in selected
  {
    if selectors == [] then None
    else if selectors[0] in selected then Some(selected[selectors[0]])
    else FirstSelected(selected, selectors[1..])
  }

  /** The first selector that matches decides, whatever its text: an empty
      or short article is returned and later selectors are not consulted. */
  lemma {:induction false} FirstSelectorWins(selected: map<string, string>, selectors: seq<string>, i: nat)
    requires i < |selectors| && selectors[i] in selected
    requires forall j :: 0 <= j < i ==> selectors[j] !in selected
    ensures FirstSelected(selected, selectors) == Some(selected[selectors[i]])
  {
    if i > 0 {
      FirstSelectorWins(selected, selectors[1..], i - 1);
    }
  }

  /** `getArticleContent()`. */
  function GetArticleContent(page: Page): (r: Option<string>)
    ensures r.None? <==> forall i :: 0 <= i < |ArticleSelectors| ==> ArticleSelectors[i] !in page.selected
  {
    FirstSelected(page.selected, ArticleSelectors)
  }

  /** `getMainContent()`. */
  function GetMainContent(page: Page): (r: Option<string>)
    ensures r.Some? <==> MainSelector in page.selected
    ensures r.Some? ==> r.value == page.selected[MainSelector]
  {
    if MainSelector in page.selected then Some(page.selected[MainSelector]) else None
  }

  /** The paragraph texts trimmed, `.map(p => p.textContent.trim())`. */
  function TrimAll(texts: seq<string>): (r: seq<string>)
    ensures |r| == |texts|
    ensures forall i :: 0 <= i < |texts| ==> r[i] == Trim(texts[i])
  {
    if texts == [] then [] else [Trim(texts[0])] + TrimAll(texts[1..])
  }

  /** `.filter(text => text.length > 20)`. */
  function KeepLong(xs: seq<string>): (r: seq<string>)
    ensures |r| <= |xs|
  {
    if xs == [] then []
    else if JsLength(xs[0]) > MinParagraphLength then [xs[0]] + KeepLong(xs[1..])
    else KeepLong(xs[1..])
  }

  /** The trimmed paragraphs longer than `MinParagraphLength`, in document
      order and each as often as it occurs. */
  function LongParagraphs(texts: seq<string>): (kept: seq<string>)
    ensures |kept| <= |texts|
    ensures forall i :: 0 <= i < |kept| ==> IsTrimmed(kept[i]) && JsLength(kept[i]) > MinParagraphLength
    ensures IsSubsequence(kept, TrimAll(texts))
    ensures forall x :: JsLength(x) > MinParagraphLength ==> multiset(kept)[x] == multiset(TrimAll(texts))[x]
  {
    var trimmed := TrimAll(texts);
    KeepLongKeepsShape(trimmed);
    KeepLongIsSubsequence(trimmed);
    KeepLongCounts(trimmed);
    KeepLong(trimmed)
  }

  lemma {:induction false} KeepLongKeepsShape(xs: seq<string>)
    requires forall i :: 0 <= i < |xs| ==> IsTrimmed(xs[i])
    ensures forall i :: 0 <= i < |KeepLong(xs)| ==>
              IsTrimmed(KeepLong(xs)[i]) && JsLength(KeepLong(xs)[i]) > MinParagraphLength
  {
    if xs != [] {
      KeepLongKeepsShape(xs[1..]);
    }
  }

  lemma {:induction false} KeepLongIsSubsequence(xs: seq<string>)
    ensures IsSubsequence(KeepLong(xs), xs)
  {
    if xs != [] {
      KeepLongIsSubsequence(xs[1..]);
      assert xs == [xs[0]] + xs[1..];
      if JsLength(xs[0]) > MinParagraphLength {
        SubsequenceCons(KeepLong(xs[1..]), xs[0], xs[1..]);
      } else {
        SubsequenceDropFront(KeepLong(xs[1..]), xs[0], xs[1..]);
      }
    }
  }

  lemma {:induction false} KeepLongCounts(xs: seq<string>)
    ensures forall x :: JsLength(x) > MinParagraphLength ==> multiset(KeepLong(xs))[x] == multiset(xs)[x]
  {
    if xs != [] {
      KeepLongCounts(xs[1..]);
      assert xs == [xs[0]] + xs[1..];
      assert multiset(xs) == multiset{xs[0]} + multiset(xs[1..]);
      if JsLength(xs[0]) > MinParagraphLength {
        assert multiset(KeepLong(xs)) == multiset{xs[0]} + multiset(KeepLong(xs[1..]));
      }
    }
  }

  /** Every paragraph whose trimmed text is long enough is kept. */
  lemma LongParagraphKept(texts: seq<string>, i: nat)
    requires i < |texts| && JsLength(Trim(texts[i])) > MinParagraphLength
    ensures Trim(texts[i]) in LongParagraphs(texts)
  {
    var x := Trim(texts[i]);
    assert TrimAll(texts)[i] == x;
    assert x in multiset(TrimAll(texts));
  }

  /** Only paragraphs of the page are kept. */
  lemma LongParagraphOrigin(texts: seq<string>, x: string)
    requires x in LongParagraphs(texts)
    ensures exists i :: 0 <= i < |texts| && x == Trim(texts[i])
  {
    var kept := LongParagraphs(texts);
    var j :| 0 <= j < |kept| && kept[j] == x;
    assert JsLength(x) > MinParagraphLength;
    assert x in multiset(kept);
    assert x in TrimAll(texts);
    var i :| 0 <= i < |texts| && TrimAll(texts)[i] == x;
  }

  /** `getAllParagraphs()`. */
  function GetAllParagraphs(page: Page): (r: Option<string>)
    ensures r.None? <==> forall i :: 0 <= i < |page.paragraphs| ==> JsLength(Trim(page.paragraphs[i])) <= MinParagraphLength
    ensures r.Some? ==> r.value == Join(LongParagraphs(page.paragraphs), ParagraphSeparator)
  {
    var kept := LongParagraphs(page.paragraphs);
    if kept == [] then
      None
    else
      LongParagraphOrigin(page.paragraphs, kept[0]);
      Some(Join(kept, ParagraphSeparator))
  }

  /** `getBodyContent()`: the body without its header, footer, navigation,
      scripts, styles, menus, sidebars and advertisements, given by the page. */
  function GetBodyContent(page: Page): (r: string)
    ensures r == page.strippedBody
  {
    page.strippedBody
  }

  /** `content && content.length > minContentLength`. */
  predicate Substantial(candidate: Option<string>) {
    candidate.Some? && JsLength(candidate.value) > MinContentLength
  }

  /** The first substantial candidate. */
  function FirstSubstantial(candidates: seq<Option<string>>): (r: Option<string>)
    ensures r.None? <==> forall i :: 0 <= i < |candidates| ==> !Substantial(candidates[i])
    ensures r.Some? ==> JsLength(r.value) > MinContentLength
  {
    if candidates == [] then None
    else if Substantial(candidates[0]) then candidates[0]
    else FirstSubstantial(candidates[1..])
  }

  lemma {:induction false} FirstSubstantialWins(candidates: seq<Option<string>>, i: nat)
    requires i < |candidates| && Substantial(candidates[i])
    requires forall j :: 0 <= j < i ==> !Substantial(candidates[j])
    ensures FirstSubstantial(candidates) == candidates[i]
  {
    if i > 0 {
      FirstSubstantialWins(candidates[1..], i - 1);
    }
  }

  /** The strategies of `getPageContent`, in the order it tries them. */
  function Strategies(page: Page): (s: seq<Option<string>>)
    ensures |s| == 4
    ensures s[1].Some? ==> s[0].Some?
    ensures s[3] == Some(page.strippedBody)
  {
    MainIsArticleSelector();
    [GetArticleContent(page), GetMainContent(page), GetAllParagraphs(page), Some(GetBodyContent(page))]
  }

  /** `getPageContent()`: the first strategy giving more than
      `MinContentLength` units, else the raw body text. */
  function GetPageContent(page: Page): (r: string)
    ensures FirstSubstantial(Strategies(page)).None? ==> r == page.body
    ensures FirstSubstantial(Strategies(page)).Some? ==> JsLength(r) > MinContentLength
  {
    match FirstSubstantial(Strategies(page))
    case Some(content) => content
    case None => page.body
  }

  /** The strategies are tried in order and the first substantial one is
      returned. */
  lemma CascadeTakesFirst(page: Page, i: nat)
    requires i < 4 && Substantial(Strategies(page)[i])
    requires forall j :: 0 <= j < i ==> !Substantial(Strategies(page)[j])
    ensures GetPageContent(page) == Strategies(page)[i].value
  {
    FirstSubstantialWins(Strategies(page), i);
  }

  /** A long enough article wins over everything else. */
  lemma ArticleWins(page: Page)
    requires Substantial(GetArticleContent(page))
    ensures GetPageContent(page) == GetArticleContent(page).value
  {
    CascadeTakesFirst(page, 0);
  }

  /** With no article container and no `main`, long enough paragraphs are
      joined. */
  lemma ParagraphsWithoutContainers(page: Page)
    requires forall s :: s in page.selected ==> s !in ArticleSelectors
    requires Substantial(GetAllParagraphs(page))
    ensures GetPageContent(page) == Join(LongParagraphs(page.paragraphs), ParagraphSeparator)
  {
    NoContainers(page);
    CascadeTakesFirst(page, 2);
  }

  /** A page matching none of the article selectors has neither article
      text nor `main`, which is one of those selectors. */
  lemma NoContainers(page: Page)
    requires forall s :: s in page.selected ==> s !in ArticleSelectors
    ensures GetArticleContent(page).None? && GetMainContent(page).None?
  {
    forall i | 0 <= i < |ArticleSelectors|
      ensures ArticleSelectors[i] !in page.selected
    {
      assert ArticleSelectors[i] in ArticleSelectors;
    }
    MainIsArticleSelector();
  }

  /** `main` is the fourth article selector. */
  lemma MainIsArticleSelector()
    ensures ArticleSelectors[3] == MainSelector
  {
  }

  /** When no strategy is long enough the raw body text is returned,
      however short. */
  lemma BodyFallback(page: Page)
    requires forall i :: 0 <= i < 4 ==> !Substantial(Strategies(page)[i])
    ensures GetPageContent(page) == page.body
  {
  }

  // ------------------------------------------------------------------
  // cleanContent

  /** `text.replace(/\s+/g, ' ')`: every maximal whitespace run becomes one
      space. */
  function CollapseSpaces(s: string): (r: string)
    decreases |s|
    ensures s == [] <==> r == []
    ensures s != [] && IsSpace(s[0]) ==> r[0] == ' '
    ensures s != [] && !IsSpace(s[0]) ==> r[0] == s[0]
    ensures Collapsed(r)
  {
    if s == [] then []
    else if IsSpace(s[0]) then
      var n := LeadingSpaces(s);
      var rest := CollapseSpaces(s[n..]);
      assert forall i :: 1 <= i < |[' '] + rest| ==> ([' '] + rest)[i] == rest[i - 1];
      [' '] + rest
    else
      var rest := CollapseSpaces(s[1..]);
      assert forall i :: 1 <= i < |[s[0]] + rest| ==> ([s[0]] + rest)[i] == rest[i - 1];
      [s[0]] + rest
  }

  /** A whitespace run between two non-space characters (or the ends of the
      text) becomes exactly one space, and the text on either side is
      collapsed on its own. */
  lemma CollapseAcrossRun(a: string, w: string, b: string)
    requires a == [] || !IsSpace(a[|a| - 1])
    requires w != [] && forall k :: 0 <= k < |w| ==> IsSpace(w[k])
    requires b == [] || !IsSpace(b[0])
    ensures CollapseSpaces(a + w + b) == CollapseSpaces(a) + " " + CollapseSpaces(b)
  {
    var t := w + b;
    AppendAssoc(a, w, b);
    CollapseRunFront(w, b);
    if a == [] {
      assert a + t == t;
    } else {
      CollapseSplits(a, t);
      AppendAssoc(CollapseSpaces(a), " ", CollapseSpaces(b));
    }
  }

  /** A leading whitespace run followed by a non-space character or the end
      becomes one space. */
  lemma CollapseRunFront(w: string, b: string)
    requires w != [] && forall k :: 0 <= k < |w| ==> IsSpace(w[k])
    requires b == [] || !IsSpace(b[0])
    ensures CollapseSpaces(w + b) == " " + CollapseSpaces(b)
  {
    var s := w + b;
    LeadingSpacesOfRun(s, |w|);
    assert s[|w|..] == b;
  }

  /** After a non-space character the two sides collapse separately. */
  lemma {:induction false} CollapseSplits(x: string, y: string)
    requires x != [] && !IsSpace(x[|x| - 1])
    ensures CollapseSpaces(x + y) == CollapseSpaces(x) + CollapseSpaces(y)
    decreases |x|
  {
    var s := x + y;
    if IsSpace(x[0]) {
      var n := LeadingSpaces(x);
      LeadingSpacesOfRun(s, n);
      DropAppend(x, y, n);
      CollapseSplits(x[n..], y);
      AppendAssoc(" ", CollapseSpaces(x[n..]), CollapseSpaces(y));
    } else {
      DropAppend(x, y, 1);
      if |x| == 1 {
        assert x[1..] == [];
        assert x[1..] + y == y;
      } else {
        CollapseSplits(x[1..], y);
      }
      AppendAssoc([x[0]], CollapseSpaces(x[1..]), CollapseSpaces(y));
    }
  }

  /** Dropping a prefix of the left operand commutes with concatenation. */
  lemma DropAppend(x: string, y: string, n: nat)
    requires n <= |x|
    ensures (x + y)[n..] == x[n..] + y
    ensures n < |x| ==> (x + y)[n] == x[n]
  {
  }

  /** Concatenation is associative. */
  lemma AppendAssoc(a: string, b: string, c: string)
    ensures a + b + c == a + (b + c)
  {
  }

  /** Every whitespace character is a single space followed by a
      non-whitespace character or the end. */
  ghost predicate Collapsed(t: string) {
    forall i :: 0 <= i < |t| && IsSpace(t[i]) ==> t[i] == ' ' && (i + 1 == |t| || !IsSpace(t[i + 1]))
  }

  /** Index of the last newline of `s`. */
  function LastNewline(s: string): (r: Option<nat>)
    ensures r.Some? ==> r.value < |s| && s[r.value] == '\n'
    ensures r.Some? ==> forall k :: r.value < k < |s| ==> s[k] != '\n'
    ensures r.None? ==> '\n' !in s
  {
    if s == [] then None
    else if s[|s| - 1] == '\n' then Some(|s| - 1)
    else LastNewline(s[..|s| - 1])
  }

  /** Where a match of `/\n\s*\n/` starting at the newline `s[0]` ends: the
      greedy `\s*` runs to the end of the whitespace that follows and gives
      characters back until the next one is a newline, so the match ends
      just after the last newline of that whitespace run. */
  function BlankLineEnd(s: string): (e: Option<nat>)
    requires s != [] && s[0] == '\n'
    ensures e.Some? ==> 2 <= e.value <= |s| && s[e.value - 1] == '\n'
    ensures e.Some? ==> forall k :: 0 <= k < e.value ==> IsSpace(s[k])
    ensures e.None? ==> forall k :: 1 <= k <= LeadingSpaces(s[1..]) ==> s[k] != '\n'
  {
    var w := LeadingSpaces(s[1..]);
    match LastNewline(s[1..1 + w])
    case Some(j) =>
      assert forall k :: 0 <= k < j + 2 ==> IsSpace(s[k]) by {
        forall k | 0 <= k < j + 2
          ensures IsSpace(s[k])
        {
          if k > 0 {
            assert s[k] == s[1..1 + w][k - 1];
          }
        }
      }
      Some(j + 2)
    case None =>
      forall k | 1 <= k <= w
        ensures s[k] != '\n'
      {
        assert s[k] == s[1..1 + w][k - 1];
      }
      None
  }

  /** `text.replace(/\n\s*\n/g, '\n')`: each match becomes one newline and the
      scan goes on after it; a newline that starts no match is kept. */
  function ReplaceBlankLines(s: string): (r: string)
    decreases |s|
    ensures |r| <= |s|
    ensures NonSpace(r) == NonSpace(s)
    ensures '\n' !in s ==> r == s
  {
    if s == [] then []
    else if s[0] == '\n' then
      match BlankLineEnd(s)
      case Some(e) =>
        var rest := ReplaceBlankLines(s[e..]);
        NonSpaceSkipsLeading(s, e);
        NewlineThenKeepsNonSpace(rest);
        "\n" + rest
      case None =>
        var rest := ReplaceBlankLines(s[1..]);
        NewlineThenKeepsNonSpace(rest);
        assert s == "\n" + s[1..];
        NewlineThenKeepsNonSpace(s[1..]);
        "\n" + rest
    else
      var rest := ReplaceBlankLines(s[1..]);
      assert '\n' !in s ==> '\n' !in s[1..];
      NonSpaceAppend([s[0]], rest);
      NonSpaceAppend([s[0]], s[1..]);
      assert s == [s[0]] + s[1..];
      [s[0]] + rest
  }

  /** A newline, any white space and a newline, up to text that does not
      start with white space, are replaced by one newline: the match takes
      the whole white-space run. */
  lemma BlankLineBecomesNewline(w: string, t: string)
    requires forall k :: 0 <= k < |w| ==> IsSpace(w[k])
    requires t == [] || !IsSpace(t[0])
    ensures ReplaceBlankLines("\n" + w + "\n" + t) == "\n" + ReplaceBlankLines(t)
  {
    var s := "\n" + w + "\n" + t;
    assert s[1..] == w + "\n" + t;
    LeadingSpacesOfRun(s[1..], |w| + 1);
    assert s[1..1 + |w| + 1] == w + "\n";
    assert s[|w| + 2..] == t;
  }

  /** `cleanContent(text)`. */
  function CleanContent(s: string): (r: string)
    ensures IsTrimmed(r) && Collapsed(r) && '\n' !in r
    ensures NonSpace(r) == NonSpace(s)
  {
    var c := CollapseSpaces(s);
    CollapsedHasNoNewline(c);
    TrimKeepsCollapsed(c);
    CollapsedHasNoNewline(Trim(c));
    CollapseKeepsNonSpace(s);
    TrimKeepsNonSpace(c);
    Trim(ReplaceBlankLines(c))
  }

  /** A collapsed string has no newline. */
  lemma CollapsedHasNoNewline(t: string)
    requires Collapsed(t)
    ensures '\n' !in t
  {
    if '\n' in t {
      var i :| 0 <= i < |t| && t[i] == '\n';
      assert IsSpace(t[i]);
    }
  }

  /** Trimming a collapsed string keeps it collapsed. */
  lemma TrimKeepsCollapsed(t: string)
    requires Collapsed(t)
    ensures Collapsed(Trim(t))
  {
    var a := LeadingSpaces(t);
    var u := t[a..];
    var b := |u| - TrailingSpaces(u);
    assert Trim(t) == t[a..a + b];
    forall i | 0 <= i < b && IsSpace(Trim(t)[i])
      ensures Trim(t)[i] == ' ' && (i + 1 == b || !IsSpace(Trim(t)[i + 1]))
    {
      assert Trim(t)[i] == t[a + i];
      assert i + 1 < b ==> Trim(t)[i + 1] == t[a + i + 1];
    }
  }

  /** After the first replacement no newline is left, so the second
      replacement of `cleanContent` never changes anything. */
  lemma BlankLinesAlreadyGone(s: string)
    ensures ReplaceBlankLines(CollapseSpaces(s)) == CollapseSpaces(s)
  {
    CollapsedHasNoNewline(CollapseSpaces(s));
  }

  /** A collapsed string is left as it is by the first replacement. */
  lemma {:induction false} CollapseFixesCollapsed(t: string)
    requires Collapsed(t)
    ensures CollapseSpaces(t) == t
    decreases |t|
  {
    if t != [] {
      assert Collapsed(t[1..]) by {
        forall i | 0 <= i < |t[1..]| && IsSpace(t[1..][i])
          ensures t[1..][i] == ' ' && (i + 1 == |t[1..]| || !IsSpace(t[1..][i + 1]))
        {
          assert t[1..][i] == t[i + 1];
        }
      }
      CollapseFixesCollapsed(t[1..]);
      if IsSpace(t[0]) {
        assert LeadingSpaces(t) == 1 by {
          if |t| > 1 {
            assert !IsSpace(t[1]);
            assert LeadingSpaces(t[1..]) == 0;
          }
        }
        assert t == [' '] + t[1..];
      } else {
        assert t == [t[0]] + t[1..];
      }
    }
  }

  /** Cleaning twice is cleaning once. */
  lemma CleanContentIdempotent(s: string)
    ensures CleanContent(CleanContent(s)) == CleanContent(s)
  {
    var t := CleanContent(s);
    CollapseFixesCollapsed(t);
  }

  /** The first replacement changes whitespace only. */
  lemma {:induction false} CollapseKeepsNonSpace(s: string)
    ensures NonSpace(CollapseSpaces(s)) == NonSpace(s)
    decreases |s|
  {
    if s != [] {
      if IsSpace(s[0]) {
        var n := LeadingSpaces(s);
        NonSpaceSkipsLeading(s, n);
        CollapseKeepsNonSpace(s[n..]);
        NonSpaceAppend([' '], CollapseSpaces(s[n..]));
        assert NonSpace([' ']) == [];
      } else {
        CollapseKeepsNonSpace(s[1..]);
        NonSpaceAppend([s[0]], CollapseSpaces(s[1..]));
        assert NonSpace([s[0]]) == [s[0]];
      }
    }
  }

  /** A newline in front does not count. */
  lemma NewlineThenKeepsNonSpace(t: string)
    ensures NonSpace("\n" + t) == NonSpace(t)
  {
    assert ("\n" + t)[1..] == t;
  }

  // ------------------------------------------------------------------
  // Metadata

  /** `findMetaContent(name)`: the content of the first matching tag, or
      `undefined`. */
  function FindMetaContent(page: Page, name: string): (r: Option<string>)
    ensures r.Some? <==> name in page.meta
    ensures r.Some? ==> r.value == page.meta[name]
  {
    if name in page.meta then Some(page.meta[name]) else None
  }

  /** JavaScript's `a || b` on an optional string: `a` when it is a
      non-empty string, `b` otherwise. */
  function JsOr(a: Option<string>, b: Option<string>): (r: Option<string>)
    ensures a.Some? && a.value != [] ==> r == a
    ensures !(a.Some? && a.value != []) ==> r == b
  {
    if a.Some? && a.value != [] then a else b
  }

  /** `extractMetadata()`. */
  function ExtractMetadata(page: Page): (r: Metadata)
    ensures "author" in page.meta && page.meta["author"] != [] ==> r.author == Some(page.meta["author"])
    ensures !("author" in page.meta && page.meta["author"] != []) ==> r.author == FindMetaContent(page, "article:author")
    ensures "article:published_time" in page.meta && page.meta["article:published_time"] != [] ==>
              r.publishDate == Some(page.meta["article:published_time"])
    ensures !("article:published_time" in page.meta && page.meta["article:published_time"] != []) ==>
              r.publishDate == FindMetaContent(page, "publishedDate")
    ensures r.keywords.None? <==> "keywords" !in page.meta
    ensures r.description.None? <==> "description" !in page.meta
    ensures r.keywords == FindMetaContent(page, "keywords")
    ensures r.description == FindMetaContent(page, "description")
  {
    Metadata(
      JsOr(FindMetaContent(page, "author"), FindMetaContent(page, "article:author")),
      JsOr(FindMetaContent(page, "article:published_time"), FindMetaContent(page, "publishedDate")),
      FindMetaContent(page, "keywords"),
      FindMetaContent(page, "description"))
  }

  // ------------------------------------------------------------------
  // extractContent

  /** `!content || content.trim().length < minContentLength`. */
  predicate TooShort(content: string) {
    content == [] || JsLength(Trim(content)) < MinContentLength
  }

  /** `extractContent()` at time `timestamp`. */
  function ExtractContent(page: Page, timestamp: nat): (r: Result<PageContent, string>)
    ensures r.Failure? <==> TooShort(GetPageContent(page))
    ensures r.Failure? ==> r.error == NotEnoughContentMessage
    ensures r.Success? ==>
              r.value.content == CleanContent(GetPageContent(page)) &&
              r.value.metadata == ExtractMetadata(page) &&
              r.value.url == page.href && r.value.domain == page.hostname &&
              r.value.title == page.title && r.value.timestamp == timestamp
  {
    var content := GetPageContent(page);
    if TooShort(content) then Failure(NotEnoughContentMessage)
    else Success(PageContent(page.href, page.hostname, page.title, CleanContent(content), ExtractMetadata(page), timestamp))
  }

  /** Content of exactly `MinContentLength` units once trimmed passes the
      check, although the cascade itself asks for more than that. */
  lemma ExactlyMinimumPasses(page: Page, timestamp: nat)
    requires JsLength(Trim(GetPageContent(page))) == MinContentLength
    ensures ExtractContent(page, timestamp).Success?
  {
  }

  /** The cascade measures the untrimmed text and the check the trimmed one:
      an article padded with whitespace past the threshold is chosen over
      every later strategy and then rejected. */
  lemma PaddedArticleIsRejected(page: Page, timestamp: nat)
    requires Substantial(GetArticleContent(page))
    requires JsLength(Trim(GetArticleContent(page).value)) < MinContentLength
    ensures ExtractContent(page, timestamp) == Failure(NotEnoughContentMessage)
  {
    ArticleWins(page);
  }

  /** Extracted content has the shape `cleanContent` gives and keeps every
      non-whitespace character of the chosen text. */
  lemma ExtractedContentIsClean(page: Page, timestamp: nat)
    requires ExtractContent(page, timestamp).Success?
    ensures IsTrimmed(ExtractContent(page, timestamp).value.content)
    ensures '\n' !in ExtractContent(page, timestamp).value.content
    ensures NonSpace(ExtractContent(page, timestamp).value.content) == NonSpace(GetPageContent(page))
  {
  }
}
