/**
 * The content script's extractor (`ContentExtractor` in
 * chrome-extension/content.js): the page metadata, the three extraction
 * methods tried in turn (Readability on a copy of the page, a selector
 * heuristic, the whole body), the record handed back to the popup, and the
 * capped extraction log.
 *
 * The page is a `Document` value. The live page is never changed: Method 1
 * hands Readability a copy (`document.cloneNode(true)`), which becomes the
 * reader's own field, and Methods 2 and 3 only query.
 */
module ContentScript {
  import opened Util
  import opened Strings
  import opened Dom
  import opened Page
  import opened TextMetrics
  import R = SimpleReadability

  // ---------------------------------------------------------------------
  // Metadata
  // ---------------------------------------------------------------------

  datatype Metadata = Metadata(
    title: string,
    url: string,
    description: string,
    author: string,
    publishedDate: string,
    modifiedDate: string,
    siteName: string,
    language: string,
    keywords: string,
    canonicalUrl: string)

  /** JavaScript's falsy strings: null and ''. */
  predicate Falsy(v: JsStr)
  {
    v.Null? || v.s == ""
  }

  /** `v0 || v1 || ... || d`: the first value that is not falsy, else `d`. */
  function FirstNonEmpty(vs: seq<JsStr>, d: string): string
    decreases |vs|
  {
    if vs == [] then d
    else if !Falsy(vs[0]) then vs[0].s
    else FirstNonEmpty(vs[1..], d)
  }

  /** `FirstNonEmpty` is the default when every value is falsy. */
  lemma {:induction false} FirstNonEmptyDefault(vs: seq<JsStr>, d: string)
    requires forall k :: 0 <= k < |vs| ==> Falsy(vs[k])
    ensures FirstNonEmpty(vs, d) == d
    decreases |vs|
  {
    if vs != [] {
      assert Falsy(vs[0]);
      assert forall k :: 0 <= k < |vs[1..]| ==> vs[1..][k] == vs[k + 1];
      FirstNonEmptyDefault(vs[1..], d);
    }
  }

  /** `FirstNonEmpty` is the value at `k` when it is the first one that is not falsy. */
  lemma {:induction false} FirstNonEmptyAt(vs: seq<JsStr>, d: string, k: nat)
    requires k < |vs| && !Falsy(vs[k])
    requires forall j :: 0 <= j < k ==> Falsy(vs[j])
    ensures FirstNonEmpty(vs, d) == vs[k].s
    decreases k
  {
    if k > 0 {
      assert Falsy(vs[0]);
      var rest := vs[1..];
      assert rest[k - 1] == vs[k];
      assert forall j :: 0 <= j < k - 1 ==> rest[j] == vs[j + 1];
      FirstNonEmptyAt(rest, d, k - 1);
    }
  }

  /** The `||` chains of `extractMetadata` are `FirstNonEmpty` over their operands. */
  lemma OrChain(a: JsStr, b: JsStr, d: string)
    ensures OrElse(a, d) == FirstNonEmpty([a], d)
    ensures OrElse(Or(a, b), d) == FirstNonEmpty([a, b], d)
  {
    assert [a][1..] == [];
    assert [a, b][1..] == [b];
    assert [b][1..] == [];
  }

  /** `link[rel="canonical"]`. */
  const CanonicalLink: Selector := Both(Tag("link"), AttrIs("rel", "canonical"))

  /** The message of the TypeError raised by reading a property of a missing `documentElement`. */
  const NoDocumentElement: string := "Cannot read properties of null (reading 'lang')"

  /** `getCanonicalUrl`: the raw `href` attribute of the first canonical link (unresolved, `rel` matched exactly), else the page's URL. */
  function CanonicalUrl(doc: Document): (r: string)
    ensures QueryFirst(doc.nodes, CanonicalLink).None? ==> r == doc.url
    ensures QueryFirst(doc.nodes, CanonicalLink).Some? ==> r == AttrOrEmpty(QueryFirst(doc.nodes, CanonicalLink).value, "href")
    ensures r != doc.url ==> exists m | m in Elements(doc.nodes) ::
      && m.info.tag == "link" && "rel" in m.info.attrs && m.info.attrs["rel"] == "canonical"
      && AttrOrEmpty(m, "href") == r
  {
    match QueryFirst(doc.nodes, CanonicalLink)
    case None => doc.url
    case Some(link) =>
      assert Matches(link.info, Tag("link")) && Matches(link.info, AttrIs("rel", "canonical"));
      AttrOrEmpty(link, "href")
  }

  /** The link `getCanonicalUrl` reads is the first canonical link in document order. */
  lemma CanonicalUrlAt(doc: Document, i: nat)
    requires i < |Elements(doc.nodes)| && Matches(Elements(doc.nodes)[i].info, CanonicalLink)
    requires forall j :: 0 <= j < i ==> !Matches(Elements(doc.nodes)[j].info, CanonicalLink)
    ensures CanonicalUrl(doc) == AttrOrEmpty(Elements(doc.nodes)[i], "href")
  {
    QueryFirstAt(doc.nodes, CanonicalLink, i);
  }

  /**
   * `extractMetadata`: every meta-derived field is the first non-empty
   * value of its chain of `<meta>` names, else ''; the language is the root
   * element's `lang`, else 'en'. The page has to have a root element:
   * reading `lang` from a missing one throws.
   */
  function ExtractMetadata(doc: Document): (r: Result<Metadata>)
    ensures r.Failure? <==> DocumentElement(doc).None?
    ensures r.Failure? ==> r.error == NoDocumentElement
    ensures r.Success? ==> var md, ns, root := r.value, doc.nodes, DocumentElement(doc).value;
      && md.title == doc.title
      && md.url == doc.url
      && md.description == FirstNonEmpty([MetaContent(ns, "description")], "")
      && md.author == FirstNonEmpty([MetaContent(ns, "author"), MetaContent(ns, "article:author")], "")
      && md.publishedDate == FirstNonEmpty([MetaContent(ns, "article:published_time"), MetaContent(ns, "datePublished")], "")
      && md.modifiedDate == FirstNonEmpty([MetaContent(ns, "article:modified_time"), MetaContent(ns, "dateModified")], "")
      && md.siteName == FirstNonEmpty([MetaContent(ns, "og:site_name"), MetaContent(ns, "application-name")], "")
      && md.language == FirstNonEmpty([GetAttribute(root, "lang")], "en")
      && md.keywords == FirstNonEmpty([MetaContent(ns, "keywords")], "")
      && md.canonicalUrl == CanonicalUrl(doc)
  {
    var ns := doc.nodes;
    match DocumentElement(doc)
    case None => Failure(NoDocumentElement)
    case Some(root) =>
      OrChain(MetaContent(ns, "description"), Null, "");
      OrChain(MetaContent(ns, "author"), MetaContent(ns, "article:author"), "");
      OrChain(MetaContent(ns, "article:published_time"), MetaContent(ns, "datePublished"), "");
      OrChain(MetaContent(ns, "article:modified_time"), MetaContent(ns, "dateModified"), "");
      OrChain(MetaContent(ns, "og:site_name"), MetaContent(ns, "application-name"), "");
      OrChain(GetAttribute(root, "lang"), Null, "en");
      OrChain(MetaContent(ns, "keywords"), Null, "");
      Success(Metadata(
        doc.title,
        doc.url,
        OrElse(MetaContent(ns, "description"), ""),
        OrElse(Or(MetaContent(ns, "author"), MetaContent(ns, "article:author")), ""),
        OrElse(Or(MetaContent(ns, "article:published_time"), MetaContent(ns, "datePublished")), ""),
        OrElse(Or(MetaContent(ns, "article:modified_time"), MetaContent(ns, "dateModified")), ""),
        OrElse(Or(MetaContent(ns, "og:site_name"), MetaContent(ns, "application-name")), ""),
        OrElse(GetAttribute(root, "lang"), "en"),
        OrElse(MetaContent(ns, "keywords"), ""),
        CanonicalUrl(doc)))
  }

  // ---------------------------------------------------------------------
  // The content object the three methods build
  // ---------------------------------------------------------------------

  /**
   * The object an extraction method returns; `content` stands for
   * `innerHTML` and is kept as the child nodes. `byline`, `length` and
   * `siteName` are keys only Method 1 sets: `None` is a missing key,
   * `Some(Null)` a key whose value is null.
   */
  datatype Content = Content(
    title: string,
    content: seq<Node>,
    textContent: string,
    excerpt: string,
    byline: Option<JsStr>,
    length: Option<nat>,
    siteName: Option<JsStr>)

  /** `content && content.textContent`: an object with non-empty text. */
  predicate Usable(c: Option<Content>)
  {
    c.Some? && c.value.textContent != ""
  }

  // ---------------------------------------------------------------------
  // Method 1: Readability on a copy of the page
  // ---------------------------------------------------------------------

  /** The options Method 1 passes; only the threshold of 500 characters has an effect. */
  const ReadabilityOptions: R.Overrides :=
    R.Overrides(Some(false), Some(0), Some(5), Some(500), Some(["caption", "emoji", "hidden"]))

  function FromArticle(a: R.Article): Content
  {
    Content(a.title, a.content, a.textContent, a.excerpt, Some(a.byline), Some(a.length), Some(a.siteName))
  }

  /** What Method 1 yields: the article `parse` returns with a threshold of 500, copied key by key. */
  function ReadabilityContent(doc: Document): Option<Content>
  {
    match R.ParseResult(doc, 500)
    case None => None
    case Some(a) => Some(FromArticle(a))
  }

  /**
   * Method 1 finds nothing exactly when the stripped page has no valid
   * block of more than 500 characters and no valid first content-class
   * match.
   */
  lemma ReadabilityContentNone(doc: Document)
    ensures var ns := R.StripAll(doc.nodes, R.Unwanted);
      ReadabilityContent(doc).None? <==>
        (forall m | m in Elements(ns) :: !R.ValidBlock(m, 500)) && !R.Accepted(R.ByContentClass(ns), 500)
  {
    R.ParseNone(doc, 500);
  }

  /** What Method 1 finds carries its own length and an excerpt of its own text, and sets all three optional keys. */
  lemma ReadabilityContentFields(doc: Document)
    requires ReadabilityContent(doc).Some?
    ensures var c := ReadabilityContent(doc).value;
      && c.length == Some(|c.textContent|)
      && c.excerpt == Excerpt(c.textContent)
      && c.byline.Some? && c.siteName.Some?
  {
    R.ParseArticle(doc, 500);
  }

  /**
   * `extractWithReadability`: runs a fresh reader over a copy of the page.
   * The method changes no state that exists before it: the reader and the
   * copy it strips and cleans are its own.
   */
  method ExtractWithReadability(doc: Document) returns (r: Option<Content>)
    requires KeysUnique(doc.nodes)
    ensures r == ReadabilityContent(doc)
  {
    var documentClone := doc;
    var reader := new R.Readability(documentClone, ReadabilityOptions);
    var article := reader.Parse();
    if article.Some? {
      var a := article.value;
      return Some(Content(a.title, a.content, a.textContent, a.excerpt, Some(a.byline), Some(a.length), Some(a.siteName)));
    }
    return None;
  }

  // ---------------------------------------------------------------------
  // Method 2: the selector heuristic
  // ---------------------------------------------------------------------

  /** The eleven selectors Method 2 tries in order. */
  const ContentSelectors: seq<Selector> := [
    Tag("article"), AttrIs("role", "main"), Class("content"), Class("post-content"),
    Class("entry-content"), Class("article-content"), Class("main-content"),
    Id("content"), Id("main"), Class("post"), Class("article")]

  /** The classes that disqualify an element; matched as whole class names, and the id is not looked at. */
  const ExcludedClasses: seq<string> := ["advertisement", "ad", "sidebar", "navigation", "nav"]

  /** `p, div, section, article`. */
  const TextBlocks: Selector := AnyOf([Tag("p"), Tag("div"), Tag("section"), Tag("article")])

  /** The title selectors of `extractTitle`, in order. */
  const TitleSources: seq<Selector> := [
    Tag("h1"), Class("title"), Class("post-title"), Class("article-title"), HasAttr("data-title")]

  /** `isValidContentElement`. */
  predicate IsValidContentElement(n: Node)
    requires n.Element?
  {
    && |Trim(TextOf(n))| > 100
    && QueryFirst(n.children, Tag("script")).None?
    && QueryFirst(n.children, Tag("style")).None?
    && forall k :: 0 <= k < |ExcludedClasses| ==> ExcludedClasses[k] !in n.info.classes
  }

  /** An element is valid content for Method 2 exactly when its three conditions hold. */
  lemma ValidContentElementIff(n: Node)
    requires n.Element?
    ensures IsValidContentElement(n) <==>
      && |Trim(TextOf(n))| > 100
      && (forall d | d in Elements(n.children) :: d.info.tag != "script" && d.info.tag != "style")
      && (forall c | c in ExcludedClasses :: c !in n.info.classes)
  {
    if forall k :: 0 <= k < |ExcludedClasses| ==> ExcludedClasses[k] !in n.info.classes {
      forall c | c in ExcludedClasses ensures c !in n.info.classes {
        var k :| 0 <= k < |ExcludedClasses| && ExcludedClasses[k] == c;
      }
    } else {
      var k :| 0 <= k < |ExcludedClasses| && ExcludedClasses[k] in n.info.classes;
      assert ExcludedClasses[k] in ExcludedClasses;
    }
  }

  /**
   * Unlike Readability's test, a class `nav` disqualifies and an id never
   * does: an element whose id is `header` can be valid here.
   */
  lemma NavClassExcluded(n: Node)
    requires n.Element? && "nav" in n.info.classes
    ensures !IsValidContentElement(n)
  {
    assert ExcludedClasses[4] == "nav";
  }

  /** The first match of `s` exists and is valid content. */
  predicate ValidMatch(ns: seq<Node>, s: Selector)
  {
    var q := QueryFirst(ns, s);
    q.Some? && IsValidContentElement(q.value)
  }

  /**
   * The selector loop of Method 2: the first match of the first selector,
   * in list order, whose first match is valid. An invalid first match does
   * not stop the loop.
   */
  function FirstValidMatch(ns: seq<Node>, sels: seq<Selector>): (r: Option<Node>)
    ensures r.Some? ==> r.value in Elements(ns) && r.value.Element? && IsValidContentElement(r.value)
  {
    var k := FirstIndex(sels, (s: Selector) => ValidMatch(ns, s));
    if k.None? then None else QueryFirst(ns, sels[k.value])
  }

  /** The loop finds nothing exactly when no selector's first match is valid. */
  lemma FirstValidMatchNone(ns: seq<Node>, sels: seq<Selector>)
    ensures FirstValidMatch(ns, sels).None? <==> forall k :: 0 <= k < |sels| ==> !ValidMatch(ns, sels[k])
  {
  }

  /** What the loop finds is the first match of the first selector whose first match is valid. */
  lemma FirstValidMatchIsFirst(ns: seq<Node>, sels: seq<Selector>)
    requires FirstValidMatch(ns, sels).Some?
    ensures exists k :: && 0 <= k < |sels| && FirstValidMatch(ns, sels) == QueryFirst(ns, sels[k])
                        && forall j :: 0 <= j < k ==> !ValidMatch(ns, sels[j])
  {
  }

  predicate ValidTextBlock(m: Node)
  {
    m.Element? && Matches(m.info, TextBlocks) && IsValidContentElement(m)
  }

  /** The valid `p`/`div`/`section`/`article` elements, in document order. */
  function ValidTextBlocks(ns: seq<Node>): (r: seq<Node>)
    ensures forall m | m in r :: m in Elements(ns) && ValidTextBlock(m)
    ensures forall m | m in Elements(ns) && ValidTextBlock(m) :: m in r
  {
    FilterMembers(QueryAll(ns, TextBlocks), (m: Node) => m.Element? && IsValidContentElement(m));
    Filter(QueryAll(ns, TextBlocks), (m: Node) => m.Element? && IsValidContentElement(m))
  }

  /** The element Method 2 settles on: the selector loop's answer, else the longest valid text block. */
  function HeuristicMain(ns: seq<Node>): (r: Option<Node>)
    ensures r.Some? ==> r.value in Elements(ns) && r.value.Element? && IsValidContentElement(r.value)
  {
    var m := FirstValidMatch(ns, ContentSelectors);
    if m.Some? then m else Longest(ValidTextBlocks(ns))
  }

  /**
   * Method 2 finds nothing exactly when no selector's first match is valid
   * and no text block is valid; a valid selector match wins; otherwise it
   * takes the longest valid text block, the earliest of those on a tie.
   */
  lemma HeuristicMainCases(ns: seq<Node>)
    ensures HeuristicMain(ns).None? <==>
      (forall k :: 0 <= k < |ContentSelectors| ==> !ValidMatch(ns, ContentSelectors[k]))
      && (forall m | m in Elements(ns) :: !ValidTextBlock(m))
    ensures (forall k :: 0 <= k < |ContentSelectors| ==> !ValidMatch(ns, ContentSelectors[k])) && HeuristicMain(ns).Some? ==>
      && ValidTextBlock(HeuristicMain(ns).value)
      && forall m | m in Elements(ns) && ValidTextBlock(m) :: |TextOf(m)| <= |TextOf(HeuristicMain(ns).value)|
    ensures FirstValidMatch(ns, ContentSelectors).Some? ==> HeuristicMain(ns) == FirstValidMatch(ns, ContentSelectors)
    ensures FirstValidMatch(ns, ContentSelectors).None? ==> HeuristicMain(ns) == Longest(ValidTextBlocks(ns))
  {
    FirstValidMatchNone(ns, ContentSelectors);
  }

  /** `extractTitle`: the first non-empty trimmed text among the title selectors, else `document.title`. */
  function PageTitle(doc: Document): string
  {
    FirstTitle(doc.nodes, TitleSources).GetOr(doc.title)
  }

  /** What Method 2 yields. */
  function HeuristicContent(doc: Document): (r: Option<Content>)
    ensures r.Some? ==> r.value.byline.None? && r.value.length.None? && r.value.siteName.None?
  {
    match HeuristicMain(doc.nodes)
    case None => None
    case Some(m) => Some(Content(PageTitle(doc), m.children, TextOf(m), Excerpt(TextOf(m)), None, None, None))
  }

  /** `extractTitle`: the selector loop with its early return. */
  method ExtractTitle(doc: Document) returns (title: string)
    ensures title == PageTitle(doc)
    ensures title != doc.title ==> title != "" && !IsWs(title[0]) && !IsWs(title[|title| - 1])
  {
    title := TitleLoop(doc.nodes, TitleSources, doc.title);
  }

  /** The loop of `extractTitle`: the first non-empty trimmed text among `sels`, returned at once, else `fallback`. */
  method TitleLoop(ns: seq<Node>, sels: seq<Selector>, fallback: string) returns (title: string)
    ensures title == FirstTitle(ns, sels).GetOr(fallback)
    ensures title != fallback ==> title != "" && !IsWs(title[0]) && !IsWs(title[|title| - 1])
  {
    var i := 0;
    while i < |sels|
      invariant 0 <= i <= |sels|
      invariant forall j :: 0 <= j < i ==> TitleAt(ns, sels[j]) == ""
    {
      var element := QueryFirst(ns, sels[i]);
      if element.Some? && Trim(TextOf(element.value)) != "" {
        title := Trim(TextOf(element.value));
        assert TitleAt(ns, sels[i]) == title;
        FirstTitleAt(ns, sels, i);
        return;
      }
      assert TitleAt(ns, sels[i]) == "";
      assert forall j :: 0 <= j < i + 1 ==> TitleAt(ns, sels[j]) == "" by {
        forall j | 0 <= j < i + 1 ensures TitleAt(ns, sels[j]) == "" {
          if j == i {
            assert sels[j] == sels[i];
          }
        }
      }
      i := i + 1;
    }
    FirstTitleNone(ns, sels);
    return fallback;
  }

  /** `extractWithHeuristics`: the selector loop, then the longest valid block. */
  method ExtractWithHeuristics(doc: Document) returns (r: Option<Content>)
    ensures r == HeuristicContent(doc)
  {
    var ns := doc.nodes;
    var k := FindFirst(ContentSelectors, (s: Selector) => ValidMatch(ns, s));
    var mainElement := if k.Some? then QueryFirst(ns, ContentSelectors[k.value]) else None;
    if mainElement.None? {
      var textElements := ValidTextBlocks(ns);
      mainElement := Longest(textElements);
    }
    if mainElement.Some? {
      var m := mainElement.value;
      var title := ExtractTitle(doc);
      return Some(Content(title, m.children, TextOf(m), Excerpt(TextOf(m)), None, None, None));
    }
    return None;
  }

  // ---------------------------------------------------------------------
  // Method 3: the whole body
  // ---------------------------------------------------------------------

  /** The message of the TypeError raised by reading a property of a missing `body`. */
  const NoBody: string := "Cannot read properties of null (reading 'textContent')"

  /**
   * `extractAllText`: the body's text, whatever it is (possibly ''), with
   * its first 200 characters and "..." as the excerpt. It throws only
   * when the page has no body.
   */
  function ExtractAllText(doc: Document): (r: Result<Content>)
    ensures r.Failure? <==> Body(doc).None?
    ensures r.Failure? ==> r.error == NoBody
    ensures r.Success? ==> var c := r.value;
      && c.title == doc.title
      && c.textContent == TextOf(Body(doc).value)
      && c.content == Body(doc).value.children
      && |c.excerpt| == Min(|c.textContent|, 200) + 3
      && c.excerpt == c.textContent[..|c.excerpt| - 3] + "..."
      && c.byline.None? && c.length.None? && c.siteName.None?
  {
    match Body(doc)
    case None => Failure(NoBody)
    case Some(body) =>
      var bodyText := TextOf(body);
      Success(Content(doc.title, body.children, bodyText, bodyText[..Min(|bodyText|, 200)] + "...", None, None, None))
  }

  // ---------------------------------------------------------------------
  // Images and links
  // ---------------------------------------------------------------------

  /** An image record; `width` and `height` are not part of this model. */
  datatype Image = Image(src: string, alt: string, title: string)

  datatype Link = Link(href: string, text: string, title: string)

  function ImageOf(m: Node): Image
    requires m.Element?
  {
    Image(AttrOrEmpty(m, "src"), AttrOrEmpty(m, "alt"), AttrOrEmpty(m, "title"))
  }

  /** The images kept: a non-empty `src` that is not a `data:` URL. */
  predicate KeepImage(img: Image)
  {
    img.src != "" && !StartsWith(img.src, "data:")
  }

  /** `.map(img => ...).filter(...)` over a list of `<img>` elements. */
  function ImagesOf(es: seq<Node>): (r: seq<Image>)
    requires forall m | m in es :: m.Element?
    ensures forall img | img in r :: KeepImage(img) && exists m | m in es :: ImageOf(m) == img
    ensures forall m | m in es && KeepImage(ImageOf(m)) :: ImageOf(m) in r
  {
    if es == [] then []
    else
      var img := ImageOf(es[0]);
      (if KeepImage(img) then [img] else []) + ImagesOf(es[1..])
  }

  lemma {:induction false} ImagesOfConcat(a: seq<Node>, b: seq<Node>)
    requires forall m | m in a + b :: m.Element?
    ensures ImagesOf(a + b) == ImagesOf(a) + ImagesOf(b)
  {
    if a == [] {
      assert a + b == b;
    } else {
      assert (a + b)[0] == a[0];
      assert (a + b)[1..] == a[1..] + b;
      ImagesOfConcat(a[1..], b);
    }
  }

  /**
   * `extractImages`: every `<img>` of the whole page (not of the extracted
   * content) whose `src` is non-empty and not a `data:` URL.
   */
  function ExtractImages(ns: seq<Node>): (r: seq<Image>)
    ensures forall img | img in r :: KeepImage(img) && exists m | m in Elements(ns) :: m.info.tag == "img" && ImageOf(m) == img
    ensures forall m | m in Elements(ns) && m.info.tag == "img" && KeepImage(ImageOf(m)) :: ImageOf(m) in r
  {
    ImagesOf(QueryAll(ns, Tag("img")))
  }

  /** The images keep document order: those of an earlier part of the page come first. */
  lemma ExtractImagesConcat(a: seq<Node>, b: seq<Node>)
    ensures ExtractImages(a + b) == ExtractImages(a) + ExtractImages(b)
  {
    QueryAllConcat(a, b, Tag("img"));
    ImagesOfConcat(QueryAll(a, Tag("img")), QueryAll(b, Tag("img")));
  }

  /** `a[href]`. */
  const Anchor: Selector := Both(Tag("a"), HasAttr("href"))

  function LinkOf(m: Node): Link
    requires m.Element?
  {
    Link(AttrOrEmpty(m, "href"), Trim(TextOf(m)), AttrOrEmpty(m, "title"))
  }

  /** The links kept: a non-empty `href` and non-empty trimmed text. */
  predicate KeepLink(l: Link)
  {
    l.href != "" && l.text != ""
  }

  function LinksOf(es: seq<Node>): (r: seq<Link>)
    requires forall m | m in es :: m.Element?
    ensures forall l | l in r :: KeepLink(l) && exists m | m in es :: LinkOf(m) == l
    ensures forall m | m in es && KeepLink(LinkOf(m)) :: LinkOf(m) in r
  {
    if es == [] then []
    else
      var l := LinkOf(es[0]);
      (if KeepLink(l) then [l] else []) + LinksOf(es[1..])
  }

  lemma {:induction false} LinksOfConcat(a: seq<Node>, b: seq<Node>)
    requires forall m | m in a + b :: m.Element?
    ensures LinksOf(a + b) == LinksOf(a) + LinksOf(b)
  {
    if a == [] {
      assert a + b == b;
    } else {
      var head := if KeepLink(LinkOf(a[0])) then [LinkOf(a[0])] else [];
      assert (a + b)[0] == a[0];
      assert (a + b)[1..] == a[1..] + b;
      assert LinksOf(a + b) == head + LinksOf(a[1..] + b);
      assert LinksOf(a) == head + LinksOf(a[1..]);
      LinksOfConcat(a[1..], b);
      ConcatAssoc(head, LinksOf(a[1..]), LinksOf(b));
    }
  }

  /** `extractLinks`: every `<a href>` of the whole page whose `href` and trimmed text are both non-empty. */
  function ExtractLinks(ns: seq<Node>): (r: seq<Link>)
    ensures forall l | l in r :: KeepLink(l) && exists m | m in Elements(ns) :: Matches(m.info, Anchor) && LinkOf(m) == l
    ensures forall m | m in Elements(ns) && Matches(m.info, Anchor) && KeepLink(LinkOf(m)) :: LinkOf(m) in r
  {
    LinksOf(QueryAll(ns, Anchor))
  }

  lemma ExtractLinksConcat(a: seq<Node>, b: seq<Node>)
    ensures ExtractLinks(a + b) == ExtractLinks(a) + ExtractLinks(b)
  {
    QueryAllConcat(a, b, Anchor);
    LinksOfConcat(QueryAll(a, Anchor), QueryAll(b, Anchor));
  }

  // ---------------------------------------------------------------------
  // The processed record
  // ---------------------------------------------------------------------

  /**
   * The record `processContent` builds: the metadata keys, overridden by
   * the content's keys, then the cleaned text and the computed fields.
   * `siteName` is a metadata string unless Method 1 supplied one, which
   * may be null.
   */
  datatype Extraction = Extraction(
    title: string,
    url: string,
    description: string,
    author: string,
    publishedDate: string,
    modifiedDate: string,
    siteName: JsStr,
    language: string,
    keywords: string,
    canonicalUrl: string,
    content: seq<Node>,
    textContent: string,
    excerpt: string,
    byline: Option<JsStr>,
    length: Option<nat>,
    images: seq<Image>,
    links: seq<Link>,
    wordCount: nat,
    readingTime: nat,
    extractedAt: string)

  /**
   * The record `processContent` builds from a content object: the text is
   * cleaned, which keeps its words, and the word count and reading time
   * are those of the original text. `extractedAt` is the clock's reading.
   */
  function Processed(c: Content, md: Metadata, doc: Document, extractedAt: string): (e: Extraction)
    ensures R.IsNormalized(e.textContent) && '\n' !in e.textContent
    ensures Words(e.textContent) == Words(c.textContent)
    ensures e.wordCount == |Words(c.textContent)|
    ensures e.wordCount <= 200 * e.readingTime && (e.readingTime == 0 || 200 * (e.readingTime - 1) < e.wordCount)
  {
    var cleanText := CleanText(c.textContent);
    CleanTextShape(c.textContent);
    CleanTextKeepsWords(c.textContent);
    CountWordsIsWords(c.textContent);
    Extraction(
      c.title, md.url, md.description, md.author, md.publishedDate, md.modifiedDate,
      if c.siteName.Some? then c.siteName.value else Str(md.siteName),
      md.language, md.keywords, md.canonicalUrl,
      c.content, cleanText, c.excerpt, c.byline, c.length,
      ExtractImages(doc.nodes), ExtractLinks(doc.nodes),
      CountWords(cleanText), ReadingTime(cleanText), extractedAt)
  }

  /**
   * The spread `{ ...metadata, ...content }`: every key of the content
   * object wins over the metadata key of the same name, the optional keys
   * only when they are present, and the metadata keys the content lacks
   * are kept. Images and links come from the whole page.
   */
  lemma ProcessedKeys(c: Content, md: Metadata, doc: Document, extractedAt: string)
    ensures var e := Processed(c, md, doc, extractedAt);
      && e.title == c.title && e.content == c.content && e.excerpt == c.excerpt
      && e.byline == c.byline && e.length == c.length
      && (c.siteName.Some? ==> e.siteName == c.siteName.value)
      && (c.siteName.None? ==> e.siteName == Str(md.siteName))
      && e.url == md.url && e.description == md.description && e.author == md.author
      && e.publishedDate == md.publishedDate && e.modifiedDate == md.modifiedDate
      && e.language == md.language && e.keywords == md.keywords && e.canonicalUrl == md.canonicalUrl
      && e.images == ExtractImages(doc.nodes) && e.links == ExtractLinks(doc.nodes)
      && e.extractedAt == extractedAt
  {
  }

  /** `processContent`: throws on a null content, and otherwise builds the record. */
  function ProcessContent(content: Option<Content>, md: Metadata, doc: Document, extractedAt: string): (r: Result<Extraction>)
    ensures r.Failure? <==> content.None?
    ensures r.Failure? ==> r.error == NoContent
    ensures r.Success? ==> r.value == Processed(content.value, md, doc, extractedAt)
  {
    match content
    case None => Failure(NoContent)
    case Some(c) => Success(Processed(c, md, doc, extractedAt))
  }

  const NoContent: string := "No content extracted"

  // ---------------------------------------------------------------------
  // The fallback chain
  // ---------------------------------------------------------------------

  const FailurePrefix: string := "Failed to extract content: "

  /** The content the chain settles on: Method 1 if it is loaded and usable, else Method 2 if usable, else Method 3. */
  function ChosenContent(doc: Document, readabilityLoaded: bool): Result<Content>
  {
    var first := if readabilityLoaded then ReadabilityContent(doc) else None;
    if Usable(first) then Success(first.value)
    else
      var second := HeuristicContent(doc);
      if Usable(second) then Success(second.value) else ExtractAllText(doc)
  }

  /** What `extractContent` resolves to, or the message it rejects with. */
  function Extracted(doc: Document, readabilityLoaded: bool, now: string): Result<Extraction>
  {
    match ExtractMetadata(doc)
    case Failure(e) => Failure(FailurePrefix + e)
    case Success(md) =>
      match ChosenContent(doc, readabilityLoaded)
      case Failure(e) => Failure(FailurePrefix + e)
      case Success(c) =>
        var p := ProcessContent(Some(c), md, doc, now);
        if p.Success? then p else Failure(FailurePrefix + p.error)
  }

  /**
   * Extraction fails only when the page has no root element, or when
   * neither Method 1 nor Method 2 gives usable content and the page has no
   * body; a page with a body always yields a record, even with no text.
   */
  lemma ExtractionFails(doc: Document, readabilityLoaded: bool, now: string)
    ensures Extracted(doc, readabilityLoaded, now).Failure? <==>
      || DocumentElement(doc).None?
      || (&& !(readabilityLoaded && Usable(ReadabilityContent(doc)))
          && !Usable(HeuristicContent(doc))
          && Body(doc).None?)
    ensures Extracted(doc, readabilityLoaded, now).Failure? ==>
      Extracted(doc, readabilityLoaded, now).error ==
        FailurePrefix + (if DocumentElement(doc).None? then NoDocumentElement else NoBody)
    ensures Body(doc).Some? ==> Extracted(doc, readabilityLoaded, now).Success?
  {
    var r := Extracted(doc, readabilityLoaded, now);
    var md := ExtractMetadata(doc);
    if md.Success? {
      var ch := ChosenContent(doc, readabilityLoaded);
      if ch.Failure? {
        assert ch == ExtractAllText(doc);
        assert r == Failure(FailurePrefix + NoBody);
      } else {
        assert r == ProcessContent(Some(ch.value), md.value, doc, now);
      }
    }
  }

  /**
   * The methods run strictly in order. Method 1's content is used whenever
   * Readability is loaded and yields text.
   */
  lemma ExtractionUsesReadability(doc: Document, readabilityLoaded: bool, now: string)
    requires DocumentElement(doc).Some?
    requires readabilityLoaded && Usable(ReadabilityContent(doc))
    ensures Extracted(doc, readabilityLoaded, now).Success?
    ensures Extracted(doc, readabilityLoaded, now) == Success(Processed(ReadabilityContent(doc).value, ExtractMetadata(doc).value, doc, now))
    ensures var e, c := Extracted(doc, readabilityLoaded, now).value, ReadabilityContent(doc).value;
      && e.title == c.title && e.content == c.content && e.length == c.length && e.byline == c.byline
      && e.siteName == R.ParseResult(doc, 500).value.siteName
  {
    var md := ExtractMetadata(doc).value;
    var c := ReadabilityContent(doc).value;
    assert ChosenContent(doc, readabilityLoaded) == Success(c);
    assert Extracted(doc, readabilityLoaded, now) == Success(Processed(c, md, doc, now));
    ProcessedKeys(c, md, doc, now);
  }

  /** Method 2's content is used only when Method 1 is not loaded or yields no text, and whenever Method 2 yields text. */
  lemma ExtractionUsesHeuristics(doc: Document, readabilityLoaded: bool, now: string)
    requires DocumentElement(doc).Some?
    requires !(readabilityLoaded && Usable(ReadabilityContent(doc))) && Usable(HeuristicContent(doc))
    ensures Extracted(doc, readabilityLoaded, now).Success?
    ensures Extracted(doc, readabilityLoaded, now) == Success(Processed(HeuristicContent(doc).value, ExtractMetadata(doc).value, doc, now))
    ensures var e := Extracted(doc, readabilityLoaded, now).value;
      && e.title == PageTitle(doc) && e.content == HeuristicMain(doc.nodes).value.children && e.length.None?
      && e.siteName == Str(ExtractMetadata(doc).value.siteName)
  {
    var md := ExtractMetadata(doc).value;
    var c := HeuristicContent(doc).value;
    assert ChosenContent(doc, readabilityLoaded) == Success(c);
    assert Extracted(doc, readabilityLoaded, now) == Success(Processed(c, md, doc, now));
    ProcessedKeys(c, md, doc, now);
  }

  /** The body is used only when neither Method 1 nor Method 2 yields text. */
  lemma ExtractionUsesBody(doc: Document, readabilityLoaded: bool, now: string)
    requires DocumentElement(doc).Some? && Body(doc).Some?
    requires !(readabilityLoaded && Usable(ReadabilityContent(doc))) && !Usable(HeuristicContent(doc))
    ensures Extracted(doc, readabilityLoaded, now).Success?
    ensures Extracted(doc, readabilityLoaded, now) == Success(Processed(ExtractAllText(doc).value, ExtractMetadata(doc).value, doc, now))
    ensures var e := Extracted(doc, readabilityLoaded, now).value;
      && e.title == doc.title && e.content == Body(doc).value.children && e.length.None?
      && e.siteName == Str(ExtractMetadata(doc).value.siteName)
  {
    var md := ExtractMetadata(doc).value;
    var c := ExtractAllText(doc).value;
    assert ChosenContent(doc, readabilityLoaded) == Success(c);
    assert Extracted(doc, readabilityLoaded, now) == Success(Processed(c, md, doc, now));
    ProcessedKeys(c, md, doc, now);
  }

  /**
   * A successful extraction's text is normalised, its word count is the
   * number of words of the text the chosen method found, and its reading
   * time is that count divided by 200, rounded up.
   */
  lemma ExtractionText(doc: Document, readabilityLoaded: bool, now: string)
    requires Extracted(doc, readabilityLoaded, now).Success?
    ensures var e := Extracted(doc, readabilityLoaded, now).value;
      var c := ChosenContent(doc, readabilityLoaded).value;
      && R.IsNormalized(e.textContent) && '\n' !in e.textContent
      && e.wordCount == |Words(c.textContent)|
      && e.readingTime == MinutesFor(e.wordCount)
  {
    var c := ChosenContent(doc, readabilityLoaded).value;
    CleanTextKeepsWords(c.textContent);
    CountWordsIsWords(c.textContent);
  }

  /** A page whose only content is an empty body yields a record with no text, no words and no reading time. */
  lemma EmptyBodyIsNotAnError(doc: Document, readabilityLoaded: bool, now: string)
    requires Body(doc).Some? && TextOf(Body(doc).value) == ""
    requires !(readabilityLoaded && Usable(ReadabilityContent(doc))) && !Usable(HeuristicContent(doc))
    ensures Extracted(doc, readabilityLoaded, now).Success?
    ensures Extracted(doc, readabilityLoaded, now).value.textContent == ""
    ensures Extracted(doc, readabilityLoaded, now).value.wordCount == 0
    ensures Extracted(doc, readabilityLoaded, now).value.readingTime == 0
  {
    ExtractionFails(doc, readabilityLoaded, now);
    ExtractionText(doc, readabilityLoaded, now);
    assert Words("") == [];
  }

  // ---------------------------------------------------------------------
  // The extraction log
  // ---------------------------------------------------------------------

  datatype ExtractionLog = ExtractionLog(
    timestamp: string,
    url: string,
    title: string,
    wordCount: nat,
    hasImages: bool,
    hasLinks: bool,
    extractionMethod: string)

  /** The entry `logExtraction` records; no method sets `extractionMethod`, so it is always 'heuristic'. */
  function LogEntry(url: string, e: Extraction, timestamp: string): (r: ExtractionLog)
    ensures r.extractionMethod == "heuristic"
    ensures r.hasImages <==> e.images != []
    ensures r.hasLinks <==> e.links != []
  {
    ExtractionLog(timestamp, url, e.title, e.wordCount, |e.images| > 0, |e.links| > 0, "heuristic")
  }

  const MaxExtractionLogs: nat := 50

  /**
   * The `push` and `splice` of `logExtraction`: the new entry is last, at
   * most 50 entries remain, and the ones that remain are the newest, in
   * their order.
   */
  method AppendExtractionLog(logs: seq<ExtractionLog>, entry: ExtractionLog) returns (kept: seq<ExtractionLog>)
    ensures |kept| == Min(|logs| + 1, MaxExtractionLogs)
    ensures kept[|kept| - 1] == entry
    ensures kept == KeepLast(logs + [entry], MaxExtractionLogs)
  {
    kept := logs + [entry];
    if |kept| > MaxExtractionLogs {
      kept := kept[|kept| - MaxExtractionLogs..];
    }
  }

  /**
   * `extractContent`: metadata, the fallback chain, the processed record
   * and the log entry, all with the page as it is. `readabilityLoaded`
   * says whether `window.Readability` exists, `now` is the clock's reading
   * for `extractedAt`, `logTime` its later reading for the log's timestamp,
   * and `stored` is the extraction log as the browser's storage holds it.
   */
  method ExtractContent(doc: Document, readabilityLoaded: bool, now: string, logTime: string, stored: seq<ExtractionLog>)
    returns (r: Result<Extraction>, logs: seq<ExtractionLog>)
    requires KeysUnique(doc.nodes)
    ensures r == Extracted(doc, readabilityLoaded, now)
    ensures r.Failure? ==> logs == stored
    ensures r.Success? ==> logs == KeepLast(stored + [LogEntry(doc.url, r.value, logTime)], MaxExtractionLogs)
  {
    logs := stored;
    var metadata := ExtractMetadata(doc);
    if metadata.Failure? {
      return Failure(FailurePrefix + metadata.error), logs;
    }
    var content: Option<Content> := None;
    if readabilityLoaded {
      content := ExtractWithReadability(doc);
    }
    if !Usable(content) {
      content := ExtractWithHeuristics(doc);
    }
    if !Usable(content) {
      var all := ExtractAllText(doc);
      if all.Failure? {
        return Failure(FailurePrefix + all.error), logs;
      }
      content := Some(all.value);
    }
    assert ChosenContent(doc, readabilityLoaded) == Success(content.value);
    var processed := ProcessContent(content, metadata.value, doc, now);
    if processed.Failure? {
      // `content` is set by now, so `processContent` does not throw.
      assert false;
    }
    var entry := LogEntry(metadata.value.url, processed.value, logTime);
    assert entry == LogEntry(doc.url, processed.value, logTime);
    logs := AppendExtractionLog(logs, entry);
    r := processed;
  }
}
