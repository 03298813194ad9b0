/**
 * The simplified Readability extractor: it strips a block-list of elements
 * from a (cloned) document, picks the main content element by four
 * strategies in turn, prunes empty blocks and normalises the whitespace of
 * its text, and returns an article record.
 */
module SimpleReadability {
  import opened Util
  import opened Strings
  import opened Dom
  import opened Page

  // ---------------------------------------------------------------------
  // Options
  // ---------------------------------------------------------------------

  datatype Options = Options(
    debug: bool,
    maxElemsToParse: int,
    nbTopCandidates: int,
    charThreshold: int,
    classesToPreserve: seq<string>)

  /** The caller's options object: each field is either given or absent. */
  datatype Overrides = Overrides(
    debug: Option<bool>,
    maxElemsToParse: Option<int>,
    nbTopCandidates: Option<int>,
    charThreshold: Option<int>,
    classesToPreserve: Option<seq<string>>)

  /**
   * `{ ...defaults, ...options }`: every option the caller gives wins, every
   * other one keeps its default (no debug, 0, 5, a threshold of 500
   * characters, and the three preserved classes).
   */
  function MergeOptions(o: Overrides): (r: Options)
    ensures r.charThreshold == if o.charThreshold.Some? then o.charThreshold.value else 500
    ensures r.debug == (o.debug.Some? && o.debug.value)
    ensures r.maxElemsToParse == if o.maxElemsToParse.Some? then o.maxElemsToParse.value else 0
    ensures r.nbTopCandidates == if o.nbTopCandidates.Some? then o.nbTopCandidates.value else 5
    ensures r.classesToPreserve == if o.classesToPreserve.Some? then o.classesToPreserve.value else ["caption", "emoji", "hidden"]
  {
    Options(
      o.debug.GetOr(false),
      o.maxElemsToParse.GetOr(0),
      o.nbTopCandidates.GetOr(5),
      o.charThreshold.GetOr(500),
      o.classesToPreserve.GetOr(["caption", "emoji", "hidden"]))
  }

  // ---------------------------------------------------------------------
  // Fixed lists
  // ---------------------------------------------------------------------

  /** The 19 selectors `removeUnwantedElements` deletes. */
  const Unwanted: seq<Selector> := [
    Tag("script"), Tag("style"), Tag("nav"), Tag("header"), Tag("footer"),
    Class("advertisement"), Class("ad"), Class("sidebar"), Class("navigation"), Class("menu"),
    Class("social"), Class("share"), Class("comments"), Class("comment"), Class("related"),
    Class("recommended"), Class("popup"), Class("modal"), Class("overlay")]

  /** The 14 words `isUnwantedElement` looks for in the class list and the id. */
  const BlockedWords: seq<string> := [
    "advertisement", "ad", "sidebar", "navigation", "menu",
    "social", "share", "comments", "comment", "related",
    "recommended", "popup", "modal", "overlay"]

  const ContentClasses: seq<Selector> := [
    Class("content"), Class("post-content"), Class("entry-content"), Class("article-content"),
    Class("main-content"), Class("post"), Class("article")]

  /** `div, section, article, main`: the elements the heuristic strategy compares. */
  const BlockTags: Selector := AnyOf([Tag("div"), Tag("section"), Tag("article"), Tag("main")])

  const TitleSelectors: seq<Selector> := [Tag("h1"), Class("title"), Class("post-title"), Class("article-title")]

  /** What `cleanContent` prunes: a `p`, `div` or `span` with blank text and no `img` or `br` inside. */
  const EmptyBlock: Drop := Blank(AnyOf([Tag("p"), Tag("div"), Tag("span")]), AnyOf([Tag("img"), Tag("br")]))

  // ---------------------------------------------------------------------
  // Removing unwanted elements
  // ---------------------------------------------------------------------

  /** The forest after removing, for each selector in turn, every element that matches it. */
  function StripAll(ns: seq<Node>, sels: seq<Selector>): seq<Node>
    decreases |sels|
  {
    if sels == [] then ns
    else FilterTree(StripAll(ns, sels[..|sels| - 1]), Selected(sels[|sels| - 1]))
  }

  /** Stripping keeps key uniqueness and invents no element. */
  lemma {:induction false} StripAllKeeps(ns: seq<Node>, sels: seq<Selector>)
    ensures KeysUnique(ns) ==> KeysUnique(StripAll(ns, sels))
    ensures InfoSet(StripAll(ns, sels)) <= InfoSet(ns)
    decreases |sels|
  {
    if sels != [] {
      var prev := StripAll(ns, sels[..|sels| - 1]);
      StripAllKeeps(ns, sels[..|sels| - 1]);
      FilterTreeInfos(prev, Selected(sels[|sels| - 1]));
      if KeysUnique(ns) {
        FilterTreeKeysUnique(prev, Selected(sels[|sels| - 1]));
      }
    }
  }

  /** After stripping, no element left matches any of the selectors. */
  lemma {:induction false} StripAllClean(ns: seq<Node>, sels: seq<Selector>)
    ensures forall i, k | i in InfoSet(StripAll(ns, sels)) && 0 <= k < |sels| :: !Matches(i, sels[k])
    decreases |sels|
  {
    if sels != [] {
      var init := sels[..|sels| - 1];
      var last := sels[|sels| - 1];
      var prev := StripAll(ns, init);
      StripAllClean(ns, init);
      FilterTreeInfos(prev, Selected(last));
      forall i, k | i in InfoSet(StripAll(ns, sels)) && 0 <= k < |sels|
        ensures !Matches(i, sels[k])
      {
        var m :| m in Elements(FilterTree(prev, Selected(last))) && m.info == i;
        var o :| o in Elements(prev) && o.info == m.info && !Drops(Selected(last), o);
        if k < |sels| - 1 {
          assert sels[k] == init[k];
          assert o.info in InfoSet(prev);
        }
      }
    }
  }

  /** Stripping a forest that holds no matching element changes nothing. */
  lemma {:induction false} StripAllNothing(ns: seq<Node>, sels: seq<Selector>)
    requires forall i, k | i in InfoSet(ns) && 0 <= k < |sels| :: !Matches(i, sels[k])
    ensures StripAll(ns, sels) == ns
    decreases |sels|
  {
    if sels != [] {
      var init := sels[..|sels| - 1];
      forall i, k | i in InfoSet(ns) && 0 <= k < |init| ensures !Matches(i, init[k]) {
        assert init[k] == sels[k];
      }
      StripAllNothing(ns, init);
      forall m | m in Elements(ns) ensures !Drops(Selected(sels[|sels| - 1]), m) {
        assert m.info in InfoSet(ns);
      }
      FilterTreeNothing(ns, Selected(sels[|sels| - 1]));
    }
  }

  /** Removing the unwanted elements a second time removes nothing. */
  lemma StripAllIdempotent(ns: seq<Node>, sels: seq<Selector>)
    ensures StripAll(StripAll(ns, sels), sels) == StripAll(ns, sels)
  {
    StripAllClean(ns, sels);
    StripAllNothing(StripAll(ns, sels), sels);
  }

  // ---------------------------------------------------------------------
  // Content validity
  // ---------------------------------------------------------------------

  /** Some blocked word is one of the element's classes or occurs anywhere in its id. */
  predicate IsUnwantedElement(i: Info)
  {
    exists k :: 0 <= k < |BlockedWords| && (BlockedWords[k] in i.classes || Contains(i.id, BlockedWords[k]))
  }

  /**
   * The id test is a substring test: an element whose id is `header` is
   * rejected because `header` contains `ad`.
   */
  lemma HeaderIdIsUnwanted(i: Info)
    requires i.id == "header"
    ensures IsUnwantedElement(i)
  {
    assert StartsWith(i.id[2..], "ad");
    assert Contains(i.id[1..], "ad") by { assert i.id[1..][1..] == i.id[2..]; }
    assert Contains(i.id, "ad");
    assert BlockedWords[1] == "ad";
  }

  /** `isValidContent`, for the threshold `t` the options give. */
  predicate IsValidContent(n: Node, t: int)
    requires n.Element?
  {
    && |Trim(TextOf(n))| > t
    && QueryFirst(n.children, Tag("script")).None?
    && QueryFirst(n.children, Tag("style")).None?
    && !IsUnwantedElement(n.info)
  }

  /** An element is valid content exactly when its four conditions hold. */
  lemma ValidContentIff(n: Node, t: int)
    requires n.Element?
    ensures IsValidContent(n, t) <==>
      && |Trim(TextOf(n))| > t
      && (forall d | d in Elements(n.children) :: d.info.tag != "script" && d.info.tag != "style")
      && (forall w | w in BlockedWords :: w !in n.info.classes)
      && (forall w | w in BlockedWords :: !Contains(n.info.id, w))
  {
    if !IsUnwantedElement(n.info) {
      forall w | w in BlockedWords ensures w !in n.info.classes && !Contains(n.info.id, w) {
        var k :| 0 <= k < |BlockedWords| && BlockedWords[k] == w;
      }
    } else {
      var k :| 0 <= k < |BlockedWords| && (BlockedWords[k] in n.info.classes || Contains(n.info.id, BlockedWords[k]));
      assert BlockedWords[k] in BlockedWords;
    }
  }

  predicate Accepted(c: Option<Node>, t: int)
  {
    c.Some? && c.value.Element? && IsValidContent(c.value, t)
  }

  // ---------------------------------------------------------------------
  // The four strategies
  // ---------------------------------------------------------------------

  function ByArticleTag(ns: seq<Node>): Option<Node>
  {
    QueryFirst(ns, Tag("article"))
  }

  /** By tag name only: an element with `role="main"` is not found here. */
  function ByMainTag(ns: seq<Node>): Option<Node>
  {
    QueryFirst(ns, Tag("main"))
  }

  /** The first match of the first selector in `sels` that has a match. */
  function FirstMatch(ns: seq<Node>, sels: seq<Selector>): (r: Option<Node>)
    ensures r.Some? ==> r.value in Elements(ns) && r.value.Element?
    decreases |sels|
  {
    if sels == [] then None
    else if QueryFirst(ns, sels[0]).Some? then QueryFirst(ns, sels[0])
    else FirstMatch(ns, sels[1..])
  }

  /** Nothing is found exactly when no selector has a match. */
  lemma {:induction false} FirstMatchNone(ns: seq<Node>, sels: seq<Selector>)
    ensures FirstMatch(ns, sels).None? <==> forall k :: 0 <= k < |sels| ==> QueryFirst(ns, sels[k]).None?
    decreases |sels|
  {
    if sels != [] && QueryFirst(ns, sels[0]).None? {
      var rest := sels[1..];
      FirstMatchNone(ns, rest);
      assert forall k :: 1 <= k < |sels| ==> sels[k] == rest[k - 1];
    }
  }

  /** The first match of the first selector that has any: no later selector is consulted. */
  lemma {:induction false} FirstMatchAt(ns: seq<Node>, sels: seq<Selector>, k: nat)
    requires k < |sels| && QueryFirst(ns, sels[k]).Some?
    requires forall j :: 0 <= j < k ==> QueryFirst(ns, sels[j]).None?
    ensures FirstMatch(ns, sels) == QueryFirst(ns, sels[k])
    decreases k
  {
    if k > 0 {
      assert QueryFirst(ns, sels[0]).None?;
      var rest := sels[1..];
      assert rest[k - 1] == sels[k];
      assert forall j :: 0 <= j < k - 1 ==> rest[j] == sels[j + 1];
      FirstMatchAt(ns, rest, k - 1);
    }
  }

  /**
   * The first element of the first content class, in list order, that has
   * any match; its validity is not checked here, so a later class is never
   * tried once an earlier one has matched.
   */
  function ByContentClass(ns: seq<Node>): (r: Option<Node>)
    ensures r.Some? ==> r.value in Elements(ns) && r.value.Element?
  {
    FirstMatch(ns, ContentClasses)
  }

  predicate ValidBlock(m: Node, t: int)
  {
    m.Element? && Matches(m.info, BlockTags) && IsValidContent(m, t)
  }

  /** The valid `div`/`section`/`article`/`main` elements, in document order. */
  function HeuristicCandidates(ns: seq<Node>, t: int): (r: seq<Node>)
    ensures forall m | m in r :: m in Elements(ns) && ValidBlock(m, t)
    ensures forall m | m in Elements(ns) && ValidBlock(m, t) :: m in r
  {
    FilterMembers(QueryAll(ns, BlockTags), (m: Node) => m.Element? && IsValidContent(m, t));
    Filter(QueryAll(ns, BlockTags), (m: Node) => m.Element? && IsValidContent(m, t))
  }

  /** The valid block with the longest untrimmed text, the earliest of equals; none when no block is valid. */
  function ByHeuristics(ns: seq<Node>, t: int): (r: Option<Node>)
    ensures r.None? <==> forall m | m in Elements(ns) :: !ValidBlock(m, t)
    ensures r.Some? ==> r.value in Elements(ns) && ValidBlock(r.value, t)
    ensures r.Some? ==> forall m | m in Elements(ns) && ValidBlock(m, t) :: |TextOf(m)| <= |TextOf(r.value)|
  {
    Longest(HeuristicCandidates(ns, t))
  }

  /** Among equally long valid blocks the heuristic strategy takes the first in document order. */
  lemma ByHeuristicsEarliest(ns: seq<Node>, t: int)
    requires ByHeuristics(ns, t).Some?
    ensures var cs := HeuristicCandidates(ns, t);
      exists k :: 0 <= k < |cs| && cs[k] == ByHeuristics(ns, t).value
        && forall j :: 0 <= j < k ==> |TextOf(cs[j])| < |TextOf(cs[k])|
  {
    var cs := HeuristicCandidates(ns, t);
    var k := FirstLongest(cs);
    assert cs[k] == ByHeuristics(ns, t).value;
  }

  /** The first candidate, in order, that is valid content. */
  function FirstValid(cands: seq<Option<Node>>, t: int): (r: Option<Node>)
    ensures r.Some? ==> Accepted(r, t) && r in cands
    decreases |cands|
  {
    if cands == [] then None
    else if Accepted(cands[0], t) then cands[0]
    else FirstValid(cands[1..], t)
  }

  lemma {:induction false} FirstValidIsFirst(cands: seq<Option<Node>>, t: int)
    ensures FirstValid(cands, t).None? <==> forall k :: 0 <= k < |cands| ==> !Accepted(cands[k], t)
    ensures FirstValid(cands, t).Some? ==>
      exists k :: && 0 <= k < |cands| && cands[k] == FirstValid(cands, t)
                  && forall j :: 0 <= j < k ==> !Accepted(cands[j], t)
    decreases |cands|
  {
    if cands == [] {
    } else if Accepted(cands[0], t) {
      assert FirstValid(cands, t) == cands[0];
    } else {
      var rest := cands[1..];
      FirstValidIsFirst(rest, t);
      assert FirstValid(cands, t) == FirstValid(rest, t);
      assert forall k :: 1 <= k < |cands| ==> cands[k] == rest[k - 1];
      if FirstValid(cands, t).Some? {
        var k :| && 0 <= k < |rest| && rest[k] == FirstValid(cands, t)
                 && forall j :: 0 <= j < k ==> !Accepted(rest[j], t);
        assert cands[k + 1] == FirstValid(cands, t);
        assert forall j :: 0 <= j < k + 1 ==> !Accepted(cands[j], t);
      }
    }
  }

  /** `findMainContent`: the strategies in their order, each answer kept only if it is valid content. */
  function FindMainContent(ns: seq<Node>, t: int): (r: Option<Node>)
    ensures r.Some? ==> r.value in Elements(ns) && r.value.Element? && IsValidContent(r.value, t)
  {
    var a, m, c, h := ByArticleTag(ns), ByMainTag(ns), ByContentClass(ns), ByHeuristics(ns, t);
    FirstValidOfFour(a, m, c, h, t);
    FirstValid([a, m, c, h], t)
  }

  /** With four candidates, the first valid one in order. */
  lemma FirstValidOfFour(a: Option<Node>, m: Option<Node>, c: Option<Node>, h: Option<Node>, t: int)
    ensures Accepted(a, t) ==> FirstValid([a, m, c, h], t) == a
    ensures !Accepted(a, t) && Accepted(m, t) ==> FirstValid([a, m, c, h], t) == m
    ensures !Accepted(a, t) && !Accepted(m, t) && Accepted(c, t) ==> FirstValid([a, m, c, h], t) == c
    ensures !Accepted(a, t) && !Accepted(m, t) && !Accepted(c, t) && Accepted(h, t) ==> FirstValid([a, m, c, h], t) == h
    ensures FirstValid([a, m, c, h], t).None? <==> !Accepted(a, t) && !Accepted(m, t) && !Accepted(c, t) && !Accepted(h, t)
  {
    var cs := [a, m, c, h];
    assert cs[1..] == [m, c, h];
    assert [m, c, h][1..] == [c, h];
    assert [c, h][1..] == [h];
    assert [h][1..] == [];
    if !Accepted(a, t) {
      assert FirstValid(cs, t) == FirstValid([m, c, h], t);
      if !Accepted(m, t) {
        assert FirstValid([m, c, h], t) == FirstValid([c, h], t);
        if !Accepted(c, t) {
          assert FirstValid([c, h], t) == FirstValid([h], t);
          assert FirstValid([h], t) == if Accepted(h, t) then h else FirstValid([], t);
        }
      }
    }
  }

  /**
   * The strategies are tried strictly in order: a valid `article` wins,
   * then a valid `main`, then a valid first content-class match; otherwise
   * the answer is whatever the heuristic strategy finds (an invalid
   * content-class match sends control straight there).
   */
  lemma FindMainContentOrder(ns: seq<Node>, t: int)
    ensures Accepted(ByArticleTag(ns), t) ==> FindMainContent(ns, t) == ByArticleTag(ns)
    ensures !Accepted(ByArticleTag(ns), t) && Accepted(ByMainTag(ns), t) ==> FindMainContent(ns, t) == ByMainTag(ns)
    ensures !Accepted(ByArticleTag(ns), t) && !Accepted(ByMainTag(ns), t) && Accepted(ByContentClass(ns), t) ==>
      FindMainContent(ns, t) == ByContentClass(ns)
    ensures !Accepted(ByArticleTag(ns), t) && !Accepted(ByMainTag(ns), t) && !Accepted(ByContentClass(ns), t) ==>
      FindMainContent(ns, t) == ByHeuristics(ns, t)
  {
    var a, m, c, h := ByArticleTag(ns), ByMainTag(ns), ByContentClass(ns), ByHeuristics(ns, t);
    assert FindMainContent(ns, t) == FirstValid([a, m, c, h], t);
    FirstValidOfFour(a, m, c, h, t);
    assert h.Some? ==> Accepted(h, t);
  }

  /**
   * Nothing is found exactly when no `div`/`section`/`article`/`main` is
   * valid and the first content-class match (if any) is not valid either.
   */
  lemma FindMainContentNone(ns: seq<Node>, t: int)
    ensures FindMainContent(ns, t).None? <==>
      (forall m | m in Elements(ns) :: !ValidBlock(m, t)) && !Accepted(ByContentClass(ns), t)
  {
    var a, m, c, h := ByArticleTag(ns), ByMainTag(ns), ByContentClass(ns), ByHeuristics(ns, t);
    assert FindMainContent(ns, t) == FirstValid([a, m, c, h], t);
    FirstValidOfFour(a, m, c, h, t);
    assert h.Some? ==> Accepted(h, t);
    if Accepted(a, t) {
      BlockTagsInclude(a.value.info);
      assert ValidBlock(a.value, t);
    }
    if Accepted(m, t) {
      BlockTagsInclude(m.value.info);
      assert ValidBlock(m.value, t);
    }
  }

  /** An `article` or a `main` element is one of the blocks the heuristic strategy considers. */
  lemma BlockTagsInclude(i: Info)
    ensures Matches(i, Tag("article")) ==> Matches(i, BlockTags)
    ensures Matches(i, Tag("main")) ==> Matches(i, BlockTags)
  {
    assert BlockTags.alternatives[2] == Tag("article");
    assert BlockTags.alternatives[3] == Tag("main");
  }

  // ---------------------------------------------------------------------
  // Metadata
  // ---------------------------------------------------------------------

  datatype ArticleMetadata = ArticleMetadata(title: string, byline: JsStr, siteName: JsStr)

  /** `extractTitleFromContent`: the first non-empty trimmed heading text, or ''. */
  function TitleFromContent(ns: seq<Node>): (r: string)
    ensures r == "" <==> forall k :: 0 <= k < |TitleSelectors| ==> TitleAt(ns, TitleSelectors[k]) == ""
  {
    FirstTitleNone(ns, TitleSelectors);
    FirstTitle(ns, TitleSelectors).GetOr("")
  }

  /**
   * `extractMetadata`: the document title unless it is empty, then the
   * title found in the content; the `author` meta unless it is null or
   * empty, then `article:author`; the `og:site_name` meta unless it is null
   * or empty, then `application-name`.
   */
  function ExtractMetadata(title: string, ns: seq<Node>): (r: ArticleMetadata)
    ensures title != "" ==> r.title == title
    ensures title == "" ==> r.title == TitleFromContent(ns)
    ensures r.title == "" <==> title == "" && forall k :: 0 <= k < |TitleSelectors| ==> TitleAt(ns, TitleSelectors[k]) == ""
    ensures MetaContent(ns, "author").Str? && MetaContent(ns, "author").s != "" ==> r.byline == MetaContent(ns, "author")
    ensures (MetaContent(ns, "author").Null? || MetaContent(ns, "author").s == "") ==> r.byline == MetaContent(ns, "article:author")
    ensures MetaContent(ns, "og:site_name").Str? && MetaContent(ns, "og:site_name").s != "" ==> r.siteName == MetaContent(ns, "og:site_name")
    ensures (MetaContent(ns, "og:site_name").Null? || MetaContent(ns, "og:site_name").s == "") ==> r.siteName == MetaContent(ns, "application-name")
  {
    ArticleMetadata(
      if title != "" then title else TitleFromContent(ns),
      Or(MetaContent(ns, "author"), MetaContent(ns, "article:author")),
      Or(MetaContent(ns, "og:site_name"), MetaContent(ns, "application-name")))
  }

  // ---------------------------------------------------------------------
  // Cleaning the article
  // ---------------------------------------------------------------------

  /** Text as the whitespace rewrite leaves it: single spaces only, none at either end. */
  predicate IsNormalized(t: string)
  {
    SingleSpaced(t) && (t == [] || (!IsWs(t[0]) && !IsWs(t[|t| - 1])))
  }

  /** Every text node anywhere in the forest is normalised. */
  predicate TextsNormalized(ns: seq<Node>)
    decreases ns
  {
    ns == [] ||
    (&& TextsNormalized(ns[1..])
     && match ns[0]
        case Text(t) => IsNormalized(t)
        case Element(_, cs) => TextsNormalized(cs))
  }

  /** Every text node of the forest rewritten as `replace(/\s+/g, ' ').trim()`. */
  function NormalizeTexts(ns: seq<Node>): (r: seq<Node>)
    ensures |r| == |ns|
    decreases ns
  {
    if ns == [] then []
    else
      [match ns[0]
       case Text(t) => Text(NormalizeSpace(t))
       case Element(i, cs) => Element(i, NormalizeTexts(cs))] + NormalizeTexts(ns[1..])
  }

  lemma {:induction false} NormalizeTextsNormalized(ns: seq<Node>)
    ensures TextsNormalized(NormalizeTexts(ns))
    decreases ns
  {
    if ns != [] {
      var r := NormalizeTexts(ns);
      NormalizeTextsNormalized(ns[1..]);
      assert r[1..] == NormalizeTexts(ns[1..]);
      match ns[0]
      case Text(t) =>
      case Element(i, cs) =>
        NormalizeTextsNormalized(cs);
    }
  }

  /** The rewrite leaves the elements' descriptions as they are. */
  lemma {:induction false} NormalizeTextsInfos(ns: seq<Node>)
    ensures InfoSet(NormalizeTexts(ns)) == InfoSet(ns)
    decreases ns
  {
    if ns != [] {
      var r := NormalizeTexts(ns);
      var rest := NormalizeTexts(ns[1..]);
      NormalizeTextsInfos(ns[1..]);
      assert r == [r[0]] + rest;
      assert ns == [ns[0]] + ns[1..];
      ElementsCons(r[0], rest);
      ElementsCons(ns[0], ns[1..]);
      match ns[0]
      case Text(t) =>
        assert Elements(r) == Elements(rest);
        assert Elements(ns) == Elements(ns[1..]);
      case Element(i, cs) =>
        NormalizeTextsInfos(cs);
        assert Elements(r) == [r[0]] + Elements(NormalizeTexts(cs)) + Elements(rest);
        assert Elements(ns) == [ns[0]] + Elements(cs) + Elements(ns[1..]);
        InfoSetConcat3(r[0], NormalizeTexts(cs), rest);
        InfoSetConcat3(ns[0], cs, ns[1..]);
    }
  }

  lemma InfoSetConcat3(n: Node, a: seq<Node>, b: seq<Node>)
    requires n.Element?
    ensures (set m | m in [n] + Elements(a) + Elements(b) :: m.info) == {n.info} + InfoSet(a) + InfoSet(b)
  {
  }

  /** The article after `cleanContent`: empty blocks pruned, then every text node normalised. */
  function CleanedArticle(a: Node): (r: Node)
    requires a.Element?
    ensures r.Element? && r.info == a.info
  {
    Element(a.info, NormalizeTexts(FilterTree(a.children, EmptyBlock)))
  }

  predicate IsEmptyBlock(m: Node)
  {
    m.Element? && Drops(EmptyBlock, m)
  }

  // ---------------------------------------------------------------------
  // The result record
  // ---------------------------------------------------------------------

  /** The article record; `content` stands for `innerHTML` and is kept as the child nodes. */
  datatype Article = Article(
    title: string,
    content: seq<Node>,
    textContent: string,
    excerpt: string,
    byline: JsStr,
    length: nat,
    siteName: JsStr)

  /** The page after `removeUnwantedElements`. */
  function Stripped(doc: Document): Document
  {
    doc.(nodes := StripAll(doc.nodes, Unwanted))
  }

  /** What the rest of `parse` returns once the page has been stripped. */
  function ArticleOf(page: Document, t: int): Option<Article>
  {
    match FindMainContent(page.nodes, t)
    case None => None
    case Some(a) =>
      var md := ExtractMetadata(page.title, page.nodes);
      var cleaned := CleanedArticle(a);
      var text := TextContent(cleaned.children);
      Some(Article(md.title, cleaned.children, text, Excerpt(text), md.byline, |text|, md.siteName))
  }

  /** What `parse` returns for a document and a character threshold. */
  function ParseResult(doc: Document, t: int): Option<Article>
  {
    ArticleOf(Stripped(doc), t)
  }

  /** `parse` returns null exactly when no strategy yields valid content in the stripped document. */
  lemma ParseNone(doc: Document, t: int)
    ensures var ns := StripAll(doc.nodes, Unwanted);
      ParseResult(doc, t).None? <==>
        (forall m | m in Elements(ns) :: !ValidBlock(m, t)) && !Accepted(ByContentClass(ns), t)
  {
    FindMainContentNone(StripAll(doc.nodes, Unwanted), t);
  }

  /**
   * A parsed article: its length is that of its text, its text and excerpt
   * are those of the cleaned content, every text node in it is normalised,
   * no block-listed element survives in it, and its title, byline and site
   * name follow the fallback rules.
   */
  lemma ParseArticle(doc: Document, t: int)
    requires ParseResult(doc, t).Some?
    ensures var r := ParseResult(doc, t).value;
      && r.length == |r.textContent|
      && r.textContent == TextContent(r.content)
      && r.excerpt == Excerpt(r.textContent)
      && TextsNormalized(r.content)
      && (forall i, k | i in InfoSet(r.content) && 0 <= k < |Unwanted| :: !Matches(i, Unwanted[k]))
      && (doc.title != "" ==> r.title == doc.title)
      && (doc.title == "" ==> r.title == TitleFromContent(StripAll(doc.nodes, Unwanted)))
      && r.byline == Or(MetaContent(StripAll(doc.nodes, Unwanted), "author"), MetaContent(StripAll(doc.nodes, Unwanted), "article:author"))
      && r.siteName == Or(MetaContent(StripAll(doc.nodes, Unwanted), "og:site_name"), MetaContent(StripAll(doc.nodes, Unwanted), "application-name"))
  {
    var ns := StripAll(doc.nodes, Unwanted);
    var a := FindMainContent(ns, t).value;
    var kept := FilterTree(a.children, EmptyBlock);
    NormalizeTextsNormalized(kept);
    NormalizeTextsInfos(kept);
    FilterTreeInfos(a.children, EmptyBlock);
    SubtreeInfos(ns, a);
    StripAllClean(doc.nodes, Unwanted);
  }

  /**
   * The reader's page after `parse`: stripped of the block-listed elements
   * and, when an article was found, with that article cleaned in place
   * (`cleanContent` works on an element of the reader's own document).
   */
  function ParsedPage(doc: Document, t: int): Document
  {
    CleanedPage(Stripped(doc), t)
  }

  /** The stripped page once the article found in it, if any, has been cleaned in place. */
  function CleanedPage(page: Document, t: int): Document
  {
    match FindMainContent(page.nodes, t)
    case None => page
    case Some(a) => page.(nodes := ReplaceKeyed(page.nodes, a.info.key, CleanedArticle(a)))
  }

  /**
   * After `parse` the reader's page keeps its title and URL; it is just the
   * stripped page when nothing was found, and otherwise it holds the cleaned
   * article whose inner content the record returns.
   */
  lemma ParsedPageHoldsArticle(doc: Document, t: int)
    ensures ParsedPage(doc, t).title == doc.title && ParsedPage(doc, t).url == doc.url
    ensures ParseResult(doc, t).None? ==> ParsedPage(doc, t).nodes == StripAll(doc.nodes, Unwanted)
    ensures ParseResult(doc, t).Some? ==>
      exists m | m in Elements(ParsedPage(doc, t).nodes) :: m.Element? && m.children == ParseResult(doc, t).value.content
  {
    var ns := StripAll(doc.nodes, Unwanted);
    var found := FindMainContent(ns, t);
    if found.Some? {
      var a := found.value;
      var cleaned := CleanedArticle(a);
      ReplaceKeyedPlaces(ns, a, cleaned);
      assert cleaned in Elements(ParsedPage(doc, t).nodes);
    }
  }

  // ---------------------------------------------------------------------
  // The extractor object
  // ---------------------------------------------------------------------

  class Readability {
    var doc: Document
    var options: Options

    constructor(doc: Document, overrides: Overrides)
      ensures this.doc == doc && options == MergeOptions(overrides)
    {
      this.doc := doc;
      this.options := MergeOptions(overrides);
    }

    /** `el.remove()` for an element of this document (no effect once it is detached). */
    method Remove(el: Node)
      requires el.Element?
      modifies this
      ensures doc == old(doc).(nodes := FilterTree(old(doc.nodes), Keyed({el.info.key})))
      ensures options == old(options)
    {
      doc := doc.(nodes := FilterTree(doc.nodes, Keyed({el.info.key})));
    }

    /** `elements.forEach(el => el.remove())`. */
    method RemoveEach(elements: seq<Node>)
      requires forall e | e in elements :: e.Element?
      modifies this
      ensures doc == old(doc).(nodes := FilterTree(old(doc.nodes), Keyed(KeysOf(elements))))
      ensures options == old(options)
    {
      FilterTreeNothing(doc.nodes, Keyed({}));
      assert KeysOf(elements[..0]) == {} by { assert elements[..0] == []; }
      var j := 0;
      while j < |elements|
        invariant 0 <= j <= |elements|
        invariant doc == old(doc).(nodes := FilterTree(old(doc.nodes), Keyed(KeysOf(elements[..j]))))
        invariant options == old(options)
      {
        Remove(elements[j]);
        FilterKeyedTwice(old(doc.nodes), KeysOf(elements[..j]), {elements[j].info.key});
        assert elements[..j + 1] == elements[..j] + [elements[j]];
        KeysOfConcat(elements[..j], [elements[j]]);
        assert elements[j] in elements;
        assert KeysOf([elements[j]]) == {elements[j].info.key};
        j := j + 1;
      }
      assert elements[..j] == elements;
    }

    /** For each selector in order, removes every element that matches it. */
    method RemoveMatching(sels: seq<Selector>)
      requires KeysUnique(doc.nodes)
      modifies this
      ensures doc == old(doc).(nodes := StripAll(old(doc.nodes), sels))
      ensures options == old(options)
      ensures KeysUnique(doc.nodes)
    {
      var i := 0;
      while i < |sels|
        invariant 0 <= i <= |sels|
        invariant doc == old(doc).(nodes := StripAll(old(doc.nodes), sels[..i]))
        invariant options == old(options)
        invariant KeysUnique(doc.nodes)
      {
        var selector := sels[i];
        var elements := QueryAll(doc.nodes, selector);
        ghost var before := doc.nodes;
        RemoveEach(elements);
        RemoveQueried(before, selector);
        FilterTreeKeysUnique(before, Selected(selector));
        assert sels[..i + 1][..i] == sels[..i];
        i := i + 1;
      }
      assert sels[..i] == sels;
    }

    /** `removeUnwantedElements`: afterwards no element matches any block-list selector. */
    method RemoveUnwantedElements()
      requires KeysUnique(doc.nodes)
      modifies this
      ensures doc == old(doc).(nodes := StripAll(old(doc.nodes), Unwanted))
      ensures options == old(options)
      ensures KeysUnique(doc.nodes)
      ensures forall i, k | i in InfoSet(doc.nodes) && 0 <= k < |Unwanted| :: !Matches(i, Unwanted[k])
    {
      RemoveMatching(Unwanted);
      StripAllClean(old(doc.nodes), Unwanted);
    }

    /** `parse`: strip, find the main content, read the metadata, clean the article and build the record. */
    method Parse() returns (r: Option<Article>)
      requires KeysUnique(doc.nodes)
      modifies this
      ensures r == ParseResult(old(doc), old(options).charThreshold)
      ensures doc == ParsedPage(old(doc), old(options).charThreshold)
      ensures options == old(options)
    {
      RemoveUnwantedElements();
      var article := FindMainContent(doc.nodes, options.charThreshold);
      if article.None? {
        return None;
      }
      var metadata := ExtractMetadata(doc.title, doc.nodes);
      SubtreeKeysUnique(doc.nodes, article.value);
      var cleaned := CleanContent(article.value);
      var text := TextContent(cleaned.children);
      r := Some(Article(metadata.title, cleaned.children, text, Excerpt(text), metadata.byline, |text|, metadata.siteName));
    }

    /**
     * `cleanContent(article)`: the article is an element of this reader's
     * page, so cleaning it changes the page; the cleaned element is handed
     * back so that its `innerHTML` and `textContent` can be read.
     */
    method CleanContent(article: Node) returns (cleaned: Node)
      requires article.Element? && KeysUnique(article.children)
      modifies this
      ensures cleaned == CleanedArticle(article)
      ensures TextsNormalized(cleaned.children)
      ensures doc == old(doc).(nodes := ReplaceKeyed(old(doc.nodes), article.info.key, cleaned))
      ensures options == old(options)
    {
      cleaned := CleanSubtree(article);
      doc := doc.(nodes := ReplaceKeyed(doc.nodes, article.info.key, cleaned));
    }
  }

  /**
   * The first half of `cleanContent`: removes every empty `p`/`div`/`span`
   * below the article. The candidates are a snapshot taken in document
   * order; each is judged on its own subtree, which no earlier removal can
   * have changed (only earlier elements, its ancestors among them, have
   * been removed by then).
   */
  method RemoveEmptyBlocks(nodes: seq<Node>) returns (kept: seq<Node>)
    requires KeysUnique(nodes)
    ensures kept == FilterTree(nodes, EmptyBlock)
  {
    kept := nodes;
    var emptyElements := QueryAll(nodes, EmptyBlock.sel);
    ghost var gone: seq<Node> := [];
    RemoveNone(nodes);
    assert emptyElements[..0] == [];
    var i := 0;
    while i < |emptyElements|
      invariant 0 <= i <= |emptyElements|
      invariant kept == FilterTree(nodes, Keyed(KeysOf(gone)))
      invariant gone == Filter(emptyElements[..i], IsEmptyBlock)
    {
      var el := emptyElements[i];
      var blank := Trim(TextOf(el)) == "" && QueryFirst(el.children, EmptyBlock.keep).None?;
      EmptyCandidate(emptyElements, i, blank);
      if blank {
        RemoveOneMore(nodes, gone, el);
        kept := FilterTree(kept, Keyed({el.info.key}));
        gone := gone + [el];
      }
      i := i + 1;
    }
    assert emptyElements[..i] == emptyElements;
    EmptyBlocksMarked(nodes, gone);
    RemoveMarked(nodes, gone, EmptyBlock);
  }

  /** One step of the loop above: the snapshot's `i`-th element joins the removed ones exactly when it is blank. */
  lemma EmptyCandidate(es: seq<Node>, i: nat, blank: bool)
    requires i < |es| && es[i].Element? && Matches(es[i].info, EmptyBlock.sel)
    requires blank == (Trim(TextOf(es[i])) == "" && QueryFirst(es[i].children, EmptyBlock.keep).None?)
    ensures blank ==> Filter(es[..i + 1], IsEmptyBlock) == Filter(es[..i], IsEmptyBlock) + [es[i]]
    ensures !blank ==> Filter(es[..i + 1], IsEmptyBlock) == Filter(es[..i], IsEmptyBlock)
  {
    FilterSnoc(es, i, IsEmptyBlock);
    assert IsEmptyBlock(es[i]) == blank;
    assert Filter(es[..i], IsEmptyBlock) + [] == Filter(es[..i], IsEmptyBlock);
  }

  lemma EmptyBlocksMarked(nodes: seq<Node>, gone: seq<Node>)
    requires gone == Filter(QueryAll(nodes, EmptyBlock.sel), IsEmptyBlock)
    ensures forall h | h in gone :: h in Elements(nodes)
    ensures forall m | m in Elements(nodes) :: m in gone <==> Drops(EmptyBlock, m)
  {
    var q := QueryAll(nodes, EmptyBlock.sel);
    FilterMembers(q, IsEmptyBlock);
    forall m | m in Elements(nodes) ensures m in gone <==> Drops(EmptyBlock, m) {
      if Drops(EmptyBlock, m) {
        assert m in q;
        assert IsEmptyBlock(m);
      }
    }
  }

  /**
   * `cleanContent`: prunes the empty blocks below the article, then
   * rewrites the whitespace of every text node below it.
   */
  method CleanSubtree(element: Node) returns (cleaned: Node)
    requires element.Element? && KeysUnique(element.children)
    ensures cleaned == CleanedArticle(element)
    ensures TextsNormalized(cleaned.children)
  {
    var nodes := RemoveEmptyBlocks(element.children);
    NormalizeTextsNormalized(nodes);
    nodes := NormalizeTexts(nodes);
    cleaned := Element(element.info, nodes);
  }
}
