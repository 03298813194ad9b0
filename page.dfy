/**
 * Page queries that both extraction scripts perform the same way: reading
 * an attribute, the `<meta>` lookup, the first non-empty title among a
 * list of selectors, and the "longest text block" choice.
 */
module Page {
  import opened Util
  import opened Strings
  import opened Dom

  /** `el.getAttribute(a)`: the attribute's value, or null when it is absent. */
  function GetAttribute(n: Node, a: string): (r: JsStr)
    requires n.Element?
    ensures r.Null? <==> a !in n.info.attrs
    ensures r.Str? ==> r.s == n.info.attrs[a]
  {
    if a in n.info.attrs then Str(n.info.attrs[a]) else Null
  }

  /** A reflected string property (`img.alt`, `a.title`, `html.lang`): the attribute's value, or '' when it is absent. */
  function AttrOrEmpty(n: Node, a: string): (r: string)
    requires n.Element?
    ensures a in n.info.attrs ==> r == n.info.attrs[a]
    ensures a !in n.info.attrs ==> r == ""
  {
    if a in n.info.attrs then n.info.attrs[a] else ""
  }

  /** `meta[name="x"], meta[property="x"]`. */
  function MetaSelector(name: string): Selector
  {
    AnyOf([Both(Tag("meta"), AttrIs("name", name)), Both(Tag("meta"), AttrIs("property", name))])
  }

  /**
   * `getMetaContent(name)`: the `content` attribute of the first `<meta>`
   * whose `name` or `property` is `name`; null when there is no such
   * `<meta>` or it has no `content`.
   */
  function MetaContent(ns: seq<Node>, name: string): (r: JsStr)
    ensures (forall m | m in Elements(ns) :: !Matches(m.info, MetaSelector(name))) ==> r == Null
    ensures r.Str? ==> exists m | m in Elements(ns) ::
      && m.info.tag == "meta"
      && (("name" in m.info.attrs && m.info.attrs["name"] == name) || ("property" in m.info.attrs && m.info.attrs["property"] == name))
      && "content" in m.info.attrs && m.info.attrs["content"] == r.s
    ensures QueryFirst(ns, MetaSelector(name)).Some? ==> r == GetAttribute(QueryFirst(ns, MetaSelector(name)).value, "content")
  {
    var q := QueryFirst(ns, MetaSelector(name));
    if q.None? then Null
    else
      var m := q.value;
      MetaMatch(m.info, name);
      GetAttribute(m, "content")
  }

  /** What `meta[name="x"], meta[property="x"]` matches, written out. */
  lemma MetaMatch(i: Info, name: string)
    ensures Matches(i, MetaSelector(name)) <==>
      && i.tag == "meta"
      && (("name" in i.attrs && i.attrs["name"] == name) || ("property" in i.attrs && i.attrs["property"] == name))
  {
    var alts := MetaSelector(name).alternatives;
    assert |alts| == 2;
    assert alts[0] == Both(Tag("meta"), AttrIs("name", name));
    assert alts[1] == Both(Tag("meta"), AttrIs("property", name));
    assert Matches(i, alts[0]) <==> Matches(i, Tag("meta")) && Matches(i, AttrIs("name", name));
    assert Matches(i, alts[1]) <==> Matches(i, Tag("meta")) && Matches(i, AttrIs("property", name));
    if Matches(i, MetaSelector(name)) {
      var k :| 0 <= k < |alts| && Matches(i, alts[k]);
      assert k == 0 || k == 1;
    } else {
      assert !Matches(i, alts[0]) && !Matches(i, alts[1]);
    }
  }

  /**
   * The `<meta>` that `getMetaContent` reads is the first in document order
   * whose `name` or `property` is `name`: its `content` is the result.
   */
  lemma MetaContentAt(ns: seq<Node>, name: string, i: nat)
    requires i < |Elements(ns)| && Matches(Elements(ns)[i].info, MetaSelector(name))
    requires forall j :: 0 <= j < i ==> !Matches(Elements(ns)[j].info, MetaSelector(name))
    ensures MetaContent(ns, name) == GetAttribute(Elements(ns)[i], "content")
  {
    QueryFirstAt(ns, MetaSelector(name), i);
  }

  /** The trimmed text of the first element matching `s`, or '' when there is none. */
  function TitleAt(ns: seq<Node>, s: Selector): (r: string)
    ensures r != "" ==> !IsWs(r[0]) && !IsWs(r[|r| - 1])
  {
    match QueryFirst(ns, s)
    case None => ""
    case Some(e) => Trim(TextOf(e))
  }

  /**
   * The selector loop of `extractTitleFromContent` and `extractTitle`: for
   * each selector in order, the first match's trimmed text, returned as
   * soon as it is non-empty.
   */
  function FirstTitle(ns: seq<Node>, sels: seq<Selector>): Option<string>
    decreases |sels|
  {
    if sels == [] then None
    else if TitleAt(ns, sels[0]) != "" then Some(TitleAt(ns, sels[0]))
    else FirstTitle(ns, sels[1..])
  }

  /**
   * The loop finds nothing exactly when no selector has a match with
   * non-empty trimmed text, and what it finds is never empty.
   */
  lemma {:induction false} FirstTitleNone(ns: seq<Node>, sels: seq<Selector>)
    ensures FirstTitle(ns, sels).None? <==> forall k :: 0 <= k < |sels| ==> TitleAt(ns, sels[k]) == ""
    ensures FirstTitle(ns, sels).Some? ==> FirstTitle(ns, sels).value != ""
    decreases |sels|
  {
    if sels != [] && TitleAt(ns, sels[0]) == "" {
      var rest := sels[1..];
      FirstTitleNone(ns, rest);
      assert forall k :: 1 <= k < |sels| ==> sels[k] == rest[k - 1];
    }
  }

  /** The loop yields the text of the first selector whose first match has non-empty trimmed text. */
  lemma {:induction false} FirstTitleAt(ns: seq<Node>, sels: seq<Selector>, k: nat)
    requires k < |sels| && TitleAt(ns, sels[k]) != ""
    requires forall j :: 0 <= j < k ==> TitleAt(ns, sels[j]) == ""
    ensures FirstTitle(ns, sels) == Some(TitleAt(ns, sels[k]))
    decreases k
  {
    if k == 0 {
      assert FirstTitle(ns, sels) == Some(TitleAt(ns, sels[0]));
    } else {
      var rest := sels[1..];
      assert TitleAt(ns, sels[0]) == "";
      assert FirstTitle(ns, sels) == FirstTitle(ns, rest);
      forall j | 0 <= j < k - 1
        ensures TitleAt(ns, rest[j]) == ""
      {
        assert rest[j] == sels[j + 1];
      }
      assert rest[k - 1] == sels[k];
      FirstTitleAt(ns, rest, k - 1);
    }
  }

  // ---------------------------------------------------------------------
  // The longest text block
  // ---------------------------------------------------------------------

  /**
   * The index the candidates' stable descending sort on untrimmed
   * `textContent` length puts first: a longest candidate, and the earliest
   * of those.
   */
  function FirstLongest(cs: seq<Node>): (k: nat)
    requires |cs| > 0
    ensures k < |cs|
    ensures forall j :: 0 <= j < |cs| ==> |TextOf(cs[j])| <= |TextOf(cs[k])|
    ensures forall j :: 0 <= j < k ==> |TextOf(cs[j])| < |TextOf(cs[k])|
  {
    if |cs| == 1 then 0
    else
      var k := FirstLongest(cs[1..]);
      assert forall j :: 1 <= j < |cs| ==> cs[j] == cs[1..][j - 1];
      if |TextOf(cs[0])| >= |TextOf(cs[1 + k])| then 0 else 1 + k
  }

  /** `candidates.sort(longest first)[0] || null`. */
  function Longest(cs: seq<Node>): (r: Option<Node>)
    ensures r.None? <==> cs == []
    ensures r.Some? ==> r.value in cs && forall c | c in cs :: |TextOf(c)| <= |TextOf(r.value)|
  {
    if cs == [] then None else Some(cs[FirstLongest(cs)])
  }

  /**
   * The sort is stable, so among the longest candidates the earliest one
   * comes first: a candidate at least as long as every other and strictly
   * longer than every earlier one is the one chosen.
   */
  lemma LongestAt(cs: seq<Node>, k: nat)
    requires k < |cs|
    requires forall j :: 0 <= j < |cs| ==> |TextOf(cs[j])| <= |TextOf(cs[k])|
    requires forall j :: 0 <= j < k ==> |TextOf(cs[j])| < |TextOf(cs[k])|
    ensures Longest(cs) == Some(cs[k])
  {
  }
}
