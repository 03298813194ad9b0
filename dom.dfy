/**
 * A finite model of the DOM tree the content scripts query and edit.
 *
 * A document is a forest of nodes; an element carries the parts selectors
 * look at (tag name, id, class list, other attributes) and a `key` that
 * stands for its identity as a DOM object.  `querySelectorAll` is the
 * pre-order list of matching elements, `querySelector` its first entry,
 * and `el.remove()` drops the element with that key together with its
 * subtree.
 */
module Dom {
  import opened Util
  import opened Strings

  datatype Info = Info(key: nat, tag: string, id: string, classes: seq<string>, attrs: map<string, string>)

  datatype Node = Text(text: string) | Element(info: Info, children: seq<Node>)

  /**
   * `title` is `document.title` and `url` is `window.location.href`, both as
   * the browser reports them; `nodes` are the document's children.
   */
  datatype Document = Document(title: string, url: string, nodes: seq<Node>)

  /** The selector forms the scripts use: `tag`, `.class`, `#id`, `[attr]`, `[attr="v"]`, compounds and lists. */
  datatype Selector =
    | Tag(name: string)
    | Class(name: string)
    | Id(name: string)
    | HasAttr(attr: string)
    | AttrIs(attr: string, value: string)
    | Both(first: Selector, second: Selector)
    | AnyOf(alternatives: seq<Selector>)

  predicate Matches(i: Info, s: Selector)
    decreases s
  {
    match s
    case Tag(n) => i.tag == n
    case Class(c) => c in i.classes
    case Id(x) => i.id == x
    case HasAttr(a) => a in i.attrs
    case AttrIs(a, v) => a in i.attrs && i.attrs[a] == v
    case Both(x, y) => Matches(i, x) && Matches(i, y)
    case AnyOf(alts) => exists k :: 0 <= k < |alts| && Matches(i, alts[k])
  }

  /** The elements of a forest in document (pre-)order. */
  function Elements(ns: seq<Node>): (es: seq<Node>)
    ensures forall m | m in es :: m.Element?
    decreases ns
  {
    if ns == [] then []
    else match ns[0]
      case Text(_) => Elements(ns[1..])
      case Element(_, cs) => [ns[0]] + Elements(cs) + Elements(ns[1..])
  }

  lemma {:induction false} ElementsConcat(a: seq<Node>, b: seq<Node>)
    ensures Elements(a + b) == Elements(a) + Elements(b)
    decreases a
  {
    if a == [] {
      assert a + b == b;
    } else {
      assert (a + b)[0] == a[0];
      assert (a + b)[1..] == a[1..] + b;
      ElementsConcat(a[1..], b);
    }
  }

  lemma ElementsCons(n: Node, rest: seq<Node>)
    ensures Elements([n] + rest) == (if n.Element? then [n] + Elements(n.children) else []) + Elements(rest)
  {
    assert ([n] + rest)[0] == n;
    assert ([n] + rest)[1..] == rest;
  }

  /** `textContent`: the text of every text node, in document order. */
  function TextContent(ns: seq<Node>): string
    decreases ns
  {
    if ns == [] then ""
    else (match ns[0] case Text(t) => t case Element(_, cs) => TextContent(cs)) + TextContent(ns[1..])
  }

  /** `n.textContent` for a single node. */
  function TextOf(n: Node): string
  {
    match n
    case Text(t) => t
    case Element(_, cs) => TextContent(cs)
  }

  /** `querySelectorAll(s)` on a forest: every element of it that matches, in document order. */
  function QueryAll(ns: seq<Node>, s: Selector): (r: seq<Node>)
    ensures forall m | m in r :: m in Elements(ns) && m.Element? && Matches(m.info, s)
    ensures forall m | m in Elements(ns) && Matches(m.info, s) :: m in r
  {
    FilterMembers(Elements(ns), (m: Node) => m.Element? && Matches(m.info, s));
    Filter(Elements(ns), (m: Node) => m.Element? && Matches(m.info, s))
  }

  /** The matches in a forest made of two parts: those of the first part, then those of the second. */
  lemma QueryAllConcat(a: seq<Node>, b: seq<Node>, s: Selector)
    ensures QueryAll(a + b, s) == QueryAll(a, s) + QueryAll(b, s)
  {
    ElementsConcat(a, b);
    FilterConcat(Elements(a), Elements(b), (m: Node) => m.Element? && Matches(m.info, s));
  }

  /** `querySelector(s)`: the first element in document order that matches, if any. */
  function QueryFirst(ns: seq<Node>, s: Selector): (r: Option<Node>)
    ensures r.None? <==> forall m | m in Elements(ns) :: !Matches(m.info, s)
    ensures r.Some? ==> r.value in Elements(ns) && r.value.Element? && Matches(r.value.info, s)
  {
    var all := QueryAll(ns, s);
    if |all| > 0 then Some(all[0]) else None
  }

  /**
   * `querySelector(s)` returns the element that comes first in document
   * order among the matches: the one at position `i` of the pre-order when
   * no earlier element matches.
   */
  lemma QueryFirstAt(ns: seq<Node>, s: Selector, i: nat)
    requires i < |Elements(ns)| && Matches(Elements(ns)[i].info, s)
    requires forall j :: 0 <= j < i ==> !Matches(Elements(ns)[j].info, s)
    ensures QueryFirst(ns, s) == Some(Elements(ns)[i])
  {
    var es := Elements(ns);
    var p := (m: Node) => m.Element? && Matches(m.info, s);
    assert es[i] in es;
    forall j | 0 <= j < i
      ensures !p(es[j])
    {
      assert es[j] in es;
    }
    FilterHead(es, p, i);
  }

  /** `document.documentElement`: the first element child of the document. */
  function DocumentElement(doc: Document): (r: Option<Node>)
    ensures r.Some? ==> r.value.Element? && r.value in doc.nodes
  {
    FirstElement(doc.nodes)
  }

  function FirstElement(ns: seq<Node>): (r: Option<Node>)
    ensures r.Some? ==> r.value.Element? && r.value in ns
    ensures r.None? ==> forall n | n in ns :: !n.Element?
  {
    if ns == [] then None else if ns[0].Element? then Some(ns[0]) else FirstElement(ns[1..])
  }

  /** `document.body`: the first `body` child of the document element (whatever its tag; `frameset` is not considered). */
  function Body(doc: Document): (r: Option<Node>)
    ensures r.Some? ==> r.value.Element? && r.value.info.tag == "body"
  {
    match DocumentElement(doc)
    case None => None
    case Some(root) => FirstWithTag(root.children, "body")
  }

  function FirstWithTag(ns: seq<Node>, tag: string): (r: Option<Node>)
    ensures r.Some? ==> r.value.Element? && r.value.info.tag == tag && r.value in ns
  {
    if ns == [] then None
    else if ns[0].Element? && ns[0].info.tag == tag then Some(ns[0])
    else FirstWithTag(ns[1..], tag)
  }

  // ---------------------------------------------------------------------
  // Element identity
  // ---------------------------------------------------------------------

  function Keys(ns: seq<Node>): set<nat>
  {
    set m | m in Elements(ns) :: m.info.key
  }

  function InfoSet(ns: seq<Node>): set<Info>
  {
    set m | m in Elements(ns) :: m.info
  }

  function KeysOf(es: seq<Node>): set<nat>
  {
    set m | m in es && m.Element? :: m.info.key
  }

  /** Distinct elements have distinct keys: each key names one DOM object. */
  predicate KeysUnique(ns: seq<Node>)
    decreases ns
  {
    ns == [] ||
    (&& KeysUnique(ns[1..])
     && match ns[0]
        case Text(_) => true
        case Element(i, cs) =>
          && KeysUnique(cs)
          && i.key !in Keys(cs)
          && i.key !in Keys(ns[1..])
          && Keys(cs) !! Keys(ns[1..]))
  }

  lemma {:induction false} SameKeySameElement(ns: seq<Node>, a: Node, b: Node)
    requires KeysUnique(ns)
    requires a in Elements(ns) && b in Elements(ns)
    requires a.info.key == b.info.key
    ensures a == b
    decreases ns
  {
    match ns[0]
    case Text(_) =>
      SameKeySameElement(ns[1..], a, b);
    case Element(i, cs) =>
      var rest := ns[1..];
      assert Elements(ns) == [ns[0]] + Elements(cs) + Elements(rest);
      assert a.info.key in Keys(cs) <== a in Elements(cs);
      assert a.info.key in Keys(rest) <== a in Elements(rest);
      assert b.info.key in Keys(cs) <== b in Elements(cs);
      assert b.info.key in Keys(rest) <== b in Elements(rest);
      if a in Elements(cs) && b in Elements(cs) {
        SameKeySameElement(cs, a, b);
      } else if a in Elements(rest) && b in Elements(rest) {
        SameKeySameElement(rest, a, b);
      }
  }

  /** Every element of a forest with unique keys roots a subtree with unique keys. */
  lemma {:induction false} SubtreeKeysUnique(ns: seq<Node>, m: Node)
    requires KeysUnique(ns)
    requires m in Elements(ns)
    ensures KeysUnique(m.children)
    decreases ns
  {
    match ns[0]
    case Text(_) =>
      SubtreeKeysUnique(ns[1..], m);
    case Element(i, cs) =>
      if m != ns[0] {
        if m in Elements(cs) { SubtreeKeysUnique(cs, m); } else { SubtreeKeysUnique(ns[1..], m); }
      }
  }

  /** The elements below an element of the forest are elements of the forest. */
  lemma {:induction false} SubtreeElements(ns: seq<Node>, m: Node)
    requires m in Elements(ns)
    ensures forall d | d in Elements(m.children) :: d in Elements(ns)
    decreases ns
  {
    match ns[0]
    case Text(_) =>
      SubtreeElements(ns[1..], m);
    case Element(i, cs) =>
      if m == ns[0] {
      } else if m in Elements(cs) {
        SubtreeElements(cs, m);
      } else {
        SubtreeElements(ns[1..], m);
      }
  }

  lemma SubtreeInfos(ns: seq<Node>, m: Node)
    requires m in Elements(ns)
    ensures InfoSet(m.children) <= InfoSet(ns)
  {
    SubtreeElements(ns, m);
  }

  // ---------------------------------------------------------------------
  // Removing elements
  // ---------------------------------------------------------------------

  /**
   * Which elements to drop: those whose key is in a set (what a sequence of
   * `el.remove()` calls does), those that match a selector, or those that
   * match a selector, hold only whitespace text and contain no element
   * matching `keep`.
   */
  datatype Drop = Keyed(keys: set<nat>) | Selected(sel: Selector) | Blank(sel: Selector, keep: Selector)

  predicate Drops(d: Drop, n: Node)
    requires n.Element?
  {
    match d
    case Keyed(ks) => n.info.key in ks
    case Selected(s) => Matches(n.info, s)
    case Blank(s, keep) => Matches(n.info, s) && Trim(TextContent(n.children)) == "" && QueryFirst(n.children, keep).None?
  }

  /** The forest without every element that `d` drops (each with its whole subtree). */
  function FilterTree(ns: seq<Node>, d: Drop): (r: seq<Node>)
    ensures |r| <= |ns|
    decreases ns
  {
    if ns == [] then []
    else match ns[0]
      case Text(_) => [ns[0]] + FilterTree(ns[1..], d)
      case Element(i, cs) =>
        if Drops(d, ns[0]) then FilterTree(ns[1..], d)
        else [Element(i, FilterTree(cs, d))] + FilterTree(ns[1..], d)
  }

  /** The filtered forest keeps a subset of the elements' descriptions; no key or info is invented. */
  lemma {:induction false} FilterTreeInfos(ns: seq<Node>, d: Drop)
    ensures InfoSet(FilterTree(ns, d)) <= InfoSet(ns)
    ensures Keys(FilterTree(ns, d)) <= Keys(ns)
    ensures forall m | m in Elements(FilterTree(ns, d)) :: exists o :: o in Elements(ns) && o.info == m.info && !Drops(d, o)
    decreases ns
  {
    if ns != [] {
      var rest := ns[1..];
      FilterTreeInfos(rest, d);
      match ns[0]
      case Text(_) =>
        ElementsCons(ns[0], FilterTree(rest, d));
      case Element(i, cs) =>
        FilterTreeInfos(cs, d);
        if !Drops(d, ns[0]) {
          var kept := Element(i, FilterTree(cs, d));
          ElementsCons(kept, FilterTree(rest, d));
          assert Elements(ns) == [ns[0]] + Elements(cs) + Elements(rest);
          forall m | m in Elements(FilterTree(ns, d))
            ensures exists o :: o in Elements(ns) && o.info == m.info && !Drops(d, o)
          {
            if m == kept {
              assert ns[0] in Elements(ns);
            }
          }
        }
    }
  }

  /** Filtering keeps key uniqueness. */
  lemma {:induction false} FilterTreeKeysUnique(ns: seq<Node>, d: Drop)
    requires KeysUnique(ns)
    ensures KeysUnique(FilterTree(ns, d))
    decreases ns
  {
    if ns != [] {
      var rest := ns[1..];
      FilterTreeKeysUnique(rest, d);
      FilterTreeInfos(rest, d);
      match ns[0]
      case Text(_) =>
        assert FilterTree(ns, d)[1..] == FilterTree(rest, d);
      case Element(i, cs) =>
        FilterTreeKeysUnique(cs, d);
        FilterTreeInfos(cs, d);
        if !Drops(d, ns[0]) {
          assert FilterTree(ns, d)[1..] == FilterTree(rest, d);
        }
    }
  }

  /** Two criteria that agree on every element of the forest filter it alike. */
  lemma {:induction false} FilterTreeAgree(ns: seq<Node>, d1: Drop, d2: Drop)
    requires forall m | m in Elements(ns) :: Drops(d1, m) == Drops(d2, m)
    ensures FilterTree(ns, d1) == FilterTree(ns, d2)
    decreases ns
  {
    if ns != [] {
      FilterTreeAgree(ns[1..], d1, d2);
      match ns[0]
      case Text(_) =>
      case Element(i, cs) =>
        assert ns[0] in Elements(ns);
        FilterTreeAgree(cs, d1, d2);
    }
  }

  /** A criterion that drops nothing in the forest leaves it as it is. */
  lemma {:induction false} FilterTreeNothing(ns: seq<Node>, d: Drop)
    requires forall m | m in Elements(ns) :: !Drops(d, m)
    ensures FilterTree(ns, d) == ns
    decreases ns
  {
    if ns != [] {
      FilterTreeNothing(ns[1..], d);
      match ns[0]
      case Text(_) =>
        assert ns == [ns[0]] + ns[1..];
      case Element(i, cs) =>
        assert ns[0] in Elements(ns);
        FilterTreeNothing(cs, d);
        assert ns == [ns[0]] + ns[1..];
    }
  }

  /** Removing the keys in `a` and then those in `b` removes the keys in `a + b`. */
  lemma {:induction false} FilterKeyedTwice(ns: seq<Node>, a: set<nat>, b: set<nat>)
    ensures FilterTree(FilterTree(ns, Keyed(a)), Keyed(b)) == FilterTree(ns, Keyed(a + b))
    decreases ns
  {
    if ns != [] {
      var rest := ns[1..];
      FilterKeyedTwice(rest, a, b);
      var once := FilterTree(ns, Keyed(a));
      match ns[0]
      case Text(_) =>
        assert once[0] == ns[0] && once[1..] == FilterTree(rest, Keyed(a));
      case Element(i, cs) =>
        FilterKeyedTwice(cs, a, b);
        if i.key !in a {
          assert once[0] == Element(i, FilterTree(cs, Keyed(a)));
          assert once[1..] == FilterTree(rest, Keyed(a));
        }
  }
  }

  /**
   * With unique keys, an element's key is among the keys of some elements
   * of the forest exactly when the element is one of them.
   */
  lemma KeyedIsMembership(ns: seq<Node>, hits: seq<Node>)
    requires KeysUnique(ns)
    requires forall h | h in hits :: h in Elements(ns)
    ensures forall m | m in Elements(ns) :: m.info.key in KeysOf(hits) <==> m in hits
  {
    forall m | m in Elements(ns) && m.info.key in KeysOf(hits) ensures m in hits {
      var h :| h in hits && h.Element? && h.info.key == m.info.key;
      SameKeySameElement(ns, h, m);
    }
  }

  lemma KeysOfConcat(a: seq<Node>, b: seq<Node>)
    ensures KeysOf(a + b) == KeysOf(a) + KeysOf(b)
  {
  }

  /** Removing one more element extends the set of removed keys by its key. */
  lemma RemoveOneMore(ns: seq<Node>, gone: seq<Node>, el: Node)
    requires el.Element?
    ensures FilterTree(FilterTree(ns, Keyed(KeysOf(gone))), Keyed({el.info.key})) == FilterTree(ns, Keyed(KeysOf(gone + [el])))
  {
    FilterKeyedTwice(ns, KeysOf(gone), {el.info.key});
    KeysOfConcat(gone, [el]);
    assert KeysOf([el]) == {el.info.key};
  }

  /** Removing no element leaves the forest as it is. */
  lemma RemoveNone(ns: seq<Node>)
    ensures FilterTree(ns, Keyed(KeysOf([]))) == ns
  {
    assert KeysOf([]) == {};
    FilterTreeNothing(ns, Keyed({}));
  }

  /**
   * Calling `remove()` on exactly the elements that `d` drops (taken from
   * the forest before any removal) leaves the forest that `FilterTree`
   * describes.
   */
  lemma RemoveMarked(ns: seq<Node>, hits: seq<Node>, d: Drop)
    requires KeysUnique(ns)
    requires forall h | h in hits :: h in Elements(ns)
    requires forall m | m in Elements(ns) :: m in hits <==> Drops(d, m)
    ensures FilterTree(ns, Keyed(KeysOf(hits))) == FilterTree(ns, d)
  {
    KeyedIsMembership(ns, hits);
    FilterTreeAgree(ns, Keyed(KeysOf(hits)), d);
  }

  /**
   * Calling `remove()` on every element `querySelectorAll(s)` returned
   * leaves the forest without the elements matching `s`.
   */
  lemma RemoveQueried(ns: seq<Node>, s: Selector)
    requires KeysUnique(ns)
    ensures FilterTree(ns, Keyed(KeysOf(QueryAll(ns, s)))) == FilterTree(ns, Selected(s))
  {
    RemoveMarked(ns, QueryAll(ns, s), Selected(s));
  }

  // ---------------------------------------------------------------------
  // Changing a subtree in place
  // ---------------------------------------------------------------------

  /**
   * The forest after the element with key `key` has been changed in place
   * into the node `changed`: that element, with its subtree, is replaced
   * wherever it occurs; everything else stays where it was.
   */
  function ReplaceKeyed(ns: seq<Node>, key: nat, changed: Node): (r: seq<Node>)
    ensures |r| == |ns|
    decreases ns
  {
    if ns == [] then []
    else match ns[0]
      case Text(_) => [ns[0]] + ReplaceKeyed(ns[1..], key, changed)
      case Element(i, cs) =>
        (if i.key == key then [changed] else [Element(i, ReplaceKeyed(cs, key, changed))]) + ReplaceKeyed(ns[1..], key, changed)
  }

  /** An element of the forest, once changed in place, is found in its new form in the forest. */
  lemma {:induction false} ReplaceKeyedPlaces(ns: seq<Node>, a: Node, changed: Node)
    requires a in Elements(ns) && changed.Element?
    ensures changed in Elements(ReplaceKeyed(ns, a.info.key, changed))
    decreases ns
  {
    var r := ReplaceKeyed(ns, a.info.key, changed);
    var tail := ReplaceKeyed(ns[1..], a.info.key, changed);
    match ns[0]
    case Text(_) =>
      assert r == [ns[0]] + tail;
      ElementsCons(ns[0], tail);
      ReplaceKeyedPlaces(ns[1..], a, changed);
    case Element(i, cs) =>
      var head := if i.key == a.info.key then changed else Element(i, ReplaceKeyed(cs, a.info.key, changed));
      assert r == [head] + tail;
      ElementsCons(head, tail);
      if i.key != a.info.key {
        if a in Elements(cs) {
          ReplaceKeyedPlaces(cs, a, changed);
        } else {
          assert a in Elements(ns[1..]);
          ReplaceKeyedPlaces(ns[1..], a, changed);
        }
      }
  }

  /** A key no element of the forest carries changes nothing. */
  lemma {:induction false} ReplaceKeyedNothing(ns: seq<Node>, key: nat, changed: Node)
    requires forall m | m in Elements(ns) :: m.info.key != key
    ensures ReplaceKeyed(ns, key, changed) == ns
    decreases ns
  {
    if ns != [] {
      match ns[0]
      case Text(_) =>
        ReplaceKeyedNothing(ns[1..], key, changed);
        assert ns == [ns[0]] + ns[1..];
      case Element(i, cs) =>
        assert Elements(ns) == [ns[0]] + Elements(cs) + Elements(ns[1..]);
        ReplaceKeyedNothing(ns[1..], key, changed);
        ReplaceKeyedNothing(cs, key, changed);
        assert ns == [ns[0]] + ns[1..];
    }
  }}
