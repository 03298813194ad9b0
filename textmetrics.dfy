/**
 * The text post-processing of the extraction pipeline: `cleanText`, the
 * word count (`split(/\s+/)` without empty pieces) and the reading time.
 */
module TextMetrics {
  import opened Util
  import opened Strings

  // ---------------------------------------------------------------------
  // cleanText
  // ---------------------------------------------------------------------

  /** The leading run of whitespace of `s`. */
  function LeadingWs(s: string): (r: string)
    ensures |r| <= |s| && r == s[..|r|] && AllWs(r)
  {
    WsEndSkipsWs(s, 0);
    s[..WsEnd(s, 0)]
  }

  function LastIndexOf(s: string, c: char): (k: nat)
    requires c in s
    ensures k < |s| && s[k] == c && c !in s[k + 1..]
  {
    if s[|s| - 1] == c then |s| - 1
    else
      assert c in s[..|s| - 1] by {
        var j :| 0 <= j < |s| && s[j] == c;
        assert s[..|s| - 1][j] == c;
      }
      var k := LastIndexOf(s[..|s| - 1], c);
      assert s[k + 1..] == s[..|s| - 1][k + 1..] + [s[|s| - 1]];
      k
  }

  /**
   * `s.replace(/\n\s*\n/g, '\n\n')`: scanning left to right, a newline
   * whose following run of whitespace holds another newline is replaced,
   * together with that run up to its last newline, by two newlines.
   */
  function ReplaceBlankLines(s: string): string
    decreases |s|
  {
    if s == [] then ""
    else if s[0] == '\n' && '\n' in LeadingWs(s[1..]) then
      var run := LeadingWs(s[1..]);
      "\n\n" + ReplaceBlankLines(s[1 + LastIndexOf(run, '\n') + 1..])
    else [s[0]] + ReplaceBlankLines(s[1..])
  }

  /** Without a newline there is nothing for the blank-line rewrite to match. */
  lemma {:induction false} ReplaceBlankLinesNoNewline(s: string)
    requires '\n' !in s
    ensures ReplaceBlankLines(s) == s
    decreases |s|
  {
    if s != [] {
      assert '\n' !in s[1..];
      ReplaceBlankLinesNoNewline(s[1..]);
    }
  }

  /** `cleanText`: collapse whitespace runs, rewrite blank lines, trim. */
  function CleanText(text: string): string
  {
    Trim(ReplaceBlankLines(CollapseWs(text)))
  }

  /**
   * The blank-line rewrite never fires, because collapsing has already
   * turned every newline into a space: `cleanText` is the plain
   * collapse-and-trim normalisation.
   */
  lemma CleanTextIsNormalizeSpace(text: string)
    ensures ReplaceBlankLines(CollapseWs(text)) == CollapseWs(text)
    ensures CleanText(text) == NormalizeSpace(text)
  {
    ReplaceBlankLinesNoNewline(CollapseWs(text));
  }

  /** What `cleanText` returns: no whitespace at either end, no newline, only single spaces between words. */
  lemma CleanTextShape(text: string)
    ensures var r := CleanText(text);
      && (r == [] || (!IsWs(r[0]) && !IsWs(r[|r| - 1])))
      && '\n' !in r
      && SingleSpaced(r)
  {
    CleanTextIsNormalizeSpace(text);
  }

  /** Cleaning cleaned text changes nothing. */
  lemma CleanTextIdempotent(text: string)
    ensures CleanText(CleanText(text)) == CleanText(text)
  {
    CleanTextIsNormalizeSpace(text);
    CleanTextIsNormalizeSpace(CleanText(text));
    NormalizeSpaceIdempotent(text);
  }

  // ---------------------------------------------------------------------
  // Words
  // ---------------------------------------------------------------------

  /** The end of the run of non-whitespace characters that starts at `i`: the first whitespace index from `i` on, or `|s|`. */
  function WordEnd(s: string, i: nat): (j: nat)
    requires i <= |s|
    ensures i <= j <= |s|
    ensures j == |s| || IsWs(s[j])
    decreases |s| - i
  {
    if i < |s| && !IsWs(s[i]) then WordEnd(s, i + 1) else i
  }

  /** Everything the run from `i` passes over is not whitespace. */
  lemma {:induction false} WordEndSkips(s: string, i: nat)
    requires i <= |s|
    ensures forall k :: i <= k < WordEnd(s, i) ==> !IsWs(s[k])
    decreases |s| - i
  {
    if i < |s| && !IsWs(s[i]) {
      WordEndSkips(s, i + 1);
    }
  }

  /** The run of non-whitespace characters from `i` ends exactly where whitespace starts. */
  lemma WordEndIs(s: string, i: nat, j: nat)
    requires i <= j <= |s|
    requires forall k :: i <= k < j ==> !IsWs(s[k])
    requires j == |s| || IsWs(s[j])
    ensures WordEnd(s, i) == j
  {
    WordEndSkips(s, i);
  }

  /**
   * `s.split(/\s+/)` on `s[i..]`: the pieces between maximal whitespace
   * runs, with '' before a leading and after a trailing run.
   */
  function SplitWsFrom(s: string, i: nat): (r: seq<string>)
    requires i <= |s|
    ensures |r| > 0
    decreases |s| - i
  {
    var j := WordEnd(s, i);
    if j == |s| then [s[i..]]
    else
      assert WsEnd(s, j) > j by { assert WsEnd(s, j) == WsEnd(s, j + 1); }
      [s[i..j]] + SplitWsFrom(s, WsEnd(s, j))
  }

  /** `s.split(/\s+/)`. */
  function SplitWs(s: string): (r: seq<string>)
    ensures |r| > 0
  {
    SplitWsFrom(s, 0)
  }

  /** The leading run of non-whitespace characters of `s`. */
  function TakeWord(s: string): (w: string)
    ensures |w| <= |s| && w == s[..|w|]
    ensures forall k :: 0 <= k < |w| ==> !IsWs(w[k])
    ensures |w| == |s| || IsWs(s[|w|])
    ensures s != [] && !IsWs(s[0]) ==> w != []
  {
    WordEndSkips(s, 0);
    s[..WordEnd(s, 0)]
  }

  /** The words of `s[i..]`: its maximal runs of non-whitespace characters, in order. */
  function WordsFrom(s: string, i: nat): (r: seq<string>)
    requires i <= |s|
    decreases |s| - i
  {
    var j := WsEnd(s, i);
    if j == |s| then []
    else
      var k := WordEnd(s, j);
      assert k > j by { assert k == WordEnd(s, j + 1); }
      [s[j..k]] + WordsFrom(s, k)
  }

  /** The words of `s`. */
  function Words(s: string): (r: seq<string>)
    ensures forall w | w in r :: w != []
  {
    WordsFromNonEmpty(s, 0);
    WordsFrom(s, 0)
  }

  /** No word is empty. */
  lemma {:induction false} WordsFromNonEmpty(s: string, i: nat)
    requires i <= |s|
    ensures forall w | w in WordsFrom(s, i) :: w != []
    decreases |s| - i
  {
    var j := WsEnd(s, i);
    if j < |s| {
      var k := WordEnd(s, j);
      WordsFromNonEmpty(s, k);
    }
  }

  predicate NonEmpty(w: string) { |w| > 0 }

  /** `countWords`: the pieces of `split(/\s+/)` that are not empty. */
  function CountWords(text: string): nat
  {
    |Filter(SplitWs(text), NonEmpty)|
  }

  /** `t` is `s` without its first `d` characters. */
  predicate Shifted(s: string, t: string, d: nat)
  {
    |s| == |t| + d && forall k :: 0 <= k < |t| ==> t[k] == s[k + d]
  }

  /** Dropping the first `d` characters moves the end of a whitespace run back by `d`. */
  lemma {:induction false} WsEndShift(s: string, t: string, d: nat, i: nat)
    requires Shifted(s, t, d) && d <= i <= |s|
    ensures WsEnd(t, i - d) == WsEnd(s, i) - d
    decreases |s| - i
  {
    if i < |s| {
      assert t[i - d] == s[i];
      if IsWs(s[i]) {
        WsEndShift(s, t, d, i + 1);
      }
    }
  }

  /** Dropping the first `d` characters moves the end of a word back by `d`. */
  lemma {:induction false} WordEndShift(s: string, t: string, d: nat, i: nat)
    requires Shifted(s, t, d) && d <= i <= |s|
    ensures WordEnd(t, i - d) == WordEnd(s, i) - d
    decreases |s| - i
  {
    if i < |s| {
      assert t[i - d] == s[i];
      if !IsWs(s[i]) {
        WordEndShift(s, t, d, i + 1);
      }
    }
  }

  lemma SliceShift(s: string, t: string, d: nat, j: nat, k: nat)
    requires Shifted(s, t, d) && d <= j <= k <= |s|
    ensures t[j - d..k - d] == s[j..k]
  {
    forall m | 0 <= m < k - j ensures t[j - d..k - d][m] == s[j..k][m] {
      assert t[j - d + m] == s[j + m];
    }
  }

  /** The words of `s` from `i` are the words of `s` without its first `d` characters from `i - d`. */
  lemma {:induction false} WordsFromShift(s: string, t: string, d: nat, i: nat)
    requires Shifted(s, t, d) && d <= i <= |s|
    ensures WordsFrom(t, i - d) == WordsFrom(s, i)
    decreases |s| - i
  {
    var j := WsEnd(s, i);
    WsEndShift(s, t, d, i);
    if j < |s| {
      var k := WordEnd(s, j);
      WordEndShift(s, t, d, j);
      SliceShift(s, t, d, j, k);
      WordsFromShift(s, t, d, k);
      SameFirstWord(t, i - d, j - d, k - d, s, i, j, k);
    } else {
      assert WordsFrom(t, i - d) == [];
    }
  }

  /** The words of `s` from `i` are the words of `s[d..]` from `i - d`. */
  lemma WordsFromDrop(s: string, d: nat, i: nat)
    requires d <= i <= |s|
    ensures WordsFrom(s[d..], i - d) == WordsFrom(s, i)
  {
    assert Shifted(s, s[d..], d);
    WordsFromShift(s, s[d..], d, i);
  }

  /** Two positions, in two strings, that reach the same first word and then the same rest, have the same words. */
  lemma SameFirstWord(t: string, a: nat, ja: nat, ka: nat, s: string, b: nat, jb: nat, kb: nat)
    requires a <= |t| && b <= |s|
    requires WsEnd(t, a) == ja < |t| && WordEnd(t, ja) == ka
    requires WsEnd(s, b) == jb < |s| && WordEnd(s, jb) == kb
    requires t[ja..ka] == s[jb..kb]
    requires WordsFrom(t, ka) == WordsFrom(s, kb)
    ensures WordsFrom(t, a) == WordsFrom(s, b)
  {
  }

  /** Whitespace between `i` and `j` does not change the words. */
  lemma WordsFromSkip(s: string, i: nat, j: nat)
    requires i <= j <= |s|
    requires forall k :: i <= k < j ==> IsWs(s[k])
    ensures WordsFrom(s, i) == WordsFrom(s, j)
  {
    WsEndSkipsWs(s, j);
    WsEndIs(s, i, WsEnd(s, j));
  }

  /** The words of a suffix of `s` are the words of `s` from where the suffix starts. */
  lemma WordsFromSuffix(s: string, i: nat)
    requires i <= |s|
    ensures Words(s[i..]) == WordsFrom(s, i)
  {
    WordsFromDrop(s, i, i);
  }

  /** Leading whitespace does not change the words. */
  lemma WordsWsPrefix(g: string, x: string)
    requires AllWs(g)
    ensures Words(g + x) == Words(x)
  {
    var s := g + x;
    WordsFromSkip(s, 0, |g|);
    assert s[|g|..] == x;
    WordsFromSuffix(s, |g|);
  }

  lemma WordsTrimStart(x: string)
    ensures Words(TrimStart(x)) == Words(x)
  {
    var e := WsEnd(x, 0);
    WsEndSkipsWs(x, 0);
    WordsFromSkip(x, 0, e);
    WordsFromSuffix(x, e);
  }

  predicate StartsWithWs(x: string)
  {
    x == [] || IsWs(x[0])
  }

  /**
   * A leading non-whitespace character is a word of its own when what
   * follows starts with whitespace, and otherwise joins the first word.
   */
  lemma WordsCons(c: char, x: string)
    requires !IsWs(c)
    ensures StartsWithWs(x) ==> Words([c] + x) == [[c]] + Words(x)
    ensures !StartsWithWs(x) ==> |Words(x)| > 0 && Words([c] + x) == [[c] + Words(x)[0]] + Words(x)[1..]
  {
    var s := [c] + x;
    assert WsEnd(s, 0) == 0;
    assert s[1..] == x;
    if StartsWithWs(x) {
      WordEndIs(s, 0, 1);
      WordsFromSuffix(s, 1);
    } else {
      assert WsEnd(x, 0) == 0;
      var k := WordEnd(x, 0);
      WordEndSkips(x, 0);
      assert s[k + 1..] == x[k..];
      assert k == |x| || s[k + 1] == x[k];
      WordEndIs(s, 0, k + 1);
      WordsFromSuffix(s, k + 1);
      WordsFromSuffix(x, k);
      assert s[0..k + 1] == [c] + x[0..k];
    }
  }

  /** Whitespace appended after position `i` does not change the words from `i`. */
  lemma {:induction false} WordsFromAppendWs(a: string, b: string, i: nat)
    requires AllWs(b) && i <= |a|
    ensures WordsFrom(a + b, i) == WordsFrom(a, i)
    decreases |a| - i
  {
    var s := a + b;
    var j := WsEnd(a, i);
    WsEndSkipsWs(a, i);
    forall k | |a| <= k < |s| ensures IsWs(s[k]) {
      assert s[k] == b[k - |a|];
    }
    if j == |a| {
      WsEndIs(s, i, |s|);
    } else {
      assert s[j] == a[j];
      WsEndIs(s, i, j);
      var k := WordEnd(a, j);
      WordEndSkips(a, j);
      assert k == |a| || s[k] == a[k];
      WordEndIs(s, j, k);
      assert s[j..k] == a[j..k];
      WordsFromAppendWs(a, b, k);
    }
  }

  /** Whitespace appended at the end does not change the words. */
  lemma WordsAppendWs(a: string, b: string)
    requires AllWs(b)
    ensures Words(a + b) == Words(a)
  {
    WordsFromAppendWs(a, b, 0);
  }

  /** Trimming keeps the words. */
  lemma WordsTrim(x: string)
    ensures Words(Trim(x)) == Words(x)
  {
    var i, j := TrimIsSlice(x);
    assert x == x[..i] + (x[i..j] + x[j..]);
    WordsWsPrefix(x[..i], x[i..j] + x[j..]);
    WordsAppendWs(x[i..j], x[j..]);
  }

  /** A leading whitespace character does not change the words. */
  lemma WordsWsCons(c: char, x: string)
    requires IsWs(c)
    ensures Words([c] + x) == Words(x)
  {
    WordsWsPrefix([c], x);
  }

  /** Collapsing whitespace runs keeps the words, and keeps whether the text starts with whitespace. */
  lemma {:induction false} WordsCollapse(s: string)
    ensures Words(CollapseWs(s)) == Words(s)
    ensures StartsWithWs(CollapseWs(s)) == StartsWithWs(s)
    decreases |s|
  {
    if s != [] {
      assert s == [s[0]] + s[1..];
      if IsWs(s[0]) {
        var t := TrimStart(s);
        WordsCollapse(t);
        WordsWsCons(' ', CollapseWs(t));
        WordsTrimStart(s);
      } else {
        WordsCollapse(s[1..]);
        WordsCons(s[0], CollapseWs(s[1..]));
        WordsCons(s[0], s[1..]);
      }
    }
  }

  /** The non-empty pieces of `split(/\s+/)` on `s[i..]` are exactly its words. */
  lemma {:induction false} SplitWsFromWords(s: string, i: nat)
    requires i <= |s|
    ensures Filter(SplitWsFrom(s, i), NonEmpty) == WordsFrom(s, i)
    decreases |s| - i
  {
    var j := WordEnd(s, i);
    if j == |s| {
      if i < |s| {
        assert WsEnd(s, i) == i;
        assert WordsFrom(s, i) == [s[i..|s|]] + WordsFrom(s, |s|);
        assert s[i..|s|] == s[i..];
      }
    } else {
      var m := WsEnd(s, j);
      assert m > j by { assert m == WsEnd(s, j + 1); }
      WsEndSkipsWs(s, j);
      SplitWsFromWords(s, m);
      FilterConcat([s[i..j]], SplitWsFrom(s, m), NonEmpty);
      WordsFromSkip(s, j, m);
      if j == i {
        WordsFromSkip(s, i, m);
      } else {
        assert WsEnd(s, i) == i;
      }
    }
  }

  /** The non-empty pieces of `split(/\s+/)` are exactly the words. */
  lemma SplitWsWords(s: string)
    ensures Filter(SplitWs(s), NonEmpty) == Words(s)
  {
    SplitWsFromWords(s, 0);
  }

  /** `countWords` counts the words. */
  lemma CountWordsIsWords(text: string)
    ensures CountWords(text) == |Words(text)|
  {
    SplitWsWords(text);
  }

  /** `cleanText` keeps the words, so the word count is the same before and after cleaning. */
  lemma CleanTextKeepsWords(text: string)
    ensures Words(CleanText(text)) == Words(text)
    ensures CountWords(CleanText(text)) == CountWords(text)
  {
    CleanTextIsNormalizeSpace(text);
    WordsTrim(CollapseWs(text));
    WordsCollapse(text);
    CountWordsIsWords(text);
    CountWordsIsWords(CleanText(text));
  }

  // ---------------------------------------------------------------------
  // Reading time
  // ---------------------------------------------------------------------

  /** `Math.ceil(words / 200)`: the fewest whole minutes in which 200 words a minute covers `words`. */
  function MinutesFor(words: nat): (r: nat)
    ensures words <= 200 * r
    ensures r == 0 || 200 * (r - 1) < words
  {
    (words + 199) / 200
  }

  /** `calculateReadingTime`. */
  function ReadingTime(text: string): nat
  {
    MinutesFor(CountWords(text))
  }
}
