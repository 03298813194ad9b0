/**
 * Whitespace handling shared by both extraction scripts: JavaScript's `\s`
 * class, `String.prototype.trim`, the global `/\s+/g -> ' '` replacement and
 * the first-sentence excerpt rule.
 */
module Strings {
  import opened Util

  /** The code points matched by `\s` and removed by `trim`: WhiteSpace and LineTerminator. */
  predicate IsWs(c: char)
  {
    || c == ' ' || c == '\t' || c == '\n' || c == '\r' || c == '\U{B}' || c == '\U{C}'
    || c == '\U{A0}' || c == '\U{1680}' || ('\U{2000}' <= c <= '\U{200A}')
    || c == '\U{2028}' || c == '\U{2029}' || c == '\U{202F}' || c == '\U{205F}'
    || c == '\U{3000}' || c == '\U{FEFF}'
  }

  predicate AllWs(s: string)
  {
    forall k :: 0 <= k < |s| ==> IsWs(s[k])
  }

  /** Text in which every whitespace character is a plain space and no two whitespace characters are adjacent. */
  predicate SingleSpaced(s: string)
  {
    && (forall k :: 0 <= k < |s| && IsWs(s[k]) ==> s[k] == ' ')
    && (forall k :: 0 <= k < |s| - 1 ==> !(IsWs(s[k]) && IsWs(s[k + 1])))
  }

  /** The end of the run of whitespace that starts at `i`: the first non-whitespace index from `i` on, or `|s|`. */
  function WsEnd(s: string, i: nat): (j: nat)
    requires i <= |s|
    ensures i <= j <= |s|
    ensures j == |s| || !IsWs(s[j])
    decreases |s| - i
  {
    if i < |s| && IsWs(s[i]) then WsEnd(s, i + 1) else i
  }

  /** Everything the run from `i` passes over is whitespace. */
  lemma {:induction false} WsEndSkipsWs(s: string, i: nat)
    requires i <= |s|
    ensures forall k :: i <= k < WsEnd(s, i) ==> IsWs(s[k])
    decreases |s| - i
  {
    if i < |s| && IsWs(s[i]) {
      WsEndSkipsWs(s, i + 1);
    }
  }

  /** The whitespace run from `i` ends exactly where whitespace stops. */
  lemma WsEndIs(s: string, i: nat, j: nat)
    requires i <= j <= |s|
    requires forall k :: i <= k < j ==> IsWs(s[k])
    requires j == |s| || !IsWs(s[j])
    ensures WsEnd(s, i) == j
  {
    WsEndSkipsWs(s, i);
  }

  /** The start of the run of whitespace that ends at `j`: the index after the last non-whitespace character before `j`, or 0. */
  function WsStart(s: string, j: nat): (i: nat)
    requires j <= |s|
    ensures i <= j
    ensures i == 0 || !IsWs(s[i - 1])
    decreases j
  {
    if j > 0 && IsWs(s[j - 1]) then WsStart(s, j - 1) else j
  }

  /** Everything the run back from `j` passes over is whitespace. */
  lemma {:induction false} WsStartSkipsWs(s: string, j: nat)
    requires j <= |s|
    ensures forall k :: WsStart(s, j) <= k < j ==> IsWs(s[k])
    decreases j
  {
    if j > 0 && IsWs(s[j - 1]) {
      WsStartSkipsWs(s, j - 1);
    }
  }

  /** Drops the leading run of whitespace. */
  function TrimStart(s: string): (r: string)
    ensures |r| <= |s| && r == s[|s| - |r|..]
    ensures AllWs(s[..|s| - |r|])
    ensures r == [] || !IsWs(r[0])
  {
    var i := WsEnd(s, 0);
    WsEndSkipsWs(s, 0);
    assert forall k :: 0 <= k < i ==> s[..i][k] == s[k];
    s[i..]
  }

  /** `s.trim()`: `s` without its leading and trailing whitespace. */
  function Trim(s: string): (r: string)
    ensures |r| <= |s|
    ensures r == [] || (!IsWs(r[0]) && !IsWs(r[|r| - 1]))
    ensures r == [] <==> AllWs(s)
  {
    var i := WsEnd(s, 0);
    WsEndSkipsWs(s, 0);
    if i == |s| then []
    else
      var j := WsStart(s, |s|);
      WsStartSkipsWs(s, |s|);
      assert i < j;
      s[i..j]
  }

  /** `Trim(s)` is the piece `s[i..j]` of `s` left after dropping whitespace on both sides. */
  lemma TrimIsSlice(s: string) returns (i: nat, j: nat)
    ensures i <= j <= |s| && Trim(s) == s[i..j]
    ensures AllWs(s[..i]) && AllWs(s[j..])
  {
    i := WsEnd(s, 0);
    WsEndSkipsWs(s, 0);
    if i == |s| {
      j := i;
    } else {
      j := WsStart(s, |s|);
      WsStartSkipsWs(s, |s|);
      assert i < j;
    }
    assert forall k :: 0 <= k < |s[j..]| ==> s[j..][k] == s[j + k];
  }

  /** Text with no whitespace at either end is its own trim. */
  lemma TrimOfTrimmed(s: string)
    requires s == [] || (!IsWs(s[0]) && !IsWs(s[|s| - 1]))
    ensures Trim(s) == s
  {
    if s != [] {
      assert WsEnd(s, 0) == 0;
      assert WsStart(s, |s|) == |s|;
      assert s[0..|s|] == s;
    }
  }

  /**
   * `s.replace(/\s+/g, ' ')`: every maximal run of whitespace becomes one
   * space.
   */
  function CollapseWs(s: string): (r: string)
    ensures SingleSpaced(r)
    ensures r == [] <==> s == []
    ensures s != [] ==> r[0] == (if IsWs(s[0]) then ' ' else s[0])
    ensures '\n' !in r
    decreases |s|
  {
    if s == [] then ""
    else if IsWs(s[0]) then " " + CollapseWs(TrimStart(s))
    else [s[0]] + CollapseWs(s[1..])
  }

  /** Collapsing is the identity on text that is already single-spaced. */
  lemma {:induction false} CollapseSingleSpaced(s: string)
    requires SingleSpaced(s)
    ensures CollapseWs(s) == s
    decreases |s|
  {
    if s != [] {
      assert SingleSpaced(s[1..]);
      if IsWs(s[0]) {
        assert TrimStart(s) == s[1..] by {
          assert s[1..] == [] || !IsWs(s[1..][0]);
          assert TrimStart(s) == TrimStart(s[1..]);
        }
        CollapseSingleSpaced(s[1..]);
      } else {
        CollapseSingleSpaced(s[1..]);
      }
    }
  }

  /**
   * `s.replace(/\s+/g, ' ').trim()`: the normalisation applied to text nodes
   * and to extracted text.
   */
  function NormalizeSpace(s: string): (r: string)
    ensures r == [] || (!IsWs(r[0]) && !IsWs(r[|r| - 1]))
    ensures SingleSpaced(r)
    ensures '\n' !in r
  {
    var c := CollapseWs(s);
    TrimKeepsSingleSpaced(c);
    Trim(c)
  }

  lemma TrimKeepsSingleSpaced(s: string)
    ensures SingleSpaced(s) ==> SingleSpaced(Trim(s))
    ensures '\n' !in s ==> '\n' !in Trim(s)
  {
    var i, j := TrimIsSlice(s);
    var r := Trim(s);
    assert forall k :: 0 <= k < |r| ==> r[k] == s[i + k];
    if '\n' in r {
      var k :| 0 <= k < |r| && r[k] == '\n';
      assert s[i + k] == '\n';
    }
  }

  /** Normalising twice changes nothing. */
  lemma NormalizeSpaceIdempotent(s: string)
    ensures NormalizeSpace(NormalizeSpace(s)) == NormalizeSpace(s)
  {
    var n := NormalizeSpace(s);
    CollapseSingleSpaced(n);
    TrimOfTrimmed(n);
  }

  // ---------------------------------------------------------------------
  // Excerpts (readability.js extractExcerpt; content.js has the same body)
  // ---------------------------------------------------------------------

  predicate IsTerminator(c: char) { c == '.' || c == '!' || c == '?' }

  /** The first sentence terminator at or after `i`, or `|s|`. */
  function SegmentEnd(s: string, i: nat): (j: nat)
    requires i <= |s|
    ensures i <= j <= |s|
    ensures j == |s| || IsTerminator(s[j])
    decreases |s| - i
  {
    if i < |s| && !IsTerminator(s[i]) then SegmentEnd(s, i + 1) else i
  }

  /** No terminator lies between `i` and the end of its segment. */
  lemma {:induction false} SegmentEndSkips(s: string, i: nat)
    requires i <= |s|
    ensures forall k :: i <= k < SegmentEnd(s, i) ==> !IsTerminator(s[k])
    decreases |s| - i
  {
    if i < |s| && !IsTerminator(s[i]) {
      SegmentEndSkips(s, i + 1);
    }
  }

  /** `text.split(/[.!?]+/)[0]`: the text before the first sentence terminator. */
  function FirstSegment(s: string): (r: string)
    ensures |r| <= |s| && r == s[..|r|]
    ensures forall k :: 0 <= k < |r| ==> !IsTerminator(r[k])
    ensures |r| == |s| || IsTerminator(s[|r|])
  {
    SegmentEndSkips(s, 0);
    s[..SegmentEnd(s, 0)]
  }

  function Min(a: int, b: int): int { if a <= b then a else b }

  /**
   * The excerpt: the trimmed first sentence when it is longer than 50
   * characters, otherwise the first 200 characters followed by "...".
   */
  function Excerpt(text: string): (r: string)
    ensures |r| > 50 || |r| == Min(|text|, 200) + 3
  {
    var first := Trim(FirstSegment(text));
    if |first| > 50 then first else text[..Min(|text|, 200)] + "..."
  }

  /**
   * What an excerpt can be: either a trimmed sentence of more than 50
   * characters that holds no terminator and lies inside the first segment of
   * the text, or a prefix of at most 200 characters followed by "...".
   */
  lemma {:induction false} ExcerptShape(text: string)
    ensures var r := Excerpt(text);
      |Trim(FirstSegment(text))| > 50 ==>
        && r == Trim(FirstSegment(text))
        && (forall k :: 0 <= k < |r| ==> !IsTerminator(r[k]))
        && !IsWs(r[0]) && !IsWs(r[|r| - 1])
    ensures var r := Excerpt(text);
      |Trim(FirstSegment(text))| <= 50 ==>
        && |r| == Min(|text|, 200) + 3
        && r[..|r| - 3] == text[..|r| - 3]
        && r[|r| - 3..] == "..."
  {
    var seg := FirstSegment(text);
    var r := Excerpt(text);
    if |Trim(seg)| > 50 {
      var i, j := TrimIsSlice(seg);
      assert r == seg[i..j];
      forall k | 0 <= k < |r| ensures !IsTerminator(r[k]) {
        assert r[k] == seg[i + k];
      }
    } else {
      var m := Min(|text|, 200);
      var p := text[..m];
      assert r == p + "...";
      assert |r| == m + 3;
      assert r[..m] == p;
      assert r[m..] == "...";
    }
  }

  /**
   * A sentence longer than 50 characters (once trimmed) followed by a
   * terminator is returned as the excerpt, trimmed, whatever follows it.
   */
  lemma {:induction false} ExcerptOfLongSentence(sentence: string, terminator: char, rest: string)
    requires forall k :: 0 <= k < |sentence| ==> !IsTerminator(sentence[k])
    requires IsTerminator(terminator)
    requires |Trim(sentence)| > 50
    ensures Excerpt(sentence + [terminator] + rest) == Trim(sentence)
  {
    FirstSegmentStops(sentence, [terminator] + rest);
    assert sentence + [terminator] + rest == sentence + ([terminator] + rest);
  }

  lemma FirstSegmentStops(a: string, b: string)
    requires forall k :: 0 <= k < |a| ==> !IsTerminator(a[k])
    requires b != [] && IsTerminator(b[0])
    ensures FirstSegment(a + b) == a
  {
    assert (a + b)[..|a|] == a;
  }

  /** A text of at most 200 characters whose first sentence is short comes back whole, followed by "...". */
  lemma ExcerptOfShortText(text: string)
    requires |text| <= 200
    requires |Trim(FirstSegment(text))| <= 50
    ensures Excerpt(text) == text + "..."
  {
    assert text[..|text|] == text;
  }
}
