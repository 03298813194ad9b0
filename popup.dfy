/** The two string helpers of the extension's popup: file names and the preview pane. */
module Popup {
  import opened Util

  // ---------------------------------------------------------------------
  // File names
  // ---------------------------------------------------------------------

  predicate IsAsciiAlnum(c: char)
  {
    IsUpperAscii(c) || IsLowerAscii(c) || IsDigit(c)
  }

  /** `replace(/[^a-z0-9]/gi, '_')`: every character but an ASCII letter or digit becomes '_'. */
  function ReplaceNonAlnum(s: string): (r: string)
    ensures |r| == |s|
    ensures forall k :: 0 <= k < |s| ==> r[k] == (if IsAsciiAlnum(s[k]) then s[k] else '_')
  {
    seq(|s|, k requires 0 <= k < |s| => if IsAsciiAlnum(s[k]) then s[k] else '_')
  }

  /**
   * `sanitizeFilename`: the same number of characters, each one a lower-case
   * ASCII letter, a digit or '_'; letters and digits stay in place, lower-cased,
   * and every other character becomes '_'.
   */
  function SanitizeFilename(name: string): (r: string)
    ensures |r| == |name|
    ensures forall k :: 0 <= k < |r| ==> IsLowerAscii(r[k]) || IsDigit(r[k]) || r[k] == '_'
    ensures forall k :: 0 <= k < |name| ==>
      r[k] == (if IsAsciiAlnum(name[k]) then LowerChar(name[k]) else '_')
  {
    Lower(ReplaceNonAlnum(name))
  }

  /** A sanitized name is left as it is by a second sanitizing. */
  lemma SanitizeFilenameIdempotent(name: string)
    ensures SanitizeFilename(SanitizeFilename(name)) == SanitizeFilename(name)
  {
    var r := SanitizeFilename(name);
    forall k | 0 <= k < |r|
      ensures SanitizeFilename(r)[k] == r[k]
    {
      assert IsLowerAscii(r[k]) || IsDigit(r[k]) || r[k] == '_';
    }
  }

  /** Exactly the names made of lower-case ASCII letters, digits and '_' are their own sanitized form. */
  lemma SanitizeFilenameFixed(name: string)
    ensures SanitizeFilename(name) == name <==>
      forall k :: 0 <= k < |name| ==> IsLowerAscii(name[k]) || IsDigit(name[k]) || name[k] == '_'
  {
    if forall k :: 0 <= k < |name| ==> IsLowerAscii(name[k]) || IsDigit(name[k]) || name[k] == '_' {
      forall k | 0 <= k < |name|
        ensures SanitizeFilename(name)[k] == name[k]
      {
      }
    }
  }

  // ---------------------------------------------------------------------
  // Preview
  // ---------------------------------------------------------------------

  /** The fields of an extraction result that the preview reads; a missing field is null. */
  datatype PreviewData = PreviewData(
    title: JsStr,
    url: JsStr,
    wordCount: Option<nat>,
    textContent: JsStr,
    content: JsStr)

  const MaxPreviewLength: nat := 500

  /** `data.textContent || data.content || ''`. */
  function PreviewSource(d: PreviewData): (r: string)
    ensures d.textContent.Str? && d.textContent.s != "" ==> r == d.textContent.s
    ensures (d.textContent.Null? || d.textContent.s == "") && d.content.Str? && d.content.s != "" ==> r == d.content.s
    ensures (d.textContent.Null? || d.textContent.s == "") && (d.content.Null? || d.content.s == "") ==> r == ""
  {
    OrElse(Or(d.textContent, d.content), "")
  }

  /**
   * The preview text: the source text itself when it has at most 500
   * characters, otherwise its first 500 characters followed by '...'.
   */
  function PreviewText(d: PreviewData): (r: string)
    ensures |PreviewSource(d)| <= MaxPreviewLength ==> r == PreviewSource(d)
    ensures |PreviewSource(d)| > MaxPreviewLength ==>
      |r| == MaxPreviewLength + 3 && r[..MaxPreviewLength] == PreviewSource(d)[..MaxPreviewLength] &&
      r[MaxPreviewLength..] == "..."
    ensures |r| <= MaxPreviewLength + 3
  {
    var content := PreviewSource(d);
    if |content| > MaxPreviewLength then content[..MaxPreviewLength] + "..." else content
  }

  /** `s.replace(/\n/g, '<br>')`. */
  function NewlinesToBreaks(s: string): (r: string)
    ensures '\n' !in r
    ensures '\n' !in s ==> r == s
  {
    if s == [] then ""
    else (if s[0] == '\n' then "<br>" else [s[0]]) + NewlinesToBreaks(s[1..])
  }

  lemma {:induction false} NewlinesToBreaksConcat(a: string, b: string)
    ensures NewlinesToBreaks(a + b) == NewlinesToBreaks(a) + NewlinesToBreaks(b)
  {
    if a == [] {
      assert a + b == b;
    } else {
      assert (a + b)[0] == a[0];
      assert (a + b)[1..] == a[1..] + b;
      NewlinesToBreaksConcat(a[1..], b);
      var head := if a[0] == '\n' then "<br>" else [a[0]];
      ConcatAssoc(head, NewlinesToBreaks(a[1..]), NewlinesToBreaks(b));
    }
  }

  /** Replacing every newline by '<br>' is splitting on newlines and joining with '<br>'. */
  lemma {:induction false} NewlinesToBreaksIsSplitJoin(s: string)
    ensures NewlinesToBreaks(s) == Join(Split(s, '\n'), "<br>")
    decreases |s|
  {
    if '\n' in s {
      var k := IndexOf(s, '\n');
      var rest := s[k + 1..];
      assert s == s[..k] + ("\n" + rest);
      NewlinesToBreaksConcat(s[..k], "\n" + rest);
      NewlinesToBreaksConcat("\n", rest);
      assert NewlinesToBreaks("\n") == "<br>";
      NewlinesToBreaksIsSplitJoin(rest);
      assert Split(s, '\n') == [s[..k]] + Split(rest, '\n');
      JoinCons(s[..k], Split(rest, '\n'), "<br>");
      assert NewlinesToBreaks(s[..k]) == s[..k];
      ConcatAssoc(s[..k], "<br>", NewlinesToBreaks(rest));
    }
  }

  const Indent := "            "
  const InnerIndent := "                "

  /** `data.title || 'Untitled'`. */
  function ShownTitle(d: PreviewData): string
  {
    OrElse(d.title, "Untitled")
  }

  /** `data.url || 'Unknown'`. */
  function ShownUrl(d: PreviewData): string
  {
    OrElse(d.url, "Unknown")
  }

  /** `data.wordCount || 0`, printed in decimal: a missing count shows as '0'. */
  function ShownWordCount(d: PreviewData): (r: string)
    ensures d.wordCount.None? ==> r == "0"
    ensures d.wordCount.Some? ==> r == NatToString(d.wordCount.value)
  {
    NatToString(d.wordCount.GetOr(0))
  }

  /** `formatPreviewContent`: the HTML of the preview pane. */
  function FormatPreviewContent(d: PreviewData): string
  {
    "\n" + Indent + "<div style=\"margin-bottom: 10px;\">\n" +
    InnerIndent + "<strong>Title:</strong> " + ShownTitle(d) + "\n" +
    Indent + "</div>\n" +
    Indent + "<div style=\"margin-bottom: 10px;\">\n" +
    InnerIndent + "<strong>URL:</strong> " + ShownUrl(d) + "\n" +
    Indent + "</div>\n" +
    Indent + "<div style=\"margin-bottom: 10px;\">\n" +
    InnerIndent + "<strong>Word Count:</strong> " + ShownWordCount(d) + "\n" +
    Indent + "</div>\n" +
    Indent + "<div>\n" +
    InnerIndent + "<strong>Content Preview:</strong><br>\n" +
    InnerIndent + NewlinesToBreaks(PreviewText(d)) + "\n" +
    Indent + "</div>\n" +
    "        "
  }

  /** The shown title and url fall back to 'Untitled' and 'Unknown' exactly when they are missing or empty. */
  lemma ShownDefaults(d: PreviewData)
    ensures ShownTitle(d) == (if d.title.Str? && d.title.s != "" then d.title.s else "Untitled")
    ensures ShownUrl(d) == (if d.url.Str? && d.url.s != "" then d.url.s else "Unknown")
    ensures ShownWordCount(PreviewData(d.title, d.url, None, d.textContent, d.content)) == "0"
  {
  }
}
