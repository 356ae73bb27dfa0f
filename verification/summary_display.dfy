/** The pure text logic of the summary detail view: word truncation, the
    "Read More" toggle, and the share and PDF texts with their fallbacks. */
module SummaryDisplay {
  import opened Outcomes
  import opened JsString

  /** Words shown before a text is truncated. */
  const MaxWordLimit := 50
  const Ellipsis := "..."

  /** The text around the cut: the first `limit` pieces, the space after them, and the
      remaining pieces. */
  lemma TextAroundCut(text: string, limit: nat)
    requires 1 <= limit < |Split(text, ' ')|
    ensures var words := Split(text, ' ');
      text == Join(words[..limit], " ") + " " + Join(words[limit..], " ")
  {
    var words := Split(text, ' ');
    JoinSplit(text, ' ');
    assert words == words[..limit] + words[limit..];
    JoinAppend(words[..limit], words[limit..], " ");
  }

  /** `truncateText`: at most `limit` space-separated pieces, followed by an ellipsis
      when anything was cut; with a positive limit the text comes back unchanged
      exactly when nothing was cut. */
  function TruncateText(text: string, limit: nat): (r: string)
    ensures |Split(text, ' ')| <= limit ==> r == text
    ensures |Split(text, ' ')| > limit ==>
              |r| >= |Ellipsis| && r[|r| - |Ellipsis|..] == Ellipsis
    ensures limit >= 1 ==> (r == text <==> |Split(text, ' ')| <= limit)
  {
    var words := Split(text, ' ');
    if |words| > limit then
      var kept := Join(words[..limit], " ");
      var r := kept + Ellipsis;
      assert limit >= 1 ==> r != text by {
        if limit >= 1 {
          TextAroundCut(text, limit);
          assert r[|kept|] == '.' && text[|kept|] == ' ';
        }
      }
      r
    else text
  }

  /** When text is cut, what precedes the ellipsis is a proper prefix of the text that
      ends right before a space, and it consists of exactly the first `limit` pieces. */
  lemma TruncatedIsPrefix(text: string, limit: nat)
    requires limit >= 1 && |Split(text, ' ')| > limit
    ensures var r := TruncateText(text, limit);
      var kept := r[..|r| - |Ellipsis|];
      && |kept| < |text| && text[..|kept|] == kept && text[|kept|] == ' '
      && Split(kept, ' ') == Split(text, ' ')[..limit]
  {
    var words := Split(text, ' ');
    var head := words[..limit];
    var kept := Join(head, " ");
    TextAroundCut(text, limit);
    var r := TruncateText(text, limit);
    assert r == kept + Ellipsis;
    assert r[..|r| - |Ellipsis|] == kept;
    assert text[..|kept|] == kept;
    SplitJoin(head, ' ');
  }

  /** Splitting is on the space character alone: text is cut exactly when it holds at
      least `limit` spaces, wherever they stand, so runs of spaces count once per space
      and newlines or tabs never count. */
  lemma TruncatesExactlyOnSpaces(text: string, limit: nat)
    requires limit >= 1
    ensures TruncateText(text, limit) != text <==> Occurrences(text, ' ') >= limit
  {
  }

  /** Whether the "Read More" / "Read Less" toggle is shown under a text: exactly when
      the text holds at least 50 space characters. */
  function ShowReadMore(text: string): (b: bool)
    ensures b <==> Occurrences(text, ' ') >= MaxWordLimit
  {
    |Split(text, ' ')| > MaxWordLimit
  }

  /** The toggle is offered exactly when the collapsed view differs from the full text. */
  lemma ReadMoreExactlyWhenTruncated(text: string)
    ensures ShowReadMore(text) <==> TruncateText(text, MaxWordLimit) != text
  {
  }

  const ShareIntro := "Check out this summary:\n\nURL: "
  const ShareSummaryLabel := "\n\nSummary: "
  const NoUrl := "No URL"
  const NoSummary := "No summary available."

  /** The message shared to other platforms (before URL encoding); a missing or empty
      URL or summary is replaced by its placeholder. */
  function ShareText(url: Option<string>, summary: Option<string>): (r: string)
    ensures Truthy(url) && Truthy(summary) ==>
              r == ShareIntro + url.value + ShareSummaryLabel + summary.value
    ensures !Truthy(url) && Truthy(summary) ==>
              r == ShareIntro + NoUrl + ShareSummaryLabel + summary.value
    ensures Truthy(url) && !Truthy(summary) ==>
              r == ShareIntro + url.value + ShareSummaryLabel + NoSummary
    ensures !Truthy(url) && !Truthy(summary) ==>
              r == ShareIntro + NoUrl + ShareSummaryLabel + NoSummary
  {
    ShareIntro + OrElse(url, NoUrl) + ShareSummaryLabel + OrElse(summary, NoSummary)
  }

  /** Index of the first line break at or after `i`, or `|t|` when there is none. */
  function LineEnd(t: string, i: nat): nat
    decreases |t| - i
  {
    if i >= |t| || t[i] == '\n' then i else LineEnd(t, i + 1)
  }

  lemma {:induction false} LineEndAt(t: string, i: nat, j: nat)
    requires i <= j < |t| && t[j] == '\n'
    requires forall k :: i <= k < j ==> t[k] != '\n'
    ensures LineEnd(t, i) == j
    decreases j - i
  {
    if i < j {
      LineEndAt(t, i + 1, j);
    }
  }

  /** The share template can be read back from its two filled-in slots when the URL slot
      holds no line break: that slot ends at the first line break after the introduction. */
  lemma ShareSlotsReadBack(u1: string, s1: string, u2: string, s2: string)
    requires '\n' !in u1 && '\n' !in u2
    requires ShareIntro + u1 + ShareSummaryLabel + s1 == ShareIntro + u2 + ShareSummaryLabel + s2
    ensures u1 == u2 && s1 == s2
  {
    var t := ShareIntro + u1 + ShareSummaryLabel + s1;
    var t2 := ShareIntro + u2 + ShareSummaryLabel + s2;
    var p := |ShareIntro|;
    assert t[p + |u1|] == '\n';
    LineEndAt(t, p, p + |u1|);
    assert t2[p + |u2|] == '\n';
    LineEndAt(t2, p, p + |u2|);
    assert |u1| == |u2|;
    assert u1 == t[p..p + |u1|] == t2[p..p + |u2|] == u2;
    var q := p + |u1| + |ShareSummaryLabel|;
    assert s1 == t[q..] == t2[q..] == s2;
  }

  /** Equal share texts come from the same URL and summary strings after the `||`
      fallbacks, provided the filled-in URLs hold no line break. */
  lemma ShareTextReadsBack(u1: Option<string>, s1: Option<string>, u2: Option<string>, s2: Option<string>)
    requires '\n' !in OrElse(u1, NoUrl) && '\n' !in OrElse(u2, NoUrl)
    requires ShareText(u1, s1) == ShareText(u2, s2)
    ensures OrElse(u1, NoUrl) == OrElse(u2, NoUrl)
    ensures OrElse(s1, NoSummary) == OrElse(s2, NoSummary)
  {
    ShareSlotsReadBack(OrElse(u1, NoUrl), OrElse(s1, NoSummary), OrElse(u2, NoUrl), OrElse(s2, NoSummary));
  }

  /** The fallbacks cannot be told apart from their own text: a missing or empty URL
      shares exactly like the literal URL "No URL", and likewise for the summary. */
  lemma ShareFallbacksAmbiguous(u: Option<string>, s: Option<string>)
    ensures ShareText(None, s) == ShareText(Some(NoUrl), s) == ShareText(Some(""), s)
    ensures ShareText(u, None) == ShareText(u, Some(NoSummary)) == ShareText(u, Some(""))
  {
  }

  const NoUrlAvailable := "No URL available."
  const NoContent := "No content available."

  /** The labels that open the three texts of the PDF report, in order. */
  const PdfLabels: seq<string> := ["URL: ", "Website Content: ", "Summary: "]

  /** The three texts laid out in the PDF report, in order: each is its label followed
      by the field, or by the field's placeholder when the field is missing or empty, so
      no text is ever a bare label. */
  function PdfTexts(url: Option<string>, content: Option<string>, summary: Option<string>): (r: seq<string>)
    ensures |r| == 3
    ensures forall i :: 0 <= i < 3 ==> PdfLabels[i] < r[i]
    ensures r[0][|PdfLabels[0]|..] == if Truthy(url) then url.value else NoUrlAvailable
    ensures r[1][|PdfLabels[1]|..] == if Truthy(content) then content.value else NoContent
    ensures r[2][|PdfLabels[2]|..] == if Truthy(summary) then summary.value else NoSummary
  {
    var u := OrElse(url, NoUrlAvailable);
    var c := OrElse(content, NoContent);
    var s := OrElse(summary, NoSummary);
    var r := [PdfLabels[0] + u, PdfLabels[1] + c, PdfLabels[2] + s];
    assert r[0][|PdfLabels[0]|..] == u;
    assert r[1][|PdfLabels[1]|..] == c;
    assert r[2][|PdfLabels[2]|..] == s;
    r
  }
}
