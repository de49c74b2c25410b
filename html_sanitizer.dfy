/**
 * Option 1 of sanitize-strings.ts: `sanitizeHTML` deletes every tag whose name is not on a
 * small allow-list, then every double- or single-quoted ` onClick=` attribute, and
 * `createMarkup` wraps the result for React's `dangerouslySetInnerHTML`.
 */
module HtmlSanitizer {
  import opened Wrappers
  import opened Chars
  import opened Subsequences
  import opened Patterns
  import opened GlobalReplace

  /** `sanitizeHTML(html)`: the tag pass, then the onClick pass on what it left. */
  function SanitizeHTML(html: string): (r: string)
    ensures IsSubsequence(r, html)
    ensures |r| <= |html|
    ensures '<' !in html && !ContainsOnClickText(html) ==> r == html
  {
    var withoutTags := DeleteMatches(AllowListTag, html);
    var r := DeleteMatches(OnClickAttribute, withoutTags);
    SubsequenceTransitive(r, withoutTags, html);
    SubsequenceLength(r, html);
    NoLtMeansNoMatch(AllowListTag, html);
    NoOnClickTextMeansNoAttribute(html);
    r
  }

  /** sanitizeHTML only deletes: every character of its output occurs in its input. */
  lemma SanitizedCharsFromInput(html: string, c: char)
    ensures c in SanitizeHTML(html) ==> c in html
  {
    if c in SanitizeHTML(html) {
      SubsequenceElements(SanitizeHTML(html), html, c);
    }
  }

  /** The object `{ __html: ... }` that `createMarkup` hands to React. */
  datatype Markup = Markup(html: string)

  /** `createMarkup(html)`: the sanitized text, wrapped. */
  function CreateMarkup(html: string): (m: Markup)
    ensures m.html == SanitizeHTML(html)
    ensures IsSubsequence(m.html, html)
  {
    Markup(SanitizeHTML(html))
  }

  // ---------------------------------------------------------------------------------------
  // The tag pass
  // ---------------------------------------------------------------------------------------

  /** The `<` at `i` opens a tag the tag pass would delete, given a later `>`. */
  predicate OpensRemovableTag(s: string, i: nat) {
    i < |s| && s[i] == '<' &&
    var p := TagNameStart(s, i);
    p < |s| && IsWordChar(s[p]) && !StartsWithAllowedTag(s, p)
  }

  /**
   * A tag whose name, after an optional `/`, begins with `b`, `i` or `nobr` is never touched
   * by the tag pass: the lookahead tests a prefix, so `<img>`, `<iframe>` and `<body>` are kept
   * along with `<b>`, `<br/>` and `</b>`. For `</b>`, giving back the `/` does not help the
   * match either: `\b` between `<` and `/` fails.
   */
  lemma AllowedTagKept(s: string, i: nat)
    requires i < |s| && s[i] == '<'
    requires StartsWithAllowedTag(s, TagNameStart(s, i))
    ensures AllowListTagAt(s, i).None?
  {
  }

  /** Whether a name is allowed is decided by its first character unless it begins with `n`. */
  lemma AllowedByFirstChar(s: string, p: nat)
    requires p < |s| && s[p] != 'n'
    ensures StartsWithAllowedTag(s, p) <==> s[p] == 'b' || s[p] == 'i'
  {
    if s[p] == 'b' || s[p] == 'i' {
      assert s[p..p + 1] == [s[p]];
    }
    if StartsWithAt(s, p, "br") {
      assert s[p] == s[p..p + 2][0] == 'b';
    }
  }

  /**
   * The tag pass deletes, at a `<` (or `</`) followed by a word character that does not begin
   * an allowed name, exactly the text through the first `>` after it; any other `<`, and one
   * with no `>` after it, does not start a match.
   */
  lemma AllowListTagSpan(s: string, i: nat)
    requires i < |s|
    ensures AllowListTagAt(s, i).Some? <==> OpensRemovableTag(s, i) && '>' in s[i..]
    ensures AllowListTagAt(s, i).Some? ==>
              var e := AllowListTagAt(s, i).value;
              s[e - 1] == '>' && forall k :: i <= k < e - 1 ==> s[k] != '>'
  {
    if OpensRemovableTag(s, i) && '>' in s[i..] {
      var p := TagNameStart(s, i);
      var g :| i <= g < |s| && s[g] == '>' && s[i..][g - i] == '>';
      assert g >= p by {
        assert s[i] == '<' && s[p] != '>';
      }
      assert FirstIndexIn(s, p, {'>'}).Some?;
    }
  }

  /** The tag pass leaves a text unchanged exactly when no `<` in it opens a removable tag closed later. */
  lemma TagPassUnchangedIff(s: string)
    ensures DeleteMatches(AllowListTag, s) == s <==>
            forall j :: 0 <= j < |s| && OpensRemovableTag(s, j) ==> '>' !in s[j..]
  {
    forall j | 0 <= j < |s|
      ensures MatchAt(AllowListTag, s, j).None? <==> !(OpensRemovableTag(s, j) && '>' in s[j..])
    {
      AllowListTagSpan(s, j);
    }
  }

  // ---------------------------------------------------------------------------------------
  // The onClick pass
  // ---------------------------------------------------------------------------------------

  /** ` onclick=` occurs somewhere in `s`, in any mix of cases. */
  predicate ContainsOnClickText(s: string) {
    exists j :: 0 <= j < |s| && StartsWithIgnoreCaseAt(s, j, OnClickPrefix)
  }

  /**
   * `s[i..e]` is ` onClick=` in any case, a quote, a non-empty value without quotes of either
   * kind, and the same quote again.
   */
  predicate IsQuotedOnClick(s: string, i: nat, e: nat) {
    var q := i + |OnClickPrefix|;
    StartsWithIgnoreCaseAt(s, i, OnClickPrefix) && q + 2 < e <= |s| &&
    IsQuote(s[q]) && s[e - 1] == s[q] &&
    forall k :: q < k < e - 1 ==> !IsQuote(s[k])
  }

  /**
   * The onClick pass deletes exactly a quoted ` onClick=` attribute: mismatched quotes, an
   * empty value, or a value holding the other quote character leave the text alone.
   */
  lemma OnClickSpan(s: string, i: nat, e: nat)
    requires i < |s|
    ensures OnClickAt(s, i) == Some(e) <==> IsQuotedOnClick(s, i, e)
  {
    var q := i + |OnClickPrefix|;
    if IsQuotedOnClick(s, i, e) {
      var f := FirstIndexIn(s, q + 1, {'"', '\''});
      assert f.Some? && f.value <= e - 1 by {
        assert s[e - 1] in {'"', '\''};
      }
      assert f.value == e - 1;
    }
  }

  /** Without ` onclick=` in any case, the onClick pass returns its input. */
  lemma NoOnClickTextMeansNoAttribute(s: string)
    ensures !ContainsOnClickText(s) ==> DeleteMatches(OnClickAttribute, s) == s
  {
    if !ContainsOnClickText(s) {
      forall j | 0 <= j < |s|
        ensures MatchAt(OnClickAttribute, s, j).None?
      {
        assert !StartsWithIgnoreCaseAt(s, j, OnClickPrefix);
      }
    }
  }

  // ---------------------------------------------------------------------------------------
  // The allow-list compared against whole tag names
  // ---------------------------------------------------------------------------------------

  /** sanitizeHTML with the tag pass keeping only tags named exactly `b`, `i`, `nobr` or `br`. */
  function SanitizeHTMLWholeNames(html: string): (r: string)
    ensures IsSubsequence(r, html)
    ensures '<' !in html && !ContainsOnClickText(html) ==> r == html
  {
    var withoutTags := DeleteMatches(WholeNameTag, html);
    var r := DeleteMatches(OnClickAttribute, withoutTags);
    SubsequenceTransitive(r, withoutTags, html);
    NoLtMeansNoMatch(WholeNameTag, html);
    NoOnClickTextMeansNoAttribute(html);
    r
  }

  /** The `<` at `i` opens a tag whose name is not, in full, one of the allowed names. */
  predicate OpensDisallowedTag(s: string, i: nat) {
    i < |s| && s[i] == '<' &&
    var p := TagNameStart(s, i);
    p < |s| && IsWordChar(s[p]) && !IsAllowedTagName(s, p)
  }

  /**
   * The corrected tag pass deletes, at a `<` (or `</`) whose name is not one of `b`, `i`, `nobr`,
   * `br` in full, exactly the text through the first `>` after it, and keeps every tag whose
   * name is: `<img>` and `<body>` go, `<b>`, `</b>` and `<br/>` stay.
   */
  lemma WholeNameTagSpan(s: string, i: nat)
    requires i < |s|
    ensures WholeNameTagAt(s, i).Some? <==> OpensDisallowedTag(s, i) && '>' in s[i..]
    ensures WholeNameTagAt(s, i).Some? ==>
              var e := WholeNameTagAt(s, i).value;
              s[e - 1] == '>' && forall k :: i <= k < e - 1 ==> s[k] != '>'
  {
    if s[i] == '<' {
      var p := TagNameStart(s, i);
      if p == i + 2 {
        assert !IsWordBoundary(s, i + 1);
        assert WholeNameTagRestAt(s, i + 1).None?;
      }
      assert WholeNameTagAt(s, i) == WholeNameTagRestAt(s, p);
      if WholeNameTagRestAt(s, p).Some? {
        var e := WholeNameTagRestAt(s, p).value;
        assert s[i..][e - 1 - i] == '>';
        assert IsWordBoundary(s, p) && !IsWordChar(s[p - 1]);
      }
    }
    if OpensDisallowedTag(s, i) && '>' in s[i..] {
      var p := TagNameStart(s, i);
      var g :| i <= g < |s| && s[g] == '>' && s[i..][g - i] == '>';
      assert g >= p by {
        assert s[i] == '<' && s[p] != '>';
      }
      assert FirstIndexIn(s, p, {'>'}).Some?;
    }
  }
}
