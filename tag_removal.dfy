/**
 * Option 2 of sanitize-strings.ts: `removeTags` deletes every match of tagOrComment (comments,
 * `script` and `style` elements with their content, and any other tag) again and again
 * until a pass changes nothing, then writes every remaining `<` as `&lt;`.
 */
module TagRemoval {
  import opened Wrappers
  import opened Chars
  import opened Subsequences
  import opened Patterns
  import opened GlobalReplace

  /** What `s.replace(/</g, '&lt;')` puts in place of one character. */
  function EscapeChar(c: char): (r: string)
    ensures '<' !in r
  {
    if c == '<' then "&lt;" else [c]
  }

  /** `s.replace(/</g, '&lt;')`. */
  function EscapeLt(s: string): (r: string)
    ensures '<' !in r
    ensures '<' !in s ==> r == s
  {
    if s == [] then []
    else
      assert s == [s[0]] + s[1..];
      EscapeChar(s[0]) + EscapeLt(s[1..])
  }

  /** Each `<` grows by three characters; every other character is kept as it is. */
  lemma {:induction false} EscapeLtLength(s: string)
    ensures |EscapeLt(s)| == |s| + 3 * multiset(s)['<']
  {
    if s != [] {
      EscapeLtLength(s[1..]);
      assert s == [s[0]] + s[1..];
      assert multiset(s) == multiset([s[0]]) + multiset(s[1..]);
    }
  }

  /** Escaping works character by character, so it distributes over concatenation. */
  lemma {:induction false} EscapeLtAppend(a: string, b: string)
    ensures EscapeLt(a + b) == EscapeLt(a) + EscapeLt(b)
    decreases |a|
  {
    if a == [] {
      assert a + b == b;
    } else {
      var head := EscapeChar(a[0]);
      assert (a + b)[0] == a[0] && (a + b)[1..] == a[1..] + b;
      EscapeLtAppend(a[1..], b);
      assert head + (EscapeLt(a[1..]) + EscapeLt(b)) == (head + EscapeLt(a[1..])) + EscapeLt(b);
    }
  }

  /** Each `<` becomes the entity `&lt;`, and the text on either side is escaped on its own. */
  lemma EscapeLtOfLt(a: string, b: string)
    ensures EscapeLt(a + "<" + b) == EscapeLt(a) + "&lt;" + EscapeLt(b)
  {
    EscapeLtAppend(a + "<", b);
    EscapeLtAppend(a, "<");
    assert EscapeLt("<") == EscapeChar('<') + EscapeLt([]) by {
      assert "<" == ['<'] + [];
    }
  }

  /**
   * The `do … while` loop of removeTags as a function: one global delete pass, repeated
   * until it returns its input. Every pass that changes the text shortens it.
   */
  function StripToFixpoint(html: string): (r: string)
    ensures NoMatchFrom(TagOrComment, r, 0)
    ensures IsSubsequence(r, html)
    decreases |html|
  {
    var next := DeleteMatches(TagOrComment, html);
    if next == html then
      SubsequenceReflexive(html);
      html
    else
      var r := StripToFixpoint(next);
      SubsequenceTransitive(r, next, html);
      r
  }

  /** What `removeTags(html)` returns. */
  function TagsRemoved(html: string): (r: string)
    ensures '<' !in r
    ensures '<' !in html ==> r == html
  {
    NoLtIsFixpoint(html);
    EscapeLt(StripToFixpoint(html))
  }

  /** Every tagOrComment match starts with `<`, so text without `<` is already a fixpoint. */
  lemma NoLtIsFixpoint(s: string)
    ensures '<' !in s ==> StripToFixpoint(s) == s
  {
    NoLtMeansNoMatch(TagOrComment, s);
  }

  /** `removeTags`: the loop reassigns the text until a pass leaves it as it was, then escapes `<`. */
  method RemoveTags(html: string) returns (r: string)
    ensures r == TagsRemoved(html)
    ensures '<' !in r
  {
    var oldHtml := html;
    var current := DeleteMatches(TagOrComment, html);
    while current != oldHtml
      invariant current == DeleteMatches(TagOrComment, oldHtml)
      invariant StripToFixpoint(oldHtml) == StripToFixpoint(html)
      decreases |oldHtml|
    {
      oldHtml := current;
      current := DeleteMatches(TagOrComment, current);
    }
    r := EscapeLt(current);
  }

  /** removeTags is idempotent: its output has no `<`, so a second call returns it unchanged. */
  lemma TagsRemovedIdempotent(html: string)
    ensures TagsRemoved(TagsRemoved(html)) == TagsRemoved(html)
  {
  }

  /** Before escaping, removeTags has kept only characters of its input, in their order. */
  lemma StrippedIsSubsequence(html: string)
    ensures IsSubsequence(StripToFixpoint(html), html)
    ensures |StripToFixpoint(html)| <= |html|
  {
    SubsequenceLength(StripToFixpoint(html), html);
  }

  // ---------------------------------------------------------------------------------------
  // The comment alternative, characterised
  // ---------------------------------------------------------------------------------------

  /**
   * The text between `<!--` and the first `>` after it closes a comment: it is empty (`<!-->`),
   * a single dash (`<!--->`), or it ends in two dashes.
   */
  predicate IsCommentBody(b: string) {
    b == "" || b == "-" || (|b| >= 2 && b[|b| - 2] == '-' && b[|b| - 1] == '-')
  }

  /** Reference definition of `(?:-*[^->])*--+>` at `k`: end at the first `>`, which `--` precedes. */
  function ClosedByDashesAt(s: string, k: nat): Option<nat>
    requires k <= |s|
  {
    match FirstIndexIn(s, k, {'>'})
    case Some(g) => if g >= k + 2 && s[g - 2] == '-' && s[g - 1] == '-' then Some(g + 1) else None
    case None => None
  }

  /** Skipping characters that are not `>` does not move the first `>`. */
  lemma FirstGtAfterSkip(s: string, k: nat, m: nat)
    requires k <= m <= |s|
    requires forall j :: k <= j < m ==> s[j] != '>'
    ensures FirstIndexIn(s, k, {'>'}) == FirstIndexIn(s, m, {'>'})
  {
    var a := FirstIndexIn(s, k, {'>'});
    var b := FirstIndexIn(s, m, {'>'});
    if a.Some? {
      assert a.value >= m;
      assert b.Some? && b.value == a.value;
    } else {
      assert b.None?;
    }
  }

  /** Consuming one `-*[^->]` unit does not change where the reference definition ends. */
  lemma ClosedByDashesStep(s: string, k: nat, d: nat)
    requires k <= d < |s| && d == SkipDashes(s, k) && s[d] != '>'
    ensures ClosedByDashesAt(s, k) == ClosedByDashesAt(s, d + 1)
  {
    FirstGtAfterSkip(s, k, d + 1);
    var g := FirstIndexIn(s, k, {'>'});
    if g.Some? {
      assert s[d] != '-' && g.value >= d + 1;
      assert (g.value >= k + 2 && s[g.value - 2] == '-' && s[g.value - 1] == '-') <==>
             (g.value >= d + 3 && s[g.value - 2] == '-' && s[g.value - 1] == '-');
    }
  }

  /** The backtracking star of the comment alternative agrees with the reference definition. */
  lemma {:induction false} CommentRunSpan(s: string, k: nat)
    requires k <= |s|
    ensures CommentRunAt(s, k) == ClosedByDashesAt(s, k)
    decreases |s| - k
  {
    var d := SkipDashes(s, k);
    if d < |s| && s[d] != '>' {
      CommentRunStep(s, k, d);
      CommentRunSpan(s, d + 1);
      ClosedByDashesStep(s, k, d);
    } else {
      CommentRunWithoutUnit(s, k, d);
    }
  }

  /** Where a `-*[^->]` unit starts at `k`, `--+>` cannot, so the star must take the unit. */
  lemma CommentRunStep(s: string, k: nat, d: nat)
    requires k <= d < |s| && d == SkipDashes(s, k) && s[d] != '>'
    ensures CommentRunAt(s, k) == CommentRunAt(s, d + 1)
  {
    assert CommentUnitAt(s, k) == Some(d + 1);
    assert DashesThenCloseAt(s, k).None?;
  }

  /** Where no `-*[^->]` unit starts at `k`, only `--+>` can follow, and it must close at once. */
  lemma CommentRunWithoutUnit(s: string, k: nat, d: nat)
    requires k <= d <= |s| && d == SkipDashes(s, k) && (d == |s| || s[d] == '>')
    ensures CommentRunAt(s, k) == ClosedByDashesAt(s, k)
  {
    assert CommentUnitAt(s, k).None?;
    if d < |s| {
      assert FirstIndexIn(s, k, {'>'}) == Some(d);
    } else {
      assert FirstIndexIn(s, k, {'>'}).None?;
    }
  }

  /** With the first `>` at `g`, the two comment alternatives together close there exactly for a comment body. */
  lemma CommentBodyAt(s: string, c: nat, g: nat)
    requires c <= g < |s| && FirstIndexIn(s, c, {'>'}) == Some(g)
    ensures ClosedByDashesAt(s, c).OrElse(OptionalDashThenCloseAt(s, c)) ==
            if IsCommentBody(s[c..g]) then Some(g + 1) else None
  {
    var b := s[c..g];
    if g >= c + 2 {
      assert b[|b| - 2] == s[g - 2] && b[|b| - 1] == s[g - 1];
      assert s[c + 1] != '>';
    } else if g == c + 1 {
      assert b == [s[c]];
    } else {
      assert b == "";
    }
  }

  /**
   * A comment match runs from `<!--` to the first `>` after it, and only when the text in
   * between is a comment body; `<!-- a > b -->` is therefore not a comment match at all.
   */
  lemma CommentSpan(s: string, i: nat)
    requires i < |s|
    ensures CommentAt(s, i) ==
              if !StartsWithAt(s, i, "<!--") then None
              else match FirstIndexIn(s, i + 4, {'>'})
                case Some(g) => if IsCommentBody(s[i + 4..g]) then Some(g + 1) else None
                case None => None
  {
    if StartsWithAt(s, i, "<!--") {
      var c := i + 4;
      CommentRunSpan(s, c);
      match FirstIndexIn(s, c, {'>'})
      case Some(g) =>
        CommentBodyAt(s, c, g);
      case None =>
        assert OptionalDashThenCloseAt(s, c).None?;
    }
  }

  // ---------------------------------------------------------------------------------------
  // The element and tag alternatives, characterised
  // ---------------------------------------------------------------------------------------

  /** One iteration of TAGBODY: a character that is neither a quote nor `>`, or a quoted string with its closing quote. */
  predicate IsTagBodyUnit(u: string) {
    (|u| == 1 && u[0] != '>' && !IsQuote(u[0])) ||
    (|u| >= 2 && IsQuote(u[0]) && u[|u| - 1] == u[0] && u[0] !in u[1..|u| - 1])
  }

  /** Reference definition of TAGBODY, `(?:[^"'>]|"[^"]*"|'[^']*')*`: text that splits into such units. */
  predicate IsTagBody(b: string)
    decreases |b|, 1
  {
    b == [] || exists n :: 0 < n <= |b| && SplitsIntoTagBody(b, n)
  }

  /** `b` is a unit of `n` characters followed by a tag body. */
  predicate SplitsIntoTagBody(b: string, n: nat)
    decreases |b|, 0
  {
    0 < n <= |b| && IsTagBodyUnit(b[..n]) && IsTagBody(b[n..])
  }

  /** A unit followed by a tag body is a tag body. */
  lemma TagBodyPrepend(s: string, k: nat, m: nat, g: nat)
    requires k < m <= g <= |s| && IsTagBodyUnit(s[k..m]) && IsTagBody(s[m..g])
    ensures IsTagBody(s[k..g])
  {
    var b := s[k..g];
    var n := m - k;
    SliceOfSlice(s, k, g, n, n);
    assert SplitsIntoTagBody(b, n);
  }

  /** A quote, text without that quote, and the same quote again form one unit. */
  lemma QuotedUnit(s: string, k: nat, c: nat)
    requires k < c < |s| && IsQuote(s[k]) && FirstIndexIn(s, k + 1, {s[k]}) == Some(c)
    ensures IsTagBodyUnit(s[k..c + 1])
  {
    var u := s[k..c + 1];
    var inner := s[k + 1..c];
    SliceOfSlice(s, k, c + 1, 1, c - k);
    assert u[0] == s[k];
    assert u[|u| - 1] == s[c];
    assert s[c] in {s[k]};
    forall j | 0 <= j < |inner|
      ensures inner[j] != s[k]
    {
      assert inner[j] == s[k + 1 + j];
    }
    assert s[k] !in inner;
  }

  /** What `TagBodyEnd` finds is a tag body followed by `>`. */
  lemma {:induction false} TagBodyEndIsBody(s: string, k: nat)
    requires k <= |s| && TagBodyEnd(s, k).Some?
    ensures IsTagBody(s[k..TagBodyEnd(s, k).value])
    decreases |s| - k
  {
    var g := TagBodyEnd(s, k).value;
    if s[k] == '>' {
      assert s[k..g] == [];
    } else if IsQuote(s[k]) {
      var c := FirstIndexIn(s, k + 1, {s[k]}).value;
      TagBodyEndIsBody(s, c + 1);
      QuotedUnit(s, k, c);
      TagBodyPrepend(s, k, c + 1, g);
    } else {
      TagBodyEndIsBody(s, k + 1);
      assert s[k..k + 1] == [s[k]];
      TagBodyPrepend(s, k, k + 1, g);
    }
  }

  /** The scan for the end of a tag body passes over a whole tag body unit by unit. */
  lemma {:induction false} TagBodyEndAfterBody(s: string, k: nat, q: nat)
    requires k <= q <= |s| && IsTagBody(s[k..q])
    ensures TagBodyEnd(s, k) == TagBodyEnd(s, q)
    decreases q - k
  {
    if k < q {
      var b := s[k..q];
      var n: nat :| 0 < n <= |b| && SplitsIntoTagBody(b, n);
      SliceOfSlice(s, k, q, n, n);
      TagBodyEndAfterBody(s, k + n, q);
      var u := b[..n];
      forall j | 0 <= j < n
        ensures u[j] == s[k + j]
      {
        assert u[j] == b[j];
      }
      if n >= 2 {
        var c := s[k];
        assert s[k + n - 1] == u[n - 1] == c;
        var inner := u[1..n - 1];
        forall j | k + 1 <= j < k + n - 1
          ensures s[j] !in {c}
        {
          assert s[j] == u[j - k] == inner[j - k - 1];
        }
        assert FirstIndexIn(s, k + 1, {c}) == Some(k + n - 1);
      }
    }
  }

  /** A tag body followed by `>` is what `TagBodyEnd` finds: that `>` is the first one outside quotes. */
  lemma BodyGivesTagBodyEnd(s: string, k: nat, g: nat)
    requires k <= g < |s| && IsTagBody(s[k..g]) && s[g] == '>'
    ensures TagBodyEnd(s, k) == Some(g)
  {
    TagBodyEndAfterBody(s, k, g);
  }

  /** Both directions: `TagBodyEnd` gives `g` exactly when a tag body runs from `k` to a `>` at `g`. */
  lemma TagBodyEndSpan(s: string, k: nat, g: nat)
    requires k <= |s|
    ensures TagBodyEnd(s, k) == Some(g) <==> k <= g < |s| && IsTagBody(s[k..g]) && s[g] == '>'
  {
    if TagBodyEnd(s, k) == Some(g) {
      TagBodyEndIsBody(s, k);
    }
    if k <= g < |s| && IsTagBody(s[k..g]) && s[g] == '>' {
      BodyGivesTagBodyEnd(s, k, g);
    }
  }

  /** Characters that are neither quotes nor `>` do not move the end of a tag body. */
  lemma {:induction false} TagBodyEndSkip(s: string, k: nat, m: nat)
    requires k <= m <= |s|
    requires forall j :: k <= j < m ==> s[j] != '>' && !IsQuote(s[j])
    ensures TagBodyEnd(s, k) == TagBodyEnd(s, m)
    decreases m - k
  {
    if k < m {
      TagBodyEndSkip(s, k + 1, m);
    }
  }

  /**
   * A quote that is never closed, reached after a tag body (so any quote before it was
   * closed), leaves the tag body without an end: no tag matches.
   */
  lemma UnclosedQuoteNoEnd(s: string, k: nat, q: nat)
    requires k <= q < |s| && IsTagBody(s[k..q])
    requires IsQuote(s[q]) && FirstIndexIn(s, q + 1, {s[q]}).None?
    ensures TagBodyEnd(s, k).None?
  {
    TagBodyEndAfterBody(s, k, q);
  }

  /**
   * Both directions: a closing tag at `m` is `</`, the name in any case, only whitespace,
   * and `>`, through that `>`.
   */
  lemma ClosingTagSpan(s: string, m: nat, name: string, e: nat)
    requires m <= |s|
    ensures ClosingTagAt(s, m, name) == Some(e) <==>
              m + |name| + 3 <= e <= |s| && s[m] == '<' && s[m + 1] == '/' &&
              StartsWithIgnoreCaseAt(s, m + 2, name) && s[e - 1] == '>' &&
              forall j :: m + 2 + |name| <= j < e - 1 ==> IsJsWhitespace(s[j])
  {
    var n := m + 2 + |name|;
    if m + |name| + 3 <= e <= |s| && s[m] == '<' && s[m + 1] == '/' &&
       StartsWithIgnoreCaseAt(s, m + 2, name) && s[e - 1] == '>' &&
       forall j :: n <= j < e - 1 ==> IsJsWhitespace(s[j])
    {
      assert !IsJsWhitespace('>');
      assert SkipWhitespace(s, n) == e - 1;
    }
  }

  /** No closing tag `</name\s*>` starts at an index from `m` up to, not including, `c`. */
  predicate NoClosingTagIn(s: string, m: nat, c: nat, name: string)
    requires c <= |s|
  {
    forall j :: m <= j < c ==> ClosingTagAt(s, j, name).None?
  }

  /** The lazy `[\s\S]*?` stops at the nearest closing tag: any closing tag with none before it is the one found. */
  lemma {:induction false} FirstClosingTagNearest(s: string, m: nat, name: string, c: nat)
    requires m <= c < |s| && ClosingTagAt(s, c, name).Some? && NoClosingTagIn(s, m, c, name)
    ensures FirstClosingTag(s, m, name) == ClosingTagAt(s, c, name)
    decreases c - m
  {
    if m < c {
      FirstClosingTagNearest(s, m + 1, name, c);
      NoClosingTagFrom(s, m, c, name);
      assert FirstClosingTag(s, m, name) == FirstClosingTag(s, m + 1, name);
    }
  }

  /** Widening the range by one index in front adds one place a closing tag could start. */
  lemma NoClosingTagFrom(s: string, m: nat, c: nat, name: string)
    requires m < c <= |s|
    ensures NoClosingTagIn(s, m, c, name) <==>
            ClosingTagAt(s, m, name).None? && NoClosingTagIn(s, m + 1, c, name)
  {
  }

  /** The lazy search fails exactly when no closing tag starts at or after `m`. */
  lemma {:induction false} FirstClosingTagNone(s: string, m: nat, name: string)
    requires m <= |s|
    ensures FirstClosingTag(s, m, name).None? <==> NoClosingTagIn(s, m, |s|, name)
    decreases |s| - m
  {
    if m < |s| {
      FirstClosingTagNone(s, m + 1, name);
      NoClosingTagFrom(s, m, |s|, name);
      assert FirstClosingTag(s, m, name) ==
             ClosingTagAt(s, m, name).OrElse(FirstClosingTag(s, m + 1, name));
    }
  }

  /** What the lazy search finds is a closing tag with none before it. */
  lemma {:induction false} FirstClosingTagFound(s: string, m: nat, name: string)
    requires m <= |s| && FirstClosingTag(s, m, name).Some?
    ensures exists c :: m <= c < |s| && NoClosingTagIn(s, m, c, name) &&
                        ClosingTagAt(s, c, name) == FirstClosingTag(s, m, name)
    decreases |s| - m
  {
    if ClosingTagAt(s, m, name).Some? {
      assert NoClosingTagIn(s, m, m, name);
    } else {
      FirstClosingTagFound(s, m + 1, name);
      var c :| m + 1 <= c < |s| && NoClosingTagIn(s, m + 1, c, name) &&
               ClosingTagAt(s, c, name) == FirstClosingTag(s, m + 1, name);
      NoClosingTagFrom(s, m, c, name);
    }
  }

  /**
   * Both directions: the regular-tag alternative matches `<` or `</`, a letter, a tag body and
   * `>`, through that first `>` outside quotes. The `/?` never has to give back its `/`,
   * because `/` is not a letter.
   */
  lemma RegularTagSpan(s: string, i: nat, e: nat)
    requires i < |s|
    ensures RegularTagAt(s, i) == Some(e) <==>
              var p := TagNameStart(s, i);
              p + 2 <= e <= |s| && IsAsciiLetter(s[p]) && IsTagBody(s[p + 1..e - 1]) && s[e - 1] == '>'
  {
    var p := TagNameStart(s, i);
    if p < |s| && IsAsciiLetter(s[p]) && e >= 1 {
      TagBodyEndSpan(s, p + 1, e - 1);
    }
  }

  /** `<name\b` at `i`, the name compared under the `i` flag. */
  predicate OpensRawText(s: string, i: nat, name: string) {
    StartsWithIgnoreCaseAt(s, i + 1, name) && IsWordBoundary(s, i + 1 + |name|)
  }

  /** The opening tag `<name\b TAGBODY>` at `i`, with its `>` at `o`. */
  predicate IsRawTextOpening(s: string, i: nat, name: string, o: nat) {
    OpensRawText(s, i, name) && i + 1 + |name| <= o < |s| &&
    IsTagBody(s[i + 1 + |name|..o]) && s[o] == '>'
  }

  /**
   * A `script` or `style` element runs from its opening tag, ended by the first `>` outside
   * quotes, to the nearest closing tag after it; without such an opening tag it does not match.
   */
  lemma RawTextElementSpan(s: string, i: nat, name: string)
    requires i < |s|
    ensures forall o: nat :: IsRawTextOpening(s, i, name, o) ==>
              RawTextElementAt(s, i, name) == FirstClosingTag(s, o + 1, name)
    ensures RawTextElementAt(s, i, name).Some? ==>
              exists o: nat :: IsRawTextOpening(s, i, name, o) &&
                          RawTextElementAt(s, i, name) == FirstClosingTag(s, o + 1, name)
  {
    var n := i + 1 + |name|;
    if OpensRawText(s, i, name) {
      forall o: nat | IsRawTextOpening(s, i, name, o)
        ensures TagBodyEnd(s, n) == Some(o)
      {
        TagBodyEndSpan(s, n, o);
      }
      if TagBodyEnd(s, n).Some? {
        var o := TagBodyEnd(s, n).value;
        TagBodyEndSpan(s, n, o);
        assert IsRawTextOpening(s, i, name, o);
      }
    }
  }

  /**
   * Read as a regular tag, an opening `<script…>` or `<style…>` ends at the same `>` as the
   * raw-text opening tag, because the name's letters are ordinary tag-body characters.
   */
  lemma {:induction false} RawTextOpeningAsRegularTag(s: string, i: nat, name: string)
    requires i < |s| && |name| >= 1 && OpensRawText(s, i, name)
    requires forall k :: 0 <= k < |name| ==> IsAsciiLetter(name[k])
    ensures forall o: nat :: IsRawTextOpening(s, i, name, o) ==> RegularTagAt(s, i) == Some(o + 1)
    ensures (forall o: nat :: !IsRawTextOpening(s, i, name, o)) ==> RegularTagAt(s, i).None?
  {
    var n := i + 1 + |name|;
    forall j | i + 1 <= j < n
      ensures IsAsciiLetter(s[j])
    {
      assert EqualsIgnoreCase(s[i + 1 + (j - i - 1)], name[j - i - 1]);
    }
    assert TagNameStart(s, i) == i + 1;
    TagBodyEndSkip(s, i + 2, n);
    forall o: nat | IsRawTextOpening(s, i, name, o)
      ensures RegularTagAt(s, i) == Some(o + 1)
    {
      TagBodyEndSpan(s, n, o);
    }
    if TagBodyEnd(s, n).Some? {
      var o := TagBodyEnd(s, n).value;
      TagBodyEndSpan(s, n, o);
      assert IsRawTextOpening(s, i, name, o);
    }
  }

  /** `<script` and `<style` cannot both open at one index: their second letters differ. */
  lemma ScriptExcludesStyle(s: string, i: nat)
    requires OpensRawText(s, i, "script")
    ensures !OpensRawText(s, i, "style")
  {
    assert EqualsIgnoreCase(s[i + 2], "script"[1]);
    assert ToUpperAscii(s[i + 2]) == 'C' != ToUpperAscii("style"[1]);
  }

  /**
   * The last three alternatives of tagOrComment, tried in order. A `script` or `style` opening
   * tag takes its content through the nearest closing tag; with no closing tag it falls back
   * to the regular-tag alternative and only the opening tag matches. Any other text after `<`
   * is read as a regular tag.
   */
  lemma ElementOrTagSpan(s: string, i: nat)
    requires i < |s|
    ensures !OpensRawText(s, i, "script") && !OpensRawText(s, i, "style") ==>
              ElementOrTagAt(s, i) == RegularTagAt(s, i)
    ensures forall o: nat :: IsRawTextOpening(s, i, "script", o) ==>
              ElementOrTagAt(s, i) == FirstClosingTag(s, o + 1, "script").OrElse(Some(o + 1))
    ensures forall o: nat :: IsRawTextOpening(s, i, "style", o) ==>
              ElementOrTagAt(s, i) == FirstClosingTag(s, o + 1, "style").OrElse(Some(o + 1))
    ensures (OpensRawText(s, i, "script") || OpensRawText(s, i, "style")) &&
            (forall o: nat :: !IsRawTextOpening(s, i, "script", o) && !IsRawTextOpening(s, i, "style", o)) ==>
              ElementOrTagAt(s, i).None?
  {
    RawTextElementSpan(s, i, "script");
    RawTextElementSpan(s, i, "style");
    if OpensRawText(s, i, "script") {
      ScriptExcludesStyle(s, i);
      RawTextOpeningAsRegularTag(s, i, "script");
    } else if OpensRawText(s, i, "style") {
      RawTextOpeningAsRegularTag(s, i, "style");
    }
  }
}
