/**
 * The three regular expressions of sanitize-strings.ts, each hand-coded as a matcher
 * `XAt(s, i)` that tries the expression at index `i` of `s` the way a JavaScript regex
 * engine does (alternatives in order, greedy or lazy quantifiers, backtracking) and gives
 * the index just past the match, or `None` when the expression does not match at `i`.
 */
module Patterns {
  import opened Wrappers
  import opened Chars

  /** The regular expressions whose matches the sanitizers replace with the empty string. */
  datatype Pattern =
    | AllowListTag      // tagRegex of sanitizeHTML
    | OnClickAttribute  // onClickRegex of sanitizeHTML
    | TagOrComment      // tagOrComment of removeTags
    | WholeNameTag      // tagRegex with the allow-list compared against whole names

  /** `\b` at index `n`: exactly one of the characters around it is a word character. */
  predicate IsWordBoundary(s: string, n: nat)
    requires n <= |s|
  {
    (n > 0 && IsWordChar(s[n - 1])) != (n < |s| && IsWordChar(s[n]))
  }

  /** Where the tag name of a `<` at `i` begins: after `</` when a `/` follows, else after `<`. */
  function TagNameStart(s: string, i: nat): (p: nat)
    requires i < |s|
    ensures p <= |s|
  {
    if i + 1 < |s| && s[i + 1] == '/' then i + 2 else i + 1
  }

  // ---------------------------------------------------------------------------------------
  // sanitizeHTML, tag pass: `</?(?!(b|i|nobr|br))\b[^>]*>` with flag `g` (case-sensitive)
  // ---------------------------------------------------------------------------------------

  /**
   * The lookahead `(b|i|nobr|br)` succeeds at `p`. The names are those of `allowedTags`, in
   * its order, and each alternative is a prefix test, not a whole-name test.
   */
  predicate StartsWithAllowedTag(s: string, p: nat) {
    StartsWithAt(s, p, "b") || StartsWithAt(s, p, "i") ||
    StartsWithAt(s, p, "nobr") || StartsWithAt(s, p, "br")
  }

  /**
   * `(?!(b|i|nobr|br))\b[^>]*>` tried at `p`; the greedy `[^>]*` stops at the first `>`.
   * Giving characters back cannot help: each one it gives back is not `>`, so `>` cannot
   * follow there, and the lookahead and `\b` consume nothing.
   */
  function AllowListTagRestAt(s: string, p: nat): (r: Option<nat>)
    requires p <= |s|
    ensures r.Some? ==> p < r.value <= |s| && s[r.value - 1] == '>'
    ensures r.Some? ==> forall k :: p <= k < r.value - 1 ==> s[k] != '>'
  {
    if !StartsWithAllowedTag(s, p) && IsWordBoundary(s, p) then
      match FirstIndexIn(s, p, {'>'})
      case Some(g) => Some(g + 1)
      case None => None
    else None
  }

  /**
   * The tag pass tried at `i`. The greedy `/?` first takes a `/` when there is one; when
   * the rest fails after it, the engine backtracks and tries the rest without it.
   */
  function AllowListTagAt(s: string, i: nat): (r: Option<nat>)
    requires i < |s|
    ensures r.Some? ==> s[i] == '<' && i + 3 <= r.value <= |s| && s[r.value - 1] == '>'
  {
    if s[i] != '<' then None
    else if i + 1 < |s| && s[i + 1] == '/' then
      AllowListTagRestAt(s, i + 2).OrElse(AllowListTagRestAt(s, i + 1))
    else
      AllowListTagRestAt(s, i + 1)
  }

  /** The allowed name `t` occurs at `p` as a whole word. */
  predicate IsWholeName(s: string, p: nat, t: string) {
    StartsWithAt(s, p, t) && IsWordBoundary(s, p + |t|)
  }

  /**
   * The lookahead as evidently intended, `(?!(b|i|nobr|br)\b)`: the name at `p` is one of the
   * allowed names in full, not merely one of them followed by more word characters.
   */
  predicate IsAllowedTagName(s: string, p: nat) {
    IsWholeName(s, p, "b") || IsWholeName(s, p, "i") ||
    IsWholeName(s, p, "nobr") || IsWholeName(s, p, "br")
  }

  /** `(?!(b|i|nobr|br)\b)\b[^>]*>` tried at `p`. */
  function WholeNameTagRestAt(s: string, p: nat): (r: Option<nat>)
    requires p <= |s|
    ensures r.Some? ==> p < r.value <= |s| && s[r.value - 1] == '>'
    ensures r.Some? ==> forall k :: p <= k < r.value - 1 ==> s[k] != '>'
  {
    if !IsAllowedTagName(s, p) && IsWordBoundary(s, p) then
      match FirstIndexIn(s, p, {'>'})
      case Some(g) => Some(g + 1)
      case None => None
    else None
  }

  /** The corrected tag pass, `</?(?!(b|i|nobr|br)\b)\b[^>]*>`, tried at `i`. */
  function WholeNameTagAt(s: string, i: nat): (r: Option<nat>)
    requires i < |s|
    ensures r.Some? ==> s[i] == '<' && i + 3 <= r.value <= |s| && s[r.value - 1] == '>'
  {
    if s[i] != '<' then None
    else if i + 1 < |s| && s[i + 1] == '/' then
      WholeNameTagRestAt(s, i + 2).OrElse(WholeNameTagRestAt(s, i + 1))
    else
      WholeNameTagRestAt(s, i + 1)
  }

  // ---------------------------------------------------------------------------------------
  // sanitizeHTML, attribute pass: `/ onClick=(["'])[^"']+\1/gi`
  // ---------------------------------------------------------------------------------------

  const OnClickPrefix: string := " onClick="

  /**
   * The attribute pass tried at `i`: ` onClick=` in any case, a quote `q`, then the greedy
   * `[^"']+` runs to the first quote character of either kind, which must be `q` itself
   * (the back-reference `\1`); giving back characters cannot help, since the character
   * after a shorter run is not a quote.
   */
  function OnClickAt(s: string, i: nat): (r: Option<nat>)
    requires i < |s|
    ensures r.Some? ==> s[i] == ' ' && i + 12 <= r.value <= |s| && IsQuote(s[r.value - 1])
  {
    var q := i + |OnClickPrefix|;
    if StartsWithIgnoreCaseAt(s, i, OnClickPrefix) && q < |s| && IsQuote(s[q]) then
      assert EqualsIgnoreCase(s[i + 0], OnClickPrefix[0]);
      match FirstIndexIn(s, q + 1, {'"', '\''})
      case Some(j) => if j > q + 1 && s[j] == s[q] then Some(j + 1) else None
      case None => None
    else None
  }

  // ---------------------------------------------------------------------------------------
  // removeTags: tagOrComment, with flags `g` and `i`:
  //   <(?: !--(?:(?:-*[^->])*--+|-?)
  //      | script\b TAGBODY >[\s\S]*?</script\s*
  //      | style\b TAGBODY >[\s\S]*?</style\s*
  //      | /?[a-z] TAGBODY
  //    )>
  // where TAGBODY is (?:[^"'>]|"[^"]*"|'[^']*')*
  // ---------------------------------------------------------------------------------------

  /** The first index at or after `from` that is not `-`, or `|s|`. */
  function SkipDashes(s: string, from: nat): (r: nat)
    requires from <= |s|
    ensures from <= r <= |s|
    ensures r < |s| ==> s[r] != '-'
    ensures forall k :: from <= k < r ==> s[k] == '-'
    decreases |s| - from
  {
    if from == |s| || s[from] != '-' then from else SkipDashes(s, from + 1)
  }

  /**
   * One iteration of `(?:-*[^->])`: dashes, then one character that is neither `-` nor `>`.
   * Giving dashes back cannot help: `[^->]` would then face a `-`, which it refuses.
   */
  function CommentUnitAt(s: string, k: nat): (r: Option<nat>)
    requires k <= |s|
    ensures r.Some? ==> k < r.value <= |s| && s[r.value - 1] != '>'
  {
    var d := SkipDashes(s, k);
    if d < |s| && s[d] != '>' then Some(d + 1) else None
  }

  /**
   * `--+>` at `k`: a run of at least two dashes and then `>`. Giving dashes back cannot help:
   * `>` would then face a `-`.
   */
  function DashesThenCloseAt(s: string, k: nat): (r: Option<nat>)
    requires k <= |s|
    ensures r.Some? ==> k + 3 <= r.value <= |s| && s[r.value - 1] == '>'
  {
    var d := SkipDashes(s, k);
    if d - k >= 2 && d < |s| && s[d] == '>' then Some(d + 1) else None
  }

  /**
   * `(?:-*[^->])*--+>` at `k`: the greedy star takes one more iteration whenever it can and,
   * when the rest of the expression fails after it, gives it back and tries `--+>` here.
   */
  function CommentRunAt(s: string, k: nat): (r: Option<nat>)
    requires k <= |s|
    ensures r.Some? ==> k < r.value <= |s| && s[r.value - 1] == '>'
    decreases |s| - k
  {
    match CommentUnitAt(s, k)
    case Some(k') => CommentRunAt(s, k').OrElse(DashesThenCloseAt(s, k))
    case None => DashesThenCloseAt(s, k)
  }

  /** `-?>` at `k`: the greedy `-?` takes a dash if there is one, else matches empty. */
  function OptionalDashThenCloseAt(s: string, k: nat): (r: Option<nat>)
    requires k <= |s|
    ensures r.Some? ==> k < r.value <= |s| && s[r.value - 1] == '>'
  {
    if k + 1 < |s| && s[k] == '-' && s[k + 1] == '>' then Some(k + 2)
    else if k < |s| && s[k] == '>' then Some(k + 1)
    else None
  }

  /** The comment alternative `<!--(?:(?:-*[^->])*--+|-?)>` at `i`. */
  function CommentAt(s: string, i: nat): (r: Option<nat>)
    requires i < |s|
    ensures r.Some? ==> StartsWithAt(s, i, "<!--") && i + 5 <= r.value <= |s| && s[r.value - 1] == '>'
  {
    if StartsWithAt(s, i, "<!--") then
      CommentRunAt(s, i + 4).OrElse(OptionalDashThenCloseAt(s, i + 4))
    else None
  }

  /**
   * TAGBODY followed by `>`, starting at `k`: the index of that `>`. Each iteration of the
   * star is decided by the character it starts on (an ordinary character, or a quoted string
   * running to its closing quote), so the star stops at the first `>` outside quotes, at the
   * end of the text, or at a quote that is never closed; only in the first case can `>`
   * follow. Giving iterations back cannot help: each of them starts on a character that is
   * not `>`.
   */
  function TagBodyEnd(s: string, k: nat): (r: Option<nat>)
    requires k <= |s|
    ensures r.Some? ==> k <= r.value < |s| && s[r.value] == '>'
    decreases |s| - k
  {
    if k == |s| then None
    else if s[k] == '>' then Some(k)
    else if IsQuote(s[k]) then
      match FirstIndexIn(s, k + 1, {s[k]})
      case Some(close) => TagBodyEnd(s, close + 1)
      case None => None
    else TagBodyEnd(s, k + 1)
  }

  /**
   * `</name\s*>` at `m`, the name compared under the `i` flag, which leaves `<` and `/` as
   * they are. Giving whitespace back cannot help: `>` would then face a whitespace character.
   */
  function ClosingTagAt(s: string, m: nat, name: string): (r: Option<nat>)
    requires m <= |s|
    ensures r.Some? ==> m + |name| + 3 <= r.value <= |s| && s[r.value - 1] == '>'
  {
    if m + 1 < |s| && s[m] == '<' && s[m + 1] == '/' && StartsWithIgnoreCaseAt(s, m + 2, name) then
      var w := SkipWhitespace(s, m + 2 + |name|);
      if w < |s| && s[w] == '>' then Some(w + 1) else None
    else None
  }

  /** The lazy `[\s\S]*?` followed by `</name\s*>`: the nearest closing tag at or after `m`. */
  function FirstClosingTag(s: string, m: nat, name: string): (r: Option<nat>)
    requires m <= |s|
    ensures r.Some? ==> m < r.value <= |s| && s[r.value - 1] == '>'
    decreases |s| - m
  {
    if m == |s| then None
    else ClosingTagAt(s, m, name).OrElse(FirstClosingTag(s, m + 1, name))
  }

  /**
   * A raw-text element `<name\b TAGBODY>[\s\S]*?</name\s*>` at `i` (name `script` or
   * `style`), its content included.
   */
  function RawTextElementAt(s: string, i: nat, name: string): (r: Option<nat>)
    requires i < |s|
    ensures r.Some? ==> i + 1 + |name| < r.value <= |s| && s[r.value - 1] == '>'
  {
    var n := i + 1 + |name|;
    if StartsWithIgnoreCaseAt(s, i + 1, name) && IsWordBoundary(s, n) then
      match TagBodyEnd(s, n)
      case Some(o) => FirstClosingTag(s, o + 1, name)
      case None => None
    else None
  }

  /** `[a-z] TAGBODY >` at `p`. */
  function RegularTagRestAt(s: string, p: nat): (r: Option<nat>)
    requires p <= |s|
    ensures r.Some? ==> p + 2 <= r.value <= |s| && s[r.value - 1] == '>'
  {
    if p < |s| && IsAsciiLetter(s[p]) then
      match TagBodyEnd(s, p + 1)
      case Some(o) => Some(o + 1)
      case None => None
    else None
  }

  /** The alternative `/?[a-z] TAGBODY` and the final `>` at `i`, with `/?` backtracking. */
  function RegularTagAt(s: string, i: nat): (r: Option<nat>)
    requires i < |s|
    ensures r.Some? ==> i + 3 <= r.value <= |s| && s[r.value - 1] == '>'
  {
    if i + 1 < |s| && s[i + 1] == '/' then
      RegularTagRestAt(s, i + 2).OrElse(RegularTagRestAt(s, i + 1))
    else
      RegularTagRestAt(s, i + 1)
  }

  /** The last three alternatives of tagOrComment at `i`, in order: `script`, `style`, a regular tag. */
  function ElementOrTagAt(s: string, i: nat): (r: Option<nat>)
    requires i < |s|
    ensures r.Some? ==> i + 3 <= r.value <= |s| && s[r.value - 1] == '>'
  {
    match RawTextElementAt(s, i, "script")
    case Some(e) => Some(e)
    case None =>
      match RawTextElementAt(s, i, "style")
      case Some(e) => Some(e)
      case None => RegularTagAt(s, i)
  }

  /** tagOrComment tried at `i`: `<`, then its four alternatives in order. */
  function TagOrCommentAt(s: string, i: nat): (r: Option<nat>)
    requires i < |s|
    ensures r.Some? ==> s[i] == '<' && i + 3 <= r.value <= |s| && s[r.value - 1] == '>'
  {
    if s[i] != '<' then None
    else
      match CommentAt(s, i)
      case Some(e) => Some(e)
      case None => ElementOrTagAt(s, i)
  }

  // ---------------------------------------------------------------------------------------

  /** The fewest characters a match of `p` can span. */
  function MinMatchLength(p: Pattern): nat {
    match p
    case AllowListTag => 3       // `<a>`
    case OnClickAttribute => 12  // ` onClick="x"`
    case TagOrComment => 3       // `<a>`
    case WholeNameTag => 3       // `<a>`
  }

  /** The character every match of `p` starts with. */
  function MatchStart(p: Pattern): char {
    if p == OnClickAttribute then ' ' else '<'
  }

  /** Pattern `p` tried at index `i` of `s`: the index just past the match, if it matches there. */
  function MatchAt(p: Pattern, s: string, i: nat): (r: Option<nat>)
    requires i < |s|
    ensures r.Some? ==> i + MinMatchLength(p) <= r.value <= |s|
    ensures r.Some? ==> s[i] == MatchStart(p)
  {
    match p
    case AllowListTag => AllowListTagAt(s, i)
    case OnClickAttribute => OnClickAt(s, i)
    case TagOrComment => TagOrCommentAt(s, i)
    case WholeNameTag => WholeNameTagAt(s, i)
  }
}
