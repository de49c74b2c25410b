/**
 * `String.prototype.replace(re, '')` for a regex `re` with the `g` flag: the engine looks for
 * the leftmost match at or after its current position, deletes it and resumes just past it.
 * No pattern here matches the empty string, so the "advance by one after an empty match"
 * rule never applies.
 *
 * Whether the regex matches at an index depends only on the text and that index, so the scan
 * is defined over a match table: entry `j` is what the regex gives when tried at index `j`.
 */
module GlobalReplace {
  import opened Wrappers
  import opened Subsequences
  import opened Patterns

  // ---------------------------------------------------------------------------------------
  // The scan over a match table
  // ---------------------------------------------------------------------------------------

  /** `m` has an entry per index of `s`, and every match it records spans at least `min >= 1` characters of `s`. */
  predicate IsMatchTable(s: string, m: seq<Option<nat>>, min: nat) {
    |m| == |s| && min >= 1 &&
    forall j :: 0 <= j < |m| && m[j].Some? ==> j + min <= m[j].value <= |s|
  }

  /** No entry of `m` at or after `k` records a match. */
  predicate NoEntryFrom(m: seq<Option<nat>>, k: nat) {
    forall j :: k <= j < |m| ==> m[j].None?
  }

  /** What is left of `s[k..]` once the scan, started at `k`, has deleted every match of `m`. */
  function ScanFrom(s: string, m: seq<Option<nat>>, min: nat, k: nat): (r: string)
    requires IsMatchTable(s, m, min) && k <= |s|
    ensures r == s[k..] || |r| + min <= |s| - k
    decreases |s| - k
  {
    if k == |s| then []
    else match m[k]
      case Some(e) => ScanFrom(s, m, min, e)
      case None => [s[k]] + ScanFrom(s, m, min, k + 1)
  }

  /** The scan only deletes: what it leaves is a subsequence of what it scanned. */
  lemma {:induction false} ScanIsSubsequence(s: string, m: seq<Option<nat>>, min: nat, k: nat)
    requires IsMatchTable(s, m, min) && k <= |s|
    ensures IsSubsequence(ScanFrom(s, m, min, k), s[k..])
    decreases |s| - k
  {
    if k < |s| {
      match m[k]
      case Some(e) =>
        ScanIsSubsequence(s, m, min, e);
        SubsequenceOfLonger(ScanFrom(s, m, min, e), s[k..e], s[e..]);
        assert s[k..e] + s[e..] == s[k..];
      case None =>
        ScanIsSubsequence(s, m, min, k + 1);
        SubsequenceCons(s[k], ScanFrom(s, m, min, k + 1), s[k + 1..]);
        assert [s[k]] + s[k + 1..] == s[k..];
    }
  }

  /** The scan copies, character for character, a stretch where the table records no match. */
  lemma {:induction false} ScanCopiesStretch(s: string, m: seq<Option<nat>>, min: nat, k: nat, n: nat)
    requires IsMatchTable(s, m, min) && k <= n <= |s|
    requires forall j :: k <= j < n ==> m[j].None?
    ensures ScanFrom(s, m, min, k) == s[k..n] + ScanFrom(s, m, min, n)
    decreases n - k
  {
    if k < n {
      var rest := ScanFrom(s, m, min, n);
      ScanCopiesStretch(s, m, min, k + 1, n);
      calc {
        ScanFrom(s, m, min, k);
        { assert m[k].None?; }
        [s[k]] + ScanFrom(s, m, min, k + 1);
        [s[k]] + (s[k + 1..n] + rest);
        ([s[k]] + s[k + 1..n]) + rest;
        { assert s[k..n] == [s[k]] + s[k + 1..n]; }
        s[k..n] + rest;
      }
    }
  }

  /** When the table records no match at or after `k`, the scan keeps every character. */
  lemma NoEntryKeepsAll(s: string, m: seq<Option<nat>>, min: nat, k: nat)
    requires IsMatchTable(s, m, min) && k <= |s| && NoEntryFrom(m, k)
    ensures ScanFrom(s, m, min, k) == s[k..]
  {
    ScanCopiesStretch(s, m, min, k, |s|);
  }

  /** When the scan keeps every character, the table records no match at or after `k`. */
  lemma {:induction false} KeepsAllOnlyWithoutEntry(s: string, m: seq<Option<nat>>, min: nat, k: nat)
    requires IsMatchTable(s, m, min) && k <= |s| && ScanFrom(s, m, min, k) == s[k..]
    ensures NoEntryFrom(m, k)
    decreases |s| - k
  {
    if k < |s| {
      if m[k].Some? {
        assert false;
      }
      var rest := ScanFrom(s, m, min, k + 1);
      assert ScanFrom(s, m, min, k) == [s[k]] + rest;
      assert rest == ([s[k]] + rest)[1..] == s[k..][1..] == s[k + 1..];
      KeepsAllOnlyWithoutEntry(s, m, min, k + 1);
    }
  }

  /** The scan changes nothing exactly when the table records no match where it looks. */
  lemma ScanUnchangedIff(s: string, m: seq<Option<nat>>, min: nat, k: nat)
    requires IsMatchTable(s, m, min) && k <= |s|
    ensures ScanFrom(s, m, min, k) == s[k..] <==> NoEntryFrom(m, k)
  {
    if NoEntryFrom(m, k) {
      NoEntryKeepsAll(s, m, min, k);
    }
    if ScanFrom(s, m, min, k) == s[k..] {
      KeepsAllOnlyWithoutEntry(s, m, min, k);
    }
  }

  // ---------------------------------------------------------------------------------------
  // The scan for one of the patterns
  // ---------------------------------------------------------------------------------------

  /** The match table of `p` on `s`: `p` tried at every index of `s`. */
  function Matches(p: Pattern, s: string): (m: seq<Option<nat>>)
    ensures IsMatchTable(s, m, MinMatchLength(p))
    ensures forall j :: 0 <= j < |s| ==> m[j] == MatchAt(p, s, j)
  {
    seq(|s|, j requires 0 <= j < |s| => MatchAt(p, s, j))
  }

  /** No match of `p` starts anywhere in `s` at or after `k`. */
  predicate NoMatchFrom(p: Pattern, s: string, k: nat) {
    forall j :: k <= j < |s| ==> MatchAt(p, s, j).None?
  }

  /** A pattern whose matches all start with one character finds none where that character is absent. */
  lemma NoMatchWithoutStart(p: Pattern, s: string, k: nat, n: nat)
    requires k <= n <= |s| && MatchStart(p) !in s[k..n]
    ensures forall j :: k <= j < n ==> Matches(p, s)[j].None?
  {
    forall j | k <= j < n
      ensures Matches(p, s)[j].None?
    {
      assert s[j] == s[k..n][j - k];
    }
  }

  /** What is left of `s[k..]` once the scan, started at `k`, has deleted every match of `p`. */
  function DeleteMatchesFrom(p: Pattern, s: string, k: nat): (r: string)
    requires k <= |s|
    ensures IsSubsequence(r, s[k..])
    ensures r == s[k..] <==> NoMatchFrom(p, s, k)
    ensures r == s[k..] || |r| + MinMatchLength(p) <= |s| - k
  {
    var m := Matches(p, s);
    ScanIsSubsequence(s, m, MinMatchLength(p), k);
    ScanUnchangedIff(s, m, MinMatchLength(p), k);
    ScanFrom(s, m, MinMatchLength(p), k)
  }

  /** Where a match starts, the scan deletes it and resumes just past it. */
  lemma DeletesMatchAt(p: Pattern, s: string, k: nat, e: nat)
    requires k < |s| && MatchAt(p, s, k) == Some(e)
    ensures DeleteMatchesFrom(p, s, k) == DeleteMatchesFrom(p, s, e)
  {
    assert Matches(p, s)[k] == Some(e);
  }

  /** Where no match starts, the scan keeps the character and moves on. */
  lemma KeepsCharWithoutMatch(p: Pattern, s: string, k: nat)
    requires k < |s| && MatchAt(p, s, k).None?
    ensures DeleteMatchesFrom(p, s, k) == [s[k]] + DeleteMatchesFrom(p, s, k + 1)
  {
    assert Matches(p, s)[k].None?;
  }

  /** `s.replace(p, '')`: every match of `p`, found left to right, deleted. */
  function DeleteMatches(p: Pattern, s: string): (r: string)
    ensures IsSubsequence(r, s)
    ensures r == s <==> NoMatchFrom(p, s, 0)
    ensures r != s ==> |r| + MinMatchLength(p) <= |s|
  {
    assert s[0..] == s;
    DeleteMatchesFrom(p, s, 0)
  }

  /** The scan copies, character for character, a stretch of text in which no match can start. */
  lemma CopiesStretchWithoutStart(p: Pattern, s: string, k: nat, n: nat)
    requires k <= n <= |s| && MatchStart(p) !in s[k..n]
    ensures DeleteMatchesFrom(p, s, k) == s[k..n] + DeleteMatchesFrom(p, s, n)
  {
    NoMatchWithoutStart(p, s, k, n);
    ScanCopiesStretch(s, Matches(p, s), MinMatchLength(p), k, n);
  }

  /**
   * When the scan keeps everything from `n` on, it keeps everything from `k` on as well,
   * provided no match starts at `k` and none can start between `k` and `n`.
   */
  lemma KeepsFromEarlier(p: Pattern, s: string, k: nat, n: nat)
    requires k < n <= |s| && DeleteMatchesFrom(p, s, n) == s[n..]
    requires MatchAt(p, s, k).None? && MatchStart(p) !in s[k + 1..n]
    ensures DeleteMatchesFrom(p, s, k) == s[k..]
  {
    CopiesStretchWithoutStart(p, s, k + 1, n);
    KeepsCharWithoutMatch(p, s, k);
    calc {
      DeleteMatchesFrom(p, s, k);
      [s[k]] + DeleteMatchesFrom(p, s, k + 1);
      [s[k]] + (s[k + 1..n] + s[n..]);
      { assert s[k..] == [s[k]] + (s[k + 1..n] + s[n..]); }
      s[k..];
    }
  }

  /** Every match of a tag pattern starts with `<`, so on text without `<` its pass changes nothing. */
  lemma NoLtMeansNoMatch(p: Pattern, s: string)
    requires p != OnClickAttribute
    ensures '<' !in s ==> DeleteMatches(p, s) == s
  {
    if '<' !in s {
      assert s[0..|s|] == s;
      CopiesStretchWithoutStart(p, s, 0, |s|);
    }
  }
}
