/** Worked inputs for both sanitizers, each stating what the code returns for it. */
module SanitizerExamples {
  import opened Wrappers
  import opened Chars
  import opened Patterns
  import opened GlobalReplace
  import opened HtmlSanitizer
  import opened TagRemoval

  /** A tag whose name, starting at `n`, begins with `b` or `i` is no match of the tag pass. */
  lemma KeptByFirstChar(s: string, i: nat, n: nat)
    requires i < |s| && s[i] == '<' && n == TagNameStart(s, i) && n < |s|
    requires s[n] == 'b' || s[n] == 'i'
    ensures AllowListTagAt(s, i).None?
  {
    AllowedByFirstChar(s, n);
    AllowedTagKept(s, i);
  }

  /** The tag pass is case-sensitive: `<B>` is deleted while `<b>` is kept. */
  lemma TagPassIsCaseSensitive()
    ensures DeleteMatches(AllowListTag, "<B>x<b>") == "x<b>"
  {
    var s := "<B>x<b>";
    AllowedByFirstChar(s, 1);
    AllowedByFirstChar(s, 5);
    assert AllowListTagAt(s, 0) == Some(3);
    assert AllowListTagAt(s, 3) == None;
    AllowedTagKept(s, 4);
    assert DeleteMatchesFrom(AllowListTag, s, 4) == "<b>";
  }

  lemma UpperCaseOnClickMatches()
    ensures OnClickAt(" ONCLICK='x'", 0) == Some(12)
  {
    var s := " ONCLICK='x'";
    assert OnClickPrefix == [' ', 'o', 'n', 'C', 'l', 'i', 'c', 'k', '='];
    forall k | 0 <= k < 9 ensures EqualsIgnoreCase(s[k], OnClickPrefix[k]) {
    }
    OnClickSpan(s, 0, 12);
  }

  /** ` onClick=` is matched in any case. */
  lemma OnClickIgnoresCase()
    ensures DeleteMatches(OnClickAttribute, " ONCLICK='x'") == ""
  {
    UpperCaseOnClickMatches();
  }

  /** Mismatched quotes leave the attribute in place. */
  lemma OnClickNeedsMatchingQuotes()
    ensures DeleteMatches(OnClickAttribute, " onClick=\"x'") == " onClick=\"x'"
  {
    var s := " onClick=\"x'";
    forall j | 0 <= j < |s| ensures MatchAt(OnClickAttribute, s, j).None? {
      if j == 0 {
        assert FirstIndexIn(s, 10, {'"', '\''}) == Some(11);
      }
    }
  }

  lemma OnClickOfBoldTagMatches(s: string)
    requires s == "<b onclick=\"go()\">hi</b>"
    ensures OnClickAt(s, 2) == Some(17)
  {
    forall k | 0 <= k < 9 ensures EqualsIgnoreCase(s[2 + k], OnClickPrefix[k]) {
    }
    OnClickSpan(s, 2, 17);
  }

  /** The closing `</b>` survives the tag pass. */
  lemma ClosingBoldKept(s: string)
    requires s == "<b onclick=\"go()\">hi</b>"
    ensures DeleteMatchesFrom(AllowListTag, s, 20) == s[20..]
  {
    assert '<' !in s[21..24];
    KeptByFirstChar(s, 20, 22);
    KeepsFromEarlier(AllowListTag, s, 20, 24);
  }

  lemma BoldTagsKept(s: string)
    requires s == "<b onclick=\"go()\">hi</b>"
    ensures DeleteMatches(AllowListTag, s) == s
  {
    assert '<' !in s[1..20];
    ClosingBoldKept(s);
    KeptByFirstChar(s, 0, 1);
    KeepsFromEarlier(AllowListTag, s, 0, 20);
  }

  lemma NoOnClickAfterBoldAttribute(s: string)
    requires s == "<b onclick=\"go()\">hi</b>"
    ensures DeleteMatchesFrom(OnClickAttribute, s, 17) == s[17..]
  {
    CopiesStretchWithoutStart(OnClickAttribute, s, 17, 24);
  }

  /** The attribute at index 2 is deleted and nothing after it is touched. */
  lemma OnClickDeletedFromBold(s: string)
    requires s == "<b onclick=\"go()\">hi</b>"
    ensures DeleteMatchesFrom(OnClickAttribute, s, 2) == s[17..]
  {
    OnClickOfBoldTagMatches(s);
    NoOnClickAfterBoldAttribute(s);
  }

  lemma BoldWithoutAttribute(s: string)
    requires s == "<b onclick=\"go()\">hi</b>"
    ensures ' ' !in s[0..2] && s[0..2] + s[17..] == "<b>hi</b>"
  {
  }

  lemma OnClickPassOnBoldTag(s: string)
    requires s == "<b onclick=\"go()\">hi</b>"
    ensures DeleteMatches(OnClickAttribute, s) == "<b>hi</b>"
  {
    OnClickDeletedFromBold(s);
    BoldWithoutAttribute(s);
    CopiesStretchWithoutStart(OnClickAttribute, s, 0, 2);
  }

  /** `<b onclick="go()">hi</b>`: the allowed tags stay and only the attribute goes. */
  lemma SanitizeStripsAttributeOfAllowedTag()
    ensures SanitizeHTML("<b onclick=\"go()\">hi</b>") == "<b>hi</b>"
  {
    BoldTagsKept("<b onclick=\"go()\">hi</b>");
    OnClickPassOnBoldTag("<b onclick=\"go()\">hi</b>");
  }

  lemma NestedTagMatches(s: string)
    requires s == "<<a>a>"
    ensures TagOrCommentAt(s, 0) == None && TagOrCommentAt(s, 1) == Some(4)
  {
  }

  lemma NestedTagAfterMatch(s: string)
    requires s == "<<a>a>"
    ensures '<' !in s[4..6] && [s[0]] + s[4..6] == "<a>"
  {
  }

  lemma FirstPassOfNested(s: string)
    requires s == "<<a>a>"
    ensures DeleteMatches(TagOrComment, s) == "<a>"
  {
    NestedTagMatches(s);
    NestedTagAfterMatch(s);
    CopiesStretchWithoutStart(TagOrComment, s, 4, 6);
    assert DeleteMatchesFrom(TagOrComment, s, 6) == [];
    assert DeleteMatchesFrom(TagOrComment, s, 1) == s[4..6];
    assert DeleteMatchesFrom(TagOrComment, s, 0) == [s[0]] + s[4..6];
  }

  lemma SecondPassOfNested(s: string)
    requires s == "<a>"
    ensures DeleteMatches(TagOrComment, s) == ""
  {
    assert TagOrCommentAt(s, 0) == Some(3);
  }

  /** Deleting `<a>` out of `<<a>a>` makes a new tag, which the second pass deletes. */
  lemma NestedTagNeedsSecondPass()
    ensures DeleteMatches(TagOrComment, "<<a>a>") == "<a>"
    ensures StripToFixpoint("<<a>a>") == ""
  {
    FirstPassOfNested("<<a>a>");
    SecondPassOfNested("<a>");
    assert DeleteMatches(TagOrComment, "") == "";
  }

  lemma StrayLtIsNoTag(s: string)
    requires s == "1 < 2"
    ensures TagOrCommentAt(s, 2) == None && '<' !in s[3..5] && '<' !in s[1..2]
  {
    assert RegularTagAt(s, 2) == None;
  }

  lemma StrayLtOpensNothing(s: string)
    requires s == "1 < 2"
    ensures StripToFixpoint(s) == s
  {
    StrayLtIsNoTag(s);
    KeepsFromEarlier(TagOrComment, s, 2, 5);
    KeepsFromEarlier(TagOrComment, s, 0, 2);
  }

  /** A `<` that opens no tag is escaped. */
  lemma StrayLtIsEscaped(s: string)
    requires s == "1 < 2"
    ensures TagsRemoved(s) == "1 &lt; 2"
  {
    StrayLtOpensNothing(s);
    EscapeOfStrayLt(s);
  }

  lemma EscapeAfterStrayLt(s: string)
    requires s == "1 < 2"
    ensures EscapeLt(s[2..]) == "&lt; 2"
  {
    assert s[2..] == [s[2]] + s[3..];
    assert '<' !in s[3..];
  }

  lemma EscapeOfStrayLt(s: string)
    requires s == "1 < 2"
    ensures EscapeLt(s) == "1 &lt; 2"
  {
    EscapeAfterStrayLt(s);
    assert s[1..] == [s[1]] + s[2..];
    assert s == [s[0]] + s[1..];
  }

  lemma NoClosingTagAtContent(s: string)
    requires s == "<script>x</script>ok"
    ensures ClosingTagAt(s, 8, "script") == None
  {
    assert s[8] != '<';
  }

  lemma ClosingTagAfterContent(s: string)
    requires s == "<script>x</script>ok"
    ensures ClosingTagAt(s, 9, "script") == Some(18)
  {
    assert StartsWithIgnoreCaseAt(s, 9, "</script");
    assert SkipWhitespace(s, 17) == 17;
  }

  lemma ScriptClosingTagFound(s: string)
    requires s == "<script>x</script>ok"
    ensures FirstClosingTag(s, 8, "script") == Some(18)
  {
    NoClosingTagAtContent(s);
    ClosingTagAfterContent(s);
  }

  lemma ScriptOpeningTag(s: string)
    requires s == "<script>x</script>ok"
    ensures CommentAt(s, 0) == None
    ensures StartsWithIgnoreCaseAt(s, 1, "script") && IsWordBoundary(s, 7)
    ensures TagBodyEnd(s, 7) == Some(7)
  {
    assert s[0..4][1] != "<!--"[1];
  }

  lemma ScriptElementMatches(s: string)
    requires s == "<script>x</script>ok"
    ensures TagOrCommentAt(s, 0) == Some(18)
  {
    ScriptOpeningTag(s);
    ScriptClosingTagFound(s);
    assert RawTextElementAt(s, 0, "script") == Some(18);
  }

  /** A `script` element goes with its content. */
  lemma ScriptElementRemovedWithContent(s: string)
    requires s == "<script>x</script>ok"
    ensures TagsRemoved(s) == "ok"
  {
    assert s[18..] == "ok";
    ScriptElementMatches(s);
    assert DeleteMatchesFrom(TagOrComment, s, 18) == "ok";
    assert DeleteMatches(TagOrComment, s) == "ok";
    assert StripToFixpoint("ok") == "ok" by {
      NoLtIsFixpoint("ok");
    }
  }

  lemma UnclosedScriptMatchesAsTag(s: string)
    requires s == "<script>x"
    ensures TagOrCommentAt(s, 0) == Some(8)
  {
    assert s[0..4][1] != "<!--"[1];
    assert CommentAt(s, 0) == None;
    assert StartsWithIgnoreCaseAt(s, 1, "script");
    assert TagBodyEnd(s, 7) == Some(7);
    assert FirstClosingTag(s, 8, "script") == None;
    assert RawTextElementAt(s, 0, "style") == None;
    assert TagBodyEnd(s, 6) == Some(7);
    assert TagBodyEnd(s, 4) == Some(7);
    assert TagBodyEnd(s, 2) == Some(7);
  }

  /** Without `</script>` the opening tag is still deleted, as an ordinary tag; its text stays. */
  lemma UnclosedScriptLosesOnlyItsTag(s: string)
    requires s == "<script>x"
    ensures TagsRemoved(s) == "x"
  {
    assert s[8..] == "x";
    UnclosedScriptMatchesAsTag(s);
    assert DeleteMatchesFrom(TagOrComment, s, 8) == "x";
    assert DeleteMatches(TagOrComment, s) == "x";
    NoLtIsFixpoint("x");
  }

  lemma CommentHoldingGtIsNoComment(s: string)
    requires s == "<!--a>b-->"
    ensures CommentAt(s, 0) == None
  {
    assert FirstIndexIn(s, 4, {'>'}) == Some(5);
    assert !IsCommentBody(s[4..5]);
    CommentSpan(s, 0);
  }

  lemma CommentHoldingGtIsNoTag(s: string)
    requires s == "<!--a>b-->"
    ensures TagOrCommentAt(s, 0) == None && '<' !in s[1..10]
  {
    CommentHoldingGtIsNoComment(s);
  }

  lemma CommentHoldingGtOpensNothing(s: string)
    requires s == "<!--a>b-->"
    ensures StripToFixpoint(s) == s
  {
    CommentHoldingGtIsNoTag(s);
    KeepsFromEarlier(TagOrComment, s, 0, 10);
  }

  /**
   * A comment ends at its first `>`: `<!--a>b-->` is no comment match, so its `<` is escaped
   * and the rest is kept.
   */
  lemma CommentHoldingGtIsEscaped(s: string)
    requires s == "<!--a>b-->"
    ensures TagsRemoved(s) == "&lt;!--a>b-->"
  {
    assert "&lt;" + s[1..] == "&lt;!--a>b-->";
    CommentHoldingGtOpensNothing(s);
    assert s == [s[0]] + s[1..];
    assert '<' !in s[1..];
    assert EscapeLt(s) == EscapeChar('<') + EscapeLt(s[1..]);
  }

  lemma ImgIsNoAllowedName(s: string)
    requires s == "<img src=x>"
    ensures !IsAllowedTagName(s, 1)
  {
    assert s[1..2][0] != "b"[0];
    assert s[1..5][0] != "nobr"[0];
    assert s[1..3][0] != "br"[0];
    assert !IsWordBoundary(s, 2);
  }

  /** As written, `<img src=x>` passes the tag pass: its name begins with `i`. */
  lemma ImgKeptAsWritten(s: string)
    requires s == "<img src=x>"
    ensures DeleteMatches(AllowListTag, s) == s
  {
    assert '<' !in s[1..11];
    KeptByFirstChar(s, 0, 1);
    KeepsFromEarlier(AllowListTag, s, 0, 11);
  }

  /** Compared against whole names, the allow-list no longer lets `<img src=x>` through. */
  lemma ImgDeletedWhenCorrected(s: string)
    requires s == "<img src=x>"
    ensures DeleteMatches(WholeNameTag, s) == ""
  {
    ImgIsNoAllowedName(s);
    WholeNameTagSpan(s, 0);
    assert s[10] == '>' && s[0..][10] == '>';
    assert WholeNameTagAt(s, 0) == Some(11);
    assert DeleteMatchesFrom(WholeNameTag, s, 0) == DeleteMatchesFrom(WholeNameTag, s, 11);
  }

  /** The whole-name test still keeps `<br/>`. */
  lemma BrKeptWhenCorrected(s: string)
    requires s == "<br/>"
    ensures DeleteMatches(WholeNameTag, s) == s
  {
    assert s[1..3] == "br" && IsWordBoundary(s, 3);
    assert WholeNameTagAt(s, 0) == None;
    assert NoMatchFrom(WholeNameTag, s, 0);
  }

  lemma QuotedGtTagMatches(s: string)
    requires s == "<a t='>'>x"
    ensures TagOrCommentAt(s, 0) == Some(9)
  {
    assert s[0..4][1] != "<!--"[1];
    assert CommentAt(s, 0) == None;
    assert RawTextElementAt(s, 0, "script") == None;
    assert RawTextElementAt(s, 0, "style") == None;
    assert FirstIndexIn(s, 6, {'\''}) == Some(7);
    assert TagBodyEnd(s, 8) == Some(8);
    assert TagBodyEnd(s, 5) == Some(8);
    assert TagBodyEnd(s, 4) == Some(8);
    assert TagBodyEnd(s, 3) == Some(8);
    assert TagBodyEnd(s, 2) == Some(8);
  }

  /** A `>` inside a quoted attribute value does not end the tag. */
  lemma QuotedGtStaysInsideTag(s: string)
    requires s == "<a t='>'>x"
    ensures TagsRemoved(s) == "x"
  {
    assert s[9..] == "x";
    QuotedGtTagMatches(s);
    assert DeleteMatchesFrom(TagOrComment, s, 9) == "x";
    assert DeleteMatches(TagOrComment, s) == "x";
    NoLtIsFixpoint("x");
  }
}
