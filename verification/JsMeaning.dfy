// What the output of the minifier means: lexed by the rules that its input was lexed by, it
// gives the items that were written, which are the significant items of the input. The one
// exception is a slash that starts a line after a character that can end a line and also come
// before a regular expression: without the linefeed it would start one.
module JsMeaning {
  import opened Bytes
  import opened JsLex
  import opened JsOutput
  import opened JsRules

  // ---- The hand in what is written ----

  // What the hand can be after the given significant items, unless a delimiter comes next: the
  // last of them, or a blank that is kept after it.
  predicate IsHandAfter(hand: int, sign: int) {
    || hand == sign
    || (hand == SPACE && IsAlphanum(sign))
    || (hand == NEWLINE && (sign == NEWLINE || IsAlphanum(sign) || EndsLine(sign)))
  }

  lemma HandsOfLexed(items: seq<Item>, k: nat)
    requires forall i | 0 <= i < |items| :: RuleAt(items, i)
    requires k <= |items| && !EndsInLiteral(items[..k])
    ensures !EndsInLiteral(Significant(items[..k]))
    ensures LastSign(Significant(items[..k])) != SPACE
    ensures IsHandAfter(HandOf(items[..k]), LastSign(Significant(items[..k])))
  {
    HandIs(items, k);
  }

  // What is written leaves the last significant character in hand where it matters: before a
  // slash of the code and before a literal.
  lemma HandOfWritten(items: seq<Item>, i: nat)
    requires AreNeeded(items) && NoComments(items) && i < |items| && !IsDelimiter(items, i)
    requires items[i] == Code(SLASH) || items[i].Literal?
    ensures HandOf(items[..i]) == LastSign(Significant(items[..i]))
  {
    if i > 0 {
      var (before, prev) := (items[..i - 1], items[i - 1]);
      assert items[..i] == before + [prev];
      HandSnoc(before, prev);
      SignificantSnoc(before, prev);
      if IsBlank(prev.c) {
        assert IsNeededAt(items, i - 1);
        SpaceIsSkipped(before, prev.c);
      } else {
        NotSkipped(HandOf(before), prev.c);
      }
    }
  }

  lemma SpaceIsSkipped(before: seq<Item>, blank: int)
    requires before != [] && before[|before| - 1].Code? && StartsComment(before[|before| - 1].c) && blank == SPACE
    ensures After(HandOf(before), blank) == LastSign(Significant(before))
  {
    hide HandOf, After, Significant, IsBlank;
    var (init, p) := (before[..|before| - 1], before[|before| - 1]);
    assert before == init + [p];
    HandSnoc(init, p);
    SignificantSnoc(init, p);
    OperatorSkipsSpace(HandOf(init), p.c);
  }

  lemma OperatorSkipsSpace(hand: int, c: int)
    requires StartsComment(c)
    ensures !IsBlank(c) && After(hand, c) == c && After(c, SPACE) == c
  {
  }

  // ---- The same item on both sides ----

  lemma {:induction false} SignificantPrefix(items: seq<Item>, i: nat)
    requires i <= |items|
    ensures Significant(items[..i]) <= Significant(items)
    ensures i < |items| && IsSignificant(items[i]) ==>
              var r := |Significant(items[..i])|; r < |Significant(items)| && Significant(items)[r] == items[i]
    decreases |items|
  {
    if i < |items| {
      var (init, last) := (items[..|items| - 1], items[|items| - 1]);
      assert items == init + [last];
      SignificantSnoc(init, last);
      SignificantPrefix(init, i);
      assert init[..i] == items[..i];
    } else {
      assert items[..i] == items;
    }
  }

  lemma NothingSignificant()
    ensures Significant([]) == []
  {
  }

  lemma {:induction false} PlaceOf(items: seq<Item>, r: nat) returns (j: nat)
    requires r < |Significant(items)|
    ensures j < |items| && IsSignificant(items[j]) && items[j] == Significant(items)[r]
    ensures Significant(items[..j]) == Significant(items)[..r]
    decreases |items|
  {
    assert items != [] by {
      NothingSignificant();
    }
    hide Significant;
    var (init, last) := (items[..|items| - 1], items[|items| - 1]);
    assert items == init + [last];
    SignificantSnoc(init, last);
    if r < |Significant(init)| {
      j := PlaceOf(init, r);
      assert init[..j] == items[..j];
      assert Significant(init)[..r] == Significant(items)[..r];
    } else {
      j := |init|;
      assert items[..j] == init && Significant(items)[..r] == Significant(init);
    }
  }

  // The place on the other side where the same significant items come before.
  lemma SamePlace(items: seq<Item>, others: seq<Item>, i: nat) returns (j: nat)
    requires Significant(items) == Significant(others) && i < |items| && IsSignificant(items[i])
    ensures j < |others| && others[j] == items[i] && Significant(others[..j]) == Significant(items[..i])
  {
    SignificantPrefix(items, i);
    j := PlaceOf(others, |Significant(items[..i])|);
  }

  // After a literal comes something significant.
  predicate AreClosed(items: seq<Item>) {
    forall k | 0 <= k < |items| && items[k].Literal? :: k + 1 < |items| && IsSignificant(items[k + 1])
  }

  lemma {:induction false} NoLiteralLast(items: seq<Item>, k: nat)
    requires AreClosed(items) && k <= |items| && !EndsInLiteral(items[..k])
    ensures !EndsInLiteral(Significant(items[..k]))
    decreases k
  {
    if k > 0 {
      var (before, item) := (items[..k - 1], items[k - 1]);
      assert items[..k] == before + [item];
      SignificantSnoc(before, item);
      if !IsSignificant(item) {
        assert k > 1 ==> !items[k - 2].Literal?;
        NoLiteralLast(items, k - 1);
      }
    }
  }

  // So a delimiter is what comes after a literal among the significant items.
  lemma DelimiterBySign(items: seq<Item>, i: nat)
    requires AreClosed(items) && i < |items|
    ensures IsDelimiter(items, i) <==> EndsInLiteral(Significant(items[..i]))
  {
    if IsDelimiter(items, i) {
      assert items[..i] == items[..i - 1] + [items[i - 1]];
      SignificantSnoc(items[..i - 1], items[i - 1]);
    } else {
      NoLiteralLast(items, i);
    }
  }

  // ---- What is written obeys the same rules ----

  // A slash of the code that starts a line after a character that would, in hand, make it start
  // a regular expression.
  predicate IsStray(items: seq<Item>, i: nat)
    requires i < |items|
  {
    && items[i] == Code(SLASH) && !IsDelimiter(items, i) && HandOf(items[..i]) == NEWLINE
    && LastSign(Significant(items[..i])) in {'}' as int, '+' as int, '-' as int}
  }

  lemma StrayIff(hand: int, sign: int)
    requires IsHandAfter(hand, sign) && !BeforeRegExp(hand)
    ensures BeforeRegExp(sign) <==> hand == NEWLINE && sign in {'}' as int, '+' as int, '-' as int}
  {
  }

  lemma HandBeforeRegExp(hand: int, sign: int)
    requires IsHandAfter(hand, sign) && BeforeRegExp(hand)
    ensures BeforeRegExp(sign)
  {
  }

  ghost predicate AllRules(items: seq<Item>) {
    forall i | 0 <= i < |items| :: RuleAt(items, i)
  }

  lemma ClosedLexed(items: seq<Item>)
    requires AllRules(items)
    ensures AreClosed(items)
  {
    hide HandOf, IsRegExp, IsString, BeforeRegExp;
    forall k | 0 <= k < |items| && items[k].Literal?
      ensures k + 1 < |items| && IsSignificant(items[k + 1])
    {
      assert RuleAt(items, k);
    }
  }

  // A literal is written right before its delimiter.
  lemma DelimiterIsWritten(lexed: seq<Item>, written: seq<Item>, k: nat)
    requires AllRules(lexed) && IsOutputOf(lexed, written) && k < |written| && written[k].Literal?
    ensures written[k].text != [] && k + 1 < |written| && written[k + 1] == Code(written[k].text[0])
    ensures IsSignificant(written[k + 1])
  {
    hide HandOf, IsRegExp, IsString, BeforeRegExp, Significant, AreApart, AreNeeded, NoComments;
    var j := SamePlace(written, lexed, k);
    assert RuleAt(lexed, j);
    var r := |Significant(written[..k])|;
    assert lexed[..j + 1] == lexed[..j] + [lexed[j]] && written[..k + 1] == written[..k] + [written[k]];
    SignificantSnoc(lexed[..j], lexed[j]);
    SignificantSnoc(written[..k], written[k]);
    SignificantPrefix(lexed, j + 1);
    assert Significant(lexed)[r + 1] == lexed[j + 1];
    assert written[..|written|] == written;
    NotBlankAfterLiteral(written, k);
    SignificantPrefix(written, k + 1);
  }

  lemma NotBlankAfterLiteral(written: seq<Item>, k: nat)
    requires AreNeeded(written) && NoComments(written) && k + 1 < |written| && written[k].Literal?
    ensures IsSignificant(written[k + 1])
  {
    assert IsNeededAt(written, k + 1);
    assert written[..k + 1][k] == written[k];
  }

  lemma ClosedWritten(lexed: seq<Item>, written: seq<Item>)
    requires AllRules(lexed) && IsOutputOf(lexed, written)
    ensures AreClosed(written)
  {
    hide AllRules, IsOutputOf;
    forall k | 0 <= k < |written| && written[k].Literal?
      ensures k + 1 < |written| && IsSignificant(written[k + 1])
    {
      DelimiterIsWritten(lexed, written, k);
    }
  }

  // The rule for an item that is written holds, except for a stray slash.
  lemma RuleForWritten(lexed: seq<Item>, written: seq<Item>, i: nat, j: nat)
    requires AllRules(lexed) && IsOutputOf(lexed, written) && i < |written| && j < |lexed|
    requires IsSignificant(written[i]) && lexed[j] == written[i]
    requires Significant(lexed[..j]) == Significant(written[..i])
    ensures RuleAt(written, i) <==> !IsStray(lexed, j)
  {
    hide HandOf, IsRegExp, IsString, BeforeRegExp, Significant, AreApart, IsHandAfter, LastSign;
    ClosedLexed(lexed);
    ClosedWritten(lexed, written);
    DelimiterBySign(lexed, j);
    DelimiterBySign(written, i);
    assert RuleAt(lexed, j);
    var sign := LastSign(Significant(written[..i]));
    if written[i].Literal? {
      DelimiterIsWritten(lexed, written, i);
      if i > 0 && written[i - 1].Literal? {
        DelimiterIsWritten(lexed, written, i - 1);
      }
      HandOfWritten(written, i);
      HandsOfLexed(lexed, j);
      if written[i].text[0] == SLASH {
        HandBeforeRegExp(HandOf(lexed[..j]), sign);
      }
    } else if !IsDelimiter(written, i) && written[i] == Code(SLASH) {
      HandOfWritten(written, i);
      HandsOfLexed(lexed, j);
      StrayIff(HandOf(lexed[..j]), sign);
    }
  }

  lemma {:induction false} CharactersByItem(items: seq<Item>)
    ensures AreCharacters(Text(items)) <==> forall i | 0 <= i < |items| :: AreCharacters(Source(items[i]))
  {
    hide Source;
    if items == [] {
      NoText();
    } else {
      var (init, last) := (items[..|items| - 1], items[|items| - 1]);
      assert items == init + [last];
      CharactersByItem(init);
      TextSnoc(init, last);
      CharactersJoin(Text(init), Source(last));
    }
  }

  lemma CharactersJoin(s: seq<int>, t: seq<int>)
    ensures AreCharacters(s + t) <==> AreCharacters(s) && AreCharacters(t)
  {
    if AreCharacters(s + t) {
      CharactersOf(s, t);
    }
  }

  lemma WrittenCharacters(lexed: seq<Item>, written: seq<Item>)
    requires NoComments(written) && Significant(written) == Significant(lexed) && AreCharacters(Text(lexed))
    ensures AreCharacters(Text(written))
  {
    hide Text, Significant;
    CharactersByItem(lexed);
    CharactersByItem(written);
    forall i | 0 <= i < |written|
      ensures AreCharacters(Source(written[i]))
    {
      if IsSignificant(written[i]) {
        var j := SamePlace(written, lexed, i);
        assert AreCharacters(Source(lexed[j]));
      }
    }
  }

  // The output obeys the grammar exactly when no slash is stray.
  lemma WrittenIsLexed(lexed: seq<Item>, written: seq<Item>)
    requires IsLexed(lexed, NEWLINE) && IsOutputOf(lexed, written)
    ensures IsLexed(written, NEWLINE) <==> forall j | 0 <= j < |lexed| :: !IsStray(lexed, j)
  {
    hide IsLexed, RuleAt, IsStray;
    forall j | 0 <= j < |lexed|
      ensures RuleAt(lexed, j)
    {
      LexedRules(lexed, j);
    }
    if IsLexed(written, NEWLINE) {
      forall j | 0 <= j < |lexed|
        ensures !IsStray(lexed, j)
      {
        if IsStray(lexed, j) {
          StrayIsSlash(lexed, j);
          var i := SamePlace(lexed, written, j);
          LexedRules(written, i);
          RuleForWritten(lexed, written, i, j);
        }
      }
    }
    if forall j | 0 <= j < |lexed| :: !IsStray(lexed, j) {
      forall i | 0 <= i < |written|
        ensures RuleAt(written, i)
      {
        if IsSignificant(written[i]) {
          var j := SamePlace(written, lexed, i);
          RuleForWritten(lexed, written, i, j);
        } else {
          BlankObeys(written, i);
        }
      }
      assert written[0..] == written && written[..0] == [];
      RulesToLexed(written, 0);
      assert HandOf([]) == NEWLINE;
    }
  }

  lemma StrayIsSlash(items: seq<Item>, j: nat)
    requires j < |items| && IsStray(items, j)
    ensures IsSignificant(items[j])
  {
  }

  lemma BlankObeys(items: seq<Item>, i: nat)
    requires i < |items| && NoComments(items) && !IsSignificant(items[i])
    ensures RuleAt(items, i)
  {
  }

  // Lexed again, the output gives what was written, exactly when the input has no stray slash.
  lemma OutputMeansInput(s: seq<int>, written: seq<Item>)
    requires AreCharacters(s) && Lex(s, NEWLINE).Some? && IsOutputOf(Lex(s, NEWLINE).value, written)
    ensures Lex(Text(written), NEWLINE) == Some(written)
       <==> forall j | 0 <= j < |Lex(s, NEWLINE).value| :: !IsStray(Lex(s, NEWLINE).value, j)
  {
    hide Lex, IsLexed, Text, IsStray;
    var lexed := Lex(s, NEWLINE).value;
    LexObeys(s, NEWLINE);
    WrittenCharacters(lexed, written);
    WrittenIsLexed(lexed, written);
    LexIff(Text(written), NEWLINE, written);
  }

  const BRACE := '}' as int

  lemma StrayInput()
    ensures IsLexed([Code(BRACE), Code(NEWLINE), Code(SLASH)], NEWLINE)
  {
    var lexed := [Code(BRACE), Code(NEWLINE), Code(SLASH)];
    assert IsLexed(lexed[2..], NEWLINE);
    assert lexed[1..][1..] == lexed[2..];
    assert IsLexed(lexed[1..], BRACE);
  }

  lemma StrayOutput()
    ensures Lex([BRACE, SLASH], NEWLINE) == None
  {
    LexUnfolds([BRACE, SLASH], NEWLINE);
    LexUnfolds([SLASH], BRACE);
    assert [BRACE, SLASH][1..] == [SLASH];
  }

  lemma StraySame()
    ensures IsOutputOf([Code(BRACE), Code(NEWLINE), Code(SLASH)], [Code(BRACE), Code(SLASH)])
  {
    var (brace, line, slash) := (Code(BRACE), Code(NEWLINE), Code(SLASH));
    SignificantSnoc([], brace);
    SignificantSnoc([brace], line);
    SignificantSnoc([brace, line], slash);
    SignificantSnoc([brace], slash);
    assert [brace, line, slash] == [] + [brace] + [line] + [slash];
    assert [brace, slash] == [] + [brace] + [slash];
  }

  // For example, a brace, a linefeed and a slash: without the linefeed, the slash starts a
  // regular expression that does not end.
  lemma StrayExample() returns (s: seq<int>, written: seq<Item>)
    ensures Lex(s, NEWLINE).Some? && IsOutputOf(Lex(s, NEWLINE).value, written)
    ensures Lex(Text(written), NEWLINE) == None
  {
    hide Lex, IsLexed, IsOutputOf, Text;
    s, written := [BRACE, NEWLINE, SLASH], [Code(BRACE), Code(SLASH)];
    StrayInput();
    TextOfCodes([Code(BRACE), Code(NEWLINE), Code(SLASH)], s);
    LexIff(s, NEWLINE, [Code(BRACE), Code(NEWLINE), Code(SLASH)]);
    StraySame();
    TextOfCodes(written, [BRACE, SLASH]);
    StrayOutput();
  }

  lemma {:induction false} TextOfCodes(items: seq<Item>, s: seq<int>)
    requires |items| == |s| && forall i | 0 <= i < |s| :: items[i] == Code(s[i])
    ensures Text(items) == s
  {
    if s != [] {
      TextOfCodes(items[..|s| - 1], s[..|s| - 1]);
    }
  }
}
