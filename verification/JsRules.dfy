// The lexical rules item by item: what each item asks of the character in hand before it and of
// the items next to it.
module JsRules {
  import opened JsLex
  import opened JsOutput

  // ---- Hands ----

  // The character that an item is read as: a comment is read as a blank.
  function CharOf(item: Item): int {
    match item
    case Code(c) => c
    case Comment(text) => if |text| >= 2 && text[1] == SLASH then NEWLINE else SPACE
    case Literal(_) => EOF
  }

  function NextHand(hand: int, item: Item): int {
    if item.Literal? then hand else After(hand, CharOf(item))
  }

  // The character in hand after the items.
  function HandOf(items: seq<Item>): int {
    if items == [] then NEWLINE else NextHand(HandOf(items[..|items| - 1]), items[|items| - 1])
  }

  lemma HandSnoc(items: seq<Item>, item: Item)
    ensures HandOf(items + [item]) == NextHand(HandOf(items), item)
  {
    assert (items + [item])[..|items|] == items;
  }

  // ---- The rules item by item ----

  predicate IsDelimiter(items: seq<Item>, i: nat)
    requires i < |items|
  {
    i > 0 && items[i - 1].Literal?
  }

  predicate LiteralAt(items: seq<Item>, i: nat, text: seq<int>)
    requires i < |items|
  {
    && text != [] && i + 1 < |items| && items[i + 1] == Code(text[0])
    && if text[0] == SLASH then BeforeRegExp(HandOf(items[..i])) && IsRegExp(text)
       else IsQuote(text[0]) && IsString(text)
  }

  predicate RuleAt(items: seq<Item>, i: nat)
    requires i < |items|
  {
    match items[i]
    case Code(c) => IsDelimiter(items, i) || (!IsQuote(c) && (c == SLASH ==> !BeforeRegExp(HandOf(items[..i]))))
    case Literal(text) => LiteralAt(items, i, text)
    case Comment(_) => true
  }

  lemma {:induction false} RulesToLexed(items: seq<Item>, k: nat)
    requires NoComments(items) && AreApart(items) && k <= |items|
    requires forall i | 0 <= i < |items| :: RuleAt(items, i)
    requires k < |items| ==> !IsDelimiter(items, k)
    ensures IsLexed(items[k..], HandOf(items[..k]))
    decreases |items| - k
  {
    hide HandOf, IsRegExp, IsString, BeforeRegExp, After;
    if k < |items| {
      assert RuleAt(items, k);
      var (item, others) := (items[k], items[k + 1..]);
      assert items[k..] == [item] + others && items[..k + 1] == items[..k] + [item];
      HandSnoc(items[..k], item);
      if item.Code? {
        if k + 1 < |items| {
          assert IsApartAt(items, k);
        }
        RulesToLexed(items, k + 1);
      } else {
        var c := item.text[0];
        assert items[..k + 2] == items[..k] + [item] + [Code(c)];
        HandSnoc(items[..k] + [item], Code(c));
        NotSkipped(HandOf(items[..k]), c);
        if k + 2 < |items| {
          assert IsApartAt(items, k + 1);
        }
        RulesToLexed(items, k + 2);
        assert items[k + 2..] == others[1..];
      }
    }
  }

  lemma NotSkipped(hand: int, c: int)
    requires !IsBlank(c)
    ensures After(hand, c) == c
  {
  }

  // And back.
  lemma {:induction false} LexedToRules(items: seq<Item>, k: nat, i: nat)
    requires k <= i < |items| && IsLexed(items[k..], HandOf(items[..k])) && !IsDelimiter(items, k)
    ensures RuleAt(items, i)
    decreases |items| - k
  {
    hide HandOf, IsRegExp, IsString, BeforeRegExp, After;
    var (item, others) := (items[k], items[k + 1..]);
    assert items[k..] == [item] + others && items[..k + 1] == items[..k] + [item];
    HandSnoc(items[..k], item);
    if i > k {
      if item.Literal? {
        var c := item.text[0];
        assert items[..k + 2] == items[..k] + [item] + [Code(c)];
        assert items[k + 2..] == others[1..];
        HandSnoc(items[..k] + [item], Code(c));
        NotSkipped(HandOf(items[..k]), c);
        if i > k + 1 {
          LexedToRules(items, k + 2, i);
        }
      } else {
        CommentHand(item, HandOf(items[..k]), others);
        LexedToRules(items, k + 1, i);
      }
    }
  }

  // A comment leaves the hand that the grammar says.
  lemma CommentHand(item: Item, hand: int, others: seq<Item>)
    requires IsLexed([item] + others, hand) && !item.Literal? && others != []
    ensures IsLexed(others, NextHand(hand, item))
  {
    hide After, BeforeRegExp;
    assert ([item] + others)[1..] == others;
  }

  lemma LexedRules(items: seq<Item>, i: nat)
    requires IsLexed(items, NEWLINE) && i < |items|
    ensures RuleAt(items, i)
  {
    hide IsLexed, RuleAt;
    assert items[0..] == items && items[..0] == [];
    assert HandOf(items[..0]) == NEWLINE;
    LexedToRules(items, 0, i);
  }

  // In the lexing of an input, no slash of the code comes right before what would make a comment.
  lemma {:induction false} LexedIsApart(items: seq<Item>, hand: int)
    requires IsLexed(items, hand)
    ensures AreApart(items)
    decreases |items|
  {
    hide IsRegExp, IsString, BeforeRegExp, After;
    if items != [] {
      var (item, others) := (items[0], items[1..]);
      if item.Literal? {
        var rest := others[1..];
        LexedIsApart(rest, item.text[0]);
        assert others == [Code(item.text[0])] + rest;
        ApartCons(Code(item.text[0]), rest);
        ApartCons(item, others);
      } else {
        if others != [] {
          CommentHand(item, hand, others);
          assert [item] + others == items;
          LexedIsApart(others, NextHand(hand, item));
        }
        ApartCons(item, others);
      }
      assert [item] + others == items;
    }
  }

  lemma ApartCons(item: Item, others: seq<Item>)
    requires AreApart(others) && (item == Code(SLASH) ==> StartsApart(others))
    ensures AreApart([item] + others)
  {
    var items := [item] + others;
    forall i | 0 <= i < |items| - 1
      ensures IsApartAt(items, i)
    {
      if i > 0 {
        assert IsApartAt(others, i - 1);
      }
    }
  }

  // ---- The hand, exactly ----

  // Whether a linefeed has been read since the last significant item; if there is none, since
  // the start, as given.
  predicate Breaks(items: seq<Item>, start: bool) {
    if items == [] then start
    else
      var last := items[|items| - 1];
      !IsSignificant(last) && (CharOf(last) == NEWLINE || Breaks(items[..|items| - 1], start))
  }

  lemma BreaksSnoc(items: seq<Item>, item: Item, start: bool)
    ensures Breaks(items + [item], start) ==
            (!IsSignificant(item) && (CharOf(item) == NEWLINE || Breaks(items, start)))
  {
    assert (items + [item])[..|items|] == items;
  }

  predicate EndsInBlank(items: seq<Item>) {
    items != [] && !IsSignificant(items[|items| - 1])
  }

  // Whether a linefeed may follow the last significant character.
  predicate EndsSign(sign: int) {
    sign == NEWLINE || IsAlphanum(sign) || EndsLine(sign)
  }

  predicate IsHand(items: seq<Item>) {
    var sign := LastSign(Significant(items));
    HandOf(items) ==
    if Breaks(items, true) && EndsSign(sign) then NEWLINE
    else if EndsInBlank(items) && IsAlphanum(sign) then SPACE
    else sign
  }

  // Unless a delimiter comes next, in hand is the last significant character, or the blank that
  // is kept after it.
  lemma {:induction false} HandIs(items: seq<Item>, k: nat)
    requires forall i | 0 <= i < |items| :: RuleAt(items, i)
    requires k <= |items| && !EndsInLiteral(items[..k])
    ensures !EndsInLiteral(Significant(items[..k])) && LastSign(Significant(items[..k])) != SPACE
    ensures IsHand(items[..k])
    decreases k
  {
    hide IsHand, IsRegExp, IsString, BeforeRegExp, HandOf, Significant;
    if k == 0 {
      NothingInHand();
    } else {
      var (before, item) := (items[..k - 1], items[k - 1]);
      assert items[..k] == before + [item];
      SignificantSnoc(before, item);
      if EndsInLiteral(before) {
        assert RuleAt(items, k - 2);
        HandOfDelimiter(before, item.c);
      } else {
        HandIs(items, k - 1);
        HandGoesOn(before, item);
      }
    }
  }

  lemma NothingInHand()
    ensures Significant([]) == [] && IsHand([])
  {
  }

  lemma HandOfDelimiter(items: seq<Item>, c: int)
    requires !IsBlank(c)
    ensures IsHand(items + [Code(c)])
  {
    hide HandOf, Significant, Breaks;
    HandSnoc(items, Code(c));
    SignificantSnoc(items, Code(c));
    BreaksSnoc(items, Code(c), true);
    NotSkipped(HandOf(items), c);
  }

  lemma HandGoesOn(items: seq<Item>, item: Item)
    requires IsHand(items) && !item.Literal? && LastSign(Significant(items)) != SPACE
    ensures IsHand(items + [item])
  {
    hide Significant, Breaks, HandOf;
    HandSnoc(items, item);
    SignificantSnoc(items, item);
    BreaksSnoc(items, item, true);
  }
}
