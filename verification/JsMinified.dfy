// The output of the minifier as a function of its lexed input: what is written before each
// significant item. What the functions of JsOutput say of it are its properties.
module JsMinified {
  import opened JsLex
  import opened JsOutput
  import opened JsRules

  // ---- The output ----

  // The blank written before the next item: the one in hand, if it may come before the item;
  // else the last one read, between two operators; or a space before a regular expression.
  function Gap(before: seq<Item>, next: Item): seq<Item> {
    if before == [] || !before[|before| - 1].Literal? then
      var hand := HandOf(before);
      if IsBlank(hand) then
        if MayStart(hand, next) then [Code(hand)] else []
      else match next
        case Code(c) =>
          var blank := LastChar(before);
          if IsOperator(hand) && IsOperator(c) && IsBlank(blank) then [Code(blank)] else []
        case Literal(text) => if StartsComment(hand) && First(text) == SLASH then [Code(SPACE)] else []
        case Comment(_) => []
    else []
  }

  function LastChar(items: seq<Item>): int {
    if items == [] then EOF else CharOf(items[|items| - 1])
  }

  function Minified(items: seq<Item>): seq<Item> {
    if items == [] then []
    else
      var (init, last) := (items[..|items| - 1], items[|items| - 1]);
      Minified(init) + if IsSignificant(last) then Gap(init, last) + [last] else []
  }

  lemma MinifiedSnoc(items: seq<Item>, item: Item)
    ensures Minified(items + [item]) == Minified(items) + if IsSignificant(item) then Gap(items, item) + [item] else []
  {
    assert (items + [item])[..|items|] == items;
  }

  // ---- Item by item ----

  // What the rules say of an item that comes after the given ones.
  predicate MayFollow(items: seq<Item>, item: Item) {
    if EndsInLiteral(items) then item.Code? && !IsBlank(item.c)
    else
      && IsHand(items) && !EndsInLiteral(Significant(items)) && LastSign(Significant(items)) != SPACE
      && (item == Code(SLASH) ==> !BeforeRegExp(HandOf(items)))
      && (item.Literal? ==> First(item.text) == SLASH || IsQuote(First(item.text)))
      && (EndsInSlash(items) ==> !StartsComment(First(Source(item))))
  }

  lemma LexedFollow(lexed: seq<Item>, k: nat)
    requires IsLexed(lexed, NEWLINE) && k < |lexed|
    ensures MayFollow(lexed[..k], lexed[k])
  {
    hide IsLexed, RuleAt, IsHand, HandOf, Significant, Source, StartsComment, BeforeRegExp, First, IsQuote;
    forall i | 0 <= i < |lexed|
      ensures RuleAt(lexed, i)
    {
      LexedRules(lexed, i);
    }
    LexedIsApart(lexed, NEWLINE);
    if k > 0 {
      assert IsApartAt(lexed, k - 1);
    }
    RuleFollows(lexed, k);
    if !EndsInLiteral(lexed[..k]) {
      HandIs(lexed, k);
    }
  }

  lemma RuleFollows(items: seq<Item>, k: nat)
    requires k < |items| && RuleAt(items, k) && (k > 0 ==> RuleAt(items, k - 1))
    ensures EndsInLiteral(items[..k]) ==> items[k].Code? && !IsBlank(items[k].c)
    ensures !EndsInLiteral(items[..k]) && items[k] == Code(SLASH) ==> !BeforeRegExp(HandOf(items[..k]))
    ensures items[k].Literal? ==> First(items[k].text) == SLASH || IsQuote(First(items[k].text))
  {
    hide HandOf, BeforeRegExp, IsRegExp, IsString;
  }

  // The output ends in the significant item that was read last.
  predicate EndsAlike(items: seq<Item>, written: seq<Item>) {
    var significant := Significant(items);
    if significant == [] then written == []
    else written != [] && written[|written| - 1] == significant[|significant| - 1]
  }

  lemma {:induction false} MinifiedEnds(items: seq<Item>)
    ensures EndsAlike(items, Minified(items))
  {
    if items != [] {
      var (init, last) := (items[..|items| - 1], items[|items| - 1]);
      assert items == init + [last];
      SignificantSnoc(init, last);
      MinifiedEnds(init);
    }
  }

  lemma {:induction false} SignIs(items: seq<Item>, written: seq<Item>)
    requires EndsAlike(items, written) && !EndsInLiteral(Significant(items))
    ensures var sign := LastSign(Significant(items));
            if written == [] then sign == NEWLINE && Breaks(items, true)
            else written[|written| - 1] == Code(sign) && !IsBlank(sign)
  {
    if items != [] {
      var (init, last) := (items[..|items| - 1], items[|items| - 1]);
      if !IsSignificant(last) {
        SignIs(init, written);
      }
    }
  }

  // Without blanks after it, the last significant item is the last item.
  lemma LastIsSign(items: seq<Item>, written: seq<Item>)
    requires EndsAlike(items, written) && !EndsInBlank(items)
    ensures if items == [] then written == []
            else written != [] && written[|written| - 1] == items[|items| - 1] && !Breaks(items, true)
  {
  }

  // The gap by the last significant character instead of the one in hand.
  lemma GapBySign(items: seq<Item>, written: seq<Item>, item: Item)
    requires MayFollow(items, item) && EndsAlike(items, written) && !EndsInLiteral(items)
    ensures var sign := LastSign(Significant(items));
            Gap(items, item) ==
            if Breaks(items, true) && EndsSign(sign) then
              if MayStart(NEWLINE, item) then [Code(NEWLINE)] else []
            else if EndsInBlank(items) && IsAlphanum(sign) then
              if MayStart(SPACE, item) then [Code(SPACE)] else []
            else match item
              case Code(c) =>
                var blank := LastChar(items);
                if IsOperator(sign) && IsOperator(c) && IsBlank(blank) then [Code(blank)] else []
              case Literal(text) => if StartsComment(sign) && First(text) == SLASH then [Code(SPACE)] else []
              case Comment(_) => []
  {
    hide HandOf, Significant, Breaks, BeforeRegExp, IsAlphanum, MayStart;
    SignIs(items, written);
  }

  // What comes before the next item: nothing, or one blank that is needed there.
  lemma GapIsNeeded(items: seq<Item>, written: seq<Item>, item: Item)
    requires MayFollow(items, item) && IsSignificant(item) && EndsAlike(items, written)
    ensures var gap := Gap(items, item);
            || gap == []
            || (gap[0].Code? && gap == [Code(gap[0].c)] && IsBlank(gap[0].c) && IsNeeded(written, gap[0].c, item))
  {
    hide HandOf, Significant, Breaks;
    if !EndsInLiteral(items) {
      SignIs(items, written);
      GapBySign(items, written, item);
      OperatorIsBeforeRegExp(HandOf(items));
    }
  }

  lemma OperatorIsBeforeRegExp(c: int)
    ensures IsOperator(c) ==> BeforeRegExp(c)
  {
  }

  // It keeps a slash apart from what would make a comment of it.
  lemma GapKeepsApart(items: seq<Item>, written: seq<Item>, item: Item)
    requires MayFollow(items, item) && IsSignificant(item) && EndsAlike(items, written)
    requires Gap(items, item) == [] && EndsInSlash(written)
    ensures !StartsComment(First(Source(item)))
  {
    hide HandOf, Significant, Breaks, Gap;
    if !EndsInBlank(items) {
      LastIsSign(items, written);
    } else {
      SignIs(items, written);
      GapBySign(items, written, item);
    }
  }

  // And it keeps words apart, but not the characters of one word.
  lemma GapJoins(items: seq<Item>, written: seq<Item>, item: Item)
    requires MayFollow(items, item) && IsSignificant(item) && EndsAlike(items, written) && IsWordChar(item)
    ensures EndsInWord(items) <==> EndsInWord(written) && Gap(items, item) == []
  {
    hide HandOf, Significant, Breaks;
    if !EndsInBlank(items) {
      LastIsSign(items, written);
    }
    if !EndsInLiteral(items) {
      SignIs(items, written);
      GapBySign(items, written, item);
    }
  }

  // ---- What is written is an output of the input ----

  lemma NeededSnoc(written: seq<Item>, gap: seq<Item>, item: Item)
    requires AreNeeded(written) && IsSignificant(item)
    requires gap == [] || (gap[0].Code? && gap == [Code(gap[0].c)] && IsNeeded(written, gap[0].c, item))
    ensures AreNeeded(written + gap + [item])
  {
    hide IsNeeded;
    var all := written + gap + [item];
    forall i | 0 <= i < |all|
      ensures IsNeededAt(all, i)
    {
      assert i <= |written| ==> all[..i] == written[..i];
      if i < |written| {
        assert IsNeededAt(written, i);
      } else if i == |written| {
        assert written[..i] == written;
      }
    }
  }

  ghost predicate IsMade(items: seq<Item>, written: seq<Item>) {
    IsOutputOf(items, written) && Joins(written) == Joins(items)
  }

  // One blank more or none, and the item.
  lemma GapSnoc(written: seq<Item>, gap: seq<Item>, item: Item)
    requires gap == [] || (gap[0].Code? && gap == [Code(gap[0].c)] && IsBlank(gap[0].c))
    requires IsSignificant(item)
    ensures var all := written + gap + [item];
            && Significant(all) == Significant(written) + [item]
            && Joins(all) == Joins(written) + [gap == [] && EndsInWord(written) && IsWordChar(item)]
            && (NoComments(written) ==> NoComments(all))
  {
    hide Significant, Joins, EndsInWord, IsWordChar;
    if gap == [] {
      assert written + gap == written;
      SignificantSnoc(written, item);
    } else {
      SignificantSnoc(written, gap[0]);
      SignificantSnoc(written + gap, item);
      BlanksAreNotWords();
      BlankIsNotWord(gap[0].c);
    }
  }

  lemma BlankIsNotWord(c: int)
    requires IsBlank(c)
    ensures !IsWordChar(Code(c)) && !IsSignificant(Code(c))
  {
  }

  lemma MadeGoesOn(items: seq<Item>, written: seq<Item>, item: Item)
    requires MayFollow(items, item) && IsSignificant(item) && EndsAlike(items, written) && IsMade(items, written)
    ensures IsMade(items + [item], written + (Gap(items, item) + [item]))
  {
    hide MayFollow, EndsAlike, Significant, Joins, EndsInWord, IsWordChar, AreNeeded, NoComments, IsNeeded, Gap, Source;
    hide AreApart;
    var gap := Gap(items, item);
    assert written + (gap + [item]) == written + gap + [item];
    GapIsNeeded(items, written, item);
    NeededSnoc(written, gap, item);
    GapSnoc(written, gap, item);
    SignificantSnoc(items, item);
    if IsWordChar(item) {
      GapJoins(items, written, item);
    }
    if gap == [] {
      if EndsInSlash(written) {
        GapKeepsApart(items, written, item);
      }
      assert written + gap == written;
      ApartSnoc(written, item);
    } else {
      ApartBlank(written, gap[0].c, item);
    }
  }

  lemma ApartBlank(written: seq<Item>, blank: int, item: Item)
    requires AreApart(written) && IsBlank(blank)
    ensures AreApart(written + [Code(blank)] + [item])
  {
    hide AreApart;
    ApartSnoc(written, Code(blank));
    ApartSnoc(written + [Code(blank)], item);
  }

  lemma {:induction false} PrefixIsMade(lexed: seq<Item>, k: nat)
    requires IsLexed(lexed, NEWLINE) && k <= |lexed|
    ensures IsMade(lexed[..k], Minified(lexed[..k]))
    decreases k
  {
    hide IsLexed, MayFollow, EndsAlike, IsMade, Minified, Gap;
    if k == 0 {
      NothingIsMade();
    } else {
      var (items, item) := (lexed[..k - 1], lexed[k - 1]);
      assert lexed[..k] == items + [item];
      PrefixIsMade(lexed, k - 1);
      MinifiedSnoc(items, item);
      MinifiedEnds(items);
      if IsSignificant(item) {
        LexedFollow(lexed, k - 1);
        MadeGoesOn(items, Minified(items), item);
      } else {
        MadeSkips(items, Minified(items), item);
      }
    }
  }

  lemma NothingIsMade()
    ensures IsMade([], Minified([]))
  {
  }

  lemma MadeSkips(items: seq<Item>, written: seq<Item>, item: Item)
    requires IsMade(items, written) && !IsSignificant(item)
    ensures IsMade(items + [item], written + [])
  {
    SignificantSnoc(items, item);
    assert written + [] == written;
  }

  // The output has the significant items of the input, in order and run together into the same
  // words, no comments, not even new ones, and only blanks that are needed.
  lemma MinifiedIsOutput(lexed: seq<Item>)
    requires IsLexed(lexed, NEWLINE)
    ensures IsOutputOf(lexed, Minified(lexed)) && Joins(Minified(lexed)) == Joins(lexed)
  {
    hide IsLexed;
    PrefixIsMade(lexed, |lexed|);
    assert lexed[..|lexed|] == lexed;
  }

  // ---- Which blanks are kept ----

  predicate IsOperatorItem(item: Item) {
    item.Code? && IsOperator(item.c)
  }

  predicate EndsInOperator(items: seq<Item>) {
    items != [] && IsOperatorItem(items[|items| - 1])
  }

  // How a significant item is set: whether it is an operator right after another one; whether a
  // linefeed comes between it and the significant item before it; and whether one comes right
  // before it.
  datatype Setting = Setting(meets: bool, onNewLine: bool, afterLinefeed: bool)

  function SettingOf(before: seq<Item>, item: Item, start: bool): Setting {
    Setting(EndsInOperator(before) && IsOperatorItem(item), Breaks(before, start), LastChar(before) == NEWLINE)
  }

  function Settings(items: seq<Item>, start: bool): seq<Setting> {
    if items == [] then []
    else
      var (init, last) := (items[..|items| - 1], items[|items| - 1]);
      Settings(init, start) + if IsSignificant(last) then [SettingOf(init, last, start)] else []
  }

  lemma SettingsSnoc(items: seq<Item>, item: Item, start: bool)
    ensures Settings(items + [item], start) ==
            Settings(items, start) + if IsSignificant(item) then [SettingOf(items, item, start)] else []
  {
    assert (items + [item])[..|items|] == items;
  }

  const PLUS := Code('+' as int)
  const MINUS := Code('-' as int)

  // An operator that ends a line and one that does not start one. The linefeed between them is
  // dropped.
  predicate IsLost(before: seq<Item>, next: Item) {
    && before != [] && before[|before| - 1] in {PLUS, MINUS}
    && next in {Code(STAR), Code(SLASH)}
  }

  // An operator that does not end a line, and another one. The last blank between them is kept.
  predicate IsHeld(before: seq<Item>, next: Item) {
    before != [] && before[|before| - 1] in {Code(STAR), Code(SLASH)} && IsOperatorItem(next)
  }

  // How an item is set in the output, by how it is set in the input and the significant items
  // before it. In the input a line starts at the start.
  predicate IsSetAs(before: seq<Item>, item: Item, given: Setting, made: Setting) {
    && (made.meets <==> given.meets || (given.onNewLine && IsLost(before, item)))
    && (made.onNewLine <==>
          || (given.onNewLine && MayEnd(before, NEWLINE) && MayStart(NEWLINE, item))
          || (given.afterLinefeed && IsHeld(before, item)))
  }

  predicate AreSet(items: seq<Item>, written: seq<Item>) {
    var (significant, given, made) := (Significant(items), Settings(items, true), Settings(written, false));
    && |significant| == |given| == |made|
    && forall r | 0 <= r < |significant| :: IsSetAs(significant[..r], significant[r], given[r], made[r])
  }

  lemma SignificantBreaks(items: seq<Item>)
    ensures (items == [] || IsSignificant(items[|items| - 1])) ==> !Breaks(items, false)
    ensures LastChar(items) == NEWLINE && EndsInBlank(items) ==> Breaks(items, true)
    ensures LastChar(items) == NEWLINE ==> EndsInBlank(items)
  {
  }

  // The gap alone decides how the item after it is set.
  lemma SetByGap(written: seq<Item>, gap: seq<Item>, item: Item)
    requires written == [] || IsSignificant(written[|written| - 1])
    requires gap == [] || (gap[0].Code? && gap == [Code(gap[0].c)] && IsBlank(gap[0].c))
    ensures var made := SettingOf(written + gap, item, false);
            && made.meets == (gap == [] && EndsInOperator(written) && IsOperatorItem(item))
            && made.onNewLine == (gap == [Code(NEWLINE)])
  {
    hide Breaks;
    SignificantBreaks(written);
    if gap == [] {
      assert written + gap == written;
    } else {
      BreaksSnoc(written, gap[0], false);
    }
  }

  lemma GapSets(items: seq<Item>, written: seq<Item>, item: Item)
    requires MayFollow(items, item) && IsSignificant(item) && EndsAlike(items, written)
    requires written == [] || IsSignificant(written[|written| - 1])
    ensures IsSetAs(Significant(items), item, SettingOf(items, item, true),
                    SettingOf(written + Gap(items, item), item, false))
  {
    hide HandOf, Significant, Breaks, Gap;
    GapIsNeeded(items, written, item);
    SetByGap(written, Gap(items, item), item);
    SignificantBreaks(items);
    if !EndsInBlank(items) {
      LastIsSign(items, written);
    }
    if EndsInLiteral(items) {
      assert Gap(items, item) == [] by {
        NoGap(items, item);
      }
    } else {
      SignIs(items, written);
      GapBySign(items, written, item);
    }
  }

  lemma NoGap(items: seq<Item>, item: Item)
    requires EndsInLiteral(items)
    ensures Gap(items, item) == []
  {
  }

  lemma SetGoesOn(items: seq<Item>, written: seq<Item>, item: Item)
    requires MayFollow(items, item) && IsSignificant(item) && EndsAlike(items, written) && AreSet(items, written)
    requires written == [] || IsSignificant(written[|written| - 1])
    ensures AreSet(items + [item], written + (Gap(items, item) + [item]))
  {
    hide MayFollow, EndsAlike, Significant, Gap, Settings, SettingOf, IsSetAs, IsSignificant, IsNeeded;
    var gap := Gap(items, item);
    assert written + (gap + [item]) == written + gap + [item];
    GapSets(items, written, item);
    SignificantSnoc(items, item);
    SettingsSnoc(items, item, true);
    SettingsSnoc(written + gap, item, false);
    assert Settings(written + gap, false) == Settings(written, false) by {
      GapIsNeeded(items, written, item);
      if gap == [] {
        assert written + gap == written;
      } else {
        BlankIsNotWord(gap[0].c);
        SettingsSnoc(written, gap[0], false);
      }
    }
    var (significant, s) := (Significant(items), Significant(items + [item]));
    forall r | 0 <= r < |s|
      ensures s[..r] == if r < |significant| then significant[..r] else significant
    {
    }
  }

  lemma EndsInSignificant(items: seq<Item>, written: seq<Item>)
    requires EndsAlike(items, written)
    ensures written == [] || IsSignificant(written[|written| - 1])
  {
    SignificantOnly(items);
  }

  lemma {:induction false} SignificantOnly(items: seq<Item>)
    ensures forall item | item in Significant(items) :: IsSignificant(item)
  {
    if items != [] {
      SignificantOnly(items[..|items| - 1]);
    }
  }

  lemma {:induction false} PrefixIsSet(lexed: seq<Item>, k: nat)
    requires IsLexed(lexed, NEWLINE) && k <= |lexed|
    ensures AreSet(lexed[..k], Minified(lexed[..k]))
    decreases k
  {
    hide IsLexed, MayFollow, EndsAlike, Minified, Gap, AreSet;
    if k == 0 {
      NothingIsSet();
    } else {
      var (items, item) := (lexed[..k - 1], lexed[k - 1]);
      assert lexed[..k] == items + [item];
      PrefixIsSet(lexed, k - 1);
      MinifiedSnoc(items, item);
      MinifiedEnds(items);
      if IsSignificant(item) {
        LexedFollow(lexed, k - 1);
        EndsInSignificant(items, Minified(items));
        SetGoesOn(items, Minified(items), item);
      } else {
        SetSkips(items, Minified(items), item);
      }
    }
  }

  lemma NothingIsSet()
    ensures AreSet([], Minified([]))
  {
  }

  lemma SetSkips(items: seq<Item>, written: seq<Item>, item: Item)
    requires AreSet(items, written) && !IsSignificant(item)
    ensures AreSet(items + [item], written + [])
  {
    SignificantSnoc(items, item);
    SettingsSnoc(items, item, true);
    assert written + [] == written;
  }

  // Operators stay apart: two of them come together in the output if and only if they do in the
  // input, or the first can end a line, the second cannot start one, and a linefeed was between.
  lemma OperatorsStayApart(lexed: seq<Item>, r: nat)
    requires IsLexed(lexed, NEWLINE) && r < |Significant(lexed)|
    ensures |Settings(lexed, true)| == |Settings(Minified(lexed), false)| == |Significant(lexed)|
    ensures var (s, given) := (Significant(lexed), Settings(lexed, true)[r]);
            Settings(Minified(lexed), false)[r].meets <==>
            given.meets || (given.onNewLine && IsLost(s[..r], s[r]))
  {
    hide IsLexed, Significant, Settings, Minified;
    PrefixIsSet(lexed, |lexed|);
    assert lexed[..|lexed|] == lexed;
    var s := Significant(lexed);
    assert IsSetAs(s[..r], s[r], Settings(lexed, true)[r], Settings(Minified(lexed), false)[r]);
  }

  // Linefeeds are kept where a line may end and another one start, and before an operator that
  // comes right after one, when the operator before it is a star or a slash; and nowhere else.
  lemma LinefeedsAreKept(lexed: seq<Item>, r: nat)
    requires IsLexed(lexed, NEWLINE) && r < |Significant(lexed)|
    ensures |Settings(lexed, true)| == |Settings(Minified(lexed), false)| == |Significant(lexed)|
    ensures var (s, given) := (Significant(lexed), Settings(lexed, true)[r]);
            Settings(Minified(lexed), false)[r].onNewLine <==>
            || (given.onNewLine && MayEnd(s[..r], NEWLINE) && MayStart(NEWLINE, s[r]))
            || (given.afterLinefeed && IsHeld(s[..r], s[r]))
  {
    hide IsLexed, Significant, Settings, Minified;
    PrefixIsSet(lexed, |lexed|);
    assert lexed[..|lexed|] == lexed;
    var s := Significant(lexed);
    assert IsSetAs(s[..r], s[r], Settings(lexed, true)[r], Settings(Minified(lexed), false)[r]);
  }
}
