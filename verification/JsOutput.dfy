// What the minifier of template/gnostr-jsmin.c may change: blanks come and go, and what is left
// is the same words in the same order.
module JsOutput {
  import opened JsLex

  predicate IsOperator(c: int) {
    c == '+' as int || c == '-' as int || c == STAR || c == SLASH
  }

  // ---- The same words ----

  predicate IsSignificant(item: Item) {
    item.Literal? || (item.Code? && !IsBlank(item.c))
  }

  function Significant(items: seq<Item>): seq<Item> {
    if items == [] then []
    else
      var last := items[|items| - 1];
      Significant(items[..|items| - 1]) + if IsSignificant(last) then [last] else []
  }

  // The character that the last significant item left in hand; a linefeed at the start.
  function LastSign(significant: seq<Item>): int {
    if significant == [] || !significant[|significant| - 1].Code? then NEWLINE else significant[|significant| - 1].c
  }

  predicate EndsInLiteral(items: seq<Item>) {
    items != [] && items[|items| - 1].Literal?
  }

  // A character of an identifier, keyword or number.
  predicate IsWordChar(item: Item) {
    item.Code? && IsAlphanum(item.c)
  }

  predicate EndsInWord(items: seq<Item>) {
    items != [] && IsWordChar(items[|items| - 1])
  }

  // For each significant item, whether it goes on with the word of the item right before it.
  function Joins(items: seq<Item>): seq<bool> {
    if items == [] then []
    else
      var (init, last) := (items[..|items| - 1], items[|items| - 1]);
      Joins(init) + if IsSignificant(last) then [EndsInWord(init) && IsWordChar(last)] else []
  }

  lemma SignificantSnoc(items: seq<Item>, item: Item)
    ensures Significant(items + [item]) == Significant(items) + if IsSignificant(item) then [item] else []
    ensures Joins(items + [item]) ==
            Joins(items) + if IsSignificant(item) then [EndsInWord(items) && IsWordChar(item)] else []
    ensures EndsInWord(items + [item]) == IsWordChar(item)
    ensures IsWordChar(item) ==> IsSignificant(item)
  {
    assert (items + [item])[..|items|] == items;
  }

  predicate NoComments(items: seq<Item>) {
    forall i | 0 <= i < |items| :: !items[i].Comment?
  }

  lemma BlanksAreNotWords()
    ensures !IsAlphanum(SPACE) && !IsAlphanum(NEWLINE)
  {
  }

  // ---- The blanks that are left ----

  // Whether a blank may come after these items: a space after a word, a linefeed after a word
  // or what can end a line, or at the start.
  predicate MayEnd(items: seq<Item>, blank: int) {
    if items == [] then blank == NEWLINE
    else
      var prev := items[|items| - 1];
      prev.Code? && (IsAlphanum(prev.c) || (blank == NEWLINE && EndsLine(prev.c)))
  }

  predicate MayStart(blank: int, next: Item) {
    next.Code? && (IsAlphanum(next.c) || (blank == NEWLINE && StartsLine(next.c)))
  }

  // A blank may be left between two operators, and a space before a regular expression that the
  // operator before it would turn into a comment.
  predicate KeepsApart(items: seq<Item>, blank: int, next: Item) {
    && items != [] && items[|items| - 1].Code?
    && var prev := items[|items| - 1].c;
       match next
       case Code(c) => IsOperator(prev) && IsOperator(c) && c != SLASH
       case Literal(text) => StartsComment(prev) && blank == SPACE && First(text) == SLASH
       case Comment(_) => false
  }

  predicate IsNeeded(before: seq<Item>, blank: int, next: Item) {
    (MayEnd(before, blank) && MayStart(blank, next)) || KeepsApart(before, blank, next)
  }

  predicate IsNeededAt(items: seq<Item>, i: nat)
    requires i < |items|
  {
    items[i].Code? && IsBlank(items[i].c) ==> i + 1 < |items| && IsNeeded(items[..i], items[i].c, items[i + 1])
  }

  predicate AreNeeded(items: seq<Item>) {
    forall i | 0 <= i < |items| :: IsNeededAt(items, i)
  }

  // ---- No comment is formed ----

  predicate IsApartAt(items: seq<Item>, i: nat)
    requires i + 1 < |items|
  {
    items[i] == Code(SLASH) ==> !StartsComment(First(Source(items[i + 1])))
  }

  // No slash of the code is followed by another one or by a star.
  predicate AreApart(items: seq<Item>) {
    forall i | 0 <= i < |items| - 1 :: IsApartAt(items, i)
  }

  predicate EndsInSlash(items: seq<Item>) {
    items != [] && items[|items| - 1] == Code(SLASH)
  }

  lemma ApartSnoc(items: seq<Item>, item: Item)
    requires AreApart(items) && (EndsInSlash(items) ==> !StartsComment(First(Source(item))))
    ensures AreApart(items + [item])
  {
    var all := items + [item];
    forall i | 0 <= i < |all| - 1
      ensures IsApartAt(all, i)
    {
      if i < |items| - 1 {
        assert IsApartAt(items, i);
      }
    }
  }

  // ---- What is written ----

  // The significant items in order, no comments, not even new ones, and only blanks that are
  // needed.
  predicate IsOutputOf(lexed: seq<Item>, written: seq<Item>) {
    NoComments(written) && Significant(written) == Significant(lexed) && AreApart(written) && AreNeeded(written)
  }

  // ---- The same, for the characters alone ----

  function Erase(s: seq<int>): seq<int> {
    if s == [] then []
    else Erase(s[..|s| - 1]) + if IsBlank(s[|s| - 1]) then [] else [s[|s| - 1]]
  }

  // The characters outside comments.
  function CodeText(items: seq<Item>): seq<int> {
    if items == [] then []
    else
      var last := items[|items| - 1];
      CodeText(items[..|items| - 1]) + if last.Comment? then [] else Source(last)
  }

  lemma {:induction false} EraseAppend(s: seq<int>, t: seq<int>)
    ensures Erase(s + t) == Erase(s) + Erase(t)
  {
    if t == [] {
      assert s + t == s;
    } else {
      var (u, c) := (t[..|t| - 1], t[|t| - 1]);
      EraseAppend(s, u);
      assert (s + t)[..|s + t| - 1] == s + u;
    }
  }

  lemma {:induction false} CodeTextBySignificant(items: seq<Item>)
    ensures Erase(CodeText(items)) == Erase(Text(Significant(items)))
    ensures NoComments(items) ==> CodeText(items) == Text(items)
  {
    if items != [] {
      var (init, last) := (items[..|items| - 1], items[|items| - 1]);
      CodeTextBySignificant(init);
      EraseAppend(CodeText(init), if last.Comment? then [] else Source(last));
      if IsSignificant(last) {
        TextSnoc(Significant(init), last);
        EraseAppend(Text(Significant(init)), Source(last));
      } else {
        assert Significant(items) == Significant(init);
        assert last.Code? ==> Erase([last.c]) == [];
        assert last.Code? ==> Source(last) == [last.c];
      }
    }
  }

  // What this says of the characters: but for blanks, the output is, in order, the text outside
  // comments.
  lemma OutputIsCodeText(s: seq<int>, written: seq<Item>)
    requires AreCharacters(s) && Lex(s, NEWLINE).Some?
    requires NoComments(written) && Significant(written) == Significant(Lex(s, NEWLINE).value)
    ensures Text(Lex(s, NEWLINE).value) == s
    ensures Erase(Text(written)) == Erase(CodeText(Lex(s, NEWLINE).value))
  {
    hide Lex;
    LexObeys(s, NEWLINE);
    CodeTextBySignificant(written);
    CodeTextBySignificant(Lex(s, NEWLINE).value);
  }
}
