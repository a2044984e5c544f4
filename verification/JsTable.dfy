// The minifier by character codes: for every pair of neighbours in the input, what is written
// between them; which slashes open a regular expression; and where strings, comments and regular
// expressions end.
module JsTable {
  import opened Bytes
  import opened JsLex
  import opened JsOutput
  import opened JsRules
  import opened JsMinified

  // ---- Characters by code ----

  // a to z, 0 to 9, A to Z, underscore, dollar, backslash, and what is not ASCII or the last of it.
  predicate IsWordCode(c: int) {
    97 <= c <= 122 || 48 <= c <= 57 || 65 <= c <= 90 || c == 95 || c == 36 || c == 92 || c >= 127
  }

  // Closing brackets, plus and minus, and quotes.
  predicate EndsLineCode(c: int) {
    c in {125, 93, 41, 43, 45, 34, 39, 96}
  }

  // Opening brackets, plus and minus, and the exclamation mark and tilde.
  predicate StartsLineCode(c: int) {
    c in {123, 91, 40, 43, 45, 33, 126}
  }

  // Plus, minus, star and slash.
  predicate IsOperatorCode(c: int) {
    c in {43, 45, 42, 47}
  }

  // ( , = : [ ! & | ? + - ~ * / { } and ;
  predicate IsRegExpCode(c: int) {
    c in {40, 44, 61, 58, 91, 33, 38, 124, 63, 43, 45, 126, 42, 47, 123, 125, 59}
  }

  lemma CodesAre(c: int)
    ensures IsAlphanum(c) == IsWordCode(c) && EndsLine(c) == EndsLineCode(c) && StartsLine(c) == StartsLineCode(c)
    ensures IsOperator(c) == IsOperatorCode(c) && BeforeRegExp(c) == IsRegExpCode(c)
    ensures IsQuote(c) == (c in {34, 39, 96}) && IsBlank(c) == (c == 10 || c == 32)
  {
  }

  // A line comment counts as a linefeed, and a block comment as a space.
  lemma CommentsAre(lexed: seq<Item>, j: nat)
    requires IsLexed(lexed, NEWLINE) && j < |lexed| && lexed[j].Comment?
    ensures var text := lexed[j].text;
            && |text| >= 2 && text[0] == 47 && (text[1] == 47 || text[1] == 42)
            && CharOf(lexed[j]) == if text[1] == 47 then 10 else 32
  {
    CommentIs(lexed, NEWLINE, j);
  }

  lemma {:induction false} CommentIs(items: seq<Item>, hand: int, j: nat)
    requires IsLexed(items, hand) && j < |items| && items[j].Comment?
    ensures var text := items[j].text; |text| >= 2 && text[0] == 47 && (text[1] == 47 || text[1] == 42)
    decreases |items|
  {
    hide Ends, IsString, IsRegExp, BeforeRegExp, After;
    if j > 0 {
      if items[0].Literal? {
        CommentIs(items[1..][1..], items[0].text[0], j - 2);
      } else {
        CommentHand(items[0], hand, items[1..]);
        assert [items[0]] + items[1..] == items;
        CommentIs(items[1..], NextHand(hand, items[0]), j - 1);
      }
    }
  }

  // ---- Gaps ----

  // What was read since the last significant item, a comment being read as a blank.
  function Trail(items: seq<Item>): seq<int> {
    if items == [] || IsSignificant(items[|items| - 1]) then []
    else Trail(items[..|items| - 1]) + [CharOf(items[|items| - 1])]
  }

  // For each significant item, what was read between it and the one before it.
  function Gaps(items: seq<Item>): seq<seq<int>> {
    if items == [] then []
    else
      var (init, last) := (items[..|items| - 1], items[|items| - 1]);
      Gaps(init) + if IsSignificant(last) then [Trail(init)] else []
  }

  // What is written before the next item, by the significant items before it and what was read
  // in between. The start counts as a linefeed.
  function Written(before: seq<Item>, gap: seq<int>, next: Item): seq<int> {
    if before == [] then
      if next.Code? && (IsWordCode(next.c) || StartsLineCode(next.c)) then [10] else []
    else match before[|before| - 1]
      case Code(p) =>
        if next.Code? then
          if gap == [] then []
          else if 10 in gap && (IsWordCode(p) || EndsLineCode(p)) then
            if IsWordCode(next.c) || StartsLineCode(next.c) then [10] else []
          else if IsWordCode(p) then
            if IsWordCode(next.c) then [32] else []
          else if IsOperatorCode(p) && IsOperatorCode(next.c) then [gap[|gap| - 1]]
          else []
        else if next.Literal? && (p == 42 || p == 47) && First(next.text) == 47 then [32]
        else []
      case _ => []
  }

  lemma TrailSnoc(items: seq<Item>, item: Item)
    ensures Trail(items + [item]) == if IsSignificant(item) then [] else Trail(items) + [CharOf(item)]
    ensures Gaps(items + [item]) == Gaps(items) + if IsSignificant(item) then [Trail(items)] else []
  {
    assert (items + [item])[..|items|] == items;
  }

  // What the trail says of linefeeds and of the last blank.
  lemma {:induction false} TrailIs(items: seq<Item>)
    ensures Trail(items) == [] <==> items == [] || IsSignificant(items[|items| - 1])
    ensures Trail(items) != [] ==> Trail(items)[|Trail(items)| - 1] == LastChar(items)
    ensures Breaks(items, true) <==> 10 in Trail(items) || Significant(items) == []
  {
    hide CharOf;
    if items != [] {
      var (init, last) := (items[..|items| - 1], items[|items| - 1]);
      assert items == init + [last];
      TrailIs(init);
      TrailSnoc(init, last);
      BreaksSnoc(init, last, true);
      SignificantSnoc(init, last);
    }
  }

  function Chars(gap: seq<Item>): seq<int> {
    if gap == [] then [] else [CharOf(gap[0])]
  }

  // The table is right for one item.
  lemma GapIsWritten(items: seq<Item>, written: seq<Item>, item: Item)
    requires MayFollow(items, item) && IsSignificant(item) && EndsAlike(items, written)
    ensures Chars(Gap(items, item)) == Written(Significant(items), Trail(items), item)
  {
    hide HandOf, Significant, Breaks, Gap, Trail, IsAlphanum, EndsLine, StartsLine, IsOperator, IsQuote, BeforeRegExp;
    hide IsWordCode, EndsLineCode, StartsLineCode, IsOperatorCode, IsRegExpCode;
    TrailIs(items);
    if EndsInLiteral(items) {
      NoGap(items, item);
      LastIsSign(items, written);
    } else {
      SignIs(items, written);
      GapBySign(items, written, item);
      CodesAre(LastSign(Significant(items)));
      if item.Code? {
        CodesAre(item.c);
      }
      WordsAreNot(LastSign(Significant(items)));
      LastCharIs(items);
    }
  }

  lemma WordsAreNot(c: int)
    ensures IsWordCode(c) ==> !EndsLineCode(c) && !IsOperatorCode(c) && c != 47 && c != 42 && c != 10 && c != 32
    ensures c == 42 || c == 47 ==> !EndsLineCode(c) && IsOperatorCode(c)
  {
  }

  lemma LastCharIs(items: seq<Item>)
    ensures EndsInBlank(items) ==> IsBlank(LastChar(items))
    ensures items != [] && !EndsInBlank(items) && !EndsInLiteral(items) ==> !IsBlank(LastChar(items))
  {
  }

  predicate AreWritten(items: seq<Item>, written: seq<Item>) {
    var (significant, given, made) := (Significant(items), Gaps(items), Gaps(written));
    && |significant| == |given| == |made|
    && forall r | 0 <= r < |significant| :: made[r] == Written(significant[..r], given[r], significant[r])
  }

  lemma GapsGoOn(items: seq<Item>, written: seq<Item>, item: Item)
    requires MayFollow(items, item) && IsSignificant(item) && EndsAlike(items, written) && AreWritten(items, written)
    requires written == [] || IsSignificant(written[|written| - 1])
    ensures AreWritten(items + [item], written + (Gap(items, item) + [item]))
  {
    hide MayFollow, EndsAlike, Significant, Gap, Gaps, Written, IsNeeded, IsSignificant, Trail;
    var gap := Gap(items, item);
    assert written + (gap + [item]) == written + gap + [item];
    GapIsWritten(items, written, item);
    GapIsNeeded(items, written, item);
    SignificantSnoc(items, item);
    TrailSnoc(items, item);
    TrailSnoc(written + gap, item);
    GapOnTop(written, gap);
    var (before, s) := (Significant(items), Significant(items + [item]));
    forall r | 0 <= r < |s|
      ensures s[..r] == if r < |before| then before[..r] else before
    {
    }
  }

  lemma GapOnTop(written: seq<Item>, gap: seq<Item>)
    requires written == [] || IsSignificant(written[|written| - 1])
    requires gap == [] || (gap[0].Code? && gap == [Code(gap[0].c)] && IsBlank(gap[0].c))
    ensures Trail(written + gap) == Chars(gap) && Gaps(written + gap) == Gaps(written)
  {
    if gap == [] {
      assert written + gap == written;
    } else {
      TrailSnoc(written, gap[0]);
    }
  }

  lemma {:induction false} PrefixIsWritten(lexed: seq<Item>, k: nat)
    requires IsLexed(lexed, NEWLINE) && k <= |lexed|
    ensures AreWritten(lexed[..k], Minified(lexed[..k]))
    decreases k
  {
    hide IsLexed, MayFollow, EndsAlike, Minified, Gap, AreWritten;
    if k == 0 {
      NoGaps();
    } else {
      var (items, item) := (lexed[..k - 1], lexed[k - 1]);
      assert lexed[..k] == items + [item];
      PrefixIsWritten(lexed, k - 1);
      MinifiedSnoc(items, item);
      MinifiedEnds(items);
      if IsSignificant(item) {
        LexedFollow(lexed, k - 1);
        EndsInSignificant(items, Minified(items));
        GapsGoOn(items, Minified(items), item);
      } else {
        GapsSkip(items, Minified(items), item);
      }
    }
  }

  lemma NoGaps()
    ensures AreWritten([], Minified([]))
  {
  }

  lemma GapsSkip(items: seq<Item>, written: seq<Item>, item: Item)
    requires AreWritten(items, written) && !IsSignificant(item)
    ensures AreWritten(items + [item], written + [])
  {
    hide Written, Significant, Gaps, Trail;
    SignificantSnoc(items, item);
    TrailSnoc(items, item);
    assert written + [] == written;
    assert Significant(items) + [] == Significant(items) && Gaps(items) + [] == Gaps(items);
  }

  // What the output has between two neighbours is what the table says.
  lemma OutputIsTable(lexed: seq<Item>, r: nat)
    requires IsLexed(lexed, NEWLINE) && r < |Significant(lexed)|
    ensures |Gaps(lexed)| == |Gaps(Minified(lexed))| == |Significant(lexed)|
    ensures var s := Significant(lexed); Gaps(Minified(lexed))[r] == Written(s[..r], Gaps(lexed)[r], s[r])
  {
    hide IsLexed, Significant, Gaps, Minified, Written;
    PrefixIsWritten(lexed, |lexed|);
    assert lexed[..|lexed|] == lexed;
  }

  // So characters of words have something between them exactly when they had in the input, and
  // then one blank: a linefeed if there was one.
  lemma WordsStayApart(lexed: seq<Item>, r: nat, p: int, c: int)
    requires IsLexed(lexed, NEWLINE) && 0 < r < |Significant(lexed)|
    requires Significant(lexed)[r - 1] == Code(p) && Significant(lexed)[r] == Code(c)
    requires 97 <= p <= 122 || 48 <= p <= 57 || 65 <= p <= 90 || p == 95 || p == 36 || p == 92 || p > 126
    requires 97 <= c <= 122 || 48 <= c <= 57 || 65 <= c <= 90 || c == 95 || c == 36 || c == 92 || c > 126
    ensures |Gaps(lexed)| == |Gaps(Minified(lexed))| == |Significant(lexed)|
    ensures var gap := Gaps(lexed)[r];
            Gaps(Minified(lexed))[r] == if gap == [] then [] else if 10 in gap then [10] else [32]
  {
    hide IsLexed, Significant, Gaps, Minified;
    OutputIsTable(lexed, r);
  }

  // As text: two such characters with a blank between them. A linefeed comes first, as it does
  // before every word or bracket at the start.
  lemma TwoWords(p: int, blank: int, c: int)
    requires 97 <= p <= 122 || 48 <= p <= 57 || 65 <= p <= 90 || p == 95 || p == 36 || p == 92 || p > 126
    requires 97 <= c <= 122 || 48 <= c <= 57 || 65 <= c <= 90 || c == 95 || c == 36 || c == 92 || c > 126
    requires blank == 32 || blank == 10
    ensures Lex([p, blank, c], NEWLINE).Some?
    ensures Text(Minified(Lex([p, blank, c], NEWLINE).value)) == [10, p, blank, c]
  {
    var lexed := [Code(p), Code(blank), Code(c)];
    TwoWordsLexed(p, blank, c);
    TextOfThree(p, blank, c);
    LexIff([p, blank, c], NEWLINE, lexed);
    TwoWordsMinified(p, blank, c);
    TextOfFour(10, p, blank, c);
  }

  lemma TwoWordsLexed(p: int, blank: int, c: int)
    requires IsWordCode(p) && IsWordCode(c) && (blank == 32 || blank == 10)
    ensures IsLexed([Code(p), Code(blank), Code(c)], NEWLINE)
  {
    hide After;
    var lexed := [Code(p), Code(blank), Code(c)];
    assert lexed[1..] == [Code(blank), Code(c)] && lexed[1..][1..] == [Code(c)] && lexed[1..][1..][1..] == [];
    assert IsLexed([Code(c)], After(After(NEWLINE, p), blank));
    assert IsLexed([Code(blank), Code(c)], After(NEWLINE, p));
  }

  lemma TextOfThree(p: int, q: int, r: int)
    ensures Text([Code(p), Code(q), Code(r)]) == [p, q, r]
  {
    NoText();
    TextSnoc([], Code(p));
    TextSnoc([Code(p)], Code(q));
    TextSnoc([Code(p), Code(q)], Code(r));
    assert [] + [Code(p)] == [Code(p)] && [Code(p)] + [Code(q)] == [Code(p), Code(q)];
    assert [Code(p), Code(q)] + [Code(r)] == [Code(p), Code(q), Code(r)];
  }

  lemma TextOfFour(p: int, q: int, r: int, t: int)
    ensures Text([Code(p), Code(q), Code(r), Code(t)]) == [p, q, r, t]
  {
    TextOfThree(p, q, r);
    TextSnoc([Code(p), Code(q), Code(r)], Code(t));
    assert [Code(p), Code(q), Code(r)] + [Code(t)] == [Code(p), Code(q), Code(r), Code(t)];
  }

  lemma TwoWordsMinified(p: int, blank: int, c: int)
    requires IsWordCode(p) && IsWordCode(c) && (blank == 32 || blank == 10)
    ensures Minified([Code(p), Code(blank), Code(c)]) == [Code(10), Code(p), Code(blank), Code(c)]
  {
    FirstGap(p);
    BlankGap(p, blank, c);
    WordsAreNot(p);
    WordsAreNot(c);
    hide Gap, Minified, IsWordCode;
    var (one, two) := ([Code(p)], [Code(p), Code(blank)]);
    assert [] + [Code(p)] == one && one + [Code(blank)] == two && two + [Code(c)] == [Code(p), Code(blank), Code(c)];
    MinifiedSnoc([], Code(p));
    MinifiedSnoc(one, Code(blank));
    MinifiedSnoc(two, Code(c));
    assert Minified([]) == [] by {
      NothingMinified();
    }
  }

  lemma NothingMinified()
    ensures Minified([]) == []
  {
  }

  lemma FirstGap(p: int)
    requires IsWordCode(p)
    ensures Gap([], Code(p)) == [Code(10)]
  {
  }

  lemma BlankGap(p: int, blank: int, c: int)
    requires IsWordCode(p) && IsWordCode(c) && (blank == 32 || blank == 10)
    ensures Gap([Code(p), Code(blank)], Code(c)) == [Code(blank)]
  {
    var one := [Code(p)];
    assert [] + [Code(p)] == one && one + [Code(blank)] == [Code(p), Code(blank)];
    HandSnoc([], Code(p));
    HandSnoc(one, Code(blank));
  }

  // And otherwise a space is written only between two operators, or before a regular expression
  // that comes after a star or a slash.
  lemma SpacesAre(lexed: seq<Item>, r: nat)
    requires IsLexed(lexed, NEWLINE) && 0 < r < |Significant(lexed)|
    ensures |Gaps(lexed)| == |Gaps(Minified(lexed))| == |Significant(lexed)|
    ensures var (s, gap) := (Significant(lexed), Gaps(lexed)[r]);
            Gaps(Minified(lexed))[r] == [32] <==>
            s[r - 1].Code? && (
              if s[r].Code? then
                var (p, c) := (s[r - 1].c, s[r].c);
                gap != [] && (
                  || (IsWordCode(p) && IsWordCode(c) && 10 !in gap)
                  || (p in {43, 45} && c in {43, 45, 42, 47} && 10 !in gap && gap[|gap| - 1] == 32)
                  || (p in {42, 47} && c in {43, 45, 42, 47} && gap[|gap| - 1] == 32))
              else s[r].Literal? && s[r - 1].c in {42, 47} && First(s[r].text) == 47)
  {
    hide IsLexed, Significant, Gaps, Minified, IsWordCode;
    OutputIsTable(lexed, r);
    var before := Significant(lexed)[r - 1];
    if before.Code? {
      WordsAreNot(before.c);
      WordsAreNotOperators(before.c);
    }
  }

  lemma WordsAreNotOperators(c: int)
    ensures IsWordCode(c) ==> c !in {43, 45, 42, 47}
  {
  }

  // ---- Slashes and quotes ----

  // A slash opens a regular expression exactly after one of these characters, unless a linefeed
  // that is kept comes in between; and strings start with a quote.
  lemma LiteralsAre(lexed: seq<Item>, j: nat)
    requires IsLexed(lexed, NEWLINE) && j < |lexed| && !EndsInLiteral(lexed[..j])
    ensures var before := Significant(lexed[..j]);
            var opens := before != [] && before[|before| - 1].Code? && (
                           var p := before[|before| - 1].c;
                           && p in {40, 44, 61, 58, 91, 33, 38, 124, 63, 43, 45, 126, 42, 47, 123, 125, 59}
                           && !(10 in Trail(lexed[..j]) && p in {125, 43, 45}));
            match lexed[j]
            case Code(c) => c !in {34, 39, 96} && (c == 47 ==> !opens)
            case Literal(text) => if First(text) == 47 then opens else First(text) in {34, 39, 96}
            case Comment(_) => true
  {
    var items := lexed[..j];
    LexedFollow(lexed, j);
    LexedRules(lexed, j);
    TrailIs(items);
    MinifiedEnds(items);
    SignIs(items, Minified(items));
    var sign := LastSign(Significant(items));
    CodesAre(sign);
    CodesAre(HandOf(items));
    RegExpCodesAre(sign);
    LiteralIs(lexed, j);
  }

  lemma RegExpCodesAre(c: int)
    ensures IsRegExpCode(c) ==> !IsWordCode(c) && c != 10 && c != 32 && (EndsLineCode(c) <==> c in {125, 43, 45})
    ensures !IsRegExpCode(10) && !IsRegExpCode(32)
  {
  }

  lemma LiteralIs(lexed: seq<Item>, j: nat)
    requires j < |lexed| && RuleAt(lexed, j) && !EndsInLiteral(lexed[..j])
    ensures match lexed[j]
            case Code(c) => c !in {34, 39, 96} && (c == SLASH ==> !BeforeRegExp(HandOf(lexed[..j])))
            case Literal(text) =>
              if First(text) == SLASH then BeforeRegExp(HandOf(lexed[..j])) else First(text) in {34, 39, 96}
            case Comment(_) => true
  {
    hide HandOf, BeforeRegExp, IsRegExp, IsString;
    if j > 0 {
      assert lexed[..j][j - 1] == lexed[j - 1];
    }
  }

  // ---- Where things end ----

  // The backslashes right before a place: an odd number of them escapes what stands there.
  function Backslashes(s: seq<int>, i: nat): nat
    requires i <= |s|
  {
    if i > 0 && s[i - 1] == 92 then 1 + Backslashes(s, i - 1) else 0
  }

  predicate IsEscaped(s: seq<int>, i: nat)
    requires i <= |s|
  {
    Backslashes(s, i) % 2 == 1
  }

  // The mode after a prefix of a piece.
  function ModeAfter(kind: Kind, s: seq<int>, i: nat): Mode
    requires i <= |s|
  {
    if i == 0 then Plain else Step(kind, ModeAfter(kind, s, i - 1), s[i - 1])
  }

  // It ends where it is closed first.
  lemma {:induction false} EndsAtMode(kind: Kind, s: seq<int>, i: nat, n: nat)
    requires i <= n <= |s| && ModeAfter(kind, s, n) == Closed
    requires forall j | i <= j < n :: ModeAfter(kind, s, j) != Closed
    ensures End(kind, ModeAfter(kind, s, i), s[i..]) == Some(n - i)
    decreases n - i
  {
    if i < n {
      EndsAtMode(kind, s, i + 1, n);
      assert s[i..][1..] == s[i + 1..];
    }
  }

  lemma {:induction false} NeverEnds(kind: Kind, s: seq<int>, i: nat)
    requires i <= |s| && forall j | i <= j <= |s| :: ModeAfter(kind, s, j) != Closed
    ensures End(kind, ModeAfter(kind, s, i), s[i..]) == None
    decreases |s| - i
  {
    if i < |s| {
      NeverEnds(kind, s, i + 1);
      assert s[i..][1..] == s[i + 1..];
    }
  }

  lemma {:induction false} FirstClosed(kind: Kind, s: seq<int>, i: nat) returns (n: nat)
    requires i <= |s| && ModeAfter(kind, s, i) == Closed
    ensures n <= i && ModeAfter(kind, s, n) == Closed && forall j | 0 <= j < n :: ModeAfter(kind, s, j) != Closed
  {
    n := i;
    if j :| 0 <= j < i && ModeAfter(kind, s, j) == Closed {
      n := FirstClosed(kind, s, j);
    }
  }

  lemma EndIff(kind: Kind, s: seq<int>, n: nat)
    ensures End(kind, Plain, s) == Some(n) <==>
            && n <= |s| && ModeAfter(kind, s, n) == Closed
            && forall j | 0 <= j < n :: ModeAfter(kind, s, j) != Closed
  {
    hide ModeAfter;
    assert s[0..] == s && ModeAfter(kind, s, 0) == Plain by {
      StartsPlain(kind, s);
    }
    if i :| 0 <= i <= |s| && ModeAfter(kind, s, i) == Closed {
      var m := FirstClosed(kind, s, i);
      EndsAtMode(kind, s, 0, m);
    } else {
      NeverEnds(kind, s, 0);
    }
  }

  lemma StartsPlain(kind: Kind, s: seq<int>)
    ensures ModeAfter(kind, s, 0) == Plain
  {
  }

  // ---- Comments ----

  lemma {:induction false} LineMode(s: seq<int>, i: nat)
    requires i <= |s| && forall j | 0 <= j < i - 1 :: s[j] != 10
    ensures ModeAfter(LineComment, s, i) == if i > 0 && s[i - 1] == 10 then Closed else Plain
  {
    if i > 0 {
      LineMode(s, i - 1);
    }
  }

  lemma {:induction false} LinefeedsClose(s: seq<int>, n: nat)
    requires n <= |s| && forall j | 0 <= j < n :: ModeAfter(LineComment, s, j) != Closed
    ensures forall j | 0 <= j < n - 1 :: s[j] != 10
    ensures ModeAfter(LineComment, s, n) == Closed <==> n > 0 && s[n - 1] == 10
    decreases n
  {
    if n > 0 {
      LinefeedsClose(s, n - 1);
      assert ModeAfter(LineComment, s, n - 1) != Closed;
    }
    LineMode(s, n);
  }

  // A line comment ends at its first linefeed.
  lemma LineEndsAt(s: seq<int>, n: nat)
    ensures End(LineComment, Plain, s) == Some(n) <==>
            0 < n <= |s| && s[n - 1] == 10 && forall j | 0 <= j < n - 1 :: s[j] != 10
  {
    EndIff(LineComment, s, n);
    if 0 < n <= |s| && s[n - 1] == 10 && forall j | 0 <= j < n - 1 :: s[j] != 10 {
      forall j | 0 <= j <= n
        ensures ModeAfter(LineComment, s, j) == Closed <==> j == n
      {
        LineMode(s, j);
      }
    } else if End(LineComment, Plain, s) == Some(n) {
      LinefeedsClose(s, n);
    }
  }

  // An end mark ends at the given place.
  predicate HasMark(s: seq<int>, i: nat) {
    2 <= i <= |s| && s[i - 2] == 42 && s[i - 1] == 47
  }

  lemma {:induction false} BlockMode(s: seq<int>, i: nat)
    requires i <= |s| && forall j | 0 <= j < i :: !HasMark(s, j)
    ensures ModeAfter(BlockComment, s, i) ==
            if HasMark(s, i) then Closed else if i > 0 && s[i - 1] == 42 then Starred else Plain
  {
    if i > 0 {
      BlockMode(s, i - 1);
      assert !HasMark(s, i - 1);
    }
  }

  // A block comment ends at its first end mark.
  lemma BlockEndsAt(s: seq<int>, n: nat)
    ensures End(BlockComment, Plain, s) == Some(n) <==> HasMark(s, n) && forall j | 0 <= j < n :: !HasMark(s, j)
  {
    EndIff(BlockComment, s, n);
    if HasMark(s, n) && forall j | 0 <= j < n :: !HasMark(s, j) {
      forall j | 0 <= j <= n
        ensures ModeAfter(BlockComment, s, j) == Closed <==> j == n
      {
        BlockMode(s, j);
      }
    } else if End(BlockComment, Plain, s) == Some(n) {
      MarksClose(s, n);
    }
  }

  lemma {:induction false} MarksClose(s: seq<int>, n: nat)
    requires n <= |s| && forall j | 0 <= j < n :: ModeAfter(BlockComment, s, j) != Closed
    ensures forall j | 0 <= j < n :: !HasMark(s, j)
    ensures ModeAfter(BlockComment, s, n) == Closed <==> HasMark(s, n)
    decreases n
  {
    if n > 0 {
      MarksClose(s, n - 1);
      assert ModeAfter(BlockComment, s, n - 1) != Closed;
    }
    BlockMode(s, n);
  }

  // ---- Strings ----

  lemma EscapedTurns(s: seq<int>, i: nat)
    requires i < |s|
    ensures IsEscaped(s, i + 1) <==> s[i] == 92 && !IsEscaped(s, i)
  {
  }

  // A quote that ends a string.
  predicate IsQuoteAt(s: seq<int>, quote: int, i: nat)
    requires i < |s|
  {
    s[i] == quote && !IsEscaped(s, i)
  }

  lemma {:induction false} StringMode(s: seq<int>, quote: int, i: nat)
    requires i <= |s| && quote != 92 && forall j | 0 <= j < i - 1 :: !IsQuoteAt(s, quote, j)
    ensures ModeAfter(Quoted(quote), s, i) ==
            if i > 0 && IsQuoteAt(s, quote, i - 1) then Closed else if IsEscaped(s, i) then Escaped else Plain
  {
    if i > 0 {
      StringMode(s, quote, i - 1);
      hide IsEscaped;
      EscapedTurns(s, i - 1);
    }
  }

  lemma {:induction false} QuotesClose(s: seq<int>, quote: int, n: nat)
    requires n <= |s| && quote != 92 && forall j | 0 <= j < n :: ModeAfter(Quoted(quote), s, j) != Closed
    ensures forall j | 0 <= j < n - 1 :: !IsQuoteAt(s, quote, j)
    ensures ModeAfter(Quoted(quote), s, n) == Closed <==> n > 0 && IsQuoteAt(s, quote, n - 1)
    decreases n
  {
    hide IsQuoteAt, IsEscaped;
    if n > 0 {
      QuotesClose(s, quote, n - 1);
      assert ModeAfter(Quoted(quote), s, n - 1) != Closed;
    }
    StringMode(s, quote, n);
  }

  // A string ends at its first quote that does not come after an odd number of backslashes.
  lemma StringEndsAt(s: seq<int>, quote: int, n: nat)
    requires quote != 92
    ensures End(Quoted(quote), Plain, s) == Some(n) <==>
            0 < n <= |s| && IsQuoteAt(s, quote, n - 1) && forall j | 0 <= j < n - 1 :: !IsQuoteAt(s, quote, j)
  {
    hide IsQuoteAt;
    EndIff(Quoted(quote), s, n);
    if 0 < n <= |s| && IsQuoteAt(s, quote, n - 1) && forall j | 0 <= j < n - 1 :: !IsQuoteAt(s, quote, j) {
      forall j | 0 <= j <= n
        ensures ModeAfter(Quoted(quote), s, j) == Closed <==> j == n
      {
        StringMode(s, quote, j);
      }
    } else if End(Quoted(quote), Plain, s) == Some(n) {
      QuotesClose(s, quote, n);
    }
  }

  // ---- Regular expressions ----

  // An opening bracket that starts a set, and a closing one that ends it.
  predicate Opens(s: seq<int>, i: nat)
    requires i < |s|
  {
    s[i] == 91 && !IsEscaped(s, i)
  }

  predicate Shuts(s: seq<int>, i: nat)
    requires i < |s|
  {
    s[i] == 93 && !IsEscaped(s, i)
  }

  // A set was opened and has not been shut since.
  predicate IsInSet(s: seq<int>, i: nat)
    requires i <= |s|
  {
    exists k | 0 <= k < i :: IsOpenSince(s, k, i)
  }

  predicate IsOpenSince(s: seq<int>, k: nat, i: nat)
    requires k < i <= |s|
  {
    Opens(s, k) && forall l | k < l < i :: !Shuts(s, l)
  }

  lemma InSetTurns(s: seq<int>, i: nat)
    requires i < |s|
    ensures IsInSet(s, i + 1) <==> Opens(s, i) || (IsInSet(s, i) && !Shuts(s, i))
  {
    hide IsEscaped;
    if IsInSet(s, i + 1) {
      var k :| 0 <= k < i + 1 && IsOpenSince(s, k, i + 1);
      if k < i {
        assert IsOpenSince(s, k, i) && !Shuts(s, i);
      }
    }
    if Opens(s, i) {
      assert IsOpenSince(s, i, i + 1);
    } else if IsInSet(s, i) && !Shuts(s, i) {
      var k :| 0 <= k < i && IsOpenSince(s, k, i);
      assert IsOpenSince(s, k, i + 1);
    }
  }

  // A slash that ends a regular expression.
  predicate IsSlashAt(s: seq<int>, i: nat)
    requires i < |s|
  {
    s[i] == 47 && !IsEscaped(s, i) && !IsInSet(s, i)
  }

  lemma {:induction false} RegExpMode(s: seq<int>, i: nat)
    requires i <= |s| && forall j | 0 <= j < i - 1 :: !IsSlashAt(s, j)
    ensures ModeAfter(RegExp, s, i) ==
            if i > 0 && IsSlashAt(s, i - 1) then Closed
            else if IsInSet(s, i) then (if IsEscaped(s, i) then EscapedInSet else InSet)
            else if IsEscaped(s, i) then Escaped else Plain
  {
    if i > 0 {
      RegExpMode(s, i - 1);
      hide IsEscaped, IsInSet;
      EscapedTurns(s, i - 1);
      InSetTurns(s, i - 1);
    }
  }

  lemma {:induction false} SlashesClose(s: seq<int>, n: nat)
    requires n <= |s| && forall j | 0 <= j < n :: ModeAfter(RegExp, s, j) != Closed
    ensures forall j | 0 <= j < n - 1 :: !IsSlashAt(s, j)
    ensures ModeAfter(RegExp, s, n) == Closed <==> n > 0 && IsSlashAt(s, n - 1)
    decreases n
  {
    hide IsSlashAt, IsEscaped, IsInSet;
    if n > 0 {
      SlashesClose(s, n - 1);
      assert ModeAfter(RegExp, s, n - 1) != Closed;
    }
    RegExpMode(s, n);
  }

  // A regular expression ends at its first slash that is neither escaped nor in a set.
  lemma RegExpEndsAt(s: seq<int>, n: nat)
    ensures End(RegExp, Plain, s) == Some(n) <==>
            0 < n <= |s| && IsSlashAt(s, n - 1) && forall j | 0 <= j < n - 1 :: !IsSlashAt(s, j)
  {
    hide IsSlashAt, IsEscaped, IsInSet;
    EndIff(RegExp, s, n);
    if 0 < n <= |s| && IsSlashAt(s, n - 1) && forall j | 0 <= j < n - 1 :: !IsSlashAt(s, j) {
      forall j | 0 <= j <= n
        ensures ModeAfter(RegExp, s, j) == Closed <==> j == n
      {
        RegExpMode(s, j);
      }
    } else if End(RegExp, Plain, s) == Some(n) {
      SlashesClose(s, n);
    }
  }
}
