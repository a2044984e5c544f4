// The minifier of template/gnostr-jsmin.c: a machine with two characters in hand and one of
// lookahead, which lexes its input by the rules of JsLex and writes the same words.
module JsMin {
  import opened Bytes
  import opened JsLex
  import opened JsOutput
  import opened JsRules
  import opened JsMinified

  // ---- Reading ----

  // What get makes of a control character.
  function Translate(c: int): int {
    if c >= SPACE || c == NEWLINE then c else if c == 13 then NEWLINE else SPACE
  }

  function Translated(s: seq<int>): (t: seq<int>)
    ensures |t| == |s|
  {
    seq(|s|, i requires 0 <= i < |s| => Translate(s[i]))
  }

  // By code: a carriage return becomes a linefeed, any other control character but a linefeed a
  // space, and the rest stays.
  lemma TranslatedIs(s: seq<int>, i: nat)
    requires i < |s|
    ensures s[i] >= 32 || s[i] == 10 ==> Translated(s)[i] == s[i]
    ensures s[i] == 13 ==> Translated(s)[i] == 10
    ensures s[i] < 32 && s[i] != 10 && s[i] != 13 ==> Translated(s)[i] == 32
  {
  }

  function SkipMark(s: seq<int>): seq<int> {
    if s != [] && s[0] == 0xEF then (if |s| < 3 then [] else s[3..]) else s
  }

  // A mark of three bytes, of which only the first is looked at.
  lemma MarkIs(s: seq<int>)
    ensures SkipMark([0xEF, 0xBB, 0xBF] + s) == s
    ensures (s == [] || s[0] != 0xEF) ==> SkipMark(s) == s
  {
    assert ([0xEF, 0xBB, 0xBF] + s)[3..] == s;
  }

  function Shift(n: Option<nat>, k: nat): Option<nat> {
    match n
    case None => None
    case Some(m) => Some(m + k)
  }

  // Reading text led from one rest of the input to another.
  ghost predicate Took(before: seq<int>, text: seq<int>, after: seq<int>) {
    before == text + after
  }

  // The same within a piece, from one mode to another.
  ghost predicate Moved(kind: Kind, m: Mode, before: seq<int>, text: seq<int>, m': Mode, after: seq<int>) {
    before == text + after && End(kind, m, before) == Shift(End(kind, m', after), |text|)
  }

  lemma TookFirst(before: seq<int>, c: int, after: seq<int>)
    requires Took(before, [c], after)
    ensures before != [] && before[0] == c && before[1..] == after
  {
  }

  lemma MovedNothing(kind: Kind, m: Mode, s: seq<int>)
    ensures Moved(kind, m, s, [], m, s)
  {
  }

  lemma MovedOne(kind: Kind, m: Mode, s: seq<int>, c: int, after: seq<int>)
    requires Took(s, [c], after) && m != Closed
    ensures Moved(kind, m, s, [c], Step(kind, m, c), after)
  {
    assert s[1..] == after;
  }

  lemma MovedMore(kind: Kind, m: Mode, s: seq<int>, text: seq<int>, m': Mode, middle: seq<int>,
                  more: seq<int>, m'': Mode, after: seq<int>)
    requires Moved(kind, m, s, text, m', middle) && Moved(kind, m', middle, more, m'', after)
    ensures Moved(kind, m, s, text + more, m'', after)
  {
    hide End;
    assert text + (more + after) == text + more + after;
  }

  // One more character.
  lemma MovedOn(kind: Kind, m: Mode, s: seq<int>, text: seq<int>, m': Mode, middle: seq<int>, c: int, after: seq<int>)
    requires Moved(kind, m, s, text, m', middle) && Took(middle, [c], after) && m' != Closed
    ensures Moved(kind, m, s, text + [c], Step(kind, m', c), after)
  {
    hide Moved, Took;
    MovedOne(kind, m', middle, c, after);
    MovedMore(kind, m, s, text, m', middle, [c], Step(kind, m', c), after);
  }

  // The input ends before the piece does.
  lemma MovedFails(kind: Kind, m: Mode, s: seq<int>, text: seq<int>, m': Mode, after: seq<int>)
    requires Moved(kind, m, s, text, m', after) && after == [] && m' != Closed
    ensures End(kind, m, s) == None
  {
  }

  lemma MovedEnds(kind: Kind, m: Mode, s: seq<int>, text: seq<int>, after: seq<int>)
    requires Moved(kind, m, s, text, Closed, after)
    ensures End(kind, m, s) == Some(|text|) && s[..|text|] == text && s[|text|..] == after
  {
  }

  lemma MovedFailsLater(kind: Kind, m: Mode, s: seq<int>, text: seq<int>, m': Mode, after: seq<int>)
    requires Moved(kind, m, s, text, m', after) && End(kind, m', after) == None
    ensures End(kind, m, s) == None
  {
    hide End;
  }

  // The regular expression does not end, or a comment would start right after it.
  ghost predicate RegExpFails(s: seq<int>) {
    match End(RegExp, Plain, s)
    case None => true
    case Some(n) => StartsComment(First(s[n..]))
  }

  lemma RegExpFailsLater(s: seq<int>, text: seq<int>, after: seq<int>)
    requires Moved(RegExp, Plain, s, text, Plain, after) && RegExpFails(after)
    ensures RegExpFails(s)
  {
    hide End;
    if End(RegExp, Plain, after).Some? {
      var n := End(RegExp, Plain, after).value;
      assert s[|text| + n..] == after[n..];
    }
  }

  // ---- The account ----

  // The items of the whole input are those done and those of the rest.
  ghost predicate Accounts(all: seq<int>, done: seq<Item>, rest: seq<int>, hand: int) {
    Lex(all, NEWLINE) == Prepend(done, Lex(rest, hand))
  }

  // The same when the next character has been fetched.
  ghost predicate Pending(all: seq<int>, done: seq<Item>, g: Got, hand: int) {
    Lex(all, NEWLINE) == Prepend(done, LexGot(g, hand))
  }

  lemma AccountStarts(all: seq<int>)
    ensures Accounts(all, [], all, NEWLINE)
  {
    hide Lex;
    match Lex(all, NEWLINE)
    case None =>
    case Some(items) => assert [] + items == items;
  }

  lemma AccountFetches(all: seq<int>, done: seq<Item>, rest: seq<int>, hand: int)
    requires Accounts(all, done, rest, hand)
    ensures if Fetch(rest).None? then Lex(all, NEWLINE) == None else Pending(all, done, Fetch(rest).value, hand)
  {
    hide Lex, LexGot, Fetch;
    LexUnfolds(rest, hand);
    if rest == [] {
      NothingPending(hand);
    }
  }

  lemma NothingPending(hand: int)
    ensures Fetch([]).Some? && LexGot(Fetch([]).value, hand) == Some([])
  {
  }

  lemma PrependTwice(a: seq<Item>, b: seq<Item>, more: Option<seq<Item>>)
    ensures Prepend(a, Prepend(b, more)) == Prepend(a + b, more)
  {
    match more
    case None =>
    case Some(items) => assert a + (b + items) == a + b + items;
  }

  lemma PendingOther(all: seq<int>, done: seq<Item>, g: Got, hand: int)
    requires Pending(all, done, g, hand) && g.c != EOF && !IsQuote(g.c) && !(g.c == SLASH && BeforeRegExp(hand))
    ensures Accounts(all, done + g.items, g.rest, After(hand, g.c))
  {
    hide Lex;
    PrependTwice(done, g.items, Lex(g.rest, After(hand, g.c)));
  }

  lemma PendingEnds(all: seq<int>, done: seq<Item>, g: Got, hand: int)
    requires Pending(all, done, g, hand) && g.c == EOF
    ensures Accounts(all, done + g.items, [], EOF)
  {
    hide Lex;
    LexUnfolds([], EOF);
    assert done + g.items + [] == done + g.items;
  }

  lemma PendingLiteral(all: seq<int>, done: seq<Item>, g: Got, hand: int, kind: Kind)
    requires Pending(all, done, g, hand) && g.c != EOF
    requires if g.c == SLASH && BeforeRegExp(hand) then kind == RegExp else IsQuote(g.c) && kind == Quoted(g.c)
    ensures match End(kind, Plain, g.rest)
            case None => Lex(all, NEWLINE) == None
            case Some(n) =>
              if kind == RegExp && StartsComment(First(g.rest[n..])) then Lex(all, NEWLINE) == None
              else Accounts(all, done + [Literal([g.c] + g.rest[..n - 1]), Code(g.c)], g.rest[n..], g.c)
  {
    hide Lex, LexGot, End;
    LiteralUnfolds(g, hand, kind);
    match End(kind, Plain, g.rest)
    case None =>
    case Some(n) => PrependTwice(done, [Literal([g.c] + g.rest[..n - 1]), Code(g.c)], Lex(g.rest[n..], g.c));
  }

  lemma AccountEnds(all: seq<int>, done: seq<Item>, hand: int)
    requires Accounts(all, done, [], hand)
    ensures Lex(all, NEWLINE) == Some(done)
  {
    LexUnfolds([], hand);
    assert done + [] == done;
  }

  // The item that the character in b was read from.
  predicate IsLast(last: seq<Item>, b: int) {
    |last| <= 1
    && (|last| == 0 ==> b == EOF)
    && (|last| == 1 ==>
          match last[0]
          case Code(c) => c == b && b != EOF
          case Comment(_) => b == EOF || (IsBlank(b) && CharOf(last[0]) == b)
          case Literal(_) => false)
  }

  // What Fetch says of the character itself.
  lemma FetchIsLast(s: seq<int>)
    requires Fetch(s).Some? && (s != [] ==> s[0] != EOF)
    ensures var g := Fetch(s).value;
            && IsLast(g.items, g.c) && (g.c == EOF ==> g.rest == [])
            && (s == [] ==> g.items == [] && g.c == EOF)
            && (s != [] ==> |g.rest| < |s|)
            && (StartsComment(g.c) ==> StartsComment(First(s)))
  {
    hide End;
  }

  // Fetch, by the first character and what comes after it.
  lemma FirstPair(s: seq<int>, c: int, rest: seq<int>)
    requires Took(s, [c], rest)
    ensures if c == SLASH && First(rest) == SLASH then
              match End(LineComment, Plain, rest[1..])
              case None => Fetch(s) == Some(Got(EOF, [Comment(s)], []))
              case Some(n) => Fetch(s) == Some(Got(NEWLINE, [Comment(s[..2 + n])], rest[1..][n..]))
            else if c == SLASH && First(rest) == STAR then
              match End(BlockComment, Plain, rest[1..])
              case None => Fetch(s) == None
              case Some(n) => Fetch(s) == Some(Got(SPACE, [Comment(s[..2 + n])], rest[1..][n..]))
            else Fetch(s) == Some(Got(c, [Code(c)], rest))
  {
    hide End;
    assert s[1..] == rest;
    if rest != [] {
      assert s[2..] == rest[1..];
    }
  }

  lemma FetchNothing()
    ensures Fetch([]) == Some(Got(EOF, [], []))
  {
  }

  // ---- The account of what is written ----

  // What is in hand is as good as written, but for a blank, which may still be dropped.
  function Due(c: int): seq<int> {
    if c == EOF || IsBlank(c) then [] else [c]
  }

  // The output is that of the items done, but for the character in hand.
  ghost predicate Wrote(done: seq<Item>, out: seq<int>, hand: int) {
    && Text(Minified(done)) == out + Due(hand)
    && !EndsInLiteral(done) && (hand != EOF ==> HandOf(done) == hand)
  }

  function NextGap(done: seq<Item>, b: int): seq<Item> {
    if Due(b) == [] then [] else Gap(done, Code(b))
  }

  // Everything is written up to b, the character that has been fetched.
  ghost predicate WroteUpTo(done: seq<Item>, out: seq<int>, hand: int, b: int) {
    && out == Text(Minified(done)) + Text(NextGap(done, b))
    && !EndsInLiteral(done) && HandOf(done) == hand
  }

  lemma TextOfOne(c: int)
    ensures Text([Code(c)]) == [c] && Text([]) == []
  {
    NoText();
    TextSnoc([], Code(c));
    assert [] + [Code(c)] == [Code(c)];
  }

  // The text of the output when one more item is done.
  lemma OutputSnoc(done: seq<Item>, item: Item)
    ensures Text(Minified(done + [item])) ==
            Text(Minified(done)) + if IsSignificant(item) then Text(Gap(done, item)) + Source(item) else []
  {
    hide Text, Minified, Gap, Source;
    MinifiedSnoc(done, item);
    if IsSignificant(item) {
      var gap := Gap(done, item);
      assert Minified(done) + (gap + [item]) == Minified(done) + gap + [item];
      TextSnoc(Minified(done) + gap, item);
      GapIsShort(done, item);
      NoText();
      if gap == [] {
        assert Minified(done) + gap == Minified(done);
        assert Text(Minified(done)) + (Text(gap) + Source(item)) == Text(Minified(done)) + Source(item);
      } else {
        TextSnoc(Minified(done), gap[0]);
        TextSnoc([], gap[0]);
        assert [] + gap == gap && [] + Source(gap[0]) == Source(gap[0]);
      }
    } else {
      assert Minified(done) + [] == Minified(done);
    }
  }

  lemma GapIsShort(done: seq<Item>, item: Item)
    ensures var gap := Gap(done, item); gap == [] || gap == [gap[0]]
  {
    hide HandOf;
  }

  lemma WritesA(done: seq<Item>, out: seq<int>, a: int, b: int, y: int)
    requires Wrote(done, out, a) && a != EOF && y == LastChar(done)
    requires IsBlank(a) ==> MayStart(a, Code(b))
    ensures WroteUpTo(done, out + [a] + if IsBlank(y) && IsOperator(a) && IsOperator(b) then [y] else [], a, b)
  {
    hide HandOf, Text, Minified;
    NoText();
    TextOfOne(a);
    TextOfOne(y);
  }

  lemma DropsA(done: seq<Item>, out: seq<int>, a: int, b: int)
    requires Wrote(done, out, a) && IsBlank(a) && !MayStart(a, Code(b))
    ensures WroteUpTo(done, out, a, b)
  {
    hide HandOf, Text, Minified, MayStart;
    NoText();
  }

  lemma TakesB(done: seq<Item>, out: seq<int>, hand: int, b: int, last: seq<Item>)
    requires WroteUpTo(done, out, hand, b) && IsLast(last, b) && !Skips(hand, b)
    ensures Wrote(done + last, out, b) && (b != EOF ==> LastChar(done + last) == b)
  {
    hide HandOf, Text, Minified, Gap;
    NoText();
    if last == [] {
      assert done + last == done;
    } else {
      assert last == [last[0]];
      OutputSnoc(done, last[0]);
      HandSnoc(done, last[0]);
    }
  }

  lemma SkipsB(done: seq<Item>, out: seq<int>, a: int, b: int, last: seq<Item>)
    requires Wrote(done, out, a) && a != EOF && IsLast(last, b) && Skips(a, b)
    ensures Wrote(done + last, out, a) && LastChar(done + last) == b
  {
    hide HandOf, Text, Minified, Gap;
    assert last == [last[0]];
    OutputSnoc(done, last[0]);
    HandSnoc(done, last[0]);
  }

  // A literal, with its gap before it, and its delimiter in hand.
  lemma TakesLiteral(done: seq<Item>, text: seq<int>, c: int)
    requires !IsBlank(c) && c != EOF
    ensures Wrote(done + [Literal(text), Code(c)], Text(Minified(done)) + Text(Gap(done, Literal(text))) + text, c)
    ensures LastChar(done + [Literal(text), Code(c)]) == c
  {
    hide HandOf, Text, Minified, Gap;
    var literal := done + [Literal(text)];
    assert done + [Literal(text), Code(c)] == literal + [Code(c)];
    assert Text(Minified(literal)) == Text(Minified(done)) + Text(Gap(done, Literal(text))) + text by {
      OutputSnoc(done, Literal(text));
    }
    HandSnoc(literal, Code(c));
    NotSkipped(HandOf(literal), c);
    DelimiterSnoc(literal, c);
  }

  lemma DelimiterSnoc(done: seq<Item>, c: int)
    requires EndsInLiteral(done) && !IsBlank(c)
    ensures Text(Minified(done + [Code(c)])) == Text(Minified(done)) + [c]
  {
    hide Text, Minified, Gap;
    OutputSnoc(done, Code(c));
    NoText();
    NoGap(done, Code(c));
    assert Text([]) + [c] == [c];
  }

  lemma TakesString(done: seq<Item>, out: seq<int>, hand: int, quote: int, text: seq<int>)
    requires WroteUpTo(done, out, hand, quote) && IsQuote(quote) && First(text) == quote
    ensures Wrote(done + [Literal(text), Code(quote)], out + text, quote)
    ensures LastChar(done + [Literal(text), Code(quote)]) == quote
  {
    hide HandOf, Text, Minified, Wrote;
    TakesLiteral(done, text, quote);
    assert Gap(done, Literal(text)) == Gap(done, Code(quote)) == [];
  }

  lemma TakesRegExp(done: seq<Item>, out: seq<int>, a: int, text: seq<int>)
    requires Wrote(done, out, a) && BeforeRegExp(a) && First(text) == SLASH
    ensures Wrote(done + [Literal(text), Code(SLASH)],
                  out + [a] + (if StartsComment(a) then [SPACE] else []) + text, SLASH)
    ensures LastChar(done + [Literal(text), Code(SLASH)]) == SLASH
  {
    TakesLiteral(done, text, SLASH);
    hide HandOf, Text, Minified;
    TextOfOne(SPACE);
  }

  // What is left to do, which every action makes less.
  function Left(a: int, b: int, rest: nat): nat {
    3 * rest + (if b != EOF then 2 else 0) + if a != EOF then 1 else 0
  }

  // ---- The machine ----

  class Minifier {
    const input: seq<int>
    var pos: nat
    var lookAhead: int
    var a: int
    var b: int
    var x: int
    var y: int
    var out: seq<int>
    // The items read, up to the one that b came from, and that one.
    ghost var done: seq<Item>
    ghost var last: seq<Item>

    ghost predicate Valid()
      reads this`pos, this`lookAhead
    {
      && pos <= |input|
      && (forall c | c in input :: 0 <= c <= 255)
      && (lookAhead != EOF ==> lookAhead >= 0 && Translate(lookAhead) == lookAhead)
    }

    // The characters still to be read.
    ghost function Rest(): (s: seq<int>)
      requires Valid()
      reads this`pos, this`lookAhead
    {
      (if lookAhead != EOF then [lookAhead] else []) + Translated(input[pos..])
    }

    constructor (input: seq<int>)
      requires forall c | c in input :: 0 <= c <= 255
      ensures Valid() && this.input == input && Rest() == Translated(input)
      ensures out == [] && done == [] && last == [] && x == EOF
    {
      this.input := input;
      pos := 0;
      lookAhead, a, b, x, y := EOF, 0, 0, EOF, EOF;
      out := [];
      done, last := [], [];
    }

    method PutC(c: int)
      modifies this`out
      ensures out == old(out) + [c]
    {
      out := out + [c];
    }

    method Get() returns (c: int)
      requires Valid()
      modifies this`pos, this`lookAhead
      ensures Valid() && lookAhead == EOF
      ensures if old(Rest()) == [] then c == EOF && Rest() == [] else c != EOF && Took(old(Rest()), [c], Rest())
      ensures |Rest()| == if old(Rest()) == [] then 0 else |old(Rest())| - 1
      ensures c == EOF || c == NEWLINE || c >= SPACE
    {
      c := lookAhead;
      lookAhead := EOF;
      if c == EOF {
        if pos < |input| {
          assert input[pos] in input;
          assert Translated(input[pos..])[1..] == Translated(input[pos + 1..]);
          c := input[pos];
          pos := pos + 1;
        }
      }
      if c >= SPACE || c == NEWLINE || c == EOF {
        return;
      }
      if c == 13 {
        c := NEWLINE;
        return;
      }
      c := SPACE;
    }

    method Peek() returns (c: int)
      requires Valid()
      modifies this`pos, this`lookAhead
      ensures Valid() && Rest() == old(Rest())
      ensures c == First(Rest())
    {
      lookAhead := Get();
      c := lookAhead;
    }

    // The line comment of next, after its first slash: up to the first linefeed or the end.
    method SkipLine() returns (c: int)
      requires Valid() && First(Rest()) == SLASH
      modifies this`pos, this`lookAhead
      ensures Valid() && |Rest()| < |old(Rest())|
      ensures match End(LineComment, Plain, old(Rest())[1..])
              case None => c == EOF && Rest() == []
              case Some(n) => c == NEWLINE && Rest() == old(Rest())[1..][n..]
    {
      hide Rest, Valid, End;
      ghost var all := Rest();
      assert all[0] == SLASH;
      c := Get();
      assert c == SLASH && all[1..] == Rest() by { TookFirst(all, c, Rest()); }
      ghost var (s, text, m) := (Rest(), [], Plain);
      MovedNothing(LineComment, Plain, s);
      hide Took, Moved;
      while c > NEWLINE
        invariant Valid() && |Rest()| < |all|
        invariant Moved(LineComment, Plain, s, text, m, Rest())
        invariant c == EOF || c == NEWLINE || c >= SPACE
        invariant c == EOF ==> Rest() == []
        invariant m == if c == NEWLINE then Closed else Plain
        decreases |Rest()|, c
      {
        ghost var rest := Rest();
        c := Get();
        if c != EOF {
          MovedOn(LineComment, Plain, s, text, m, rest, c, Rest());
          text, m := text + [c], Step(LineComment, m, c);
        }
      }
      if c == EOF {
        MovedFails(LineComment, Plain, s, text, m, Rest());
      } else {
        MovedEnds(LineComment, Plain, s, text, Rest());
      }
    }

    // The block comment of next, after its first slash. It fails if and only if it has no end.
    method SkipBlock() returns (ok: bool)
      requires Valid() && First(Rest()) == STAR
      modifies this`pos, this`lookAhead
      ensures Valid() && |Rest()| < |old(Rest())|
      ensures match End(BlockComment, Plain, old(Rest())[1..])
              case None => !ok
              case Some(n) => ok && Rest() == old(Rest())[1..][n..]
    {
      hide Rest, Valid, End;
      ghost var all := Rest();
      assert all[0] == STAR;
      var c := Get();
      assert all[1..] == Rest() by { TookFirst(all, c, Rest()); }
      ghost var (s, text, m) := (Rest(), [], Plain);
      MovedNothing(BlockComment, Plain, s);
      hide Took, Moved;
      ok := true;
      var codeunit := SLASH;
      while codeunit != SPACE
        invariant Valid() && |Rest()| < |all|
        invariant Moved(BlockComment, Plain, s, text, m, Rest())
        invariant if codeunit == SPACE then m == Closed else m == Plain || (m == Starred && First(Rest()) != SLASH)
        decreases |Rest()|, codeunit != SPACE
      {
        ghost var rest := Rest();
        c := Get();
        if c == EOF {
          MovedFails(BlockComment, Plain, s, text, m, Rest());
          ok := false;
          return;
        }
        TookFirst(rest, c, Rest());
        MovedOn(BlockComment, Plain, s, text, m, rest, c, Rest());
        text, m := text + [c], Step(BlockComment, m, c);
        if c == STAR {
          var d := Peek();
          if d == SLASH {
            rest := Rest();
            d := Get();
            TookFirst(rest, d, Rest());
            MovedOn(BlockComment, Plain, s, text, m, rest, d, Rest());
            text, m := text + [d], Closed;
            codeunit := SPACE;
          }
        }
      }
      MovedEnds(BlockComment, Plain, s, text, Rest());
    }

    // next: what Fetch says. It fails if and only if a block comment has no end.
    method Next() returns (ok: bool, c: int)
      requires Valid()
      modifies this`pos, this`lookAhead, this`x, this`y
      ensures Valid()
      ensures match Fetch(old(Rest()))
              case None => !ok
              case Some(g) => ok && c == g.c && Rest() == g.rest
      ensures old(Rest()) != [] ==> old(Rest())[0] != EOF
      ensures ok ==> x == c && y == old(x)
    {
      hide Rest, Valid, Took, End, Fetch;
      FetchNothing();
      ghost var all := Rest();
      ok := true;
      c := Get();
      if c != EOF {
        TookFirst(all, c, Rest());
        FirstPair(all, c, Rest());
      }
      if c == SLASH {
        var d := Peek();
        if d == SLASH {
          c := SkipLine();
        } else if d == STAR {
          ok := SkipBlock();
          c := SPACE;
        }
      }
      y := x;
      x := c;
    }

    // ---- action ----

    // The string that starts with the quote in a, written out up to its closing quote, which
    // is left in a. A backslash takes the next character with it. It fails if and only if the
    // string does not end.
    method CopyString() returns (ok: bool)
      requires Valid() && IsQuote(a) && b == a
      modifies this`pos, this`lookAhead, this`a, this`out
      ensures Valid() && |Rest()| <= |old(Rest())|
      ensures match End(Quoted(b), Plain, old(Rest()))
              case None => !ok
              case Some(n) => ok && a == b && Rest() == old(Rest())[n..] && out == old(out) + [b] + old(Rest())[..n - 1]
    {
      hide Rest, Valid, Took, Moved, End;
      ghost var (kind, s, before, text) := (Quoted(b), Rest(), out, []);
      ok := true;
      MovedNothing(kind, Plain, s);
      while true
        invariant Valid() && |Rest()| <= |s|
        invariant out + [a] == before + [b] + text
        invariant Moved(kind, Plain, s, text, Plain, Rest())
        decreases |Rest()|
      {
        ghost var rest := Rest();
        PutC(a);
        assert out == before + [b] + text;
        a := Get();
        if a == b {
          MovedOn(kind, Plain, s, text, Plain, rest, a, Rest());
          MovedEnds(kind, Plain, s, text + [a], Rest());
          assert (text + [a])[..|text|] == text;
          return;
        }
        if a == BACKSLASH {
          ghost var middle := Rest();
          MovedOn(kind, Plain, s, text, Plain, rest, a, middle);
          PutC(a);
          text := text + [a];
          a := Get();
          if a == EOF {
            MovedFails(kind, Plain, s, text, Escaped, Rest());
          } else {
            MovedOn(kind, Plain, s, text, Escaped, middle, a, Rest());
          }
        } else if a == EOF {
          MovedFails(kind, Plain, s, text, Plain, Rest());
        } else {
          MovedOn(kind, Plain, s, text, Plain, rest, a, Rest());
        }
        if a == EOF {
          ok := false;
          return;
        }
        text := text + [a];
      }
    }

    // The set of a regular expression: everything up to the closing bracket, which is left in
    // a. It fails if and only if there is none.
    method CopySet() returns (ok: bool, ghost text: seq<int>)
      requires Valid() && a == '[' as int
      modifies this`pos, this`lookAhead, this`a, this`out
      ensures Valid() && |Rest()| <= |old(Rest())|
      ensures if ok then a == ']' as int && out == old(out) + ['[' as int] + text
                         && Moved(RegExp, InSet, old(Rest()), text + [a], Plain, Rest())
              else End(RegExp, InSet, old(Rest())) == None
    {
      hide Rest, Valid, Took, Moved, End;
      ghost var (s, before) := (Rest(), out);
      text := [];
      ok := true;
      MovedNothing(RegExp, InSet, s);
      while true
        invariant Valid() && |Rest()| <= |s|
        invariant out + [a] == before + ['[' as int] + text
        invariant Moved(RegExp, InSet, s, text, InSet, Rest())
        decreases |Rest()|
      {
        ghost var rest := Rest();
        PutC(a);
        assert out == before + ['[' as int] + text;
        a := Get();
        if a == ']' as int {
          MovedOn(RegExp, InSet, s, text, InSet, rest, a, Rest());
          return;
        }
        if a == BACKSLASH {
          ghost var middle := Rest();
          MovedOn(RegExp, InSet, s, text, InSet, rest, a, middle);
          PutC(a);
          text := text + [a];
          a := Get();
          if a == EOF {
            MovedFails(RegExp, InSet, s, text, EscapedInSet, Rest());
          } else {
            MovedOn(RegExp, InSet, s, text, EscapedInSet, middle, a, Rest());
          }
        } else if a == EOF {
          MovedFails(RegExp, InSet, s, text, InSet, Rest());
        } else {
          MovedOn(RegExp, InSet, s, text, InSet, rest, a, Rest());
        }
        if a == EOF {
          ok := false;
          return;
        }
        text := text + [a];
      }
    }

    // One piece of a regular expression, written out but for its last character, which is left
    // in a: a set, an escaped character, a plain one, or the closing slash.
    method CopyPiece() returns (ok: bool, closed: bool, ghost put: seq<int>)
      requires Valid()
      modifies this`pos, this`lookAhead, this`a, this`out
      ensures Valid() && |Rest()| <= |old(Rest())|
      ensures if !ok then RegExpFails(old(Rest()))
              else a != EOF && out == old(out) + put && |Rest()| < |old(Rest())|
                   && Moved(RegExp, Plain, old(Rest()), put + [a], if closed then Closed else Plain, Rest())
      ensures ok && closed ==> a == SLASH && put == [] && !StartsComment(First(Rest()))
    {
      hide Rest, Valid, Took, Moved, End;
      ghost var s := Rest();
      ok, closed, put := true, false, [];
      a := Get();
      ghost var (c, middle) := (a, Rest());
      assert put + [a] == [a];
      if a == EOF {
        MovedNothing(RegExp, Plain, s);
        MovedFails(RegExp, Plain, s, [], Plain, s);
      } else {
        MovedOne(RegExp, Plain, s, a, middle);
      }
      if a == '[' as int {
        ok, put := CopySet();
        if ok {
          MovedMore(RegExp, Plain, s, [c], InSet, middle, put + [a], Plain, Rest());
          assert [c] + (put + [a]) == ([c] + put) + [a];
          put := [c] + put;
        } else {
          MovedFailsLater(RegExp, Plain, s, [c], InSet, middle);
        }
      } else if a == SLASH {
        var d := Peek();
        ok, closed := !StartsComment(d), true;
        MovedEnds(RegExp, Plain, s, [a], Rest());
      } else if a == BACKSLASH {
        PutC(a);
        put := [BACKSLASH];
        a := Get();
        if a == EOF {
          MovedFails(RegExp, Plain, s, [c], Escaped, Rest());
        } else {
          MovedOn(RegExp, Plain, s, [c], Escaped, middle, a, Rest());
        }
      }
      ok := ok && a != EOF;
    }

    // The body of a regular expression, written out up to the closing slash, which is left in
    // a. It fails if and only if there is none, or a comment would start after it.
    method CopyRegExp() returns (ok: bool)
      requires Valid()
      modifies this`pos, this`lookAhead, this`a, this`out
      ensures Valid() && |Rest()| <= |old(Rest())|
      ensures ok == !RegExpFails(old(Rest()))
      ensures ok ==> var n := End(RegExp, Plain, old(Rest())).value;
                     a == SLASH && Rest() == old(Rest())[n..] && out == old(out) + old(Rest())[..n - 1]
    {
      hide Rest, Valid, Took, Moved, End;
      ghost var (s, before, text) := (Rest(), out, []);
      ok := true;
      MovedNothing(RegExp, Plain, s);
      while true
        invariant Valid() && |Rest()| <= |s|
        invariant out == before + text
        invariant Moved(RegExp, Plain, s, text, Plain, Rest())
        decreases |Rest()|
      {
        ghost var (rest, put) := (Rest(), []);
        var closed;
        ok, closed, put := CopyPiece();
        if !ok {
          RegExpFailsLater(s, text, rest);
          return;
        }
        MovedMore(RegExp, Plain, s, text, Plain, rest, put + [a], if closed then Closed else Plain, Rest());
        if closed {
          assert put + [a] == [SLASH];
          MovedEnds(RegExp, Plain, s, text + [SLASH], Rest());
          assert (text + [SLASH])[..|text|] == text;
          return;
        }
        PutC(a);
        text := text + (put + [a]);
      }
    }

    // Everything read is accounted for by what was written and by a.
    ghost predicate Ready(all: seq<int>)
      reads this
    {
      && Valid()
      && Accounts(all, done, Rest(), a) && Wrote(done, out, a)
      && if a == EOF then Rest() == [] else x == LastChar(done)
    }

    // What is known of b when the given character was in hand.
    ghost predicate Holding(all: seq<int>, hand: int)
      reads this
    {
      && Valid()
      && Pending(all, done, Got(b, last, Rest()), hand)
      && IsLast(last, b) && x == b && (b == EOF ==> Rest() == [])
    }

    ghost predicate Fetched(all: seq<int>)
      reads this
    {
      && Holding(all, a) && Wrote(done, out, a)
      && if a == EOF then b == EOF else y == LastChar(done)
    }

    // The end of every action: read the next b.
    method FetchPlain(ghost all: seq<int>) returns (ok: bool)
      requires Ready(all)
      modifies this`pos, this`lookAhead, this`x, this`y, this`b, this`last
      ensures if ok then Fetched(all) else Lex(all, NEWLINE) == None
      ensures ok && old(Rest()) == [] ==> Rest() == [] && b == EOF
      ensures ok && old(Rest()) != [] ==> |Rest()| < |old(Rest())|
      ensures ok && StartsComment(b) ==> StartsComment(First(old(Rest())))
    {
      hide Rest, Valid, Lex, LexGot, Fetch, Accounts, Pending, Wrote, LastChar, IsLast;
      ghost var rest := Rest();
      ok, b := Next();
      AccountFetches(all, done, rest, a);
      if ok {
        last := Fetch(rest).value.items;
        FetchIsLast(rest);
      }
    }

    // The end of every action: get the next b, and with it a regular expression if a is the
    // kind of character that one can follow.
    method FetchB(ghost all: seq<int>) returns (ok: bool)
      requires Ready(all)
      modifies this`pos, this`lookAhead, this`x, this`y, this`a, this`b, this`last, this`done, this`out
      ensures if ok then Fetched(all) && !(b == SLASH && BeforeRegExp(a)) else Lex(all, NEWLINE) == None
      ensures ok && old(Rest()) == [] ==> Rest() == [] && b == EOF && a == old(a)
      ensures ok && old(Rest()) != [] ==> |Rest()| < |old(Rest())|
      ensures ok && a == EOF ==> old(a) == EOF
    {
      hide Rest, Valid, Lex, LexGot, Accounts, Pending, Wrote, LastChar, IsLast;
      ok := FetchPlain(all);
      if ok && b == SLASH && BeforeRegExp(a) {
        ok := TakeRegExp(all);
        if ok {
          ok := FetchPlain(all);
        }
      }
    }

    method TakeRegExp(ghost all: seq<int>) returns (ok: bool)
      requires Fetched(all) && b == SLASH && BeforeRegExp(a)
      modifies this`pos, this`lookAhead, this`a, this`last, this`done, this`out
      ensures Valid() && |Rest()| <= |old(Rest())|
      ensures if ok then Ready(all) && a == SLASH && !StartsComment(First(Rest())) else Lex(all, NEWLINE) == None
    {
      hide Rest, Valid, Lex, LexGot, End, Accounts, Pending, Wrote, LastChar, IsLast, BeforeRegExp;
      ghost var (rest, c, before) := (Rest(), a, out);
      PendingLiteral(all, done, Got(b, last, rest), a, RegExp);
      PutC(a);
      if a == SLASH || a == STAR {
        PutC(SPACE);
      }
      PutC(b);
      ok := CopyRegExp();
      if ok {
        ghost var text := [SLASH] + rest[..End(RegExp, Plain, rest).value - 1];
        TakesRegExp(done, before, c, text);
        assert out == before + [c] + (if StartsComment(c) then [SPACE] else []) + text;
        done, last := done + [Literal(text), Code(SLASH)], [];
      }
    }

    // Copies b to a, with the string that it starts.
    method ShiftB(ghost all: seq<int>, ghost hand: int) returns (ok: bool)
      requires Holding(all, hand) && !Skips(hand, b) && !(b == SLASH && BeforeRegExp(hand))
      requires WroteUpTo(done, out, hand, b)
      modifies this`pos, this`lookAhead, this`a, this`last, this`done, this`out
      ensures Valid() && |Rest()| <= |old(Rest())|
      ensures if ok then Ready(all) && a == b else Lex(all, NEWLINE) == None
    {
      hide Rest, Valid, Lex, LexGot, Skips, Accounts, Pending, Wrote, WroteUpTo, LastChar, IsLast;
      ok := true;
      a := b;
      if IsQuote(a) {
        ok := TakeString(all, hand);
      } else {
        if b == EOF {
          PendingEnds(all, done, Got(b, last, Rest()), hand);
        } else {
          PendingOther(all, done, Got(b, last, Rest()), hand);
          NotSkippedIsInHand(hand, b);
        }
        TakesB(done, out, hand, b, last);
        done, last := done + last, [];
      }
    }

    method TakeString(ghost all: seq<int>, ghost hand: int) returns (ok: bool)
      requires Holding(all, hand) && a == b && IsQuote(b) && WroteUpTo(done, out, hand, b)
      modifies this`pos, this`lookAhead, this`a, this`last, this`done, this`out
      ensures Valid() && |Rest()| <= |old(Rest())|
      ensures if ok then Ready(all) && a == b else Lex(all, NEWLINE) == None
    {
      hide Rest, Valid, Lex, LexGot, End, Accounts, Pending, Wrote, WroteUpTo, LastChar, IsLast;
      ghost var (rest, before) := (Rest(), out);
      PendingLiteral(all, done, Got(b, last, rest), hand, Quoted(b));
      ok := CopyString();
      if ok {
        ghost var text := [b] + rest[..End(Quoted(b), Plain, rest).value - 1];
        TakesString(done, before, hand, b, text);
        assert out == before + text;
        done, last := done + [Literal(text), Code(b)], [];
      }
    }

    // action. What it deletes is a blank that does not keep two words apart.
    method Action(determined: int, ghost all: seq<int>) returns (ok: bool)
      requires 1 <= determined <= 3 && (determined == 3 <==> Skips(a, b))
      requires Fetched(all) && a != EOF && !(b == SLASH && BeforeRegExp(a))
      requires determined == 1 && IsBlank(a) ==> MayStart(a, Code(b))
      requires determined == 2 ==> IsBlank(a) && !MayStart(a, Code(b))
      modifies this`pos, this`lookAhead, this`x, this`y, this`a, this`b, this`last, this`done, this`out
      ensures if ok then Fetched(all) && !(b == SLASH && BeforeRegExp(a)) else Lex(all, NEWLINE) == None
      ensures ok ==> Left(a, b, |Rest()|) < old(Left(a, b, |Rest()|))
    {
      hide Rest, Valid, Lex, LexGot, Skips, Accounts, Pending, Wrote, WroteUpTo, LastChar, IsLast, MayStart;
      if determined == 1 {
        OutputA(all);
        ok := ShiftB(all, a);
      } else if determined == 2 {
        DropsA(done, out, a, b);
        ok := ShiftB(all, a);
      } else {
        ok := true;
        SkippedIsBlank(a, b);
        PendingOther(all, done, Got(b, last, Rest()), a);
        SkipsB(done, out, a, b, last);
        done, last := done + last, [];
      }
      if ok {
        ok := FetchB(all);
      }
    }

    // Writes a, and a blank that keeps it apart from b.
    method OutputA(ghost all: seq<int>)
      requires Fetched(all) && a != EOF
      requires IsBlank(a) ==> MayStart(a, Code(b))
      modifies this`out
      ensures Holding(all, a) && WroteUpTo(done, out, a, b)
    {
      hide Rest, Valid, Lex, LexGot, Accounts, Pending, Wrote, WroteUpTo, LastChar, IsLast, MayStart;
      WritesA(done, out, a, b, y);
      PutC(a);
      if (y == NEWLINE || y == SPACE) && IsOperator(a) && IsOperator(b) {
        PutC(y);
      } else {
        assert out + [] == out;
      }
    }

    method SkipByteOrderMark()
      requires Valid()
      modifies this`pos, this`lookAhead
      ensures Valid() && Rest() == SkipMark(old(Rest()))
    {
      hide Rest, Valid;
      ghost var start := Rest();
      var c := Peek();
      if c == 0xEF {
        c := Get();
        c := Get();
        c := Get();
      }
    }

    // jsmin. It succeeds if and only if its input can be lexed. Then it writes the significant
    // items of its input, in order and run together into the same words.
    method JsMin() returns (ok: bool)
      requires Valid() && out == [] && done == [] && last == [] && x == EOF
      modifies this
      ensures var lexed := Lex(SkipMark(old(Rest())), NEWLINE);
              && ok == lexed.Some?
              && (ok ==>
                    var written := Minified(lexed.value);
                    && out == Text(written) && IsOutputOf(lexed.value, written)
                    && Joins(written) == Joins(lexed.value))
    {
      hide Rest, Valid, Lex, LexGot, Accounts, Pending, Wrote, LastChar, IsLast, Text, IsLexed, IsOutputOf, Minified;
      hide Left, Joins, SkipMark, AreCharacters;
      SkipByteOrderMark();
      ghost var all := Rest();
      RestHasCharacters();
      a := NEWLINE;
      AccountStarts(all);
      NothingIsWritten();
      ok := FetchB(all);
      while ok && a != EOF
        invariant if ok then Fetched(all) && !(b == SLASH && BeforeRegExp(a)) else Lex(all, NEWLINE) == None
        decreases ok, if ok then Left(a, b, |Rest()|) else 0
      {
        if a == SPACE {
          ok := Action(if IsAlphanum(b) then 1 else 2, all);
        } else if a == NEWLINE {
          if StartsLine(b) {
            ok := Action(1, all);
          } else if b == SPACE {
            ok := Action(3, all);
          } else {
            ok := Action(if IsAlphanum(b) then 1 else 2, all);
          }
        } else if b == SPACE {
          ok := Action(if IsAlphanum(a) then 1 else 3, all);
        } else if b == NEWLINE {
          if EndsLine(a) {
            ok := Action(1, all);
          } else {
            ok := Action(if IsAlphanum(a) then 1 else 3, all);
          }
        } else {
          ok := Action(1, all);
        }
      }
      if ok {
        PendingEnds(all, done, Got(b, last, Rest()), a);
        WroteAll(done, out, last);
        done := done + last;
        AccountEnds(all, done, EOF);
        LexObeys(all, NEWLINE);
        MinifiedIsOutput(done);
      }
    }

    lemma RestHasCharacters()
      requires Valid()
      ensures AreCharacters(Rest())
    {
    }
  }

  lemma NothingIsWritten()
    ensures Wrote([], [], NEWLINE) && LastChar([]) == EOF
  {
    NoText();
  }

  // What is left at the end is a comment, or nothing.
  lemma WroteAll(done: seq<Item>, out: seq<int>, last: seq<Item>)
    requires Wrote(done, out, EOF) && IsLast(last, EOF)
    ensures out == Text(Minified(done + last))
  {
    hide Text, Minified;
    if last == [] {
      assert done + last == done;
    } else {
      assert last == [last[0]];
      OutputSnoc(done, last[0]);
    }
  }

  lemma NotSkippedIsInHand(hand: int, c: int)
    requires !Skips(hand, c)
    ensures After(hand, c) == c
  {
  }

  lemma SkippedIsBlank(hand: int, c: int)
    requires Skips(hand, c)
    ensures IsBlank(c) && After(hand, c) == hand
  {
  }
}
