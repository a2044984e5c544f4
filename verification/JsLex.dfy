// The lexical rules that the minifier of template/gnostr-jsmin.c applies to its input: where
// comments, strings and regular expressions start and end. The rules are given twice, as a
// function that reads the input and as a grammar of items, and shown to agree.
module JsLex {
  import opened Bytes

  const EOF := -1
  const NEWLINE := 10
  const SPACE := 32
  const BACKSLASH := 92
  const SLASH := 47
  const STAR := 42

  // ---- Characters ----

  predicate IsAlphanum(c: int) {
    || 'a' as int <= c <= 'z' as int
    || '0' as int <= c <= '9' as int
    || 'A' as int <= c <= 'Z' as int
    || c == '_' as int || c == '$' as int || c == BACKSLASH || c > 126
  }

  predicate IsQuote(c: int) {
    c == '\'' as int || c == '"' as int || c == '`' as int
  }

  // The characters after which a slash starts a regular expression.
  predicate BeforeRegExp(c: int) {
    c in {'(' as int, ',' as int, '=' as int, ':' as int, '[' as int, '!' as int, '&' as int, '|' as int,
          '?' as int, '+' as int, '-' as int, '~' as int, STAR, SLASH, '{' as int, '}' as int, ';' as int}
  }

  predicate IsBlank(c: int) {
    c == SPACE || c == NEWLINE
  }

  // The characters before which and after which a linefeed is kept, besides those of words.
  predicate EndsLine(c: int) {
    c in {'}' as int, ']' as int, ')' as int, '+' as int, '-' as int, '"' as int, '\'' as int, '`' as int}
  }

  predicate StartsLine(c: int) {
    c in {'{' as int, '[' as int, '(' as int, '+' as int, '-' as int, '!' as int, '~' as int}
  }

  function First(s: seq<int>): int {
    if s == [] then EOF else s[0]
  }

  // After a slash, these would make a comment.
  predicate StartsComment(c: int) {
    c == SLASH || c == STAR
  }

  // ---- Where a piece ends ----

  datatype Kind = LineComment | BlockComment | Quoted(quote: int) | RegExp

  // How far the text of a piece has got: a star that may end a comment, an escape, a set of a
  // regular expression.
  datatype Mode = Plain | Starred | Escaped | InSet | EscapedInSet | Closed

  function Step(kind: Kind, mode: Mode, c: int): Mode {
    match mode
    case Plain =>
      (match kind
       case LineComment => if c == NEWLINE then Closed else Plain
       case BlockComment => if c == STAR then Starred else Plain
       case Quoted(quote) => if c == quote then Closed else if c == BACKSLASH then Escaped else Plain
       case RegExp =>
         if c == SLASH then Closed else if c == BACKSLASH then Escaped else if c == '[' as int then InSet else Plain)
    case Starred => if c == SLASH then Closed else if c == STAR then Starred else Plain
    case Escaped => Plain
    case InSet => if c == BACKSLASH then EscapedInSet else if c == ']' as int then Plain else InSet
    case EscapedInSet => InSet
    case Closed => Closed
  }

  // The number of characters up to and with the one that closes the piece.
  function End(kind: Kind, mode: Mode, s: seq<int>): (n: Option<nat>)
    ensures n.Some? ==> n.value <= |s| && (mode != Closed ==> n.value > 0)
    decreases |s|
  {
    if mode == Closed then Some(0)
    else if s == [] then None
    else
      match End(kind, Step(kind, mode, s[0]), s[1..])
      case None => None
      case Some(n) => Some(n + 1)
  }

  // What ends a piece does not depend on what comes after.
  lemma {:induction false} EndIsFirst(kind: Kind, mode: Mode, s: seq<int>, t: seq<int>)
    requires End(kind, mode, s).Some?
    ensures End(kind, mode, s + t) == End(kind, mode, s)
    decreases |s|
  {
    if mode != Closed {
      assert (s + t)[1..] == s[1..] + t;
      EndIsFirst(kind, Step(kind, mode, s[0]), s[1..], t);
    }
  }

  lemma {:induction false} EndWithin(kind: Kind, mode: Mode, s: seq<int>)
    requires End(kind, mode, s).Some?
    ensures End(kind, mode, s[..End(kind, mode, s).value]) == End(kind, mode, s)
    decreases |s|
  {
    if mode != Closed {
      var n := End(kind, mode, s).value;
      EndWithin(kind, Step(kind, mode, s[0]), s[1..]);
      assert s[..n][1..] == s[1..][..n - 1];
    }
  }

  // ---- Items ----

  // A character of code, a comment, or a string or regular expression without its closing
  // delimiter, which is the character of code that follows.
  datatype Item = Code(c: int) | Comment(text: seq<int>) | Literal(text: seq<int>)

  function Source(item: Item): seq<int> {
    if item.Code? then [item.c] else item.text
  }

  function Text(items: seq<Item>): seq<int> {
    if items == [] then [] else Text(items[..|items| - 1]) + Source(items[|items| - 1])
  }

  lemma TextSnoc(items: seq<Item>, item: Item)
    ensures Text(items + [item]) == Text(items) + Source(item)
  {
    assert (items + [item])[..|items|] == items;
  }

  lemma {:induction false} TextCons(item: Item, items: seq<Item>)
    ensures Text([item] + items) == Source(item) + Text(items)
  {
    hide Source;
    if items == [] {
      assert [item] + items == [] + [item];
      TextSnoc([], item);
      assert [] + Source(item) == Source(item) + [];
    } else {
      var (init, last) := (items[..|items| - 1], items[|items| - 1]);
      TextCons(item, init);
      assert [item] + items == [item] + init + [last] && items == init + [last];
      TextSnoc([item] + init, last);
      TextSnoc(init, last);
      assert Source(item) + Text(init) + Source(last) == Source(item) + (Text(init) + Source(last));
    }
  }

  // ---- The character in hand ----

  // A blank that is skipped while a is in hand: it separates nothing.
  predicate Skips(a: int, b: int) {
    if a == SPACE then false
    else if a == NEWLINE then b == SPACE
    else IsBlank(b) && !IsAlphanum(a) && (b == NEWLINE ==> !EndsLine(a))
  }

  // The character in hand once c has been read.
  function After(hand: int, c: int): int {
    if Skips(hand, c) then hand else c
  }

  // ---- Lexing as a function ----

  // What next reads: a character, or a comment as a blank; none at the end.
  datatype Got = Got(c: int, items: seq<Item>, rest: seq<int>)

  function Fetch(s: seq<int>): (g: Option<Got>)
    ensures g.Some? ==> if s == [] then g.value == Got(EOF, [], []) else |g.value.rest| < |s|
  {
    if s == [] then Some(Got(EOF, [], []))
    else if s[0] == SLASH && First(s[1..]) == SLASH then
      match End(LineComment, Plain, s[2..])
      case None => Some(Got(EOF, [Comment(s)], []))
      case Some(n) => Some(Got(NEWLINE, [Comment(s[..2 + n])], s[2 + n..]))
    else if s[0] == SLASH && First(s[1..]) == STAR then
      match End(BlockComment, Plain, s[2..])
      case None => None
      case Some(n) => Some(Got(SPACE, [Comment(s[..2 + n])], s[2 + n..]))
    else Some(Got(s[0], [Code(s[0])], s[1..]))
  }

  function Prepend(items: seq<Item>, more: Option<seq<Item>>): Option<seq<Item>> {
    match more
    case None => None
    case Some(others) => Some(items + others)
  }

  // A string or regular expression that c starts, its delimiter, and the others.
  function LexLiteral(kind: Kind, c: int, rest: seq<int>): Option<seq<Item>>
    decreases |rest|, 1
  {
    match End(kind, Plain, rest)
    case None => None
    case Some(n) =>
      if kind == RegExp && StartsComment(First(rest[n..])) then None
      else Prepend([Literal([c] + rest[..n - 1]), Code(c)], Lex(rest[n..], c))
  }

  // The items of the text, with a character in hand; none if a piece does not end.
  function Lex(s: seq<int>, hand: int): Option<seq<Item>>
    decreases |s|, 0
  {
    if s == [] then Some([])
    else
      match Fetch(s)
      case None => None
      case Some(g) => LexGot(g, hand)
  }

  function LexGot(g: Got, hand: int): Option<seq<Item>>
    decreases |g.rest|, 2
  {
    if g.c == EOF then Some(g.items)
    else if g.c == SLASH && BeforeRegExp(hand) then LexLiteral(RegExp, g.c, g.rest)
    else if IsQuote(g.c) then LexLiteral(Quoted(g.c), g.c, g.rest)
    else Prepend(g.items, Lex(g.rest, After(hand, g.c)))
  }

  // ---- Lexing as a grammar ----

  predicate Ends(kind: Kind, text: seq<int>) {
    End(kind, Plain, text) == Some(|text|)
  }

  predicate IsLine(text: seq<int>) {
    |text| >= 2 && text[0] == SLASH && text[1] == SLASH && Ends(LineComment, text[2..])
  }

  // A line comment without a linefeed, which only the end of the text can end.
  predicate IsOpenLine(text: seq<int>) {
    |text| >= 2 && text[0] == SLASH && text[1] == SLASH && NEWLINE !in text[2..]
  }

  predicate IsBlock(text: seq<int>) {
    |text| >= 2 && text[0] == SLASH && text[1] == STAR && Ends(BlockComment, text[2..])
  }

  predicate IsString(text: seq<int>) {
    text != [] && Ends(Quoted(text[0]), text[1..] + [text[0]])
  }

  predicate IsRegExp(text: seq<int>) {
    |text| >= 2 && text[0] == SLASH && !StartsComment(text[1]) && Ends(RegExp, text[1..] + [SLASH])
  }

  predicate StartsApart(items: seq<Item>) {
    items == [] || !StartsComment(First(Source(items[0])))
  }

  // Items that follow one another by the rules, with a character in hand before them.
  predicate IsLexed(items: seq<Item>, hand: int)
    decreases |items|
  {
    if items == [] then true
    else
      var others := items[1..];
      match items[0]
      case Comment(text) =>
        || (IsLine(text) && IsLexed(others, After(hand, NEWLINE)))
        || (IsBlock(text) && IsLexed(others, After(hand, SPACE)))
        || (IsOpenLine(text) && others == [])
      case Code(c) =>
        && !IsQuote(c) && (c == SLASH ==> !BeforeRegExp(hand) && StartsApart(others))
        && IsLexed(others, After(hand, c))
      case Literal(text) =>
        && others != [] && text != [] && others[0] == Code(text[0])
        && (if text[0] == SLASH then BeforeRegExp(hand) && IsRegExp(text) && StartsApart(others[1..])
            else IsQuote(text[0]) && IsString(text))
        && IsLexed(others[1..], text[0])
  }

  // ---- The function and the grammar agree ----

  predicate AreCharacters(s: seq<int>) {
    forall i | 0 <= i < |s| :: s[i] >= 0
  }

  lemma {:induction false} LineEnds(s: seq<int>)
    ensures End(LineComment, Plain, s) == None <==> NEWLINE !in s
    decreases |s|
  {
    if s != [] {
      assert s == [s[0]] + s[1..];
      if s[0] != NEWLINE {
        LineEnds(s[1..]);
      }
    }
  }

  lemma {:induction false} EndHasDelimiter(kind: Kind, mode: Mode, s: seq<int>)
    requires End(kind, mode, s).Some? && mode != Closed && (kind.Quoted? || kind.RegExp?) && mode != Starred
    ensures s[End(kind, mode, s).value - 1] == if kind.Quoted? then kind.quote else SLASH
    decreases |s|
  {
    if Step(kind, mode, s[0]) != Closed {
      EndHasDelimiter(kind, Step(kind, mode, s[0]), s[1..]);
    } else {
      assert End(kind, Closed, s[1..]) == Some(0);
    }
  }

  lemma NoText()
    ensures Text([]) == []
  {
  }

  lemma TextStarts(items: seq<Item>, hand: int)
    requires IsLexed(items, hand)
    ensures StartsApart(items) <==> !StartsComment(First(Text(items)))
    ensures Text(items) == [] <==> items == []
  {
    hide End, Skips, BeforeRegExp, IsLexed;
    if items == [] {
      NoText();
    } else {
      assert items == [items[0]] + items[1..];
      TextCons(items[0], items[1..]);
      SourceHasText(items, hand);
    }
  }

  lemma SourceHasText(items: seq<Item>, hand: int)
    requires IsLexed(items, hand) && items != []
    ensures Source(items[0]) != []
  {
    hide End, Skips, BeforeRegExp;
  }

  lemma TextOfLiteral(text: seq<int>, c: int, others: seq<Item>)
    ensures Text([Literal(text), Code(c)] + others) == text + [c] + Text(others)
  {
    hide Text;
    TextCons(Literal(text), [Code(c)] + others);
    TextCons(Code(c), others);
    assert [Literal(text)] + ([Code(c)] + others) == [Literal(text), Code(c)] + others;
    assert text + ([c] + Text(others)) == text + [c] + Text(others);
  }

  lemma LiteralIsLexed(text: seq<int>, others: seq<Item>, hand: int)
    requires text != [] && IsLexed(others, text[0])
    requires if text[0] == SLASH then BeforeRegExp(hand) && IsRegExp(text) && StartsApart(others)
             else IsQuote(text[0]) && IsString(text)
    ensures IsLexed([Literal(text), Code(text[0])] + others, hand)
  {
    hide IsString, IsRegExp, Skips, BeforeRegExp;
    var items := [Literal(text), Code(text[0])] + others;
    assert items[1..][1..] == others;
  }

  // The text of a literal, up to its delimiter.
  lemma LiteralEnds(kind: Kind, c: int, rest: seq<int>)
    requires End(kind, Plain, rest).Some? && ((kind == RegExp && c == SLASH) || kind == Quoted(c))
    ensures var n := End(kind, Plain, rest).value;
            n > 0 && rest[n - 1] == c && Ends(kind, rest[..n]) && rest[..n - 1] + [c] == rest[..n]
  {
    hide End;
    EndHasDelimiter(kind, Plain, rest);
    EndWithin(kind, Plain, rest);
  }

  lemma LexUnfolds(s: seq<int>, hand: int)
    ensures Lex(s, hand) == if s == [] then Some([]) else if Fetch(s).None? then None else LexGot(Fetch(s).value, hand)
  {
  }

  lemma LiteralUnfolds(g: Got, hand: int, kind: Kind)
    requires g.c != EOF
    requires if g.c == SLASH && BeforeRegExp(hand) then kind == RegExp else IsQuote(g.c) && kind == Quoted(g.c)
    ensures LexGot(g, hand) ==
            match End(kind, Plain, g.rest)
            case None => None
            case Some(n) =>
              if kind == RegExp && StartsComment(First(g.rest[n..])) then None
              else Prepend([Literal([g.c] + g.rest[..n - 1]), Code(g.c)], Lex(g.rest[n..], g.c))
  {
  }

  // What the function finds obeys the grammar, and nothing is lost.
  lemma {:induction false} LexObeys(s: seq<int>, hand: int)
    requires AreCharacters(s) && Lex(s, hand).Some?
    ensures IsLexed(Lex(s, hand).value, hand) && Text(Lex(s, hand).value) == s
    decreases |s|
  {
    hide End, Skips, BeforeRegExp, Text, IsLexed, After, Lex, Fetch;
    LexUnfolds(s, hand);
    if s == [] {
      NoText();
      NothingIsLexed(hand);
    } else {
      var g := Fetch(s).value;
      FetchIs(s);
      if g.c == EOF {
        OpenLineObeys(s, hand);
      } else if g.c == SLASH && BeforeRegExp(hand) {
        var n := End(RegExp, Plain, g.rest).value;
        LexObeys(g.rest[n..], SLASH);
        RegExpObeys(s, hand, n, Lex(g.rest[n..], SLASH).value);
      } else if IsQuote(g.c) {
        var n := End(Quoted(g.c), Plain, g.rest).value;
        LexObeys(g.rest[n..], g.c);
        StringObeys(s, hand, n, Lex(g.rest[n..], g.c).value);
      } else {
        LexObeys(g.rest, After(hand, g.c));
        OtherObeys(s, hand, Lex(g.rest, After(hand, g.c)).value);
      }
    }
  }

  lemma FetchIs(s: seq<int>)
    requires AreCharacters(s) && s != [] && Fetch(s).Some?
    ensures var g := Fetch(s).value;
            && AreCharacters(g.rest) && |g.items| == 1
            && (g.c == SLASH || IsQuote(g.c) ==>
                  g.c == s[0] && g.rest == s[1..] && (g.c == SLASH ==> !StartsComment(First(s[1..]))))
  {
    hide End;
  }

  lemma RegExpObeys(s: seq<int>, hand: int, n: nat, others: seq<Item>)
    requires s != [] && s[0] == SLASH && BeforeRegExp(hand) && !StartsComment(First(s[1..]))
    requires End(RegExp, Plain, s[1..]) == Some(n) && !StartsComment(First(s[1..][n..]))
    requires IsLexed(others, SLASH) && Text(others) == s[1..][n..]
    ensures var items := [Literal([SLASH] + s[1..][..n - 1]), Code(SLASH)] + others;
            IsLexed(items, hand) && Text(items) == s
  {
    hide End, BeforeRegExp, Text, IsLexed;
    var (rest, text) := (s[1..], [SLASH] + s[1..][..n - 1]);
    LiteralEnds(RegExp, SLASH, rest);
    assert rest == rest[..n] + rest[n..] && s == [SLASH] + rest;
    assert text[1..] + [SLASH] == rest[..n];
    assert text + [SLASH] == [SLASH] + rest[..n];
    TextStarts(others, SLASH);
    LiteralIsLexed(text, others, hand);
    TextOfLiteral(text, SLASH, others);
  }

  lemma StringObeys(s: seq<int>, hand: int, n: nat, others: seq<Item>)
    requires s != [] && IsQuote(s[0]) && End(Quoted(s[0]), Plain, s[1..]) == Some(n)
    requires IsLexed(others, s[0]) && Text(others) == s[1..][n..]
    ensures var items := [Literal([s[0]] + s[1..][..n - 1]), Code(s[0])] + others;
            IsLexed(items, hand) && Text(items) == s
  {
    hide End, Text, IsLexed;
    var (c, rest) := (s[0], s[1..]);
    var text := [c] + rest[..n - 1];
    LiteralEnds(Quoted(c), c, rest);
    assert rest == rest[..n] + rest[n..] && s == [c] + rest;
    assert text[1..] + [c] == rest[..n];
    assert text + [c] == [c] + rest[..n];
    LiteralIsLexed(text, others, hand);
    TextOfLiteral(text, c, others);
  }

  lemma NothingIsLexed(hand: int)
    ensures IsLexed([], hand)
  {
  }

  lemma OpenLineObeys(s: seq<int>, hand: int)
    requires AreCharacters(s) && s != [] && Fetch(s).Some? && Fetch(s).value.c == EOF
    ensures Fetch(s).value.items == [Comment(s)] && IsLexed([Comment(s)], hand) && Text([Comment(s)]) == s
  {
    hide Text, End;
    LineEnds(s[2..]);
    TextCons(Comment(s), []);
    NoText();
    assert [Comment(s)] + [] == [Comment(s)];
  }

  // A comment, or a character that starts no literal.
  lemma OtherObeys(s: seq<int>, hand: int, others: seq<Item>)
    requires s != [] && Fetch(s).Some?
    requires var g := Fetch(s).value;
             && g.c != EOF && !IsQuote(g.c) && (g.c == SLASH ==> !BeforeRegExp(hand))
             && IsLexed(others, After(hand, g.c)) && Text(others) == g.rest
    ensures var items := Fetch(s).value.items + others; IsLexed(items, hand) && Text(items) == s
  {
    hide End, BeforeRegExp, Text, After, IsLexed;
    if s[0] == SLASH && StartsComment(First(s[1..])) {
      CommentObeys(s, if First(s[1..]) == SLASH then LineComment else BlockComment, hand, others);
    } else {
      CodeObeys(s, hand, others);
    }
  }

  lemma CodeObeys(s: seq<int>, hand: int, others: seq<Item>)
    requires s != [] && !IsQuote(s[0]) && (s[0] == SLASH ==> !BeforeRegExp(hand) && !StartsComment(First(s[1..])))
    requires IsLexed(others, After(hand, s[0])) && Text(others) == s[1..]
    ensures var items := [Code(s[0])] + others; IsLexed(items, hand) && Text(items) == s
  {
    hide BeforeRegExp, Text, After;
    var items := [Code(s[0])] + others;
    assert items[1..] == others;
    TextCons(Code(s[0]), others);
    assert [s[0]] + s[1..] == s;
    TextStarts(others, After(hand, s[0]));
  }

  lemma CommentObeys(s: seq<int>, kind: Kind, hand: int, others: seq<Item>)
    requires |s| >= 2 && s[0] == SLASH && (kind == LineComment || kind == BlockComment)
    requires s[1] == if kind == LineComment then SLASH else STAR
    requires End(kind, Plain, s[2..]).Some?
    requires var n := End(kind, Plain, s[2..]).value;
             && IsLexed(others, After(hand, if kind == LineComment then NEWLINE else SPACE))
             && n <= |s| - 2 && Text(others) == s[2 + n..]
    ensures var items := [Comment(s[..2 + End(kind, Plain, s[2..]).value])] + others;
            IsLexed(items, hand) && Text(items) == s
  {
    hide End, Text, After;
    var text := s[..2 + End(kind, Plain, s[2..]).value];
    var items := [Comment(text)] + others;
    assert items[1..] == others;
    TextCons(Comment(text), others);
    assert text + s[|text|..] == s;
    EndWithin(kind, Plain, s[2..]);
    assert text[2..] == s[2..][..|text| - 2];
  }

  // Whatever obeys the grammar is what the function finds: the items are determined by their
  // text.
  lemma {:induction false} LexFinds(items: seq<Item>, hand: int)
    requires IsLexed(items, hand) && AreCharacters(Text(items))
    ensures Lex(Text(items), hand) == Some(items)
    decreases |items|
  {
    hide Text, Lex, After, End, BeforeRegExp;
    if items == [] {
      NoText();
      LexesNothing(hand);
    } else {
      var (item, others) := (items[0], items[1..]);
      assert items == [item] + others;
      TextCons(item, others);
      CharactersOf(Source(item), Text(others));
      match item
      case Comment(text) =>
        if IsOpenLine(text) && others == [] {
          NoText();
          OpenLineIsFound(text, hand);
          assert items == [Comment(text)];
        } else {
          var blank := if IsLine(text) then NEWLINE else SPACE;
          LexFinds(others, After(hand, blank));
          CommentIsFound(text, others, hand, blank);
        }
      case Code(c) =>
        LexFinds(others, After(hand, c));
        TextStarts(others, After(hand, c));
        assert Source(item)[0] >= 0;
        CodeIsFound(c, others, hand);
      case Literal(text) =>
        TextCons(others[0], others[1..]);
        assert others == [others[0]] + others[1..];
        CharactersOf([text[0]], Text(others[1..]));
        assert [text[0]][0] >= 0;
        LexFinds(others[1..], text[0]);
        TextStarts(others[1..], text[0]);
        LiteralIsFound(text, others[1..], hand);
        assert [Literal(text), Code(text[0])] + others[1..] == items;
        assert text + ([text[0]] + Text(others[1..])) == text + [text[0]] + Text(others[1..]);
    }
  }

  lemma CharactersOf(s: seq<int>, t: seq<int>)
    requires AreCharacters(s + t)
    ensures AreCharacters(s) && AreCharacters(t)
  {
    assert forall i | 0 <= i < |s| :: s[i] == (s + t)[i];
    assert forall i | 0 <= i < |t| :: t[i] == (s + t)[|s| + i];
  }

  lemma LexesNothing(hand: int)
    ensures Lex([], hand) == Some([])
  {
  }

  lemma OpenLineIsFound(text: seq<int>, hand: int)
    requires IsOpenLine(text)
    ensures Lex(text + [], hand) == Some([Comment(text)])
  {
    hide End;
    LineEnds(text[2..]);
    assert text + [] == text;
  }

  lemma CommentIsFound(text: seq<int>, others: seq<Item>, hand: int, blank: int)
    requires if blank == NEWLINE then IsLine(text) else blank == SPACE && IsBlock(text)
    requires Lex(Text(others), After(hand, blank)) == Some(others)
    ensures Lex(text + Text(others), hand) == Some([Comment(text)] + others)
  {
    hide End, Text, After;
    var s := text + Text(others);
    var kind := if blank == NEWLINE then LineComment else BlockComment;
    EndIsFirst(kind, Plain, text[2..], Text(others));
    assert s[2..] == text[2..] + Text(others);
    assert s[..|text|] == text && s[|text|..] == Text(others);
  }

  lemma CodeIsFound(c: int, others: seq<Item>, hand: int)
    requires c >= 0 && !IsQuote(c)
    requires c == SLASH ==> !BeforeRegExp(hand) && !StartsComment(First(Text(others)))
    requires Lex(Text(others), After(hand, c)) == Some(others)
    ensures Lex([c] + Text(others), hand) == Some([Code(c)] + others)
  {
    hide End, Text, After, BeforeRegExp;
    assert ([c] + Text(others))[1..] == Text(others);
  }

  lemma LiteralIsFound(text: seq<int>, others: seq<Item>, hand: int)
    requires text != [] && text[0] >= 0 && Lex(Text(others), text[0]) == Some(others)
    requires if text[0] == SLASH then BeforeRegExp(hand) && IsRegExp(text) && !StartsComment(First(Text(others)))
             else IsQuote(text[0]) && IsString(text)
    ensures Lex(text + [text[0]] + Text(others), hand) == Some([Literal(text), Code(text[0])] + others)
  {
    hide End, Text, BeforeRegExp, Lex;
    var c := text[0];
    var kind := if c == SLASH then RegExp else Quoted(c);
    var (s, rest) := (text + [c] + Text(others), text[1..] + [c] + Text(others));
    EndIsFirst(kind, Plain, text[1..] + [c], Text(others));
    assert s == [c] + rest && s[1..] == rest;
    assert [c] + rest[..|text| - 1] == text && rest[|text|..] == Text(others);
    LexUnfolds(s, hand);
    assert Fetch(s) == Some(Got(c, [Code(c)], rest));
    assert LexLiteral(kind, c, rest) == Prepend([Literal(text), Code(c)], Lex(Text(others), c));
  }

  // The two agree: a text is lexed if and only if there are items with this text that obey the
  // grammar, and they are the items found.
  lemma LexIff(s: seq<int>, hand: int, items: seq<Item>)
    requires AreCharacters(s)
    ensures Lex(s, hand) == Some(items) <==> IsLexed(items, hand) && Text(items) == s
  {
    hide Lex, IsLexed, Text;
    if Lex(s, hand) == Some(items) {
      LexObeys(s, hand);
    }
    if IsLexed(items, hand) && Text(items) == s {
      LexFinds(items, hand);
    }
  }
}
