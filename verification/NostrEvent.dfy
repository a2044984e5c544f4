// The serialisation of an event that its id is the hash of (NIP-01), as gnostr.c writes it, and
// what it says about the event.
module NostrEvent {
  import opened Bytes
  import Hex

  const QUOTE: byte := 34
  const COMMA: byte := 44
  const OPEN: byte := 91
  const BACKSLASH: byte := 92
  const CLOSE: byte := 93

  type Tag = seq<seq<byte>>

  datatype Event = Event(
    pubkey: seq<byte>,
    createdAt: uint64,
    kind: int32,
    explicitTags: Option<seq<byte>>,
    tags: seq<Tag>,
    content: seq<byte>)

  // ---- Strings ----

  // Only these seven characters are escaped; other control characters are written as they are.
  function Escaped(c: byte): (text: seq<byte>)
    ensures text != [] && text[0] != QUOTE
  {
    if c == QUOTE then [BACKSLASH, QUOTE]
    else if c == BACKSLASH then [BACKSLASH, BACKSLASH]
    else if c == 8 then [BACKSLASH, 'b' as int]
    else if c == 12 then [BACKSLASH, 'f' as int]
    else if c == 10 then [BACKSLASH, 'n' as int]
    else if c == 13 then [BACKSLASH, 'r' as int]
    else if c == 9 then [BACKSLASH, 't' as int]
    else [c]
  }

  function Body(s: seq<byte>): seq<byte> {
    if s == [] then [] else Escaped(s[0]) + Body(s[1..])
  }

  function JsonStr(s: seq<byte>): seq<byte> {
    [QUOTE] + Body(s) + [QUOTE]
  }

  lemma EscapedUnique(c: byte, d: byte, x: seq<byte>, y: seq<byte>)
    requires Escaped(c) + x == Escaped(d) + y
    ensures c == d && x == y
  {
    var text := Escaped(c) + x;
    assert text[0] == Escaped(c)[0] == Escaped(d)[0];
    assert |Escaped(c)| == 2 ==> text[1] == Escaped(c)[1];
    assert |Escaped(d)| == 2 ==> text[1] == Escaped(d)[1];
    assert x == text[|Escaped(c)|..] && y == text[|Escaped(d)|..];
  }

  lemma BodyFirst(s: seq<byte>, x: seq<byte>)
    ensures (Body(s) + [QUOTE] + x)[0] == QUOTE <==> s == []
  {
    hide Escaped;
    if s != [] {
      assert (Body(s) + [QUOTE] + x)[0] == Escaped(s[0])[0];
    }
  }

  // A string can be told from what comes after it.
  lemma {:induction false} BodyUnique(s: seq<byte>, t: seq<byte>, x: seq<byte>, y: seq<byte>)
    requires Body(s) + [QUOTE] + x == Body(t) + [QUOTE] + y
    ensures s == t && x == y
    decreases |s|
  {
    hide Escaped;
    var text := Body(s) + [QUOTE] + x;
    BodyFirst(s, x);
    BodyFirst(t, y);
    if s == [] {
      assert x == text[1..] && y == text[1..];
    } else {
      var (x', y') := (Body(s[1..]) + [QUOTE] + x, Body(t[1..]) + [QUOTE] + y);
      assert text == Escaped(s[0]) + x' == Escaped(t[0]) + y';
      EscapedUnique(s[0], t[0], x', y');
      BodyUnique(s[1..], t[1..], x, y);
    }
  }

  lemma JsonStrUnique(s: seq<byte>, t: seq<byte>, x: seq<byte>, y: seq<byte>)
    requires JsonStr(s) + x == JsonStr(t) + y
    ensures s == t && x == y
  {
    hide Body;
    Associates([QUOTE], Body(s) + [QUOTE], x);
    Associates([QUOTE], Body(t) + [QUOTE], y);
    assert [QUOTE] + (Body(s) + [QUOTE]) == JsonStr(s) && [QUOTE] + (Body(t) + [QUOTE]) == JsonStr(t);
    HeadUnique([QUOTE], [QUOTE], Body(s) + [QUOTE] + x, Body(t) + [QUOTE] + y);
    BodyUnique(s, t, x, y);
  }

  lemma Associates(a: seq<byte>, b: seq<byte>, c: seq<byte>)
    ensures a + b + c == a + (b + c)
  {
  }

  lemma HeadUnique(a: seq<byte>, b: seq<byte>, x: seq<byte>, y: seq<byte>)
    requires |a| == |b| && a + x == b + y
    ensures a == b && x == y
  {
    assert a == (a + x)[..|a|] && b == (b + y)[..|b|];
    assert x == (a + x)[|a|..] && y == (b + y)[|b|..];
  }

  // ---- Lists ----

  // Texts with commas in between: strings in a tag, and tags in an event.
  function ListText<T(!new)>(text: T -> seq<byte>, items: seq<T>): seq<byte> {
    if items == [] then []
    else text(items[0]) + if |items| == 1 then [] else [COMMA] + ListText(text, items[1..])
  }

  // An item can be told from what comes after it, and from the end of a list.
  ghost predicate IsUnique<T(!new)>(text: T -> seq<byte>) {
    && (forall s: T, t: T, x, y | text(s) + x == text(t) + y :: s == t && x == y)
    && (forall s: T :: text(s) != [] && text(s)[0] != CLOSE)
  }

  // What comes after the first item of a list, up to the closing bracket and beyond.
  function Following<T(!new)>(text: T -> seq<byte>, items: seq<T>, x: seq<byte>): seq<byte>
    requires items != []
  {
    if |items| == 1 then [CLOSE] + x else [COMMA] + (ListText(text, items[1..]) + [CLOSE] + x)
  }

  lemma Reassociates(a: seq<byte>, b: seq<byte>, x: seq<byte>)
    ensures a + ([COMMA] + b) + [CLOSE] + x == a + ([COMMA] + (b + [CLOSE] + x))
  {
    var rest := [COMMA] + b;
    Associates(a, rest, [CLOSE]);
    Associates(a, rest + [CLOSE], x);
    Associates([COMMA], b, [CLOSE]);
    Associates([COMMA], b + [CLOSE], x);
  }

  lemma ListSplits<T(!new)>(text: T -> seq<byte>, items: seq<T>, x: seq<byte>)
    ensures ListText(text, items) + [CLOSE] + x ==
            if items == [] then [CLOSE] + x else text(items[0]) + Following(text, items, x)
  {
    if items == [] {
      assert ListText(text, items) + [CLOSE] == [CLOSE];
    } else if |items| == 1 {
      assert ListText(text, items) == text(items[0]);
      Associates(text(items[0]), [CLOSE], x);
    } else {
      Reassociates(text(items[0]), ListText(text, items[1..]), x);
    }
  }

  lemma CloseFirst(x: seq<byte>)
    ensures ([CLOSE] + x)[0] == CLOSE
  {
  }

  lemma FirstByte<T(!new)>(text: T -> seq<byte>, item: T, x: seq<byte>)
    requires IsUnique(text)
    ensures text(item) + x != [] && (text(item) + x)[0] != CLOSE
  {
    assert text(item) != [];
  }

  lemma {:induction false} ListUnique<T(!new)>(text: T -> seq<byte>, s: seq<T>, t: seq<T>, x: seq<byte>, y: seq<byte>)
    requires IsUnique(text) && ListText(text, s) + [CLOSE] + x == ListText(text, t) + [CLOSE] + y
    ensures s == t && x == y
    decreases |s|
  {
    hide ListText, Following, IsUnique;
    ListSplits(text, s, x);
    ListSplits(text, t, y);
    if s == [] && t == [] {
      HeadUnique([CLOSE], [CLOSE], x, y);
    } else if s == [] {
      FirstByte(text, t[0], Following(text, t, y));
      CloseFirst(x);
    } else if t == [] {
      FirstByte(text, s[0], Following(text, s, x));
      CloseFirst(y);
    } else {
      assert s[0] == t[0] && Following(text, s, x) == Following(text, t, y) by {
        ItemUnique(text, s[0], t[0], Following(text, s, x), Following(text, t, y));
      }
      FollowingSplits(text, s, x);
      FollowingSplits(text, t, y);
      if |s| == 1 || |t| == 1 {
        assert Following(text, s, x)[0] == if |s| == 1 then CLOSE else COMMA;
        assert Following(text, t, y)[0] == if |t| == 1 then CLOSE else COMMA;
        HeadUnique([CLOSE], [CLOSE], x, y);
      } else {
        var (x', y') := (ListText(text, s[1..]) + [CLOSE] + x, ListText(text, t[1..]) + [CLOSE] + y);
        HeadUnique([COMMA], [COMMA], x', y');
        ListUnique(text, s[1..], t[1..], x, y);
        assert s == [s[0]] + s[1..] && t == [t[0]] + t[1..];
      }
    }
  }

  lemma ItemUnique<T(!new)>(text: T -> seq<byte>, s: T, t: T, x: seq<byte>, y: seq<byte>)
    requires IsUnique(text) && text(s) + x == text(t) + y
    ensures s == t && x == y
  {
  }

  lemma FollowingSplits<T(!new)>(text: T -> seq<byte>, items: seq<T>, x: seq<byte>)
    requires items != []
    ensures Following(text, items, x) ==
            if |items| == 1 then [CLOSE] + x else [COMMA] + (ListText(text, items[1..]) + [CLOSE] + x)
  {
  }

  // ---- Tags ----

  function TagText(strs: Tag): seq<byte> {
    [OPEN] + ListText(JsonStr, strs) + [CLOSE]
  }

  function Tags(ev: Event): seq<byte> {
    if ev.explicitTags.Some? then ev.explicitTags.value else [OPEN] + ListText(TagText, ev.tags) + [CLOSE]
  }

  lemma JsonStrIsUnique()
    ensures IsUnique(JsonStr)
  {
    hide Body;
    forall s: seq<byte>, t: seq<byte>, x, y | JsonStr(s) + x == JsonStr(t) + y
      ensures s == t && x == y
    {
      JsonStrUnique(s, t, x, y);
    }
  }

  lemma TagTextUnique(s: Tag, t: Tag, x: seq<byte>, y: seq<byte>)
    requires TagText(s) + x == TagText(t) + y
    ensures s == t && x == y
  {
    hide IsUnique;
    var (a, b) := (ListText(JsonStr, s) + [CLOSE], ListText(JsonStr, t) + [CLOSE]);
    assert [OPEN] + a == TagText(s) && [OPEN] + b == TagText(t);
    Associates([OPEN], a, x);
    Associates([OPEN], b, y);
    HeadUnique([OPEN], [OPEN], a + x, b + y);
    JsonStrIsUnique();
    ListUnique(JsonStr, s, t, x, y);
  }

  lemma TagTextIsUnique()
    ensures IsUnique(TagText)
  {
    forall s: Tag, t: Tag, x, y | TagText(s) + x == TagText(t) + y
      ensures s == t && x == y
    {
      TagTextUnique(s, t, x, y);
    }
  }

  // ---- Numbers ----

  // The buffer for the time has room for 15 digits; more are cut off.
  const TIME_DIGITS := 15

  function Time(t: nat): (digits: seq<byte>)
    ensures COMMA !in digits
  {
    if |Digits(t)| > TIME_DIGITS then Digits(t)[..TIME_DIGITS] else Digits(t)
  }

  function Kind(k: int): (digits: seq<byte>)
    ensures COMMA !in digits
  {
    if k < 0 then ['-' as int] + Digits(-k) else Digits(k)
  }

  lemma KindInjective(j: int, k: int)
    requires Kind(j) == Kind(k)
    ensures j == k
  {
    assert Kind(j)[0] == Kind(k)[0];
    if j < 0 {
      assert Kind(j)[1..] == Digits(-j) && Kind(k)[1..] == Digits(-k);
      DigitsInjective(-j, -k);
    } else {
      DigitsInjective(j, k);
    }
  }

  // A field without a comma can be told from what comes after its comma.
  lemma {:induction false} FieldUnique(a: seq<byte>, b: seq<byte>, x: seq<byte>, y: seq<byte>)
    requires COMMA !in a && COMMA !in b && a + [COMMA] + x == b + [COMMA] + y
    ensures a == b && x == y
  {
    assert |a| == |b| by {
      FieldLonger(a, b, x, y);
      FieldLonger(b, a, y, x);
    }
    Associates(a, [COMMA], x);
    Associates(b, [COMMA], y);
    HeadUnique(a, b, [COMMA] + x, [COMMA] + y);
    HeadUnique([COMMA], [COMMA], x, y);
  }

  lemma FirstComma(a: seq<byte>, x: seq<byte>)
    ensures (a + [COMMA] + x)[|a|] == COMMA
  {
  }

  lemma InField(b: seq<byte>, y: seq<byte>, i: nat)
    requires i < |b|
    ensures (b + [COMMA] + y)[i] == b[i] && b[i] in b
  {
  }

  lemma FieldLonger(a: seq<byte>, b: seq<byte>, x: seq<byte>, y: seq<byte>)
    requires COMMA !in b && a + [COMMA] + x == b + [COMMA] + y
    ensures |a| >= |b|
  {
    if |a| < |b| {
      InField(b, y, |a|);
      FirstComma(a, x);
    }
  }

  // ---- Events ----

  const START := [OPEN, 48, COMMA, QUOTE]

  // [0,"<pubkey>",<created_at>,<kind>,<tags>,<content>]
  function Commitment(ev: Event): seq<byte> {
    START + Hex.Encode(ev.pubkey) + [QUOTE, COMMA] + Time(ev.createdAt) + [COMMA] + Kind(ev.kind) + [COMMA]
    + Tags(ev) + [COMMA] + JsonStr(ev.content) + [CLOSE]
  }

  predicate IsPlain(ev: Event) {
    |ev.pubkey| == 32 && ev.explicitTags == None
  }

  lemma PubkeyUnique(p: seq<byte>, q: seq<byte>, x: seq<byte>, y: seq<byte>)
    requires |p| == |q| && START + (Hex.Encode(p) + x) == START + (Hex.Encode(q) + y)
    ensures p == q && x == y
  {
    hide Hex.Encode;
    HeadUnique(START, START, Hex.Encode(p) + x, Hex.Encode(q) + y);
    HeadUnique(Hex.Encode(p), Hex.Encode(q), x, y);
    Hex.RoundTrip(p);
    Hex.RoundTrip(q);
  }

  // The fields after one another, nested to the right.
  function ContentField(ev: Event): seq<byte> {
    [COMMA] + (JsonStr(ev.content) + [CLOSE])
  }

  function TagsField(ev: Event): seq<byte> {
    [OPEN] + (ListText(TagText, ev.tags) + [CLOSE] + ContentField(ev))
  }

  function KindField(ev: Event): seq<byte> {
    Kind(ev.kind) + [COMMA] + TagsField(ev)
  }

  function TimeField(ev: Event): seq<byte> {
    Time(ev.createdAt) + [COMMA] + KindField(ev)
  }

  lemma CommitmentFields(ev: Event)
    requires IsPlain(ev)
    ensures Commitment(ev) == START + (Hex.Encode(ev.pubkey) + ([QUOTE, COMMA] + TimeField(ev)))
  {
    hide Hex.Encode, Time, Kind, ListText, JsonStr;
    assert Tags(ev) + [COMMA] + JsonStr(ev.content) + [CLOSE] == TagsField(ev);
    assert Time(ev.createdAt) + [COMMA] + Kind(ev.kind) + [COMMA] + Tags(ev) + [COMMA] + JsonStr(ev.content) + [CLOSE]
        == TimeField(ev);
  }

  lemma TagsFieldUnique(ev: Event, ev': Event)
    requires TagsField(ev) == TagsField(ev')
    ensures ev.tags == ev'.tags && ev.content == ev'.content
  {
    hide ListText, JsonStr, IsUnique;
    HeadUnique([OPEN], [OPEN], ListText(TagText, ev.tags) + [CLOSE] + ContentField(ev),
               ListText(TagText, ev'.tags) + [CLOSE] + ContentField(ev'));
    TagTextIsUnique();
    ListUnique(TagText, ev.tags, ev'.tags, ContentField(ev), ContentField(ev'));
    HeadUnique([COMMA], [COMMA], JsonStr(ev.content) + [CLOSE], JsonStr(ev'.content) + [CLOSE]);
    JsonStrUnique(ev.content, ev'.content, [CLOSE], [CLOSE]);
  }

  // The bytes determine the event, but for digits of the time that were cut off.
  lemma CommitmentInjective(ev: Event, ev': Event)
    requires IsPlain(ev) && IsPlain(ev')
    ensures Commitment(ev) == Commitment(ev') <==>
            && ev.pubkey == ev'.pubkey && Time(ev.createdAt) == Time(ev'.createdAt)
            && ev.kind == ev'.kind && ev.tags == ev'.tags && ev.content == ev'.content
  {
    if Commitment(ev) == Commitment(ev') {
      hide Commitment, Time, Kind, TagsField, TimeField, Hex.Encode;
      CommitmentFields(ev);
      CommitmentFields(ev');
      PubkeyUnique(ev.pubkey, ev'.pubkey, [QUOTE, COMMA] + TimeField(ev), [QUOTE, COMMA] + TimeField(ev'));
      HeadUnique([QUOTE, COMMA], [QUOTE, COMMA], TimeField(ev), TimeField(ev'));
      TimeFieldUnique(ev, ev');
    }
  }

  lemma TimeFieldUnique(ev: Event, ev': Event)
    requires TimeField(ev) == TimeField(ev')
    ensures Time(ev.createdAt) == Time(ev'.createdAt) && ev.kind == ev'.kind
    ensures ev.tags == ev'.tags && ev.content == ev'.content
  {
    hide Time, Kind, TagsField;
    FieldUnique(Time(ev.createdAt), Time(ev'.createdAt), KindField(ev), KindField(ev'));
    FieldUnique(Kind(ev.kind), Kind(ev'.kind), TagsField(ev), TagsField(ev'));
    KindInjective(ev.kind, ev'.kind);
    TagsFieldUnique(ev, ev');
  }

  // The first times with 15 digits, and with more than 15.
  const LONG_TIME := 100_000_000_000_000
  const CUT_TIME := 1_000_000_000_000_000

  lemma TimePowers()
    ensures Power10(TIME_DIGITS - 1) == LONG_TIME && Power10(TIME_DIGITS) == CUT_TIME
  {
    assert Power10(5) == 100_000;
    assert Power10(10) == 10_000_000_000;
    assert Power10(12) == 1_000_000_000_000;
    assert Power10(14) == LONG_TIME;
  }

  // The digits that one number has more than another do not show once the time is cut off.
  lemma DigitsDropped(n: nat)
    requires |Digits(n)| > TIME_DIGITS
    ensures n >= 10 && Time(n / 10) == Time(n)
  {
    var (digits, fewer) := (Digits(n), Digits(n / 10));
    assert digits == fewer + [digits[|digits| - 1]];
    assert digits[..TIME_DIGITS] == fewer[..TIME_DIGITS];
    assert |fewer| == TIME_DIGITS ==> fewer[..TIME_DIGITS] == fewer;
  }

  // A time of less than 15 digits is the only one with these digits.
  lemma ShortTime(t: nat, t': nat)
    requires t < LONG_TIME && Time(t) == Time(t')
    ensures t == t'
  {
    hide Digits, Power10;
    TimePowers();
    DigitsLength(t, TIME_DIGITS - 1);
    DigitsInjective(t, t');
  }

  // Another time with the same digits.
  lemma OtherTime(t: uint64) returns (t': uint64)
    requires t >= LONG_TIME
    ensures t' != t && Time(t') == Time(t)
  {
    hide Digits, Power10;
    TimePowers();
    DigitsLength(t, TIME_DIGITS);
    DigitsLength(t, TIME_DIGITS - 1);
    if t < CUT_TIME {
      t' := 10 * t;
      DigitsLength(t', TIME_DIGITS);
      DigitsDropped(t');
    } else {
      t' := t / 10;
      DigitsDropped(t);
    }
  }

  // No other event has the same bytes exactly when the time has less than 15 digits.
  lemma SameBytesIff(ev: Event)
    requires IsPlain(ev)
    ensures ev.createdAt < LONG_TIME <==> forall ev' | IsPlain(ev') && Commitment(ev') == Commitment(ev) :: ev' == ev
  {
    hide Commitment, Time;
    if ev.createdAt < LONG_TIME {
      forall ev' | IsPlain(ev') && Commitment(ev') == Commitment(ev)
        ensures ev' == ev
      {
        CommitmentInjective(ev, ev');
        ShortTime(ev.createdAt, ev'.createdAt);
      }
    } else {
      var t' := OtherTime(ev.createdAt);
      CommitmentInjective(ev, ev.(createdAt := t'));
      assert ev.(createdAt := t') != ev;
    }
  }

  // Events before the year 31 690 708 are told apart by their bytes.
  lemma SmallTimesInjective(ev: Event, ev': Event)
    requires IsPlain(ev) && IsPlain(ev') && ev.createdAt < CUT_TIME && ev'.createdAt < CUT_TIME
    requires Commitment(ev) == Commitment(ev')
    ensures ev == ev'
  {
    hide Commitment, Digits, Power10;
    TimePowers();
    DigitsLength(ev.createdAt, TIME_DIGITS);
    DigitsLength(ev'.createdAt, TIME_DIGITS);
    CommitmentInjective(ev, ev');
    DigitsInjective(ev.createdAt, ev'.createdAt);
  }
}
