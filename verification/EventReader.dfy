// What the bytes of an event mean to whoever reads them: a reader of the array of NIP-01, with the
// strings of section 7 of RFC 8259, gets back the fields of the event, each in its place.
module EventReader {
  import opened Bytes
  import opened NostrEvent
  import Hex

  datatype Read<T> = Read(value: T, rest: seq<byte>)

  // ---- Strings ----

  // What a letter after a backslash stands for: quote, backslash, b, f, n, r and t.
  function Unescaped(c: byte): Option<byte> {
    if c == 34 then Some(34)
    else if c == 92 then Some(92)
    else if c == 98 then Some(8)
    else if c == 102 then Some(12)
    else if c == 110 then Some(10)
    else if c == 114 then Some(13)
    else if c == 116 then Some(9)
    else None
  }

  // The rest of a string, after its opening quote. These five control characters must be escaped.
  function ReadBody(s: seq<byte>): (r: Option<Read<seq<byte>>>)
    ensures r.Some? ==> |r.value.rest| < |s|
    decreases |s|
  {
    if s == [] || s[0] in {8, 9, 10, 12, 13} then None
    else if s[0] == 34 then Some(Read([], s[1..]))
    else if s[0] != 92 then Add(s[0], ReadBody(s[1..]))
    else if |s| < 2 then None
    else
      match Unescaped(s[1])
      case None => None
      case Some(c) => Add(c, ReadBody(s[2..]))
  }

  function Add<T>(x: T, more: Option<Read<seq<T>>>): Option<Read<seq<T>>> {
    match more
    case None => None
    case Some(r) => Some(Read([x] + r.value, r.rest))
  }

  function ReadString(s: seq<byte>): (r: Option<Read<seq<byte>>>)
    ensures r.Some? ==> |r.value.rest| < |s|
  {
    if s == [] || s[0] != 34 then None else ReadBody(s[1..])
  }

  lemma EscapedIsRead(c: byte, more: seq<byte>)
    ensures ReadBody(Escaped(c) + more) == Add(c, ReadBody(more))
  {
    var s := Escaped(c) + more;
    if |Escaped(c)| == 1 {
      assert s[1..] == more;
    } else {
      assert s[2..] == more;
    }
  }

  lemma {:induction false} BodyIsRead(text: seq<byte>, more: seq<byte>)
    ensures ReadBody(Body(text) + [34] + more) == Some(Read(text, more))
  {
    if text == [] {
      assert (Body(text) + [34] + more)[1..] == more;
    } else {
      hide ReadBody, Escaped;
      BodyIsRead(text[1..], more);
      var after := Body(text[1..]) + [34] + more;
      assert Body(text) + [34] + more == Escaped(text[0]) + after;
      EscapedIsRead(text[0], after);
      assert [text[0]] + text[1..] == text;
    }
  }

  lemma StringIsRead(text: seq<byte>, more: seq<byte>)
    ensures ReadString(JsonStr(text) + more) == Some(Read(text, more))
  {
    hide Body, ReadBody;
    BodyIsRead(text, more);
    assert (JsonStr(text) + more)[1..] == Body(text) + [34] + more;
  }

  // ---- Lists ----

  // The rest of a list of strings, after its opening bracket or a comma.
  function ReadStrings(s: seq<byte>): (r: Option<Read<Tag>>)
    ensures r.Some? ==> |r.value.rest| < |s|
    decreases |s|
  {
    match ReadString(s)
    case None => None
    case Some(r) =>
      if r.rest == [] then None
      else if r.rest[0] == 93 then Some(Read([r.value], r.rest[1..]))
      else if r.rest[0] == 44 then Add(r.value, ReadStrings(r.rest[1..]))
      else None
  }

  function ReadTag(s: seq<byte>): (r: Option<Read<Tag>>)
    ensures r.Some? ==> |r.value.rest| < |s|
  {
    if |s| < 2 || s[0] != 91 then None
    else if s[1] == 93 then Some(Read([], s[2..]))
    else ReadStrings(s[1..])
  }

  lemma StringsEnd(s: seq<byte>, text: seq<byte>, more: seq<byte>)
    requires ReadString(s) == Some(Read(text, [93] + more))
    ensures ReadStrings(s) == Some(Read([text], more))
  {
    assert ([93] + more)[1..] == more;
  }

  lemma StringsGoOn(s: seq<byte>, text: seq<byte>, after: seq<byte>)
    requires ReadString(s) == Some(Read(text, [44] + after))
    ensures ReadStrings(s) == Add(text, ReadStrings(after))
  {
    assert ([44] + after)[1..] == after;
  }

  lemma {:induction false} StringsAreRead(strs: Tag, more: seq<byte>)
    requires strs != []
    ensures ReadStrings(ListText(JsonStr, strs) + [93] + more) == Some(Read(strs, more))
    decreases |strs|
  {
    hide Body, ReadString, ReadStrings, ListText;
    var s := ListText(JsonStr, strs) + [93] + more;
    ListSplits(JsonStr, strs, more);
    FollowingSplits(JsonStr, strs, more);
    if |strs| == 1 {
      StringIsRead(strs[0], [93] + more);
      StringsEnd(s, strs[0], more);
      assert [strs[0]] == strs;
    } else {
      var after := ListText(JsonStr, strs[1..]) + [93] + more;
      StringIsRead(strs[0], [44] + after);
      StringsGoOn(s, strs[0], after);
      StringsAreRead(strs[1..], more);
      assert [strs[0]] + strs[1..] == strs;
    }
  }

  lemma TagIsRead(strs: Tag, more: seq<byte>)
    ensures ReadTag(TagText(strs) + more) == Some(Read(strs, more))
  {
    hide JsonStr, ReadStrings, ListText;
    var s := TagText(strs) + more;
    assert s[1..] == ListText(JsonStr, strs) + [93] + more;
    if strs == [] {
      assert ListText(JsonStr, strs) == [] by {
        NothingListed(JsonStr);
      }
      assert s == [91, 93] + more;
    } else {
      StringsAreRead(strs, more);
      StringFirst(strs, more);
    }
  }

  lemma NothingListed<T(!new)>(text: T -> seq<byte>)
    ensures ListText(text, []) == []
  {
  }

  lemma StringFirst(strs: Tag, more: seq<byte>)
    requires strs != []
    ensures (ListText(JsonStr, strs) + [93] + more)[0] == 34
  {
  }

  function ReadTagsOn(s: seq<byte>): (r: Option<Read<seq<Tag>>>)
    ensures r.Some? ==> |r.value.rest| < |s|
    decreases |s|
  {
    match ReadTag(s)
    case None => None
    case Some(r) =>
      if r.rest == [] then None
      else if r.rest[0] == 93 then Some(Read([r.value], r.rest[1..]))
      else if r.rest[0] == 44 then Add(r.value, ReadTagsOn(r.rest[1..]))
      else None
  }

  function ReadTags(s: seq<byte>): Option<Read<seq<Tag>>> {
    if |s| < 2 || s[0] != 91 then None
    else if s[1] == 93 then Some(Read([], s[2..]))
    else ReadTagsOn(s[1..])
  }

  lemma TagsEnd(s: seq<byte>, tag: Tag, more: seq<byte>)
    requires ReadTag(s) == Some(Read(tag, [93] + more))
    ensures ReadTagsOn(s) == Some(Read([tag], more))
  {
    assert ([93] + more)[1..] == more;
  }

  lemma TagsGoOn(s: seq<byte>, tag: Tag, after: seq<byte>)
    requires ReadTag(s) == Some(Read(tag, [44] + after))
    ensures ReadTagsOn(s) == Add(tag, ReadTagsOn(after))
  {
    assert ([44] + after)[1..] == after;
  }

  lemma {:induction false} TagsAreRead(tags: seq<Tag>, more: seq<byte>)
    requires tags != []
    ensures ReadTagsOn(ListText(TagText, tags) + [93] + more) == Some(Read(tags, more))
    decreases |tags|
  {
    hide ReadTag, ReadTagsOn, ListText;
    var s := ListText(TagText, tags) + [93] + more;
    ListSplits(TagText, tags, more);
    FollowingSplits(TagText, tags, more);
    if |tags| == 1 {
      TagIsRead(tags[0], [93] + more);
      TagsEnd(s, tags[0], more);
      assert [tags[0]] == tags;
    } else {
      var after := ListText(TagText, tags[1..]) + [93] + more;
      TagIsRead(tags[0], [44] + after);
      TagsGoOn(s, tags[0], after);
      TagsAreRead(tags[1..], more);
      assert [tags[0]] + tags[1..] == tags;
    }
  }

  lemma AllTagsAreRead(tags: seq<Tag>, more: seq<byte>)
    ensures ReadTags([91] + ListText(TagText, tags) + [93] + more) == Some(Read(tags, more))
  {
    hide TagText, ReadTagsOn, ListText;
    var s := [91] + ListText(TagText, tags) + [93] + more;
    assert s[1..] == ListText(TagText, tags) + [93] + more;
    if tags == [] {
      NothingListed(TagText);
      assert s == [91, 93] + more;
    } else {
      TagsAreRead(tags, more);
      TagFirst(tags, more);
    }
  }

  lemma TagFirst(tags: seq<Tag>, more: seq<byte>)
    requires tags != []
    ensures (ListText(TagText, tags) + [93] + more)[0] == 91
  {
  }

  // ---- Numbers ----

  predicate IsDigit(c: byte) {
    48 <= c <= 57
  }

  // The digits that come first.
  function ReadDigits(s: seq<byte>): Read<seq<byte>> {
    if s == [] || !IsDigit(s[0]) then Read([], s)
    else
      var r := ReadDigits(s[1..]);
      Read([s[0]] + r.value, r.rest)
  }

  function ReadNumber(s: seq<byte>): Option<Read<int>> {
    var negative := s != [] && s[0] == 45;
    var r := ReadDigits(if negative then s[1..] else s);
    if r.value == [] then None else Some(Read(if negative then -Number(r.value) else Number(r.value), r.rest))
  }

  lemma {:induction false} DigitsAreRead(digits: seq<byte>, more: seq<byte>)
    requires forall i | 0 <= i < |digits| :: IsDigit(digits[i])
    requires more != [] && !IsDigit(more[0])
    ensures ReadDigits(digits + more) == Read(digits, more)
  {
    if digits == [] {
      assert digits + more == more;
    } else {
      DigitsAreRead(digits[1..], more);
      assert (digits + more)[1..] == digits[1..] + more;
      assert [digits[0]] + digits[1..] == digits;
    }
  }

  lemma NaturalIsRead(n: nat, more: seq<byte>)
    requires more != [] && !IsDigit(more[0])
    ensures ReadDigits(Digits(n) + more) == Read(Digits(n), more) && Number(Digits(n)) == n
    ensures ReadNumber(Digits(n) + more) == Some(Read(n as int, more))
    ensures ReadNumber([45] + Digits(n) + more) == Some(Read((0 - n) as int, more))
  {
    hide Digits, Number, ReadDigits;
    DigitsNumber(n);
    DigitsAreRead(Digits(n), more);
    assert ([45] + Digits(n) + more)[1..] == Digits(n) + more;
  }

  lemma NumberIsRead(k: int, more: seq<byte>)
    requires more != [] && !IsDigit(more[0])
    ensures ReadNumber(Kind(k) + more) == Some(Read(k, more))
  {
    hide Digits, ReadNumber;
    NaturalIsRead(if k < 0 then -k else k, more);
  }

  // ---- Events ----

  // [0,"<pubkey>",<created_at>,<kind>,<tags>,"<content>"]
  function ReadEvent(s: seq<byte>): Option<Event> {
    if |s| < 3 || s[..3] != [91, 48, 44] then None
    else
      match ReadString(s[3..])
      case None => None
      case Some(pubkey) => if Hex.IsHex(pubkey.value) then ReadTime(Hex.Decode(pubkey.value), pubkey.rest) else None
  }

  function ReadTime(pubkey: seq<byte>, s: seq<byte>): Option<Event> {
    match ReadNumber(AfterComma(s))
    case None => None
    case Some(time) => if 0 <= time.value < TWO64 then ReadKind(pubkey, time.value, time.rest) else None
  }

  function ReadKind(pubkey: seq<byte>, time: uint64, s: seq<byte>): Option<Event> {
    match ReadNumber(AfterComma(s))
    case None => None
    case Some(kind) =>
      if -0x8000_0000 <= kind.value < 0x8000_0000 then ReadRest(pubkey, time, kind.value, kind.rest) else None
  }

  function ReadRest(pubkey: seq<byte>, time: uint64, kind: int32, s: seq<byte>): Option<Event> {
    match ReadTags(AfterComma(s))
    case None => None
    case Some(tags) =>
      match ReadString(AfterComma(tags.rest))
      case None => None
      case Some(content) =>
        if content.rest == [93] then Some(Event(pubkey, time, kind, None, tags.value, content.value)) else None
  }

  function AfterComma(s: seq<byte>): seq<byte> {
    if s != [] && s[0] == 44 then s[1..] else []
  }

  lemma CommaIsSkipped(s: seq<byte>)
    ensures AfterComma([44] + s) == s
  {
  }

  lemma TimeIsWhole(t: nat)
    requires t < CUT_TIME
    ensures Time(t) == Digits(t)
  {
    TimePowers();
    DigitsLength(t, TIME_DIGITS);
  }

  lemma RestIsRead(ev: Event)
    requires IsPlain(ev)
    ensures ReadRest(ev.pubkey, ev.createdAt, ev.kind, [44] + TagsField(ev)) == Some(ev)
  {
    hide ReadString, ReadTags, ListText, JsonStr;
    var tags := TagsField(ev);
    CommaIsSkipped(tags);
    assert tags == [91] + ListText(TagText, ev.tags) + [93] + ContentField(ev);
    AllTagsAreRead(ev.tags, ContentField(ev));
    CommaIsSkipped(JsonStr(ev.content) + [93]);
    StringIsRead(ev.content, [93]);
  }

  lemma KindIsRead(ev: Event)
    requires IsPlain(ev)
    ensures ReadKind(ev.pubkey, ev.createdAt, [44] + KindField(ev)) == Some(ev)
  {
    hide ReadNumber, ReadRest, Kind, TagsField;
    CommaIsSkipped(KindField(ev));
    assert KindField(ev) == Kind(ev.kind) + ([44] + TagsField(ev));
    NumberIsRead(ev.kind, [44] + TagsField(ev));
    RestIsRead(ev);
  }

  lemma TimeIsRead(ev: Event)
    requires IsPlain(ev) && ev.createdAt < CUT_TIME
    ensures ReadTime(ev.pubkey, [44] + TimeField(ev)) == Some(ev)
  {
    hide ReadNumber, ReadKind, KindField, Digits, Time;
    CommaIsSkipped(TimeField(ev));
    TimeIsWhole(ev.createdAt);
    assert TimeField(ev) == Digits(ev.createdAt) + ([44] + KindField(ev));
    NaturalIsRead(ev.createdAt, [44] + KindField(ev));
    KindIsRead(ev);
  }

  // What is read of the bytes of an event is the event: each field in its place. Its time must not
  // be cut off.
  lemma EventIsRead(ev: Event)
    requires IsPlain(ev) && ev.createdAt < CUT_TIME
    ensures ReadEvent(Commitment(ev)) == Some(ev)
  {
    hide ReadString, ReadTime, Hex.Encode, Hex.Decode, Hex.IsHex, TimeField, Commitment;
    var (hex, time) := (Hex.Encode(ev.pubkey), TimeField(ev));
    CommitmentFields(ev);
    assert Commitment(ev)[..3] == [91, 48, 44] && Commitment(ev)[3..] == [34] + hex + [34] + ([44] + time);
    HexIsString(ev.pubkey, [44] + time);
    Hex.RoundTrip(ev.pubkey);
    TimeIsRead(ev);
  }

  // Hexadecimal digits are not escaped.
  lemma HexIsString(bytes: seq<byte>, more: seq<byte>)
    ensures ReadString([34] + Hex.Encode(bytes) + [34] + more) == Some(Read(Hex.Encode(bytes), more))
  {
    hide Hex.Encode, ReadBody;
    var hex := Hex.Encode(bytes);
    HexIsPlain(bytes);
    PlainIsRead(hex, more);
    assert ([34] + hex + [34] + more)[1..] == hex + [34] + more;
  }

  predicate IsPlainText(s: seq<byte>) {
    forall c | c in s :: 48 <= c <= 57 || 97 <= c <= 102
  }

  lemma {:induction false} HexIsPlain(bytes: seq<byte>)
    ensures IsPlainText(Hex.Encode(bytes))
  {
    if bytes != [] {
      HexIsPlain(bytes[..|bytes| - 1]);
    }
  }

  lemma {:induction false} PlainIsRead(text: seq<byte>, more: seq<byte>)
    requires IsPlainText(text)
    ensures ReadBody(text + [34] + more) == Some(Read(text, more))
  {
    if text == [] {
      assert (text + [34] + more)[1..] == more;
    } else {
      assert forall c | c in text[1..] :: c in text;
      PlainIsRead(text[1..], more);
      assert text[0] in text && (text + [34] + more)[1..] == text[1..] + [34] + more;
      assert [text[0]] + text[1..] == text;
    }
  }
}
