// The functions of gnostr.c that write an event into a bounded buffer.
module EventCommitment {
  import opened Bytes
  import opened Cursors
  import opened NostrEvent
  import Hex

  method PushEscapedChar(cur: Cursor, c: byte) returns (ok: bool)
    requires cur.Valid()
    modifies cur`p, cur.buf
    ensures cur.Valid() && Pushed(ok, Escaped(c), old(cur.buf[..]), old(cur.p), cur.buf[..], cur.p, cur.end)
  {
    hide Pushed;
    match c
    case 34 => ok := cur.Push([BACKSLASH, QUOTE]);
    case 92 => ok := cur.Push([BACKSLASH, BACKSLASH]);
    case 8 => ok := cur.Push([BACKSLASH, 'b' as int]);
    case 12 => ok := cur.Push([BACKSLASH, 'f' as int]);
    case 10 => ok := cur.Push([BACKSLASH, 'n' as int]);
    case 13 => ok := cur.Push([BACKSLASH, 'r' as int]);
    case 9 => ok := cur.Push([BACKSLASH, 't' as int]);
    case _ => ok := cur.PushByte(c);
  }

  lemma {:induction false} BodySnoc(s: seq<byte>, c: byte)
    ensures Body(s + [c]) == Body(s) + Escaped(c)
  {
    hide Escaped;
    if s == [] {
      assert Body([c]) == Escaped(c) + Body([c][1..]);
    } else {
      BodySnoc(s[1..], c);
      assert (s + [c])[1..] == s[1..] + [c];
    }
  }

  method PushJsonStr(cur: Cursor, str: seq<byte>) returns (ok: bool)
    requires cur.Valid()
    modifies cur`p, cur.buf
    ensures cur.Valid() && Pushed(ok, JsonStr(str), old(cur.buf[..]), old(cur.p), cur.buf[..], cur.p, cur.end)
  {
    hide Pushed, Escaped, Body;
    ghost var (b0, p0) := (cur.buf[..], cur.p);
    ok := cur.PushByte(QUOTE);
    if !ok {
      PushedFails([QUOTE], Body(str) + [QUOTE], b0, p0, cur.buf[..], cur.p, cur.end);
      assert [QUOTE] + (Body(str) + [QUOTE]) == JsonStr(str);
      return;
    }
    assert [QUOTE] + Body(str[..0]) == [QUOTE] by {
      BodyOfNothing();
    }
    for i := 0 to |str|
      invariant cur.Valid() && Pushed(true, [QUOTE] + Body(str[..i]), b0, p0, cur.buf[..], cur.p, cur.end)
    {
      ghost var (b1, p1, done) := (cur.buf[..], cur.p, [QUOTE] + Body(str[..i]));
      ok := PushEscapedChar(cur, str[i]);
      PushedThen(done, Escaped(str[i]), ok, b0, p0, b1, p1, cur.buf[..], cur.p, cur.end);
      BodySnoc(str[..i], str[i]);
      assert str[..i] + [str[i]] == str[..i + 1];
      assert done + Escaped(str[i]) == [QUOTE] + Body(str[..i + 1]);
      if !ok {
        BodySplits(str, i + 1);
        ghost var more := Body(str[i + 1..]) + [QUOTE];
        PushedFails([QUOTE] + Body(str[..i + 1]), more, b0, p0, cur.buf[..], cur.p, cur.end);
        assert [QUOTE] + Body(str[..i + 1]) + more == JsonStr(str);
        return;
      }
    }
    assert str[..|str|] == str;
    ok := cur.PushByteNext(true, QUOTE, [QUOTE] + Body(str), b0, p0);
  }

  lemma BodyOfNothing()
    ensures Body([]) == []
  {
  }

  lemma {:induction false} BodySplits(s: seq<byte>, i: nat)
    requires i <= |s|
    ensures Body(s) == Body(s[..i]) + Body(s[i..])
    decreases i
  {
    hide Escaped;
    if i == 0 {
      assert s[..0] == [] && s[0..] == s;
    } else {
      BodySplits(s[1..], i - 1);
      assert s[..i][1..] == s[1..][..i - 1] && s[1..][i - 1..] == s[i..];
    }
  }

  // The texts written so far, and those of the other items, make up the whole.
  ghost predicate ListDone<T(!new)>(text: T -> seq<byte>, items: seq<T>, i: nat, done: seq<byte>) {
    i <= |items| && done + ListText(text, items[i..]) == [OPEN] + ListText(text, items)
  }

  lemma ListStarts<T(!new)>(text: T -> seq<byte>, items: seq<T>)
    ensures ListDone(text, items, 0, [OPEN])
  {
    assert items[0..] == items;
  }

  // What an item and its comma add, and what then is left.
  lemma ListTurns<T(!new)>(text: T -> seq<byte>, items: seq<T>, i: nat, done: seq<byte>)
    requires ListDone(text, items, i, done) && i < |items|
    ensures var comma := if i == |items| - 1 then [] else [COMMA];
            && ListDone(text, items, i + 1, done + text(items[i]) + comma)
            && done + text(items[i]) + (comma + ListText(text, items[i + 1..])) == [OPEN] + ListText(text, items)
  {
    var comma := if i == |items| - 1 then [] else [COMMA];
    var others := ListText(text, items[i + 1..]);
    assert items[i..][1..] == items[i + 1..];
    Associates(done, text(items[i]), comma + others);
    Associates(done + text(items[i]), comma, others);
  }

  lemma ListEnds<T(!new)>(text: T -> seq<byte>, items: seq<T>, done: seq<byte>)
    requires ListDone(text, items, |items|, done)
    ensures done == [OPEN] + ListText(text, items)
  {
    assert items[|items|..] == [];
    assert done + [] == done;
  }

  // The start of a list did not fit, so the list does not.
  lemma ListFails<T(!new)>(text: T -> seq<byte>, items: seq<T>, done: seq<byte>, more: seq<byte>,
                          b0: seq<byte>, p0: nat, b: seq<byte>, p: nat, end: nat)
    requires Pushed(false, done, b0, p0, b, p, end) && done + more == [OPEN] + ListText(text, items)
    ensures Pushed(false, [OPEN] + ListText(text, items) + [CLOSE], b0, p0, b, p, end)
  {
    PushedFails(done, more, b0, p0, b, p, end);
    PushedFails(done + more, [CLOSE], b0, p0, b, p, end);
  }

  method PushTag(cur: Cursor, tag: Tag) returns (ok: bool)
    requires cur.Valid()
    modifies cur`p, cur.buf
    ensures cur.Valid() && Pushed(ok, TagText(tag), old(cur.buf[..]), old(cur.p), cur.buf[..], cur.p, cur.end)
  {
    hide Pushed, ListText, ListDone, JsonStr;
    ghost var (b0, p0, done) := (cur.buf[..], cur.p, [OPEN]);
    ListStarts(JsonStr, tag);
    ok := cur.PushByte(OPEN);
    if !ok {
      ListFails(JsonStr, tag, done, ListText(JsonStr, tag), b0, p0, cur.buf[..], cur.p, cur.end);
      return;
    }
    for i := 0 to |tag|
      invariant cur.Valid() && ListDone(JsonStr, tag, i, done)
      invariant Pushed(true, done, b0, p0, cur.buf[..], cur.p, cur.end)
    {
      ghost var (b1, p1) := (cur.buf[..], cur.p);
      ok := PushJsonStr(cur, tag[i]);
      PushedThen(done, JsonStr(tag[i]), ok, b0, p0, b1, p1, cur.buf[..], cur.p, cur.end);
      ListTurns(JsonStr, tag, i, done);
      done := done + JsonStr(tag[i]);
      ghost var others := ListText(JsonStr, tag[i + 1..]);
      if !ok {
        ghost var rest := (if i == |tag| - 1 then [] else [COMMA]) + others;
        ListFails(JsonStr, tag, done, rest, b0, p0, cur.buf[..], cur.p, cur.end);
        return;
      }
      if i != |tag| - 1 {
        ok := cur.PushByteNext(true, COMMA, done, b0, p0);
        Associates(done, [COMMA], others);
        done := done + [COMMA];
        if !ok {
          ListFails(JsonStr, tag, done, others, b0, p0, cur.buf[..], cur.p, cur.end);
          return;
        }
      } else {
        assert done + [] == done;
      }
    }
    ListEnds(JsonStr, tag, done);
    ok := cur.PushByteNext(true, CLOSE, done, b0, p0);
  }

  method PushTags(cur: Cursor, ev: Event) returns (ok: bool)
    requires cur.Valid()
    modifies cur`p, cur.buf
    ensures cur.Valid() && Pushed(ok, Tags(ev), old(cur.buf[..]), old(cur.p), cur.buf[..], cur.p, cur.end)
  {
    hide Pushed, ListText, ListDone, TagText;
    if ev.explicitTags.Some? {
      ok := cur.Push(ev.explicitTags.value);
      return;
    }
    ghost var (b0, p0, done) := (cur.buf[..], cur.p, [OPEN]);
    var tags := ev.tags;
    ListStarts(TagText, tags);
    ok := cur.PushByte(OPEN);
    if !ok {
      ListFails(TagText, tags, done, ListText(TagText, tags), b0, p0, cur.buf[..], cur.p, cur.end);
      return;
    }
    for i := 0 to |tags|
      invariant cur.Valid() && ListDone(TagText, tags, i, done)
      invariant Pushed(true, done, b0, p0, cur.buf[..], cur.p, cur.end)
    {
      ghost var (b1, p1) := (cur.buf[..], cur.p);
      ok := PushTag(cur, tags[i]);
      PushedThen(done, TagText(tags[i]), ok, b0, p0, b1, p1, cur.buf[..], cur.p, cur.end);
      ListTurns(TagText, tags, i, done);
      done := done + TagText(tags[i]);
      ghost var others := ListText(TagText, tags[i + 1..]);
      if !ok {
        ghost var rest := (if i == |tags| - 1 then [] else [COMMA]) + others;
        ListFails(TagText, tags, done, rest, b0, p0, cur.buf[..], cur.p, cur.end);
        return;
      }
      if i != |tags| - 1 {
        ok := cur.PushNext(true, [COMMA], done, b0, p0);
        Associates(done, [COMMA], others);
        done := done + [COMMA];
        if !ok {
          ListFails(TagText, tags, done, others, b0, p0, cur.buf[..], cur.p, cur.end);
          return;
        }
      } else {
        assert done + [] == done;
      }
    }
    ListEnds(TagText, tags, done);
    ok := cur.PushByteNext(true, CLOSE, done, b0, p0);
  }

  // ---- The whole event ----

  method PushTagsNext(cur: Cursor, sofar: bool, ev: Event, ghost done: seq<byte>, ghost b0: seq<byte>, ghost p0: nat)
      returns (ok: bool)
    requires cur.Valid() && Pushed(sofar, done, b0, p0, cur.buf[..], cur.p, cur.end)
    modifies cur`p, cur.buf
    ensures cur.Valid() && Pushed(ok, done + Tags(ev), b0, p0, cur.buf[..], cur.p, cur.end)
  {
    hide Pushed, Tags;
    if !sofar {
      PushedFails(done, Tags(ev), b0, p0, cur.buf[..], cur.p, cur.end);
      return false;
    }
    ghost var (b1, p1) := (cur.buf[..], cur.p);
    ok := PushTags(cur, ev);
    PushedThen(done, Tags(ev), ok, b0, p0, b1, p1, cur.buf[..], cur.p, cur.end);
  }

  method PushJsonStrNext(cur: Cursor, sofar: bool, str: seq<byte>,
                         ghost done: seq<byte>, ghost b0: seq<byte>, ghost p0: nat)
      returns (ok: bool)
    requires cur.Valid() && Pushed(sofar, done, b0, p0, cur.buf[..], cur.p, cur.end)
    modifies cur`p, cur.buf
    ensures cur.Valid() && Pushed(ok, done + JsonStr(str), b0, p0, cur.buf[..], cur.p, cur.end)
  {
    hide Pushed, JsonStr;
    if !sofar {
      PushedFails(done, JsonStr(str), b0, p0, cur.buf[..], cur.p, cur.end);
      return false;
    }
    ghost var (b1, p1) := (cur.buf[..], cur.p);
    ok := PushJsonStr(cur, str);
    PushedThen(done, JsonStr(str), ok, b0, p0, b1, p1, cur.buf[..], cur.p, cur.end);
  }

  // event_commitment. It gives the length of the serialisation exactly when that is less than
  // the length of the buffer, and 0 otherwise.
  method EventCommitment(ev: Event, buf: array<byte>, buflen: nat) returns (len: nat)
    requires |ev.pubkey| == 32 && buflen <= buf.Length
    modifies buf
    ensures len == if |Commitment(ev)| < buflen then |Commitment(ev)| else 0
    ensures len > 0 ==> buf[..len] == Commitment(ev)
    ensures buf[buflen..] == old(buf[buflen..])
  {
    hide Pushed, Hex.Encode, Time, Kind, Tags, JsonStr;
    var pubkey := new byte[65];
    var ok := Hex.HexEncode(ev.pubkey, pubkey, 0);
    var hex := CString(pubkey[..]);
    assert pubkey[..] == pubkey[..65] == [] + Hex.Encode(ev.pubkey) + [0] + [];
    Hex.HasNoZero(ev.pubkey);
    CStringIs(Hex.Encode(ev.pubkey), []);
    assert hex == Hex.Encode(ev.pubkey) by {
      assert [] + Hex.Encode(ev.pubkey) == Hex.Encode(ev.pubkey);
    }
    var cur := new Cursor(buf, 0, buflen);
    ghost var b0 := buf[..];
    ok := cur.Push(START);
    ghost var done := START;
    ok := cur.PushNext(ok, hex, done, b0, 0);
    done := done + hex;
    ok := cur.PushNext(ok, [QUOTE, COMMA], done, b0, 0);
    done := done + [QUOTE, COMMA];
    ok := cur.PushNext(ok, Time(ev.createdAt), done, b0, 0);
    done := done + Time(ev.createdAt);
    ok := cur.PushNext(ok, [COMMA], done, b0, 0);
    done := done + [COMMA];
    ok := cur.PushNext(ok, Kind(ev.kind), done, b0, 0);
    done := done + Kind(ev.kind);
    ok := cur.PushNext(ok, [COMMA], done, b0, 0);
    done := done + [COMMA];
    ok := PushTagsNext(cur, ok, ev, done, b0, 0);
    done := done + Tags(ev);
    ok := cur.PushNext(ok, [COMMA], done, b0, 0);
    done := done + [COMMA];
    ok := PushJsonStrNext(cur, ok, ev.content, done, b0, 0);
    done := done + JsonStr(ev.content);
    ok := PushLast(cur, ok, done, b0);
    if !ok {
      return 0;
    }
    len := cur.Length();
  }

  // The last push succeeds only when there is room for one more byte.
  method PushLast(cur: Cursor, sofar: bool, ghost done: seq<byte>, ghost b0: seq<byte>) returns (ok: bool)
    requires cur.Valid() && cur.start == 0 && Pushed(sofar, done, b0, 0, cur.buf[..], cur.p, cur.end)
    modifies cur`p, cur.buf
    ensures cur.Valid() && ok == (|done| + 1 < cur.end) && (ok ==> cur.p == |done| + 1)
    ensures ok ==> cur.buf[..cur.p] == done + [CLOSE]
    ensures cur.buf[cur.end..] == b0[cur.end..]
  {
    if !sofar {
      return false;
    }
    ghost var (b1, p1) := (cur.buf[..], cur.p);
    ok := cur.Push([CLOSE]);
    PushedThen(done, [CLOSE], ok, b0, 0, b1, p1, cur.buf[..], cur.p, cur.end);
  }
}
