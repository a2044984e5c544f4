// The cursor of include/cursor.h: a place in a buffer between a start and an end.
module Cursors {
  import opened Bytes

  // The buffer b with the place p came from b0 and p0: only the bytes from p0 to the end have
  // been written.
  ghost predicate Wrote(b0: seq<byte>, p0: nat, b: seq<byte>, p: nat, end: nat) {
    p0 <= p <= end <= |b| && |b| == |b0| && b[..p0] == b0[..p0] && b[end..] == b0[end..]
  }

  // The text was pushed, or there was no room for it and one more byte.
  ghost predicate Pushed(ok: bool, text: seq<byte>, b0: seq<byte>, p0: nat, b: seq<byte>, p: nat, end: nat) {
    && Wrote(b0, p0, b, p, end)
    && if ok then p == p0 + |text| && b[p0..p] == text else p0 + |text| >= end
  }

  lemma PushedNothing(b: seq<byte>, p: nat, end: nat)
    requires p <= end <= |b|
    ensures Pushed(true, [], b, p, b, p, end)
  {
  }

  lemma PushedThen(text: seq<byte>, more: seq<byte>, ok: bool, b0: seq<byte>, p0: nat, b1: seq<byte>, p1: nat,
                   b2: seq<byte>, p2: nat, end: nat)
    requires Pushed(true, text, b0, p0, b1, p1, end) && Pushed(ok, more, b1, p1, b2, p2, end)
    ensures Pushed(ok, text + more, b0, p0, b2, p2, end)
  {
    assert b2[..p0] == b2[..p1][..p0] == b1[..p1][..p0] == b1[..p0];
    assert b2[p0..p1] == b2[..p1][p0..] == b1[..p1][p0..] == b1[p0..p1];
    assert ok ==> b2[p0..p2] == b2[p0..p1] + b2[p1..p2];
  }

  lemma PushedFails(text: seq<byte>, more: seq<byte>, b0: seq<byte>, p0: nat, b: seq<byte>, p: nat, end: nat)
    requires Pushed(false, text, b0, p0, b, p, end)
    ensures Pushed(false, text + more, b0, p0, b, p, end)
  {
  }

  class Cursor {
    const buf: array<byte>
    const start: nat
    const end: nat
    var p: nat

    ghost predicate Valid()
      reads this
    {
      start <= p <= end <= buf.Length
    }

    constructor (buf: array<byte>, start: nat, end: nat)
      requires start <= end <= buf.Length
      ensures Valid() && this.buf == buf && this.start == start && this.end == end && p == start
    {
      this.buf, this.start, this.end, p := buf, start, end, start;
    }

    // A byte may be the last one of the buffer.
    method PushByte(c: byte) returns (ok: bool)
      requires Valid()
      modifies this`p, buf
      ensures Valid() && Pushed(ok, [c], old(buf[..]), old(p), buf[..], p, end)
      ensures ok == (old(p) + 1 <= end) && (!ok ==> buf[..] == old(buf[..]) && p == old(p))
    {
      if p + 1 > end {
        return false;
      }
      buf[p] := c;
      p := p + 1;
      ok := true;
    }

    // More bytes may not reach the end of the buffer.
    method Push(data: seq<byte>) returns (ok: bool)
      requires Valid()
      modifies this`p, buf
      ensures Valid() && Pushed(ok, data, old(buf[..]), old(p), buf[..], p, end)
      ensures ok == (old(p) + |data| < end) && (!ok ==> buf[..] == old(buf[..]) && p == old(p))
    {
      if p + |data| >= end {
        return false;
      }
      forall i | 0 <= i < |data| {
        buf[p + i] := data[i];
      }
      p := p + |data|;
      ok := true;
    }

    // A push in a chain of pushes, each of which is tried only after the others.
    method PushNext(sofar: bool, data: seq<byte>, ghost done: seq<byte>, ghost b0: seq<byte>, ghost p0: nat)
        returns (ok: bool)
      requires Valid() && Pushed(sofar, done, b0, p0, buf[..], p, end)
      modifies this`p, buf
      ensures Valid() && Pushed(ok, done + data, b0, p0, buf[..], p, end)
    {
      hide Pushed;
      if !sofar {
        PushedFails(done, data, b0, p0, buf[..], p, end);
        return false;
      }
      ghost var (b1, p1) := (buf[..], p);
      ok := Push(data);
      PushedThen(done, data, ok, b0, p0, b1, p1, buf[..], p, end);
    }

    method PushByteNext(sofar: bool, c: byte, ghost done: seq<byte>, ghost b0: seq<byte>, ghost p0: nat)
        returns (ok: bool)
      requires Valid() && Pushed(sofar, done, b0, p0, buf[..], p, end)
      modifies this`p, buf
      ensures Valid() && Pushed(ok, done + [c], b0, p0, buf[..], p, end)
    {
      hide Pushed;
      if !sofar {
        PushedFails(done, [c], b0, p0, buf[..], p, end);
        return false;
      }
      ghost var (b1, p1) := (buf[..], p);
      ok := PushByte(c);
      PushedThen(done, [c], ok, b0, p0, b1, p1, buf[..], p, end);
    }

    function Length(): (n: nat)
      requires Valid()
      reads this
      ensures p == start + n
    {
      p - start
    }
  }
}
