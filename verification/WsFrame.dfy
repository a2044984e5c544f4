// Frames of the WebSocket protocol, section 5.2 of RFC 6455, as the two send methods of
// client_ws.hpp and server_ws.hpp write them.
module WsFrame {
  import opened Bytes

  // ---- Masks ----

  // The exclusive or of the low k bits.
  function XorBits(a: nat, b: nat, k: nat): (x: nat)
    ensures x < Power2(k)
    decreases k
  {
    if k == 0 then 0 else 2 * XorBits(a / 2, b / 2, k - 1) + (a + b) % 2
  }

  function Xor(a: byte, b: byte): byte {
    assert Power2(8) == 256 by {
      assert Power2(4) == 16;
    }
    XorBits(a, b, 8)
  }

  lemma LowBit(x: nat, a: nat, b: nat)
    ensures (2 * x + (a + b) % 2) / 2 == x && (2 * x + (a + b) % 2 + b) % 2 == a % 2
  {
    assert (a + b) % 2 == 0 || (a + b) % 2 == 1;
  }

  lemma {:induction false} XorBitsTwice(a: nat, b: nat, k: nat)
    requires a < Power2(k)
    ensures XorBits(XorBits(a, b, k), b, k) == a
    decreases k
  {
    if k > 0 {
      XorBitsTwice(a / 2, b / 2, k - 1);
      LowBit(XorBits(a / 2, b / 2, k - 1), a, b);
    }
  }

  lemma XorTwice(a: byte, b: byte)
    ensures Xor(Xor(a, b), b) == a
  {
    assert Power2(4) == 16;
    XorBitsTwice(a, b, 8);
  }

  lemma LastBits(x: nat, y: nat, a: nat, b: nat)
    requires x == 2 * y + (a + b) % 2
    ensures y == x / 2 && (x % 2 == 1 <==> (a % 2 == 1) != (b % 2 == 1))
  {
  }

  // Bit by bit, the exclusive or of two bytes.
  lemma XorByBits(a: byte, b: byte)
    ensures var x := Xor(a, b);
            && (x % 2 == 1 <==> (a % 2 == 1) != (b % 2 == 1))
            && (x / 0x2 % 2 == 1 <==> (a / 0x2 % 2 == 1) != (b / 0x2 % 2 == 1))
            && (x / 0x4 % 2 == 1 <==> (a / 0x4 % 2 == 1) != (b / 0x4 % 2 == 1))
            && (x / 0x8 % 2 == 1 <==> (a / 0x8 % 2 == 1) != (b / 0x8 % 2 == 1))
            && (x / 0x10 % 2 == 1 <==> (a / 0x10 % 2 == 1) != (b / 0x10 % 2 == 1))
            && (x / 0x20 % 2 == 1 <==> (a / 0x20 % 2 == 1) != (b / 0x20 % 2 == 1))
            && (x / 0x40 % 2 == 1 <==> (a / 0x40 % 2 == 1) != (b / 0x40 % 2 == 1))
            && (x / 0x80 % 2 == 1 <==> (a / 0x80 % 2 == 1) != (b / 0x80 % 2 == 1))
  {
    hide XorBits;
    DiffersBelow(a, b, 8);
    var x := Xor(a, b);
    Unfolded(x, a, b);
  }

  // Whether the low k bits of x are those in which a and b differ.
  predicate Differs(x: nat, a: nat, b: nat, k: nat) {
    k == 0 || ((x % 2 == 1 <==> (a % 2 == 1) != (b % 2 == 1)) && Differs(x / 2, a / 2, b / 2, k - 1))
  }

  lemma {:induction false} DiffersBelow(a: nat, b: nat, k: nat)
    ensures Differs(XorBits(a, b, k), a, b, k)
    decreases k
  {
    if k > 0 {
      DiffersBelow(a / 2, b / 2, k - 1);
      LastBits(XorBits(a, b, k), XorBits(a / 2, b / 2, k - 1), a, b);
    }
  }

  lemma Unfolded(x: nat, a: nat, b: nat)
    requires Differs(x, a, b, 8)
    ensures x % 2 == 1 <==> (a % 2 == 1) != (b % 2 == 1)
    ensures x / 0x2 % 2 == 1 <==> (a / 0x2 % 2 == 1) != (b / 0x2 % 2 == 1)
    ensures x / 0x4 % 2 == 1 <==> (a / 0x4 % 2 == 1) != (b / 0x4 % 2 == 1)
    ensures x / 0x8 % 2 == 1 <==> (a / 0x8 % 2 == 1) != (b / 0x8 % 2 == 1)
    ensures x / 0x10 % 2 == 1 <==> (a / 0x10 % 2 == 1) != (b / 0x10 % 2 == 1)
    ensures x / 0x20 % 2 == 1 <==> (a / 0x20 % 2 == 1) != (b / 0x20 % 2 == 1)
    ensures x / 0x40 % 2 == 1 <==> (a / 0x40 % 2 == 1) != (b / 0x40 % 2 == 1)
    ensures x / 0x80 % 2 == 1 <==> (a / 0x80 % 2 == 1) != (b / 0x80 % 2 == 1)
  {
    hide Differs;
    DiffersDown(x, a, b, 8, x / 0x2, a / 0x2, b / 0x2);
    DiffersDown(x / 0x2, a / 0x2, b / 0x2, 7, x / 0x4, a / 0x4, b / 0x4);
    DiffersDown(x / 0x4, a / 0x4, b / 0x4, 6, x / 0x8, a / 0x8, b / 0x8);
    DiffersDown(x / 0x8, a / 0x8, b / 0x8, 5, x / 0x10, a / 0x10, b / 0x10);
    DiffersDown(x / 0x10, a / 0x10, b / 0x10, 4, x / 0x20, a / 0x20, b / 0x20);
    DiffersDown(x / 0x20, a / 0x20, b / 0x20, 3, x / 0x40, a / 0x40, b / 0x40);
    DiffersDown(x / 0x40, a / 0x40, b / 0x40, 2, x / 0x80, a / 0x80, b / 0x80);
    DiffersDown(x / 0x80, a / 0x80, b / 0x80, 1, x / 0x100, a / 0x100, b / 0x100);
  }

  lemma DiffersDown(x: nat, a: nat, b: nat, k: nat, x': nat, a': nat, b': nat)
    requires Differs(x, a, b, k) && k > 0 && x' == x / 2 && a' == a / 2 && b' == b / 2
    ensures (x % 2 == 1 <==> (a % 2 == 1) != (b % 2 == 1)) && Differs(x', a', b', k - 1)
  {
  }

  // The exclusive or of the language.
  predicate IsXor(x: byte, a: byte, b: byte) {
    x as bv8 == (a as bv8) ^ (b as bv8)
  }

  lemma XorIs(a: byte, b: byte)
    ensures IsXor(Xor(a, b), a, b)
  {
    hide Xor;
    XorByBits(a, b);
    ByteBits(a);
    ByteBits(b);
    ByteBits(Xor(a, b));
  }

  function Masked(payload: seq<byte>, mask: seq<byte>): (masked: seq<byte>)
    requires |mask| == 4
    ensures |masked| == |payload|
  {
    seq(|payload|, c requires 0 <= c < |payload| => Xor(payload[c], mask[c % 4]))
  }

  // Each byte is combined with the byte of the mask whose turn it is.
  lemma MaskedIs(payload: seq<byte>, mask: seq<byte>)
    requires |mask| == 4
    ensures forall c | 0 <= c < |payload| :: IsXor(Masked(payload, mask)[c], payload[c], mask[c % 4])
  {
    hide Xor, IsXor;
    forall c | 0 <= c < |payload|
      ensures IsXor(Masked(payload, mask)[c], payload[c], mask[c % 4])
    {
      XorIs(payload[c], mask[c % 4]);
    }
  }

  lemma MaskedTwice(payload: seq<byte>, mask: seq<byte>)
    requires |mask| == 4
    ensures Masked(Masked(payload, mask), mask) == payload
  {
    hide Xor;
    forall c | 0 <= c < |payload|
      ensures Masked(Masked(payload, mask), mask)[c] == payload[c]
    {
      XorTwice(payload[c], mask[c % 4]);
    }
  }

  // ---- Lengths ----

  // n shifted right by c bytes.
  function Shifted(n: nat, c: nat): nat {
    if c == 0 then n else Shifted(n, c - 1) / 256
  }

  // The low size bytes of n, most significant byte first.
  function BigEndian(n: nat, size: nat): (bytes: seq<byte>)
    ensures |bytes| == size
    decreases size
  {
    if size == 0 then [] else BigEndian(n / 256, size - 1) + [n % 256]
  }

  lemma {:induction false} BigEndianValue(n: nat, size: nat)
    requires n < Power256(size)
    ensures Value(BigEndian(n, size)) == n
    decreases size
  {
    if size > 0 {
      BigEndianValue(n / 256, size - 1);
      var bytes := BigEndian(n, size);
      assert bytes[..|bytes| - 1] == BigEndian(n / 256, size - 1);
    }
  }

  lemma Powers()
    ensures Power256(2) == 0x1_0000 && Power256(8) == TWO64
  {
    assert Power256(1) == 256;
    assert Power256(2) == 0x1_0000;
    assert Power256(3) == 0x100_0000;
    assert Power256(4) == 0x1_0000_0000;
    assert Power256(5) == 0x100_0000_0000;
    assert Power256(6) == 0x1_0000_0000_0000;
    assert Power256(7) == 0x100_0000_0000_0000;
  }

  // The length in its 7-bit, 16-bit or 64-bit form, with the mask bit.
  function LengthBytes(n: nat, maskBit: byte): (bytes: seq<byte>)
    requires n < TWO64 && (maskBit == 0 || maskBit == 128)
    ensures 1 <= |bytes| <= 9
  {
    if n < 126 then [n + maskBit]
    else if n <= 0xffff then [126 + maskBit] + BigEndian(n, 2)
    else [127 + maskBit] + BigEndian(n, 8)
  }

  // ---- Frames ----

  function ClientBytes(first: byte, payload: seq<byte>, mask: seq<byte>): seq<byte>
    requires |payload| < TWO64 && |mask| == 4
  {
    [first] + LengthBytes(|payload|, 128) + mask + Masked(payload, mask)
  }

  function ServerBytes(first: byte, payload: seq<byte>): seq<byte>
    requires |payload| < TWO64
  {
    [first] + LengthBytes(|payload|, 0) + payload
  }

  lemma ByteTurns(n: nat, c: nat, size: nat)
    requires c > 0
    ensures BigEndian(Shifted(n, c - 1), size + 1) == BigEndian(Shifted(n, c), size) + [Shifted(n, c - 1) % 256]
  {
  }

  lemma NotShifted(n: nat)
    ensures Shifted(n, 0) == n
  {
  }

  // The bytes before the mask: two, and the length in two or eight more.
  function HeaderSize(n: nat): nat {
    if n < 126 then 2 else if n <= 0xffff then 4 else 10
  }

  lemma LengthIs(first: byte, n: nat, maskBit: byte)
    requires n < TWO64 && (maskBit == 0 || maskBit == 128)
    ensures var header := [first] + LengthBytes(n, maskBit);
            && |header| == HeaderSize(n)
            && header[1] == maskBit + (if n < 126 then n else if n <= 0xffff then 126 else 127)
            && (n >= 126 ==> Value(header[2..]) == n)
  {
    hide BigEndian, Value, Power256;
    Powers();
    var header := [first] + LengthBytes(n, maskBit);
    if n >= 126 {
      var size := if n <= 0xffff then 2 else 8;
      assert header[2..] == BigEndian(n, size);
      BigEndianValue(n, size);
    }
  }

  // What both send methods put after the first byte.
  method PutLength(header: seq<byte>, length: nat, maskBit: byte) returns (out: seq<byte>)
    requires length < TWO64 && (maskBit == 0 || maskBit == 128)
    ensures out == header + LengthBytes(length, maskBit)
  {
    hide Shifted, BigEndian;
    out := header;
    if length >= 126 {
      var numBytes: nat;
      if length > 0xffff {
        numBytes := 8;
        out := out + [127 + maskBit];
      } else {
        numBytes := 2;
        out := out + [126 + maskBit];
      }
      ghost var start := out;
      var c := numBytes;
      while c > 0
        invariant 0 <= c <= numBytes
        invariant out == start + BigEndian(Shifted(length, c), numBytes - c)
      {
        ByteTurns(length, c, numBytes - c);
        c := c - 1;
        out := out + [Shifted(length, c) % 256];
      }
      NotShifted(length);
    } else {
      out := out + [length + maskBit];
    }
  }

  // Section 5.2 of RFC 6455: the first byte, the length in 7, 16 or 64 bits with the mask bit, the
  // mask, and the payload combined with it.
  predicate IsClientFrame(out: seq<byte>, first: byte, message: seq<byte>, mask: seq<byte>)
    requires |mask| == 4
  {
    var (n, header) := (|message|, if |message| < 126 then 2 else if |message| <= 0xffff then 4 else 10);
    && |out| == header + 4 + n && out[0] == first
    && out[1] == 128 + (if n < 126 then n else if n <= 0xffff then 126 else 127)
    && (n >= 126 ==> Value(out[2..header]) == n)
    && out[header..header + 4] == mask
    && forall c | 0 <= c < n :: IsXor(out[header + 4 + c], message[c], mask[c % 4])
  }

  lemma ClientBytesAre(first: byte, message: seq<byte>, mask: seq<byte>)
    requires |message| < TWO64 && |mask| == 4
    ensures IsClientFrame(ClientBytes(first, message, mask), first, message, mask)
  {
    hide Xor, IsXor, LengthBytes;
    var header := [first] + LengthBytes(|message|, 128);
    LengthIs(first, |message|, 128);
    MaskedIs(message, mask);
    var out := ClientBytes(first, message, mask);
    assert out == header + mask + Masked(message, mask);
    assert out[2..|header|] == header[2..];
  }

  // The bytes of a message of the client, with the mask that it drew.
  method ClientSend(first: byte, message: seq<byte>, mask: seq<byte>) returns (out: seq<byte>)
    requires |message| < TWO64 && |mask| == 4
    ensures out == ClientBytes(first, message, mask)
    ensures IsClientFrame(out, first, message, mask)
  {
    hide Xor, LengthBytes, IsClientFrame;
    ClientBytesAre(first, message, mask);
    out := PutLength([first], |message|, 128);
    for c := 0 to 4
      invariant out == [first] + LengthBytes(|message|, 128) + mask[..c]
    {
      out := out + [mask[c]];
    }
    assert mask[..4] == mask;
    ghost var header := out;
    for c := 0 to |message|
      invariant out == header + Masked(message, mask)[..c]
    {
      out := out + [Xor(message[c], mask[c % 4])];
    }
    assert out == ClientBytes(first, message, mask);
  }

  // The header and the message of the server, which writes them one after the other.
  method ServerSend(first: byte, message: seq<byte>) returns (header: seq<byte>)
    requires |message| < TWO64
    ensures header + message == ServerBytes(first, message)
    ensures var n := |message|;
            && |header| == HeaderSize(n) && header[0] == first
            && header[1] == (if n < 126 then n else if n <= 0xffff then 126 else 127)
            && (n >= 126 ==> Value(header[2..]) == n)
  {
    hide LengthBytes, HeaderSize, Value;
    LengthIs(first, |message|, 0);
    header := PutLength([first], |message|, 0);
  }

  // ---- Headers ----

  // What the two read_message methods make of the bytes before the mask and the payload. The
  // first two bytes are kept as they are; size is the number of bytes.
  datatype Header = Header(first: byte, second: byte, length: nat, size: nat)

  function Decode(stream: seq<byte>): (header: Option<Header>)
    ensures header.Some? ==> 2 <= header.value.size <= |stream| && header.value.length < TWO64
  {
    if |stream| < 2 then None
    else
      var (first, second) := (stream[0], stream[1]);
      var more := if second % 128 == 126 then 2 else if second % 128 == 127 then 8 else 0;
      if |stream| < 2 + more then None
      else
        ValueBound(stream[2..2 + more]);
        Powers();
        Some(Header(first, second, if more == 0 then second % 128 else Value(stream[2..2 + more]), 2 + more))
  }

  // Every length form is read back.
  lemma HeaderRoundTrip(first: byte, n: nat, maskBit: byte, rest: seq<byte>)
    requires n < TWO64 && (maskBit == 0 || maskBit == 128)
    ensures var bytes := LengthBytes(n, maskBit);
            && Decode([first] + bytes + rest) == Some(Header(first, bytes[0], n, 1 + |bytes|))
            && (bytes[0] >= 128 <==> maskBit == 128)
  {
    hide BigEndian, Value, Power256;
    var bytes := LengthBytes(n, maskBit);
    var stream := [first] + bytes + rest;
    assert stream[1] == bytes[0];
    Powers();
    if n >= 126 {
      var size := if n <= 0xffff then 2 else 8;
      assert stream[2..2 + size] == BigEndian(n, size);
      BigEndianValue(n, size);
    }
  }

  // The sum of a number of bytes, as the loops of read_message add it up.
  method ReadLength(bytes: seq<byte>) returns (length: nat)
    ensures length == Value(bytes)
  {
    length := 0;
    for c := 0 to |bytes|
      invariant length == Value(bytes[..c]) * Power256(|bytes| - c)
    {
      assert bytes[..c + 1][..c] == bytes[..c];
      Distribute(Value(bytes[..c]), bytes[c], Power256(|bytes| - c - 1));
      length := length + bytes[c] * Power256(|bytes| - 1 - c);
    }
    assert bytes[..|bytes|] == bytes;
  }

  lemma Distribute(v: nat, b: nat, p: nat)
    ensures v * (256 * p) + b * p == (v * 256 + b) * p
  {
  }
}
