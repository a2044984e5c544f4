// Hexadecimal text, as in include/hex.h.
module Hex {
  import opened Bytes

  function HexChar(v: nat): byte
    requires v < 16
  {
    if v < 10 then '0' as int + v else 'a' as int + v - 10
  }

  function CharToHex(c: byte): (v: Option<nat>)
    ensures v.Some? ==> v.value < 16
  {
    if '0' as int <= c <= '9' as int then Some(c - '0' as int)
    else if 'a' as int <= c <= 'f' as int then Some(c - 'a' as int + 10)
    else if 'A' as int <= c <= 'F' as int then Some(c - 'A' as int + 10)
    else None
  }

  function HexByte(b: byte): (text: seq<byte>)
    ensures |text| == 2
  {
    [HexChar(b / 16), HexChar(b % 16)]
  }

  function Encode(bytes: seq<byte>): (text: seq<byte>)
    ensures |text| == 2 * |bytes|
  {
    if bytes == [] then [] else Encode(bytes[..|bytes| - 1]) + HexByte(bytes[|bytes| - 1])
  }

  predicate IsHex(text: seq<byte>) {
    |text| % 2 == 0 && forall i | 0 <= i < |text| :: CharToHex(text[i]).Some?
  }

  function Decode(text: seq<byte>): (bytes: seq<byte>)
    requires IsHex(text)
    ensures 2 * |bytes| == |text|
  {
    if text == [] then []
    else
      var n := |text| - 2;
      assert CharToHex(text[n]).Some? && CharToHex(text[n + 1]).Some?;
      Decode(text[..n]) + [CharToHex(text[n]).value * 16 + CharToHex(text[n + 1]).value]
  }

  // Capital letters made small.
  function Lower(c: byte): byte {
    if 'A' as int <= c <= 'F' as int then c + 32 else c
  }

  lemma CharRoundTrip(v: nat)
    requires v < 16
    ensures CharToHex(HexChar(v)) == Some(v)
  {
  }

  lemma CharRoundTripBack(c: byte)
    requires CharToHex(c).Some?
    ensures HexChar(CharToHex(c).value) == Lower(c)
  {
  }

  lemma NothingIsHex()
    ensures IsHex([]) && Decode([]) == [] && Encode([]) == []
  {
  }

  lemma HexSnoc(text: seq<byte>, c: byte, d: byte)
    requires IsHex(text) && CharToHex(c).Some? && CharToHex(d).Some?
    ensures IsHex(text + [c, d])
  {
    hide CharToHex;
  }

  lemma DecodeSnoc(text: seq<byte>, c: byte, d: byte)
    requires IsHex(text) && CharToHex(c).Some? && CharToHex(d).Some?
    ensures IsHex(text + [c, d])
    ensures Decode(text + [c, d]) == Decode(text) + [CharToHex(c).value * 16 + CharToHex(d).value]
  {
    hide CharToHex, IsHex;
    HexSnoc(text, c, d);
    assert (text + [c, d])[..|text|] == text;
  }

  lemma EncodeNothing()
    ensures Encode([]) == []
  {
  }

  lemma EncodeSnoc(bytes: seq<byte>, b: byte)
    ensures Encode(bytes + [b]) == Encode(bytes) + HexByte(b)
  {
    assert (bytes + [b])[..|bytes|] == bytes;
  }

  // The two digits of each byte are those of its halves: 0 to 9, and small a to f.
  lemma {:induction false} DigitsAre(bytes: seq<byte>, i: nat)
    requires i < |bytes|
    ensures var (high, low) := (bytes[i] / 16, bytes[i] % 16);
            && Encode(bytes)[2 * i] == (if high < 10 then 48 + high else 87 + high)
            && Encode(bytes)[2 * i + 1] == (if low < 10 then 48 + low else 87 + low)
  {
    var (init, last) := (bytes[..|bytes| - 1], bytes[|bytes| - 1]);
    if i < |init| {
      DigitsAre(init, i);
    }
  }

  // What counts as a digit.
  lemma IsDigitIff(c: byte)
    ensures CharToHex(c).Some? <==> 48 <= c <= 57 || 97 <= c <= 102 || 65 <= c <= 70
  {
  }

  lemma {:induction false} RoundTrip(bytes: seq<byte>)
    ensures IsHex(Encode(bytes)) && Decode(Encode(bytes)) == bytes
  {
    hide HexChar, CharToHex, Encode, Decode, IsHex;
    if bytes == [] {
      NothingIsHex();
    } else {
      var (init, last) := (bytes[..|bytes| - 1], bytes[|bytes| - 1]);
      RoundTrip(init);
      CharRoundTrip(last / 16);
      CharRoundTrip(last % 16);
      assert bytes == init + [last];
      EncodeSnoc(init, last);
      DecodeSnoc(Encode(init), HexChar(last / 16), HexChar(last % 16));
    }
  }

  // The text is a C string: no byte of it is zero.
  lemma {:induction false} HasNoZero(bytes: seq<byte>)
    ensures 0 !in Encode(bytes)
  {
    if bytes != [] {
      HasNoZero(bytes[..|bytes| - 1]);
    }
  }

  function Lowered(text: seq<byte>): (lowered: seq<byte>)
    ensures |lowered| == |text|
  {
    seq(|text|, i requires 0 <= i < |text| => Lower(text[i]))
  }

  lemma ByteRoundTripBack(c: byte, d: byte)
    requires CharToHex(c).Some? && CharToHex(d).Some?
    ensures HexByte(CharToHex(c).value * 16 + CharToHex(d).value) == [Lower(c), Lower(d)]
  {
    hide HexChar, CharToHex, Lower;
    CharRoundTripBack(c);
    CharRoundTripBack(d);
  }

  // The other way round: decoding and encoding again only makes the letters small.
  lemma {:induction false} RoundTripBack(text: seq<byte>)
    requires IsHex(text)
    ensures Encode(Decode(text)) == Lowered(text)
  {
    hide HexChar, CharToHex, Lower, HexByte, IsHex, Encode, Decode, Lowered;
    if text == [] {
      assert Encode(Decode(text)) == Lowered(text) by {
        EmptyRoundTripBack();
      }
    } else {
      var n := |text| - 2;
      DecodeLast(text);
      LoweredLast(text);
      ByteRoundTripBack(text[n], text[n + 1]);
      RoundTripBack(text[..n]);
      EncodeSnoc(Decode(text[..n]), CharToHex(text[n]).value * 16 + CharToHex(text[n + 1]).value);
    }
  }

  lemma EmptyRoundTripBack()
    ensures Encode(Decode([])) == Lowered([])
  {
  }

  lemma DecodeLast(text: seq<byte>)
    requires IsHex(text) && text != []
    ensures var n := |text| - 2;
            && n >= 0 && IsHex(text[..n]) && CharToHex(text[n]).Some? && CharToHex(text[n + 1]).Some?
            && Decode(text) == Decode(text[..n]) + [CharToHex(text[n]).value * 16 + CharToHex(text[n + 1]).value]
  {
    hide CharToHex, Lower;
  }

  lemma LoweredLast(text: seq<byte>)
    requires |text| >= 2
    ensures var n := |text| - 2; Lowered(text) == Lowered(text[..n]) + [Lower(text[n]), Lower(text[n + 1])]
  {
    hide Lower;
  }

  // hex_encode, from the given place of dest on: needs room for a final zero byte.
  method HexEncode(buf: seq<byte>, dest: array<byte>, at: nat) returns (ok: bool)
    requires at <= dest.Length
    modifies dest
    ensures ok == (2 * |buf| + 1 <= dest.Length - at)
    ensures if ok then dest[..at + 2 * |buf| + 1] == old(dest[..at]) + Encode(buf) + [0]
            else dest[..] == old(dest[..])
  {
    hide HexChar, HexByte, Encode;
    if dest.Length - at < 2 * |buf| + 1 {
      return false;
    }
    EncodeNothing();
    ghost var front := dest[..at];
    var n := at;
    for i := 0 to |buf|
      invariant n == at + 2 * i && dest[..n] == front + Encode(buf[..i])
    {
      EncodeSnoc(buf[..i], buf[i]);
      assert buf[..i + 1] == buf[..i] + [buf[i]];
      PutByte(dest, n, buf[i]);
      n := n + 2;
    }
    assert buf[..|buf|] == buf;
    dest[n] := 0;
    assert dest[..n + 1] == dest[..n] + [0];
    ok := true;
  }

  // The two digits of a byte.
  method PutByte(dest: array<byte>, n: nat, b: byte)
    requires n + 2 <= dest.Length
    modifies dest
    ensures dest[..n + 2] == old(dest[..n]) + HexByte(b)
  {
    hide HexChar;
    dest[n] := HexChar(b / 16);
    dest[n + 1] := HexChar(b % 16);
    assert dest[..n] == old(dest[..n]);
  }

  lemma NotHex(text: seq<byte>, i: nat)
    requires i < |text| && CharToHex(text[i]) == None
    ensures !IsHex(text)
  {
  }

  lemma HexIsEven(text: seq<byte>)
    ensures IsHex(text) ==> |text| % 2 == 0
  {
  }

  // hex_decode: the text has to fill the buffer.
  method HexDecode(text: seq<byte>, buf: array<byte>) returns (ok: bool)
    modifies buf
    ensures ok == (IsHex(text) && |text| == 2 * buf.Length)
    ensures ok ==> buf[..] == Decode(text)
  {
    hide CharToHex, IsHex, Decode;
    NothingIsHex();
    var i := 0;
    assert text[..0] == [] && buf[..0] == [];
    while |text| - 2 * i > 1
      invariant 0 <= i <= buf.Length && 2 * i <= |text|
      invariant IsHex(text[..2 * i]) && buf[..i] == Decode(text[..2 * i])
    {
      var (v1, v2) := (CharToHex(text[2 * i]), CharToHex(text[2 * i + 1]));
      if v1 == None || v2 == None {
        NotHex(text, if v1 == None then 2 * i else 2 * i + 1);
        return false;
      }
      if i == buf.Length {
        return false;
      }
      DecodeSnoc(text[..2 * i], text[2 * i], text[2 * i + 1]);
      assert text[..2 * (i + 1)] == text[..2 * i] + [text[2 * i], text[2 * i + 1]];
      buf[i] := v1.value * 16 + v2.value;
      assert buf[..i + 1] == buf[..i] + [v1.value * 16 + v2.value];
      i := i + 1;
    }
    HexIsEven(text);
    if 2 * i == |text| {
      assert text[..2 * i] == text;
    }
    ok := 2 * i == |text| && i == buf.Length;
  }
}
