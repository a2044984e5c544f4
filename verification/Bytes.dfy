// Bytes as numbers, for the parts of the program that write text and count lengths.
module Bytes {

  type byte = x: int | 0 <= x < 256

  const TWO64 := 0x1_0000_0000_0000_0000

  type uint64 = x: int | 0 <= x < TWO64

  type int32 = x: int | -0x8000_0000 <= x < 0x8000_0000

  datatype Option<T> = None | Some(value: T)

  function Code(c: char): byte
    requires c < 128 as char
  {
    c as int
  }

  function Ascii(s: string): (bytes: seq<byte>)
    requires forall c | c in s :: c < 128 as char
    ensures |bytes| == |s|
  {
    seq(|s|, i requires 0 <= i < |s| => assert s[i] in s; Code(s[i]))
  }

  // The C string at the start of a buffer: what comes before its first zero.
  function CString(buffer: seq<byte>): (text: seq<byte>)
    ensures 0 !in text && |text| <= |buffer|
  {
    if buffer == [] || buffer[0] == 0 then [] else [buffer[0]] + CString(buffer[1..])
  }

  lemma {:induction false} CStringIs(text: seq<byte>, rest: seq<byte>)
    requires 0 !in text
    ensures CString(text + [0] + rest) == text
  {
    if text != [] {
      assert text[0] in text && forall c | c in text[1..] :: c in text;
      CStringIs(text[1..], rest);
      assert (text + [0] + rest)[1..] == text[1..] + [0] + rest;
    }
  }

  // ---- Binary numbers ----

  function Power2(k: nat): (p: nat)
    ensures p > 0
  {
    if k == 0 then 1 else 2 * Power2(k - 1)
  }

  // The number with these bytes, most significant byte first.
  function Value(bytes: seq<byte>): nat {
    if bytes == [] then 0 else Value(bytes[..|bytes| - 1]) * 256 + bytes[|bytes| - 1]
  }

  function Power256(k: nat): (p: nat)
    ensures p > 0
  {
    if k == 0 then 1 else 256 * Power256(k - 1)
  }

  lemma {:induction false} ValueBound(bytes: seq<byte>)
    ensures Value(bytes) < Power256(|bytes|)
  {
    if bytes != [] {
      ValueBound(bytes[..|bytes| - 1]);
    }
  }

  // ---- Decimal numbers ----

  // Decimal digits of a number, as snprintf writes them.
  function Digits(n: nat): (digits: seq<byte>)
    ensures digits != [] && forall i | 0 <= i < |digits| :: '0' as int <= digits[i] <= '9' as int
  {
    if n < 10 then [('0' as int) + n] else Digits(n / 10) + [('0' as int) + n % 10]
  }

  function Number(digits: seq<byte>): int {
    if digits == [] then 0 else Number(digits[..|digits| - 1]) * 10 + digits[|digits| - 1] - '0' as int
  }

  lemma {:induction false} DigitsNumber(n: nat)
    ensures Number(Digits(n)) == n
  {
    if n < 10 {
      assert Digits(n)[..0] == [];
    } else {
      DigitsNumber(n / 10);
      assert Digits(n)[..|Digits(n)| - 1] == Digits(n / 10);
    }
  }

  lemma DigitsInjective(m: nat, n: nat)
    requires Digits(m) == Digits(n)
    ensures m == n
  {
    DigitsNumber(m);
    DigitsNumber(n);
  }

  function Power10(k: nat): (p: nat)
    ensures p > 0
  {
    if k == 0 then 1 else 10 * Power10(k - 1)
  }

  lemma {:induction false} DigitsLength(n: nat, k: nat)
    requires k > 0
    ensures |Digits(n)| <= k <==> n < Power10(k)
    decreases n
  {
    if n < 10 {
      assert Power10(k) == 10 * Power10(k - 1) >= 10;
    } else if k == 1 {
      assert Power10(1) == 10;
    } else {
      DigitsLength(n / 10, k - 1);
    }
  }

  // ---- Bytes as bits ----

  datatype Nibble = Nibble(b3: bool, b2: bool, b1: bool, b0: bool)

  function NibbleNumber(n: Nibble): (x: int)
    ensures 0 <= x < 16
  {
    (if n.b3 then 8 else 0) + (if n.b2 then 4 else 0) + (if n.b1 then 2 else 0) + (if n.b0 then 1 else 0)
  }

  function NibbleOf(x: int): Nibble
    requires 0 <= x < 16
  {
    var y := if x >= 8 then x - 8 else x;
    var z := if y >= 4 then y - 4 else y;
    var w := if z >= 2 then z - 2 else z;
    Nibble(x >= 8, y >= 4, z >= 2, w >= 1)
  }

  function NibbleBits(n: Nibble): bv8 {
    (if n.b3 then 8 else 0) | (if n.b2 then 4 else 0) | (if n.b1 then 2 else 0) | (if n.b0 then 1 else 0)
  }

  function LowNibble(b: bv8): Nibble {
    Nibble(b & 8 != 0, b & 4 != 0, b & 2 != 0, b & 1 != 0)
  }

  // The byte with the bits of a bit-vector, and back.
  function AsByte(b: bv8): byte {
    16 * NibbleNumber(LowNibble(b >> 4)) + NibbleNumber(LowNibble(b))
  }

  function AsOctet(x: byte): bv8 {
    (NibbleBits(NibbleOf(x / 16)) << 4) | NibbleBits(NibbleOf(x % 16))
  }

  lemma NibbleOfNumber(x: int)
    requires 0 <= x < 16
    ensures NibbleNumber(NibbleOf(x)) == x
  {
  }

  lemma NumberOfNibble(n: Nibble)
    ensures NibbleOf(NibbleNumber(n)) == n
  {
  }

  lemma NibblesOfBits(m: Nibble, n: Nibble)
    ensures var b := (NibbleBits(m) << 4) | NibbleBits(n); LowNibble(b >> 4) == m && LowNibble(b) == n
  {
  }

  lemma BitsOfNibbles(b: bv8)
    ensures (NibbleBits(LowNibble(b >> 4)) << 4) | NibbleBits(LowNibble(b)) == b
  {
  }

  lemma ByteRoundTrip(x: byte)
    ensures AsByte(AsOctet(x)) == x
  {
    hide NibbleOf, NibbleNumber, NibbleBits, LowNibble;
    var (m, n) := (NibbleOf(x / 16), NibbleOf(x % 16));
    NibblesOfBits(m, n);
    NibbleOfNumber(x / 16);
    NibbleOfNumber(x % 16);
  }

  lemma OctetRoundTrip(b: bv8)
    ensures AsOctet(AsByte(b)) == b
  {
    hide NibbleOf, NibbleNumber, NibbleBits, LowNibble;
    var (m, n) := (LowNibble(b >> 4), LowNibble(b));
    BitsOfNibbles(b);
    NumberOfNibble(m);
    NumberOfNibble(n);
    assert AsByte(b) / 16 == NibbleNumber(m) && AsByte(b) % 16 == NibbleNumber(n);
  }

  // The same bytes for the parts of the program that work on their bits.
  function AsBits(s: seq<byte>): (b: seq<bv8>)
    ensures |b| == |s|
  {
    seq(|s|, i requires 0 <= i < |s| => AsOctet(s[i]))
  }

  function AsBytes(b: seq<bv8>): (s: seq<byte>)
    ensures |s| == |b|
  {
    seq(|b|, i requires 0 <= i < |b| => AsByte(b[i]))
  }

  lemma BytesRoundTrip(s: seq<byte>)
    ensures AsBytes(AsBits(s)) == s
  {
    hide AsByte, AsOctet;
    forall i | 0 <= i < |s|
      ensures AsBytes(AsBits(s))[i] == s[i]
    {
      ByteRoundTrip(s[i]);
    }
  }

  lemma BitsRoundTrip(b: seq<bv8>)
    ensures AsBits(AsBytes(b)) == b
  {
    hide AsByte, AsOctet;
    forall i | 0 <= i < |b|
      ensures AsBits(AsBytes(b))[i] == b[i]
    {
      OctetRoundTrip(b[i]);
    }
  }

  // The conversion is that of the language.
  lemma AsByteIs(b: bv8)
    ensures AsByte(b) == b as int
  {
  }

  // The bits of a byte, by number and by mask.
  lemma ByteBits(x: byte)
    ensures var b := x as bv8;
            && (b & 0x80 != 0 <==> x / 0x80 % 2 == 1) && (b & 0x40 != 0 <==> x / 0x40 % 2 == 1)
            && (b & 0x20 != 0 <==> x / 0x20 % 2 == 1) && (b & 0x10 != 0 <==> x / 0x10 % 2 == 1)
            && (b & 0x8 != 0 <==> x / 0x8 % 2 == 1) && (b & 0x4 != 0 <==> x / 0x4 % 2 == 1)
            && (b & 0x2 != 0 <==> x / 0x2 % 2 == 1) && (b & 0x1 != 0 <==> x % 2 == 1)
  {
  }

  lemma {:induction false} ValueDetermines(s: seq<byte>, t: seq<byte>)
    requires |s| == |t| && Value(s) == Value(t)
    ensures s == t
  {
    if s != [] {
      var (p, q) := (s[..|s| - 1], t[..|t| - 1]);
      ValueDetermines(p, q);
      assert s == p + [s[|s| - 1]] && t == q + [t[|t| - 1]];
    }
  }

  lemma SameBits(s: seq<bv8>, t: seq<bv8>)
    requires |s| == |t| && AsBytes(s) == AsBytes(t)
    ensures s == t
  {
    hide AsByte, AsOctet;
    forall i | 0 <= i < |s|
      ensures s[i] == t[i]
    {
      assert AsBytes(s)[i] == AsBytes(t)[i];
      OctetRoundTrip(s[i]);
      OctetRoundTrip(t[i]);
    }
  }
}
