// Numerals in a base from 2 to 36, as my_to_base of gnostr.c writes them from right to left.
module ToBase {
  import opened Bytes

  // Room for 32 digits and a final zero.
  const SIZE := 33

  function Digit(d: nat): byte
    requires d < 36
  {
    if d < 10 then '0' as int + d else 'A' as int + d - 10
  }

  function DigitValue(c: byte): int {
    if c <= '9' as int then c - '0' as int else c - 'A' as int + 10
  }

  function Numeral(n: nat, base: nat): (text: seq<byte>)
    requires 2 <= base <= 36
    ensures text != []
  {
    if n < base then [Digit(n)] else Numeral(n / base, base) + [Digit(n % base)]
  }

  // What a numeral stands for.
  function NumeralValue(text: seq<byte>, base: nat): int {
    if text == [] then 0 else NumeralValue(text[..|text| - 1], base) * base + DigitValue(text[|text| - 1])
  }

  lemma DigitRoundTrip(d: nat)
    requires d < 36
    ensures DigitValue(Digit(d)) == d && (d > 0 ==> Digit(d) != '0' as int)
  {
  }

  lemma Divides(n: nat, base: nat)
    requires base >= 2
    ensures n == n / base * base + n % base && 0 <= n / base && (n >= base ==> n / base > 0)
  {
  }

  lemma {:induction false} NumeralStandsFor(n: nat, base: nat)
    requires 2 <= base <= 36
    ensures NumeralValue(Numeral(n, base), base) == n
    ensures n > 0 ==> Numeral(n, base)[0] != '0' as int
  {
    hide Digit, DigitValue, NumeralValue, Numeral;
    NumeralUnfolds(n, base);
    if n < base {
      DigitRoundTrip(n);
      OneDigit(Digit(n), base);
    } else {
      NumeralStandsFor(n / base, base);
      DigitRoundTrip(n % base);
      NumeralSnoc(Numeral(n / base, base), n / base, Digit(n % base), base);
    }
  }

  lemma NumeralUnfolds(n: nat, base: nat)
    requires 2 <= base <= 36
    ensures n < base ==> Numeral(n, base) == [Digit(n)]
    ensures n >= base ==>
              && 0 < n / base < n && n == n / base * base + n % base
              && Numeral(n, base) == Numeral(n / base, base) + [Digit(n % base)]
  {
    hide Digit;
    Divides(n, base);
    Halves(n, base);
  }

  // The digits by code: 0 to 9, then capital letters.
  lemma DigitIs(d: nat)
    requires d < 36
    ensures Digit(d) == if d < 10 then 48 + d else 55 + d
  {
  }

  lemma OneDigit(c: byte, base: nat)
    ensures NumeralValue([c], base) == DigitValue(c)
  {
    assert [c][..0] == [];
  }

  lemma NumeralSnoc(text: seq<byte>, v: int, c: byte, base: nat)
    requires NumeralValue(text, base) == v
    ensures NumeralValue(text + [c], base) == v * base + DigitValue(c)
  {
    assert (text + [c])[..|text|] == text;
  }

  lemma {:induction false} NumeralLength(n: nat, base: nat, k: nat)
    requires 2 <= base <= 36 && k > 0 && n < Power2(k)
    ensures |Numeral(n, base)| <= k
    decreases k
  {
    if n >= base {
      assert k > 1 by {
        assert Power2(1) == 2 * Power2(0) == 2;
      }
      Halves(n, base);
      NumeralLength(n / base, base, k - 1);
    }
  }

  lemma Twice(q: nat, more: nat)
    ensures q * (2 + more) >= q * 2
  {
    assert q * (2 + more) == q * 2 + q * more;
  }

  lemma Halves(n: nat, base: nat)
    requires base >= 2
    ensures 0 <= n / base <= n / 2
  {
    var q := n / base;
    assert n == q * base + n % base;
    Twice(q, base - 2);
  }

  lemma NumeralTurns(i: nat, base: nat, done: seq<byte>)
    requires 2 <= base <= 36
    ensures 0 <= i / base && (i > 0 ==> i / base < i)
    ensures Numeral(i, base) + done ==
            (if i / base == 0 then [] else Numeral(i / base, base)) + ([Digit(i % base)] + done)
  {
    hide Digit, Numeral;
    NumeralUnfolds(i, base);
    if i >= base {
      assert Numeral(i / base, base) + [Digit(i % base)] + done == Numeral(i / base, base) + ([Digit(i % base)] + done);
    } else {
      SmallDivides(i, base);
    }
  }

  lemma SmallDivides(i: nat, base: nat)
    requires i < base
    ensures i / base == 0 && i % base == i
  {
  }

  lemma PowerOf32()
    ensures Power2(32) == 0x1_0000_0000
  {
    assert Power2(4) == 16;
    assert Power2(8) == 256;
    assert Power2(12) == 4096;
    assert Power2(16) == 0x1_0000;
    assert Power2(20) == 0x10_0000;
    assert Power2(24) == 0x100_0000;
    assert Power2(28) == 0x1000_0000;
  }

  // The place in the buffer where the numeral starts. For 32-bit numbers it never gets below 0.
  method MyToBase(buf: array<byte>, number: nat, base: nat) returns (s: nat)
    requires buf.Length == SIZE && 2 <= base <= 36 && number < 0x1_0000_0000
    modifies buf
    ensures s < 32 && buf[s..32] == Numeral(number, base) && buf[32] == 0
    ensures buf[..s] == old(buf[..s])
  {
    hide Digit, Power2, Numeral;
    PowerOf32();
    NumeralLength(number, base, 32);
    buf[32] := 0;
    s := 32;
    var i: nat := number;
    ghost var done := [];
    while true
      invariant s <= 32 && buf[32] == 0 && buf[s..32] == done && buf[..s] == old(buf[..s])
      invariant Numeral(number, base) == Numeral(i, base) + done
      decreases i
    {
      NumeralTurns(i, base, done);
      s := s - 1;
      buf[s] := Digit(i % base);
      done := [Digit(i % base)] + done;
      i := i / base;
      if i == 0 {
        break;
      }
    }
  }
}
