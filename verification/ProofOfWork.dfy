// Leading zero bits of an event id (include/proof.h), and the mining of gnostr.c that looks for
// a nonce with enough of them (NIP-13).
module ProofOfWork {
  import opened Bytes

  // ---- Leading zero bits ----

  // The leading zero bits of a byte.
  function ZeroBits(b: byte): (n: nat)
    ensures n <= 8
  {
    if b >= 128 then 0 else if b >= 64 then 1 else if b >= 32 then 2 else if b >= 16 then 3
    else if b >= 8 then 4 else if b >= 4 then 5 else if b >= 2 then 6 else if b >= 1 then 7 else 8
  }

  function LeadingZeroBits(hash: seq<byte>): (n: nat)
    ensures n <= 8 * |hash|
  {
    if hash == [] then 0
    else if ZeroBits(hash[0]) == 8 then 8 + LeadingZeroBits(hash[1..])
    else ZeroBits(hash[0])
  }

  // zero_bits: shifts the byte down until nothing is left.
  method CountZeroBits(b: byte) returns (bits: nat)
    ensures bits == ZeroBits(b)
  {
    if b == 0 {
      return 8;
    }
    var n := 0;
    var rest: nat := b / 2;
    while rest != 0
      invariant 0 <= n <= 7 && ZeroBits(b) <= 7 - n
      invariant rest < 128 && ZeroBits(rest) == ZeroBits(b) + n + 1
    {
      assert ZeroBits(rest / 2) == ZeroBits(rest) + 1;
      rest := rest / 2;
      n := n + 1;
    }
    bits := 7 - n;
  }

  method CountLeadingZeroBits(hash: seq<byte>) returns (total: nat)
    ensures total == LeadingZeroBits(hash)
  {
    total := 0;
    var i := 0;
    while i < |hash|
      invariant i <= |hash| && total + LeadingZeroBits(hash[i..]) == LeadingZeroBits(hash)
    {
      var bits := CountZeroBits(hash[i]);
      total := total + bits;
      assert hash[i..][1..] == hash[i + 1..];
      if bits != 8 {
        return;
      }
      i := i + 1;
    }
  }

  // ---- What they bound ----

  lemma {:induction false} PowerAdd(a: nat, b: nat)
    ensures Power2(a + b) == Power2(a) * Power2(b)
    decreases a
  {
    if a > 0 {
      PowerAdd(a - 1, b);
      assert Power2(a) * Power2(b) == 2 * (Power2(a - 1) * Power2(b));
    }
  }

  lemma {:induction false} Power256Is(n: nat)
    ensures Power256(n) == Power2(8 * n)
  {
    if n > 0 {
      Power256Is(n - 1);
      PowerAdd(8, 8 * n - 8);
      ZeroBitsBound(0, 0);
    }
  }

  lemma {:induction false} ValueCons(b: byte, rest: seq<byte>)
    ensures Value([b] + rest) == b * Power256(|rest|) + Value(rest)
  {
    var whole := [b] + rest;
    if rest == [] {
      assert whole[..0] == [];
    } else {
      var init := rest[..|rest| - 1];
      ValueCons(b, init);
      assert whole[..|whole| - 1] == [b] + init;
      Rearranged(b, Power256(|init|), Value(init), rest[|rest| - 1]);
    }
  }

  lemma Rearranged(b: nat, p: nat, v: nat, c: nat)
    ensures (b * p + v) * 256 + c == b * (256 * p) + (v * 256 + c)
  {
  }

  lemma {:induction false} PowerGrows(a: nat, b: nat)
    requires a <= b
    ensures Power2(a) <= Power2(b)
    decreases b
  {
    if a < b {
      PowerGrows(a, b - 1);
    }
  }

  lemma ZeroBitsBound(b: byte, d: nat)
    requires d <= 8
    ensures ZeroBits(b) >= d <==> b < Power2(8 - d)
    ensures Power2(8) == 256
  {
    assert Power2(0) == 1 && Power2(1) == 2 && Power2(2) == 4;
    assert Power2(3) == 8 && Power2(4) == 16;
    assert Power2(5) == 32 && Power2(6) == 64;
    assert Power2(7) == 128 && Power2(8) == 256;
  }

  lemma {:induction false} ScaledOrder(a: nat, b: nat, p: nat)
    requires a <= b
    ensures a * p <= b * p
    decreases b
  {
    if a < b {
      ScaledOrder(a, b - 1, p);
      assert b * p == (b - 1) * p + p;
    }
  }

  lemma ScaledBound(b: nat, v: nat, p: nat, q: nat)
    requires v < p
    ensures b * p + v < q * p <==> b < q
  {
    if b < q {
      ScaledOrder(b + 1, q, p);
      assert (b + 1) * p == b * p + p;
    } else {
      ScaledOrder(q, b, p);
    }
  }

  // At least d leading zero bits are the same as a value below 2 to the power of the others.
  lemma {:induction false} LeadingZeroBitsBound(hash: seq<byte>, d: nat)
    requires d <= 8 * |hash|
    ensures LeadingZeroBits(hash) >= d <==> Value(hash) < Power2(8 * |hash| - d)
  {
    hide ZeroBits, Power2, Power256;
    if hash == [] {
      PowerOfZero();
    } else {
      var (b, rest) := (hash[0], hash[1..]);
      assert hash == [b] + rest;
      ValueCons(b, rest);
      if d <= 8 {
        LastBits(b, rest, d);
      } else {
        OtherBits(b, rest, d);
        if b == 0 {
          LeadingZeroBitsBound(rest, d - 8);
        }
      }
    }
  }

  lemma LastBits(b: byte, rest: seq<byte>, d: nat)
    requires d <= 8
    ensures b * Power256(|rest|) + Value(rest) < Power2(8 * (|rest| + 1) - d) <==> ZeroBits(b) >= d
  {
    hide ZeroBits, Power2, Power256, Value;
    ValueBound(rest);
    Power256Is(|rest|);
    ZeroBitsBound(b, d);
    PowerAdd(8 - d, 8 * |rest|);
    ScaledBound(b, Value(rest), Power2(8 * |rest|), Power2(8 - d));
  }

  lemma OtherBits(b: byte, rest: seq<byte>, d: nat)
    requires 8 < d <= 8 * (|rest| + 1)
    ensures ZeroBits(b) == 8 <==> b == 0
    ensures b != 0 ==> b * Power256(|rest|) + Value(rest) >= Power2(8 * (|rest| + 1) - d)
  {
    hide Power2, Power256, Value;
    Power256Is(|rest|);
    PowerGrows(8 * (|rest| + 1) - d, 8 * |rest|);
    if b != 0 {
      ScaledOrder(1, b, Power256(|rest|));
    }
  }

  lemma PowerOfZero()
    ensures Power2(0) == 1
  {
  }
}
