// What ties the hash to FIPS 180-4: the logical functions bit by bit, the constants as roots of
// primes, and the example of a message of three letters.
module Sha256Standard {
  import opened Bytes
  import opened Sha256Transform
  import opened Sha256

  // ---- Bits of words ----

  function Mask(i: nat): bv32
    requires i < 32
  {
    if i == 0 then 1 else Mask(i - 1) << 1
  }

  function And(p: bv32, q: bv32): bv32 {
    p & q
  }

  predicate Has(p: bv32, mask: bv32) {
    And(p, mask) != 0
  }

  // Bit number i, the lowest one first.
  predicate At(p: bv32, i: nat)
    requires i < 32
  {
    Has(p, Mask(i))
  }

  lemma Masks()
    ensures Mask(0) == 0x1 && Mask(1) == 0x2 && Mask(2) == 0x4 && Mask(3) == 0x8
    ensures Mask(4) == 0x10 && Mask(5) == 0x20 && Mask(6) == 0x40 && Mask(7) == 0x80
    ensures Mask(8) == 0x100 && Mask(9) == 0x200 && Mask(10) == 0x400 && Mask(11) == 0x800
    ensures Mask(12) == 0x1000 && Mask(13) == 0x2000 && Mask(14) == 0x4000 && Mask(15) == 0x8000
    ensures Mask(16) == 0x10000 && Mask(17) == 0x20000 && Mask(18) == 0x40000 && Mask(19) == 0x80000
    ensures Mask(20) == 0x100000 && Mask(21) == 0x200000 && Mask(22) == 0x400000 && Mask(23) == 0x800000
    ensures Mask(24) == 0x1000000 && Mask(25) == 0x2000000 && Mask(26) == 0x4000000 && Mask(27) == 0x8000000
    ensures Mask(28) == 0x10000000 && Mask(29) == 0x20000000 && Mask(30) == 0x40000000 && Mask(31) == 0x80000000
  {
  }

  // A word turned right by so many places, one at a time.
  function Turned(p: bv32, n: nat): bv32 {
    if n == 0 then p else Turn(Turned(p, n - 1))
  }

  function Turn(p: bv32): bv32 {
    (p >> 1) | (p << 31)
  }

  function TurnBack(p: bv32): bv32 {
    (p << 1) | (p >> 31)
  }

  // A word shifted right.
  function Shifted(p: bv32, n: nat): bv32 {
    if n == 0 then p else Halved(Shifted(p, n - 1))
  }

  function Halved(p: bv32): bv32 {
    p >> 1
  }

  lemma TurnHas(p: bv32, mask: bv32)
    ensures Has(Turn(p), mask) == Has(p, TurnBack(mask))
  {
  }

  lemma HalvedHas(p: bv32, mask: bv32)
    ensures !Has(mask, 0x8000_0000) ==> Has(Halved(p), mask) == Has(p, TurnBack(mask))
    ensures !Has(Halved(p), 0x8000_0000)
  {
  }

  // One bit.
  predicate Single(mask: bv32) {
    mask & (mask - 1) == 0
  }

  lemma MaskTurns(i: nat)
    requires i < 32
    ensures TurnBack(Mask(i)) == Mask(if i < 31 then i + 1 else 0) && Single(Mask(i)) && Mask(i) != 0
    ensures if i < 31 then !Has(Mask(i), 0x8000_0000) else Mask(i) == 0x8000_0000
  {
    hide Mask;
    Masks();
    if i == 0 { } else if i == 1 { } else if i == 2 { } else if i == 3 { } else if i == 4 { }
    else if i == 5 { } else if i == 6 { } else if i == 7 { } else if i == 8 { } else if i == 9 { }
    else if i == 10 { } else if i == 11 { } else if i == 12 { } else if i == 13 { } else if i == 14 { }
    else if i == 15 { } else if i == 16 { } else if i == 17 { } else if i == 18 { } else if i == 19 { }
    else if i == 20 { } else if i == 21 { } else if i == 22 { } else if i == 23 { } else if i == 24 { }
    else if i == 25 { } else if i == 26 { } else if i == 27 { } else if i == 28 { } else if i == 29 { }
    else if i == 30 { }
  }

  lemma Around(i: nat, n: nat)
    requires i < 32
    ensures ((if i < 31 then i + 1 else 0) + n) % 32 == (i + n + 1) % 32
  {
  }

  // Bit i comes from n places further up.
  lemma {:induction false} TurnedAt(p: bv32, n: nat, i: nat)
    requires i < 32
    ensures At(Turned(p, n), i) == At(p, (i + n) % 32)
  {
    hide Turn, TurnBack, Mask, Has;
    if n > 0 {
      TurnHas(Turned(p, n - 1), Mask(i));
      MaskTurns(i);
      TurnedAt(p, n - 1, if i < 31 then i + 1 else 0);
      Around(i, n - 1);
    }
  }

  lemma {:induction false} ShiftedAt(p: bv32, n: nat, i: nat)
    requires i < 32
    ensures At(Shifted(p, n), i) == (i + n < 32 && At(p, i + n))
  {
    hide Halved, TurnBack, Mask, Has, Single;
    if n > 0 {
      HalvedHas(Shifted(p, n - 1), Mask(i));
      MaskTurns(i);
      if i < 31 {
        ShiftedAt(p, n - 1, i + 1);
      }
    }
  }

  lemma SingleHas(p: bv32, mask: bv32)
    requires Single(mask)
    ensures And(p, mask) == if Has(p, mask) then mask else 0
  {
  }

  lemma XorBits(p: bv32, q: bv32, r: bv32, mask: bv32)
    ensures (p ^ q ^ r) & mask == (p & mask) ^ (q & mask) ^ (r & mask)
    ensures mask ^ mask == 0 && mask ^ 0 == mask && 0 ^ mask == mask && (0 as bv32) ^ 0 == 0
  {
  }

  lemma XorHas(p: bv32, q: bv32, r: bv32, mask: bv32)
    requires Single(mask) && mask != 0
    ensures Has(Xor(p, q, r), mask) == ((Has(p, mask) != Has(q, mask)) != Has(r, mask))
  {
    XorBits(p, q, r, mask);
    SingleHas(p, mask);
    SingleHas(q, mask);
    SingleHas(r, mask);
  }

  lemma ChoiceBits(p: bv32, q: bv32, r: bv32, mask: bv32)
    ensures p & mask == mask ==> (r ^ (p & (q ^ r))) & mask == q & mask
    ensures p & mask == 0 ==> (r ^ (p & (q ^ r))) & mask == r & mask
  {
  }

  lemma MajorityBits(p: bv32, q: bv32, r: bv32, mask: bv32)
    ensures p & mask == q & mask ==> ((p & q) | (r & (p | q))) & mask == p & mask
    ensures p & mask == mask && q & mask == 0 ==> ((p & q) | (r & (p | q))) & mask == r & mask
    ensures p & mask == 0 && q & mask == mask ==> ((p & q) | (r & (p | q))) & mask == r & mask
  {
  }

  lemma ChoiceMasked(p: bv32, q: bv32, r: bv32, mask: bv32)
    ensures And(p, mask) == mask ==> And(Choice(p, q, r), mask) == And(q, mask)
    ensures And(p, mask) == 0 ==> And(Choice(p, q, r), mask) == And(r, mask)
  {
    ChoiceBits(p, q, r, mask);
  }

  lemma ChoiceHas(p: bv32, q: bv32, r: bv32, mask: bv32)
    requires Single(mask)
    ensures Has(Choice(p, q, r), mask) == if Has(p, mask) then Has(q, mask) else Has(r, mask)
  {
    hide Choice, Single, And;
    SingleHas(p, mask);
    ChoiceMasked(p, q, r, mask);
  }

  lemma MajorityMasked(p: bv32, q: bv32, r: bv32, mask: bv32)
    ensures And(p, mask) == And(q, mask) ==> And(Majority(p, q, r), mask) == And(p, mask)
    ensures And(p, mask) == mask && And(q, mask) == 0 ==> And(Majority(p, q, r), mask) == And(r, mask)
    ensures And(p, mask) == 0 && And(q, mask) == mask ==> And(Majority(p, q, r), mask) == And(r, mask)
  {
    MajorityBits(p, q, r, mask);
  }

  lemma MajorityHas(p: bv32, q: bv32, r: bv32, mask: bv32)
    requires Single(mask)
    ensures Has(Majority(p, q, r), mask) ==
            if Has(p, mask) == Has(q, mask) then Has(p, mask) else Has(r, mask)
  {
    hide Majority, Single, And;
    SingleHas(p, mask);
    SingleHas(q, mask);
    MajorityMasked(p, q, r, mask);
  }

  // The places by which the functions turn a word.
  lemma TurnsLow(p: bv32)
    ensures Turned(p, 2) == (p >> 2) | (p << 30)
    ensures Turned(p, 6) == (p >> 6) | (p << 26)
    ensures Turned(p, 7) == (p >> 7) | (p << 25)
    ensures Turned(p, 11) == (p >> 11) | (p << 21)
    ensures Turned(p, 13) == (p >> 13) | (p << 19)
  {
    assert Turned(p, 1) == (p >> 1) | (p << 31);
    assert Turned(p, 2) == (p >> 2) | (p << 30);
    assert Turned(p, 3) == (p >> 3) | (p << 29);
    assert Turned(p, 4) == (p >> 4) | (p << 28);
    assert Turned(p, 5) == (p >> 5) | (p << 27);
    assert Turned(p, 6) == (p >> 6) | (p << 26);
    assert Turned(p, 7) == (p >> 7) | (p << 25);
    assert Turned(p, 8) == (p >> 8) | (p << 24);
    assert Turned(p, 9) == (p >> 9) | (p << 23);
    assert Turned(p, 10) == (p >> 10) | (p << 22);
    assert Turned(p, 11) == (p >> 11) | (p << 21);
    assert Turned(p, 12) == (p >> 12) | (p << 20);
    assert Turned(p, 13) == (p >> 13) | (p << 19);
  }

  lemma TurnsHigh(p: bv32)
    ensures Turned(p, 17) == (p >> 17) | (p << 15)
    ensures Turned(p, 18) == (p >> 18) | (p << 14)
    ensures Turned(p, 19) == (p >> 19) | (p << 13)
    ensures Turned(p, 22) == (p >> 22) | (p << 10)
    ensures Turned(p, 25) == (p >> 25) | (p << 7)
  {
    TurnsLow(p);
    assert Turned(p, 14) == (p >> 14) | (p << 18);
    assert Turned(p, 15) == (p >> 15) | (p << 17);
    assert Turned(p, 16) == (p >> 16) | (p << 16);
    assert Turned(p, 17) == (p >> 17) | (p << 15);
    assert Turned(p, 18) == (p >> 18) | (p << 14);
    assert Turned(p, 19) == (p >> 19) | (p << 13);
    assert Turned(p, 20) == (p >> 20) | (p << 12);
    assert Turned(p, 21) == (p >> 21) | (p << 11);
    assert Turned(p, 22) == (p >> 22) | (p << 10);
    assert Turned(p, 23) == (p >> 23) | (p << 9);
    assert Turned(p, 24) == (p >> 24) | (p << 8);
    assert Turned(p, 25) == (p >> 25) | (p << 7);
  }

  lemma Shifts(p: bv32)
    ensures Shifted(p, 3) == p >> 3 && Shifted(p, 10) == p >> 10
  {
    assert Shifted(p, 1) == p >> 1;
    assert Shifted(p, 2) == p >> 2;
    assert Shifted(p, 3) == p >> 3;
    assert Shifted(p, 4) == p >> 4;
    assert Shifted(p, 5) == p >> 5;
    assert Shifted(p, 6) == p >> 6;
    assert Shifted(p, 7) == p >> 7;
    assert Shifted(p, 8) == p >> 8;
    assert Shifted(p, 9) == p >> 9;
  }

  lemma Back(x: u32, p: bv32)
    requires x == p as u32
    ensures x as bv32 == p
  {
  }

  // The functions by turns and shifts.
  lemma Sigma0Turns(p: bv32)
    ensures Sigma0(p) == Xor(Turned(p, 2), Turned(p, 13), Turned(p, 22))
  {
    hide Turned, Shifted, Xor;
    TurnsLow(p);
    TurnsHigh(p);
  }

  lemma Sigma1Turns(p: bv32)
    ensures Sigma1(p) == Xor(Turned(p, 6), Turned(p, 11), Turned(p, 25))
  {
    hide Turned, Shifted, Xor;
    TurnsLow(p);
    TurnsHigh(p);
  }

  lemma LittleSigma0Turns(p: bv32)
    ensures LittleSigma0(p) == Xor(Turned(p, 7), Turned(p, 18), Shifted(p, 3))
  {
    hide Turned, Shifted, Xor;
    TurnsLow(p);
    TurnsHigh(p);
    Shifts(p);
  }

  lemma LittleSigma1Turns(p: bv32)
    ensures LittleSigma1(p) == Xor(Turned(p, 17), Turned(p, 19), Shifted(p, 10))
  {
    hide Turned, Shifted, Xor;
    TurnsLow(p);
    TurnsHigh(p);
    Shifts(p);
  }

  // ---- The logical functions ----

  // Section 4.1.2 of FIPS 180-4. Ch chooses by the bits of x.
  lemma ChIsFips(x: u32, y: u32, z: u32, i: nat)
    requires i < 32
    ensures At(Ch(x, y, z) as bv32, i) == if At(x as bv32, i) then At(y as bv32, i) else At(z as bv32, i)
  {
    hide Has, Mask, Single, Choice;
    Back(Ch(x, y, z), Choice(x as bv32, y as bv32, z as bv32));
    MaskTurns(i);
    ChoiceHas(x as bv32, y as bv32, z as bv32, Mask(i));
  }

  // Maj is the majority of the three bits.
  lemma MajIsFips(x: u32, y: u32, z: u32, i: nat)
    requires i < 32
    ensures At(Maj(x, y, z) as bv32, i) ==
            if At(x as bv32, i) == At(y as bv32, i) then At(x as bv32, i) else At(z as bv32, i)
  {
    hide Has, Mask, Single, Majority;
    Back(Maj(x, y, z), Majority(x as bv32, y as bv32, z as bv32));
    MaskTurns(i);
    MajorityHas(x as bv32, y as bv32, z as bv32, Mask(i));
  }

  lemma XorAt(p: bv32, q: bv32, r: bv32, i: nat)
    requires i < 32
    ensures At(Xor(p, q, r), i) == ((At(p, i) != At(q, i)) != At(r, i))
  {
    hide Has, Mask, Single, Xor;
    MaskTurns(i);
    XorHas(p, q, r, Mask(i));
  }

  // The other four add bits of the word that stand so many places further up.
  lemma BigSigma0IsFips(x: u32, i: nat)
    requires i < 32
    ensures var p := x as bv32;
            At(BigSigma0(x) as bv32, i) ==
            ((At(p, (i + 2) % 32) != At(p, (i + 13) % 32)) != At(p, (i + 22) % 32))
  {
    hide At, Xor, Turned, Shifted, Sigma0;
    var p := x as bv32;
    Sigma0Turns(p);
    Back(BigSigma0(x), Sigma0(p));
    XorAt(Turned(p, 2), Turned(p, 13), Turned(p, 22), i);
    TurnedAt(p, 2, i);
    TurnedAt(p, 13, i);
    TurnedAt(p, 22, i);
  }

  lemma BigSigma1IsFips(x: u32, i: nat)
    requires i < 32
    ensures var p := x as bv32;
            At(BigSigma1(x) as bv32, i) ==
            ((At(p, (i + 6) % 32) != At(p, (i + 11) % 32)) != At(p, (i + 25) % 32))
  {
    hide At, Xor, Turned, Shifted, Sigma1;
    var p := x as bv32;
    Sigma1Turns(p);
    Back(BigSigma1(x), Sigma1(p));
    XorAt(Turned(p, 6), Turned(p, 11), Turned(p, 25), i);
    TurnedAt(p, 6, i);
    TurnedAt(p, 11, i);
    TurnedAt(p, 25, i);
  }

  lemma SmallSigma0IsFips(x: u32, i: nat)
    requires i < 32
    ensures var p := x as bv32;
            At(SmallSigma0(x) as bv32, i) ==
            ((At(p, (i + 7) % 32) != At(p, (i + 18) % 32)) != (i + 3 < 32 && At(p, i + 3)))
  {
    hide At, Xor, Turned, Shifted, LittleSigma0;
    var p := x as bv32;
    LittleSigma0Turns(p);
    Back(SmallSigma0(x), LittleSigma0(p));
    XorAt(Turned(p, 7), Turned(p, 18), Shifted(p, 3), i);
    TurnedAt(p, 7, i);
    TurnedAt(p, 18, i);
    ShiftedAt(p, 3, i);
  }

  lemma SmallSigma1IsFips(x: u32, i: nat)
    requires i < 32
    ensures var p := x as bv32;
            At(SmallSigma1(x) as bv32, i) ==
            ((At(p, (i + 17) % 32) != At(p, (i + 19) % 32)) != (i + 10 < 32 && At(p, i + 10)))
  {
    hide At, Xor, Turned, Shifted, LittleSigma1;
    var p := x as bv32;
    LittleSigma1Turns(p);
    Back(SmallSigma1(x), LittleSigma1(p));
    XorAt(Turned(p, 17), Turned(p, 19), Shifted(p, 10), i);
    TurnedAt(p, 17, i);
    TurnedAt(p, 19, i);
    ShiftedAt(p, 10, i);
  }

  // ---- The constants ----

  // The first 64 primes.
  function Prime(t: nat): nat
    requires t < 64
  {
    if t < 8 then [2, 3, 5, 7, 11, 13, 17, 19][t]
    else if t < 16 then [23, 29, 31, 37, 41, 43, 47, 53][t - 8]
    else if t < 24 then [59, 61, 67, 71, 73, 79, 83, 89][t - 16]
    else if t < 32 then [97, 101, 103, 107, 109, 113, 127, 131][t - 24]
    else if t < 40 then [137, 139, 149, 151, 157, 163, 167, 173][t - 32]
    else if t < 48 then [179, 181, 191, 193, 197, 199, 211, 223][t - 40]
    else if t < 56 then [227, 229, 233, 239, 241, 251, 257, 263][t - 48]
    else [269, 271, 277, 281, 283, 293, 307, 311][t - 56]
  }

  // The first 32 bits of the fractional part of a cube root, section 4.2.2 of FIPS 180-4: with
  // them, and the whole part, the number is the cube root rounded down to 32 places.
  predicate IsCubeRootPart(p: nat, k: nat) {
    exists whole: nat | whole < 7 ::
      var r := whole * 0x1_0000_0000 + k;
      r * r * r <= p * 0x1_0000_0000_0000_0000_0000_0000 < (r + 1) * (r + 1) * (r + 1)
  }

  // The same for a square root, section 5.3.3.
  predicate IsSquareRootPart(p: nat, k: nat) {
    exists whole: nat | whole < 5 ::
      var r := whole * 0x1_0000_0000 + k; r * r <= p * 0x1_0000_0000_0000_0000 < (r + 1) * (r + 1)
  }

  lemma IsCubeRoot(whole: nat, p: nat, k: nat)
    requires whole < 7
    requires var r := whole * 0x1_0000_0000 + k;
             r * r * r <= p * 0x1_0000_0000_0000_0000_0000_0000 < (r + 1) * (r + 1) * (r + 1)
    ensures IsCubeRootPart(p, k)
  {
  }

  lemma IsSquareRoot(whole: nat, p: nat, k: nat)
    requires whole < 5
    requires var r := whole * 0x1_0000_0000 + k; r * r <= p * 0x1_0000_0000_0000_0000 < (r + 1) * (r + 1)
    ensures IsSquareRootPart(p, k)
  {
  }

  lemma Constants0(t: nat)
    requires 0 <= t < 8
    ensures IsCubeRootPart(Prime(t), K(t))
  {
    hide IsCubeRootPart;
    if t == 0 {
      assert K(0) == 0x428a2f98 && Prime(0) == 2;
      IsCubeRoot(1, 2, 0x428a2f98);
    } else if t == 1 {
      assert K(1) == 0x71374491 && Prime(1) == 3;
      IsCubeRoot(1, 3, 0x71374491);
    } else if t == 2 {
      assert K(2) == 0xb5c0fbcf && Prime(2) == 5;
      IsCubeRoot(1, 5, 0xb5c0fbcf);
    } else if t == 3 {
      assert K(3) == 0xe9b5dba5 && Prime(3) == 7;
      IsCubeRoot(1, 7, 0xe9b5dba5);
    } else if t == 4 {
      assert K(4) == 0x3956c25b && Prime(4) == 11;
      IsCubeRoot(2, 11, 0x3956c25b);
    } else if t == 5 {
      assert K(5) == 0x59f111f1 && Prime(5) == 13;
      IsCubeRoot(2, 13, 0x59f111f1);
    } else if t == 6 {
      assert K(6) == 0x923f82a4 && Prime(6) == 17;
      IsCubeRoot(2, 17, 0x923f82a4);
    } else if t == 7 {
      assert K(7) == 0xab1c5ed5 && Prime(7) == 19;
      IsCubeRoot(2, 19, 0xab1c5ed5);
    }
  }

  lemma Constants1(t: nat)
    requires 8 <= t < 16
    ensures IsCubeRootPart(Prime(t), K(t))
  {
    hide IsCubeRootPart;
    if t == 8 {
      assert K(8) == 0xd807aa98 && Prime(8) == 23;
      IsCubeRoot(2, 23, 0xd807aa98);
    } else if t == 9 {
      assert K(9) == 0x12835b01 && Prime(9) == 29;
      IsCubeRoot(3, 29, 0x12835b01);
    } else if t == 10 {
      assert K(10) == 0x243185be && Prime(10) == 31;
      IsCubeRoot(3, 31, 0x243185be);
    } else if t == 11 {
      assert K(11) == 0x550c7dc3 && Prime(11) == 37;
      IsCubeRoot(3, 37, 0x550c7dc3);
    } else if t == 12 {
      assert K(12) == 0x72be5d74 && Prime(12) == 41;
      IsCubeRoot(3, 41, 0x72be5d74);
    } else if t == 13 {
      assert K(13) == 0x80deb1fe && Prime(13) == 43;
      IsCubeRoot(3, 43, 0x80deb1fe);
    } else if t == 14 {
      assert K(14) == 0x9bdc06a7 && Prime(14) == 47;
      IsCubeRoot(3, 47, 0x9bdc06a7);
    } else if t == 15 {
      assert K(15) == 0xc19bf174 && Prime(15) == 53;
      IsCubeRoot(3, 53, 0xc19bf174);
    }
  }

  lemma Constants2(t: nat)
    requires 16 <= t < 24
    ensures IsCubeRootPart(Prime(t), K(t))
  {
    hide IsCubeRootPart;
    if t == 16 {
      assert K(16) == 0xe49b69c1 && Prime(16) == 59;
      IsCubeRoot(3, 59, 0xe49b69c1);
    } else if t == 17 {
      assert K(17) == 0xefbe4786 && Prime(17) == 61;
      IsCubeRoot(3, 61, 0xefbe4786);
    } else if t == 18 {
      assert K(18) == 0xfc19dc6 && Prime(18) == 67;
      IsCubeRoot(4, 67, 0xfc19dc6);
    } else if t == 19 {
      assert K(19) == 0x240ca1cc && Prime(19) == 71;
      IsCubeRoot(4, 71, 0x240ca1cc);
    } else if t == 20 {
      assert K(20) == 0x2de92c6f && Prime(20) == 73;
      IsCubeRoot(4, 73, 0x2de92c6f);
    } else if t == 21 {
      assert K(21) == 0x4a7484aa && Prime(21) == 79;
      IsCubeRoot(4, 79, 0x4a7484aa);
    } else if t == 22 {
      assert K(22) == 0x5cb0a9dc && Prime(22) == 83;
      IsCubeRoot(4, 83, 0x5cb0a9dc);
    } else if t == 23 {
      assert K(23) == 0x76f988da && Prime(23) == 89;
      IsCubeRoot(4, 89, 0x76f988da);
    }
  }

  lemma Constants3(t: nat)
    requires 24 <= t < 32
    ensures IsCubeRootPart(Prime(t), K(t))
  {
    hide IsCubeRootPart;
    if t == 24 {
      assert K(24) == 0x983e5152 && Prime(24) == 97;
      IsCubeRoot(4, 97, 0x983e5152);
    } else if t == 25 {
      assert K(25) == 0xa831c66d && Prime(25) == 101;
      IsCubeRoot(4, 101, 0xa831c66d);
    } else if t == 26 {
      assert K(26) == 0xb00327c8 && Prime(26) == 103;
      IsCubeRoot(4, 103, 0xb00327c8);
    } else if t == 27 {
      assert K(27) == 0xbf597fc7 && Prime(27) == 107;
      IsCubeRoot(4, 107, 0xbf597fc7);
    } else if t == 28 {
      assert K(28) == 0xc6e00bf3 && Prime(28) == 109;
      IsCubeRoot(4, 109, 0xc6e00bf3);
    } else if t == 29 {
      assert K(29) == 0xd5a79147 && Prime(29) == 113;
      IsCubeRoot(4, 113, 0xd5a79147);
    } else if t == 30 {
      assert K(30) == 0x6ca6351 && Prime(30) == 127;
      IsCubeRoot(5, 127, 0x6ca6351);
    } else if t == 31 {
      assert K(31) == 0x14292967 && Prime(31) == 131;
      IsCubeRoot(5, 131, 0x14292967);
    }
  }

  lemma Constants4(t: nat)
    requires 32 <= t < 40
    ensures IsCubeRootPart(Prime(t), K(t))
  {
    hide IsCubeRootPart;
    if t == 32 {
      assert K(32) == 0x27b70a85 && Prime(32) == 137;
      IsCubeRoot(5, 137, 0x27b70a85);
    } else if t == 33 {
      assert K(33) == 0x2e1b2138 && Prime(33) == 139;
      IsCubeRoot(5, 139, 0x2e1b2138);
    } else if t == 34 {
      assert K(34) == 0x4d2c6dfc && Prime(34) == 149;
      IsCubeRoot(5, 149, 0x4d2c6dfc);
    } else if t == 35 {
      assert K(35) == 0x53380d13 && Prime(35) == 151;
      IsCubeRoot(5, 151, 0x53380d13);
    } else if t == 36 {
      assert K(36) == 0x650a7354 && Prime(36) == 157;
      IsCubeRoot(5, 157, 0x650a7354);
    } else if t == 37 {
      assert K(37) == 0x766a0abb && Prime(37) == 163;
      IsCubeRoot(5, 163, 0x766a0abb);
    } else if t == 38 {
      assert K(38) == 0x81c2c92e && Prime(38) == 167;
      IsCubeRoot(5, 167, 0x81c2c92e);
    } else if t == 39 {
      assert K(39) == 0x92722c85 && Prime(39) == 173;
      IsCubeRoot(5, 173, 0x92722c85);
    }
  }

  lemma Constants5(t: nat)
    requires 40 <= t < 48
    ensures IsCubeRootPart(Prime(t), K(t))
  {
    hide IsCubeRootPart;
    if t == 40 {
      assert K(40) == 0xa2bfe8a1 && Prime(40) == 179;
      IsCubeRoot(5, 179, 0xa2bfe8a1);
    } else if t == 41 {
      assert K(41) == 0xa81a664b && Prime(41) == 181;
      IsCubeRoot(5, 181, 0xa81a664b);
    } else if t == 42 {
      assert K(42) == 0xc24b8b70 && Prime(42) == 191;
      IsCubeRoot(5, 191, 0xc24b8b70);
    } else if t == 43 {
      assert K(43) == 0xc76c51a3 && Prime(43) == 193;
      IsCubeRoot(5, 193, 0xc76c51a3);
    } else if t == 44 {
      assert K(44) == 0xd192e819 && Prime(44) == 197;
      IsCubeRoot(5, 197, 0xd192e819);
    } else if t == 45 {
      assert K(45) == 0xd6990624 && Prime(45) == 199;
      IsCubeRoot(5, 199, 0xd6990624);
    } else if t == 46 {
      assert K(46) == 0xf40e3585 && Prime(46) == 211;
      IsCubeRoot(5, 211, 0xf40e3585);
    } else if t == 47 {
      assert K(47) == 0x106aa070 && Prime(47) == 223;
      IsCubeRoot(6, 223, 0x106aa070);
    }
  }

  lemma Constants6(t: nat)
    requires 48 <= t < 56
    ensures IsCubeRootPart(Prime(t), K(t))
  {
    hide IsCubeRootPart;
    if t == 48 {
      assert K(48) == 0x19a4c116 && Prime(48) == 227;
      IsCubeRoot(6, 227, 0x19a4c116);
    } else if t == 49 {
      assert K(49) == 0x1e376c08 && Prime(49) == 229;
      IsCubeRoot(6, 229, 0x1e376c08);
    } else if t == 50 {
      assert K(50) == 0x2748774c && Prime(50) == 233;
      IsCubeRoot(6, 233, 0x2748774c);
    } else if t == 51 {
      assert K(51) == 0x34b0bcb5 && Prime(51) == 239;
      IsCubeRoot(6, 239, 0x34b0bcb5);
    } else if t == 52 {
      assert K(52) == 0x391c0cb3 && Prime(52) == 241;
      IsCubeRoot(6, 241, 0x391c0cb3);
    } else if t == 53 {
      assert K(53) == 0x4ed8aa4a && Prime(53) == 251;
      IsCubeRoot(6, 251, 0x4ed8aa4a);
    } else if t == 54 {
      assert K(54) == 0x5b9cca4f && Prime(54) == 257;
      IsCubeRoot(6, 257, 0x5b9cca4f);
    } else if t == 55 {
      assert K(55) == 0x682e6ff3 && Prime(55) == 263;
      IsCubeRoot(6, 263, 0x682e6ff3);
    }
  }

  lemma Constants7(t: nat)
    requires 56 <= t < 64
    ensures IsCubeRootPart(Prime(t), K(t))
  {
    hide IsCubeRootPart;
    if t == 56 {
      assert K(56) == 0x748f82ee && Prime(56) == 269;
      IsCubeRoot(6, 269, 0x748f82ee);
    } else if t == 57 {
      assert K(57) == 0x78a5636f && Prime(57) == 271;
      IsCubeRoot(6, 271, 0x78a5636f);
    } else if t == 58 {
      assert K(58) == 0x84c87814 && Prime(58) == 277;
      IsCubeRoot(6, 277, 0x84c87814);
    } else if t == 59 {
      assert K(59) == 0x8cc70208 && Prime(59) == 281;
      IsCubeRoot(6, 281, 0x8cc70208);
    } else if t == 60 {
      assert K(60) == 0x90befffa && Prime(60) == 283;
      IsCubeRoot(6, 283, 0x90befffa);
    } else if t == 61 {
      assert K(61) == 0xa4506ceb && Prime(61) == 293;
      IsCubeRoot(6, 293, 0xa4506ceb);
    } else if t == 62 {
      assert K(62) == 0xbef9a3f7 && Prime(62) == 307;
      IsCubeRoot(6, 307, 0xbef9a3f7);
    } else if t == 63 {
      assert K(63) == 0xc67178f2 && Prime(63) == 311;
      IsCubeRoot(6, 311, 0xc67178f2);
    }
  }

  lemma ConstantsAreRoots(t: nat)
    requires t < 64
    ensures IsCubeRootPart(Prime(t), K(t))
  {
    hide IsCubeRootPart, K;
    if t < 8 {
      Constants0(t);
    } else if t < 16 {
      Constants1(t);
    } else if t < 24 {
      Constants2(t);
    } else if t < 32 {
      Constants3(t);
    } else if t < 40 {
      Constants4(t);
    } else if t < 48 {
      Constants5(t);
    } else if t < 56 {
      Constants6(t);
    } else {
      Constants7(t);
    }
  }

  lemma InitialAreRoots()
    ensures IsSquareRootPart(Prime(0), H0.a) && IsSquareRootPart(Prime(1), H0.b)
    ensures IsSquareRootPart(Prime(2), H0.c) && IsSquareRootPart(Prime(3), H0.d)
    ensures IsSquareRootPart(Prime(4), H0.e) && IsSquareRootPart(Prime(5), H0.f)
    ensures IsSquareRootPart(Prime(6), H0.g) && IsSquareRootPart(Prime(7), H0.h)
  {
    hide IsSquareRootPart;
    IsSquareRoot(1, 2, 0x6a09e667);
    IsSquareRoot(1, 3, 0xbb67ae85);
    IsSquareRoot(2, 5, 0x3c6ef372);
    IsSquareRoot(2, 7, 0xa54ff53a);
    IsSquareRoot(3, 11, 0x510e527f);
    IsSquareRoot(3, 13, 0x9b05688c);
    IsSquareRoot(4, 17, 0x1f83d9ab);
    IsSquareRoot(4, 19, 0x5be0cd19);
  }

  // ---- The hash ----

  lemma WordIs(b: seq<bv8>, i: nat)
    requires 4 * i + 4 <= |b|
    ensures Word(b, i) == Value(AsBytes(b[4 * i..4 * i + 4]))
  {
    hide AsByte;
    var (bytes, word) := (AsBytes(b[4 * i..4 * i + 4]), b[4 * i..4 * i + 4]);
    forall k | 0 <= k < 4
      ensures bytes[k] == b[4 * i + k] as int
    {
      AsByteIs(word[k]);
    }
    FourBytes(bytes);
  }

  lemma FourBytes(bytes: seq<byte>)
    requires |bytes| == 4
    ensures Value(bytes) ==
            bytes[0] as int * 0x100_0000 + bytes[1] as int * 0x1_0000 + bytes[2] as int * 0x100 + bytes[3] as int
  {
    assert bytes[..1][..0] == [] && bytes[..2][..1] == bytes[..1] && bytes[..3][..2] == bytes[..2];
    assert Value(bytes[..1]) == bytes[0];
    assert Value(bytes[..2]) == bytes[0] as int * 0x100 + bytes[1] as int;
    assert Value(bytes[..3]) == bytes[0] as int * 0x1_0000 + bytes[1] as int * 0x100 + bytes[2] as int;
  }

  // The message schedule, section 6.2.2 of FIPS 180-4.
  predicate IsSchedule(block: seq<bv8>, w: seq<u32>)
    requires |block| == 64
  {
    && |w| == 64
    && (forall t | 0 <= t < 16 :: w[t] == Value(AsBytes(block[4 * t..4 * t + 4])))
    && forall t | 16 <= t < 64 ::
         w[t] == (SmallSigma1(w[t - 2]) + w[t - 7] + SmallSigma0(w[t - 15]) + w[t - 16]) % 0x1_0000_0000
  }

  // The working variables before and after each of the 64 steps.
  predicate AreVariables(h: Regs, w: seq<u32>, v: seq<Regs>)
    requires |w| == 64
  {
    && |v| == 65 && v[0] == h
    && forall t | 0 <= t < 64 :: IsNext(v[t], v[t + 1], K(t), w[t])
  }

  lemma Add32Mod(x: nat, y: u32)
    ensures Add32(x % 0x1_0000_0000, y) == Add32(y, x % 0x1_0000_0000) == (x + y) % 0x1_0000_0000
  {
  }

  lemma Add32Is(x: u32, y: u32)
    ensures Add32(x, y) == (x + y) % 0x1_0000_0000
  {
  }

  lemma Add32Four(p: u32, q: u32, r: u32, s: u32)
    ensures Add32(p, Add32(Add32(q, r), s)) == (q + r + s + p) % 0x1_0000_0000
  {
    hide Add32;
    Add32Is(q, r);
    Add32Mod(q + r, s);
    Add32Mod(q + r + s, p);
  }

  lemma Add32Five(p: u32, q: u32, r: u32, s: u32, t: u32, x: u32)
    ensures var sum := p + q + r + s + t;
            && Add32(Add32(Add32(Add32(p, q), r), s), t) == sum % 0x1_0000_0000
            && Add32(x, sum % 0x1_0000_0000) == (x + sum) % 0x1_0000_0000
  {
    hide Add32;
    Add32Is(p, q);
    Add32Mod(p + q, r);
    Add32Mod(p + q + r, s);
    Add32Mod(p + q + r + s, t);
    Add32Mod(p + q + r + s + t, x);
  }

  lemma Add32Sums(t1: nat, p: u32, q: u32)
    ensures Add32(t1 % 0x1_0000_0000, Add32(p, q)) == (t1 + (p + q)) % 0x1_0000_0000
  {
    Add32Is(p, q);
    Add32Mod(t1, Add32(p, q));
    TwoMods(t1, p + q);
  }

  lemma TwoMods(x: nat, y: nat)
    ensures (x + y % 0x1_0000_0000) % 0x1_0000_0000 == (x + y) % 0x1_0000_0000
  {
  }

  // One step in the words of the standard.
  lemma StepIs(r: Regs, k: u32, w: u32)
    ensures var s := Step(r, k, w);
            var t1 := r.h + BigSigma1(r.e) + Ch(r.e, r.f, r.g) + k + w;
            var t2 := BigSigma0(r.a) + Maj(r.a, r.b, r.c);
            && s.a == (t1 + t2) % 0x1_0000_0000 && s.e == (r.d + t1) % 0x1_0000_0000
            && s == Regs(s.a, r.a, r.b, r.c, s.e, r.e, r.f, r.g)
  {
    hide BigSigma0, BigSigma1, Ch, Maj, Add32;
    Add32Five(r.h, BigSigma1(r.e), Ch(r.e, r.f, r.g), k, w, r.d);
    Add32Sums(r.h + BigSigma1(r.e) + Ch(r.e, r.f, r.g) + k + w, BigSigma0(r.a), Maj(r.a, r.b, r.c));
  }

  lemma ScheduleAt(block: seq<bv8>, w: seq<u32>, t: nat)
    requires |block| == 64 && IsSchedule(block, w) && 16 <= t < 64
    ensures w[t] == (SmallSigma1(w[t - 2]) + w[t - 7] + SmallSigma0(w[t - 15]) + w[t - 16]) % 0x1_0000_0000
  {
    hide SmallSigma0, SmallSigma1;
  }

  lemma ScheduleUnfolds(m: Chunk, t: nat, p: u32, q: u32, r: u32, s: u32)
    requires t >= 16 && p == Schedule(m, t - 16) && q == Schedule(m, t - 15)
    requires r == Schedule(m, t - 7) && s == Schedule(m, t - 2)
    ensures Schedule(m, t) == (SmallSigma1(s) + r + SmallSigma0(q) + p) % 0x1_0000_0000
  {
    hide SmallSigma0, SmallSigma1, Add32;
    Add32Four(p, SmallSigma1(s), r, SmallSigma0(q));
  }

  lemma ScheduleTurns(block: seq<bv8>, w: seq<u32>, m: Chunk, t: nat)
    requires |block| == 64 && |w| == 64 && IsSchedule(block, w) && 16 <= t < 64
    requires w[t - 16] == Schedule(m, t - 16) && w[t - 15] == Schedule(m, t - 15)
    requires w[t - 7] == Schedule(m, t - 7) && w[t - 2] == Schedule(m, t - 2)
    ensures w[t] == Schedule(m, t)
  {
    hide SmallSigma0, SmallSigma1, IsSchedule, Schedule;
    ScheduleAt(block, w, t);
    ScheduleUnfolds(m, t, w[t - 16], w[t - 15], w[t - 7], w[t - 2]);
  }

  lemma ScheduleStarts(block: seq<bv8>, w: seq<u32>, t: nat)
    requires |block| == 64 && IsSchedule(block, w) && t < 16
    ensures w[t] == Schedule(Words(block), t)
  {
    hide Word;
    WordIs(block, t);
  }

  lemma {:induction false} ScheduleIs(block: seq<bv8>, w: seq<u32>, t: nat)
    requires |block| == 64 && IsSchedule(block, w) && t < 64
    ensures w[t] == Schedule(Words(block), t)
  {
    assert |w| == 64;
    hide Words, Schedule, IsSchedule;
    if t < 16 {
      ScheduleStarts(block, w, t);
    } else {
      ScheduleIs(block, w, t - 16);
      ScheduleIs(block, w, t - 15);
      ScheduleIs(block, w, t - 7);
      ScheduleIs(block, w, t - 2);
      ScheduleTurns(block, w, Words(block), t);
    }
  }

  // One line of the table of variables.
  predicate IsNext(r: Regs, s: Regs, k: u32, w: u32) {
    var t1 := r.h + BigSigma1(r.e) + Ch(r.e, r.f, r.g) + k + w;
    var t2 := BigSigma0(r.a) + Maj(r.a, r.b, r.c);
    && s.a == (t1 + t2) % 0x1_0000_0000 && s.b == r.a && s.c == r.b && s.d == r.c
    && s.e == (r.d + t1) % 0x1_0000_0000 && s.f == r.e && s.g == r.f && s.h == r.g
  }

  lemma NextIsStep(r: Regs, s: Regs, k: u32, w: u32)
    requires IsNext(r, s, k, w)
    ensures s == Step(r, k, w)
  {
    hide BigSigma0, BigSigma1, Ch, Maj, Step;
    StepIs(r, k, w);
  }

  lemma {:induction false} VariablesAre(h: Regs, block: seq<bv8>, w: seq<u32>, v: seq<Regs>, t: nat)
    requires |block| == 64 && IsSchedule(block, w) && AreVariables(h, w, v) && t <= 64
    ensures v[t] == Compress(h, Words(block), t)
  {
    assert |w| == 64;
    hide IsSchedule, IsNext, K, Words, Schedule, Step;
    if t > 0 {
      assert IsNext(v[t - 1], v[t], K(t - 1), w[t - 1]);
      NextIsStep(v[t - 1], v[t], K(t - 1), w[t - 1]);
      VariablesAre(h, block, w, v, t - 1);
      ScheduleIs(block, w, t - 1);
    }
  }

  // The chaining value after a block is that of section 6.2.2.
  lemma CompressionIsFips(h: Regs, block: seq<bv8>, w: seq<u32>, v: seq<Regs>)
    requires |block| == 64 && IsSchedule(block, w) && AreVariables(h, w, v)
    ensures var n := HashBlock(h, block);
            && n.a == (h.a + v[64].a) % 0x1_0000_0000 && n.b == (h.b + v[64].b) % 0x1_0000_0000
            && n.c == (h.c + v[64].c) % 0x1_0000_0000 && n.d == (h.d + v[64].d) % 0x1_0000_0000
            && n.e == (h.e + v[64].e) % 0x1_0000_0000 && n.f == (h.f + v[64].f) % 0x1_0000_0000
            && n.g == (h.g + v[64].g) % 0x1_0000_0000 && n.h == (h.h + v[64].h) % 0x1_0000_0000
  {
    hide IsSchedule, AreVariables, Compress;
    VariablesAre(h, block, w, v, 64);
  }

  lemma ByteAtIs(x: nat, shift: nat)
    requires shift > 0
    ensures AsByte(ByteAt(x, shift)) == x / shift % 256
  {
    ByteRoundTrip(x / shift % 256);
  }

  // The bytes of a number, most significant byte first.
  lemma Be32Is(x: u32)
    ensures Value(AsBytes(Be32(x))) == x
  {
    hide AsByte, ByteAt;
    ByteAtIs(x, 0x100_0000);
    ByteAtIs(x, 0x1_0000);
    ByteAtIs(x, 0x100);
    ByteAtIs(x, 1);
    FourBytes(AsBytes(Be32(x)));
    FourDigits(x);
  }

  lemma FourDigits(x: nat)
    requires x < 0x1_0000_0000
    ensures x / 0x100_0000 % 256 * 0x100_0000 + x / 0x1_0000 % 256 * 0x1_0000 + x / 0x100 % 256 * 0x100 + x / 1 % 256
            == x
  {
    var (p, q, r) := (x / 0x100, x / 0x1_0000, x / 0x100_0000);
    assert q == p / 256;
    assert r == q / 256;
    LastDigit(x, p);
    LastDigit(p, q);
    LastDigit(q, r);
  }

  lemma LastDigit(x: nat, y: nat)
    requires y == x / 256
    ensures x == y * 256 + x % 256
  {
  }

  lemma Be64Is(x: nat)
    requires x < TWO64
    ensures Value(AsBytes(Be64(x))) == x
  {
    hide AsByte, ByteAt;
    var (high, low) := (x / 0x1_0000_0000, x % 0x1_0000_0000);
    var b := AsBytes(Be64(x));
    HighBytes(x);
    LowBytes(x);
    FourBytes(b[..4]);
    FourBytes(b[4..]);
    ValueJoin(b[..4], b[4..]);
    assert b == b[..4] + b[4..];
    FourDigits(high);
    FourDigits(low);
  }

  lemma HighBytes(x: nat)
    ensures var b := AsBytes(Be64(x));
            var high := x / 0x1_0000_0000;
            && b[0] == high / 0x100_0000 % 256 && b[1] == high / 0x1_0000 % 256
            && b[2] == high / 0x100 % 256 && b[3] == high / 1 % 256
  {
    hide AsByte, ByteAt;
    ByteAtIs(x, 0x100_0000_0000_0000);
    ByteAtIs(x, 0x1_0000_0000_0000);
    ByteAtIs(x, 0x100_0000_0000);
    ByteAtIs(x, 0x1_0000_0000);
    assert x / 0x100_0000_0000_0000 == x / 0x1_0000_0000 / 0x100_0000;
    assert x / 0x1_0000_0000_0000 == x / 0x1_0000_0000 / 0x1_0000;
    assert x / 0x100_0000_0000 == x / 0x1_0000_0000 / 0x100;
  }

  lemma LowBytes(x: nat)
    ensures var b := AsBytes(Be64(x));
            var low := x % 0x1_0000_0000;
            && b[4] == low / 0x100_0000 % 256 && b[5] == low / 0x1_0000 % 256
            && b[6] == low / 0x100 % 256 && b[7] == low / 1 % 256
  {
    hide AsByte, ByteAt;
    ByteAtIs(x, 0x100_0000);
    ByteAtIs(x, 0x1_0000);
    ByteAtIs(x, 0x100);
    ByteAtIs(x, 1);
    LowDigits(x, x / 0x1_0000_0000, x % 0x1_0000_0000);
  }

  lemma LowDigits(x: nat, high: nat, low: nat)
    requires x == high * 0x1_0000_0000 + low
    ensures x / 0x100_0000 % 256 == low / 0x100_0000 % 256 && x / 0x1_0000 % 256 == low / 0x1_0000 % 256
    ensures x / 0x100 % 256 == low / 0x100 % 256 && x / 1 % 256 == low / 1 % 256
  {
    SameDigit(x / 0x100_0000, low / 0x100_0000, high);
    SameDigit(x / 0x1_0000, low / 0x1_0000, high * 0x100);
    SameDigit(x / 0x100, low / 0x100, high * 0x1_0000);
    SameDigit(x, low, high * 0x100_0000);
  }

  lemma SameDigit(p: nat, q: nat, k: nat)
    requires p == q + k * 256
    ensures p % 256 == q % 256
  {
  }

  lemma {:induction false} ValueJoin(s: seq<byte>, t: seq<byte>)
    requires |t| == 4
    ensures Value(s + t) == Value(s) * 0x1_0000_0000 + Value(t)
  {
    FourBytes(t);
    assert (s + t)[..|s| + 3][..|s| + 2] == (s + t)[..|s| + 2];
    assert (s + t)[..|s| + 2][..|s| + 1] == (s + t)[..|s| + 1];
    assert (s + t)[..|s| + 1][..|s|] == (s + t)[..|s|] == s;
    assert Value((s + t)[..|s| + 1]) == Value(s) * 0x100 + t[0] as int;
    assert Value((s + t)[..|s| + 2]) == Value(s) * 0x1_0000 + t[0] as int * 0x100 + t[1] as int;
    assert Value((s + t)[..|s| + 3]) ==
           Value(s) * 0x100_0000 + t[0] as int * 0x1_0000 + t[1] as int * 0x100 + t[2] as int;
  }

  // The padding, section 5.1.1: a one bit, the fewest zero bits, and the length in bits.
  predicate IsPadded(message: seq<bv8>, padded: seq<bv8>) {
    && |padded| % 64 == 0 && |message| + 9 <= |padded| < |message| + 73
    && padded[..|message|] == message && padded[|message|] == 0x80
    && (forall i | |message| < i < |padded| - 8 :: padded[i] == 0)
    && Value(AsBytes(padded[|padded| - 8..])) == 8 * |message|
  }

  lemma ZeroBytesAre(n: nat, length: nat)
    requires length % 64 == 0 && n + 9 <= length < n + 73
    ensures ZeroBytes(n) == length - n - 9
  {
    assert FillsBlock(n, length - n - 9);
  }

  lemma CountIs(s: seq<bv8>, n: nat)
    requires |s| == 8 && n < TWO64 && Value(AsBytes(s)) == n
    ensures s == Be64(n)
  {
    hide Be64, AsByte, Value;
    Be64Is(n);
    ValueDetermines(AsBytes(s), AsBytes(Be64(n)));
    SameBits(s, Be64(n));
  }

  lemma PaddedIs(message: seq<bv8>, padded: seq<bv8>)
    requires IsPadded(message, padded) && |message| < SIZE_LIMIT
    ensures padded == Pad(message)
  {
    hide Be64, AsBytes, Value, ZeroBytes;
    var (n, length) := (|message|, |padded|);
    ZeroBytesAre(n, length);
    CountIs(padded[length - 8..], 8 * n);
    assert padded[n + 1..length - 8] == Zeros(length - n - 9);
    InPieces(padded, n);
  }

  lemma InPieces(padded: seq<bv8>, n: nat)
    requires n + 9 <= |padded|
    ensures padded == padded[..n] + [padded[n]] + padded[n + 1..|padded| - 8] + padded[|padded| - 8..]
  {
  }

  // The chaining values, section 6.2.2.
  predicate AreChained(padded: seq<bv8>, h: seq<Regs>) {
    && |padded| % 64 == 0 && |h| == |padded| / 64 + 1 && h[0] == H0
    && forall i | 0 <= i < |h| - 1 :: h[i + 1] == HashBlock(h[i], padded[64 * i..64 * i + 64])
  }

  lemma {:induction false} ChainIs(padded: seq<bv8>, h: seq<Regs>, i: nat)
    requires AreChained(padded, h) && i < |h|
    ensures HashBlocks(h[i], padded[64 * i..]) == h[|h| - 1]
    decreases |h| - i
  {
    hide HashBlock;
    if i < |h| - 1 {
      ChainIs(padded, h, i + 1);
      assert padded[64 * i..][..64] == padded[64 * i..64 * i + 64];
      assert padded[64 * i..][64..] == padded[64 * (i + 1)..];
    }
  }

  // The hash of a message: its eight words are the last chaining value.
  lemma HashIsFips(message: seq<bv8>, padded: seq<bv8>, h: seq<Regs>)
    requires |message| < SIZE_LIMIT && IsPadded(message, padded) && AreChained(padded, h)
    ensures var (d, last) := (Hash(message), h[|h| - 1]);
            && Value(AsBytes(d[0..4])) == last.a && Value(AsBytes(d[4..8])) == last.b
            && Value(AsBytes(d[8..12])) == last.c && Value(AsBytes(d[12..16])) == last.d
            && Value(AsBytes(d[16..20])) == last.e && Value(AsBytes(d[20..24])) == last.f
            && Value(AsBytes(d[24..28])) == last.g && Value(AsBytes(d[28..32])) == last.h
  {
    hide HashBlocks, IsPadded, Pad, Be32, AsBytes;
    PaddedIs(message, padded);
    ChainIs(padded, h, 0);
    assert padded[64 * 0..] == padded;
    var (d, last) := (Hash(message), h[|h| - 1]);
    assert d[0..4] == Be32(last.a) && d[4..8] == Be32(last.b) && d[8..12] == Be32(last.c) && d[12..16] == Be32(last.d);
    assert d[16..20] == Be32(last.e) && d[20..24] == Be32(last.f);
    assert d[24..28] == Be32(last.g) && d[28..32] == Be32(last.h);
    Be32Is(last.a);
    Be32Is(last.b);
    Be32Is(last.c);
    Be32Is(last.d);
    Be32Is(last.e);
    Be32Is(last.f);
    Be32Is(last.g);
    Be32Is(last.h);
  }
}
