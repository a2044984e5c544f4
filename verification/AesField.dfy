// The field GF(2^8) of FIPS 197, section 4, and the column matrices of
// sections 5.1.3 and 5.3.3.
module AesField {
  import opened AesTables

  // Multiplication by x, as aes.c computes it.
  function Xtime(x: bv8): bv8 {
    (x << 1) ^ (((x >> 7) & 1) * 0x1b)
  }

  // The Multiply macro of aes.c: only the five low bits of y are looked at.
  function Multiply(x: bv8, y: bv8): bv8 {
    ((y & 1) * x) ^
    (((y >> 1) & 1) * Xtime(x)) ^
    (((y >> 2) & 1) * Xtime(Xtime(x))) ^
    (((y >> 3) & 1) * Xtime(Xtime(Xtime(x)))) ^
    (((y >> 4) & 1) * Xtime(Xtime(Xtime(Xtime(x)))))
  }

  // Multiplication in GF(2^8): the product of the two polynomials, with every
  // power from x^14 down to x^8 cancelled by a multiple of x^8 + x^4 + x^3 + x + 1.
  function Times(x: bv8, y: bv8): bv8 {
    var a, b := x as bv16, y as bv16;
    var p :=
      ((b & 1) * a) ^ (((b >> 1) & 1) * (a << 1)) ^ (((b >> 2) & 1) * (a << 2)) ^ (((b >> 3) & 1) * (a << 3)) ^
      (((b >> 4) & 1) * (a << 4)) ^ (((b >> 5) & 1) * (a << 5)) ^
      (((b >> 6) & 1) * (a << 6)) ^ (((b >> 7) & 1) * (a << 7));
    var p6 := p ^ (((p >> 14) & 1) * 0x46c0);
    var p5 := p6 ^ (((p6 >> 13) & 1) * 0x2360);
    var p4 := p5 ^ (((p5 >> 12) & 1) * 0x11b0);
    var p3 := p4 ^ (((p4 >> 11) & 1) * 0x8d8);
    var p2 := p3 ^ (((p3 >> 10) & 1) * 0x46c);
    var p1 := p2 ^ (((p2 >> 9) & 1) * 0x236);
    var p0 := p1 ^ (((p1 >> 8) & 1) * 0x11b);
    (p0 & 0xff) as bv8
  }

  // The macro computes field products for the four factors InvMixColumns uses.
  lemma MultiplyIsFieldProduct(x: bv8)
    ensures Multiply(x, 0x9) == Times(x, 0x9)
    ensures Multiply(x, 0xb) == Times(x, 0xb)
    ensures Multiply(x, 0xd) == Times(x, 0xd)
    ensures Multiply(x, 0xe) == Times(x, 0xe)
  {
  }

  lemma XtimeIsFieldProduct(x: bv8)
    ensures Xtime(x) == Times(x, 2)
    ensures Add(Xtime(x), x) == Times(x, 3)
  {
  }

  // The affine map of FIPS 197, section 5.1.1, and its inverse.
  function Affine(y: bv8): bv8 {
    y ^ ((y << 1) | (y >> 7)) ^ ((y << 2) | (y >> 6)) ^ ((y << 3) | (y >> 5)) ^ ((y << 4) | (y >> 4)) ^ 0x63
  }

  function InvAffine(y: bv8): bv8 {
    ((y << 1) | (y >> 7)) ^ ((y << 3) | (y >> 5)) ^ ((y << 6) | (y >> 2)) ^ 0x05
  }

  lemma AffineUndoesInvAffine(y: bv8)
    ensures Affine(InvAffine(y)) == y
  {
  }

  lemma InvAffineOfSBoxInverts(x: bv8)
    requires x != 0
    ensures Times(InvAffine(SBox(x)), x) == 1
  {
  }

  // The table is the one FIPS 197 defines: invert in the field (0 goes to 0), then apply the affine map.
  lemma SBoxIsAffineOfInverse(x: bv8)
    ensures exists y :: (if x == 0 then y == 0 else Times(y, x) == 1) && SBox(x) == Affine(y)
  {
    if x == 0 {
      assert SBox(x) == Affine(0);
    } else {
      hide Times, Affine, InvAffine, SBox;
      var y := InvAffine(SBox(x));
      InvAffineOfSBoxInverts(x);
      AffineUndoesInvAffine(SBox(x));
      assert Times(y, x) == 1 && SBox(x) == Affine(y);
    }
  }

  // Addition in the field, which is exclusive or. Proofs keep it hidden and move terms by
  // the laws that follow it.
  function Add(x: bv8, y: bv8): bv8 {
    x ^ y
  }

  lemma AddTwice(x: bv8, y: bv8)
    ensures Add(Add(x, y), y) == x
  {
  }

  lemma AddAssociates(x: bv8, y: bv8, z: bv8)
    ensures Add(Add(x, y), z) == Add(x, Add(y, z))
  {
  }

  lemma AddCommutes(x: bv8, y: bv8)
    ensures Add(x, y) == Add(y, x)
  {
  }

  lemma AddInterchange(x: bv8, x': bv8, y: bv8, y': bv8)
    ensures Add(Add(x, x'), Add(y, y')) == Add(Add(x, y), Add(x', y'))
  {
    hide Add;
    AddAssociates(x, x', Add(y, y'));
    AddAssociates(x', y, y');
    AddCommutes(x', y);
    AddAssociates(y, x', y');
    AddAssociates(x, y, Add(x', y'));
  }

  lemma AddRearrange(p: bv8, q: bv8, r: bv8, s: bv8)
    ensures Add(Add(p, q), Add(r, s)) == Add(Add(q, p), Add(s, r)) == Add(Add(s, r), Add(q, p))
    ensures Add(Add(p, q), Add(r, s)) == Add(Add(p, s), Add(r, q)) == Add(Add(r, q), Add(p, s))
  {
    hide Add;
    AddCommutes(p, q);
    AddCommutes(r, s);
    AddCommutes(r, q);
    AddCommutes(Add(q, p), Add(s, r));
    AddCommutes(Add(p, s), Add(r, q));
    AddInterchange(p, q, s, r);
  }

  lemma XtimeLinear(x: bv8, y: bv8)
    ensures Xtime(Add(x, y)) == Add(Xtime(x), Xtime(y))
  {
  }

  lemma MultiplyByXtime(x: bv8)
    ensures Multiply(x, 0x9) == Add(x, Xtime(Xtime(Xtime(x))))
    ensures Multiply(x, 0xb) == Add(Add(x, Xtime(x)), Xtime(Xtime(Xtime(x))))
    ensures Multiply(x, 0xd) == Add(Add(x, Xtime(Xtime(x))), Xtime(Xtime(Xtime(x))))
    ensures Multiply(x, 0xe) == Add(Add(Xtime(x), Xtime(Xtime(x))), Xtime(Xtime(Xtime(x))))
  {
  }

  lemma TimesByXtime(x: bv8)
    ensures Times(x, 0x2) == Xtime(x)
    ensures Times(x, 0x3) == Add(Xtime(x), x)
    ensures Times(x, 0x9) == Add(x, Xtime(Xtime(Xtime(x))))
    ensures Times(x, 0xb) == Add(Add(x, Xtime(x)), Xtime(Xtime(Xtime(x))))
    ensures Times(x, 0xd) == Add(Add(x, Xtime(Xtime(x))), Xtime(Xtime(Xtime(x))))
    ensures Times(x, 0xe) == Add(Add(Xtime(x), Xtime(Xtime(x))), Xtime(Xtime(Xtime(x))))
  {
    hide Times, Xtime, Multiply, Add;
    MultiplyIsFieldProduct(x);
    XtimeIsFieldProduct(x);
    MultiplyByXtime(x);
  }

  // Multiplying by any of the six factors distributes over addition.
  lemma TimesDistributes(x: bv8, y: bv8)
    ensures Times(Add(x, y), 0x2) == Add(Times(x, 0x2), Times(y, 0x2))
    ensures Times(Add(x, y), 0x3) == Add(Times(x, 0x3), Times(y, 0x3))
    ensures Times(Add(x, y), 0x9) == Add(Times(x, 0x9), Times(y, 0x9))
    ensures Times(Add(x, y), 0xb) == Add(Times(x, 0xb), Times(y, 0xb))
    ensures Times(Add(x, y), 0xd) == Add(Times(x, 0xd), Times(y, 0xd))
    ensures Times(Add(x, y), 0xe) == Add(Times(x, 0xe), Times(y, 0xe))
  {
    hide Times, Xtime, Add;
    var (x1, x2, x3) := (Xtime(x), Xtime(Xtime(x)), Xtime(Xtime(Xtime(x))));
    var (y1, y2, y3) := (Xtime(y), Xtime(Xtime(y)), Xtime(Xtime(Xtime(y))));
    TimesByXtime(x);
    TimesByXtime(y);
    TimesByXtime(Add(x, y));
    XtimeLinear(x, y);
    XtimeLinear(x1, y1);
    XtimeLinear(x2, y2);
    AddInterchange(x1, y1, x, y);
    AddInterchange(x, y, x3, y3);
    AddInterchange(x, y, x1, y1);
    AddInterchange(Add(x, x1), Add(y, y1), x3, y3);
    AddInterchange(x, y, x2, y2);
    AddInterchange(Add(x, x2), Add(y, y2), x3, y3);
    AddInterchange(x1, y1, x2, y2);
    AddInterchange(Add(x1, x2), Add(y1, y2), x3, y3);
  }

  // One row of the MixColumns matrix, FIPS 197 section 5.1.3, and of its inverse, section 5.3.3.
  function MixRow(a: bv8, b: bv8, c: bv8, d: bv8): bv8 {
    Add(Add(Times(a, 0x2), Times(b, 0x3)), Add(c, d))
  }

  function InvMixRow(a: bv8, b: bv8, c: bv8, d: bv8): bv8 {
    Add(Add(Times(a, 0xe), Times(b, 0xb)), Add(Times(c, 0xd), Times(d, 0x9)))
  }

  lemma MixRowLinear(a: bv8, b: bv8, c: bv8, d: bv8, a': bv8, b': bv8, c': bv8, d': bv8)
    ensures MixRow(Add(a, a'), Add(b, b'), Add(c, c'), Add(d, d')) == Add(MixRow(a, b, c, d), MixRow(a', b', c', d'))
  {
    hide Times, Add;
    TimesDistributes(a, a');
    TimesDistributes(b, b');
    AddInterchange(Times(a, 0x2), Times(a', 0x2), Times(b, 0x3), Times(b', 0x3));
    AddInterchange(c, c', d, d');
    AddInterchange(Add(Times(a, 0x2), Times(b, 0x3)), Add(Times(a', 0x2), Times(b', 0x3)), Add(c, d), Add(c', d'));
  }

  lemma InvMixRowLinear(a: bv8, b: bv8, c: bv8, d: bv8, a': bv8, b': bv8, c': bv8, d': bv8)
    ensures InvMixRow(Add(a, a'), Add(b, b'), Add(c, c'), Add(d, d')) ==
            Add(InvMixRow(a, b, c, d), InvMixRow(a', b', c', d'))
  {
    hide Times, Add;
    TimesDistributes(a, a');
    TimesDistributes(b, b');
    TimesDistributes(c, c');
    TimesDistributes(d, d');
    AddInterchange(Times(a, 0xe), Times(a', 0xe), Times(b, 0xb), Times(b', 0xb));
    AddInterchange(Times(c, 0xd), Times(c', 0xd), Times(d, 0x9), Times(d', 0x9));
    AddInterchange(Add(Times(a, 0xe), Times(b, 0xb)), Add(Times(a', 0xe), Times(b', 0xb)),
                   Add(Times(c, 0xd), Times(d, 0x9)), Add(Times(c', 0xd), Times(d', 0x9)));
  }

  // The first row of one matrix applied to the product of the other with a column.
  function Roundtrip(a: bv8, b: bv8, c: bv8, d: bv8): bv8 {
    InvMixRow(MixRow(a, b, c, d), MixRow(b, c, d, a), MixRow(c, d, a, b), MixRow(d, a, b, c))
  }

  function InvRoundtrip(a: bv8, b: bv8, c: bv8, d: bv8): bv8 {
    MixRow(InvMixRow(a, b, c, d), InvMixRow(b, c, d, a), InvMixRow(c, d, a, b), InvMixRow(d, a, b, c))
  }

  lemma RoundtripLinear(a: bv8, b: bv8, c: bv8, d: bv8, a': bv8, b': bv8, c': bv8, d': bv8)
    ensures Roundtrip(Add(a, a'), Add(b, b'), Add(c, c'), Add(d, d')) ==
            Add(Roundtrip(a, b, c, d), Roundtrip(a', b', c', d'))
    ensures InvRoundtrip(Add(a, a'), Add(b, b'), Add(c, c'), Add(d, d')) ==
            Add(InvRoundtrip(a, b, c, d), InvRoundtrip(a', b', c', d'))
  {
    hide MixRow, InvMixRow, Add;
    MixRowLinear(a, b, c, d, a', b', c', d');
    MixRowLinear(b, c, d, a, b', c', d', a');
    MixRowLinear(c, d, a, b, c', d', a', b');
    MixRowLinear(d, a, b, c, d', a', b', c');
    InvMixRowLinear(MixRow(a, b, c, d), MixRow(b, c, d, a), MixRow(c, d, a, b), MixRow(d, a, b, c),
                    MixRow(a', b', c', d'), MixRow(b', c', d', a'), MixRow(c', d', a', b'), MixRow(d', a', b', c'));
    InvMixRowLinear(a, b, c, d, a', b', c', d');
    InvMixRowLinear(b, c, d, a, b', c', d', a');
    InvMixRowLinear(c, d, a, b, c', d', a', b');
    InvMixRowLinear(d, a, b, c, d', a', b', c');
    MixRowLinear(InvMixRow(a, b, c, d), InvMixRow(b, c, d, a), InvMixRow(c, d, a, b), InvMixRow(d, a, b, c),
                 InvMixRow(a', b', c', d'), InvMixRow(b', c', d', a'),
                 InvMixRow(c', d', a', b'), InvMixRow(d', a', b', c'));
  }

  lemma AddZero(x: bv8)
    ensures Add(x, 0) == Add(0, x) == x
  {
  }

  lemma MixRowOfUnit(x: bv8)
    ensures MixRow(x, 0, 0, 0) == Xtime(x)
    ensures MixRow(0, x, 0, 0) == Add(Xtime(x), x)
    ensures MixRow(0, 0, x, 0) == MixRow(0, 0, 0, x) == x
  {
    assert Times(0, 0x2) == Times(0, 0x3) == 0;
    hide Times, Xtime, Add;
    TimesByXtime(x);
    AddZero(0);
    AddZero(x);
    AddZero(Xtime(x));
    AddZero(Add(Xtime(x), x));
  }

  lemma InvMixRowOfUnit(x: bv8)
    ensures InvMixRow(x, 0, 0, 0) == Times(x, 0xe)
    ensures InvMixRow(0, x, 0, 0) == Times(x, 0xb)
    ensures InvMixRow(0, 0, x, 0) == Times(x, 0xd)
    ensures InvMixRow(0, 0, 0, x) == Times(x, 0x9)
  {
    assert Times(0, 0x9) == Times(0, 0xb) == Times(0, 0xd) == Times(0, 0xe) == 0;
  }

  lemma TimesCommute(x: bv8)
    ensures Times(Xtime(x), 0x9) == Xtime(Times(x, 0x9))
    ensures Times(Xtime(x), 0xb) == Xtime(Times(x, 0xb))
    ensures Times(Xtime(x), 0xd) == Xtime(Times(x, 0xd))
    ensures Times(Xtime(x), 0xe) == Xtime(Times(x, 0xe))
  {
    hide Times, Xtime, Add;
    var (x1, x2, x3) := (Xtime(x), Xtime(Xtime(x)), Xtime(Xtime(Xtime(x))));
    TimesByXtime(x);
    TimesByXtime(x1);
    XtimeLinear(x, x3);
    XtimeLinear(x, x1);
    XtimeLinear(Add(x, x1), x3);
    XtimeLinear(x, x2);
    XtimeLinear(Add(x, x2), x3);
    XtimeLinear(x1, x2);
    XtimeLinear(Add(x1, x2), x3);
  }

  lemma UnitOnDiagonal(x: bv8)
    ensures InvRoundtrip(x, 0, 0, 0) == x
  {
  }

  lemma UnitOneAfter(x: bv8)
    ensures InvRoundtrip(0, x, 0, 0) == 0
  {
  }

  lemma UnitTwoAfter(x: bv8)
    ensures InvRoundtrip(0, 0, x, 0) == 0
  {
  }

  lemma UnitThreeAfter(x: bv8)
    ensures InvRoundtrip(0, 0, 0, x) == 0
  {
  }

  lemma RoundtripOfUnit(x: bv8)
    ensures Roundtrip(x, 0, 0, 0) == InvRoundtrip(x, 0, 0, 0)
    ensures Roundtrip(0, x, 0, 0) == InvRoundtrip(0, x, 0, 0)
    ensures Roundtrip(0, 0, x, 0) == InvRoundtrip(0, 0, x, 0)
    ensures Roundtrip(0, 0, 0, x) == InvRoundtrip(0, 0, 0, x)
  {
    hide Times, Xtime, Add;
    MixRowOfUnit(x);
    InvMixRowOfUnit(x);
    var (x1, e, b, d, n) := (Xtime(x), Times(x, 0xe), Times(x, 0xb), Times(x, 0xd), Times(x, 0x9));
    TimesCommute(x);
    TimesDistributes(x1, x);
    TimesByXtime(e);
    TimesByXtime(b);
    TimesByXtime(d);
    TimesByXtime(n);
    AddRearrange(Xtime(e), b, d, Add(Xtime(n), n));
    AddRearrange(Add(Xtime(e), e), Xtime(b), d, n);
    AddRearrange(e, Add(Xtime(b), b), Xtime(d), n);
    AddRearrange(e, b, Add(Xtime(d), d), Xtime(n));
  }

  // The two circulant matrices are inverse to each other, in both orders.
  lemma MatricesAreInverse(a: bv8, b: bv8, c: bv8, d: bv8)
    ensures Roundtrip(a, b, c, d) == a
    ensures InvRoundtrip(a, b, c, d) == a
  {
    hide Roundtrip, InvRoundtrip, Add;
    AddZero(0);
    AddZero(a);
    AddZero(b);
    AddZero(c);
    AddZero(d);
    RoundtripLinear(a, 0, 0, 0, 0, b, 0, 0);
    RoundtripLinear(0, 0, c, 0, 0, 0, 0, d);
    RoundtripLinear(a, b, 0, 0, 0, 0, c, d);
    RoundtripOfUnit(a);
    RoundtripOfUnit(b);
    RoundtripOfUnit(c);
    RoundtripOfUnit(d);
    UnitOnDiagonal(a);
    UnitOneAfter(b);
    UnitTwoAfter(c);
    UnitThreeAfter(d);
  }
}
