// The byte loops of aes.c: each works in place on the sixteen bytes of a buffer
// that start at an offset, which is where the C code points its state.
module AesBlock {
  import opened AesTables
  import opened AesField
  import opened AesCipher

  // Nothing but the block at o has changed.
  predicate OnlyBlock(before: seq<bv8>, after: seq<bv8>, o: nat)
    requires o + 16 <= |before|
  {
    |after| == |before| && after[..o] == before[..o] && after[o + 16..] == before[o + 16..]
  }

  method AddRoundKey(round: nat, buf: array<bv8>, o: nat, roundKey: array<bv8>)
    requires round <= NR && roundKey.Length == 240 && o + 16 <= buf.Length && buf != roundKey
    modifies buf
    ensures OnlyBlock(old(buf[..]), buf[..], o)
    ensures Load(buf[..], o) == AddKey(old(Load(buf[..], o)), roundKey[..], round)
  {
    hide Add;
    for i := 0 to 4
      invariant OnlyBlock(old(buf[..]), buf[..], o)
      invariant forall a | o <= a < o + 16 ::
        buf[a] == if a < o + 4 * i then Add(old(buf[a]), roundKey[16 * round + a - o]) else old(buf[a])
    {
      for j := 0 to 4
        invariant OnlyBlock(old(buf[..]), buf[..], o)
        invariant forall a | o <= a < o + 16 ::
          buf[a] == if a < o + 4 * i + j then Add(old(buf[a]), roundKey[16 * round + a - o]) else old(buf[a])
      {
        buf[o + 4 * i + j] := Add(buf[o + 4 * i + j], roundKey[round * NB * 4 + i * NB + j]);
      }
    }
  }

  method SubBytes(buf: array<bv8>, o: nat)
    requires o + 16 <= buf.Length
    modifies buf
    ensures OnlyBlock(old(buf[..]), buf[..], o)
    ensures Load(buf[..], o) == Sub(old(Load(buf[..], o)))
  {
    hide SBox;
    for i := 0 to 4
      invariant OnlyBlock(old(buf[..]), buf[..], o)
      invariant forall a | o <= a < o + 16 ::
        buf[a] == if (a - o) % 4 < i then SBox(old(buf[a])) else old(buf[a])
    {
      for j := 0 to 4
        invariant OnlyBlock(old(buf[..]), buf[..], o)
        invariant forall a | o <= a < o + 16 ::
          buf[a] == if (a - o) % 4 < i || ((a - o) % 4 == i && (a - o) / 4 < j) then SBox(old(buf[a])) else old(buf[a])
      {
        buf[o + 4 * j + i] := SBox(buf[o + 4 * j + i]);
      }
    }
  }

  // The rows of ShiftRows rotate to the left by one, two and three columns.
  method ShiftRowsFirst(buf: array<bv8>, o: nat)
    requires o + 16 <= buf.Length
    modifies buf
    ensures buf[o + 1] == old(buf[o + 5])
    ensures buf[o + 5] == old(buf[o + 9])
    ensures buf[o + 9] == old(buf[o + 13])
    ensures buf[o + 13] == old(buf[o + 1])
    ensures forall a | 0 <= a < buf.Length && a !in {o + 1, o + 5, o + 9, o + 13} :: buf[a] == old(buf[a])
  {
    var temp := buf[o + 1];
    buf[o + 1] := buf[o + 5];
    buf[o + 5] := buf[o + 9];
    buf[o + 9] := buf[o + 13];
    buf[o + 13] := temp;
  }

  method ShiftRowsSecond(buf: array<bv8>, o: nat)
    requires o + 16 <= buf.Length
    modifies buf
    ensures buf[o + 2] == old(buf[o + 10])
    ensures buf[o + 6] == old(buf[o + 14])
    ensures buf[o + 10] == old(buf[o + 2])
    ensures buf[o + 14] == old(buf[o + 6])
    ensures forall a | 0 <= a < buf.Length && a !in {o + 2, o + 6, o + 10, o + 14} :: buf[a] == old(buf[a])
  {
    var temp := buf[o + 2];
    buf[o + 2] := buf[o + 10];
    buf[o + 10] := temp;

    temp := buf[o + 6];
    buf[o + 6] := buf[o + 14];
    buf[o + 14] := temp;
  }

  method ShiftRowsThird(buf: array<bv8>, o: nat)
    requires o + 16 <= buf.Length
    modifies buf
    ensures buf[o + 3] == old(buf[o + 15])
    ensures buf[o + 7] == old(buf[o + 3])
    ensures buf[o + 11] == old(buf[o + 7])
    ensures buf[o + 15] == old(buf[o + 11])
    ensures forall a | 0 <= a < buf.Length && a !in {o + 3, o + 7, o + 11, o + 15} :: buf[a] == old(buf[a])
  {
    var temp := buf[o + 3];
    buf[o + 3] := buf[o + 15];
    buf[o + 15] := buf[o + 11];
    buf[o + 11] := buf[o + 7];
    buf[o + 7] := temp;
  }

  method ShiftRows(buf: array<bv8>, o: nat)
    requires o + 16 <= buf.Length
    modifies buf
    ensures OnlyBlock(old(buf[..]), buf[..], o)
    ensures Load(buf[..], o) == Shift(old(Load(buf[..], o)))
  {
    ShiftRowsFirst(buf, o);
    ShiftRowsSecond(buf, o);
    ShiftRowsThird(buf, o);
  }

  method InvSubBytes(buf: array<bv8>, o: nat)
    requires o + 16 <= buf.Length
    modifies buf
    ensures OnlyBlock(old(buf[..]), buf[..], o)
    ensures Load(buf[..], o) == InvSub(old(Load(buf[..], o)))
  {
    hide InvSBox;
    for i := 0 to 4
      invariant OnlyBlock(old(buf[..]), buf[..], o)
      invariant forall a | o <= a < o + 16 ::
        buf[a] == if (a - o) % 4 < i then InvSBox(old(buf[a])) else old(buf[a])
    {
      for j := 0 to 4
        invariant OnlyBlock(old(buf[..]), buf[..], o)
        invariant forall a | o <= a < o + 16 ::
          buf[a] == if (a - o) % 4 < i || ((a - o) % 4 == i && (a - o) / 4 < j) then InvSBox(old(buf[a]))
                    else old(buf[a])
      {
        buf[o + 4 * j + i] := InvSBox(buf[o + 4 * j + i]);
      }
    }
  }

  // The rows of InvShiftRows rotate to the right by one, two and three columns.
  method InvShiftRowsFirst(buf: array<bv8>, o: nat)
    requires o + 16 <= buf.Length
    modifies buf
    ensures buf[o + 1] == old(buf[o + 13])
    ensures buf[o + 5] == old(buf[o + 1])
    ensures buf[o + 9] == old(buf[o + 5])
    ensures buf[o + 13] == old(buf[o + 9])
    ensures forall a | 0 <= a < buf.Length && a !in {o + 1, o + 5, o + 9, o + 13} :: buf[a] == old(buf[a])
  {
    var temp := buf[o + 13];
    buf[o + 13] := buf[o + 9];
    buf[o + 9] := buf[o + 5];
    buf[o + 5] := buf[o + 1];
    buf[o + 1] := temp;
  }

  method InvShiftRowsSecond(buf: array<bv8>, o: nat)
    requires o + 16 <= buf.Length
    modifies buf
    ensures buf[o + 2] == old(buf[o + 10])
    ensures buf[o + 6] == old(buf[o + 14])
    ensures buf[o + 10] == old(buf[o + 2])
    ensures buf[o + 14] == old(buf[o + 6])
    ensures forall a | 0 <= a < buf.Length && a !in {o + 2, o + 6, o + 10, o + 14} :: buf[a] == old(buf[a])
  {
    var temp := buf[o + 2];
    buf[o + 2] := buf[o + 10];
    buf[o + 10] := temp;

    temp := buf[o + 6];
    buf[o + 6] := buf[o + 14];
    buf[o + 14] := temp;
  }

  method InvShiftRowsThird(buf: array<bv8>, o: nat)
    requires o + 16 <= buf.Length
    modifies buf
    ensures buf[o + 3] == old(buf[o + 7])
    ensures buf[o + 7] == old(buf[o + 11])
    ensures buf[o + 11] == old(buf[o + 15])
    ensures buf[o + 15] == old(buf[o + 3])
    ensures forall a | 0 <= a < buf.Length && a !in {o + 3, o + 7, o + 11, o + 15} :: buf[a] == old(buf[a])
  {
    var temp := buf[o + 3];
    buf[o + 3] := buf[o + 7];
    buf[o + 7] := buf[o + 11];
    buf[o + 11] := buf[o + 15];
    buf[o + 15] := temp;
  }

  method InvShiftRows(buf: array<bv8>, o: nat)
    requires o + 16 <= buf.Length
    modifies buf
    ensures OnlyBlock(old(buf[..]), buf[..], o)
    ensures Load(buf[..], o) == InvShift(old(Load(buf[..], o)))
  {
    InvShiftRowsFirst(buf, o);
    InvShiftRowsSecond(buf, o);
    InvShiftRowsThird(buf, o);
  }

  // What one line of MixColumns leaves in its byte is a row of the matrix.
  // The exclusive ors of MixColumns are written with AesField.Add.
  lemma MixRowByXtime(a: bv8, b: bv8, c: bv8, d: bv8)
    ensures Add(a, Add(Xtime(Add(a, b)), Add(Add(Add(a, b), c), d))) == MixRow(a, b, c, d)
  {
    hide Times, Xtime, Add;
    var (xa, xb, rest) := (Xtime(a), Xtime(b), Add(b, Add(c, d)));
    TimesByXtime(a);
    TimesByXtime(b);
    XtimeLinear(a, b);
    AddAssociates(Add(a, b), c, d);
    AddAssociates(a, b, Add(c, d));
    AddCancels(a, Add(xa, xb), rest);
    AddAssociates(Add(xa, xb), b, Add(c, d));
    AddAssociates(xa, xb, b);
  }

  lemma AddCancels(a: bv8, x: bv8, y: bv8)
    ensures Add(a, Add(x, Add(a, y))) == Add(x, y)
  {
    hide Add;
    AddCommutes(a, y);
    AddAssociates(x, y, a);
    AddCommutes(a, Add(Add(x, y), a));
    AddTwice(Add(x, y), a);
  }

  lemma AddRotate(a: bv8, b: bv8, c: bv8, d: bv8)
    ensures Add(Add(Add(a, b), c), d) == Add(Add(Add(b, c), d), a)
  {
    hide Add;
    AddAssociates(a, b, c);
    AddAssociates(a, Add(b, c), d);
    AddCommutes(a, Add(Add(b, c), d));
  }

  lemma MixColumnByXtime(a: bv8, b: bv8, c: bv8, d: bv8)
    ensures var mix := Add(Add(Add(a, b), c), d);
            && Add(a, Add(Xtime(Add(a, b)), mix)) == MixRow(a, b, c, d)
            && Add(b, Add(Xtime(Add(b, c)), mix)) == MixRow(b, c, d, a)
            && Add(c, Add(Xtime(Add(c, d)), mix)) == MixRow(c, d, a, b)
            && Add(d, Add(Xtime(Add(d, a)), mix)) == MixRow(d, a, b, c)
  {
    hide MixRow, Xtime, Add;
    AddRotate(a, b, c, d);
    AddRotate(b, c, d, a);
    AddRotate(c, d, a, b);
    MixRowByXtime(a, b, c, d);
    MixRowByXtime(b, c, d, a);
    MixRowByXtime(c, d, a, b);
    MixRowByXtime(d, a, b, c);
  }

  // A change inside column i of the block at o leaves the other columns and the rest alone.
  lemma OtherColumns(before: seq<bv8>, after: seq<bv8>, o: nat, i: nat)
    requires i < 4 && o + 16 <= |before| == |after|
    requires after[..o + 4 * i] == before[..o + 4 * i] && after[o + 4 * i + 4..] == before[o + 4 * i + 4..]
    ensures OnlyBlock(before, after, o)
    ensures i != 0 ==> LoadColumn(after, o) == LoadColumn(before, o)
    ensures i != 1 ==> LoadColumn(after, o + 4) == LoadColumn(before, o + 4)
    ensures i != 2 ==> LoadColumn(after, o + 8) == LoadColumn(before, o + 8)
    ensures i != 3 ==> LoadColumn(after, o + 12) == LoadColumn(before, o + 12)
  {
    var p := o + 4 * i;
    assert forall k | 0 <= k < p :: after[k] == after[..p][k] == before[..p][k] == before[k];
    assert forall k | p + 4 <= k < |after| ::
             after[k] == after[p + 4..][k - p - 4] == before[p + 4..][k - p - 4] == before[k];
  }

  method MixColumns(buf: array<bv8>, o: nat)
    requires o + 16 <= buf.Length
    modifies buf
    ensures OnlyBlock(old(buf[..]), buf[..], o)
    ensures Load(buf[..], o) == Mix(old(Load(buf[..], o)))
  {
    hide MixColumn, LoadColumn;
    ghost var s := Load(buf[..], o);
    for i := 0 to 4
      invariant OnlyBlock(old(buf[..]), buf[..], o)
      invariant LoadColumn(buf[..], o) == if i > 0 then MixColumn(s.c0) else s.c0
      invariant LoadColumn(buf[..], o + 4) == if i > 1 then MixColumn(s.c1) else s.c1
      invariant LoadColumn(buf[..], o + 8) == if i > 2 then MixColumn(s.c2) else s.c2
      invariant LoadColumn(buf[..], o + 12) == if i > 3 then MixColumn(s.c3) else s.c3
    {
      ghost var before := buf[..];
      MixOneColumn(buf, o + 4 * i);
      OtherColumns(before, buf[..], o, i);
    }
  }

  // The body of the loop of MixColumns.
  method MixOneColumn(buf: array<bv8>, p: nat)
    requires p + 4 <= buf.Length
    modifies buf
    ensures buf[..p] == old(buf[..p]) && buf[p + 4..] == old(buf[p + 4..])
    ensures LoadColumn(buf[..], p) == MixColumn(old(LoadColumn(buf[..], p)))
  {
    hide Xtime, MixRow, Add;
    MixColumnByXtime(buf[p], buf[p + 1], buf[p + 2], buf[p + 3]);
    var t := buf[p];
    var mix := Add(Add(Add(buf[p], buf[p + 1]), buf[p + 2]), buf[p + 3]);
    var tm := Add(buf[p], buf[p + 1]);
    tm := Xtime(tm);
    buf[p] := Add(buf[p], Add(tm, mix));
    tm := Add(buf[p + 1], buf[p + 2]);
    tm := Xtime(tm);
    buf[p + 1] := Add(buf[p + 1], Add(tm, mix));
    tm := Add(buf[p + 2], buf[p + 3]);
    tm := Xtime(tm);
    buf[p + 2] := Add(buf[p + 2], Add(tm, mix));
    tm := Add(buf[p + 3], t);
    tm := Xtime(tm);
    buf[p + 3] := Add(buf[p + 3], Add(tm, mix));
  }

  lemma InvMixRowByMultiply(a: bv8, b: bv8, c: bv8, d: bv8)
    ensures var (x, y, z, w) := (Multiply(a, 0x0e), Multiply(b, 0x0b), Multiply(c, 0x0d), Multiply(d, 0x09));
            && Add(Add(Add(x, y), z), w) == Add(Add(Add(y, z), w), x)
            && Add(Add(Add(x, y), z), w) == Add(Add(Add(z, w), x), y)
            && Add(Add(Add(x, y), z), w) == Add(Add(Add(w, x), y), z)
            && Add(Add(Add(x, y), z), w) == InvMixRow(a, b, c, d)
  {
    hide Times, Multiply, Add;
    MultiplyIsFieldProduct(a);
    MultiplyIsFieldProduct(b);
    MultiplyIsFieldProduct(c);
    MultiplyIsFieldProduct(d);
    var (x, y, z, w) := (Multiply(a, 0x0e), Multiply(b, 0x0b), Multiply(c, 0x0d), Multiply(d, 0x09));
    AddAssociates(Add(x, y), z, w);
    AddRotate(x, y, z, w);
    AddRotate(y, z, w, x);
    AddRotate(z, w, x, y);
  }

  method InvMixColumns(buf: array<bv8>, o: nat)
    requires o + 16 <= buf.Length
    modifies buf
    ensures OnlyBlock(old(buf[..]), buf[..], o)
    ensures Load(buf[..], o) == InvMix(old(Load(buf[..], o)))
  {
    hide InvMixRow, Multiply, Add;
    ghost var s := Load(buf[..], o);
    for i := 0 to 4
      invariant OnlyBlock(old(buf[..]), buf[..], o)
      invariant LoadColumn(buf[..], o) == if i > 0 then InvMixColumn(s.c0) else s.c0
      invariant LoadColumn(buf[..], o + 4) == if i > 1 then InvMixColumn(s.c1) else s.c1
      invariant LoadColumn(buf[..], o + 8) == if i > 2 then InvMixColumn(s.c2) else s.c2
      invariant LoadColumn(buf[..], o + 12) == if i > 3 then InvMixColumn(s.c3) else s.c3
    {
      var (a, b, c, d) := (buf[o + 4 * i], buf[o + 4 * i + 1], buf[o + 4 * i + 2], buf[o + 4 * i + 3]);
      InvMixRowByMultiply(a, b, c, d);
      InvMixRowByMultiply(b, c, d, a);
      InvMixRowByMultiply(c, d, a, b);
      InvMixRowByMultiply(d, a, b, c);
      buf[o + 4 * i] := Add(Add(Add(Multiply(a, 0x0e), Multiply(b, 0x0b)), Multiply(c, 0x0d)), Multiply(d, 0x09));
      buf[o + 4 * i + 1] := Add(Add(Add(Multiply(a, 0x09), Multiply(b, 0x0e)), Multiply(c, 0x0b)), Multiply(d, 0x0d));
      buf[o + 4 * i + 2] := Add(Add(Add(Multiply(a, 0x0d), Multiply(b, 0x09)), Multiply(c, 0x0e)), Multiply(d, 0x0b));
      buf[o + 4 * i + 3] := Add(Add(Add(Multiply(a, 0x0b), Multiply(b, 0x0d)), Multiply(c, 0x09)), Multiply(d, 0x0e));
    }
  }

  method Cipher(buf: array<bv8>, o: nat, roundKey: array<bv8>)
    requires roundKey.Length == 240 && o + 16 <= buf.Length && buf != roundKey
    modifies buf
    ensures OnlyBlock(old(buf[..]), buf[..], o)
    ensures Load(buf[..], o) == Encrypt(old(Load(buf[..], o)), roundKey[..])
  {
    hide Sub, Shift, Mix, Load, Xor;
    AddRoundKey(0, buf, o, roundKey);
    var round := 1;
    while true
      invariant 1 <= round <= NR
      invariant OnlyBlock(old(buf[..]), buf[..], o)
      invariant Load(buf[..], o) == Rounds(old(Load(buf[..], o)), roundKey[..], round - 1)
      decreases NR - round
    {
      SubBytes(buf, o);
      ShiftRows(buf, o);
      if round == NR {
        break;
      }
      MixColumns(buf, o);
      AddRoundKey(round, buf, o, roundKey);
      round := round + 1;
    }
    AddRoundKey(NR, buf, o, roundKey);
  }

  method InvCipher(buf: array<bv8>, o: nat, roundKey: array<bv8>)
    requires roundKey.Length == 240 && o + 16 <= buf.Length && buf != roundKey
    modifies buf
    ensures OnlyBlock(old(buf[..]), buf[..], o)
    ensures Load(buf[..], o) == Decrypt(old(Load(buf[..], o)), roundKey[..])
  {
    hide InvSub, InvShift, InvMix, Load, Xor;
    AddRoundKey(NR, buf, o, roundKey);
    var round := NR - 1;
    while true
      invariant 0 <= round < NR
      invariant OnlyBlock(old(buf[..]), buf[..], o)
      invariant InvRounds(Load(buf[..], o), roundKey[..], round) == Decrypt(old(Load(buf[..], o)), roundKey[..])
      decreases round
    {
      InvShiftRows(buf, o);
      InvSubBytes(buf, o);
      AddRoundKey(round, buf, o, roundKey);
      if round == 0 {
        break;
      }
      InvMixColumns(buf, o);
      round := round - 1;
    }
  }
}
