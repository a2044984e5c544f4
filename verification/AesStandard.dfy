// What ties the cipher to FIPS 197: the bytes of the state after every round, and the key schedule
// of appendix A.3.
module AesStandard {
  import opened AesTables
  import opened AesField
  import opened AesCipher
  import opened AesContext
  import opened AesCbc
  import opened AesCtr
  import opened Bytes

  type Bytes16 = s: seq<bv8> | |s| == 16 witness seq(16, _ => 0)

  // ---- The rounds, byte by byte ----

  // Four bytes of a column after MixColumns and AddRoundKey, sections 5.1.3 and 5.1.4. Two times a
  // byte is Xtime, and three times is that and the byte.
  predicate IsMixed(u: Bytes16, rk: RoundKeys, at: nat, k: nat, b0: bv8, b1: bv8, b2: bv8, b3: bv8)
    requires k + 4 <= 16 && at <= 224
  {
    && u[k] == Add(Add(Add(Xtime(b0), Add(Xtime(b1), b1)), Add(b2, b3)), rk[at + k])
    && u[k + 1] == Add(Add(Add(Xtime(b1), Add(Xtime(b2), b2)), Add(b3, b0)), rk[at + k + 1])
    && u[k + 2] == Add(Add(Add(Xtime(b2), Add(Xtime(b3), b3)), Add(b0, b1)), rk[at + k + 2])
    && u[k + 3] == Add(Add(Add(Xtime(b3), Add(Xtime(b0), b0)), Add(b1, b2)), rk[at + k + 3])
  }

  // Round r: every byte is substituted, row j turns by j columns, and the columns are mixed.
  predicate IsRound(t: Bytes16, u: Bytes16, rk: RoundKeys, r: nat)
    requires r <= 14
  {
    && IsMixed(u, rk, 16 * r, 0, SBox(t[0]), SBox(t[5]), SBox(t[10]), SBox(t[15]))
    && IsMixed(u, rk, 16 * r, 4, SBox(t[4]), SBox(t[9]), SBox(t[14]), SBox(t[3]))
    && IsMixed(u, rk, 16 * r, 8, SBox(t[8]), SBox(t[13]), SBox(t[2]), SBox(t[7]))
    && IsMixed(u, rk, 16 * r, 12, SBox(t[12]), SBox(t[1]), SBox(t[6]), SBox(t[11]))
  }

  // The last round does not mix.
  predicate IsLastRound(t: Bytes16, u: Bytes16, rk: RoundKeys) {
    && u[0] == Add(SBox(t[0]), rk[224]) && u[1] == Add(SBox(t[5]), rk[225])
    && u[2] == Add(SBox(t[10]), rk[226]) && u[3] == Add(SBox(t[15]), rk[227])
    && u[4] == Add(SBox(t[4]), rk[228]) && u[5] == Add(SBox(t[9]), rk[229])
    && u[6] == Add(SBox(t[14]), rk[230]) && u[7] == Add(SBox(t[3]), rk[231])
    && u[8] == Add(SBox(t[8]), rk[232]) && u[9] == Add(SBox(t[13]), rk[233])
    && u[10] == Add(SBox(t[2]), rk[234]) && u[11] == Add(SBox(t[7]), rk[235])
    && u[12] == Add(SBox(t[12]), rk[236]) && u[13] == Add(SBox(t[1]), rk[237])
    && u[14] == Add(SBox(t[6]), rk[238]) && u[15] == Add(SBox(t[11]), rk[239])
  }

  predicate IsStart(t: Bytes16, u: Bytes16, rk: RoundKeys) {
    forall k | 0 <= k < 16 :: u[k] == Add(t[k], rk[k])
  }

  // The states of a run of the cipher on a block.
  predicate AreStates(block: Bytes16, v: seq<Bytes16>, rk: RoundKeys) {
    && |v| == 15 && IsStart(block, v[0], rk)
    && (forall r | 0 < r < 14 :: IsRound(v[r - 1], v[r], rk, r))
    && IsLastRound(v[13], v[14], rk)
  }

  lemma StartIs(t: Bytes16, u: Bytes16, rk: RoundKeys)
    requires IsStart(t, u, rk)
    ensures Load(u, 0) == AddKey(Load(t, 0), rk, 0)
  {
    hide Add;
  }

  lemma MixedIs(u: Bytes16, rk: RoundKeys, at: nat, k: nat, c: Column)
    requires k + 4 <= 16 && at <= 224 && IsMixed(u, rk, at, k, c.b0, c.b1, c.b2, c.b3)
    ensures LoadColumn(u, k) == XorColumn(MixColumn(c), LoadColumn(rk, at + k))
  {
    hide Add, Times, Xtime;
    XtimeIsFieldProduct(c.b0);
    XtimeIsFieldProduct(c.b1);
    XtimeIsFieldProduct(c.b2);
    XtimeIsFieldProduct(c.b3);
  }

  lemma RoundIs(t: Bytes16, u: Bytes16, rk: RoundKeys, r: nat)
    requires r <= 14 && IsRound(t, u, rk, r)
    ensures Load(u, 0) == AddKey(Mix(Shift(Sub(Load(t, 0)))), rk, r)
  {
    hide Add, SBox, IsMixed, MixColumn;
    var s := Shift(Sub(Load(t, 0)));
    MixedIs(u, rk, 16 * r, 0, s.c0);
    MixedIs(u, rk, 16 * r, 4, s.c1);
    MixedIs(u, rk, 16 * r, 8, s.c2);
    MixedIs(u, rk, 16 * r, 12, s.c3);
  }

  lemma LastRoundIs(t: Bytes16, u: Bytes16, rk: RoundKeys)
    requires IsLastRound(t, u, rk)
    ensures Load(u, 0) == AddKey(Shift(Sub(Load(t, 0))), rk, 14)
  {
    hide Add, SBox;
  }

  lemma {:induction false} StatesAre(block: Bytes16, v: seq<Bytes16>, rk: RoundKeys, r: nat)
    requires AreStates(block, v, rk) && r < 14
    ensures Load(v[r], 0) == Rounds(Load(block, 0), rk, r)
  {
    hide IsRound, IsLastRound, IsStart, Load, AddKey, Mix, Shift, Sub;
    if r == 0 {
      StartIs(block, v[0], rk);
    } else {
      StatesAre(block, v, rk, r - 1);
      assert IsRound(v[r - 1], v[r], rk, r);
      RoundIs(v[r - 1], v[r], rk, r);
    }
  }

  // The cipher of section 5.1: its result is the last of the states.
  lemma EncryptIsFips(block: Bytes16, v: seq<Bytes16>, rk: RoundKeys)
    requires AreStates(block, v, rk)
    ensures Store(Encrypt(Load(block, 0), rk)) == v[14]
  {
    StatesAre(block, v, rk, 13);
    LastRoundIs(v[13], v[14], rk);
    hide Rounds, AddKey, Sub, Shift, IsRound, IsLastRound, IsStart;
    StoreLoads(v[14]);
  }

  lemma StoreLoads(b: Bytes16)
    ensures Store(Load(b, 0)) == b
  {
  }

  // ---- Appendix A.3 ----

  lemma ExampleBytes()
    ensures Add(0x60, Add(SBox(0x14), XPower(0))) == 0x9b && Add(0x3d, SBox(0xdf)) == 0xa3
    ensures Add(0xeb, SBox(0xf4)) == 0x54 && Add(0x10, SBox(0x9)) == 0x11
    ensures Add(0x15, 0x9b) == 0x8e && Add(0xca, 0xa3) == 0x69
    ensures Add(0x71, 0x54) == 0x25 && Add(0xbe, 0x11) == 0xaf
    ensures Add(0x2b, 0x8e) == 0xa5 && Add(0x73, 0x69) == 0x1a
    ensures Add(0xae, 0x25) == 0x8b && Add(0xf0, 0xaf) == 0x5f
    ensures Add(0x85, 0xa5) == 0x20 && Add(0x7d, 0x1a) == 0x67
    ensures Add(0x77, 0x8b) == 0xfc && Add(0x81, 0x5f) == 0xde
    ensures Add(0x1f, SBox(0x20)) == 0xa8 && Add(0x35, SBox(0x67)) == 0xb0
    ensures Add(0x2c, SBox(0xfc)) == 0x9c && Add(0x7, SBox(0xde)) == 0x1a
  {
  }

  // The key of the appendix, and words 8 to 12 of its schedule; the last needs SubWord alone.
  lemma ExampleKey(rk: RoundKeys)
    requires rk[0] == 0x60 && rk[1] == 0x3d && rk[2] == 0xeb && rk[3] == 0x10
    requires rk[4] == 0x15 && rk[5] == 0xca && rk[6] == 0x71 && rk[7] == 0xbe
    requires rk[8] == 0x2b && rk[9] == 0x73 && rk[10] == 0xae && rk[11] == 0xf0
    requires rk[12] == 0x85 && rk[13] == 0x7d && rk[14] == 0x77 && rk[15] == 0x81
    requires rk[16] == 0x1f && rk[17] == 0x35 && rk[18] == 0x2c && rk[19] == 0x7
    requires rk[20] == 0x3b && rk[21] == 0x61 && rk[22] == 0x8 && rk[23] == 0xd7
    requires rk[24] == 0x2d && rk[25] == 0x98 && rk[26] == 0x10 && rk[27] == 0xa3
    requires rk[28] == 0x9 && rk[29] == 0x14 && rk[30] == 0xdf && rk[31] == 0xf4
    requires forall i | 8 <= i < 60 :: IsKeyWord(rk, i)
    ensures rk[32] == 0x9b && rk[33] == 0xa3 && rk[34] == 0x54 && rk[35] == 0x11
    ensures rk[36] == 0x8e && rk[37] == 0x69 && rk[38] == 0x25 && rk[39] == 0xaf
    ensures rk[40] == 0xa5 && rk[41] == 0x1a && rk[42] == 0x8b && rk[43] == 0x5f
    ensures rk[44] == 0x20 && rk[45] == 0x67 && rk[46] == 0xfc && rk[47] == 0xde
    ensures rk[48] == 0xa8 && rk[49] == 0xb0 && rk[50] == 0x9c && rk[51] == 0x1a
  {
    hide SBox, Add, XPower;
    ExampleBytes();
    assert IsKeyWord(rk, 8);
    assert IsKeyWord(rk, 9);
    assert IsKeyWord(rk, 10);
    assert IsKeyWord(rk, 11);
    assert IsKeyWord(rk, 12);
  }

  // ---- The modes ----

  // Adding states adds their bytes.
  lemma XorIs(a: Bytes16, b: Bytes16, c: Bytes16)
    requires Load(c, 0) == Xor(Load(a, 0), Load(b, 0))
    ensures c[0] == Add(a[0], b[0]) && c[1] == Add(a[1], b[1]) && c[2] == Add(a[2], b[2]) && c[3] == Add(a[3], b[3])
    ensures c[4] == Add(a[4], b[4]) && c[5] == Add(a[5], b[5]) && c[6] == Add(a[6], b[6]) && c[7] == Add(a[7], b[7])
    ensures c[8] == Add(a[8], b[8]) && c[9] == Add(a[9], b[9])
    ensures c[10] == Add(a[10], b[10]) && c[11] == Add(a[11], b[11])
    ensures c[12] == Add(a[12], b[12]) && c[13] == Add(a[13], b[13])
    ensures c[14] == Add(a[14], b[14]) && c[15] == Add(a[15], b[15])
  {
    hide Add;
  }

  // Section 6.2 of SP 800-38A: every block is combined with the ciphertext block before it, the
  // first one with the IV.
  lemma {:induction false} CbcBlock(enc: State -> State, iv: State, p: seq<bv8>, k: nat)
    requires |p| % 16 == 0 && 16 * k + 16 <= |p|
    ensures var c := CbcEncrypt(enc, iv, p);
            |c| == |p| && Load(c, 16 * k) == enc(Xor(Load(p, 16 * k), if k == 0 then iv else Load(c, 16 * k - 16)))
    decreases |p|
  {
    hide Xor, Load;
    var x := enc(Xor(Load(p, 0), iv));
    var rest := CbcEncrypt(enc, x, p[16..]);
    assert CbcEncrypt(enc, iv, p) == Store(x) + rest;
    LoadOfStore(x, rest);
    if k > 0 {
      CbcBlock(enc, x, p[16..], k - 1);
      LoadFrom(p, 16, 16 * k - 16);
      LoadAfter(Store(x), rest, 16 * k - 16);
      if k > 1 {
        LoadAfter(Store(x), rest, 16 * k - 32);
      }
    }
  }

  lemma LoadOfStore(x: State, rest: seq<bv8>)
    ensures Load(Store(x) + rest, 0) == x
  {
  }

  lemma LoadFrom(b: seq<bv8>, n: nat, o: nat)
    requires n + o + 16 <= |b|
    ensures Load(b[n..], o) == Load(b, n + o)
  {
  }

  lemma LoadAfter(front: seq<bv8>, b: seq<bv8>, o: nat)
    requires |front| == 16 && o + 16 <= |b|
    ensures Load(front + b, 16 + o) == Load(b, o)
  {
    LoadFrom(front + b, 16, o);
    assert (front + b)[16..] == b;
  }

  // Section 6.5: every byte is combined with the byte of the encrypted counter block whose number
  // is that of the IV plus the number of the block, modulo 2^128.
  lemma CtrIs(enc: State -> State, iv: seq<bv8>, data: seq<bv8>, i: nat, block: seq<bv8>)
    requires |iv| == |block| == 16 && i < |data|
    requires Value(AsBytes(block)) == (Value(AsBytes(iv)) + i / 16) % 0x1_0000_0000_0000_0000_0000_0000_0000_0000
    ensures CtrXcrypt(enc, iv, data)[i] == data[i] ^ Store(enc(Load(block, 0)))[i % 16]
  {
    hide Value, AsByte, Counter, Power256, Store, Load;
    var counter := Counter(iv, i / 16);
    CounterValue(iv, i / 16);
    SixteenBytes();
    ValueDetermines(AsBytes(block), AsBytes(counter));
    SameBits(block, counter);
  }

  lemma SixteenBytes()
    ensures Power256(16) == 0x1_0000_0000_0000_0000_0000_0000_0000_0000
  {
    assert Power256(4) == 0x1_0000_0000;
    assert Power256(8) == 0x1_0000_0000_0000_0000;
    assert Power256(12) == 0x1_0000_0000_0000_0000_0000_0000;
  }
}
