// The AES context of aes.c and its key expansion, FIPS 197 section 5.2.
module AesContext {
  import opened AesTables
  import opened AesField
  import opened AesCipher

  type Key = s: seq<bv8> | |s| == 32 witness seq(32, _ => 0)

  function RotWord(w: Column): Column {
    Column(w.b1, w.b2, w.b3, w.b0)
  }

  // What word i - 1 goes through before it is added to word i - NK.
  function MixWord(i: nat, w: Column): Column
    requires i < NB * (NR + 1)
  {
    if i % NK == 0 then XorColumn(SubColumn(RotWord(w)), Column(Rcon(i / NK), 0, 0, 0))
    else if i % NK == 4 then SubColumn(w)
    else w
  }

  // Word i of the key schedule.
  function KeyWord(key: Key, i: nat): Column
    requires i < NB * (NR + 1)
  {
    if i < NK then LoadColumn(key, 4 * i)
    else XorColumn(KeyWord(key, i - NK), MixWord(i, KeyWord(key, i - 1)))
  }

  // The round keys hold the schedule of the key.
  ghost predicate Expanded(rk: RoundKeys, key: Key) {
    forall i | 0 <= i < NB * (NR + 1) :: LoadColumn(rk, 4 * i) == KeyWord(key, i)
  }

  lemma SameWords(a: seq<bv8>, b: seq<bv8>, n: nat)
    requires 4 * n <= |a| && 4 * n <= |b|
    requires forall k | 0 <= k < 4 * n :: a[k] == b[k]
    ensures forall m | 0 <= m < n :: LoadColumn(b, 4 * m) == LoadColumn(a, 4 * m)
  {
  }

  lemma FirstWords(key: Key, roundKey: RoundKeys)
    requires forall k | 0 <= k < 4 * NK :: roundKey[k] == key[k]
    ensures forall m | 0 <= m < NK :: LoadColumn(roundKey, 4 * m) == KeyWord(key, m)
  {
    hide LoadColumn;
    SameWords(key, roundKey, NK);
  }

  // ---- The schedule byte by byte ----

  // Powers of x in the field.
  function XPower(n: nat): bv8 {
    if n == 0 then 1 else Times(XPower(n - 1), 2)
  }

  // Four bytes of the round keys are those at another place with these added.
  predicate Added(rk: RoundKeys, w: nat, a: nat, t0: bv8, t1: bv8, t2: bv8, t3: bv8)
    requires w + 4 <= 240 && a + 4 <= 240
  {
    && rk[w] == Add(rk[a], t0) && rk[w + 1] == Add(rk[a + 1], t1)
    && rk[w + 2] == Add(rk[a + 2], t2) && rk[w + 3] == Add(rk[a + 3], t3)
  }

  // The bytes of word i, section 5.2 of FIPS 197.
  predicate IsKeyWord(rk: RoundKeys, i: nat)
    requires 8 <= i < 60
  {
    var (w, a, b) := (4 * i, 4 * (i - 8), 4 * (i - 1));
    if i % 8 == 0 then
      Added(rk, w, a, Add(SBox(rk[b + 1]), XPower(i / 8 - 1)), SBox(rk[b + 2]), SBox(rk[b + 3]), SBox(rk[b]))
    else if i % 8 == 4 then
      Added(rk, w, a, SBox(rk[b]), SBox(rk[b + 1]), SBox(rk[b + 2]), SBox(rk[b + 3]))
    else
      Added(rk, w, a, rk[b], rk[b + 1], rk[b + 2], rk[b + 3])
  }

  lemma RconIsPower(i: nat)
    requires 1 <= i <= 10
    ensures Rcon(i) == XPower(i - 1)
  {
    assert XPower(1) == 2 && XPower(2) == 4 && XPower(3) == 8 && XPower(4) == 0x10;
    assert XPower(5) == 0x20 && XPower(6) == 0x40 && XPower(7) == 0x80;
    assert XPower(8) == 0x1b && XPower(9) == 0x36;
  }

  lemma MixWordIs(i: nat, c: Column)
    requires 8 <= i < 60
    ensures MixWord(i, c) ==
            if i % 8 == 0 then Column(Add(SBox(c.b1), XPower(i / 8 - 1)), SBox(c.b2), SBox(c.b3), SBox(c.b0))
            else if i % 8 == 4 then Column(SBox(c.b0), SBox(c.b1), SBox(c.b2), SBox(c.b3))
            else c
  {
    hide SBox, XPower, Rcon, Add;
    RconIsPower(i / 8);
    AddZero(SBox(c.b2));
    AddZero(SBox(c.b3));
    AddZero(SBox(c.b0));
  }

  lemma ScheduleBytes(rk: RoundKeys, key: Key, i: nat)
    requires Expanded(rk, key) && 8 <= i < 60
    ensures IsKeyWord(rk, i)
  {
    hide SBox, XPower, Expanded, MixWord, Add, LoadColumn, XorColumn, Added;
    ScheduleWord(rk, key, i);
    var b := 4 * (i - 1);
    MixWordIs(i, LoadColumn(rk, b));
    ColumnBytes(rk, b);
    var mixed := MixWord(i, LoadColumn(rk, b));
    WordBytes(rk, 4 * i, 4 * (i - 8), mixed.b0, mixed.b1, mixed.b2, mixed.b3);
  }

  lemma ColumnBytes(b: seq<bv8>, o: nat)
    requires o + 4 <= |b|
    ensures LoadColumn(b, o) == Column(b[o], b[o + 1], b[o + 2], b[o + 3])
  {
  }

  lemma WordBytes(rk: RoundKeys, w: nat, a: nat, t0: bv8, t1: bv8, t2: bv8, t3: bv8)
    requires w + 4 <= 240 && a + 4 <= 240
    requires LoadColumn(rk, w) == XorColumn(LoadColumn(rk, a), Column(t0, t1, t2, t3))
    ensures Added(rk, w, a, t0, t1, t2, t3)
  {
    hide Add;
  }

  lemma ScheduleWord(rk: RoundKeys, key: Key, i: nat)
    requires Expanded(rk, key) && 8 <= i < 60
    ensures LoadColumn(rk, 4 * i) == XorColumn(LoadColumn(rk, 4 * (i - 8)), MixWord(i, LoadColumn(rk, 4 * (i - 1))))
  {
    hide LoadColumn, XorColumn, MixWord;
  }

  // The key comes first.
  lemma KeyIsFirst(rk: RoundKeys, key: Key)
    requires Expanded(rk, key)
    ensures rk[..32] == key
  {
    hide KeyWord;
    forall k | 0 <= k < 32
      ensures rk[k] == key[k]
    {
      var m := k / 4;
      assert LoadColumn(rk, 4 * m) == KeyWord(key, m) == LoadColumn(key, 4 * m) by {
        FirstWord(key, m);
      }
    }
  }

  lemma FirstWord(key: Key, m: nat)
    requires m < 8
    ensures KeyWord(key, m) == LoadColumn(key, 4 * m)
  {
  }

  method KeyExpansion(roundKey: array<bv8>, key: array<bv8>)
    requires roundKey.Length == 240 && key.Length == 32 && key != roundKey
    modifies roundKey
    ensures Expanded(roundKey[..], key[..])
    ensures roundKey[..32] == key[..]
    ensures forall i | 8 <= i < 60 :: IsKeyWord(roundKey[..], i)
  {
    hide IsKeyWord;
    hide LoadColumn, XorColumn, MixWord, KeyWord;
    for i := 0 to NK
      invariant forall k | 0 <= k < 4 * i :: roundKey[k] == key[k]
    {
      roundKey[i * 4] := key[i * 4];
      roundKey[i * 4 + 1] := key[i * 4 + 1];
      roundKey[i * 4 + 2] := key[i * 4 + 2];
      roundKey[i * 4 + 3] := key[i * 4 + 3];
    }
    FirstWords(key[..], roundKey[..]);
    for i := NK to NB * (NR + 1)
      invariant forall m | 0 <= m < i :: LoadColumn(roundKey[..], 4 * m) == KeyWord(key[..], m)
    {
      ghost var before := roundKey[..];
      ExpandWord(roundKey, i);
      NextWord(before, roundKey[..], key[..], i);
    }
    assert Expanded(roundKey[..], key[..]);
    hide Expanded;
    ghost var rk := roundKey[..];
    KeyIsFirst(rk, key[..]);
    assert roundKey[..32] == rk[..32];
    forall i | 8 <= i < 60
      ensures IsKeyWord(rk, i)
    {
      ScheduleBytes(rk, key[..], i);
    }
  }

  lemma NextWord(before: RoundKeys, after: RoundKeys, key: Key, i: nat)
    requires NK <= i < NB * (NR + 1)
    requires forall m | 0 <= m < i :: LoadColumn(before, 4 * m) == KeyWord(key, m)
    requires forall k | 0 <= k < 4 * i :: after[k] == before[k]
    requires LoadColumn(after, 4 * i) ==
             XorColumn(LoadColumn(before, 4 * (i - NK)), MixWord(i, LoadColumn(before, 4 * (i - 1))))
    ensures forall m | 0 <= m < i + 1 :: LoadColumn(after, 4 * m) == KeyWord(key, m)
  {
    hide LoadColumn, XorColumn, MixWord;
    SameWords(before, after, i);
  }

  // The body of the second loop of KeyExpansion.
  method ExpandWord(roundKey: array<bv8>, i: nat)
    requires roundKey.Length == 240
    requires NK <= i < NB * (NR + 1)
    modifies roundKey
    ensures forall k | 0 <= k < 240 && !(4 * i <= k < 4 * i + 4) :: roundKey[k] == old(roundKey[k])
    ensures LoadColumn(roundKey[..], 4 * i) ==
            XorColumn(old(LoadColumn(roundKey[..], 4 * (i - NK))),
                      MixWord(i, old(LoadColumn(roundKey[..], 4 * (i - 1)))))
  {
    hide Add, MixWord;
    var k := (i - 1) * 4;
    var t0, t1, t2, t3 := roundKey[k], roundKey[k + 1], roundKey[k + 2], roundKey[k + 3];
    t0, t1, t2, t3 := MixBytes(i, t0, t1, t2, t3);
    var j := i * 4;
    k := (i - NK) * 4;
    roundKey[j] := Add(roundKey[k], t0);
    roundKey[j + 1] := Add(roundKey[k + 1], t1);
    roundKey[j + 2] := Add(roundKey[k + 2], t2);
    roundKey[j + 3] := Add(roundKey[k + 3], t3);
  }

  // RotWord, SubWord and Rcon on the four bytes of tempa.
  method MixBytes(i: nat, a0: bv8, a1: bv8, a2: bv8, a3: bv8) returns (t0: bv8, t1: bv8, t2: bv8, t3: bv8)
    requires i < NB * (NR + 1)
    ensures Column(t0, t1, t2, t3) == MixWord(i, Column(a0, a1, a2, a3))
  {
    hide SBox, Add, Rcon;
    t0, t1, t2, t3 := a0, a1, a2, a3;
    if i % NK == 0 {
      t0, t1, t2, t3 := t1, t2, t3, t0;
      t0, t1, t2, t3 := SBox(t0), SBox(t1), SBox(t2), SBox(t3);
      AddZero(t1);
      AddZero(t2);
      AddZero(t3);
      t0 := Add(t0, Rcon(i / NK));
    }
    if i % NK == 4 {
      t0, t1, t2, t3 := SBox(t0), SBox(t1), SBox(t2), SBox(t3);
    }
  }

  class Context {
    const roundKey: array<bv8>
    const iv: array<bv8>

    ghost predicate Valid() {
      roundKey.Length == 240 && iv.Length == 16 && roundKey != iv
    }

    // AES_init_ctx_iv.
    constructor (key: array<bv8>, iv0: array<bv8>)
      requires key.Length == 32 && iv0.Length == 16
      ensures Valid() && fresh(roundKey) && fresh(iv)
      ensures Expanded(roundKey[..], key[..])
      ensures roundKey[..32] == key[..] && forall i | 8 <= i < 60 :: IsKeyWord(roundKey[..], i)
      ensures iv[..] == iv0[..]
    {
      roundKey := new bv8[240];
      iv := new bv8[16];
      new;
      hide Expanded, IsKeyWord;
      KeyExpansion(roundKey, key);
      CopyBlock(iv, iv0, 0);
    }
  }

  // memcpy of one block.
  method CopyBlock(dest: array<bv8>, src: array<bv8>, at: nat)
    requires dest.Length == 16 && at + 16 <= src.Length
    requires dest == src ==> at == 0
    modifies dest
    ensures dest[..] == old(src[at..at + 16])
  {
    for i := 0 to 16
      invariant forall k | 0 <= k < i :: dest[k] == old(src[at + k])
      invariant forall k | i <= k < 16 :: dest[k] == old(dest[k])
    {
      dest[i] := src[at + i];
    }
  }
}
