// The AES-256 block transformations of aes.c: the round functions of FIPS 197,
// sections 5.1 and 5.3, over values.
module AesCipher {
  import opened AesTables
  import opened AesField

  const NK := 8
  const NB := 4
  const NR := 14

  // state_t: four columns of four bytes.
  datatype Column = Column(b0: bv8, b1: bv8, b2: bv8, b3: bv8)
  datatype State = State(c0: Column, c1: Column, c2: Column, c3: Column)

  type RoundKeys = s: seq<bv8> | |s| == 240 witness seq(240, _ => 0)

  // ---- Bytes and states ----

  function LoadColumn(b: seq<bv8>, o: nat): Column
    requires o + 4 <= |b|
  {
    Column(b[o], b[o + 1], b[o + 2], b[o + 3])
  }

  function Load(b: seq<bv8>, o: nat): State
    requires o + 16 <= |b|
  {
    State(LoadColumn(b, o), LoadColumn(b, o + 4), LoadColumn(b, o + 8), LoadColumn(b, o + 12))
  }

  function Store(s: State): (b: seq<bv8>)
    ensures |b| == 16
    ensures Load(b, 0) == s
  {
    [s.c0.b0, s.c0.b1, s.c0.b2, s.c0.b3, s.c1.b0, s.c1.b1, s.c1.b2, s.c1.b3,
     s.c2.b0, s.c2.b1, s.c2.b2, s.c2.b3, s.c3.b0, s.c3.b1, s.c3.b2, s.c3.b3]
  }

  // Row j of column i.
  function Cell(s: State, i: nat, j: nat): bv8
    requires i < 4 && j < 4
  {
    var c := if i == 0 then s.c0 else if i == 1 then s.c1 else if i == 2 then s.c2 else s.c3;
    if j == 0 then c.b0 else if j == 1 then c.b1 else if j == 2 then c.b2 else c.b3
  }

  // ---- The round functions ----

  function XorColumn(c: Column, d: Column): Column {
    Column(Add(c.b0, d.b0), Add(c.b1, d.b1), Add(c.b2, d.b2), Add(c.b3, d.b3))
  }

  function Xor(s: State, t: State): State {
    State(XorColumn(s.c0, t.c0), XorColumn(s.c1, t.c1), XorColumn(s.c2, t.c2), XorColumn(s.c3, t.c3))
  }

  function AddKey(s: State, rk: RoundKeys, round: nat): State
    requires round <= NR
  {
    Xor(s, Load(rk, 16 * round))
  }

  function SubColumn(c: Column): Column {
    Column(SBox(c.b0), SBox(c.b1), SBox(c.b2), SBox(c.b3))
  }

  function Sub(s: State): State {
    State(SubColumn(s.c0), SubColumn(s.c1), SubColumn(s.c2), SubColumn(s.c3))
  }

  function InvSubColumn(c: Column): Column {
    Column(InvSBox(c.b0), InvSBox(c.b1), InvSBox(c.b2), InvSBox(c.b3))
  }

  function InvSub(s: State): State {
    State(InvSubColumn(s.c0), InvSubColumn(s.c1), InvSubColumn(s.c2), InvSubColumn(s.c3))
  }

  function Shift(s: State): State {
    State(Column(s.c0.b0, s.c1.b1, s.c2.b2, s.c3.b3), Column(s.c1.b0, s.c2.b1, s.c3.b2, s.c0.b3),
          Column(s.c2.b0, s.c3.b1, s.c0.b2, s.c1.b3), Column(s.c3.b0, s.c0.b1, s.c1.b2, s.c2.b3))
  }

  function InvShift(s: State): State {
    State(Column(s.c0.b0, s.c3.b1, s.c2.b2, s.c1.b3), Column(s.c1.b0, s.c0.b1, s.c3.b2, s.c2.b3),
          Column(s.c2.b0, s.c1.b1, s.c0.b2, s.c3.b3), Column(s.c3.b0, s.c2.b1, s.c1.b2, s.c0.b3))
  }

  function MixColumn(c: Column): Column {
    Column(MixRow(c.b0, c.b1, c.b2, c.b3), MixRow(c.b1, c.b2, c.b3, c.b0),
           MixRow(c.b2, c.b3, c.b0, c.b1), MixRow(c.b3, c.b0, c.b1, c.b2))
  }

  function Mix(s: State): State {
    State(MixColumn(s.c0), MixColumn(s.c1), MixColumn(s.c2), MixColumn(s.c3))
  }

  function InvMixColumn(c: Column): Column {
    Column(InvMixRow(c.b0, c.b1, c.b2, c.b3), InvMixRow(c.b1, c.b2, c.b3, c.b0),
           InvMixRow(c.b2, c.b3, c.b0, c.b1), InvMixRow(c.b3, c.b0, c.b1, c.b2))
  }

  function InvMix(s: State): State {
    State(InvMixColumn(s.c0), InvMixColumn(s.c1), InvMixColumn(s.c2), InvMixColumn(s.c3))
  }

  // ---- The cipher, FIPS 197 section 5.1, and its inverse, section 5.3 ----

  // The state after the initial key and the given number of full rounds.
  function Rounds(s: State, rk: RoundKeys, rounds: nat): State
    requires rounds < NR
  {
    if rounds == 0 then AddKey(s, rk, 0)
    else AddKey(Mix(Shift(Sub(Rounds(s, rk, rounds - 1)))), rk, rounds)
  }

  function Encrypt(s: State, rk: RoundKeys): State {
    AddKey(Shift(Sub(Rounds(s, rk, NR - 1))), rk, NR)
  }

  // The inverse rounds from the given round down to round 0.
  function InvRounds(s: State, rk: RoundKeys, round: nat): State
    requires round < NR
    decreases round
  {
    var t := AddKey(InvSub(InvShift(s)), rk, round);
    if round == 0 then t else InvRounds(InvMix(t), rk, round - 1)
  }

  function Decrypt(s: State, rk: RoundKeys): State {
    InvRounds(AddKey(s, rk, NR), rk, NR - 1)
  }

  // ---- Each round function is undone by its inverse ----

  lemma XorColumnTwice(c: Column, d: Column)
    ensures XorColumn(XorColumn(c, d), d) == c
  {
    hide Add;
    AddTwice(c.b0, d.b0);
    AddTwice(c.b1, d.b1);
    AddTwice(c.b2, d.b2);
    AddTwice(c.b3, d.b3);
  }

  lemma XorTwice(s: State, t: State)
    ensures Xor(Xor(s, t), t) == s
  {
    hide XorColumn;
    XorColumnTwice(s.c0, t.c0);
    XorColumnTwice(s.c1, t.c1);
    XorColumnTwice(s.c2, t.c2);
    XorColumnTwice(s.c3, t.c3);
  }

  lemma SubColumnInverse(c: Column)
    ensures InvSubColumn(SubColumn(c)) == c
    ensures SubColumn(InvSubColumn(c)) == c
  {
    hide SBox, InvSBox;
    InvSBoxUndoesSBox(c.b0);
    InvSBoxUndoesSBox(c.b1);
    InvSBoxUndoesSBox(c.b2);
    InvSBoxUndoesSBox(c.b3);
    SBoxUndoesInvSBox(c.b0);
    SBoxUndoesInvSBox(c.b1);
    SBoxUndoesInvSBox(c.b2);
    SBoxUndoesInvSBox(c.b3);
  }

  lemma SubInverse(s: State)
    ensures InvSub(Sub(s)) == s
    ensures Sub(InvSub(s)) == s
  {
    hide SubColumn, InvSubColumn;
    SubColumnInverse(s.c0);
    SubColumnInverse(s.c1);
    SubColumnInverse(s.c2);
    SubColumnInverse(s.c3);
  }

  // FIPS 197 section 5.1.2: row j of column i comes from row j of column i + j.
  lemma ShiftMovesRows(s: State, i: nat, j: nat)
    requires i < 4 && j < 4
    ensures Cell(Shift(s), i, j) == Cell(s, (i + j) % 4, j)
    ensures Cell(InvShift(s), (i + j) % 4, j) == Cell(s, i, j)
  {
  }

  lemma ShiftInverse(s: State)
    ensures InvShift(Shift(s)) == s
    ensures Shift(InvShift(s)) == s
  {
  }

  lemma MixColumnInverse(c: Column)
    ensures InvMixColumn(MixColumn(c)) == c
    ensures MixColumn(InvMixColumn(c)) == c
  {
    hide MixRow, InvMixRow;
    MatricesAreInverse(c.b0, c.b1, c.b2, c.b3);
    MatricesAreInverse(c.b1, c.b2, c.b3, c.b0);
    MatricesAreInverse(c.b2, c.b3, c.b0, c.b1);
    MatricesAreInverse(c.b3, c.b0, c.b1, c.b2);
  }

  lemma MixInverse(s: State)
    ensures InvMix(Mix(s)) == s
    ensures Mix(InvMix(s)) == s
  {
    hide MixColumn, InvMixColumn;
    MixColumnInverse(s.c0);
    MixColumnInverse(s.c1);
    MixColumnInverse(s.c2);
    MixColumnInverse(s.c3);
  }

  // ---- The inverse-cipher theorem. ----

  lemma {:induction false} InvRoundsUndoRounds(s: State, rk: RoundKeys, round: nat)
    requires round < NR
    ensures InvRounds(Shift(Sub(Rounds(s, rk, round))), rk, round) == s
  {
    hide Xor, Load, Sub, InvSub, Shift, InvShift, Mix, InvMix;
    var x := Rounds(s, rk, round);
    ShiftInverse(Sub(x));
    SubInverse(x);
    if round == 0 {
      XorTwice(s, Load(rk, 0));
    } else {
      var y := Shift(Sub(Rounds(s, rk, round - 1)));
      XorTwice(Mix(y), Load(rk, 16 * round));
      MixInverse(y);
      InvRoundsUndoRounds(s, rk, round - 1);
    }
  }

  lemma {:induction false} RoundsUndoInvRounds(s: State, rk: RoundKeys, round: nat)
    requires round < NR
    ensures Shift(Sub(Rounds(InvRounds(s, rk, round), rk, round))) == s
    decreases round
  {
    hide Xor, Load, Sub, InvSub, Shift, InvShift, Mix, InvMix;
    var x := InvSub(InvShift(s));
    XorTwice(x, Load(rk, 16 * round));
    SubInverse(InvShift(s));
    ShiftInverse(s);
    if round > 0 {
      var t := AddKey(x, rk, round);
      RoundsUndoInvRounds(InvMix(t), rk, round - 1);
      MixInverse(t);
    }
  }

  lemma DecryptUndoesEncrypt(s: State, rk: RoundKeys)
    ensures Decrypt(Encrypt(s, rk), rk) == s
  {
    hide Xor, Load, Sub, Shift, Rounds, InvRounds;
    XorTwice(Shift(Sub(Rounds(s, rk, NR - 1))), Load(rk, 16 * NR));
    InvRoundsUndoRounds(s, rk, NR - 1);
  }

  lemma EncryptUndoesDecrypt(s: State, rk: RoundKeys)
    ensures Encrypt(Decrypt(s, rk), rk) == s
  {
    hide Xor, Load, Sub, Shift, Rounds, InvRounds;
    XorTwice(s, Load(rk, 16 * NR));
    RoundsUndoInvRounds(AddKey(s, rk, NR), rk, NR - 1);
  }
}
