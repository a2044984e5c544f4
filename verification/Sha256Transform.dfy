// The compression function of SHA-256: FIPS 180-4 section 6.2.2 as a 64-step loop over
// eight working variables, and the hand-unrolled form of sha256.c, which rotates the names
// of the variables instead of their values and keeps sixteen words of the schedule.
module Sha256Transform {

  type u32 = x: int | 0 <= x < 0x1_0000_0000

  // The logical functions, as sha256.c writes them.
  function Choice(p: bv32, q: bv32, r: bv32): bv32 {
    r ^ (p & (q ^ r))
  }

  function Majority(p: bv32, q: bv32, r: bv32): bv32 {
    (p & q) | (r & (p | q))
  }

  function Xor(p: bv32, q: bv32, r: bv32): bv32 {
    p ^ q ^ r
  }

  function Sigma0(p: bv32): bv32 {
    Xor((p >> 2) | (p << 30), (p >> 13) | (p << 19), (p >> 22) | (p << 10))
  }

  function Sigma1(p: bv32): bv32 {
    Xor((p >> 6) | (p << 26), (p >> 11) | (p << 21), (p >> 25) | (p << 7))
  }

  function LittleSigma0(p: bv32): bv32 {
    Xor((p >> 7) | (p << 25), (p >> 18) | (p << 14), p >> 3)
  }

  function LittleSigma1(p: bv32): bv32 {
    Xor((p >> 17) | (p << 15), (p >> 19) | (p << 13), p >> 10)
  }

  // The same on words as numbers.
  function Ch(x: u32, y: u32, z: u32): u32 {
    Choice(x as bv32, y as bv32, z as bv32) as u32
  }

  function Maj(x: u32, y: u32, z: u32): u32 {
    Majority(x as bv32, y as bv32, z as bv32) as u32
  }

  function BigSigma0(x: u32): u32 {
    Sigma0(x as bv32) as u32
  }

  function BigSigma1(x: u32): u32 {
    Sigma1(x as bv32) as u32
  }

  function SmallSigma0(x: u32): u32 {
    LittleSigma0(x as bv32) as u32
  }

  function SmallSigma1(x: u32): u32 {
    LittleSigma1(x as bv32) as u32
  }

  // Addition modulo 2^32.
  function Add32(x: u32, y: u32): u32 {
    (x + y) % 0x1_0000_0000
  }

  // The constants of FIPS 180-4, section 4.2.2.
  function K(t: nat): u32
    requires t < 64
  {
    if t < 8 then
      [0x428a2f98, 0x71374491, 0xb5c0fbcf, 0xe9b5dba5, 0x3956c25b, 0x59f111f1, 0x923f82a4, 0xab1c5ed5][t]
    else if t < 16 then
      [0xd807aa98, 0x12835b01, 0x243185be, 0x550c7dc3, 0x72be5d74, 0x80deb1fe, 0x9bdc06a7, 0xc19bf174][t - 8]
    else if t < 24 then
      [0xe49b69c1, 0xefbe4786, 0x0fc19dc6, 0x240ca1cc, 0x2de92c6f, 0x4a7484aa, 0x5cb0a9dc, 0x76f988da][t - 16]
    else if t < 32 then
      [0x983e5152, 0xa831c66d, 0xb00327c8, 0xbf597fc7, 0xc6e00bf3, 0xd5a79147, 0x06ca6351, 0x14292967][t - 24]
    else if t < 40 then
      [0x27b70a85, 0x2e1b2138, 0x4d2c6dfc, 0x53380d13, 0x650a7354, 0x766a0abb, 0x81c2c92e, 0x92722c85][t - 32]
    else if t < 48 then
      [0xa2bfe8a1, 0xa81a664b, 0xc24b8b70, 0xc76c51a3, 0xd192e819, 0xd6990624, 0xf40e3585, 0x106aa070][t - 40]
    else if t < 56 then
      [0x19a4c116, 0x1e376c08, 0x2748774c, 0x34b0bcb5, 0x391c0cb3, 0x4ed8aa4a, 0x5b9cca4f, 0x682e6ff3][t - 48]
    else
      [0x748f82ee, 0x78a5636f, 0x84c87814, 0x8cc70208, 0x90befffa, 0xa4506ceb, 0xbef9a3f7, 0xc67178f2][t - 56]
  }

  // ---- The 64-step loop of FIPS 180-4, section 6.2.2 ----

  datatype Regs = Regs(a: u32, b: u32, c: u32, d: u32, e: u32, f: u32, g: u32, h: u32)

  type Chunk = s: seq<u32> | |s| == 16 witness seq(16, _ => 0)

  function Step(r: Regs, k: u32, w: u32): Regs {
    var t1 := Add32(Add32(Add32(Add32(r.h, BigSigma1(r.e)), Ch(r.e, r.f, r.g)), k), w);
    var t2 := Add32(BigSigma0(r.a), Maj(r.a, r.b, r.c));
    Regs(Add32(t1, t2), r.a, r.b, r.c, Add32(r.d, t1), r.e, r.f, r.g)
  }

  function Schedule(m: Chunk, t: nat): u32 {
    if t < 16 then m[t]
    else
      Add32(Schedule(m, t - 16),
            Add32(Add32(SmallSigma1(Schedule(m, t - 2)), Schedule(m, t - 7)), SmallSigma0(Schedule(m, t - 15))))
  }

  // The working variables after t steps.
  function Compress(r: Regs, m: Chunk, t: nat): Regs
    requires t <= 64
  {
    if t == 0 then r else Step(Compress(r, m, t - 1), K(t - 1), Schedule(m, t - 1))
  }

  function AddRegs(r: Regs, q: Regs): Regs {
    Regs(Add32(r.a, q.a), Add32(r.b, q.b), Add32(r.c, q.c), Add32(r.d, q.d),
         Add32(r.e, q.e), Add32(r.f, q.f), Add32(r.g, q.g), Add32(r.h, q.h))
  }

  // The big-endian word number i of a run of bytes.
  function Word(b: seq<bv8>, i: nat): u32
    requires 4 * i + 4 <= |b|
  {
    b[4 * i] as int * 0x100_0000 + b[4 * i + 1] as int * 0x1_0000 + b[4 * i + 2] as int * 0x100 + b[4 * i + 3] as int
  }

  function Words(block: seq<bv8>): Chunk
    requires |block| == 64
  {
    seq(16, i requires 0 <= i < 16 => Word(block, i))
  }

  // The chaining value after one block.
  function HashBlock(h: Regs, block: seq<bv8>): Regs
    requires |block| == 64
  {
    AddRegs(h, Compress(h, Words(block), 64))
  }

  // ---- The unrolled form ----

  function RegsOf(s: seq<u32>): Regs
    requires |s| == 8
  {
    Regs(s[0], s[1], s[2], s[3], s[4], s[5], s[6], s[7])
  }

  // One round, in which d and h are passed by reference. Its caller's names for the eight
  // values rotate by one place: what comes back as h' is the next round's a.
  method Round(a: u32, b: u32, c: u32, d: u32, e: u32, f: u32, g: u32, h: u32, k: u32, w: u32,
               ghost r: Regs, ghost m: Chunk, ghost t: nat) returns (d': u32, h': u32)
    requires t < 64 && k == K(t) && w == Schedule(m, t)
    requires Compress(r, m, t) == Regs(a, b, c, d, e, f, g, h)
    ensures Compress(r, m, t + 1) == Regs(h', a, b, c, d', e, f, g)
  {
    hide Ch, Maj, BigSigma1, BigSigma0, Add32, K, Schedule;
    var t1 := Add32(Add32(Add32(Add32(h, BigSigma1(e)), Ch(e, f, g)), k), w);
    var t2 := Add32(BigSigma0(a), Maj(a, b, c));
    d' := Add32(d, t1);
    h' := Add32(t1, t2);
  }

  // The next word of the schedule, which takes the place of the word sixteen before it.
  method Extend(w16: u32, w2: u32, w7: u32, w15: u32, ghost m: Chunk, ghost t: nat) returns (w: u32)
    requires t >= 16 && w16 == Schedule(m, t - 16) && w15 == Schedule(m, t - 15)
    requires w7 == Schedule(m, t - 7) && w2 == Schedule(m, t - 2)
    ensures w == Schedule(m, t)
  {
    hide SmallSigma0, SmallSigma1, Add32;
    w := Add32(w16, Add32(Add32(SmallSigma1(w2), w7), SmallSigma0(w15)));
  }

  lemma Add32Associates(x: u32, y: u32, z: u32)
    ensures Add32(Add32(x, y), z) == Add32(x, Add32(y, z))
  {
    hide Add32;
    Add32Wraps(x, y);
    Add32Wraps(y, z);
    Add32Wraps(Add32(x, y), z);
    Add32Wraps(x, Add32(y, z));
  }

  lemma Add32Wraps(x: u32, y: u32)
    ensures Add32(x, y) == if x + y < 0x1_0000_0000 then x + y else x + y - 0x1_0000_0000
  {
  }

  // The last two rounds do not store their word, and so add it up from the left.
  lemma ExtendedInOrder(w16: u32, w2: u32, w7: u32, w15: u32, m: Chunk, t: nat)
    requires t >= 16 && w16 == Schedule(m, t - 16) && w15 == Schedule(m, t - 15)
    requires w7 == Schedule(m, t - 7) && w2 == Schedule(m, t - 2)
    ensures Add32(Add32(Add32(w16, SmallSigma1(w2)), w7), SmallSigma0(w15)) == Schedule(m, t)
  {
    hide SmallSigma0, SmallSigma1, Add32;
    Add32Associates(w16, SmallSigma1(w2), w7);
    Add32Associates(w16, Add32(SmallSigma1(w2), w7), SmallSigma0(w15));
  }

  lemma Starts(r: Regs, m: Chunk)
    ensures Compress(r, m, 0) == r
    ensures forall i | 0 <= i < 16 :: Schedule(m, i) == m[i]
  {
  }

  lemma LowConstants()
    ensures K(0) == 0x428a2f98 && K(1) == 0x71374491 && K(2) == 0xb5c0fbcf && K(3) == 0xe9b5dba5
    ensures K(4) == 0x3956c25b && K(5) == 0x59f111f1 && K(6) == 0x923f82a4 && K(7) == 0xab1c5ed5
    ensures K(8) == 0xd807aa98 && K(9) == 0x12835b01 && K(10) == 0x243185be && K(11) == 0x550c7dc3
    ensures K(12) == 0x72be5d74 && K(13) == 0x80deb1fe && K(14) == 0x9bdc06a7 && K(15) == 0xc19bf174
    ensures K(16) == 0xe49b69c1 && K(17) == 0xefbe4786 && K(18) == 0x0fc19dc6 && K(19) == 0x240ca1cc
    ensures K(20) == 0x2de92c6f && K(21) == 0x4a7484aa && K(22) == 0x5cb0a9dc && K(23) == 0x76f988da
    ensures K(24) == 0x983e5152 && K(25) == 0xa831c66d && K(26) == 0xb00327c8 && K(27) == 0xbf597fc7
    ensures K(28) == 0xc6e00bf3 && K(29) == 0xd5a79147 && K(30) == 0x06ca6351 && K(31) == 0x14292967
  {
  }

  lemma HighConstants()
    ensures K(32) == 0x27b70a85 && K(33) == 0x2e1b2138 && K(34) == 0x4d2c6dfc && K(35) == 0x53380d13
    ensures K(36) == 0x650a7354 && K(37) == 0x766a0abb && K(38) == 0x81c2c92e && K(39) == 0x92722c85
    ensures K(40) == 0xa2bfe8a1 && K(41) == 0xa81a664b && K(42) == 0xc24b8b70 && K(43) == 0xc76c51a3
    ensures K(44) == 0xd192e819 && K(45) == 0xd6990624 && K(46) == 0xf40e3585 && K(47) == 0x106aa070
    ensures K(48) == 0x19a4c116 && K(49) == 0x1e376c08 && K(50) == 0x2748774c && K(51) == 0x34b0bcb5
    ensures K(52) == 0x391c0cb3 && K(53) == 0x4ed8aa4a && K(54) == 0x5b9cca4f && K(55) == 0x682e6ff3
    ensures K(56) == 0x748f82ee && K(57) == 0x78a5636f && K(58) == 0x84c87814 && K(59) == 0x8cc70208
    ensures K(60) == 0x90befffa && K(61) == 0xa4506ceb && K(62) == 0xbef9a3f7 && K(63) == 0xc67178f2
  {
  }

  // The sixty-four rounds of Transform.
  method Rounds(r: Regs, chunk: seq<bv8>) returns (out: Regs)
    requires |chunk| == 64
    ensures out == Compress(r, Words(chunk), 64)
  {
    hide SmallSigma0, SmallSigma1, Add32, Compress, Schedule, K, Word;
    var a, b, c, d, e, f, g, h := r.a, r.b, r.c, r.d, r.e, r.f, r.g, r.h;
    var w0: u32, w1: u32, w2: u32, w3: u32, w4: u32, w5: u32, w6: u32, w7: u32;
    var w8: u32, w9: u32, w10: u32, w11: u32, w12: u32, w13: u32, w14: u32, w15: u32;
    ghost var m := Words(chunk);
    Starts(r, m);
    LowConstants();
    HighConstants();

    w0 := Word(chunk, 0);
    d, h := Round(a, b, c, d, e, f, g, h, 0x428a2f98, w0, r, m, 0);
    w1 := Word(chunk, 1);
    c, g := Round(h, a, b, c, d, e, f, g, 0x71374491, w1, r, m, 1);
    w2 := Word(chunk, 2);
    b, f := Round(g, h, a, b, c, d, e, f, 0xb5c0fbcf, w2, r, m, 2);
    w3 := Word(chunk, 3);
    a, e := Round(f, g, h, a, b, c, d, e, 0xe9b5dba5, w3, r, m, 3);
    w4 := Word(chunk, 4);
    h, d := Round(e, f, g, h, a, b, c, d, 0x3956c25b, w4, r, m, 4);
    w5 := Word(chunk, 5);
    g, c := Round(d, e, f, g, h, a, b, c, 0x59f111f1, w5, r, m, 5);
    w6 := Word(chunk, 6);
    f, b := Round(c, d, e, f, g, h, a, b, 0x923f82a4, w6, r, m, 6);
    w7 := Word(chunk, 7);
    e, a := Round(b, c, d, e, f, g, h, a, 0xab1c5ed5, w7, r, m, 7);
    w8 := Word(chunk, 8);
    d, h := Round(a, b, c, d, e, f, g, h, 0xd807aa98, w8, r, m, 8);
    w9 := Word(chunk, 9);
    c, g := Round(h, a, b, c, d, e, f, g, 0x12835b01, w9, r, m, 9);
    w10 := Word(chunk, 10);
    b, f := Round(g, h, a, b, c, d, e, f, 0x243185be, w10, r, m, 10);
    w11 := Word(chunk, 11);
    a, e := Round(f, g, h, a, b, c, d, e, 0x550c7dc3, w11, r, m, 11);
    w12 := Word(chunk, 12);
    h, d := Round(e, f, g, h, a, b, c, d, 0x72be5d74, w12, r, m, 12);
    w13 := Word(chunk, 13);
    g, c := Round(d, e, f, g, h, a, b, c, 0x80deb1fe, w13, r, m, 13);
    w14 := Word(chunk, 14);
    f, b := Round(c, d, e, f, g, h, a, b, 0x9bdc06a7, w14, r, m, 14);
    w15 := Word(chunk, 15);
    e, a := Round(b, c, d, e, f, g, h, a, 0xc19bf174, w15, r, m, 15);

    w0 := Extend(w0, w14, w9, w1, m, 16);
    d, h := Round(a, b, c, d, e, f, g, h, 0xe49b69c1, w0, r, m, 16);
    w1 := Extend(w1, w15, w10, w2, m, 17);
    c, g := Round(h, a, b, c, d, e, f, g, 0xefbe4786, w1, r, m, 17);
    w2 := Extend(w2, w0, w11, w3, m, 18);
    b, f := Round(g, h, a, b, c, d, e, f, 0x0fc19dc6, w2, r, m, 18);
    w3 := Extend(w3, w1, w12, w4, m, 19);
    a, e := Round(f, g, h, a, b, c, d, e, 0x240ca1cc, w3, r, m, 19);
    w4 := Extend(w4, w2, w13, w5, m, 20);
    h, d := Round(e, f, g, h, a, b, c, d, 0x2de92c6f, w4, r, m, 20);
    w5 := Extend(w5, w3, w14, w6, m, 21);
    g, c := Round(d, e, f, g, h, a, b, c, 0x4a7484aa, w5, r, m, 21);
    w6 := Extend(w6, w4, w15, w7, m, 22);
    f, b := Round(c, d, e, f, g, h, a, b, 0x5cb0a9dc, w6, r, m, 22);
    w7 := Extend(w7, w5, w0, w8, m, 23);
    e, a := Round(b, c, d, e, f, g, h, a, 0x76f988da, w7, r, m, 23);
    w8 := Extend(w8, w6, w1, w9, m, 24);
    d, h := Round(a, b, c, d, e, f, g, h, 0x983e5152, w8, r, m, 24);
    w9 := Extend(w9, w7, w2, w10, m, 25);
    c, g := Round(h, a, b, c, d, e, f, g, 0xa831c66d, w9, r, m, 25);
    w10 := Extend(w10, w8, w3, w11, m, 26);
    b, f := Round(g, h, a, b, c, d, e, f, 0xb00327c8, w10, r, m, 26);
    w11 := Extend(w11, w9, w4, w12, m, 27);
    a, e := Round(f, g, h, a, b, c, d, e, 0xbf597fc7, w11, r, m, 27);
    w12 := Extend(w12, w10, w5, w13, m, 28);
    h, d := Round(e, f, g, h, a, b, c, d, 0xc6e00bf3, w12, r, m, 28);
    w13 := Extend(w13, w11, w6, w14, m, 29);
    g, c := Round(d, e, f, g, h, a, b, c, 0xd5a79147, w13, r, m, 29);
    w14 := Extend(w14, w12, w7, w15, m, 30);
    f, b := Round(c, d, e, f, g, h, a, b, 0x06ca6351, w14, r, m, 30);
    w15 := Extend(w15, w13, w8, w0, m, 31);
    e, a := Round(b, c, d, e, f, g, h, a, 0x14292967, w15, r, m, 31);

    w0 := Extend(w0, w14, w9, w1, m, 32);
    d, h := Round(a, b, c, d, e, f, g, h, 0x27b70a85, w0, r, m, 32);
    w1 := Extend(w1, w15, w10, w2, m, 33);
    c, g := Round(h, a, b, c, d, e, f, g, 0x2e1b2138, w1, r, m, 33);
    w2 := Extend(w2, w0, w11, w3, m, 34);
    b, f := Round(g, h, a, b, c, d, e, f, 0x4d2c6dfc, w2, r, m, 34);
    w3 := Extend(w3, w1, w12, w4, m, 35);
    a, e := Round(f, g, h, a, b, c, d, e, 0x53380d13, w3, r, m, 35);
    w4 := Extend(w4, w2, w13, w5, m, 36);
    h, d := Round(e, f, g, h, a, b, c, d, 0x650a7354, w4, r, m, 36);
    w5 := Extend(w5, w3, w14, w6, m, 37);
    g, c := Round(d, e, f, g, h, a, b, c, 0x766a0abb, w5, r, m, 37);
    w6 := Extend(w6, w4, w15, w7, m, 38);
    f, b := Round(c, d, e, f, g, h, a, b, 0x81c2c92e, w6, r, m, 38);
    w7 := Extend(w7, w5, w0, w8, m, 39);
    e, a := Round(b, c, d, e, f, g, h, a, 0x92722c85, w7, r, m, 39);
    w8 := Extend(w8, w6, w1, w9, m, 40);
    d, h := Round(a, b, c, d, e, f, g, h, 0xa2bfe8a1, w8, r, m, 40);
    w9 := Extend(w9, w7, w2, w10, m, 41);
    c, g := Round(h, a, b, c, d, e, f, g, 0xa81a664b, w9, r, m, 41);
    w10 := Extend(w10, w8, w3, w11, m, 42);
    b, f := Round(g, h, a, b, c, d, e, f, 0xc24b8b70, w10, r, m, 42);
    w11 := Extend(w11, w9, w4, w12, m, 43);
    a, e := Round(f, g, h, a, b, c, d, e, 0xc76c51a3, w11, r, m, 43);
    w12 := Extend(w12, w10, w5, w13, m, 44);
    h, d := Round(e, f, g, h, a, b, c, d, 0xd192e819, w12, r, m, 44);
    w13 := Extend(w13, w11, w6, w14, m, 45);
    g, c := Round(d, e, f, g, h, a, b, c, 0xd6990624, w13, r, m, 45);
    w14 := Extend(w14, w12, w7, w15, m, 46);
    f, b := Round(c, d, e, f, g, h, a, b, 0xf40e3585, w14, r, m, 46);
    w15 := Extend(w15, w13, w8, w0, m, 47);
    e, a := Round(b, c, d, e, f, g, h, a, 0x106aa070, w15, r, m, 47);

    w0 := Extend(w0, w14, w9, w1, m, 48);
    d, h := Round(a, b, c, d, e, f, g, h, 0x19a4c116, w0, r, m, 48);
    w1 := Extend(w1, w15, w10, w2, m, 49);
    c, g := Round(h, a, b, c, d, e, f, g, 0x1e376c08, w1, r, m, 49);
    w2 := Extend(w2, w0, w11, w3, m, 50);
    b, f := Round(g, h, a, b, c, d, e, f, 0x2748774c, w2, r, m, 50);
    w3 := Extend(w3, w1, w12, w4, m, 51);
    a, e := Round(f, g, h, a, b, c, d, e, 0x34b0bcb5, w3, r, m, 51);
    w4 := Extend(w4, w2, w13, w5, m, 52);
    h, d := Round(e, f, g, h, a, b, c, d, 0x391c0cb3, w4, r, m, 52);
    w5 := Extend(w5, w3, w14, w6, m, 53);
    g, c := Round(d, e, f, g, h, a, b, c, 0x4ed8aa4a, w5, r, m, 53);
    w6 := Extend(w6, w4, w15, w7, m, 54);
    f, b := Round(c, d, e, f, g, h, a, b, 0x5b9cca4f, w6, r, m, 54);
    w7 := Extend(w7, w5, w0, w8, m, 55);
    e, a := Round(b, c, d, e, f, g, h, a, 0x682e6ff3, w7, r, m, 55);
    w8 := Extend(w8, w6, w1, w9, m, 56);
    d, h := Round(a, b, c, d, e, f, g, h, 0x748f82ee, w8, r, m, 56);
    w9 := Extend(w9, w7, w2, w10, m, 57);
    c, g := Round(h, a, b, c, d, e, f, g, 0x78a5636f, w9, r, m, 57);
    w10 := Extend(w10, w8, w3, w11, m, 58);
    b, f := Round(g, h, a, b, c, d, e, f, 0x84c87814, w10, r, m, 58);
    w11 := Extend(w11, w9, w4, w12, m, 59);
    a, e := Round(f, g, h, a, b, c, d, e, 0x8cc70208, w11, r, m, 59);
    w12 := Extend(w12, w10, w5, w13, m, 60);
    h, d := Round(e, f, g, h, a, b, c, d, 0x90befffa, w12, r, m, 60);
    w13 := Extend(w13, w11, w6, w14, m, 61);
    g, c := Round(d, e, f, g, h, a, b, c, 0xa4506ceb, w13, r, m, 61);
    ExtendedInOrder(w14, w12, w7, w15, m, 62);
    f, b := Round(c, d, e, f, g, h, a, b, 0xbef9a3f7, Add32(Add32(Add32(w14, SmallSigma1(w12)), w7), SmallSigma0(w15)),
                  r, m, 62);
    ExtendedInOrder(w15, w13, w8, w0, m, 63);
    e, a := Round(b, c, d, e, f, g, h, a, 0xc67178f2, Add32(Add32(Add32(w15, SmallSigma1(w13)), w8), SmallSigma0(w0)),
                  r, m, 63);

    out := Regs(a, b, c, d, e, f, g, h);
  }

  method Transform(s: array<u32>, chunk: seq<bv8>)
    requires s.Length == 8 && |chunk| == 64
    modifies s
    ensures RegsOf(s[..]) == HashBlock(old(RegsOf(s[..])), chunk)
  {
    hide Add32, Compress, Words;
    var x := Rounds(Regs(s[0], s[1], s[2], s[3], s[4], s[5], s[6], s[7]), chunk);
    s[0] := Add32(s[0], x.a);
    s[1] := Add32(s[1], x.b);
    s[2] := Add32(s[2], x.c);
    s[3] := Add32(s[3], x.d);
    s[4] := Add32(s[4], x.e);
    s[5] := Add32(s[5], x.f);
    s[6] := Add32(s[6], x.g);
    s[7] := Add32(s[7], x.h);
  }
}
