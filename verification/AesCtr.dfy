// The counter mode of aes.c, NIST SP 800-38A section 6.5.
module AesCtr {
  import opened Bytes
  import opened AesField
  import opened AesCipher
  import opened AesBlock
  import opened AesContext
  import opened AesCbc

  // ---- Counter mode over values ----

  // The counter block, incremented as a big-endian number that wraps around.
  function Increment(b: seq<bv8>): (r: seq<bv8>)
    ensures |r| == |b|
  {
    if b == [] then []
    else if b[|b| - 1] == 255 then Increment(b[..|b| - 1]) + [0]
    else b[..|b| - 1] + [b[|b| - 1] + 1]
  }

  // The counter after n increments.
  function Counter(iv: seq<bv8>, n: nat): (r: seq<bv8>)
    ensures |r| == |iv|
  {
    if n == 0 then iv else Increment(Counter(iv, n - 1))
  }

  // The counter block as a number.
  function Number(b: seq<bv8>): nat {
    Value(AsBytes(b))
  }

  // x modulo m. Proofs keep it hidden and use the laws below.
  function Wrap(x: nat, m: nat): nat
    requires m > 0
  {
    x % m
  }

  lemma MultipleAtLeast(d: int, m: int)
    requires m >= 0
    ensures d > 0 ==> d * m >= m
    ensures d < 0 ==> d * m <= -m
  {
    if d > 0 {
      assert (d - 1) * m >= 0;
    } else if d < 0 {
      assert (-1 - d) * m >= 0;
    }
  }

  lemma WrapIs(x: nat, m: nat, q: nat, r: nat)
    requires r < m && x == q * m + r
    ensures Wrap(x, m) == r
  {
    var d := x / m - q;
    assert d * m == r - x % m;
    MultipleAtLeast(d, m);
  }

  lemma WrapStep(x: nat, m: nat)
    requires m > 0
    ensures Wrap(Wrap(x, m) + 1, m) == Wrap(x + 1, m)
  {
    var (q, r) := (x / m, x % m);
    if r + 1 < m {
      WrapIs(x + 1, m, q, r + 1);
      WrapIs(r + 1, m, 0, r + 1);
    } else {
      assert x + 1 == (q + 1) * m;
      WrapIs(x + 1, m, q + 1, 0);
      WrapIs(r + 1, m, 1, 0);
    }
  }

  lemma WrapCarry(v: nat, m: nat)
    requires v < m
    ensures 256 * Wrap(v + 1, m) == Wrap(256 * v + 256, 256 * m)
  {
    hide Wrap;
    var q := if v + 1 < m then 0 else 1;
    WrapIs(v + 1, m, q, v + 1 - q * m);
    WrapIs(256 * v + 256, 256 * m, q, 256 * (v + 1 - q * m));
  }

  lemma ByteStep(x: bv8)
    ensures x == 255 ==> AsByte(x) == 255
    ensures x != 255 ==> AsByte(x + 1) == AsByte(x) + 1
    ensures AsByte(0) == 0
  {
  }

  lemma NumberSnoc(b: seq<bv8>, x: bv8)
    ensures Number(b + [x]) == 256 * Number(b) + AsByte(x)
  {
    hide AsByte;
    assert AsBytes(b + [x])[..|b|] == AsBytes(b);
  }

  lemma IncrementSnoc(b: seq<bv8>, x: bv8)
    ensures Increment(b + [x]) == if x == 255 then Increment(b) + [0] else b + [x + 1]
  {
    assert (b + [x])[..|b|] == b;
  }

  lemma NumberBound(b: seq<bv8>)
    ensures Number(b) < Power256(|b|)
  {
    ValueBound(AsBytes(b));
  }

  lemma WrapSmall(x: nat, m: nat)
    requires x < m
    ensures Wrap(x, m) == x
  {
  }

  lemma PowerStep(n: nat)
    ensures Power256(n + 1) == 256 * Power256(n)
  {
  }

  lemma {:induction false} IncrementAddsOne(b: seq<bv8>)
    ensures Number(Increment(b)) == Wrap(Number(b) + 1, Power256(|b|))
  {
    if b != [] {
      hide *;
      var (head, last) := (b[..|b| - 1], b[|b| - 1]);
      assert b == head + [last];
      IncrementSnoc(head, last);
      NumberSnoc(head, last);
      NumberBound(head);
      PowerStep(|head|);
      ByteStep(last);
      if last == 255 {
        IncrementAddsOne(head);
        NumberSnoc(Increment(head), 0);
        WrapCarry(Number(head), Power256(|head|));
      } else {
        NumberSnoc(head, last + 1);
        NumberBound(head + [last + 1]);
        WrapSmall(Number(b) + 1, Power256(|b|));
      }
    }
  }

  // The counter block after n increments holds the sum, modulo the number of counter blocks.
  lemma {:induction false} CounterValue(iv: seq<bv8>, n: nat)
    ensures Number(Counter(iv, n)) == Wrap(Number(iv) + n, Power256(|iv|))
  {
    hide Wrap, Number, Power256, Increment;
    NumberBound(iv);
    if n == 0 {
      WrapSmall(Number(iv), Power256(|iv|));
    } else {
      CounterValue(iv, n - 1);
      IncrementAddsOne(Counter(iv, n - 1));
      WrapStep(Number(iv) + n - 1, Power256(|iv|));
    }
  }

  // The keystream block for block number n of a run that starts at counter iv.
  function KeystreamBlock(enc: State -> State, iv: seq<bv8>, n: nat): (r: seq<bv8>)
    requires |iv| == 16
    ensures |r| == 16
  {
    hide *;
    Store(enc(Load(Counter(iv, n), 0)))
  }

  function BlocksFor(length: nat): nat {
    (length + 15) / 16
  }

  // A byte at position i of the run, masked with byte i modulo 16 of keystream block i / 16.
  function CtrByte(enc: State -> State, iv: seq<bv8>, i: nat, x: bv8): bv8
    requires |iv| == 16
  {
    Add(x, KeystreamBlock(enc, iv, i / 16)[i % 16])
  }

  function CtrXcrypt(enc: State -> State, iv: seq<bv8>, data: seq<bv8>): (r: seq<bv8>)
    requires |iv| == 16
    ensures |r| == |data|
  {
    seq(|data|, i requires 0 <= i < |data| => CtrByte(enc, iv, i, data[i]))
  }

  // The operation is its own inverse.
  lemma CtrTwice(enc: State -> State, iv: seq<bv8>, data: seq<bv8>)
    requires |iv| == 16
    ensures CtrXcrypt(enc, iv, CtrXcrypt(enc, iv, data)) == data
  {
    hide Add, KeystreamBlock;
    var once := CtrXcrypt(enc, iv, data);
    forall i | 0 <= i < |data|
      ensures CtrXcrypt(enc, iv, once)[i] == data[i]
    {
      AddTwice(data[i], KeystreamBlock(enc, iv, i / 16)[i % 16]);
    }
  }

  lemma {:induction false} CounterSum(iv: seq<bv8>, m: nat, n: nat)
    ensures Counter(Counter(iv, m), n) == Counter(iv, m + n)
  {
    hide Increment;
    if n > 0 {
      CounterSum(iv, m, n - 1);
    }
  }

  lemma BlockOf(n: nat, i: nat)
    ensures (16 * n + i) / 16 == n + i / 16
    ensures (16 * n + i) % 16 == i % 16
  {
  }

  lemma KeystreamContinues(enc: State -> State, iv: seq<bv8>, n: nat, i: nat, x: bv8)
    requires |iv| == 16
    ensures CtrByte(enc, Counter(iv, n), i, x) == CtrByte(enc, iv, 16 * n + i, x)
  {
    hide Add, Load, Store, Counter;
    BlockOf(n, i);
    CounterSum(iv, n, i / 16);
  }

  // A call leaves the counter on a fresh keystream block: when n blocks were used up, byte i
  // of the next call is masked as byte 16 * n + i of one long run.
  lemma CtrNextCall(enc: State -> State, iv: seq<bv8>, n: nat, data: seq<bv8>)
    requires |iv| == 16
    ensures forall i | 0 <= i < |data| ::
              CtrXcrypt(enc, Counter(iv, n), data)[i] == CtrByte(enc, iv, 16 * n + i, data[i])
  {
    hide CtrByte;
    forall i | 0 <= i < |data|
      ensures CtrXcrypt(enc, Counter(iv, n), data)[i] == CtrByte(enc, iv, 16 * n + i, data[i])
    {
      KeystreamContinues(enc, iv, n, i, data[i]);
    }
  }

  // So cutting a buffer at a block boundary changes nothing.
  lemma CtrSplit(enc: State -> State, iv: seq<bv8>, p: seq<bv8>, q: seq<bv8>, n: nat)
    requires |iv| == 16
    requires |p| == 16 * n
    ensures BlocksFor(|p|) == n
    ensures CtrXcrypt(enc, iv, p + q) == CtrXcrypt(enc, iv, p) + CtrXcrypt(enc, Counter(iv, n), q)
  {
    hide CtrByte;
    CtrNextCall(enc, iv, n, q);
  }

  lemma NothingToIncrement()
    ensures Increment([]) == []
  {
  }

  // AES_CTR_xcrypt_buffer's inner loop: increment the counter from its last byte.
  method IncrementIv(iv: array<bv8>)
    requires iv.Length == 16
    modifies iv
    ensures iv[..] == Increment(old(iv[..]))
  {
    hide Increment;
    NothingToIncrement();
    ghost var (was, tail) := (iv[..], []);
    var bi := 15;
    assert was == was[..16] + [];
    assert Increment(was) == Increment(was[..16]) + [] by { assert was[..16] == was; }
    while bi >= 0
      invariant -1 <= bi < 16 && |tail| == 15 - bi
      invariant iv[..] == was[..bi + 1] + tail
      invariant Increment(was) == Increment(was[..bi + 1]) + tail
      decreases bi
    {
      ghost var (head, x) := (was[..bi], was[bi]);
      assert was[..bi + 1] == head + [x];
      IncrementSnoc(head, x);
      Put(iv, head, x, tail, if x == 255 then 0 else x + 1);
      if iv[bi] == 255 {
        iv[bi] := 0;
        tail := [0] + tail;
        bi := bi - 1;
        continue;
      }
      iv[bi] := iv[bi] + 1;
      return;
    }
  }

  lemma Put(iv: array<bv8>, head: seq<bv8>, x: bv8, tail: seq<bv8>, y: bv8)
    requires iv[..] == head + [x] + tail
    ensures |head| < iv.Length && iv[|head|] == x && iv[..][|head| := y] == head + [y] + tail == head + ([y] + tail)
  {
    assert iv[..][|head|] == x;
  }

  lemma CtrByteAt(enc: State -> State, iv: seq<bv8>, n: nat, i: nat, bi: nat, x: bv8)
    requires |iv| == 16 && bi < 16 && i == 16 * n + bi
    ensures CtrByte(enc, iv, i, x) == Add(x, KeystreamBlock(enc, iv, n)[bi])
  {
    hide Add, KeystreamBlock;
    BlockOf(n, bi);
  }

  lemma BlocksReached(i: nat, n: nat, bi: nat)
    requires i + 16 == 16 * n + bi && 0 < bi <= 16
    ensures BlocksFor(i) == n
  {
  }

  lemma BytesOfBlock(b: seq<bv8>, s: State)
    requires |b| == 16 && Load(b, 0) == s
    ensures b == Store(s)
  {
    StoreLoad(b);
  }

  // The loop's buffer: the counter before its increment, put through the cipher.
  method Regenerate(buffer: array<bv8>, iv: array<bv8>, roundKey: array<bv8>, ghost iv0: seq<bv8>, ghost n: nat)
    requires buffer.Length == iv.Length == |iv0| == 16 && roundKey.Length == 240
    requires buffer != iv && buffer != roundKey && iv != roundKey
    requires iv[..] == Counter(iv0, n)
    modifies buffer, iv
    ensures buffer[..] == KeystreamBlock(EncryptUnder(roundKey[..]), iv0, n)
    ensures iv[..] == Counter(iv0, n + 1)
  {
    hide Encrypt, Load, Store;
    CopyBlock(buffer, iv, 0);
    assert buffer[..] == iv[..] by {
      assert iv[0..16] == iv[..];
    }
    Cipher(buffer, 0, roundKey);
    BytesOfBlock(buffer[..], Encrypt(Load(iv[..], 0), roundKey[..]));
    IncrementIv(iv);
  }

  // AES_CTR_xcrypt_buffer.
  method CtrXcryptBuffer(ctx: Context, buf: array<bv8>, o: nat, length: nat)
    requires ctx.Valid() && buf != ctx.roundKey && buf != ctx.iv
    requires o + length <= buf.Length
    modifies buf, ctx.iv
    ensures buf[..o] == old(buf[..o]) && buf[o + length..] == old(buf[o + length..])
    ensures buf[o..o + length] == CtrXcrypt(EncryptUnder(ctx.roundKey[..]), old(ctx.iv[..]), old(buf[o..o + length]))
    ensures ctx.iv[..] == Counter(old(ctx.iv[..]), BlocksFor(length))
  {
    hide CtrByte, BlocksFor, KeystreamBlock, Add;
    ghost var (enc, iv0) := (EncryptUnder(ctx.roundKey[..]), ctx.iv[..]);
    var buffer := new bv8[16];
    var i, bi := 0, 16;
    ghost var n := 0;
    while i < length
      invariant 0 <= i <= length && i + 16 == 16 * n + bi && 0 < bi <= 16
      invariant ctx.iv[..] == Counter(iv0, n)
      invariant n > 0 ==> buffer[..] == KeystreamBlock(enc, iv0, n - 1)
      invariant forall k | 0 <= k < buf.Length ::
        buf[k] == if o <= k < o + i then CtrByte(enc, iv0, k - o, old(buf[k])) else old(buf[k])
    {
      if bi == 16 {
        Regenerate(buffer, ctx.iv, ctx.roundKey, iv0, n);
        bi := 0;
        n := n + 1;
      }
      CtrByteAt(enc, iv0, n - 1, i, bi, buf[o + i]);
      buf[o + i] := Add(buf[o + i], buffer[bi]);
      i, bi := i + 1, bi + 1;
    }
    BlocksReached(length, n, bi);
  }
}
