// SHA-256 of a whole message, FIPS 180-4, and the buffered interface of sha256.c, which
// takes the message in pieces of any length.
module Sha256 {
  import opened Bytes
  import opened Sha256Transform

  // ---- The hash of a message ----

  // FIPS 180-4, section 5.3.3.
  const H0 := Regs(0x6a09e667, 0xbb67ae85, 0x3c6ef372, 0xa54ff53a, 0x510e527f, 0x9b05688c, 0x1f83d9ab, 0x5be0cd19)

  // The chaining value after the whole blocks at the front of the data.
  function HashBlocks(h: Regs, data: seq<bv8>): Regs
    decreases |data|
  {
    if |data| < 64 then h else HashBlocks(HashBlock(h, data[..64]), data[64..])
  }

  function ByteAt(x: nat, shift: nat): bv8
    requires shift > 0
  {
    AsOctet(x / shift % 256)
  }

  function Be64(x: nat): (b: seq<bv8>)
    ensures |b| == 8
  {
    [ByteAt(x, 0x100_0000_0000_0000), ByteAt(x, 0x1_0000_0000_0000), ByteAt(x, 0x100_0000_0000),
     ByteAt(x, 0x1_0000_0000), ByteAt(x, 0x100_0000), ByteAt(x, 0x1_0000), ByteAt(x, 0x100), ByteAt(x, 1)]
  }

  function Be32(x: u32): (b: seq<bv8>)
    ensures |b| == 4
  {
    [ByteAt(x, 0x100_0000), ByteAt(x, 0x1_0000), ByteAt(x, 0x100), ByteAt(x, 1)]
  }

  function Digest(h: Regs): (d: seq<bv8>)
    ensures |d| == 32
  {
    Be32(h.a) + Be32(h.b) + Be32(h.c) + Be32(h.d) + Be32(h.e) + Be32(h.f) + Be32(h.g) + Be32(h.h)
  }

  // One marker byte, k zero bytes and the eight bytes of the length fill up the last block.
  predicate FillsBlock(length: nat, k: nat) {
    (length + 1 + k + 8) % 64 == 0
  }

  // The smallest such k, FIPS 180-4 section 5.1.1.
  function ZeroBytes(length: nat): (k: nat)
    ensures FillsBlock(length, k)
    ensures forall j: nat | FillsBlock(length, j) :: k <= j
  {
    (119 - length % 64) % 64
  }

  function Zeros(n: nat): (z: seq<bv8>)
    ensures |z| == n
  {
    seq(n, _ => 0)
  }

  function Pad(message: seq<bv8>): (p: seq<bv8>)
    ensures |p| % 64 == 0 && |p| - 72 <= |message| < |p| - 8
  {
    message + [0x80] + Zeros(ZeroBytes(|message|)) + Be64(8 * |message|)
  }

  function Hash(message: seq<bv8>): (d: seq<bv8>)
    ensures |d| == 32
  {
    Digest(HashBlocks(H0, Pad(message)))
  }

  // ---- Blocks ----

  lemma {:induction false} HashBlocksAppend(h: Regs, a: seq<bv8>, b: seq<bv8>)
    requires |a| % 64 == 0
    ensures HashBlocks(h, a + b) == HashBlocks(HashBlocks(h, a), b)
    decreases |a|
  {
    hide HashBlock;
    if |a| < 64 {
      assert a + b == b;
    } else {
      assert (a + b)[..64] == a[..64] && (a + b)[64..] == a[64..] + b;
      HashBlocksAppend(HashBlock(h, a[..64]), a[64..], b);
    }
  }

  // The bytes past the last whole block.
  function Tail(data: seq<bv8>): (t: seq<bv8>)
    ensures |t| == |data| % 64
  {
    data[|data| - |data| % 64..]
  }

  // Bytes that do not complete a block change only the tail.
  lemma AppendToTail(h: Regs, data: seq<bv8>, more: seq<bv8>)
    requires |data| % 64 + |more| < 64
    ensures HashBlocks(h, data + more) == HashBlocks(h, data)
    ensures Tail(data + more) == Tail(data) + more
  {
    hide HashBlock;
    var n := |data| - |data| % 64;
    var whole := data[..n];
    assert data == whole + Tail(data);
    assert data + more == whole + (Tail(data) + more);
    HashBlocksAppend(h, whole, Tail(data));
    HashBlocksAppend(h, whole, Tail(data) + more);
  }

  // Bytes that complete a block hash it and leave no tail.
  lemma CompleteBlock(h: Regs, data: seq<bv8>, more: seq<bv8>)
    requires |data| % 64 + |more| == 64
    ensures HashBlocks(h, data + more) == HashBlock(HashBlocks(h, data), Tail(data) + more)
    ensures Tail(data + more) == []
  {
    hide HashBlock;
    var n := |data| - |data| % 64;
    var (whole, block) := (data[..n], Tail(data) + more);
    assert data == whole + Tail(data);
    assert data + more == whole + block;
    HashBlocksAppend(h, whole, Tail(data));
    HashBlocksAppend(h, whole, block);
    assert block[..64] == block && block[64..] == [];
  }

  // The length sha256_done gives to its first piece.
  function PadLength(length: nat): nat {
    1 + (128 - 8 - length % 64 - 1) % 64
  }

  // The bit count as sha256_done computes it, in 64 bits.
  function BitCount(length: nat): nat {
    length * 8 % 0x1_0000_0000_0000_0000
  }

  // The bit count is right for messages below 2^61 bytes and for no others.
  lemma BitCountIs(length: nat)
    ensures BitCount(length) == 8 * length <==> length < SIZE_LIMIT
  {
  }

  lemma PadLengthIs(length: nat)
    ensures PadLength(length) == 1 + ZeroBytes(length)
    ensures 1 <= PadLength(length) <= 64
  {
  }

  // The two pieces sha256_done adds are the padding, and nothing is left over.
  lemma PaddingIs(message: seq<bv8>)
    ensures 1 <= PadLength(|message|) <= 64
    ensures message + ([0x80] + Zeros(63))[..PadLength(|message|)] + Be64(8 * |message|) == Pad(message)
    ensures Tail(Pad(message)) == []
  {
    hide Be64, PadLength, ZeroBytes;
    PadLengthIs(|message|);
    var k := ZeroBytes(|message|);
    assert ([0x80] + Zeros(63))[..1 + k] == [0x80] + Zeros(k);
    assert message + ([0x80] + Zeros(k)) == message + [0x80] + Zeros(k);
    TailOfWhole(Pad(message));
  }

  lemma TailOfWhole(data: seq<bv8>)
    requires |data| % 64 == 0
    ensures Tail(data) == []
  {
  }

  lemma InTwo<T>(before: seq<T>, p: seq<T>, i: nat, j: nat)
    requires i <= j <= |p|
    ensures before + p[..i] + p[i..j] == before + p[..j]
    ensures i == |p| ==> before + p[..i] == before + p
  {
  }

  // ---- The buffered interface ----

  const SIZE_LIMIT := 0x2000_0000_0000_0000

  class Context {
    const s: array<u32>
    const buf: array<bv8>
    var bytes: nat
    ghost var data: seq<bv8>

    // The context stands for the bytes it was given so far.
    ghost predicate Valid()
      reads this, s, buf
    {
      && s.Length == 8 && buf.Length == 64
      && bytes == |data|
      && RegsOf(s[..]) == HashBlocks(H0, data)
      && buf[..bytes % 64] == Tail(data)
    }

    // sha256_init.
    constructor ()
      ensures Valid() && fresh(s) && fresh(buf)
      ensures data == []
    {
      s := new u32[8] [0x6a09e667, 0xbb67ae85, 0x3c6ef372, 0xa54ff53a, 0x510e527f, 0x9b05688c, 0x1f83d9ab, 0x5be0cd19];
      buf := new bv8[64](_ => 0);
      bytes := 0;
      data := [];
    }

    // memcpy into the buffer.
    method CopyIn(at: nat, p: seq<bv8>)
      requires buf.Length == 64 && at + |p| <= 64
      modifies buf
      ensures buf[..] == old(buf[..at]) + p + old(buf[at + |p|..])
    {
      for i := 0 to |p|
        invariant buf[..] == old(buf[..at]) + p[..i] + old(buf[at + i..])
      {
        buf[at + i] := p[i];
      }
      assert p[..|p|] == p;
    }

    // The first part of add: fill the buffer and hash it.
    method FillBuffer(p: seq<bv8>)
      requires Valid() && bytes % 64 + |p| == 64
      modifies this`bytes, this`data, s, buf
      ensures Valid() && data == old(data) + p && bytes == old(bytes) + |p|
    {
      hide HashBlock, HashBlocks, Tail;
      CompleteBlock(H0, data, p);
      ghost var tail := Tail(data);
      CopyIn(bytes % 64, p);
      assert buf[..] == tail + p;
      bytes := bytes + |p|;
      Transform(s, buf[..]);
      data := data + p;
      assert bytes % 64 == 0;
    }

    // The body of the loop of add: hash a full chunk, directly from the source or, when the
    // source is not aligned, through the buffer.
    method HashChunk(p: seq<bv8>)
      requires Valid() && bytes % 64 == 0 && |p| == 64
      modifies this`bytes, this`data, s, buf
      ensures Valid() && data == old(data) + p && bytes == old(bytes) + |p|
    {
      hide HashBlock, HashBlocks, Tail;
      CompleteBlock(H0, data, p);
      assert Tail(data) + p == p;
      if * {
        Transform(s, p);
      } else {
        CopyIn(0, p);
        assert buf[..] == p;
        Transform(s, buf[..]);
      }
      bytes := bytes + 64;
      data := data + p;
      assert bytes % 64 == 0;
    }

    // The last part of add: keep what does not fill a block.
    method KeepRest(p: seq<bv8>)
      requires Valid() && bytes % 64 + |p| < 64
      modifies this`bytes, this`data, s, buf
      ensures Valid() && data == old(data) + p && bytes == old(bytes) + |p|
    {
      hide HashBlock, HashBlocks, Tail;
      AppendToTail(H0, data, p);
      ghost var tail := Tail(data);
      CopyIn(bytes % 64, p);
      assert buf[..bytes % 64 + |p|] == tail + p;
      bytes := bytes + |p|;
      data := data + p;
    }

    method Add(p: seq<bv8>)
      requires Valid()
      modifies this`bytes, this`data, s, buf
      ensures Valid()
      ensures data == old(data) + p
    {
      hide Valid;
      ghost var before := data;
      var bufsize := bytes % 64;
      var i := 0;
      assert before + p[..0] == before;
      if bufsize + |p| >= 64 {
        i := 64 - bufsize;
        FillBuffer(p[..i]);
      }
      while |p| - i >= 64
        invariant 0 <= i <= |p| && Valid() && data == before + p[..i]
        invariant bytes % 64 == 0 || (i == 0 && bytes % 64 + |p| < 64)
      {
        HashChunk(p[i..i + 64]);
        InTwo(before, p, i, i + 64);
        i := i + 64;
      }
      InTwo(before, p, i, |p|);
      if i < |p| {
        KeepRest(p[i..]);
      }
    }

    // sha256_update.
    method Update(p: seq<bv8>)
      requires Valid() && |data| + |p| < SIZE_LIMIT
      modifies this`bytes, this`data, s, buf
      ensures Valid()
      ensures data == old(data) + p
    {
      Add(p);
    }

    // sha256_done. It leaves the context invalid, with an empty buffer.
    method Done() returns (res: seq<bv8>)
      requires Valid() && |data| < SIZE_LIMIT
      modifies this`bytes, this`data, s, buf
      ensures res == Hash(old(data))
      ensures data == Pad(old(data)) && Tail(data) == []
    {
      hide Be64, HashBlocks, RegsOf, Tail, Zeros, Pad, PadLength, BitCount, Digest;
      PaddingIs(data);
      BitCountIs(bytes);
      var sizedesc := Be64(BitCount(bytes));
      Add(([0x80] + Zeros(63))[..PadLength(bytes)]);
      Add(sizedesc);
      res := Digest(RegsOf(s[..]));
      bytes := 0xffff_ffff_ffff_ffff;
    }
  }

  // sha256: one update and done.
  method Sha256(p: seq<bv8>) returns (res: seq<bv8>)
    requires |p| < SIZE_LIMIT
    ensures res == Hash(p)
  {
    hide Hash, HashBlocks, RegsOf, Tail;
    var ctx := new Context();
    ctx.Update(p);
    assert [] + p == p;
    res := ctx.Done();
  }
}
