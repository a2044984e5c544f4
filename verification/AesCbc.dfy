// The CBC mode of aes.c, NIST SP 800-38A section 6.2: the chaining over values, for any
// invertible block cipher, and the two loops that compute it in place.
module AesCbc {
  import opened AesField
  import opened AesCipher
  import opened AesBlock
  import opened AesContext

  // ---- CBC over values, for any block cipher ----

  // The two directions of the cipher under one key schedule.
  function EncryptUnder(rk: RoundKeys): State -> State {
    s => Encrypt(s, rk)
  }

  function DecryptUnder(rk: RoundKeys): State -> State {
    s => Decrypt(s, rk)
  }

  ghost predicate Inverse(enc: State -> State, dec: State -> State) {
    && (forall s :: dec(enc(s)) == s)
    && (forall s :: enc(dec(s)) == s)
  }

  lemma DirectionsAreInverse(rk: RoundKeys)
    ensures Inverse(EncryptUnder(rk), DecryptUnder(rk))
  {
    hide Encrypt, Decrypt;
    forall s
      ensures DecryptUnder(rk)(EncryptUnder(rk)(s)) == s
      ensures EncryptUnder(rk)(DecryptUnder(rk)(s)) == s
    {
      DecryptUndoesEncrypt(s, rk);
      EncryptUndoesDecrypt(s, rk);
    }
  }

  // Encrypts the whole blocks of a buffer, chaining each block into the next.
  function CbcEncrypt(enc: State -> State, iv: State, p: seq<bv8>): (c: seq<bv8>)
    ensures |c| == |p| - |p| % 16
    decreases |p|
  {
    hide *;
    if |p| < 16 then []
    else
      var c := enc(Xor(Load(p, 0), iv));
      Store(c) + CbcEncrypt(enc, c, p[16..])
  }

  function CbcDecrypt(dec: State -> State, iv: State, c: seq<bv8>): (p: seq<bv8>)
    ensures |p| == |c| - |c| % 16
    decreases |c|
  {
    hide *;
    if |c| < 16 then []
    else Store(Xor(dec(Load(c, 0)), iv)) + CbcDecrypt(dec, Load(c, 0), c[16..])
  }

  // The chaining value after a run of ciphertext.
  function LastBlock(iv: State, c: seq<bv8>): State {
    if |c| < 16 then iv else Load(c, |c| - 16)
  }

  lemma StoreLoad(b: seq<bv8>)
    requires |b| >= 16
    ensures Store(Load(b, 0)) == b[..16]
  {
  }

  lemma LoadPrefix(b: seq<bv8>, b': seq<bv8>, o: nat)
    requires o + 16 <= |b|
    ensures Load(b + b', o) == Load(b, o)
    ensures Load(b, o) == Load(b[o..], 0)
  {
  }

  lemma StoreThen(s: State, rest: seq<bv8>)
    ensures Load(Store(s) + rest, 0) == s
    ensures (Store(s) + rest)[16..] == rest
  {
    hide Load, Store;
    LoadPrefix(Store(s), rest, 0);
  }

  lemma LastBlockTail(iv: State, x: State, rest: seq<bv8>)
    requires |rest| % 16 == 0
    ensures LastBlock(iv, Store(x) + rest) == LastBlock(x, rest)
  {
    hide Store, Load;
    var c := Store(x) + rest;
    if |rest| < 16 {
      assert c == Store(x);
    } else {
      LoadPrefix(c, [], |c| - 16);
      LoadPrefix(rest, [], |rest| - 16);
      assert c[|c| - 16..] == rest[|rest| - 16..];
    }
  }

  // Decrypting what was encrypted restores it, whatever the IV and the length.
  lemma {:induction false} CbcRoundTrip(enc: State -> State, dec: State -> State, iv: State, p: seq<bv8>)
    requires Inverse(enc, dec)
    requires |p| % 16 == 0
    ensures CbcDecrypt(dec, iv, CbcEncrypt(enc, iv, p)) == p
    decreases |p|
  {
    hide Xor, Store, Load;
    if |p| >= 16 {
      var x := Xor(Load(p, 0), iv);
      StoreThen(enc(x), CbcEncrypt(enc, enc(x), p[16..]));
      XorTwice(Load(p, 0), iv);
      StoreLoad(p);
      CbcRoundTrip(enc, dec, enc(x), p[16..]);
      assert p == p[..16] + p[16..];
    }
  }

  // Every buffer of whole blocks is the ciphertext of its own decryption.
  lemma {:induction false} CbcRoundTripBack(enc: State -> State, dec: State -> State, iv: State, c: seq<bv8>)
    requires Inverse(enc, dec)
    requires |c| % 16 == 0
    ensures CbcEncrypt(enc, iv, CbcDecrypt(dec, iv, c)) == c
    decreases |c|
  {
    hide Xor, Store, Load;
    if |c| >= 16 {
      var y := dec(Load(c, 0));
      StoreThen(Xor(y, iv), CbcDecrypt(dec, Load(c, 0), c[16..]));
      XorTwice(y, iv);
      StoreLoad(c);
      CbcRoundTripBack(enc, dec, Load(c, 0), c[16..]);
      assert c == c[..16] + c[16..];
    }
  }

  // Cutting a buffer at a block boundary and carrying the chaining value over changes nothing.
  lemma {:induction false} CbcEncryptSplit(enc: State -> State, iv: State, p: seq<bv8>, q: seq<bv8>)
    requires |p| % 16 == 0 && |q| % 16 == 0
    ensures var c := CbcEncrypt(enc, iv, p);
            CbcEncrypt(enc, iv, p + q) == c + CbcEncrypt(enc, LastBlock(iv, c), q)
    decreases |p|
  {
    hide Xor, Store, Load;
    if |p| < 16 {
      assert p + q == q;
    } else {
      var x := enc(Xor(Load(p, 0), iv));
      var rest := CbcEncrypt(enc, x, p[16..]);
      LoadPrefix(p, q, 0);
      assert (p + q)[16..] == p[16..] + q;
      CbcEncryptSplit(enc, x, p[16..], q);
      LastBlockTail(iv, x, rest);
    }
  }

  lemma {:induction false} CbcDecryptSplit(dec: State -> State, iv: State, c: seq<bv8>, d: seq<bv8>)
    requires |c| % 16 == 0 && |d| % 16 == 0
    ensures CbcDecrypt(dec, iv, c + d) == CbcDecrypt(dec, iv, c) + CbcDecrypt(dec, LastBlock(iv, c), d)
    decreases |c|
  {
    hide Xor, Store, Load;
    if |c| < 16 {
      assert c + d == d;
    } else {
      var x := Load(c, 0);
      LoadPrefix(c, d, 0);
      assert (c + d)[16..] == c[16..] + d;
      CbcDecryptSplit(dec, x, c[16..], d);
      StoreLoad(c);
      LastBlockTail(iv, x, c[16..]);
      assert c == c[..16] + c[16..];
    }
  }

  // A wrong IV spoils the first block only.
  lemma CbcSelfSynchronises(dec: State -> State, iv: State, iv': State, c: seq<bv8>)
    requires |c| % 16 == 0 && |c| >= 16
    ensures CbcDecrypt(dec, iv, c)[16..] == CbcDecrypt(dec, iv', c)[16..] == CbcDecrypt(dec, Load(c, 0), c[16..])
  {
    hide Xor, Store, Load;
  }

  lemma BlockBytes(b: seq<bv8>, o: nat)
    requires o + 16 <= |b|
    ensures b[o..o + 16] == Store(Load(b, o))
  {
    LoadPrefix(b, [], o);
    StoreLoad(b[o..]);
  }

  // One turn of either loop, on the equation its invariant keeps.
  lemma CbcEncryptTurn(enc: State -> State, iv: State, plain: seq<bv8>, done: seq<bv8>, chain: State, i: nat)
    requires |plain| % 16 == 0 && i % 16 == 0 && i + 16 <= |plain|
    requires CbcEncrypt(enc, iv, plain) == done + CbcEncrypt(enc, chain, plain[i..])
    ensures var c := enc(Xor(Load(plain, i), chain));
            CbcEncrypt(enc, iv, plain) == (done + Store(c)) + CbcEncrypt(enc, c, plain[i + 16..])
  {
    hide Xor, Load, Store;
    LoadPrefix(plain, [], i);
    assert plain[i..][16..] == plain[i + 16..];
  }

  lemma CbcDecryptTurn(dec: State -> State, iv: State, cipher: seq<bv8>, done: seq<bv8>, chain: State, i: nat)
    requires |cipher| % 16 == 0 && i % 16 == 0 && i + 16 <= |cipher|
    requires CbcDecrypt(dec, iv, cipher) == done + CbcDecrypt(dec, chain, cipher[i..])
    ensures CbcDecrypt(dec, iv, cipher) ==
            (done + Store(Xor(dec(Load(cipher, i)), chain))) + CbcDecrypt(dec, Load(cipher, i), cipher[i + 16..])
  {
    hide Xor, Load, Store;
    LoadPrefix(cipher, [], i);
    assert cipher[i..][16..] == cipher[i + 16..];
  }

  lemma GrowSlice(before: seq<bv8>, after: seq<bv8>, o: nat, i: nat)
    requires o + i + 16 <= |before|
    requires OnlyBlock(before, after, o + i)
    ensures after[o..o + i + 16] == before[o..o + i] + Store(Load(after, o + i))
    ensures Load(after[o..o + i + 16], i) == Load(after, o + i)
    ensures after[..o] == before[..o]
  {
    hide Store;
    BlockBytes(after, o + i);
    assert after[..o + i][o..] == before[..o + i][o..];
    assert after[..o + i][..o] == before[..o + i][..o];
  }

  method CbcEncryptBlock(buf: array<bv8>, p: nat, chain: array<bv8>, at: nat, roundKey: array<bv8>)
    requires p + 16 <= buf.Length && at + 16 <= chain.Length && roundKey.Length == 240 && buf != roundKey
    requires buf == chain ==> at + 16 <= p
    modifies buf
    ensures OnlyBlock(old(buf[..]), buf[..], p)
    ensures Load(buf[..], p) == EncryptUnder(roundKey[..])(Xor(old(Load(buf[..], p)), old(Load(chain[..], at))))
  {
    hide Encrypt, Xor, Load;
    XorWithIv(buf, p, chain, at);
    Cipher(buf, p, roundKey);
  }

  // How far an encryption of the slice of length bytes at o has come: its first i bytes are
  // done, x is the chaining value, and the rest of the buffer is as it was at the start.
  ghost predicate EncryptedTo(enc: State -> State, iv: State, start: seq<bv8>, now: seq<bv8>,
                              o: nat, length: nat, i: nat, x: State)
  {
    && |now| == |start| && i <= length && o + length <= |start|
    && now[..o] == start[..o] && now[o + i..] == start[o + i..]
    && x == LastBlock(iv, now[o..o + i])
    && CbcEncrypt(enc, iv, start[o..o + length]) == now[o..o + i] + CbcEncrypt(enc, x, start[o + i..o + length])
  }

  lemma EncryptionStarts(enc: State -> State, iv: State, start: seq<bv8>, o: nat, length: nat)
    requires o + length <= |start|
    ensures EncryptedTo(enc, iv, start, start, o, length, 0, iv)
  {
    assert start[o..o + 0] == [];
  }

  lemma SliceTail(b: seq<bv8>, o: nat, length: nat, i: nat)
    requires i <= length && o + length <= |b|
    ensures b[o + i..o + length] == b[o..o + length][i..]
  {
  }

  lemma SuffixTail(b: seq<bv8>, b': seq<bv8>, a: nat, n: nat)
    requires a + n <= |b| == |b'| && b[a..] == b'[a..]
    ensures b[a + n..] == b'[a + n..]
  {
    assert b[a..][n..] == b[a + n..] && b'[a..][n..] == b'[a + n..];
  }

  lemma LastBlockOfSlice(iv: State, b: seq<bv8>, o: nat, i: nat)
    requires o + i + 16 <= |b|
    ensures LastBlock(iv, b[o..o + i + 16]) == Load(b, o + i)
  {
  }

  lemma EncryptionTurns(enc: State -> State, iv: State, start: seq<bv8>, before: seq<bv8>, after: seq<bv8>,
                        o: nat, length: nat, i: nat, x: State)
    requires EncryptedTo(enc, iv, start, before, o, length, i, x)
    requires length % 16 == 0 && i % 16 == 0 && i < length
    requires OnlyBlock(before, after, o + i)
    requires Load(after, o + i) == enc(Xor(Load(before, o + i), x))
    ensures EncryptedTo(enc, iv, start, after, o, length, i + 16, Load(after, o + i))
  {
    hide Xor, Load, Store, LastBlock, CbcEncrypt;
    var plain := start[o..o + length];
    SliceTail(start, o, length, i);
    SliceTail(start, o, length, i + 16);
    SameBlock(before, start, plain, o, i);
    CbcEncryptTurn(enc, iv, plain, before[o..o + i], x, i);
    GrowSlice(before, after, o, i);
    SuffixTail(start, before, o + i, 16);
    LastBlockOfSlice(iv, after, o, i);
  }

  lemma EncryptionEnds(enc: State -> State, iv: State, start: seq<bv8>, now: seq<bv8>, o: nat, length: nat, x: State)
    requires EncryptedTo(enc, iv, start, now, o, length, length, x)
    requires length % 16 == 0
    ensures |now| == |start| && o + length <= |start|
    ensures now[..o] == start[..o] && now[o + length..] == start[o + length..]
    ensures now[o..o + length] == CbcEncrypt(enc, iv, start[o..o + length])
    ensures x == LastBlock(iv, now[o..o + length])
  {
    assert CbcEncrypt(enc, x, []) == [];
    assert start[o + length..o + length] == [];
  }

  // AES_CBC_encrypt_buffer. The chaining value is first the context's IV and then the
  // ciphertext block just written, which the loop reads back from the buffer.
  method CbcEncryptBuffer(ctx: Context, buf: array<bv8>, o: nat, length: nat)
    requires ctx.Valid() && buf != ctx.roundKey && buf != ctx.iv
    requires length % 16 == 0 && o + length <= buf.Length
    modifies buf, ctx.iv
    ensures buf[..o] == old(buf[..o]) && buf[o + length..] == old(buf[o + length..])
    ensures buf[o..o + length] ==
            CbcEncrypt(EncryptUnder(ctx.roundKey[..]), old(Load(ctx.iv[..], 0)), old(buf[o..o + length]))
    ensures Load(ctx.iv[..], 0) == LastBlock(old(Load(ctx.iv[..], 0)), buf[o..o + length])
  {
    hide EncryptUnder, Xor, Load, Store, OnlyBlock, LastBlock, CbcEncrypt, EncryptedTo;
    ghost var (enc, iv0, start) := (EncryptUnder(ctx.roundKey[..]), Load(ctx.iv[..], 0), buf[..]);
    var i, p := 0, o;
    var chain, at := ctx.iv, 0;
    EncryptionStarts(enc, iv0, start, o, length);
    while i < length
      invariant 0 <= i <= length && i % 16 == 0 && p == o + i
      invariant if i == 0 then chain == ctx.iv && at == 0 else chain == buf && at == p - 16
      invariant ctx.iv[..] == old(ctx.iv[..])
      invariant EncryptedTo(enc, iv0, start, buf[..], o, length, i, Load(chain[..], at))
    {
      ghost var (x, before) := (Load(chain[..], at), buf[..]);
      CbcEncryptBlock(buf, p, chain, at, ctx.roundKey);
      EncryptionTurns(enc, iv0, start, before, buf[..], o, length, i, x);
      chain, at := buf, p;
      i, p := i + 16, p + 16;
    }
    EncryptionEnds(enc, iv0, start, buf[..], o, length, Load(chain[..], at));
    ghost var last := chain[..];
    CopyBlock(ctx.iv, chain, at);
    LoadCopied(last, at, ctx.iv[..]);
  }

  // How far a decryption has come. The chaining value is the last ciphertext block read.
  ghost predicate DecryptedTo(dec: State -> State, iv: State, start: seq<bv8>, now: seq<bv8>,
                              o: nat, length: nat, i: nat, x: State)
  {
    && |now| == |start| && i <= length && o + length <= |start|
    && now[..o] == start[..o] && now[o + i..] == start[o + i..]
    && x == LastBlock(iv, start[o..o + i])
    && CbcDecrypt(dec, iv, start[o..o + length]) == now[o..o + i] + CbcDecrypt(dec, x, start[o + i..o + length])
  }

  lemma DecryptionStarts(dec: State -> State, iv: State, start: seq<bv8>, o: nat, length: nat)
    requires o + length <= |start|
    ensures DecryptedTo(dec, iv, start, start, o, length, 0, iv)
  {
    assert start[o..o + 0] == [];
  }

  lemma DecryptionTurns(dec: State -> State, iv: State, start: seq<bv8>, before: seq<bv8>, after: seq<bv8>,
                        o: nat, length: nat, i: nat, x: State)
    requires DecryptedTo(dec, iv, start, before, o, length, i, x)
    requires length % 16 == 0 && i % 16 == 0 && i < length
    requires OnlyBlock(before, after, o + i)
    requires Load(after, o + i) == Xor(dec(Load(before, o + i)), x)
    ensures DecryptedTo(dec, iv, start, after, o, length, i + 16, Load(before, o + i))
  {
    hide Xor, Load, Store, LastBlock, CbcDecrypt;
    var cipher := start[o..o + length];
    SliceTail(start, o, length, i);
    SliceTail(start, o, length, i + 16);
    SameBlock(before, start, cipher, o, i);
    CbcDecryptTurn(dec, iv, cipher, before[o..o + i], x, i);
    GrowSlice(before, after, o, i);
    SuffixTail(start, before, o + i, 16);
    LastBlockOfSlice(iv, start, o, i);
    SameBlock(start, start, cipher, o, i);
  }

  lemma DecryptionEnds(dec: State -> State, iv: State, start: seq<bv8>, now: seq<bv8>, o: nat, length: nat, x: State)
    requires DecryptedTo(dec, iv, start, now, o, length, length, x)
    requires length % 16 == 0
    ensures |now| == |start| && o + length <= |start|
    ensures now[..o] == start[..o] && now[o + length..] == start[o + length..]
    ensures now[o..o + length] == CbcDecrypt(dec, iv, start[o..o + length])
    ensures x == LastBlock(iv, start[o..o + length])
  {
    assert CbcDecrypt(dec, x, []) == [];
    assert start[o + length..o + length] == [];
  }

  // The body of the decryption loop.
  method CbcDecryptBlock(buf: array<bv8>, p: nat, iv: array<bv8>, roundKey: array<bv8>, storeNextIv: array<bv8>)
    requires p + 16 <= buf.Length && iv.Length == storeNextIv.Length == 16 && roundKey.Length == 240
    requires buf != roundKey && buf != iv && buf != storeNextIv && iv != roundKey && iv != storeNextIv
    requires storeNextIv != roundKey
    modifies buf, iv, storeNextIv
    ensures OnlyBlock(old(buf[..]), buf[..], p)
    ensures Load(buf[..], p) == Xor(DecryptUnder(roundKey[..])(old(Load(buf[..], p))), old(Load(iv[..], 0)))
    ensures Load(iv[..], 0) == old(Load(buf[..], p))
  {
    hide Decrypt, Xor, Load;
    CopyBlock(storeNextIv, buf, p);
    InvCipher(buf, p, roundKey);
    XorWithIv(buf, p, iv, 0);
    CopyBlock(iv, storeNextIv, 0);
    LoadCopied(old(buf[..]), p, iv[..]);
  }

  // AES_CBC_decrypt_buffer. Each ciphertext block is kept aside before it is overwritten,
  // and becomes the context's IV after it was used.
  method CbcDecryptBuffer(ctx: Context, buf: array<bv8>, o: nat, length: nat)
    requires ctx.Valid() && buf != ctx.roundKey && buf != ctx.iv
    requires length % 16 == 0 && o + length <= buf.Length
    modifies buf, ctx.iv
    ensures buf[..o] == old(buf[..o]) && buf[o + length..] == old(buf[o + length..])
    ensures buf[o..o + length] ==
            CbcDecrypt(DecryptUnder(ctx.roundKey[..]), old(Load(ctx.iv[..], 0)), old(buf[o..o + length]))
    ensures Load(ctx.iv[..], 0) == LastBlock(old(Load(ctx.iv[..], 0)), old(buf[o..o + length]))
  {
    hide DecryptUnder, Xor, Load, Store, OnlyBlock, LastBlock, CbcDecrypt, DecryptedTo;
    ghost var (dec, iv0, start) := (DecryptUnder(ctx.roundKey[..]), Load(ctx.iv[..], 0), buf[..]);
    var storeNextIv := new bv8[16];
    var i, p := 0, o;
    DecryptionStarts(dec, iv0, start, o, length);
    while i < length
      invariant 0 <= i <= length && i % 16 == 0 && p == o + i
      invariant DecryptedTo(dec, iv0, start, buf[..], o, length, i, Load(ctx.iv[..], 0))
    {
      ghost var (x, before) := (Load(ctx.iv[..], 0), buf[..]);
      CbcDecryptBlock(buf, p, ctx.iv, ctx.roundKey, storeNextIv);
      DecryptionTurns(dec, iv0, start, before, buf[..], o, length, i, x);
      i, p := i + 16, p + 16;
    }
    DecryptionEnds(dec, iv0, start, buf[..], o, length, Load(ctx.iv[..], 0));
  }

  // The two calls undo each other, in either order, under any round keys.
  lemma BufferRoundTrip(rk: RoundKeys, iv: State, plain: seq<bv8>)
    requires |plain| % 16 == 0
    ensures var cipher := CbcEncrypt(EncryptUnder(rk), iv, plain);
            |cipher| == |plain| && CbcDecrypt(DecryptUnder(rk), iv, cipher) == plain
    ensures CbcEncrypt(EncryptUnder(rk), iv, CbcDecrypt(DecryptUnder(rk), iv, plain)) == plain
  {
    hide EncryptUnder, DecryptUnder, Inverse;
    DirectionsAreInverse(rk);
    CbcRoundTrip(EncryptUnder(rk), DecryptUnder(rk), iv, plain);
    CbcRoundTripBack(EncryptUnder(rk), DecryptUnder(rk), iv, plain);
  }

  // The two calls together: a buffer encrypted by one side and decrypted by the other, with the
  // same round keys and IV, is restored, and both sides end with the same IV: the last block of
  // the ciphertext.
  method EncryptThenDecrypt(sender: Context, receiver: Context, buf: array<bv8>, o: nat, length: nat)
      returns (ghost cipher: seq<bv8>)
    requires sender.Valid() && receiver.Valid() && sender.iv != receiver.iv
    requires {sender.iv, receiver.iv, buf} !! {sender.roundKey, receiver.roundKey}
    requires buf != sender.iv && buf != receiver.iv
    requires sender.roundKey[..] == receiver.roundKey[..] && sender.iv[..] == receiver.iv[..]
    requires length % 16 == 0 && o + length <= buf.Length
    modifies buf, sender.iv, receiver.iv
    ensures buf[..] == old(buf[..])
    ensures var iv := old(Load(sender.iv[..], 0));
            && cipher == CbcEncrypt(EncryptUnder(sender.roundKey[..]), iv, old(buf[o..o + length]))
            && Load(sender.iv[..], 0) == Load(receiver.iv[..], 0) == LastBlock(iv, cipher)
  {
    hide EncryptUnder, DecryptUnder, CbcEncrypt, CbcDecrypt, Load, LastBlock;
    ghost var (plain, iv) := (buf[o..o + length], Load(sender.iv[..], 0));
    ghost var (front, back) := (buf[..o], buf[o + length..]);
    assert buf[..] == front + plain + back;
    BufferRoundTrip(sender.roundKey[..], iv, plain);
    CbcEncryptBuffer(sender, buf, o, length);
    cipher := buf[o..o + length];
    CbcDecryptBuffer(receiver, buf, o, length);
    assert buf[..] == front + buf[o..o + length] + buf[o + length..];
  }

  lemma LoadCopied(src: seq<bv8>, at: nat, copy: seq<bv8>)
    requires at + 16 <= |src| && copy == src[at..at + 16]
    ensures Load(copy, 0) == Load(src, at)
  {
  }

  method XorWithIv(buf: array<bv8>, o: nat, chain: array<bv8>, at: nat)
    requires o + 16 <= buf.Length && at + 16 <= chain.Length
    requires buf == chain ==> at + 16 <= o
    modifies buf
    ensures OnlyBlock(old(buf[..]), buf[..], o)
    ensures Load(buf[..], o) == Xor(old(Load(buf[..], o)), old(Load(chain[..], at)))
  {
    hide Add;
    for i := 0 to 16
      invariant OnlyBlock(old(buf[..]), buf[..], o)
      invariant forall a | o <= a < o + 16 ::
        buf[a] == if a < o + i then Add(old(buf[a]), old(chain[at + a - o])) else old(buf[a])
    {
      buf[o + i] := Add(buf[o + i], chain[at + i]);
    }
  }

  // The part of a buffer that a loop has not reached yet.
  lemma SameBlock(now: seq<bv8>, before: seq<bv8>, slice: seq<bv8>, o: nat, i: nat)
    requires i + 16 <= |slice| && o + |slice| <= |before| == |now|
    requires slice == before[o..o + |slice|] && now[o + i..] == before[o + i..]
    ensures Load(now, o + i) == Load(slice, i)
  {
    assert forall k | i <= k < i + 16 :: now[o + k] == now[o + i..][k - i] == before[o + i..][k - i] == slice[k];
  }
}
