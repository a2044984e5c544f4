// The encrypted direct messages of gnostr.c: padding, AES-CBC, base 64 and the layout of the
// buffer, and what a receiver with the same key makes of them.
module EncryptedMessage {
  import opened Bytes
  import opened Cursors
  import opened AesCipher
  import opened AesContext
  import opened AesCbc
  import opened Mining
  import Base64
  import Hex

  type Block = s: seq<byte> | |s| == 16 witness seq(16, _ => 0)

  const MARK: seq<byte> := [63, 105, 118, 61]   // ?iv=
  const QUESTION: byte := 63
  const TAG_P: seq<byte> := [112]

  // ---- Padding ----

  function PadLength(n: nat): (pad: nat)
    ensures 1 <= pad <= 16 && (n + pad) % 16 == 0
  {
    16 - n % 16
  }

  function Padded(text: seq<byte>): (padded: seq<byte>)
    ensures |padded| == |text| + PadLength(|text|) && |padded| % 16 == 0
  {
    var pad := PadLength(|text|);
    text + seq(pad, _ => pad)
  }

  // The receiver takes off as many bytes as the last one says.
  function Unpadded(padded: seq<byte>): Option<seq<byte>> {
    if padded == [] then None
    else
      var pad := padded[|padded| - 1];
      if pad > |padded| then None else Some(padded[..|padded| - pad])
  }

  lemma PaddingRoundTrip(text: seq<byte>)
    ensures Unpadded(Padded(text)) == Some(text)
  {
    var padded := Padded(text);
    assert padded[..|text|] == text;
  }

  lemma NamesAre()
    ensures MARK == Ascii("?iv=") && TAG_P == Ascii("p")
  {
    assert Ascii("?iv=")[0] == 63 && Ascii("?iv=")[1] == 105 && Ascii("?iv=")[2] == 118 && Ascii("?iv=")[3] == 61;
  }

  // One to sixteen bytes are added, each of which says how many, up to a whole number of blocks.
  lemma PaddingIs(text: seq<byte>)
    ensures var (padded, n) := (Padded(text), |Padded(text)| - |text|);
            && 1 <= n <= 16 && |padded| % 16 == 0 && padded[..|text|] == text
            && forall i | |text| <= i < |padded| :: padded[i] == n
  {
  }

  // The room that make_encrypted_dm provides holds the padding exactly for these lengths.
  lemma RoomForPadding(n: nat)
    ensures n + n % 16 + 1 >= n + PadLength(n) <==> n % 16 >= 8
  {
  }

  // ---- The content ----

  function Encrypted(rk: RoundKeys, iv: Block, padded: seq<byte>): (cipher: seq<byte>)
    ensures |cipher| == |padded| - |padded| % 16
  {
    AsBytes(CbcEncrypt(EncryptUnder(rk), Load(AsBits(iv), 0), AsBits(padded)))
  }

  function Decrypted(rk: RoundKeys, iv: Block, cipher: seq<byte>): seq<byte> {
    AsBytes(CbcDecrypt(DecryptUnder(rk), Load(AsBits(iv), 0), AsBits(cipher)))
  }

  lemma CipherRoundTrip(rk: RoundKeys, iv: Block, padded: seq<byte>)
    requires |padded| % 16 == 0
    ensures Decrypted(rk, iv, Encrypted(rk, iv, padded)) == padded
  {
    hide EncryptUnder, DecryptUnder, Load, CbcEncrypt, CbcDecrypt, AsOctet, AsByte;
    var bits := AsBits(padded);
    BitsRoundTrip(CbcEncrypt(EncryptUnder(rk), Load(AsBits(iv), 0), bits));
    BufferRoundTrip(rk, Load(AsBits(iv), 0), bits);
    BytesRoundTrip(padded);
  }

  function Encoded(s: seq<byte>): seq<byte> {
    Base64.Encode(Base64.Rfc4648(), s)
  }

  // The content of the message: the text and the initialisation vector, encoded.
  function Content(rk: RoundKeys, iv: Block, text: seq<byte>): seq<byte> {
    Encoded(Encrypted(rk, iv, Padded(text))) + MARK + Encoded(iv)
  }

  // The ciphertext, the mark and the initialisation vector, in this order.
  lemma ContentIs(rk: RoundKeys, iv: Block, text: seq<byte>)
    ensures Content(rk, iv, text) ==
            Base64.Encode(Base64.Rfc4648(), Encrypted(rk, iv, Padded(text))) + [63, 105, 118, 61]
            + Base64.Encode(Base64.Rfc4648(), iv)
  {
  }

  // ---- The receiver ----

  // Where the mark occurs first.
  function Find(content: seq<byte>): (k: Option<nat>)
    ensures k.Some? ==> k.value + 4 <= |content|
  {
    if |content| < 4 then None
    else if content[..4] == MARK then Some(0)
    else
      match Find(content[1..])
      case None => None
      case Some(k) => Some(k + 1)
  }

  function Received(rk: RoundKeys, content: seq<byte>): Option<seq<byte>> {
    match Find(content)
    case None => None
    case Some(k) =>
      match (Base64.Decode(Base64.Rfc4648(), content[..k]), Base64.Decode(Base64.Rfc4648(), content[k + 4..]))
      case (Some(cipher), Some(iv)) =>
        if |iv| == 16 && |cipher| % 16 == 0 then Unpadded(Decrypted(rk, iv, cipher)) else None
      case _ => None
  }

  lemma {:induction false} MarkIsFound(a: seq<byte>, b: seq<byte>)
    requires QUESTION !in a
    ensures Find(a + MARK + b) == Some(|a|)
  {
    var content := a + MARK + b;
    if a == [] {
      assert content[..4] == MARK;
    } else {
      assert content[..4][0] == a[0] && a[0] in a;
      assert content[1..] == a[1..] + MARK + b;
      MarkIsFound(a[1..], b);
    }
  }

  lemma EncodedIsClean(s: seq<byte>)
    ensures QUESTION !in Encoded(s) && 0 !in Encoded(s)
  {
    hide Base64.Encode, Base64.Rfc4648;
    if QUESTION in Encoded(s) {
      Base64.EncodedCharacters(Base64.Rfc4648(), s, QUESTION);
    }
    if 0 in Encoded(s) {
      Base64.EncodedCharacters(Base64.Rfc4648(), s, 0);
    }
  }

  lemma KeyDeterminesSchedule(rk: RoundKeys, rk': RoundKeys, key: Key)
    requires Expanded(rk, key) && Expanded(rk', key)
    ensures rk == rk'
  {
    hide KeyWord;
    forall k | 0 <= k < 240
      ensures rk[k] == rk'[k]
    {
      var i := k / 4;
      assert LoadColumn(rk, 4 * i) == KeyWord(key, i) == LoadColumn(rk', 4 * i);
      assert k == 4 * i || k == 4 * i + 1 || k == 4 * i + 2 || k == 4 * i + 3;
    }
  }

  // End to end: a receiver who expands the same key gets the text back, whatever its length.
  lemma EndToEnd(rk: RoundKeys, rk': RoundKeys, key: Key, iv: Block, text: seq<byte>)
    requires Expanded(rk, key) && Expanded(rk', key)
    ensures Received(rk', Content(rk, iv, text)) == Some(text)
  {
    hide Expanded, Base64.Encode, Base64.Decode, Base64.Rfc4648, Find, Encrypted, Decrypted, Padded, Unpadded;
    KeyDeterminesSchedule(rk, rk', key);
    var cipher := Encrypted(rk, iv, Padded(text));
    var (a, b) := (Encoded(cipher), Encoded(iv));
    var content := Content(rk, iv, text);
    EncodedIsClean(cipher);
    MarkIsFound(a, b);
    assert content[..|a|] == a && content[|a| + 4..] == b;
    Base64.RoundTrip(Base64.Rfc4648(), cipher);
    Base64.RoundTrip(Base64.Rfc4648(), iv);
    CipherRoundTrip(rk, iv, Padded(text));
    PaddingRoundTrip(text);
  }

  // ---- The program ----

  // AES_CBC_encrypt_buffer on the front of a buffer of bytes.
  method CbcEncryptFront(ctx: Context, buf: array<byte>, length: nat, ghost iv: Block)
    requires ctx.Valid() && length <= buf.Length && length % 16 == 0 && ctx.iv[..] == AsBits(iv)
    requires ctx.iv as object != buf && ctx.roundKey as object != buf
    modifies buf, ctx.iv
    ensures buf[..length] == Encrypted(ctx.roundKey[..], iv, old(buf[..length]))
    ensures buf[length..] == old(buf[length..])
  {
    hide EncryptUnder, Load, CbcEncrypt, LastBlock, AsOctet, AsByte;
    ghost var padded := buf[..length];
    var bits := new bv8[length](i requires 0 <= i < length <= buf.Length reads buf => AsOctet(buf[i]));
    assert bits[..] == AsBits(padded);
    assert bits[0..0 + length] == bits[..];
    CbcEncryptBuffer(ctx, bits, 0, length);
    assert bits[0..0 + length] == bits[..];
    assert AsBytes(bits[..]) == Encrypted(ctx.roundKey[..], iv, padded);
    CopyBits(buf, bits);
  }

  method CopyBits(buf: array<byte>, bits: array<bv8>)
    requires bits.Length <= buf.Length && bits as object != buf
    modifies buf
    ensures buf[..bits.Length] == AsBytes(bits[..]) && buf[bits.Length..] == old(buf[bits.Length..])
  {
    hide AsByte;
    for i := 0 to bits.Length
      invariant buf[..i] == AsBytes(bits[..])[..i] && buf[bits.Length..] == old(buf[bits.Length..])
    {
      buf[i] := AsByte(bits[i]);
    }
  }

  // aes_encrypt: pads the text in the buffer, which needs the room, and encrypts it there.
  method AesEncrypt(key: Key, iv: Block, buf: array<byte>, buflen: nat) returns (len: nat, ghost rk: RoundKeys)
    requires buflen + PadLength(buflen) <= buf.Length
    modifies buf
    ensures Expanded(rk, key) && len == buflen + PadLength(buflen)
    ensures buf[..len] == Encrypted(rk, iv, Padded(old(buf[..buflen])))
    ensures buf[len..] == old(buf[len..])
  {
    hide Expanded, Encrypted, Pushed, AsOctet;
    var padding: byte := PadLength(buflen);
    var cur := new Cursor(buf, 0, buflen + padding);
    ghost var text := buf[..buflen];
    cur.p := cur.p + buflen;
    PadWith(cur, padding);
    assert buf[..buflen + padding] == Padded(text);
    var k := new bv8[32](i requires 0 <= i < 32 => key[i]);
    var v := new bv8[16](i requires 0 <= i < 16 => AsOctet(iv[i]));
    assert k[..] == key && v[..] == AsBits(iv);
    var ctx := new Context(k, v);
    rk := ctx.roundKey[..];
    len := cur.Length();
    CbcEncryptFront(ctx, buf, len, iv);
  }

  method PadWith(cur: Cursor, padding: byte)
    requires cur.Valid() && cur.p + padding == cur.end
    modifies cur`p, cur.buf
    ensures cur.p == cur.end && cur.buf[..old(cur.p)] == old(cur.buf[..cur.p])
    ensures cur.buf[cur.end..] == old(cur.buf[cur.end..])
    ensures cur.buf[old(cur.p)..cur.end] == seq(padding, _ => padding)
  {
    ghost var (b0, p0, done) := (cur.buf[..], cur.p, []);
    PushedNothing(b0, p0, cur.end);
    for i := 0 to padding
      invariant cur.Valid() && Pushed(true, done, b0, p0, cur.buf[..], cur.p, cur.end) && done == seq(i, _ => padding)
    {
      ghost var (b1, p1) := (cur.buf[..], cur.p);
      var ok := cur.PushByte(padding);
      PushedThen(done, [padding], ok, b0, p0, b1, p1, cur.buf[..], cur.p, cur.end);
      done := done + [padding];
    }
    assert cur.buf[..][p0..cur.p] == cur.buf[p0..cur.p];
  }

  function OutputSize(n: nat): nat {
    (n + 16) * 3 + 65 * 10
  }

  // The output buffer has room for the content, its final zero, and the key that follows it.
  lemma OutputSuffices(n: nat)
    ensures Base64.EncodedLength(n + PadLength(n)) + 4 + Base64.EncodedLength(16) + 1 + 65 <= OutputSize(n)
    ensures Base64.EncodedLength(16) == 24
  {
  }

  method Rfc4648Maps() returns (maps: Base64.Maps)
    ensures maps.For(Base64.Rfc4648()) && fresh(maps.encodeMap) && fresh(maps.decodeMap)
  {
    var src := new byte[64](i requires 0 <= i < 64 => Base64.Letter(i));
    assert src[..] == Base64.Rfc4648();
    maps := new Base64.Maps(src);
  }

  method WriteIv(cur: Cursor, maps: Base64.Maps, iv: Block)
    requires cur.Valid() && cur.end == cur.buf.Length && cur.p + 25 <= cur.end
    requires maps.For(Base64.Rfc4648()) && cur.buf != maps.encodeMap
    modifies cur`p, cur.buf
    ensures cur.Valid() && cur.p == old(cur.p) + 25
    ensures cur.buf[..cur.p] == old(cur.buf[..cur.p]) + Encoded(iv) + [0]
  {
    hide Base64.Encode, Base64.Rfc4648;
    OutputSuffices(0);
    var v := new byte[16](i requires 0 <= i < 16 => iv[i]);
    assert v[..16] == iv;
    ghost var front := cur.buf[..cur.p];
    var r := Base64.EncodeUsingMaps(maps, cur.buf, cur.p, v, 16, Base64.Rfc4648());
    cur.p := cur.p + r;
    var _ := cur.PushByte(0);
    assert cur.buf[..][..cur.p] == front + Encoded(iv) + [0];
  }

  method WriteMark(cur: Cursor)
    requires cur.Valid() && cur.p + 4 < cur.end
    modifies cur`p, cur.buf
    ensures cur.Valid() && cur.p == old(cur.p) + 4 && cur.buf[..cur.p] == old(cur.buf[..cur.p]) + MARK
  {
    var _ := cur.Push(MARK);
    assert cur.buf[..][..cur.p] == old(cur.buf[..cur.p]) + MARK;
  }

  // The text and the initialisation vector, encoded into the buffer with a final zero. No
  // step fails, since the buffer has the room.
  method WriteContent(cur: Cursor, encbuf: array<byte>, enclen: nat, iv: Block)
    requires cur.Valid() && cur.p == cur.start == 0 && cur.end == cur.buf.Length
    requires encbuf != cur.buf && enclen <= encbuf.Length
    requires Base64.EncodedLength(enclen) + 4 + 25 <= cur.end
    modifies cur`p, cur.buf
    ensures cur.Valid() && cur.p == Base64.EncodedLength(enclen) + 29
    ensures cur.buf[..cur.p] == Encoded(old(encbuf[..enclen])) + MARK + Encoded(iv) + [0]
  {
    hide Base64.Encode, Base64.Rfc4648;
    ghost var cipher := encbuf[..enclen];
    var maps := Rfc4648Maps();
    var r := Base64.EncodeUsingMaps(maps, cur.buf, 0, encbuf, enclen, Base64.Rfc4648());
    assert cur.buf[..0] == [];
    assert cur.buf[..r] == Encoded(cipher);
    cur.p := cur.p + r;
    WriteMark(cur);
    WriteIv(cur, maps, iv);
  }

  // How a message is made: all went well; the list of tags was full; or the room for the padding
  // is less than the padding, which this model leaves open.
  datatype Outcome = Made | TooManyTags | Beyond

  // make_encrypted_dm, given the shared secret and the initialisation vector. The content is the
  // text of the buffer up to its first zero.
  method MakeEncryptedDm(ev: NostrEventRecord, sharedSecret: Key, iv: Block, nostrPubkey: seq<byte>, kind: int32)
      returns (outcome: Outcome, ghost rk: RoundKeys)
    requires |nostrPubkey| == 32
    modifies ev`content, ev`kind, ev`tags
    ensures outcome != Beyond ==> Expanded(rk, sharedSecret)
    ensures outcome == Beyond <==> |old(ev.content)| % 16 < 8
    ensures outcome == TooManyTags <==> |old(ev.content)| % 16 >= 8 && |old(ev.tags)| >= MAX_TAGS
    ensures outcome != Beyond ==>
              ev.content == Content(rk, iv, old(ev.content)) && 0 !in ev.content && ev.kind == kind
    ensures ev.tags == if outcome == Made then old(ev.tags) + [[TAG_P, Hex.Encode(nostrPubkey)]] else old(ev.tags)
  {
    hide Expanded, Content, Hex.Encode, OutputSize;
    var n := |ev.content|;
    ghost var text := ev.content;
    var encbuf := new byte[n + n % 16 + 1];
    RoomForPadding(n);
    if encbuf.Length < n + PadLength(n) {
      rk := seq(240, _ => 0);
      return Beyond, rk;
    }
    OutputSuffices(n);
    var buf := new byte[OutputSize(n)];
    forall i | 0 <= i < n {
      encbuf[i] := ev.content[i];
    }
    assert encbuf[..n] == text;
    var p;
    p, rk := WriteMessage(sharedSecret, iv, encbuf, n, buf);
    ContentIsClean(rk, iv, text);
    CStringIs(Content(rk, iv, text), buf[p..]);
    ev.content := CString(buf[..]);
    ev.kind := kind;
    var ok := AddKeyTag(ev, buf, p, nostrPubkey);
    outcome := if ok then Made else TooManyTags;
  }

  // Encrypts the text and writes the content with its final zero; p is the place after it.
  method WriteMessage(key: Key, iv: Block, encbuf: array<byte>, n: nat, buf: array<byte>)
      returns (p: nat, ghost rk: RoundKeys)
    requires n + PadLength(n) <= encbuf.Length && encbuf != buf && buf.Length == OutputSize(n)
    modifies encbuf, buf
    ensures Expanded(rk, key) && p + 65 <= buf.Length
    ensures buf[..] == Content(rk, iv, old(encbuf[..n])) + [0] + buf[p..]
  {
    hide Expanded, Encrypted, Padded, Base64.Encode, Base64.Rfc4648, OutputSize;
    OutputSuffices(n);
    var cur := new Cursor(buf, 0, buf.Length);
    var enclen;
    enclen, rk := AesEncrypt(key, iv, encbuf, n);
    WriteContent(cur, encbuf, enclen, iv);
    p := cur.p;
    assert buf[..] == buf[..p] + buf[p..];
  }

  // Writes the key in hexadecimal at the given place and adds a tag with the string there.
  method AddKeyTag(ev: NostrEventRecord, buf: array<byte>, at: nat, nostrPubkey: seq<byte>) returns (ok: bool)
    requires |nostrPubkey| == 32 && at + 65 <= buf.Length
    modifies ev`tags, buf
    ensures ok == (|old(ev.tags)| < MAX_TAGS)
    ensures ev.tags == if ok then old(ev.tags) + [[TAG_P, Hex.Encode(nostrPubkey)]] else old(ev.tags)
  {
    hide Hex.Encode;
    var wrote := Hex.HexEncode(nostrPubkey, buf, at);
    assert buf[at..] == Hex.Encode(nostrPubkey) + [0] + buf[at + 65..];
    Hex.HasNoZero(nostrPubkey);
    CStringIs(Hex.Encode(nostrPubkey), buf[at + 65..]);
    ok := ev.AddTag([TAG_P, CString(buf[at..])]);
  }

  lemma ContentIsClean(rk: RoundKeys, iv: Block, text: seq<byte>)
    ensures 0 !in Content(rk, iv, text)
  {
    hide Encrypted, Padded, Encoded;
    EncodedIsClean(Encrypted(rk, iv, Padded(text)));
    EncodedIsClean(iv);
  }
}
