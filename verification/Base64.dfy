// Base 64 with an alphabet of the caller's choice, as in base64.c (section 4 of RFC 4648). The
// bit fields of the source are written as quotients and remainders by powers of two.
module Base64 {
  import opened Bytes

  type sixbit = x: int | 0 <= x < 64

  const PAD: byte := '=' as int
  const FILL: byte := 'A' as int

  // ---- The alphabet ----

  predicate IsAlphabet(alphabet: seq<byte>) {
    |alphabet| == 64 && forall i, j | 0 <= i < j < 64 :: alphabet[i] != alphabet[j]
  }

  // The last place of a character among the given ones, or -1.
  function Place(alphabet: seq<byte>, c: byte): (place: int)
    ensures -1 <= place < |alphabet| && (place >= 0 ==> alphabet[place] == c)
    ensures place == -1 ==> c !in alphabet
  {
    if alphabet == [] then -1
    else if alphabet[|alphabet| - 1] == c then |alphabet| - 1
    else Place(alphabet[..|alphabet| - 1], c)
  }

  lemma PlaceOf(alphabet: seq<byte>, v: sixbit)
    requires IsAlphabet(alphabet)
    ensures Place(alphabet, alphabet[v]) == v
  {
    assert alphabet[v] in alphabet;
  }

  // The alphabet of RFC 4648.
  function Letter(v: sixbit): byte {
    if v < 26 then 'A' as int + v else if v < 52 then 'a' as int + v - 26 else if v < 62 then '0' as int + v - 52
    else if v == 62 then '+' as int else '/' as int
  }

  function Rfc4648(): (alphabet: seq<byte>)
    ensures IsAlphabet(alphabet) && PAD !in alphabet && FILL in alphabet
    ensures forall c | c in alphabet :: c != 0 && c != '?' as int
  {
    var alphabet := seq(64, v requires 0 <= v < 64 => Letter(v));
    assert alphabet[0] == FILL;
    alphabet
  }

  // ---- The specification ----

  function Encoded(alphabet: seq<byte>, a: byte, b: byte, c: byte): (quartet: seq<byte>)
    requires |alphabet| == 64
    ensures |quartet| == 4
  {
    [alphabet[a / 4], alphabet[a % 4 * 16 + b / 16], alphabet[c / 64 + b % 16 * 4], alphabet[c % 64]]
  }

  function Padding(n: nat): (padding: seq<byte>)
    ensures |padding| == n && forall i | 0 <= i < n :: padding[i] == PAD
  {
    seq(n, _ => PAD)
  }

  function EncodedTail(alphabet: seq<byte>, s: seq<byte>): (tail: seq<byte>)
    requires |alphabet| == 64 && 1 <= |s| <= 2
    ensures |tail| == 4
  {
    Encoded(alphabet, s[0], if |s| == 2 then s[1] else 0, 0)[..1 + |s|] + Padding(3 - |s|)
  }

  function Encode(alphabet: seq<byte>, s: seq<byte>): seq<byte>
    requires |alphabet| == 64
  {
    if |s| == 0 then []
    else if |s| < 3 then EncodedTail(alphabet, s)
    else Encoded(alphabet, s[0], s[1], s[2]) + Encode(alphabet, s[3..])
  }

  // The four numbers below 64 that a triplet is cut into, put together again.
  function Joined(v: sixbit, w: sixbit, x: sixbit, y: sixbit): (triplet: seq<byte>)
    ensures |triplet| == 3
  {
    [v * 4 + w / 16, w % 16 * 16 + x / 4, x % 4 * 64 + y]
  }

  function Decoded(alphabet: seq<byte>, quartet: seq<byte>): (triplet: Option<seq<byte>>)
    requires |alphabet| == 64 && |quartet| == 4
    ensures triplet.Some? ==> |triplet.value| == 3
  {
    var (a, b) := (Place(alphabet, quartet[0]), Place(alphabet, quartet[1]));
    var (c, d) := (Place(alphabet, quartet[2]), Place(alphabet, quartet[3]));
    if a == -1 || b == -1 || c == -1 || d == -1 then None
    else Some(Joined(a, b, c, d))
  }

  // Without the padding at its end.
  function Stripped(s: seq<byte>): (t: seq<byte>)
    ensures |t| <= |s| && t == s[..|t|] && (t != [] ==> t[|t| - 1] != PAD)
  {
    if s != [] && s[|s| - 1] == PAD then Stripped(s[..|s| - 1]) else s
  }

  function Filled(s: seq<byte>): (t: seq<byte>)
    requires |s| <= 4
    ensures |t| == 4
  {
    s + seq(4 - |s|, _ => FILL)
  }

  function DecodedTail(alphabet: seq<byte>, s: seq<byte>): (tail: Option<seq<byte>>)
    requires |alphabet| == 64 && |s| <= 4
    ensures tail.Some? ==> |tail.value| <= 3
  {
    var t := Stripped(s);
    if t == [] then Some([])
    else if |t| == 1 then None
    else
      match Decoded(alphabet, Filled(t))
      case None => None
      case Some(triplet) => Some(triplet[..|t| - 1])
  }

  function Decode(alphabet: seq<byte>, s: seq<byte>): Option<seq<byte>>
    requires |alphabet| == 64
  {
    if |s| <= 4 then DecodedTail(alphabet, s)
    else
      match (Decoded(alphabet, s[..4]), Decode(alphabet, s[4..]))
      case (Some(triplet), Some(others)) => Some(triplet + others)
      case _ => None
  }

  function EncodedLength(n: nat): nat {
    (n + 2) / 3 * 4
  }

  function DecodedLength(n: nat): nat {
    (n + 3) / 4 * 3
  }

  // ---- Round trip ----

  lemma FirstByte(a: byte, b: byte)
    ensures a / 4 * 4 + (a % 4 * 16 + b / 16) / 16 == a
  {
    assert (a % 4 * 16 + b / 16) / 16 == a % 4;
  }

  lemma SecondByte(a: byte, b: byte, c: byte)
    ensures (a % 4 * 16 + b / 16) % 16 * 16 + (c / 64 + b % 16 * 4) / 4 == b
  {
    assert (a % 4 * 16 + b / 16) % 16 == b / 16;
    assert (c / 64 + b % 16 * 4) / 4 == b % 16;
  }

  lemma ThirdByte(b: byte, c: byte)
    ensures (c / 64 + b % 16 * 4) % 4 * 64 + c % 64 == c
  {
    assert (c / 64 + b % 16 * 4) % 4 == c / 64;
  }

  lemma DecodedIsJoined(alphabet: seq<byte>, v: sixbit, w: sixbit, x: sixbit, y: sixbit)
    requires IsAlphabet(alphabet)
    ensures Decoded(alphabet, [alphabet[v], alphabet[w], alphabet[x], alphabet[y]]) == Some(Joined(v, w, x, y))
  {
    hide Place;
    PlaceOf(alphabet, v);
    PlaceOf(alphabet, w);
    PlaceOf(alphabet, x);
    PlaceOf(alphabet, y);
  }

  lemma TripletRoundTrip(alphabet: seq<byte>, a: byte, b: byte, c: byte)
    requires IsAlphabet(alphabet)
    ensures Decoded(alphabet, Encoded(alphabet, a, b, c)) == Some([a, b, c])
  {
    hide Decoded;
    DecodedIsJoined(alphabet, a / 4, a % 4 * 16 + b / 16, c / 64 + b % 16 * 4, c % 64);
    FirstByte(a, b);
    SecondByte(a, b, c);
    ThirdByte(b, c);
  }

  // What a quartet decodes to does not depend on its last characters, but for its last bytes.
  lemma TailRoundTrip(alphabet: seq<byte>, s: seq<byte>)
    requires IsAlphabet(alphabet) && PAD !in alphabet && FILL in alphabet && 1 <= |s| <= 2
    ensures DecodedTail(alphabet, EncodedTail(alphabet, s)) == Some(s)
  {
    hide Place;
    var b: byte := if |s| == 2 then s[1] else 0;
    var quartet := Encoded(alphabet, s[0], b, 0);
    StripPadding(quartet[..1 + |s|], 3 - |s|);
    PlaceOf(alphabet, s[0] / 4);
    PlaceOf(alphabet, s[0] % 4 * 16 + b / 16);
    PlaceOf(alphabet, b % 16 * 4);
    assert Place(alphabet, FILL) != -1;
    assert quartet[|s|] in alphabet;
    var t := quartet[..1 + |s|];
    assert Stripped(EncodedTail(alphabet, s)) == t;
    assert Filled(t)[|t|..] == seq(4 - |t|, _ => FILL);
    var triplet := Decoded(alphabet, Filled(t)).value;
    assert triplet[0] == s[0] && (|s| == 2 ==> triplet[1] == s[1]);
    assert triplet[..|s|] == s;
  }

  lemma {:induction false} StripPadding(s: seq<byte>, n: nat)
    requires s != [] && s[|s| - 1] != PAD
    ensures Stripped(s + Padding(n)) == s
    decreases n
  {
    if n == 0 {
      assert s + Padding(n) == s;
    } else {
      StripPadding(s, n - 1);
      assert (s + Padding(n))[..|s| + n - 1] == s + Padding(n - 1);
    }
  }

  lemma {:induction false} RoundTrip(alphabet: seq<byte>, s: seq<byte>)
    requires IsAlphabet(alphabet) && PAD !in alphabet && FILL in alphabet
    ensures Decode(alphabet, Encode(alphabet, s)) == Some(s)
    decreases |s|
  {
    hide DecodedTail, EncodedTail, Encoded, Decoded;
    if |s| == 0 {
      DecodesNothing(alphabet);
    } else if |s| < 3 {
      TailRoundTrip(alphabet, s);
    } else {
      var quartet := Encoded(alphabet, s[0], s[1], s[2]);
      var code := Encode(alphabet, s);
      TripletRoundTrip(alphabet, s[0], s[1], s[2]);
      assert s == [s[0], s[1], s[2]] + s[3..];
      assert code[..4] == quartet && code[4..] == Encode(alphabet, s[3..]);
      if |s| == 3 {
        assert code == quartet && s == [s[0], s[1], s[2]];
        LastQuartet(alphabet, quartet, s);
      } else {
        RoundTrip(alphabet, s[3..]);
        EncodeIsSome(alphabet, s[3..]);
      }
    }
  }

  lemma DecodesNothing(alphabet: seq<byte>)
    requires |alphabet| == 64
    ensures DecodedTail(alphabet, []) == Some([])
  {
  }

  lemma EncodeIsSome(alphabet: seq<byte>, s: seq<byte>)
    requires |alphabet| == 64 && s != []
    ensures |Encode(alphabet, s)| >= 4
  {
  }

  // The last quartet goes through the decoding of tails even when it is not padded.
  lemma LastQuartet(alphabet: seq<byte>, quartet: seq<byte>, triplet: seq<byte>)
    requires |alphabet| == 64 && PAD !in alphabet && |quartet| == 4
    requires Decoded(alphabet, quartet) == Some(triplet)
    ensures DecodedTail(alphabet, quartet) == Some(triplet)
  {
    assert quartet[3] in alphabet;
    assert Stripped(quartet) == quartet;
    assert Filled(quartet) == quartet;
    assert triplet[..3] == triplet;
  }

  // Decoding gives back every byte string exactly for the alphabets that have the fill
  // character A and do not have the padding character.
  lemma RoundTripIff(alphabet: seq<byte>)
    requires IsAlphabet(alphabet)
    ensures (forall s :: Decode(alphabet, Encode(alphabet, s)) == Some(s)) <==> PAD !in alphabet && FILL in alphabet
  {
    hide Decode, Encode;
    if PAD !in alphabet && FILL in alphabet {
      forall s
        ensures Decode(alphabet, Encode(alphabet, s)) == Some(s)
      {
        RoundTrip(alphabet, s);
      }
    } else {
      var s := Counterexample(alphabet);
    }
  }

  lemma Counterexample(alphabet: seq<byte>) returns (s: seq<byte>)
    requires IsAlphabet(alphabet) && (PAD in alphabet || FILL !in alphabet)
    ensures Decode(alphabet, Encode(alphabet, s)) != Some(s)
  {
    if PAD in alphabet {
      var v: int :| 0 <= v < 64 && alphabet[v] == PAD;
      s := [0, 0, v];
      assert s[3..] == [];
      assert Encode(alphabet, s) == Encoded(alphabet, 0, 0, v);
      assert Encode(alphabet, s)[3] == PAD;
    } else {
      s := [0];
      assert Place(alphabet, FILL) == -1;
      var t := Stripped(EncodedTail(alphabet, s));
      assert Filled(t)[3] == FILL;
    }
  }

  // ---- Lengths and padding ----

  lemma {:induction false} LengthIs(alphabet: seq<byte>, s: seq<byte>)
    requires |alphabet| == 64
    ensures |Encode(alphabet, s)| == EncodedLength(|s|)
    decreases |s|
  {
    if |s| >= 3 {
      LengthIs(alphabet, s[3..]);
    }
  }

  lemma {:induction false} DecodedFits(alphabet: seq<byte>, s: seq<byte>)
    requires |alphabet| == 64
    ensures Decode(alphabet, s).Some? ==> |Decode(alphabet, s).value| <= DecodedLength(|s|)
    decreases |s|
  {
    hide DecodedTail, Decoded;
    if |s| > 4 {
      DecodedFits(alphabet, s[4..]);
    } else if s == [] {
      DecodesNothing(alphabet);
    }
  }

  lemma {:induction false} EncodedCharacters(alphabet: seq<byte>, s: seq<byte>, c: byte)
    requires |alphabet| == 64 && c in Encode(alphabet, s)
    ensures c in alphabet || c == PAD
    decreases |s|
  {
    hide Encoded;
    if |s| == 0 {
    } else if |s| < 3 {
      EncodedInAlphabet(alphabet, s[0], if |s| == 2 then s[1] else 0, 0, c);
    } else {
      EncodedInAlphabet(alphabet, s[0], s[1], s[2], c);
      if c !in Encoded(alphabet, s[0], s[1], s[2]) {
        EncodedCharacters(alphabet, s[3..], c);
      }
    }
  }

  lemma EncodedInAlphabet(alphabet: seq<byte>, a: byte, b: byte, c: byte, e: byte)
    requires |alphabet| == 64
    ensures e in Encoded(alphabet, a, b, c) ==> e in alphabet
  {
    assert forall v | 0 <= v < 64 :: alphabet[v] in alphabet;
  }

  function PadCount(n: nat): nat {
    if n % 3 == 0 then 0 else 3 - n % 3
  }

  // The padding character occurs as the last zero to two characters, and nowhere else.
  lemma {:induction false} PaddingIsLast(alphabet: seq<byte>, s: seq<byte>, k: nat)
    requires |alphabet| == 64 && PAD !in alphabet && k < |Encode(alphabet, s)|
    ensures Encode(alphabet, s)[k] == PAD <==> k >= |Encode(alphabet, s)| - PadCount(|s|)
    decreases |s|
  {
    hide Encode, Encoded, EncodedTail, PadCount;
    EncodeUnfolds(alphabet, s);
    if |s| == 0 {
    } else if |s| < 3 {
      TailPadding(alphabet, s, k);
    } else {
      EncodedInAlphabet(alphabet, s[0], s[1], s[2], PAD);
      SamePadding(|s|);
      if k >= 4 {
        PaddingIsLast(alphabet, s[3..], k - 4);
      } else {
        PaddingFits(alphabet, s[3..]);
      }
    }
  }

  lemma EncodeUnfolds(alphabet: seq<byte>, s: seq<byte>)
    requires |alphabet| == 64
    ensures Encode(alphabet, s) == if |s| == 0 then []
                                   else if |s| < 3 then EncodedTail(alphabet, s)
                                   else Encoded(alphabet, s[0], s[1], s[2]) + Encode(alphabet, s[3..])
  {
  }

  lemma SamePadding(n: nat)
    requires n >= 3
    ensures PadCount(n) == PadCount(n - 3)
  {
  }

  lemma PaddingFits(alphabet: seq<byte>, s: seq<byte>)
    requires |alphabet| == 64
    ensures PadCount(|s|) <= |Encode(alphabet, s)|
  {
    LengthIs(alphabet, s);
  }

  lemma TailPadding(alphabet: seq<byte>, s: seq<byte>, k: nat)
    requires |alphabet| == 64 && PAD !in alphabet && 1 <= |s| <= 2 && k < 4
    ensures |EncodedTail(alphabet, s)| == 4
    ensures EncodedTail(alphabet, s)[k] == PAD <==> k >= 4 - PadCount(|s|)
  {
    hide Encoded;
    EncodedInAlphabet(alphabet, s[0], if |s| == 2 then s[1] else 0, 0, PAD);
  }

  // Section 4 of RFC 4648: three bytes, or what is left of them, are 24 bits, which are written six
  // at a time, the highest first.
  predicate IsGroup(alphabet: seq<byte>, s: seq<byte>, e: seq<byte>)
    requires |alphabet| == 64 && s != [] && |e| >= 4
  {
    var b := if 1 < |s| then s[1] else 0;
    var c := if 2 < |s| then s[2] else 0;
    var bits := s[0] as int * 0x1_0000 + b as int * 0x100 + c as int;
    && e[0] == alphabet[bits / 0x4_0000] && e[1] == alphabet[bits / 0x1000 % 64]
    && (1 < |s| ==> e[2] == alphabet[bits / 0x40 % 64]) && (2 < |s| ==> e[3] == alphabet[bits % 64])
  }

  lemma {:induction false} GroupsAreEncoded(alphabet: seq<byte>, s: seq<byte>, q: nat)
    requires |alphabet| == 64 && 3 * q < |s|
    ensures |Encode(alphabet, s)| >= 4 * q + 4 && IsGroup(alphabet, s[3 * q..], Encode(alphabet, s)[4 * q..])
    decreases q
  {
    hide Encode, Encoded, IsGroup;
    EncodeUnfolds(alphabet, s);
    if q > 0 {
      GroupsAreEncoded(alphabet, s[3..], q - 1);
      assert Encode(alphabet, s)[4 * q..] == Encode(alphabet, s[3..])[4 * (q - 1)..];
      assert s[3 * q..] == s[3..][3 * (q - 1)..];
    } else {
      FirstGroup(alphabet, s);
      assert Encode(alphabet, s)[0..] == Encode(alphabet, s) && s[0..] == s;
    }
  }

  lemma FirstGroup(alphabet: seq<byte>, s: seq<byte>)
    requires |alphabet| == 64 && s != []
    ensures |Encode(alphabet, s)| >= 4 && IsGroup(alphabet, s, Encode(alphabet, s))
  {
    hide Encode, Encoded;
    EncodeUnfolds(alphabet, s);
    GroupIs(alphabet, s[0], if 1 < |s| then s[1] else 0, if 2 < |s| then s[2] else 0);
  }

  lemma GroupIs(alphabet: seq<byte>, a: byte, b: byte, c: byte)
    requires |alphabet| == 64
    ensures var bits := a as int * 0x1_0000 + b as int * 0x100 + c as int;
            Encoded(alphabet, a, b, c) ==
            [alphabet[bits / 0x4_0000], alphabet[bits / 0x1000 % 64], alphabet[bits / 0x40 % 64], alphabet[bits % 64]]
  {
    SixBits(a, b, c, a as int * 0x1_0000 + b as int * 0x100 + c as int);
  }

  lemma SixBits(a: byte, b: byte, c: byte, bits: nat)
    requires bits == a as int * 0x1_0000 + b as int * 0x100 + c as int
    ensures bits / 0x4_0000 == a / 4 && bits / 0x1000 % 64 == a % 4 * 16 + b / 16
    ensures bits / 0x40 % 64 == c / 64 + b % 16 * 4 && bits % 64 == c % 64
  {
    LastSix(bits / 0x1000, a / 4, a % 4 * 16 + b / 16);
    LastSix(bits / 0x40, a as int * 16 + b / 16, c / 64 + b % 16 * 4);
    LastSix(bits, a as int * 0x400 + b as int * 4 + c / 64, c % 64);
  }

  lemma LastSix(n: nat, high: nat, low: nat)
    requires n == high * 64 + low && low < 64
    ensures n % 64 == low
  {
  }

  // The alphabet of section 4: capital letters, small letters, digits, plus and slash.
  lemma AlphabetIs(v: sixbit)
    ensures Rfc4648()[v] == if v < 26 then 65 + v else if v < 52 then 71 + v else if v < 62 then v - 4
                            else if v == 62 then 43 else 47
  {
  }

  // ---- The program ----

  // The maps structure, filled in from an alphabet.
  class Maps {
    const encodeMap: array<byte>
    const decodeMap: array<int>

    ghost predicate For(alphabet: seq<byte>)
      reads encodeMap, decodeMap
    {
      && encodeMap[..] == alphabet && |alphabet| == 64
      && decodeMap.Length == 256 && forall c: byte :: decodeMap[c] == Place(alphabet, c)
    }

    constructor (src: array<byte>)
      requires src.Length == 64
      ensures For(src[..]) && fresh(encodeMap) && fresh(decodeMap)
    {
      encodeMap := new byte[64](i requires 0 <= i < 64 reads src => src[i]);
      decodeMap := new int[256](_ => -1);
      new;
      assert encodeMap[..] == src[..];
      for i := 0 to 64
        invariant encodeMap[..] == src[..] && src[..] == old(src[..])
        invariant forall c: byte :: decodeMap[c] == Place(src[..i], c)
      {
        assert src[..i + 1][..i] == src[..i];
        decodeMap[src[i]] := i;
      }
      assert src[..64] == src[..];
    }
  }

  // What writing at an offset leaves.
  function Overwritten(before: seq<byte>, d: nat, bytes: seq<byte>): (after: seq<byte>)
    requires d + |bytes| <= |before|
    ensures |after| == |before|
  {
    before[..d] + bytes + before[d + |bytes|..]
  }

  lemma OverwrittenPrefix(before: seq<byte>, d: nat, bytes: seq<byte>)
    requires d + |bytes| <= |before|
    ensures Overwritten(before, d, bytes)[..d + |bytes|] == before[..d] + bytes
  {
  }

  method EncodeTriplet(maps: Maps, dest: array<byte>, d: nat, a: byte, b: byte, c: byte, ghost alphabet: seq<byte>)
    requires maps.For(alphabet) && dest != maps.encodeMap && d + 4 <= dest.Length
    modifies dest
    ensures dest[..] == Overwritten(old(dest[..]), d, Encoded(alphabet, a, b, c))
  {
    dest[d] := maps.encodeMap[a / 4];
    dest[d + 1] := maps.encodeMap[a % 4 * 16 + b / 16];
    dest[d + 2] := maps.encodeMap[c / 64 + b % 16 * 4];
    dest[d + 3] := maps.encodeMap[c % 64];
  }

  method EncodeTail(maps: Maps, dest: array<byte>, d: nat, src: seq<byte>, ghost alphabet: seq<byte>)
    requires maps.For(alphabet) && dest != maps.encodeMap && d + 4 <= dest.Length && 1 <= |src| <= 2
    modifies dest
    ensures dest[..] == Overwritten(old(dest[..]), d, EncodedTail(alphabet, src))
  {
    EncodeTriplet(maps, dest, d, src[0], if |src| == 2 then src[1] else 0, 0, alphabet);
    dest[d + 3] := PAD;
    if |src| == 1 {
      dest[d + 2] := PAD;
    }
  }

  method Clear(dest: array<byte>, d: nat)
    requires d <= dest.Length
    modifies dest
    ensures dest[..d] == old(dest[..d]) && forall k | d <= k < dest.Length :: dest[k] == 0
  {
    for k := d to dest.Length
      invariant dest[..d] == old(dest[..d])
      invariant forall j | d <= j < k :: dest[j] == 0
    {
      dest[k] := 0;
    }
  }

  // What is written and what is still to be encoded make up the whole.
  ghost predicate EncodedTo(alphabet: seq<byte>, s: seq<byte>, o: nat, out: seq<byte>) {
    |alphabet| == 64 && o <= |s| && out + Encode(alphabet, s[o..]) == Encode(alphabet, s)
  }

  lemma EncodeTurns(alphabet: seq<byte>, s: seq<byte>, o: nat, out: seq<byte>, more: seq<byte>)
    requires EncodedTo(alphabet, s, o, out) && o < |s|
    requires more == if o + 3 <= |s| then Encoded(alphabet, s[o], s[o + 1], s[o + 2]) else EncodedTail(alphabet, s[o..])
    ensures EncodedTo(alphabet, s, if o + 3 <= |s| then o + 3 else |s|, out + more)
  {
    if o + 3 <= |s| {
      assert s[o..][3..] == s[o + 3..];
      assert out + more + Encode(alphabet, s[o + 3..]) == out + (more + Encode(alphabet, s[o + 3..]));
    } else {
      assert s[|s|..] == [];
      assert out + more + [] == out + more;
    }
  }

  lemma EncodeRoom(alphabet: seq<byte>, s: seq<byte>, o: nat, out: seq<byte>)
    requires EncodedTo(alphabet, s, o, out)
    ensures |out| + EncodedLength(|s| - o) == EncodedLength(|s|)
    ensures o < |s| ==> |out| + 4 <= EncodedLength(|s|)
  {
    LengthIs(alphabet, s);
    LengthIs(alphabet, s[o..]);
  }

  // The number of characters written from the given place of dest on, or -1 when there is too
  // little room; the rest is cleared.
  method EncodeUsingMaps(maps: Maps, dest: array<byte>, at: nat, src: array<byte>, srclen: nat,
                         ghost alphabet: seq<byte>)
      returns (r: int)
    requires maps.For(alphabet) && dest != maps.encodeMap && dest != src && at <= dest.Length && srclen <= src.Length
    modifies dest
    ensures dest.Length - at < EncodedLength(srclen) ==> r == -1 && dest[..] == old(dest[..])
    ensures dest.Length - at >= EncodedLength(srclen) ==>
              && r == EncodedLength(srclen) && dest[..at + r] == old(dest[..at]) + Encode(alphabet, src[..srclen])
              && forall k | at + r <= k < dest.Length :: dest[k] == 0
  {
    hide Encode, EncodedTail, Encoded, EncodedTo;
    if dest.Length - at < EncodedLength(srclen) {
      return -1;
    }
    ghost var (s, front) := (src[..srclen], dest[..at]);
    ghost var out := [];
    var (o, d) := (0, at);
    EncodeStarts(alphabet, s);
    assert dest[..d] == front + out;
    while srclen - o >= 3
      invariant o <= srclen && d <= dest.Length && src[..srclen] == s && maps.For(alphabet)
      invariant dest[..d] == front + out && EncodedTo(alphabet, s, o, out)
    {
      ghost var (before, quartet) := (dest[..], Encoded(alphabet, s[o], s[o + 1], s[o + 2]));
      EncodeRoom(alphabet, s, o, out);
      EncodeTriplet(maps, dest, d, src[o], src[o + 1], src[o + 2], alphabet);
      WroteNext(before, d, front, out, quartet);
      EncodeTurns(alphabet, s, o, out, quartet);
      assert dest[..d + 4] == dest[..][..d + 4];
      out := out + quartet;
      o := o + 3;
      d := d + 4;
    }
    if o < srclen {
      ghost var (before, tail) := (dest[..], EncodedTail(alphabet, s[o..]));
      EncodeRoom(alphabet, s, o, out);
      assert src[o..srclen] == s[o..];
      EncodeTail(maps, dest, d, src[o..srclen], alphabet);
      WroteNext(before, d, front, out, tail);
      EncodeTurns(alphabet, s, o, out, tail);
      assert dest[..d + 4] == dest[..][..d + 4];
      out := out + tail;
      o := srclen;
      d := d + 4;
    }
    EncodeEnds(alphabet, s, out);
    Clear(dest, d);
    r := d - at;
  }

  lemma WroteNext(before: seq<byte>, d: nat, front: seq<byte>, out: seq<byte>, bytes: seq<byte>)
    requires d + |bytes| <= |before| && before[..d] == front + out
    ensures Overwritten(before, d, bytes)[..d + |bytes|] == front + (out + bytes)
  {
    OverwrittenPrefix(before, d, bytes);
    assert front + out + bytes == front + (out + bytes);
  }

  lemma EncodeStarts(alphabet: seq<byte>, s: seq<byte>)
    requires |alphabet| == 64
    ensures EncodedTo(alphabet, s, 0, [])
  {
    assert s[0..] == s;
  }

  lemma EncodeEnds(alphabet: seq<byte>, s: seq<byte>, out: seq<byte>)
    requires EncodedTo(alphabet, s, |s|, out)
    ensures out == Encode(alphabet, s) && |out| == EncodedLength(|s|)
  {
    assert s[|s|..] == [];
    LengthIs(alphabet, s);
  }

  method DecodeQuartet(maps: Maps, dest: array<byte>, o: nat, src: seq<byte>, ghost alphabet: seq<byte>)
      returns (ok: bool)
    requires maps.For(alphabet) && dest != maps.encodeMap && o + 3 <= dest.Length && |src| == 4
    modifies dest
    ensures ok == Decoded(alphabet, src).Some?
    ensures dest[..] == if ok then Overwritten(old(dest[..]), o, Decoded(alphabet, src).value) else old(dest[..])
  {
    var (a, b) := (maps.decodeMap[src[0]], maps.decodeMap[src[1]]);
    var (c, d) := (maps.decodeMap[src[2]], maps.decodeMap[src[3]]);
    if a == -1 || b == -1 || c == -1 || d == -1 {
      return false;
    }
    ghost var before := dest[..];
    var triplet := Joined(a, b, c, d);
    assert Decoded(alphabet, src) == Some(triplet);
    hide Decoded, Joined, Place;
    dest[o] := triplet[0];
    dest[o + 1] := triplet[1];
    dest[o + 2] := triplet[2];
    assert dest[..] == Overwritten(before, o, triplet);
    ok := true;
  }

  method ThrowAwayPadding(src: seq<byte>) returns (insize: nat)
    ensures insize <= |src| && Stripped(src) == src[..insize]
  {
    insize := |src|;
    assert src[..insize] == src;
    while insize != 0 && src[insize - 1] == PAD
      invariant insize <= |src|
      invariant Stripped(src) == Stripped(src[..insize])
    {
      assert src[..insize][..insize - 1] == src[..insize - 1];
      insize := insize - 1;
    }
  }

  // The number of bytes decoded, or -1. Three bytes are written whatever the number is.
  method DecodeTail(maps: Maps, dest: array<byte>, o: nat, src: seq<byte>, ghost alphabet: seq<byte>) returns (r: int)
    requires maps.For(alphabet) && dest != maps.encodeMap && |src| <= 4 && (src != [] ==> o + 3 <= dest.Length)
    requires o <= dest.Length
    modifies dest
    ensures var tail := DecodedTail(alphabet, src);
            if tail.None? then r == -1
            else r == |tail.value| && o + r <= dest.Length && dest[..o + r] == old(dest[..o]) + tail.value
  {
    hide Decoded, Place, Joined, Stripped;
    ghost var before := dest[..];
    var insize := ThrowAwayPadding(src);
    if insize == 0 {
      assert dest[..o] + [] == dest[..o];
      return 0;
    }
    if insize == 1 {
      return -1;
    }
    var longsrc := Filled(src[..insize]);
    var ok := DecodeQuartet(maps, dest, o, longsrc, alphabet);
    if !ok {
      return -1;
    }
    r := insize - 1;
    ghost var triplet := Decoded(alphabet, longsrc).value;
    OverwrittenPrefix(before, o, triplet);
    assert dest[..o + r] == dest[..][..o + 3][..o + r];
  }

  ghost predicate DecodedTo(alphabet: seq<byte>, s: seq<byte>, i: nat, out: seq<byte>) {
    && |alphabet| == 64 && i <= |s|
    && Decode(alphabet, s) == match Decode(alphabet, s[i..])
                              case None => None
                              case Some(others) => Some(out + others)
  }

  lemma DecodeStarts(alphabet: seq<byte>, s: seq<byte>)
    requires |alphabet| == 64
    ensures DecodedTo(alphabet, s, 0, [])
  {
    assert s[0..] == s;
    match Decode(alphabet, s)
    case None =>
    case Some(bytes) => assert [] + bytes == bytes;
  }

  lemma DecodeTurns(alphabet: seq<byte>, s: seq<byte>, i: nat, out: seq<byte>)
    requires DecodedTo(alphabet, s, i, out) && |s| - i > 4
    ensures match Decoded(alphabet, s[i..i + 4])
            case None => Decode(alphabet, s) == None
            case Some(triplet) => DecodedTo(alphabet, s, i + 4, out + triplet)
  {
    hide Decoded, DecodedTail;
    var t := s[i..];
    assert t[..4] == s[i..i + 4] && t[4..] == s[i + 4..];
    match (Decoded(alphabet, t[..4]), Decode(alphabet, t[4..]))
    case (Some(triplet), Some(others)) => assert out + triplet + others == out + (triplet + others);
    case _ =>
  }

  lemma DecodeEnds(alphabet: seq<byte>, s: seq<byte>, i: nat, out: seq<byte>)
    requires DecodedTo(alphabet, s, i, out) && |s| - i <= 4
    ensures Decode(alphabet, s) == match DecodedTail(alphabet, s[i..])
                                   case None => None
                                   case Some(tail) => Some(out + tail)
  {
  }

  // The number of bytes decoded, or -1 when dest is too short or src is malformed.
  method DecodeUsingMaps(maps: Maps, dest: array<byte>, src: array<byte>, ghost alphabet: seq<byte>) returns (r: int)
    requires maps.For(alphabet) && dest != maps.encodeMap && dest != src
    modifies dest
    ensures dest.Length < DecodedLength(src.Length) ==> r == -1 && dest[..] == old(dest[..])
    ensures dest.Length >= DecodedLength(src.Length) ==>
              match Decode(alphabet, src[..])
              case None => r == -1
              case Some(bytes) =>
                && r == |bytes| && r <= dest.Length && dest[..r] == bytes
                && forall k | r <= k < dest.Length :: dest[k] == 0
  {
    hide Decode, Decoded, DecodedTail, DecodedTo;
    if dest.Length < DecodedLength(src.Length) {
      return -1;
    }
    ghost var s := src[..];
    var (i, o) := (0, 0);
    assert DecodedTo(alphabet, s, 0, dest[..0]) by {
      DecodeStarts(alphabet, s);
      assert dest[..0] == [];
    }
    while src.Length - i > 4
      invariant i <= src.Length && 4 * o == 3 * i && src[..] == s && maps.For(alphabet)
      invariant o + DecodedLength(src.Length - i) <= dest.Length
      invariant DecodedTo(alphabet, s, i, dest[..o])
    {
      ghost var before := dest[..];
      assert src[i..i + 4] == s[i..i + 4];
      DecodeTurns(alphabet, s, i, before[..o]);
      var ok := DecodeQuartet(maps, dest, o, src[i..i + 4], alphabet);
      if !ok {
        return -1;
      }
      OverwrittenPrefix(before, o, Decoded(alphabet, s[i..i + 4]).value);
      assert dest[..o + 3] == dest[..][..o + 3];
      o := o + 3;
      i := i + 4;
    }
    assert src[i..] == s[i..];
    DecodeEnds(alphabet, s, i, dest[..o]);
    var more := DecodeTail(maps, dest, o, src[i..], alphabet);
    if more == -1 {
      return -1;
    }
    o := o + more;
    Clear(dest, o);
    r := o;
  }
}
