// The mining of gnostr.c: an event is given a nonce tag, and the nonce is counted up until the
// id has enough leading zero bits (NIP-13).
module Mining {
  import opened Bytes
  import opened NostrEvent
  import EventCommitment
  import Hex
  import ProofOfWork
  import Sha256

  const MAX_TAGS := 32
  const BUFFER_SIZE := 102400

  const NONCE := [110, 111, 110, 99, 101]
  const ZERO := [48]

  lemma NamesAre()
    ensures NONCE == Ascii("nonce") && ZERO == Ascii("0") && MAX_TAGS == 32 && BUFFER_SIZE == 102400
  {
    assert Ascii("nonce")[0] == 110 && Ascii("nonce")[1] == 111 && Ascii("nonce")[2] == 110;
    assert Ascii("nonce")[3] == 99 && Ascii("nonce")[4] == 101;
  }

  // The hash of the serialisation.
  function Id(ev: Event): (id: seq<byte>)
    ensures |id| == 32
  {
    AsBytes(Sha256.Hash(AsBits(Commitment(ev))))
  }

  predicate Fits(ev: Event) {
    |Commitment(ev)| < BUFFER_SIZE
  }

  // The buffer for the target has room for six characters.
  function Target(difficulty: int32): seq<byte> {
    var text := Kind(difficulty);
    if |text| > 6 then text[..6] else text
  }

  predicate IsShortNonce(tag: Tag) {
    |tag| == 2 && tag[0] == NONCE
  }

  predicate HasShortNonce(tags: seq<Tag>) {
    exists i | 0 <= i < |tags| :: IsShortNonce(tags[i])
  }

  // The event with the tag that mining adds to it.
  function WithNonce(ev: Event, nonce: seq<byte>, difficulty: int32): Event {
    ev.(tags := ev.tags + [[NONCE, nonce, Target(difficulty)]])
  }

  // The event that is tried with a nonce.
  function Tried(ev: Event, nonce: uint64, difficulty: int32): Event {
    WithNonce(ev, Digits(nonce), difficulty)
  }

  // Trying ends here: the event does not fit in the buffer, or its id is good enough.
  predicate Ends(ev: Event, nonce: uint64, difficulty: int32) {
    !Fits(Tried(ev, nonce, difficulty))
    || ProofOfWork.LeadingZeroBits(Id(Tried(ev, nonce, difficulty))) >= difficulty
  }

  // Each nonce makes another serialisation, unless the event has explicit tags.
  lemma NonceIsSerialised(ev: Event, m: uint64, n: uint64, difficulty: int32)
    requires |ev.pubkey| == 32
    ensures Commitment(Tried(ev, m, difficulty)) == Commitment(Tried(ev, n, difficulty))
       <==> m == n || ev.explicitTags.Some?
  {
    hide Commitment, Digits, Target;
    if ev.explicitTags.Some? {
      ExplicitTagsHide(ev, ev.tags + [[NONCE, Digits(m), Target(difficulty)]]);
      ExplicitTagsHide(ev, ev.tags + [[NONCE, Digits(n), Target(difficulty)]]);
    } else if Commitment(Tried(ev, m, difficulty)) == Commitment(Tried(ev, n, difficulty)) {
      CommitmentInjective(Tried(ev, m, difficulty), Tried(ev, n, difficulty));
      assert Tried(ev, m, difficulty).tags[|ev.tags|] == Tried(ev, n, difficulty).tags[|ev.tags|];
      DigitsInjective(m, n);
    }
  }

  lemma ExplicitTagsHide(ev: Event, tags: seq<Tag>)
    requires ev.explicitTags.Some?
    ensures Commitment(ev.(tags := tags)) == Commitment(ev)
  {
    hide Time, Kind, JsonStr, Hex.Encode;
  }

  // A nonce goes on being counted up while the event fits and its id is too large.
  lemma GoesOn(ev: Event, nonce: uint64, difficulty: int32)
    requires 0 <= difficulty <= 256
    ensures !Ends(ev, nonce, difficulty) <==>
            var tried := ev.(tags := ev.tags + [[Ascii("nonce"), Digits(nonce), Target(difficulty)]]);
            |Commitment(tried)| < 102400 && Value(Id(tried)) >= Power2(256 - difficulty)
  {
    hide Commitment, Digits, Target, Id, Value, Power2, ProofOfWork.LeadingZeroBits, Ascii;
    NamesAre();
    ProofOfWork.LeadingZeroBitsBound(Id(Tried(ev, nonce, difficulty)), difficulty);
  }

  // So with explicit tags, trying ends at the first nonce or never.
  lemma FirstOrNever(ev: Event, difficulty: int32)
    requires |ev.pubkey| == 32 && ev.explicitTags.Some?
    ensures forall n :: Ends(ev, n, difficulty) == Ends(ev, Nonce(0), difficulty)
  {
    hide Commitment, Tried, ProofOfWork.LeadingZeroBits;
    forall n: uint64
      ensures Ends(ev, n, difficulty) == Ends(ev, Nonce(0), difficulty)
    {
      NonceIsSerialised(ev, n, Nonce(0), difficulty);
    }
  }

  // The nonce that is tried after so many others: the counter has 64 bits.
  function Nonce(n: nat): uint64 {
    n % TWO64
  }

  // How mining went: a good nonce was found; the event could not be mined; the assertion on the
  // nonce tag failed; or it is still trying.
  datatype Outcome = Mined | Failed | Aborted | Trying

  class NostrEventRecord {
    var id: seq<byte>
    var pubkey: seq<byte>
    var createdAt: uint64
    var kind: int32
    var explicitTags: Option<seq<byte>>
    var tags: seq<Tag>
    var content: seq<byte>

    ghost function Abstract(): Event
      reads this`pubkey, this`createdAt, this`kind, this`explicitTags, this`tags, this`content
    {
      Event(pubkey, createdAt, kind, explicitTags, tags, content)
    }

    method AddTag(tag: Tag) returns (ok: bool)
      modifies this`tags
      ensures ok == (|old(tags)| < MAX_TAGS)
      ensures tags == if ok then old(tags) + [tag] else old(tags)
    {
      if |tags| + 1 > MAX_TAGS {
        return false;
      }
      tags := tags + [tag];
      ok := true;
    }

    // Only a tag of two elements is taken for a nonce tag that is there already.
    method EnsureNonceTag(target: int32) returns (ok: bool, index: nat)
      modifies this`tags
      ensures HasShortNonce(old(tags)) ==>
                && ok && tags == old(tags) && index < |tags| && IsShortNonce(tags[index])
                && forall i | 0 <= i < index :: !IsShortNonce(tags[i])
      ensures !HasShortNonce(old(tags)) ==>
                && ok == (|old(tags)| < MAX_TAGS) && index == |old(tags)|
                && tags == if ok then old(tags) + [[NONCE, ZERO, Target(target)]] else old(tags)
    {
      for i := 0 to |tags|
        invariant tags == old(tags)
        invariant forall j | 0 <= j < i :: !IsShortNonce(tags[j])
      {
        if |tags[i]| == 2 && tags[i][0] == NONCE {
          assert IsShortNonce(tags[i]);
          return true, i;
        }
      }
      index := |tags|;
      ok := AddTag([NONCE, ZERO, Target(target)]);
    }

    method GenerateEventId() returns (ok: bool)
      requires |pubkey| == 32
      modifies this`id
      ensures ok == Fits(Abstract())
      ensures id == if ok then Id(Abstract()) else old(id)
    {
      hide Commitment, Sha256.Hash;
      var buf := new byte[BUFFER_SIZE];
      var ev := Event(pubkey, createdAt, kind, explicitTags, tags, content);
      var len := EventCommitment.EventCommitment(ev, buf, BUFFER_SIZE);
      if len == 0 {
        CommitmentHasText(ev);
        return false;
      }
      var digest := Sha256.Sha256(AsBits(buf[..len]));
      id := AsBytes(digest);
      ok := true;
    }

    // The nonce of the tag that was added.
    method SetNonce(index: nat, nonce: uint64, ghost ev: Event, difficulty: int32)
      requires index == |ev.tags| && exists text :: Abstract() == WithNonce(ev, text, difficulty)
      modifies this`tags
      ensures Abstract() == Tried(ev, nonce, difficulty)
    {
      hide Digits, Target;
      ghost var text :| Abstract() == WithNonce(ev, text, difficulty);
      var tag := tags[index];
      assert tag == [NONCE, text, Target(difficulty)];
      assert tag[1 := Digits(nonce)] == [NONCE, Digits(nonce), Target(difficulty)];
      tags := tags[index := tag[1 := Digits(nonce)]];
      assert tags == ev.tags + [[NONCE, Digits(nonce), Target(difficulty)]];
    }

    // mine_event, as far as it gets with the given number of tries: its loop has no bound of its
    // own. It is still trying if and only if none of these nonces ends it.
    method MineEvent(difficulty: int32, tries: nat) returns (outcome: Outcome, ghost n: nat)
      requires |pubkey| == 32
      modifies this`id, this`tags
      ensures outcome == Aborted <==> HasShortNonce(old(tags))
      ensures outcome == Trying <==>
                && !HasShortNonce(old(tags)) && |old(tags)| < MAX_TAGS
                && forall k: nat | k < tries :: !Ends(old(Abstract()), Nonce(k), difficulty)
      ensures HasShortNonce(old(tags)) || |old(tags)| >= MAX_TAGS ==> Abstract() == old(Abstract()) && id == old(id)
      ensures !HasShortNonce(old(tags)) && |old(tags)| < MAX_TAGS && outcome != Trying ==>
                && n < tries && Abstract() == Tried(old(Abstract()), Nonce(n), difficulty)
                && Ends(old(Abstract()), Nonce(n), difficulty)
                && (forall k: nat | k < n :: !Ends(old(Abstract()), Nonce(k), difficulty))
                && (outcome == Mined <==> Fits(Abstract()))
      ensures outcome == Trying && tries > 0 && old(explicitTags).Some? ==>
                forall k: nat :: !Ends(old(Abstract()), Nonce(k), difficulty)
      ensures outcome == Mined ==> id == Id(Abstract()) && ProofOfWork.LeadingZeroBits(id) >= difficulty
      ensures outcome == Mined && 0 <= difficulty <= 256 ==> Value(id) < Power2(256 - difficulty)
    {
      hide Commitment, Id, Fits, Target, Nonce, ProofOfWork.LeadingZeroBits, Value, Power2;
      ghost var ev := Abstract();
      n := 0;
      var ok, index := EnsureNonceTag(difficulty);
      if !ok {
        return Failed, 0;
      }
      if |tags[index]| != 3 {
        return Aborted, 0;
      }
      assert Abstract() == WithNonce(ev, ZERO, difficulty);
      for i := 0 to tries
        invariant index == |ev.tags| && |pubkey| == 32
        invariant exists text :: Abstract() == WithNonce(ev, text, difficulty)
        invariant forall k: nat | k < i :: !Ends(ev, Nonce(k), difficulty)
      {
        SetNonce(index, Nonce(i), ev, difficulty);
        n := i;
        ok := GenerateEventId();
        if !ok {
          return Failed, i;
        }
        var bits := ProofOfWork.CountLeadingZeroBits(id);
        if bits >= difficulty {
          if 0 <= difficulty <= 256 {
            ProofOfWork.LeadingZeroBitsBound(id, difficulty);
          }
          return Mined, i;
        }
        assert !Ends(ev, Nonce(i), difficulty);
      }
      outcome := Trying;
      if explicitTags.Some? && tries > 0 {
        FirstOrNever(ev, difficulty);
      }
    }
  }

  lemma CommitmentHasText(ev: Event)
    ensures |Commitment(ev)| > 0
  {
    hide Tags, Time, Kind;
  }
}
