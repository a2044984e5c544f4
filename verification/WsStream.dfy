// What a connection delivers from the streams that section 5.4 of RFC 6455 allows: messages cut
// into fragments, with control frames in between.
module WsStream {
  import opened Bytes
  import opened WsFrame
  import opened WsConnection

  const TWO63 := 0x8000_0000_0000_0000

  datatype Frame = Frame(first: byte, payload: seq<byte>)

  datatype Control = Ping(payload: seq<byte>) | Pong(payload: seq<byte>)

  // A fragment, and the control frames before it.
  datatype Part = Part(controls: seq<Control>, payload: seq<byte>)

  datatype Message = Message(opcode: byte, parts: seq<Part>)

  predicate AreControls(controls: seq<Control>) {
    forall j | 0 <= j < |controls| :: |controls[j].payload| <= 125
  }

  predicate IsMessage(m: Message) {
    && 1 <= m.opcode < 8 && m.parts != [] && |Whole(m.parts)| < TWO63
    && forall i | 0 <= i < |m.parts| :: AreControls(m.parts[i].controls)
  }

  predicate AreMessages(messages: seq<Message>) {
    forall i | 0 <= i < |messages| :: IsMessage(messages[i])
  }

  // The whole message: its fragments one after the other.
  function Whole(parts: seq<Part>): seq<byte> {
    if parts == [] then [] else parts[0].payload + Whole(parts[1..])
  }

  // ---- As frames ----

  function ControlFrame(control: Control): Frame {
    Frame(if control.Ping? then 0x89 else 0x8A, control.payload)
  }

  function ControlFrames(controls: seq<Control>): seq<Frame> {
    if controls == [] then [] else [ControlFrame(controls[0])] + ControlFrames(controls[1..])
  }

  // Only the first fragment has the opcode, and only the last one the final bit.
  function PartFrames(opcode: byte, parts: seq<Part>): seq<Frame>
    requires opcode < 8
  {
    if parts == [] then []
    else
      ControlFrames(parts[0].controls)
      + [Frame(opcode + if |parts| == 1 then 128 else 0, parts[0].payload)]
      + PartFrames(0, parts[1..])
  }

  function Frames(messages: seq<Message>): (frames: seq<Frame>)
    requires AreMessages(messages)
    ensures AreShort(frames)
  {
    if messages == [] then []
    else
      PartFramesAreShort(messages[0].opcode, messages[0].parts);
      PartFrames(messages[0].opcode, messages[0].parts) + Frames(messages[1..])
  }

  lemma {:induction false} ControlFramesAreShort(controls: seq<Control>)
    requires AreControls(controls)
    ensures AreShort(ControlFrames(controls))
  {
    if controls != [] {
      ControlFramesAreShort(controls[1..]);
    }
  }

  lemma {:induction false} PartFramesAreShort(opcode: byte, parts: seq<Part>)
    requires opcode < 8 && |Whole(parts)| < TWO63
    requires forall i | 0 <= i < |parts| :: AreControls(parts[i].controls)
    ensures AreShort(PartFrames(opcode, parts))
    decreases |parts|
  {
    if parts != [] {
      ControlFramesAreShort(parts[0].controls);
      PartFramesAreShort(0, parts[1..]);
    }
  }

  // ---- As events ----

  function ControlEvent(control: Control): seq<Event> {
    if control.Ping? then [Sent(0x8A, control.payload), OnPing] else [OnPong]
  }

  function ControlEvents(controls: seq<Control>): seq<Event> {
    if controls == [] then [] else ControlEvent(controls[0]) + ControlEvents(controls[1..])
  }

  function PartEvents(parts: seq<Part>): seq<Event> {
    if parts == [] then [] else ControlEvents(parts[0].controls) + PartEvents(parts[1..])
  }

  function Delivery(opcode: byte, content: seq<byte>): Event
    requires opcode < 8
  {
    OnMessage(128 + opcode, content)
  }

  // What should be seen: pings answered with the same payload, and each message whole, with the
  // opcode of its first fragment.
  function Expected(messages: seq<Message>): seq<Event>
    requires AreMessages(messages)
  {
    if messages == [] then []
    else
      PartEvents(messages[0].parts)
      + [Delivery(messages[0].opcode, Whole(messages[0].parts))]
      + Expected(messages[1..])
  }

  // ---- As bytes ----

  predicate AreMasks(masks: seq<seq<byte>>, n: nat) {
    |masks| == n && forall k | 0 <= k < n :: |masks[k]| == 4
  }

  function FrameBytes(role: Role, frame: Frame, mask: seq<byte>): seq<byte>
    requires |frame.payload| < TWO63 && |mask| == 4
  {
    if role == Server then ClientBytes(frame.first, frame.payload, mask) else ServerBytes(frame.first, frame.payload)
  }

  predicate AreShort(frames: seq<Frame>) {
    forall k | 0 <= k < |frames| :: |frames[k].payload| < TWO63
  }

  // The bytes that the other side sends to this role; only the client masks.
  function FramesBytes(role: Role, frames: seq<Frame>, masks: seq<seq<byte>>): seq<byte>
    requires AreShort(frames) && AreMasks(masks, |frames|)
  {
    if frames == [] then [] else FrameBytes(role, frames[0], masks[0]) + FramesBytes(role, frames[1..], masks[1..])
  }

  // ---- Frame by frame ----

  // What comes after the header of a frame.
  function Body(role: Role, frame: Frame, mask: seq<byte>): (body: seq<byte>)
    requires |mask| == 4
    ensures |body| == |frame.payload| + if role == Server then 4 else 0
  {
    if role == Server then mask + Masked(frame.payload, mask) else frame.payload
  }

  lemma FrameIs(role: Role, frame: Frame, mask: seq<byte>, rest: seq<byte>)
    requires |frame.payload| < TWO63 && |mask| == 4
    ensures FrameBytes(role, frame, mask) + rest ==
            [frame.first] + LengthBytes(|frame.payload|, if role == Server then 128 else 0)
            + (Body(role, frame, mask) + rest)
  {
    hide LengthBytes, Masked;
  }

  lemma BodyContent(role: Role, frame: Frame, mask: seq<byte>, rest: seq<byte>)
    requires |mask| == 4
    ensures Content(role, Body(role, frame, mask) + rest, |frame.payload|) == frame.payload
  {
    hide Xor;
    var stream := Body(role, frame, mask) + rest;
    if role == Server {
      assert stream[..4] == mask && stream[4..4 + |frame.payload|] == Masked(frame.payload, mask);
      MaskedTwice(frame.payload, mask);
    } else {
      assert stream[..|frame.payload|] == frame.payload;
    }
  }

  lemma AfterHeader(header: seq<byte>, body: seq<byte>, rest: seq<byte>)
    ensures (header + (body + rest))[|header|..] == body + rest && (body + rest)[|body|..] == rest
  {
  }

  // A frame is read back whatever its length form and mask, and what comes after it is left.
  lemma FrameRoundTrip(role: Role, max: nat, c: Conn, frame: Frame, mask: seq<byte>, rest: seq<byte>)
    requires |frame.payload| < TWO63 && |mask| == 4
    ensures var o := ServeOne(role, max, c, FrameBytes(role, frame, mask) + rest);
            if Sum64(|frame.payload|, FragmentedLength(c)) > max then o.progress == Over && o.conn == Refuse(c)
            else
              var (d, more) := React(role, c, frame.first, frame.payload);
              o == Outcome(if more then More else Over, d, rest)
  {
    hide LengthBytes, Decode, React, Content, Refuse, FragmentedLength, Sum64, Body, FrameBytes;
    var maskBit: byte := if role == Server then 128 else 0;
    var header := [frame.first] + LengthBytes(|frame.payload|, maskBit);
    var body := Body(role, frame, mask);
    FrameIs(role, frame, mask, rest);
    HeaderRoundTrip(frame.first, |frame.payload|, maskBit, body + rest);
    AfterHeader(header, body, rest);
    BodyContent(role, frame, mask, rest);
  }

  // Frames fed one after the other, until the connection is over.
  function Feed(role: Role, max: nat, c: Conn, frames: seq<Frame>): (Conn, bool)
    decreases |frames|
  {
    if frames == [] then (c, true)
    else if Sum64(|frames[0].payload|, FragmentedLength(c)) > max then (Refuse(c), false)
    else
      var (d, more) := React(role, c, frames[0].first, frames[0].payload);
      if more then Feed(role, max, d, frames[1..]) else (d, false)
  }

  lemma {:induction false} FeedAppend(role: Role, max: nat, c: Conn, frames: seq<Frame>, more: seq<Frame>)
    ensures var (d, go) := Feed(role, max, c, frames);
            Feed(role, max, c, frames + more) == if go then Feed(role, max, d, more) else (d, false)
    decreases |frames|
  {
    hide React, Refuse, FragmentedLength, Sum64;
    if frames == [] {
      assert frames + more == more;
    } else {
      assert (frames + more)[1..] == frames[1..] + more;
      if Sum64(|frames[0].payload|, FragmentedLength(c)) <= max {
        var (d, go) := React(role, c, frames[0].first, frames[0].payload);
        if go {
          FeedAppend(role, max, d, frames[1..], more);
        }
      }
    }
  }

  // The bytes of any frames, with any masks, are served like the frames.
  lemma {:induction false} ServeFeeds(role: Role, max: nat, c: Conn, frames: seq<Frame>, masks: seq<seq<byte>>,
                                      rest: seq<byte>)
    requires AreShort(frames) && AreMasks(masks, |frames|)
    ensures var (d, go) := Feed(role, max, c, frames);
            var o := Serve(role, max, c, FramesBytes(role, frames, masks) + rest);
            if go then o == Serve(role, max, d, rest) else o.progress == Over && o.conn == d
    decreases |frames|
  {
    hide ServeOne, FrameBytes, React, Refuse, FragmentedLength, Sum64;
    var stream := FramesBytes(role, frames, masks) + rest;
    if frames == [] {
      assert stream == rest;
    } else {
      var after := FramesBytes(role, frames[1..], masks[1..]) + rest;
      assert stream == FrameBytes(role, frames[0], masks[0]) + after;
      FrameRoundTrip(role, max, c, frames[0], masks[0], after);
      if Sum64(|frames[0].payload|, FragmentedLength(c)) <= max {
        var (d, more) := React(role, c, frames[0].first, frames[0].payload);
        if more {
          ServeFeeds(role, max, d, frames[1..], masks[1..], rest);
        }
      }
    }
  }

  // ---- Reassembly ----

  // The connection while a message with this opcode is being read, and with its log extended.
  function Reading(c: Conn, opcode: byte, isFirst: bool, read: seq<byte>): Conn
    requires opcode < 8
  {
    c.(fragmented := if isFirst then None else Some(InMessage(128 + opcode, |read|, read)))
  }

  function Logged(c: Conn, events: seq<Event>): Conn {
    c.(log := c.log + events)
  }

  // What a frame that is too big leaves: the events seen before it, and the refusal.
  predicate WasRefused(d: Conn, c: Conn, seen: seq<Event>) {
    && d.closed
    && d.log == c.log + seen + [OnError]
                + (if c.closed then [] else [Sent(CLOSE, [1009 / 256, 1009 % 256] + TooBig())])
                + [OnClose(1009, TooBig())]
  }

  lemma RefuseRefuses(c: Conn)
    ensures WasRefused(Refuse(c), c, [])
  {
    assert c.log + [] == c.log;
  }

  lemma RefusedAfter(d: Conn, c: Conn, events: seq<Event>, seen: seq<Event>)
    requires WasRefused(d, Logged(c, events), seen)
    ensures WasRefused(d, c, events + seen)
  {
    assert c.log + events + seen == c.log + (events + seen);
  }

  // The size limit is applied to each frame together with the fragments read before it, control
  // frames included.
  predicate ControlsFit(controls: seq<Control>, read: nat, max: nat) {
    controls == [] || (|controls[0].payload| + read <= max && ControlsFit(controls[1..], read, max))
  }

  predicate PartsFit(parts: seq<Part>, read: nat, max: nat) {
    parts == [] ||
    (ControlsFit(parts[0].controls, read, max) && read + |parts[0].payload| <= max
     && PartsFit(parts[1..], read + |parts[0].payload|, max))
  }

  // The events seen before the first frame that does not fit.
  function ControlsSeen(controls: seq<Control>, read: nat, max: nat): seq<Event> {
    if controls == [] || |controls[0].payload| + read > max then []
    else ControlEvent(controls[0]) + ControlsSeen(controls[1..], read, max)
  }

  function PartsSeen(parts: seq<Part>, read: nat, max: nat): seq<Event> {
    if parts == [] then []
    else
      var (part, after) := (parts[0], read + |parts[0].payload|);
      ControlsSeen(part.controls, read, max)
      + if ControlsFit(part.controls, read, max) && after <= max then PartsSeen(parts[1..], after, max) else []
  }

  lemma {:induction false} ControlsSeenAll(controls: seq<Control>, read: nat, max: nat)
    requires ControlsFit(controls, read, max)
    ensures ControlsSeen(controls, read, max) == ControlEvents(controls)
  {
    if controls != [] {
      ControlsSeenAll(controls[1..], read, max);
    }
  }

  lemma LoggedTwice(c: Conn, events: seq<Event>, more: seq<Event>)
    ensures Logged(Logged(c, events), more) == Logged(c, events + more)
  {
    assert c.log + events + more == c.log + (events + more);
  }

  lemma SmallSum(a: nat, b: nat)
    requires a + b < TWO64
    ensures Sum64(a, b) == a + b
  {
  }

  lemma ControlIsServed(role: Role, c: Conn, control: Control)
    ensures React(role, c, ControlFrame(control).first, control.payload) == (Logged(c, ControlEvent(control)), true)
  {
    assert c.log + [Sent(0x8A, control.payload), OnPing] == c.log + [Sent(0x8A, control.payload)] + [OnPing];
  }

  lemma {:induction false} ControlsAreServed(role: Role, max: nat, c: Conn, controls: seq<Control>)
    requires AreControls(controls)
    requires FragmentedLength(c) < TWO63
    ensures var (d, go) := Feed(role, max, c, ControlFrames(controls));
            if ControlsFit(controls, FragmentedLength(c), max) then d == Logged(c, ControlEvents(controls)) && go
            else !go && WasRefused(d, c, ControlsSeen(controls, FragmentedLength(c), max))
    decreases |controls|
  {
    hide Refuse, WasRefused, React, Sum64;
    if controls == [] {
      assert Logged(c, []) == c;
    } else {
      var events := ControlEvent(controls[0]);
      assert ControlFrames(controls)[1..] == ControlFrames(controls[1..]);
      RefuseRefuses(c);
      ControlIsServed(role, c, controls[0]);
      assert Sum64(|controls[0].payload|, FragmentedLength(c)) == |controls[0].payload| + FragmentedLength(c) by {
        SmallSum(|controls[0].payload|, FragmentedLength(c));
      }
      if |controls[0].payload| + FragmentedLength(c) <= max {
        ControlsAreServed(role, max, Logged(c, events), controls[1..]);
        LoggedTwice(c, events, ControlEvents(controls[1..]));
        var (d, go) := Feed(role, max, Logged(c, events), ControlFrames(controls[1..]));
        if !go {
          RefusedAfter(d, c, events, ControlsSeen(controls[1..], FragmentedLength(c), max));
        }
      }
    }
  }

  // One fragment.
  lemma FragmentIsServed(role: Role, c: Conn, opcode: byte, isFirst: bool, isLast: bool,
                         read: seq<byte>, payload: seq<byte>)
    requires 1 <= opcode < 8 && (isFirst ==> read == []) && |read| + |payload| < TWO63
    ensures var first: byte := (if isFirst then opcode else 0) + if isLast then 128 else 0;
            React(role, Reading(c, opcode, isFirst, read), first, payload) ==
            if isLast then (Logged(Reading(c, opcode, true, []), [Delivery(opcode, read + payload)]), true)
            else (Reading(c, opcode, false, read + payload), true)
  {
    assert isFirst ==> read + payload == payload;
  }

  // One fragment and the control frames before it.
  lemma PartIsServed(role: Role, max: nat, c: Conn, opcode: byte, isFirst: bool, isLast: bool,
                     read: seq<byte>, part: Part)
    requires 1 <= opcode < 8 && (isFirst ==> read == []) && |read| + |part.payload| < TWO63
    requires AreControls(part.controls)
    ensures var frame := Frame((if isFirst then opcode else 0) + if isLast then 128 else 0, part.payload);
            var (d, go) := Feed(role, max, Reading(c, opcode, isFirst, read), ControlFrames(part.controls) + [frame]);
            if ControlsFit(part.controls, |read|, max) && |read| + |part.payload| <= max then
              var logged := Logged(c, ControlEvents(part.controls));
              && go
              && d == if isLast then Logged(Reading(logged, opcode, true, []), [Delivery(opcode, read + part.payload)])
                      else Reading(logged, opcode, false, read + part.payload)
            else !go && WasRefused(d, c, ControlsSeen(part.controls, |read|, max))
  {
    hide React, Refuse, WasRefused, ControlsFit, ControlsSeen, Feed, AreControls, ControlFrames, ControlEvents, Sum64;
    var frame := Frame((if isFirst then opcode else 0) + if isLast then 128 else 0, part.payload);
    var start := Reading(c, opcode, isFirst, read);
    FeedAppend(role, max, start, ControlFrames(part.controls), [frame]);
    ControlsAreServed(role, max, start, part.controls);
    var (d, _) := Feed(role, max, start, ControlFrames(part.controls) + [frame]);
    RefusedReading(d, c, opcode, isFirst, read, ControlsSeen(part.controls, |read|, max));
    if ControlsFit(part.controls, |read|, max) {
      var logged := Logged(c, ControlEvents(part.controls));
      RefuseRefuses(Reading(logged, opcode, isFirst, read));
      RefusedReading(d, logged, opcode, isFirst, read, []);
      ControlsSeenAll(part.controls, |read|, max);
      FragmentIsServed(role, logged, opcode, isFirst, isLast, read, part.payload);
      FeedOne(role, max, Reading(logged, opcode, isFirst, read), frame);
      SmallSum(|part.payload|, |read|);
      ReadingLogs(c, opcode, isFirst, read, ControlEvents(part.controls));
      if |read| + |part.payload| > max {
        RefusedAfter(d, c, ControlEvents(part.controls), []);
        assert ControlEvents(part.controls) + [] == ControlEvents(part.controls);
      }
    }
  }

  lemma FeedOne(role: Role, max: nat, c: Conn, frame: Frame)
    ensures Feed(role, max, c, [frame]) ==
            if Sum64(|frame.payload|, FragmentedLength(c)) > max then (Refuse(c), false)
            else React(role, c, frame.first, frame.payload)
  {
    hide React, Refuse;
    assert [frame][1..] == [];
  }

  lemma ReadingLogs(c: Conn, opcode: byte, isFirst: bool, read: seq<byte>, events: seq<Event>)
    requires opcode < 8 && (isFirst ==> read == [])
    ensures Logged(Reading(c, opcode, isFirst, read), events) == Reading(Logged(c, events), opcode, isFirst, read)
    ensures FragmentedLength(Reading(c, opcode, isFirst, read)) == |read|
  {
  }

  // The account of a refusal does not depend on what is being read.
  lemma RefusedReading(d: Conn, c: Conn, opcode: byte, isFirst: bool, read: seq<byte>, seen: seq<Event>)
    requires opcode < 8
    ensures WasRefused(d, Reading(c, opcode, isFirst, read), seen) == WasRefused(d, c, seen)
  {
  }

  // The fragments of a message and the control frames among them.
  lemma {:induction false} PartsAreServed(role: Role, max: nat, c: Conn, opcode: byte, isFirst: bool, read: seq<byte>,
                                          parts: seq<Part>)
    requires 1 <= opcode < 8 && parts != [] && (isFirst ==> read == []) && |read| + |Whole(parts)| < TWO63
    requires forall i | 0 <= i < |parts| :: AreControls(parts[i].controls)
    ensures var frames := PartFrames(if isFirst then opcode else 0, parts);
            var (d, go) := Feed(role, max, Reading(c, opcode, isFirst, read), frames);
            if PartsFit(parts, |read|, max)
            then d == Logged(Reading(c, opcode, true, []), PartEvents(parts) + [Delivery(opcode, read + Whole(parts))])
                 && go
            else !go && WasRefused(d, c, PartsSeen(parts, |read|, max))
    decreases |parts|
  {
    hide React, Refuse, WasRefused, ControlsFit, ControlsSeen, ControlFrames, ControlEvents, Feed, AreControls;
    var (part, isLast) := (parts[0], |parts| == 1);
    var code: byte := if isFirst then opcode else 0;
    var frame := Frame(code + if isLast then 128 else 0, part.payload);
    var (head, after) := (ControlFrames(part.controls) + [frame], PartFrames(0, parts[1..]));
    assert PartFrames(code, parts) == head + after;
    FeedAppend(role, max, Reading(c, opcode, isFirst, read), head, after);
    PartIsServed(role, max, c, opcode, isFirst, isLast, read, part);
    assert ControlsSeen(part.controls, |read|, max) + [] == ControlsSeen(part.controls, |read|, max);
    if ControlsFit(part.controls, |read|, max) && |read| + |part.payload| <= max {
      var events := ControlEvents(part.controls);
      if isLast {
        LastPart(role, max, c, opcode, read, parts);
      } else {
        PartsAreServed(role, max, Logged(c, events), opcode, false, read + part.payload, parts[1..]);
        ControlsSeenAll(part.controls, |read|, max);
        var (d, go) := Feed(role, max, Reading(Logged(c, events), opcode, false, read + part.payload), after);
        if !go {
          RefusedAfter(d, c, events, PartsSeen(parts[1..], |read| + |part.payload|, max));
        }
        FirstPart(c, opcode, read, parts);
      }
    }
  }

  lemma PartsUnfold(parts: seq<Part>)
    requires parts != []
    ensures Whole(parts) == parts[0].payload + Whole(parts[1..])
    ensures PartEvents(parts) == ControlEvents(parts[0].controls) + PartEvents(parts[1..])
  {
  }

  lemma FirstPart(c: Conn, opcode: byte, read: seq<byte>, parts: seq<Part>)
    requires opcode < 8 && parts != []
    ensures read + parts[0].payload + Whole(parts[1..]) == read + Whole(parts)
    ensures Logged(Reading(Logged(c, ControlEvents(parts[0].controls)), opcode, true, []),
                   PartEvents(parts[1..]) + [Delivery(opcode, read + Whole(parts))])
         == Logged(Reading(c, opcode, true, []), PartEvents(parts) + [Delivery(opcode, read + Whole(parts))])
  {
    PartsUnfold(parts);
    hide Whole, PartEvents, ControlEvents, Delivery;
    assert read + parts[0].payload + Whole(parts[1..]) == read + (parts[0].payload + Whole(parts[1..]));
    var (events, delivery) := (ControlEvents(parts[0].controls), [Delivery(opcode, read + Whole(parts))]);
    LoggedTwice(Reading(c, opcode, true, []), events, PartEvents(parts[1..]) + delivery);
    assert events + (PartEvents(parts[1..]) + delivery) == PartEvents(parts) + delivery;
  }

  lemma LastPart(role: Role, max: nat, c: Conn, opcode: byte, read: seq<byte>, parts: seq<Part>)
    requires opcode < 8 && |parts| == 1
    ensures PartFrames(0, parts[1..]) == [] && PartsFit(parts[1..], |read| + |parts[0].payload|, max)
    ensures var d := Logged(Reading(Logged(c, ControlEvents(parts[0].controls)), opcode, true, []),
                            [Delivery(opcode, read + parts[0].payload)]);
            && Feed(role, max, d, []) == (d, true)
            && d == Logged(Reading(c, opcode, true, []), PartEvents(parts) + [Delivery(opcode, read + Whole(parts))])
  {
    assert parts[1..] == [];
    assert Whole(parts) == parts[0].payload + [] == parts[0].payload;
    assert PartEvents(parts) == ControlEvents(parts[0].controls) + [] == ControlEvents(parts[0].controls);
    LoggedTwice(Reading(c, opcode, true, []), ControlEvents(parts[0].controls),
                [Delivery(opcode, read + parts[0].payload)]);
  }

  // ---- The main results ----

  predicate AllFit(messages: seq<Message>, max: nat) {
    forall i | 0 <= i < |messages| :: PartsFit(messages[i].parts, 0, max)
  }

  // What is expected of the messages up to the first that does not fit, and of that one what
  // comes before its first frame that does not.
  function Seen(messages: seq<Message>, max: nat): seq<Event>
    requires AreMessages(messages)
  {
    if messages == [] then []
    else
      var m := messages[0];
      if PartsFit(m.parts, 0, max) then
        PartEvents(m.parts) + [Delivery(m.opcode, Whole(m.parts))] + Seen(messages[1..], max)
      else PartsSeen(m.parts, 0, max)
  }

  // Each message is delivered whole, once and in order, with the control frames served on the
  // way, exactly when no frame goes over the size limit. Otherwise this is so up to the first
  // frame that does, and then the connection is closed with 1009.
  lemma {:induction false} MessagesAreFed(role: Role, max: nat, c: Conn, messages: seq<Message>)
    requires AreMessages(messages) && c.fragmented == None
    ensures var (d, go) := Feed(role, max, c, Frames(messages));
            if AllFit(messages, max) then d == Logged(c, Expected(messages)) && go
            else !go && WasRefused(d, c, Seen(messages, max))
    decreases |messages|
  {
    hide WasRefused, PartsFit, PartsSeen, Feed, PartFrames, PartEvents, Whole;
    if messages == [] {
      assert Feed(role, max, c, []) == (c, true) && Logged(c, []) == c by {
        FeedNothing(role, max, c);
      }
    } else {
      var (m, others) := (messages[0], messages[1..]);
      FeedAppend(role, max, c, PartFrames(m.opcode, m.parts), Frames(others));
      assert Reading(c, m.opcode, true, []) == c;
      PartsAreServed(role, max, c, m.opcode, true, [], m.parts);
      assert [] + Whole(m.parts) == Whole(m.parts);
      var events := PartEvents(m.parts) + [Delivery(m.opcode, Whole(m.parts))];
      if PartsFit(m.parts, 0, max) {
        MessagesAreFed(role, max, Logged(c, events), others);
        LoggedTwice(c, events, Expected(others));
        var (d, go) := Feed(role, max, Logged(c, events), Frames(others));
        if !go {
          RefusedAfter(d, c, events, Seen(others, max));
        }
      }
      FitsFirst(messages, max);
    }
  }

  lemma FeedNothing(role: Role, max: nat, c: Conn)
    ensures Feed(role, max, c, []) == (c, true) && Logged(c, []) == c
  {
  }

  lemma FitsFirst(messages: seq<Message>, max: nat)
    requires messages != []
    ensures AllFit(messages, max) <==> PartsFit(messages[0].parts, 0, max) && AllFit(messages[1..], max)
  {
    hide PartsFit;
    if PartsFit(messages[0].parts, 0, max) && AllFit(messages[1..], max) {
      forall i | 0 <= i < |messages|
        ensures PartsFit(messages[i].parts, 0, max)
      {
        assert i > 0 ==> messages[i] == messages[1..][i - 1];
      }
    }
  }

  lemma Reassembly(role: Role, max: nat, c: Conn, messages: seq<Message>, masks: seq<seq<byte>>, rest: seq<byte>)
    requires AreMessages(messages) && c.fragmented == None
    requires AreMasks(masks, |Frames(messages)|)
    ensures var o := Serve(role, max, c, FramesBytes(role, Frames(messages), masks) + rest);
            if AllFit(messages, max) then o == Serve(role, max, Logged(c, Expected(messages)), rest)
            else o.progress == Over && WasRefused(o.conn, c, Seen(messages, max))
  {
    hide Serve, Feed, AllFit, Expected, Seen, Frames, FramesBytes, WasRefused;
    MessagesAreFed(role, max, c, messages);
    ServeFeeds(role, max, c, Frames(messages), masks, rest);
  }

  // A stream of nothing but messages that fit is delivered from the start.
  lemma WholeStream(role: Role, max: nat, messages: seq<Message>, masks: seq<seq<byte>>)
    requires AreMessages(messages) && AllFit(messages, max) && AreMasks(masks, |Frames(messages)|)
    ensures Serve(role, max, NEW, FramesBytes(role, Frames(messages), masks)).conn.log == Expected(messages)
  {
    hide AllFit, FramesBytes, Expected, Frames;
    var stream := FramesBytes(role, Frames(messages), masks);
    Reassembly(role, max, NEW, messages, masks, []);
    assert stream + [] == stream;
    assert NEW.log + Expected(messages) == Expected(messages);
  }

  // In the bytes of RFC 6455: a text in two fragments with a ping between them. The ping is
  // answered with a pong of the same payload, and the text is delivered whole.
  lemma PingBetween(role: Role, max: nat, a: seq<byte>, b: seq<byte>, c: seq<byte>, masks: seq<seq<byte>>)
    requires |b| <= 125 && |a| + |b| <= max && |a| + |c| <= max && |a| + |c| < TWO63 && AreMasks(masks, 3)
    ensures var stream := FrameBytes(role, Frame(0x01, a), masks[0])
                          + (FrameBytes(role, Frame(0x89, b), masks[1]) + FrameBytes(role, Frame(0x80, c), masks[2]));
            Serve(role, max, NEW, stream) ==
            Outcome(Waiting, Conn(None, false, [Sent(0x8A, b), OnPing, OnMessage(0x81, a + c)]), [])
  {
    var frames := [Frame(0x01, a), Frame(0x89, b), Frame(0x80, c)];
    ThreeFrames(role, frames, masks);
    FragmentAndPing(role, max, a, b, c);
    hide Serve, FramesBytes, FrameBytes, Feed;
    ServeFeeds(role, max, NEW, frames, masks, []);
    var stream := FramesBytes(role, frames, masks);
    assert stream + [] == stream;
    ServeNothing(role, max, Conn(None, false, [Sent(0x8A, b), OnPing, OnMessage(0x81, a + c)]));
  }

  lemma ServeNothing(role: Role, max: nat, c: Conn)
    ensures Serve(role, max, c, []) == Outcome(Waiting, c, [])
  {
  }

  lemma ThreeFrames(role: Role, frames: seq<Frame>, masks: seq<seq<byte>>)
    requires |frames| == 3 && AreShort(frames) && AreMasks(masks, 3)
    ensures FramesBytes(role, frames, masks) ==
            FrameBytes(role, frames[0], masks[0])
            + (FrameBytes(role, frames[1], masks[1]) + FrameBytes(role, frames[2], masks[2]))
  {
    hide FrameBytes;
    var (others, masks') := (frames[1..], masks[1..]);
    var last := FrameBytes(role, frames[2], masks[2]);
    assert FramesBytes(role, others[1..], masks'[1..]) == last + [] == last;
    assert FramesBytes(role, others, masks') == FrameBytes(role, frames[1], masks[1]) + last;
  }

  lemma FragmentAndPing(role: Role, max: nat, a: seq<byte>, b: seq<byte>, c: seq<byte>)
    requires |b| <= 125 && |a| + |b| <= max && |a| + |c| <= max && |a| + |c| < TWO63
    ensures Feed(role, max, NEW, [Frame(0x01, a), Frame(0x89, b), Frame(0x80, c)]) ==
            (Conn(None, false, [Sent(0x8A, b), OnPing, OnMessage(0x81, a + c)]), true)
  {
    var frames := [Frame(0x01, a), Frame(0x89, b), Frame(0x80, c)];
    var held := Conn(Some(InMessage(0x81, |a|, a)), false, []);
    var answered := held.(log := [Sent(0x8A, b), OnPing]);
    var last := Conn(None, false, [Sent(0x8A, b), OnPing, OnMessage(0x81, a + c)]);
    SmallSum(|a|, 0);
    SmallSum(|b|, |a|);
    SmallSum(|c|, |a|);
    SmallSum(|a|, |c|);
    assert React(role, NEW, 0x01, a) == (held, true);
    assert React(role, held, 0x89, b) == (answered, true) by {
      assert held.log + [Sent(0x8A, b), OnPing] == answered.log;
    }
    assert React(role, answered, 0x80, c) == (last, true) by {
      assert answered.log + [OnMessage(0x81, a + c)] == last.log;
    }
    hide React, Sum64;
    assert frames[1..] == [frames[1], frames[2]] && frames[1..][1..] == [frames[2]] && frames[1..][1..][1..] == [];
    assert Feed(role, max, last, []) == (last, true);
    assert Feed(role, max, answered, [frames[2]]) == (last, true);
    assert Feed(role, max, held, [frames[1], frames[2]]) == (last, true);
  }

  // The two ways of closing a connection on an error, with their codes.
  lemma RefusalsAre(role: Role, c: Conn)
    ensures Refuse(c).log ==
            c.log + [OnError] + (if c.closed then [] else [Sent(0x88, [3, 241] + TooBig())]) + [OnClose(1009, TooBig())]
    ensures Close(c, 1002, WrongMask(role)).log ==
            c.log + (if c.closed then [] else [Sent(0x88, [3, 234] + WrongMask(role))])
            + [OnClose(1002, WrongMask(role))]
  {
    hide TooBig, WrongMask;
  }

  // ---- Whole messages ----

  predicate AreWhole(frames: seq<Frame>) {
    forall k | 0 <= k < |frames| :: 129 <= frames[k].first <= 135 && |frames[k].payload| < TWO63
  }

  function Deliveries(frames: seq<Frame>): seq<Event> {
    if frames == [] then [] else [OnMessage(frames[0].first, frames[0].payload)] + Deliveries(frames[1..])
  }

  lemma {:induction false} WholeAreFed(role: Role, max: nat, c: Conn, frames: seq<Frame>)
    requires AreWhole(frames) && c.fragmented == None
    requires forall k | 0 <= k < |frames| :: |frames[k].payload| <= max
    ensures Feed(role, max, c, frames) == (Logged(c, Deliveries(frames)), true)
    decreases |frames|
  {
    if frames == [] {
      assert Logged(c, []) == c;
    } else {
      var event := OnMessage(frames[0].first, frames[0].payload);
      WholeAreFed(role, max, Logged(c, [event]), frames[1..]);
      LoggedTwice(c, [event], Deliveries(frames[1..]));
    }
  }

  // What a list of calls of send on one side writes, with any masks, is delivered on the other:
  // the same messages in the same order.
  lemma SentIsDelivered(role: Role, max: nat, frames: seq<Frame>, masks: seq<seq<byte>>)
    requires AreWhole(frames) && AreMasks(masks, |frames|)
    requires forall k | 0 <= k < |frames| :: |frames[k].payload| <= max
    ensures Serve(role, max, NEW, FramesBytes(role, frames, masks))
            == Outcome(Waiting, Conn(None, false, Deliveries(frames)), [])
  {
    hide Feed, FramesBytes, Deliveries;
    WholeAreFed(role, max, NEW, frames);
    ServeFeeds(role, max, NEW, frames, masks, []);
    assert FramesBytes(role, frames, masks) + [] == FramesBytes(role, frames, masks);
    assert [] + Deliveries(frames) == Deliveries(frames);
  }

  // ---- Close ----

  lemma TwoBytes(bytes: seq<byte>)
    requires |bytes| == 2
    ensures Value(bytes) <= 0xffff && Value(bytes) / 256 == bytes[0] && Value(bytes) % 256 == bytes[1]
  {
    assert bytes[..1][..0] == [];
    assert bytes[..1][0] == bytes[0];
    assert Value(bytes[..1]) == bytes[0];
  }

  lemma ClosedEchoes(c: Conn, payload: seq<byte>)
    requires |payload| >= 2
    ensures Closed(c, |payload|, payload) ==
            c.(closed := true,
               log := c.log + (if c.closed then [] else [Sent(CLOSE, payload)])
                      + [OnClose(Value(payload[..2]), payload[2..])])
  {
    TwoBytes(payload[..2]);
    assert payload == [payload[0], payload[1]] + payload[2..];
  }

  // A close frame with a status is answered, once, with the same payload, and nothing after it
  // is served.
  lemma CloseIsAnswered(role: Role, max: nat, c: Conn, payload: seq<byte>, mask: seq<byte>, rest: seq<byte>)
    requires 2 <= |payload| <= 125 && |payload| + FragmentedLength(c) <= max && FragmentedLength(c) < TWO63
    requires |mask| == 4
    ensures var o := Serve(role, max, c, FrameBytes(role, Frame(CLOSE, payload), mask) + rest);
            && o.progress == Over && o.rest == rest && o.conn.closed
            && o.conn.log == c.log + (if c.closed then [] else [Sent(CLOSE, payload)])
                             + [OnClose(Value(payload[..2]), payload[2..])]
  {
    hide FrameBytes, ServeOne, Closed, Refuse, FragmentedLength, Value;
    FrameRoundTrip(role, max, c, Frame(CLOSE, payload), mask, rest);
    SmallSum(|payload|, FragmentedLength(c));
    ClosedEchoes(c, payload);
  }

  // ---- The size limit ----

  // The length of the fragments read is the number of their bytes.
  predicate IsExact(c: Conn) {
    c.fragmented.Some? ==> c.fragmented.value.length == |c.fragmented.value.content|
  }

  predicate AreBounded(log: seq<Event>, max: nat) {
    forall i | 0 <= i < |log| :: log[i].OnMessage? ==> |log[i].content| <= max
  }

  lemma BoundedSnoc(log: seq<Event>, event: Event, max: nat)
    requires AreBounded(log, max) && (event.OnMessage? ==> |event.content| <= max)
    ensures AreBounded(log + [event], max)
  {
  }

  lemma ClosedIsBounded(c: Conn, length: nat, content: seq<byte>, max: nat)
    requires AreBounded(c.log, max) && length <= |content|
    ensures AreBounded(Closed(c, length, content).log, max) && Closed(c, length, content).fragmented == c.fragmented
  {
  }

  lemma AnswerIsBounded(c: Conn, first: byte, content: seq<byte>, max: nat)
    requires AreBounded(c.log, max) && first % 16 == 9
    ensures AreBounded(Answer(c, first, content).log, max) && Answer(c, first, content).fragmented == c.fragmented
  {
  }

  lemma AppendIsExact(c: Conn, first: byte, payload: seq<byte>)
    requires IsExact(c) && |payload| + FragmentedLength(c) < TWO64
    ensures var m := Append(c.fragmented, first, payload);
            m.length == |m.content| == FragmentedLength(c) + |payload|
  {
    SmallSum(FragmentedLength(c), |payload|);
  }

  lemma ReactIsBounded(role: Role, max: nat, c: Conn, first: byte, payload: seq<byte>)
    requires IsExact(c) && AreBounded(c.log, max)
    requires |payload| + FragmentedLength(c) < TWO64 && |payload| + FragmentedLength(c) <= max
    ensures var (d, _) := React(role, c, first, payload);
            && IsExact(d) && AreBounded(d.log, max)
            && FragmentedLength(d) <= FragmentedLength(c) + |payload|
  {
    hide Append, Closed, Answer, AreBounded;
    AppendIsExact(c, first, payload);
    var m := Append(c.fragmented, first, payload);
    var d := if role == Server && (first < 128 || first % 16 == 0) then c.(fragmented := Some(m)) else c;
    var content := if role == Server && first < 128 then m.content else payload;
    ClosedIsBounded(d, |payload|, content, max);
    if first % 16 == 9 {
      AnswerIsBounded(d, first, content, max);
    }
    BoundedSnoc(c.log, OnPong, max);
    BoundedSnoc(c.log, OnMessage(m.first, m.content), max);
    BoundedSnoc(c.log, OnMessage(first, payload), max);
  }

  lemma CloseIsBounded(c: Conn, status: nat, reason: seq<byte>, max: nat)
    requires AreBounded(c.log, max) && status <= 0xffff
    ensures AreBounded(Close(c, status, reason).log, max) && AreBounded(Refuse(c).log, max)
  {
    BoundedSnoc(c.log, OnError, max);
  }

  lemma ServeOneIsBounded(role: Role, max: nat, c: Conn, stream: seq<byte>)
    requires IsExact(c) && AreBounded(c.log, max) && |stream| + FragmentedLength(c) < TWO63
    ensures var o := ServeOne(role, max, c, stream);
            && AreBounded(o.conn.log, max)
            && (o.progress == More ==> IsExact(o.conn) && |o.rest| + FragmentedLength(o.conn) < TWO63)
  {
    hide React, Decode, Content, AreBounded, Close, Refuse, FragmentedLength, Sum64, IsExact;
    CloseIsBounded(c, 1002, WrongMask(role), max);
    if Decode(stream).Some? {
      var (h, extra) := (Decode(stream).value, if role == Server then 4 else 0);
      var after := stream[h.size..];
      if extra + h.length <= |after| && Sum64(h.length, FragmentedLength(c)) <= max {
        SmallSum(h.length, FragmentedLength(c));
        ReactIsBounded(role, max, c, h.first, Content(role, after, h.length));
      }
    }
  }

  // Whatever the stream, allowed or not, no message longer than the limit is delivered.
  lemma {:induction false} DeliveredIsBounded(role: Role, max: nat, c: Conn, stream: seq<byte>)
    requires IsExact(c) && AreBounded(c.log, max) && |stream| + FragmentedLength(c) < TWO63
    ensures AreBounded(Serve(role, max, c, stream).conn.log, max)
    decreases |stream|
  {
    hide ServeOne, AreBounded, IsExact;
    var o := ServeOne(role, max, c, stream);
    ServeOneIsBounded(role, max, c, stream);
    if o.progress == More {
      DeliveredIsBounded(role, max, o.conn, o.rest);
    }
  }

  // A frame longer than the limit is refused, unless its length and that of the fragments held add
  // up to 2^64 or more and wrap around to the limit or less. Then it is let through, but never
  // delivered: it waits for bytes that no stream has.
  lemma LongFrame(role: Role, max: nat, c: Conn, first: byte, length: nat, stream: seq<byte>)
    requires max < length < TWO64 && |stream| + FragmentedLength(c) < TWO64
    ensures var (sum, o) := (length + FragmentedLength(c), ServeContent(role, max, c, first, length, stream));
            if TWO64 <= sum <= TWO64 + max
            then o == Outcome(if role == Server && length >= TWO64 - 4 then Beyond else Waiting, c, stream)
            else o == Outcome(Over, Refuse(c), stream)
    ensures FragmentedLength(c) == 0 ==>
              ServeContent(role, max, c, first, length, stream) == Outcome(Over, Refuse(c), stream)
  {
    hide Refuse, React, Content;
    if length + FragmentedLength(c) < TWO64 {
      SmallSum(length, FragmentedLength(c));
    } else {
      WrappedSum(length, FragmentedLength(c));
    }
  }

  lemma WrappedSum(a: nat, b: nat)
    requires TWO64 <= a + b < 2 * TWO64
    ensures Sum64(a, b) == a + b - TWO64
  {
  }

  // So the model ends only on the server and, unless the limit is just below 2^64, only when
  // fragments are held.
  lemma BeyondIff(role: Role, max: nat, c: Conn, stream: seq<byte>)
    requires max < TWO64 - 4 && FragmentedLength(c) < TWO64
    ensures ServeOne(role, max, c, stream).progress == Beyond <==>
            && role == Server && Decode(stream).Some? && stream[1] >= 128
            && var length := Decode(stream).value.length;
               length >= TWO64 - 4 && TWO64 <= length + FragmentedLength(c) <= TWO64 + max
    ensures FragmentedLength(c) == 0 ==> ServeOne(role, max, c, stream).progress != Beyond
  {
    hide Decode, React, Content, Refuse, Close;
    if Decode(stream).Some? {
      var length := Decode(stream).value.length;
      if length + FragmentedLength(c) < TWO64 {
        SmallSum(length, FragmentedLength(c));
      } else {
        WrappedSum(length, FragmentedLength(c));
      }
    }
  }

  // ---- Segments ----

  lemma DecodeMore(stream: seq<byte>, more: seq<byte>)
    requires Decode(stream).Some?
    ensures Decode(stream + more) == Decode(stream)
  {
    var size := Decode(stream).value.size;
    assert (stream + more)[2..size] == stream[2..size];
  }

  lemma ServeOneMore(role: Role, max: nat, c: Conn, stream: seq<byte>, more: seq<byte>)
    ensures var o := ServeOne(role, max, c, stream);
            if o.progress == Waiting then o == Outcome(Waiting, c, stream)
            else ServeOne(role, max, c, stream + more) == o.(rest := o.rest + more)
  {
    hide React, Decode, Content, Refuse, Close;
    if Decode(stream).Some? {
      var h := Decode(stream).value;
      DecodeMore(stream, more);
      assert (stream + more)[h.size..] == stream[h.size..] + more;
      var extra := if role == Server then 4 else 0;
      if extra + h.length <= |stream[h.size..]| {
        SameContent(role, stream[h.size..] + more, stream[h.size..], h.length);
        assert (stream[h.size..] + more)[extra + h.length..] == stream[h.size..][extra + h.length..] + more;
      }
    }
  }

  // However the bytes are cut into segments, serving them one segment after the other is
  // serving them all.
  lemma {:induction false} Segmented(role: Role, max: nat, c: Conn, stream: seq<byte>, more: seq<byte>)
    ensures var o := Serve(role, max, c, stream);
            Serve(role, max, c, stream + more) ==
            if o.progress == Waiting then Serve(role, max, o.conn, o.rest + more) else o.(rest := o.rest + more)
    decreases |stream|
  {
    hide ServeOne;
    var o := ServeOne(role, max, c, stream);
    ServeOneMore(role, max, c, stream, more);
    if o.progress == More {
      Segmented(role, max, o.conn, o.rest, more);
    }
  }
}
