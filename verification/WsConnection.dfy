// What a WebSocket connection makes of the bytes that arrive on it: the read_message and
// read_message_content methods of client_ws.hpp and server_ws.hpp, as functions of the stream.
module WsConnection {
  import opened Bytes
  import opened WsFrame

  datatype Role = Server | Client

  // A message being read, with the length field next to the bytes in its buffer.
  datatype InMessage = InMessage(first: byte, length: nat, content: seq<byte>)

  // The handlers called and the frames handed to send.
  datatype Event =
    | OnMessage(first: byte, content: seq<byte>)
    | OnPing
    | OnPong
    | OnClose(status: nat, reason: seq<byte>)
    | OnError
    | Sent(first: byte, payload: seq<byte>)

  datatype Conn = Conn(fragmented: Option<InMessage>, closed: bool, log: seq<Event>)

  const NEW := Conn(None, false, [])

  const CLOSE: byte := 136

  function WrongMask(role: Role): seq<byte> {
    if role == Server then Ascii("message from client not masked") else Ascii("message from server masked")
  }

  function TooBig(): seq<byte> {
    Ascii("message too big")
  }

  // ---- Closing ----

  function SendClose(c: Conn, status: nat, reason: seq<byte>): Conn
    requires status <= 0xffff
  {
    if c.closed then c else c.(closed := true, log := c.log + [Sent(CLOSE, [status / 256, status % 256] + reason)])
  }

  function Close(c: Conn, status: nat, reason: seq<byte>): Conn
    requires status <= 0xffff
  {
    var d := SendClose(c, status, reason);
    d.(log := d.log + [OnClose(status, reason)])
  }

  lemma StatusIsSmall(content: seq<byte>)
    ensures |content| >= 2 ==> Value(content[..2]) <= 0xffff
  {
    if |content| >= 2 {
      ValueBound(content[..2]);
      Powers();
    }
  }

  // The status that a close frame starts with, when it has one.
  function Closed(c: Conn, length: nat, content: seq<byte>): Conn
    requires length <= |content|
  {
    StatusIsSmall(content);
    if length >= 2 then Close(c, Value(content[..2]), content[2..]) else Close(c, 0, content)
  }

  function Answer(c: Conn, first: byte, content: seq<byte>): Conn
    requires first % 16 == 9
  {
    c.(log := c.log + [Sent(first + 1, content), OnPing])
  }

  // ---- Frames ----

  function Sum64(a: nat, b: nat): nat {
    (a + b) % TWO64
  }

  function Append(message: Option<InMessage>, first: byte, payload: seq<byte>): InMessage {
    match message
    case None => InMessage(first % 128 + 128, |payload|, payload)
    case Some(m) => m.(length := Sum64(m.length, |payload|), content := m.content + payload)
  }

  // The client keeps control frames apart from the fragments.
  function ClientReact(c: Conn, first: byte, payload: seq<byte>): (Conn, bool) {
    if first % 16 == 8 then (Closed(c, |payload|, payload), false)
    else if first % 16 == 9 then (Answer(c, first, payload), true)
    else if first % 16 == 10 then (c.(log := c.log + [OnPong]), true)
    else if first < 128 then (c.(fragmented := Some(Append(c.fragmented, first, payload))), true)
    else
      var m :=
        if c.fragmented.Some? then Append(c.fragmented, first, payload)
        else InMessage(first, |payload|, payload);
      (c.(fragmented := None, log := c.log + [OnMessage(m.first, m.content)]), true)
  }

  // The server decides by the first byte alone what is a fragment.
  function ServerReact(c: Conn, first: byte, payload: seq<byte>): (Conn, bool) {
    var isFragment := first < 128 || first % 16 == 0;
    var m := if isFragment then Append(c.fragmented, first, payload) else InMessage(first, |payload|, payload);
    var d := if isFragment then c.(fragmented := Some(m)) else c;
    if first % 16 == 8 then (Closed(d, |payload|, m.content), false)
    else if first % 16 == 9 then (Answer(d, first, m.content), true)
    else if first % 16 == 10 then (d.(log := d.log + [OnPong]), true)
    else if first < 128 then (d, true)
    else (d.(fragmented := None, log := d.log + [OnMessage(m.first, m.content)]), true)
  }

  function React(role: Role, c: Conn, first: byte, payload: seq<byte>): (Conn, bool) {
    if role == Server then ServerReact(c, first, payload) else ClientReact(c, first, payload)
  }

  function FragmentedLength(c: Conn): nat {
    if c.fragmented.Some? then c.fragmented.value.length else 0
  }

  function Refuse(c: Conn): Conn {
    Close(c.(log := c.log + [OnError]), 1009, TooBig())
  }

  // ---- Streams ----

  // Serving goes on; or it waits for the rest of a frame, with all that has come of it; or the connection is over; or
  // the frame is so long that 4 + length wraps around, which this model leaves open.
  datatype Progress = More | Waiting | Over | Beyond

  datatype Outcome = Outcome(progress: Progress, conn: Conn, rest: seq<byte>)

  function Content(role: Role, stream: seq<byte>, length: nat): (content: seq<byte>)
    requires length + (if role == Server then 4 else 0) <= |stream|
    ensures |content| == length
  {
    if role == Server then Masked(stream[4..4 + length], stream[..4]) else stream[..length]
  }

  lemma SameContent(role: Role, stream: seq<byte>, other: seq<byte>, length: nat)
    requires var n := length + (if role == Server then 4 else 0);
             n <= |stream| && n <= |other| && stream[..n] == other[..n]
    ensures Content(role, stream, length) == Content(role, other, length)
  {
    if role == Server {
      assert stream[4..4 + length] == stream[..4 + length][4..] && stream[..4] == stream[..4 + length][..4];
      assert other[4..4 + length] == other[..4 + length][4..] && other[..4] == other[..4 + length][..4];
    }
  }

  function ServeContent(role: Role, max: nat, c: Conn, first: byte, length: nat, stream: seq<byte>): (o: Outcome)
    ensures |o.rest| <= |stream|
    ensures o.progress == Waiting ==> o.conn == c
  {
    var extra := if role == Server then 4 else 0;
    if Sum64(length, FragmentedLength(c)) > max then Outcome(Over, Refuse(c), stream)
    else if extra + length >= TWO64 then Outcome(Beyond, c, stream)
    else if |stream| < extra + length then Outcome(Waiting, c, stream)
    else
      var (d, more) := React(role, c, first, Content(role, stream, length));
      Outcome(if more then More else Over, d, stream[extra + length..])
  }

  function ServeOne(role: Role, max: nat, c: Conn, stream: seq<byte>): (o: Outcome)
    ensures o.progress == More ==> |o.rest| < |stream|
  {
    if |stream| < 2 then Outcome(Waiting, c, stream)
    else if (stream[1] >= 128) != (role == Server) then Outcome(Over, Close(c, 1002, WrongMask(role)), stream)
    else
      match Decode(stream)
      case None => Outcome(Waiting, c, stream)
      case Some(h) =>
        var o := ServeContent(role, max, c, h.first, h.length, stream[h.size..]);
        if o.progress == Waiting then Outcome(Waiting, c, stream) else o
  }

  function Serve(role: Role, max: nat, c: Conn, stream: seq<byte>): (o: Outcome)
    decreases |stream|
  {
    var o := ServeOne(role, max, c, stream);
    if o.progress == More then Serve(role, max, o.conn, o.rest) else o
  }
}
