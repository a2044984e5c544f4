// The reader of server_ws.hpp: a connection whose buffer is filled from the network as far as
// each step needs. Bytes that arrive together with the handshake request wait in the buffer; they
// are read first, but as many bytes are then left in it, since every step reads what it needs from
// the network all the same.
module WsServer {
  import opened Bytes
  import opened WsFrame
  import opened WsConnection
  import opened WsStream

  class Connection {
    const max: nat
    // What the client has sent and the server has still to read.
    var network: seq<byte>
    var streambuf: seq<byte>
    var fragmented: Option<InMessage>
    var closed: bool
    var log: seq<Event>

    ghost function State(): Conn
      reads this`fragmented, this`closed, this`log
    {
      Conn(fragmented, closed, log)
    }

    // What the server gets to read: as many bytes as the network has still to bring.
    ghost function Stream(): (stream: seq<byte>)
      reads this`network, this`streambuf
      ensures |stream| == |network|
    {
      (streambuf + network)[..|network|]
    }

    // The bytes that arrived with the handshake request are in the buffer.
    constructor (max: nat, arrived: seq<byte>, network: seq<byte>)
      ensures this.max == max && this.network == network && streambuf == arrived && State() == NEW
    {
      this.max := max;
      this.network, streambuf := network, arrived;
      fragmented, closed, log := None, false, [];
    }

    // asio::async_read of exactly n bytes; it does not complete when they do not come. What is
    // read next are the first bytes of the buffer, which need not be those that have come.
    method AsyncRead(n: nat) returns (ok: bool)
      modifies this`network, this`streambuf
      ensures ok == (n <= |old(Stream())|)
      ensures !ok ==> streambuf == old(streambuf) && network == old(network)
      ensures ok ==>
                && |streambuf| == |old(streambuf)| + n && streambuf[..n] == old(Stream())[..n]
                && (streambuf[n..] + network)[..|network|] == old(Stream())[n..]
    {
      ok := n <= |network|;
      if ok {
        streambuf, network := streambuf + network[..n], network[n..];
      }
    }

    // Fetches n bytes and reads n.
    method Take(n: nat) returns (ok: bool, bytes: seq<byte>)
      modifies this`network, this`streambuf
      ensures ok == (n <= |old(Stream())|)
      ensures ok ==> bytes == old(Stream())[..n] && Stream() == old(Stream())[n..] && |streambuf| == |old(streambuf)|
    {
      ok := AsyncRead(n);
      bytes := [];
      if ok {
        bytes := Read(n);
      }
    }

    method Read(n: nat) returns (bytes: seq<byte>)
      requires n <= |streambuf|
      modifies this`streambuf
      ensures bytes == old(streambuf)[..n] && streambuf == old(streambuf)[n..]
    {
      bytes := streambuf[..n];
      streambuf := streambuf[n..];
    }

    method SendClose(status: nat, reason: seq<byte>)
      requires status <= 0xffff
      modifies this`closed, this`log
      ensures State() == WsConnection.SendClose(old(State()), status, reason)
    {
      if closed {
        return;
      }
      closed := true;
      log := log + [Sent(CLOSE, [status / 256, status % 256] + reason)];
    }

    method ConnectionClose(status: nat, reason: seq<byte>)
      requires status <= 0xffff
      modifies this`closed, this`log
      ensures State() == Close(old(State()), status, reason)
    {
      SendClose(status, reason);
      log := log + [OnClose(status, reason)];
    }

    // The length bytes after the first two, if there are any, and then the content.
    method ReadMessage() returns (progress: Progress)
      modifies this
      ensures var o := old(ServeOne(Server, max, State(), Stream()));
              && progress == o.progress && State() == o.conn
              && (progress == More ==> |streambuf| == |old(streambuf)| && Stream() == o.rest)
    {
      hide ServeContent, Close;
      ghost var stream := Stream();
      var ok, firstBytes := Take(2);
      if !ok {
        return Waiting;
      }
      if firstBytes[1] < 128 {
        ConnectionClose(1002, WrongMask(Server));
        return Over;
      }
      var length: nat := firstBytes[1] % 128;
      var numBytes := if length == 126 then 2 else if length == 127 then 8 else 0;
      if numBytes > 0 {
        var lengthBytes;
        ok, lengthBytes := Take(numBytes);
        if !ok {
          return Waiting;
        }
        assert lengthBytes == stream[2..2 + numBytes];
        length := ReadLength(lengthBytes);
        ValueBound(lengthBytes);
        Powers();
      }
      assert Stream() == stream[2 + numBytes..];
      progress := ReadMessageContent(length, firstBytes[0]);
    }

    method ReadMessageContent(length: nat, first: byte) returns (progress: Progress)
      requires length < TWO64
      modifies this
      ensures var o := old(ServeContent(Server, max, State(), first, length, Stream()));
              && progress == o.progress && State() == o.conn
              && (progress == More ==> |streambuf| == |old(streambuf)| && Stream() == o.rest)
    {
      hide Close, ServerReact, Content, TooBig;
      ghost var stream := Stream();
      if Sum64(length, if fragmented.Some? then fragmented.value.length else 0) > max {
        log := log + [OnError];
        ConnectionClose(1009, TooBig());
        return Over;
      }
      if 4 + length >= TWO64 {
        return Beyond;
      }
      var ok := AsyncRead(4 + length);
      if !ok {
        return Waiting;
      }
      SameContent(Server, streambuf, stream, length);
      progress := React(length, first);
    }

    // The handler of the read of the content: what the first byte asks for.
    method React(length: nat, first: byte) returns (progress: Progress)
      requires 4 + length <= |streambuf| && 4 + length < TWO64
      modifies this`streambuf, this`fragmented, this`closed, this`log
      ensures var o := ServerReact(old(State()), first, Content(Server, old(streambuf), length));
              State() == o.0 && progress == if o.1 then More else Over
      ensures streambuf == old(streambuf)[4 + length..]
    {
      hide Close, Xor, IsXor, Value;
      ghost var before := State();
      ghost var payload := Content(Server, streambuf, length);
      var message := ReadPayload(length, first);
      if first % 16 == 8 {
        var status := 0;
        var reason := message.content;
        if length >= 2 {
          status := ReadLength(reason[..2]);
          reason := reason[2..];
        }
        StatusIsSmall(message.content);
        ConnectionClose(status, reason);
        return Over;
      }
      progress := More;
      if first % 16 == 9 {
        log := log + [Sent(first + 1, message.content), OnPing];
      } else if first % 16 == 10 {
        log := log + [OnPong];
      } else if first >= 128 {
        log := log + [OnMessage(message.first, message.content)];
        fragmented := None;
      }
    }

    // Takes the payload out of the buffer byte by byte.
    method Unmask(mask: seq<byte>, length: nat) returns (content: seq<byte>)
      requires |mask| == 4 && length <= |streambuf|
      modifies this`streambuf
      ensures streambuf == old(streambuf)[length..] && content == Masked(old(streambuf)[..length], mask)
      ensures forall c | 0 <= c < length :: IsXor(content[c], old(streambuf)[c], mask[c % 4])
    {
      hide Xor, IsXor;
      MaskedIs(streambuf[..length], mask);
      ghost var masked := streambuf;
      content := [];
      for c := 0 to length
        invariant streambuf == masked[c..]
        invariant content == Masked(masked[..length], mask)[..c]
      {
        var next := Read(1);
        content := content + [Xor(next[0], mask[c % 4])];
      }
    }

    // The message ends in the payload, each byte of which was combined with the byte of the mask
    // whose turn it is.
    ghost predicate IsUnmasked(content: seq<byte>, buffer: seq<byte>, length: nat)
      requires 4 + length <= |buffer|
    {
      && |content| >= length
      && forall c | 0 <= c < length :: IsXor(content[|content| - length + c], buffer[4 + c], buffer[c % 4])
    }

    lemma Appended(before: seq<byte>, content: seq<byte>, buffer: seq<byte>)
      requires 4 + |content| <= |buffer|
      requires forall c | 0 <= c < |content| :: IsXor(content[c], buffer[4..][c], buffer[..4][c % 4])
      ensures IsUnmasked(before + content, buffer, |content|)
    {
      hide IsXor;
    }

    // The payload is unmasked into the message that it belongs to.
    method ReadPayload(length: nat, first: byte) returns (message: InMessage)
      requires 4 + length <= |streambuf| && 4 + length < TWO64
      modifies this`streambuf, this`fragmented
      ensures streambuf == old(streambuf)[4 + length..]
      ensures var payload := old(Content(Server, streambuf, length));
              if first < 128 || first % 16 == 0
              then message == Append(old(fragmented), first, payload) && fragmented == Some(message)
              else message == InMessage(first, length, payload) && fragmented == old(fragmented)
      ensures IsUnmasked(message.content, old(streambuf), length)
    {
      hide Masked, IsXor, IsUnmasked;
      ghost var buffer := streambuf;
      assert streambuf[4..4 + length] == streambuf[4..][..length];
      var mask := Read(4);
      var isFragment := first < 128 || first % 16 == 0;
      if isFragment {
        message := if fragmented == None then InMessage(first % 128 + 128, length, [])
                   else fragmented.value.(length := Sum64(fragmented.value.length, length));
      } else {
        message := InMessage(first, length, []);
      }
      var content := Unmask(mask, length);
      assert [] + content == content;
      Appended(message.content, content, buffer);
      message := message.(content := message.content + content);
      if isFragment {
        fragmented := Some(message);
      }
    }

    // Message after message, until the connection is over or nothing more comes.
    method Run() returns (progress: Progress)
      modifies this
      ensures var o := old(Serve(Server, max, State(), Stream()));
              progress == o.progress && State() == o.conn
    {
      hide ServeOne;
      progress := More;
      while progress == More
        invariant progress == More ==>
                    Serve(Server, max, State(), Stream()) == old(Serve(Server, max, State(), Stream()))
        invariant progress != More ==>
                    && progress == old(Serve(Server, max, State(), Stream())).progress
                    && State() == old(Serve(Server, max, State(), Stream())).conn
        decreases progress == More, |Stream()|
      {
        progress := ReadMessage();
      }
    }
  }

  // When some bytes of a stream arrive with the handshake request, the server serves the stream
  // without as many bytes at its end.
  method RunsBehind(max: nat, stream: seq<byte>, cut: nat) returns (log: seq<Event>)
    requires cut <= |stream|
    ensures log == Serve(Server, max, NEW, stream[..|stream| - cut]).conn.log
  {
    hide Serve;
    var connection := new Connection(max, stream[..cut], stream[cut..]);
    assert stream[..cut] + stream[cut..] == stream;
    var _ := connection.Run();
    log := connection.log;
  }

  lemma Uncut(stream: seq<byte>)
    ensures stream[..|stream| - 0] == stream
  {
  }

  // All the way: what the client sends in fragments, with any masks, the server delivers.
  method ServerReceives(max: nat, messages: seq<Message>, ghost masks: seq<seq<byte>>, stream: seq<byte>)
      returns (log: seq<Event>)
    requires AreMessages(messages) && AllFit(messages, max) && AreMasks(masks, |Frames(messages)|)
    requires stream == FramesBytes(Server, Frames(messages), masks)
    ensures log == Expected(messages)
  {
    hide *;
    WholeStream(Server, max, messages, masks);
    Uncut(stream);
    log := RunsBehind(max, stream, 0);
  }
}
