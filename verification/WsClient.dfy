// The reader of client_ws.hpp. Bytes of messages can arrive together with the upgrade response
// and wait in the buffer; numAdditional says how many, so that only the others are read.
module WsClient {
  import opened Bytes
  import opened WsFrame
  import opened WsConnection
  import opened WsStream

  // A message that is read: its first byte, its length, and the buffer that its bytes are in.
  class MessageBuffer {
    var first: byte
    var length: nat
    var streambuf: seq<byte>

    constructor (first: byte, length: nat, streambuf: seq<byte>)
      ensures View() == InMessage(first, length, streambuf)
    {
      this.first, this.length, this.streambuf := first, length, streambuf;
    }

    ghost function View(): InMessage
      reads this
    {
      InMessage(first, length, streambuf)
    }

    method Read(n: nat) returns (bytes: seq<byte>)
      requires n <= |streambuf|
      modifies this`streambuf
      ensures bytes == old(streambuf)[..n] && streambuf == old(streambuf)[n..]
    {
      bytes := streambuf[..n];
      streambuf := streambuf[n..];
    }

    // What is in the other buffer is moved to this one.
    method TakeAll(source: MessageBuffer)
      requires source != this
      modifies this`streambuf, source`streambuf
      ensures streambuf == old(streambuf + source.streambuf) && source.streambuf == []
    {
      streambuf := streambuf + source.streambuf;
      source.streambuf := [];
    }
  }

  class Connection {
    const max: nat
    // What the server has sent and is not in a buffer yet.
    var network: seq<byte>
    var inMessage: MessageBuffer
    var fragmented: MessageBuffer?
    var closed: bool
    var log: seq<Event>

    // The message that fragments are collected in is another one than that being read.
    ghost predicate Valid()
      reads this`inMessage, this`fragmented
    {
      fragmented != inMessage
    }

    ghost function State(): Conn
      reads this`fragmented, this`closed, this`log, fragmented
    {
      Conn(if fragmented == null then None else Some(fragmented.View()), closed, log)
    }

    // What is still to be read.
    ghost function Stream(): seq<byte>
      reads this`network, this`inMessage, inMessage
    {
      inMessage.streambuf + network
    }

    // Messages are handed on, or made anew.
    twostate predicate Handed()
      reads this`inMessage, this`fragmented
    {
      && (inMessage == old(inMessage) || fresh(inMessage))
      && (fragmented == null || fragmented == old(fragmented) || fragmented == old(inMessage) || fresh(fragmented))
    }

    // The bytes that arrived with the upgrade response are in the buffer.
    constructor (max: nat, arrived: seq<byte>, network: seq<byte>)
      ensures Valid() && fresh(inMessage) && fragmented == null
      ensures this.max == max && inMessage.streambuf == arrived && this.network == network && State() == NEW
    {
      this.max := max;
      this.network := network;
      inMessage := new MessageBuffer(0, 0, arrived);
      fragmented, closed, log := null, false, [];
    }

    // Reads what is missing of n bytes when numAdditional are in the buffer.
    method AsyncRead(n: nat, numAdditional: nat) returns (ok: bool)
      requires numAdditional == |inMessage.streambuf|
      modifies this`network, inMessage`streambuf
      ensures ok == (n <= |old(Stream())|)
      ensures Stream() == old(Stream())
      ensures ok ==> |inMessage.streambuf| == if numAdditional > n then numAdditional else n
      ensures !ok ==> inMessage.streambuf == old(inMessage.streambuf) && network == old(network)
    {
      var missing := if numAdditional > n then 0 else n - numAdditional;
      ok := missing <= |network|;
      if ok {
        inMessage.streambuf, network := inMessage.streambuf + network[..missing], network[missing..];
      }
    }

    method Read(n: nat) returns (bytes: seq<byte>)
      requires n <= |inMessage.streambuf|
      modifies inMessage`streambuf
      ensures bytes == old(Stream())[..n] && Stream() == old(Stream())[n..]
      ensures |inMessage.streambuf| == |old(inMessage.streambuf)| - n
    {
      ghost var stream := Stream();
      bytes := inMessage.Read(n);
      assert Stream() == stream[n..];
    }

    // Reads n bytes; additional is then the number of those left in the buffer.
    method Take(n: nat, numAdditional: nat) returns (ok: bool, bytes: seq<byte>, additional: nat)
      requires numAdditional == |inMessage.streambuf|
      modifies this`network, inMessage`streambuf
      ensures ok == (n <= |old(Stream())|)
      ensures ok ==>
                bytes == old(Stream())[..n] && Stream() == old(Stream())[n..] && additional == |inMessage.streambuf|
    {
      bytes, additional := [], 0;
      ok := AsyncRead(n, numAdditional);
      if ok {
        additional := if numAdditional > n then numAdditional - n else 0;
        bytes := Read(n);
      }
    }

    method SendClose(status: nat, reason: seq<byte>)
      requires status <= 0xffff
      modifies this`closed, this`log
      ensures State() == WsConnection.SendClose(old(State()), status, reason)
    {
      if closed {
        return;
      }
      closed := true;
      log := log + [Sent(CLOSE, [status / 256, status % 256] + reason)];
    }

    method ConnectionClose(status: nat, reason: seq<byte>)
      requires status <= 0xffff
      modifies this`closed, this`log
      ensures State() == Close(old(State()), status, reason)
    {
      SendClose(status, reason);
      log := log + [OnClose(status, reason)];
    }

    method ReadMessage(numAdditional: nat) returns (progress: Progress, additional: nat)
      requires Valid() && numAdditional == |inMessage.streambuf|
      modifies this, inMessage, fragmented
      ensures Valid() && Handed()
      ensures var o := old(ServeOne(Client, max, State(), Stream()));
              && progress == o.progress && State() == o.conn
              && (progress == More ==> additional == |inMessage.streambuf| && Stream() == o.rest)
    {
      hide ServeContent, Close, Decode;
      ghost var (stream, before) := (Stream(), State());
      var ok, firstBytes, length;
      ok, firstBytes, additional := Take(2, numAdditional);
      if !ok {
        return Waiting, 0;
      }
      inMessage.first := firstBytes[0];
      if firstBytes[1] >= 128 {
        ConnectionClose(1002, WrongMask(Client));
        return Over, 0;
      }
      ok, length, additional := TakeLength(firstBytes[1], additional, stream);
      assert State() == before;
      if !ok {
        return Waiting, 0;
      }
      inMessage.length := length;
      progress, additional := ReadMessageContent(additional);
    }

    // The length, in the second byte or in the bytes after it.
    method TakeLength(second: byte, numAdditional: nat, ghost stream: seq<byte>)
        returns (ok: bool, length: nat, additional: nat)
      requires numAdditional == |inMessage.streambuf| && second < 128
      requires |stream| >= 2 && stream[1] == second && Stream() == stream[2..]
      modifies this`network, inMessage`streambuf
      ensures ok == Decode(stream).Some?
      ensures ok ==> var h := Decode(stream).value;
                     && h.first == stream[0] && length == h.length && length < TWO64
                     && Stream() == stream[h.size..] && additional == |inMessage.streambuf|
    {
      ok, length, additional := true, second, numAdditional;
      var numBytes := if length == 126 then 2 else if length == 127 then 8 else 0;
      if numBytes > 0 {
        var lengthBytes;
        ok, lengthBytes, additional := Take(numBytes, additional);
        if !ok {
          return;
        }
        assert lengthBytes == stream[2..2 + numBytes];
        length := ReadLength(lengthBytes);
        ValueBound(lengthBytes);
        Powers();
      }
    }

    method ReadMessageContent(numAdditional: nat) returns (progress: Progress, additional: nat)
      requires Valid() && numAdditional == |inMessage.streambuf| && inMessage.length < TWO64
      modifies this, inMessage, fragmented
      ensures Valid() && Handed()
      ensures var o := old(ServeContent(Client, max, State(), inMessage.first, inMessage.length, Stream()));
              && progress == o.progress && State() == o.conn
              && (progress == More ==> additional == |inMessage.streambuf| && Stream() == o.rest)
    {
      hide Close, ClientReact;
      additional := 0;
      if Sum64(inMessage.length, if fragmented != null then fragmented.length else 0) > max {
        log := log + [OnError];
        ConnectionClose(1009, TooBig());
        return Over, 0;
      }
      ghost var (stream, before) := (Stream(), State());
      var length := inMessage.length;
      var ok := AsyncRead(length, numAdditional);
      if !ok {
        return Waiting, 0;
      }
      additional := if numAdditional > length then numAdditional - length else 0;
      assert inMessage.streambuf[..length] == stream[..length];
      assert inMessage.streambuf[length..] + network == stream[length..];
      var next := SplitMessage(additional);
      assert State() == before && inMessage.streambuf == Content(Client, stream, length);
      progress := React(next);
    }

    // Bytes that are not of this message are left to the next one: then the message gets a new
    // buffer, and its bytes are moved there.
    method SplitMessage(additional: nat) returns (next: MessageBuffer)
      requires Valid() && |inMessage.streambuf| == inMessage.length + additional
      modifies this`inMessage, inMessage
      ensures Valid() && next != inMessage && next != fragmented && fragmented == old(fragmented)
      ensures (next == old(inMessage) && fresh(inMessage)) || (inMessage == old(inMessage) && fresh(next))
      ensures inMessage.View() == old(inMessage.View()).(content := old(inMessage.streambuf[..inMessage.length]))
      ensures next.streambuf == old(inMessage.streambuf[inMessage.length..])
    {
      if additional > 0 {
        next := inMessage;
        var moved := next.Read(next.length);
        inMessage := new MessageBuffer(next.first, next.length, moved);
      } else {
        next := new MessageBuffer(0, 0, []);
      }
    }

    // The handler of the read of the content: what the first byte asks for.
    method React(next: MessageBuffer) returns (progress: Progress)
      requires Valid() && next != inMessage && next != fragmented && inMessage.length == |inMessage.streambuf|
      modifies this`inMessage, this`fragmented, this`closed, this`log, inMessage, fragmented
      ensures progress == More ==> inMessage == next
      ensures progress != More ==> inMessage == old(inMessage)
      ensures fragmented == null || fragmented == old(fragmented) || fragmented == old(inMessage)
      ensures progress != More ==> fragmented == old(fragmented)
      ensures var o := ClientReact(old(State()), old(inMessage.first), old(inMessage.streambuf));
              State() == o.0 && progress == if o.1 then More else Over
    {
      hide Close, Value;
      var first := inMessage.first;
      if first % 16 == 8 {
        var status := 0;
        StatusIsSmall(inMessage.streambuf);
        if inMessage.length >= 2 {
          var bytes := inMessage.Read(2);
          status := ReadLength(bytes);
        }
        ConnectionClose(status, inMessage.streambuf);
        return Over;
      }
      progress := More;
      if first % 16 == 9 {
        log := log + [Sent(first + 1, inMessage.streambuf), OnPing];
      } else if first % 16 == 10 {
        log := log + [OnPong];
      } else if first < 128 {
        if fragmented == null {
          fragmented := inMessage;
          fragmented.first := fragmented.first + 128;
        } else {
          AppendFragment();
        }
      } else {
        if fragmented != null {
          AppendFragment();
          log := log + [OnMessage(fragmented.first, fragmented.streambuf)];
        } else {
          log := log + [OnMessage(first, inMessage.streambuf)];
        }
        fragmented := null;
      }
      inMessage := next;
    }

    // The fragment read is moved to those before it.
    method AppendFragment()
      requires Valid() && fragmented != null && inMessage.length == |inMessage.streambuf|
      modifies fragmented, inMessage`streambuf
      ensures fragmented.View() == old(Append(Some(fragmented.View()), inMessage.first, inMessage.streambuf))
    {
      fragmented.length := Sum64(fragmented.length, inMessage.length);
      fragmented.TakeAll(inMessage);
    }

    method Run() returns (progress: Progress)
      requires Valid()
      modifies this, inMessage, fragmented
      ensures var o := old(Serve(Client, max, State(), Stream()));
              progress == o.progress && State() == o.conn
    {
      hide ServeOne;
      progress := More;
      var additional := |inMessage.streambuf|;
      while progress == More
        invariant Valid() && Handed()
        invariant progress == More ==>
                    && additional == |inMessage.streambuf|
                    && Serve(Client, max, State(), Stream()) == old(Serve(Client, max, State(), Stream()))
        invariant progress != More ==>
                    && progress == old(Serve(Client, max, State(), Stream())).progress
                    && State() == old(Serve(Client, max, State(), Stream())).conn
        decreases progress == More, |Stream()|
      {
        progress, additional := ReadMessage(additional);
      }
    }
  }

  // When the stream is cut at the upgrade response, all of it is served.
  method RunsCut(max: nat, stream: seq<byte>, cut: nat) returns (log: seq<Event>)
    requires cut <= |stream|
    ensures log == Serve(Client, max, NEW, stream).conn.log
  {
    hide Serve;
    var connection := new Connection(max, stream[..cut], stream[cut..]);
    assert connection.Stream() == stream;
    var _ := connection.Run();
    log := connection.log;
  }

  // However many bytes of a stream arrive with the upgrade response, the client delivers what
  // it delivers when none do.
  method RunsAlike(max: nat, stream: seq<byte>, cut: nat) returns (log: seq<Event>, log': seq<Event>)
    requires cut <= |stream|
    ensures log == log' == Serve(Client, max, NEW, stream).conn.log
  {
    hide Serve;
    log := RunsCut(max, stream, cut);
    log' := RunsCut(max, stream, 0);
  }

  // All the way: messages in fragments are sent by the server, some bytes arrive early, and the
  // client delivers the messages.
  method ClientReceives(max: nat, messages: seq<Message>, ghost masks: seq<seq<byte>>, stream: seq<byte>, cut: nat)
      returns (log: seq<Event>)
    requires AreMessages(messages) && AllFit(messages, max) && AreMasks(masks, |Frames(messages)|)
    requires stream == FramesBytes(Client, Frames(messages), masks) && cut <= |stream|
    ensures log == Expected(messages)
  {
    WholeStream(Client, max, messages, masks);
    hide *;
    log := RunsCut(max, stream, cut);
  }
}
