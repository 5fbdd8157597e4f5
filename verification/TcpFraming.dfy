/** Length-prefixed framing over a byte stream that arrives in arbitrary chunks. */
module TcpFraming {
  import opened Bytes
  import opened Messages
  import opened TpTypes
  import opened TpSegmenter
  import opened MessageRuntime

  const MAX_MESSAGE_SIZE := 4096
  const PREFIX_OCTETS := 4

  function Flatten(chunks: seq<seq<Byte>>): seq<Byte> {
    if chunks == [] then [] else chunks[0] + Flatten(chunks[1..])
  }

  /** The receiving end of a connection: the chunks still to be read, then end of stream. */
  class Socket {
    var chunks: seq<seq<Byte>>

    ghost predicate Valid()
      reads this
    {
      forall c :: c in chunks ==> c != []
    }

    ghost function Pending(): seq<Byte>
      reads this
    {
      Flatten(chunks)
    }

    constructor (chunks: seq<seq<Byte>>)
      requires forall c :: c in chunks ==> c != []
      ensures Valid() && Pending() == Flatten(chunks)
    {
      this.chunks := chunks;
    }

    /** One `recv`: some octets, at least one unless the stream has ended, at most `n`. */
    method Recv(n: nat) returns (data: seq<Byte>)
      requires Valid() && n > 0
      modifies this
      ensures Valid() && |data| <= n
      ensures old(Pending()) == data + Pending()
      ensures data == [] <==> old(Pending()) == []
    {
      if chunks == [] {
        return [];
      }
      var chunk, rest := chunks[0], chunks[1..];
      assert chunk in chunks && forall c :: c in rest ==> c in chunks;
      if |chunk| <= n {
        data := chunk;
        chunks := rest;
      } else {
        data := chunk[..n];
        chunks := [chunk[n..]] + rest;
        assert chunks[1..] == rest;
        assert chunk == data + chunk[n..];
        assert chunk + Flatten(rest) == data + (chunk[n..] + Flatten(rest));
      }
    }

    /** `recv` with MSG_WAITALL: all `n` octets, fewer only at the end of the stream. */
    method RecvAll(n: nat) returns (data: seq<Byte>)
      requires Valid()
      modifies this
      ensures Valid()
      ensures old(Pending()) == data + Pending()
      ensures |data| == Min(n, |old(Pending())|)
    {
      data := [];
      while |data| < n
        invariant Valid() && |data| <= n
        invariant old(Pending()) == data + Pending()
        decreases n - |data|
      {
        var more := Recv(n - |data|);
        if more == [] {
          return data;
        }
        data := data + more;
      }
    }
  }

  // ----- Decoding -----

  /** The message in a frame, if it parses. */
  function Parsed(body: seq<Byte>): seq<Message> {
    var m := Decode(body);
    if m.Some? then [m.value] else []
  }

  /** The messages a stream of frames carries, as the receiving loop understands it. */
  function DecodeStream(s: seq<Byte>): seq<Message>
    decreases |s|
  {
    if |s| < PREFIX_OCTETS then []
    else
      var n := Join(s[..PREFIX_OCTETS]);
      if n > MAX_MESSAGE_SIZE then []
      else if |s| < PREFIX_OCTETS + n then []
      else
        Parsed(s[PREFIX_OCTETS..PREFIX_OCTETS + n]) + DecodeStream(s[PREFIX_OCTETS + n..])
  }

  lemma DecodeStreamFrame(prefix: seq<Byte>, body: seq<Byte>, rest: seq<Byte>)
    requires |prefix| == PREFIX_OCTETS
    requires |body| == Join(prefix) <= MAX_MESSAGE_SIZE
    ensures DecodeStream(prefix + body + rest)
            == Parsed(body) + DecodeStream(rest)
  {
    var s := prefix + body + rest;
    assert s[..PREFIX_OCTETS] == prefix;
    assert s[PREFIX_OCTETS..PREFIX_OCTETS + |body|] == body;
    assert s[PREFIX_OCTETS + |body|..] == rest;
  }

  /** A stream whose first frame is cut short, or too long, carries nothing. */
  lemma DecodeStreamStops(prefix: seq<Byte>, rest: seq<Byte>)
    requires |prefix| == PREFIX_OCTETS
    requires var n := Join(prefix); n > MAX_MESSAGE_SIZE || |rest| < n
    ensures DecodeStream(prefix + rest) == []
  {
    var s := prefix + rest;
    assert s[..PREFIX_OCTETS] == prefix;
  }

  /** Copying what one `recv` returned to its place in the buffer. */
  method Fill(buffer: array<Byte>, at: nat, data: seq<Byte>)
    requires at + |data| <= buffer.Length
    modifies buffer
    ensures buffer[..at + |data|] == old(buffer[..at]) + data
    ensures buffer[at + |data|..] == old(buffer[at + |data|..])
  {
    forall i | 0 <= i < |data| {
      buffer[at + i] := data[i];
    }
  }

  /** Reading the announced octets into the buffer, however many `recv` calls that takes. */
  method ReceiveBody(socket: Socket, buffer: array<Byte>, msgLength: nat) returns (complete: bool)
    requires socket.Valid() && msgLength <= buffer.Length
    modifies socket, buffer
    ensures socket.Valid()
    ensures complete <==> msgLength <= |old(socket.Pending())|
    ensures complete ==> old(socket.Pending()) == buffer[..msgLength] + socket.Pending()
  {
    var totalReceived := 0;
    while totalReceived < msgLength
      invariant socket.Valid()
      invariant 0 <= totalReceived <= msgLength
      invariant old(socket.Pending()) == buffer[..totalReceived] + socket.Pending()
      decreases msgLength - totalReceived
    {
      var received := socket.Recv(msgLength - totalReceived);
      if |received| == 0 {
        return false;
      }
      Fill(buffer, totalReceived, received);
      totalReceived := totalReceived + |received|;
    }
    return true;
  }

  /** One turn of the receiving loop: read a frame and deliver its message, or stop. */
  method ReceiveOne(socket: Socket, buffer: array<Byte>) returns (running: bool, delivered: seq<Message>)
    requires socket.Valid() && buffer.Length == MAX_MESSAGE_SIZE
    modifies socket, buffer
    ensures socket.Valid()
    ensures running ==> DecodeStream(old(socket.Pending())) == delivered + DecodeStream(socket.Pending())
    ensures running ==> |socket.Pending()| < |old(socket.Pending())|
    ensures !running ==> DecodeStream(old(socket.Pending())) == delivered == []
  {
    var prefix := socket.RecvAll(PREFIX_OCTETS);
    if |prefix| != PREFIX_OCTETS {
      return false, [];
    }
    var msgLength := Join(prefix);
    ghost var rest := socket.Pending();
    if msgLength > MAX_MESSAGE_SIZE {
      DecodeStreamStops(prefix, rest);
      return false, [];
    }
    var complete := ReceiveBody(socket, buffer, msgLength);
    if !complete {
      DecodeStreamStops(prefix, rest);
      return false, [];
    }
    var body := buffer[..msgLength];
    assert prefix + rest == prefix + body + socket.Pending();
    DecodeStreamFrame(prefix, body, socket.Pending());
    var msg := Deserialize(body);
    delivered := if msg.Some? then [msg.value] else [];
    assert delivered == Parsed(body);
    running := true;
  }

  /** The receiving thread. What it delivers depends on the octets alone, not on their chunks. */
  method ReceiveAll(socket: Socket) returns (delivered: seq<Message>)
    requires socket.Valid()
    modifies socket
    ensures delivered == DecodeStream(old(socket.Pending()))
  {
    var receiveBuffer := new Byte[MAX_MESSAGE_SIZE](i => 0);
    var running := true;
    delivered := [];
    while running
      invariant socket.Valid()
      invariant DecodeStream(old(socket.Pending()))
                == delivered + if running then DecodeStream(socket.Pending()) else []
      decreases running, |socket.Pending()|
    {
      var more;
      running, more := ReceiveOne(socket, receiveBuffer);
      delivered := delivered + more;
    }
  }

  // ----- Encoding -----

  /** What `send_to` writes for one serialized message. */
  function Frame(data: seq<Byte>): seq<Byte> {
    Big(|data| % 0x1_0000_0000, PREFIX_OCTETS) + data
  }

  /** A frame is the length in four octets, most significant first, and the octets. */
  lemma FrameOctets(data: seq<Byte>)
    requires |data| < 0x1_0000_0000
    ensures var n := |data|;
            Frame(data) == [n / 0x100_0000, n / 0x1_0000 % 0x100, n / 0x100 % 0x100, n % 0x100] + data
  {
    var n := |data|;
    var prefix := [n / 0x100_0000, n / 0x1_0000 % 0x100, n / 0x100 % 0x100, n % 0x100];
    assert Big(n, PREFIX_OCTETS) == prefix by { BigByShifts(n); }
    assert n % 0x1_0000_0000 == n;
  }

  /** The octets written for a list of serialized messages. */
  function Stream(datas: seq<seq<Byte>>): seq<Byte> {
    if datas == [] then [] else Frame(datas[0]) + Stream(datas[1..])
  }

  /** The messages before the first serialization that is too long for the receiver. */
  function Heard(datas: seq<seq<Byte>>): seq<Message> {
    if datas == [] || |datas[0]| > MAX_MESSAGE_SIZE then [] else Parsed(datas[0]) + Heard(datas[1..])
  }

  lemma FrameStep(prefix: seq<Byte>, data: seq<Byte>, rest: seq<Byte>)
    requires |prefix| == PREFIX_OCTETS && Join(prefix) == |data|
    ensures DecodeStream(prefix + data + rest)
            == if |data| <= MAX_MESSAGE_SIZE then Parsed(data) + DecodeStream(rest) else []
  {
    if |data| <= MAX_MESSAGE_SIZE {
      DecodeStreamFrame(prefix, data, rest);
    } else {
      assert prefix + data + rest == prefix + (data + rest);
      DecodeStreamStops(prefix, data + rest);
    }
  }

  lemma FrameDecodes(data: seq<Byte>, rest: seq<Byte>)
    requires |data| < 0x1_0000_0000
    ensures DecodeStream(Frame(data) + rest)
            == if |data| <= MAX_MESSAGE_SIZE then Parsed(data) + DecodeStream(rest) else []
  {
    var prefix := Big(|data|, PREFIX_OCTETS);
    assert Join(prefix) == |data| by {
      Limits();
      JoinBig(|data|, PREFIX_OCTETS);
    }
    assert Frame(data) + rest == prefix + data + rest;
    FrameStep(prefix, data, rest);
  }

  lemma ParsedEncode(m: Message)
    requires m.protocolVersion == PROTOCOL_VERSION && |Encode(m)| < 0x1_0000_0000
    ensures Parsed(Encode(m)) == [m.Wire()]
  {
    EncodedHeader(m);
    DecodeEncode(m);
  }

  /** Framing then decoding gives back what is before the first oversized frame, and nothing after it. */
  lemma {:induction false} FramingRoundTrip(datas: seq<seq<Byte>>)
    requires forall d :: d in datas ==> |d| < 0x1_0000_0000
    ensures DecodeStream(Stream(datas)) == Heard(datas)
  {
    if datas != [] {
      assert datas[0] in datas;
      FrameDecodes(datas[0], Stream(datas[1..]));
      FramingRoundTrip(datas[1..]);
    }
  }

  /** Serialized messages of the spoken version, short enough for their length to fit a frame prefix. */
  ghost predicate Serialized(ms: seq<Message>, datas: seq<seq<Byte>>) {
    && |datas| == |ms|
    && forall i :: 0 <= i < |ms| ==>
                     && datas[i] == Encode(ms[i]) && |datas[i]| < 0x1_0000_0000
                     && ms[i].protocolVersion == PROTOCOL_VERSION
  }

  lemma {:induction false} HeardMessages(ms: seq<Message>, datas: seq<seq<Byte>>)
    requires Serialized(ms, datas)
    ensures |Heard(datas)| <= |ms|
    ensures |Heard(datas)| == |ms| <==> forall d :: d in datas ==> |d| <= MAX_MESSAGE_SIZE
    ensures forall i :: 0 <= i < |Heard(datas)| ==> Heard(datas)[i] == ms[i].Wire()
  {
    if ms != [] {
      HeardMessages(ms[1..], datas[1..]);
      ParsedEncode(ms[0]);
      assert forall d :: d in datas <==> d == datas[0] || d in datas[1..];
    }
  }

  /** What is decoded is a prefix of what was sent, and all of it exactly when every serialization fits the
      receive buffer. */
  lemma FramingExactly(ms: seq<Message>, datas: seq<seq<Byte>>)
    requires Serialized(ms, datas)
    ensures var heard := DecodeStream(Stream(datas));
            && |heard| <= |ms|
            && (forall i :: 0 <= i < |heard| ==> heard[i] == ms[i].Wire())
            && (|heard| == |ms| <==> forall d :: d in datas ==> |d| <= MAX_MESSAGE_SIZE)
  {
    FramingRoundTrip(datas);
    HeardMessages(ms, datas);
  }

  lemma SegmentSize(m: Message, i: nat)
    requires Segmentable(m, TCP_SEGMENT_SIZE) && i < Count(m, TCP_SEGMENT_SIZE)
    ensures |Encode(SegmentAt(m, TCP_SEGMENT_SIZE, i))| <= TCP_SEGMENT_SIZE + 20
    ensures i == 0 ==> |Encode(SegmentAt(m, TCP_SEGMENT_SIZE, i))| > MAX_MESSAGE_SIZE
  {
    SegmentParts(m, TCP_SEGMENT_SIZE, i);
    PieceBounds(m, TCP_SEGMENT_SIZE, i);
    EncodedHeader(SegmentAt(m, TCP_SEGMENT_SIZE, i));
  }

  /** The reliable path: a message reaches the other end of a connection exactly when its payload has at
      most 4080 octets. A longer one is sent whole in a frame over the limit, or begins with a full
      segment of 4095 + 4 + 16 octets, and the receiver closes at its first frame. */
  lemma ReliableExactly(m: Message)
    requires m.protocolVersion == PROTOCOL_VERSION && |Encode(m)| < 0x1_0000_0000
    ensures DecodeStream(Stream(Datagrams(Outgoing(m, TCP_SEGMENT_SIZE))))
            == if |m.Data()| <= 4080 then [m.Wire()] else []
  {
    var ms := Outgoing(m, TCP_SEGMENT_SIZE);
    var datas := Datagrams(ms);
    EncodedHeader(m);
    if NeedsSegmentation(|m.Data()|, TCP_SEGMENT_SIZE) && m.IsBase() {
      forall d | d in datas ensures |d| < 0x1_0000_0000 {
        var i :| 0 <= i < |datas| && datas[i] == d;
        SegmentSize(m, i);
      }
      SegmentSize(m, 0);
    } else {
      ParsedEncode(m);
    }
    FramingRoundTrip(datas);
  }

  /** 4081 zeros are sent whole, in a frame of 4097 octets, and never heard. */
  lemma ReliableExample(m: Message, n: nat)
    requires n == 4081 && m == FRESH.(payload := Some(seq(n, i => 0)))
    ensures Outgoing(m, TCP_SEGMENT_SIZE) == [m] && |Encode(m)| == 4097
    ensures DecodeStream(Stream(Datagrams(Outgoing(m, TCP_SEGMENT_SIZE)))) == []
  {
    EncodedHeader(m);
    ReliableExactly(m);
  }
}
