/** The path of a message from `send_message` to the receiving end: whole or segmented, as octets, and
    back through the codec and the reassembler. */
module MessageRuntime {
  import opened Bytes
  import opened Messages
  import opened TpTypes
  import opened TpSegmenter
  import opened TpReassembly
  import opened TpTransfer

  // ----- Sending -----

  /** The messages one call to `send_message` puts on the wire, in order. */
  ghost function Outgoing(m: Message, max: nat): seq<Message>
    requires max > 0
  {
    if !NeedsSegmentation(|m.Data()|, max) then [m]
    else if !m.IsBase() then []
    else seq(Count(m, max), i requires 0 <= i < Count(m, max) => SegmentAt(m, max, i))
  }

  ghost function Datagrams(ms: seq<Message>): seq<seq<Byte>> {
    seq(|ms|, i requires 0 <= i < |ms| => Encode(ms[i]))
  }

  /** Sending one after another until the transport, which takes `capacity` units, reports a failure. */
  method SendEach(messages: seq<Message>, capacity: nat) returns (allSent: bool, sent: seq<seq<Byte>>)
    ensures sent == Datagrams(messages)[..Min(capacity, |messages|)]
    ensures allSent <==> |messages| <= capacity
  {
    sent := [];
    for i := 0 to |messages|
      invariant i <= capacity
      invariant sent == Datagrams(messages)[..i]
    {
      var data := Serialize(messages[i]);
      if i == capacity {
        return false, sent;
      }
      sent := sent + [data];
    }
    return true, sent;
  }

  method SendMessage(message: Message, reliable: bool, capacity: nat) returns (allSent: bool, sent: seq<seq<Byte>>)
    ensures var units := Datagrams(Outgoing(message, if reliable then TCP_SEGMENT_SIZE else UDP_SEGMENT_SIZE));
            && sent == units[..Min(capacity, |units|)]
            && (allSent <==> 0 < |units| <= capacity)
    ensures var max := if reliable then 4095 else 1392;
            && (allSent && |message.Data()| <= max ==> sent == [Encode(message)])
            && (allSent && Segmentable(message, max)
                ==> && |sent| == Count(message, max)
                    && forall i :: 0 <= i < |sent| ==> sent[i] == Encode(SegmentAt(message, max, i)))
            && (|message.Data()| > max && !message.IsBase() ==> !allSent && sent == [])
  {
    var payloadSize := |message.Data()|;
    var maxSegmentSize := if reliable then TCP_SEGMENT_SIZE else UDP_SEGMENT_SIZE;
    if NeedsSegmentation(payloadSize, maxSegmentSize) {
      var segments := Segment(message, maxSegmentSize);
      if |segments| == 0 {
        return false, [];
      }
      assert segments == Outgoing(message, maxSegmentSize);
      allSent, sent := SendEach(segments, capacity);
    } else {
      allSent, sent := SendEach([message], capacity);
    }
  }

  /** Every unit of the unreliable path fits the receiver's datagram buffer of 65535 octets. */
  lemma DatagramsFit(m: Message)
    ensures forall d :: d in Datagrams(Outgoing(m, UDP_SEGMENT_SIZE)) ==> |d| <= 1412
  {
    var max := UDP_SEGMENT_SIZE;
    if NeedsSegmentation(|m.Data()|, max) && m.IsBase() {
      SegmenterPartition(m, max);
    } else {
      EncodedHeader(m);
    }
  }

  // ----- Receiving -----

  /** What the receiver does with one parsed message, and the message it hands on, if any. */
  ghost function Received(cfg: Config, buffers: Buffers, m: Message, now: int): (Buffers, Option<Message>) {
    if !m.IsTp() then (buffers, Some(m))
    else
      var added := AfterAdd(cfg.residue, buffers, m, now);
      if Accepts(m) && Ready(added, m.RequestId())
      then (AfterTake(added, m.RequestId()), Taken(added, m.RequestId()))
      else (added, None)
  }

  /** What the receiver never hands on: a TP message as such, and anything for one without a header. */
  lemma SegmentsStay(cfg: Config, buffers: Buffers, m: Message, now: int)
    requires m.IsTp()
    ensures var handed := Received(cfg, buffers, m, now).1; handed.Some? ==> !handed.value.IsTp()
    ensures |m.Data()| < 4 ==> Received(cfg, buffers, m, now) == (buffers, None)
  {
  }

  datatype Arrival =
    | Datagram(data: seq<Byte>, now: int)
    | SweepAt(now: int)

  ghost function Arrive(cfg: Config, buffers: Buffers, a: Arrival): (Buffers, Option<Message>) {
    match a
    case Datagram(data, now) =>
      (match Decode(data)
       case Some(m) => Received(cfg, buffers, m, now)
       case None => (buffers, None))
    case SweepAt(now) => (AfterSweep(cfg.timeoutMs, buffers, now), None)
  }

  /** Octets that do not parse, and sweeps, hand nothing on. */
  lemma NothingFrom(cfg: Config, buffers: Buffers, a: Arrival)
    requires a.SweepAt? || Decode(a.data) == None
    ensures Arrive(cfg, buffers, a).1 == None
    ensures a.Datagram? ==> Arrive(cfg, buffers, a).0 == buffers
  {
  }

  ghost function ArriveAll(cfg: Config, buffers: Buffers, arrivals: seq<Arrival>): Buffers {
    if arrivals == [] then buffers
    else Arrive(cfg, ArriveAll(cfg, buffers, arrivals[..|arrivals| - 1]), arrivals[|arrivals| - 1]).0
  }

  /** What the last arrival hands on. */
  ghost function HandedOn(cfg: Config, buffers: Buffers, arrivals: seq<Arrival>): Option<Message>
    requires arrivals != []
  {
    Arrive(cfg, ArriveAll(cfg, buffers, arrivals[..|arrivals| - 1]), arrivals[|arrivals| - 1]).1
  }

  class Runtime {
    const tpReassembler: TpReassembler

    constructor (timeoutMs: int, residue: nat -> nat)
      ensures fresh(tpReassembler) && tpReassembler.buffers == map[]
      ensures tpReassembler.timeoutMs == timeoutMs && tpReassembler.residue == residue
    {
      tpReassembler := new TpReassembler(timeoutMs, residue);
    }

    ghost function Settings(): Config {
      Config(tpReassembler.timeoutMs, tpReassembler.residue)
    }

    method OnMessageReceived(message: Message, now: int) returns (handed: Option<Message>)
      modifies tpReassembler
      ensures (tpReassembler.buffers, handed) == Received(Settings(), old(tpReassembler.buffers), message, now)
    {
      if message.IsTp() {
        var requestId := message.RequestId();
        var complete := tpReassembler.AddSegment(message, now);
        if complete {
          handed := tpReassembler.Reassemble(requestId);
        } else {
          handed := None;
        }
      } else {
        handed := Some(message);
      }
    }

    method ReceiveDatagram(data: seq<Byte>, now: int) returns (handed: Option<Message>)
      modifies tpReassembler
      ensures (tpReassembler.buffers, handed)
              == Arrive(Settings(), old(tpReassembler.buffers), Datagram(data, now))
    {
      handed := None;
      if |data| > 0 {
        var msg := Deserialize(data);
        if msg.Some? {
          handed := OnMessageReceived(msg.value, now);
        }
      }
    }
  }

  // ----- Arrivals as reassembler events -----

  /** An accepted segment is added and, if that completed its buffer, taken; nothing else touches buffers. */
  function LowerOne(a: Arrival): seq<Event> {
    match a
    case Datagram(data, now) =>
      var m := Decode(data);
      if m.Some? && Accepts(m.value) then [Deliver(m.value, now), Take(m.value.RequestId())] else []
    case SweepAt(now) => [Sweep(now)]
  }

  function Lower(arrivals: seq<Arrival>): seq<Event> {
    if arrivals == [] then []
    else Lower(arrivals[..|arrivals| - 1]) + LowerOne(arrivals[|arrivals| - 1])
  }

  lemma RunSnoc(cfg: Config, buffers: Buffers, events: seq<Event>, e: Event)
    ensures Run(cfg, buffers, events + [e]) == After(cfg, Run(cfg, buffers, events), e)
  {
    assert (events + [e])[..|events|] == events;
  }

  /** An accepted segment is received by adding it and taking what is complete. */
  lemma ReceivedSegment(cfg: Config, s: Buffers, m: Message, now: int)
    requires Accepts(m)
    ensures After(cfg, After(cfg, s, Deliver(m, now)), Take(m.RequestId())) == Received(cfg, s, m, now).0
  {
  }

  lemma LowerArrival(cfg: Config, buffers: Buffers, events: seq<Event>, a: Arrival)
    ensures Run(cfg, buffers, events + LowerOne(a)) == Arrive(cfg, Run(cfg, buffers, events), a).0
  {
    var lowered := LowerOne(a);
    if |lowered| == 0 {
      assert events + lowered == events;
    } else if |lowered| == 1 {
      RunSnoc(cfg, buffers, events, lowered[0]);
    } else {
      assert events + lowered == events + [lowered[0]] + [lowered[1]];
      RunSnoc(cfg, buffers, events, lowered[0]);
      RunSnoc(cfg, buffers, events + [lowered[0]], lowered[1]);
      ReceivedSegment(cfg, Run(cfg, buffers, events), Decode(a.data).value, a.now);
    }
  }

  lemma {:induction false} LowerRuns(cfg: Config, buffers: Buffers, arrivals: seq<Arrival>)
    ensures ArriveAll(cfg, buffers, arrivals) == Run(cfg, buffers, Lower(arrivals))
  {
    if arrivals != [] {
      var before, a := arrivals[..|arrivals| - 1], arrivals[|arrivals| - 1];
      LowerRuns(cfg, buffers, before);
      LowerArrival(cfg, buffers, Lower(before), a);
    }
  }
}
