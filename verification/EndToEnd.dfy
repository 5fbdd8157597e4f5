/** What the receiver hands on equals what the sender passed in: the wire-level round trip. */
module EndToEnd {
  import opened Bytes
  import opened Clock
  import opened Messages
  import opened TpTypes
  import opened TpSegmenter
  import opened TpReassembly
  import opened TpTransfer
  import opened TpRuns
  import opened MessageRuntime

  ghost predicate IsUnit(data: seq<Byte>, m: Message, max: nat, i: nat)
    requires Segmentable(m, max)
  {
    i < Count(m, max) && data == Encode(SegmentAt(m, max, i))
  }

  ghost predicate OwnArrival(a: Arrival, m: Message, max: nat)
    requires Segmentable(m, max)
  {
    a.Datagram? && exists i :: IsUnit(a.data, m, max, i)
  }

  /** The units that arrived. */
  ghost function Delivered(m: Message, max: nat, arrivals: seq<Arrival>): set<nat>
    requires Segmentable(m, max)
  {
    set i | i in All(m, max) && exists a :: a in arrivals && a.Datagram? && IsUnit(a.data, m, max, i)
  }

  /** What may arrive while `m` is under way: its own units, datagrams that do not parse or that touch no
      buffer of its request id, and sweeps within the timeout of its arrivals. */
  ghost predicate ArrivalAllowedAt(cfg: Config, m: Message, max: nat, arrivals: seq<Arrival>, j: nat)
    requires Segmentable(m, max) && j < |arrivals|
  {
    match arrivals[j]
    case Datagram(data, now) =>
      var d := Decode(data);
      d.Some? && Accepts(d.value) && d.value.RequestId() == m.RequestId() ==> OwnArrival(arrivals[j], m, max)
    case SweepAt(now) =>
      forall a :: a in arrivals[..j] && OwnArrival(a, m, max)
                  ==> Elapsed(now, a.now, MILLISECOND) <= cfg.timeoutMs
  }

  ghost predicate ArrivalsAllowed(cfg: Config, m: Message, max: nat, arrivals: seq<Arrival>)
    requires Segmentable(m, max)
  {
    forall j :: 0 <= j < |arrivals| ==> ArrivalAllowedAt(cfg, m, max, arrivals, j)
  }

  /** The sizes that fit the length field of a segment. */
  predicate LengthFits(max: nat) {
    max + HEADER_OCTETS < 0x1_0000_0000
  }

  lemma UnitDecodes(data: seq<Byte>, m: Message, max: nat, i: nat)
    requires Segmentable(m, max) && LengthFits(max) && IsUnit(data, m, max, i)
    ensures m.protocolVersion == PROTOCOL_VERSION ==>
              && Decode(data).Some? && IsSegment(Decode(data).value, m, max, i)
              && Accepts(Decode(data).value) && Decode(data).value.RequestId() == m.RequestId()
    ensures m.protocolVersion != PROTOCOL_VERSION ==> Decode(data) == None
  {
    var s := SegmentAt(m, max, i);
    SegmentParts(m, max, i);
    DecodeEncode(s);
    EncodedHeader(s);
    if m.protocolVersion == PROTOCOL_VERSION {
      assert s.Wire().Wire() == s.Wire();
      SegmentAccepted(Decode(data).value, m, max, i);
    }
  }

  /** The octets of a message depend on its wire fields only. */
  lemma EncodeWire(a: Message, b: Message)
    requires a.Wire() == b.Wire()
    ensures Encode(a) == Encode(b)
  {
    assert a.Data() == a.Wire().Data() == b.Data();
  }

  /** Every delivery in the lowered run is an arrival that parsed to it. */
  lemma {:induction false} LoweredFrom(arrivals: seq<Arrival>, e: Event)
    requires e in Lower(arrivals) && e.Deliver?
    ensures exists a :: a in arrivals && a.Datagram? && Decode(a.data) == Some(e.m) && a.now == e.now
                        && Accepts(e.m)
  {
    var before, a := arrivals[..|arrivals| - 1], arrivals[|arrivals| - 1];
    if e in Lower(before) {
      LoweredFrom(before, e);
    } else {
      assert e in LowerOne(a) && a in arrivals;
    }
  }

  lemma {:induction false} LoweredTo(arrivals: seq<Arrival>, a: Arrival)
    requires a in arrivals && a.Datagram? && Decode(a.data).Some? && Accepts(Decode(a.data).value)
    ensures Deliver(Decode(a.data).value, a.now) in Lower(arrivals)
  {
    var before, last := arrivals[..|arrivals| - 1], arrivals[|arrivals| - 1];
    if a == last {
      assert Deliver(Decode(a.data).value, a.now) in LowerOne(last);
    } else {
      assert a in before;
      LoweredTo(before, a);
    }
  }

  /** An own delivery in the lowered run comes from an own arrival at the same time. */
  lemma OwnLowered(cfg: Config, m: Message, max: nat, arrivals: seq<Arrival>, e: Event)
    requires Segmentable(m, max) && ArrivalsAllowed(cfg, m, max, arrivals)
    requires e in Lower(arrivals) && Own(e, m, max)
    ensures exists a :: a in arrivals && OwnArrival(a, m, max) && a.now == e.now && Decode(a.data) == Some(e.m)
  {
    var i :| Carries(e, m, max, i);
    SegmentAccepted(e.m, m, max, i);
    LoweredFrom(arrivals, e);
    var a :| a in arrivals && a.Datagram? && Decode(a.data) == Some(e.m) && a.now == e.now && Accepts(e.m);
    var j :| 0 <= j < |arrivals| && arrivals[j] == a;
    assert ArrivalAllowedAt(cfg, m, max, arrivals, j);
  }

  lemma DeliveredIsGot(cfg: Config, m: Message, max: nat, arrivals: seq<Arrival>)
    requires Segmentable(m, max) && LengthFits(max) && m.protocolVersion == PROTOCOL_VERSION
    requires ArrivalsAllowed(cfg, m, max, arrivals)
    ensures Delivered(m, max, arrivals) == Got(m, max, Lower(arrivals))
  {
    var events := Lower(arrivals);
    forall i | i in Delivered(m, max, arrivals) ensures i in Got(m, max, events) {
      var a :| a in arrivals && a.Datagram? && IsUnit(a.data, m, max, i);
      UnitDecodes(a.data, m, max, i);
      LoweredTo(arrivals, a);
      assert Carries(Deliver(Decode(a.data).value, a.now), m, max, i);
    }
    forall i | i in Got(m, max, events) ensures i in Delivered(m, max, arrivals) {
      var e :| e in events && Carries(e, m, max, i);
      assert Own(e, m, max);
      OwnLowered(cfg, m, max, arrivals, e);
      var a :| a in arrivals && OwnArrival(a, m, max) && a.now == e.now && Decode(a.data) == Some(e.m);
      var k :| IsUnit(a.data, m, max, k);
      UnitDecodes(a.data, m, max, k);
      EncodeWire(SegmentAt(m, max, i), SegmentAt(m, max, k));
      assert IsUnit(a.data, m, max, i);
    }
  }

  lemma ArrivalsPrefix(cfg: Config, m: Message, max: nat, arrivals: seq<Arrival>, n: nat)
    requires Segmentable(m, max) && ArrivalsAllowed(cfg, m, max, arrivals) && n <= |arrivals|
    ensures ArrivalsAllowed(cfg, m, max, arrivals[..n])
  {
    forall j | 0 <= j < n ensures ArrivalAllowedAt(cfg, m, max, arrivals[..n], j) {
      assert ArrivalAllowedAt(cfg, m, max, arrivals, j);
      assert arrivals[..n][..j] == arrivals[..j];
    }
  }

  lemma AllowedSnoc(cfg: Config, m: Message, max: nat, events: seq<Event>, e: Event)
    requires Segmentable(m, max) && Allowed(cfg, m, max, events)
    requires AllowedAt(cfg, m, max, events + [e], |events|)
    ensures Allowed(cfg, m, max, events + [e])
  {
    forall j | 0 <= j < |events| + 1 ensures AllowedAt(cfg, m, max, events + [e], j) {
      if j < |events| {
        assert AllowedAt(cfg, m, max, events, j);
      }
    }
  }

  lemma DatagramAllowed(cfg: Config, m: Message, max: nat, arrivals: seq<Arrival>)
    requires Segmentable(m, max) && LengthFits(max) && m.protocolVersion == PROTOCOL_VERSION
    requires arrivals != [] && ArrivalAllowedAt(cfg, m, max, arrivals, |arrivals| - 1)
    requires var a := arrivals[|arrivals| - 1];
             a.Datagram? && Decode(a.data).Some? && Accepts(Decode(a.data).value)
    ensures var a := arrivals[|arrivals| - 1]; var d := Decode(a.data).value;
            var events := Lower(arrivals[..|arrivals| - 1]);
            AllowedAt(cfg, m, max, events + [Deliver(d, a.now)], |events|)
  {
    var a := arrivals[|arrivals| - 1];
    var d := Decode(a.data).value;
    if d.RequestId() == m.RequestId() {
      var i :| IsUnit(a.data, m, max, i);
      UnitDecodes(a.data, m, max, i);
      assert Carries(Deliver(d, a.now), m, max, i);
    }
  }

  /** Allowed arrivals lower to an allowed run of the reassembler. */
  lemma {:induction false} LowerAllowed(cfg: Config, m: Message, max: nat, arrivals: seq<Arrival>)
    requires Segmentable(m, max) && LengthFits(max) && m.protocolVersion == PROTOCOL_VERSION
    requires ArrivalsAllowed(cfg, m, max, arrivals)
    ensures Allowed(cfg, m, max, Lower(arrivals))
  {
    if arrivals != [] {
      var n := |arrivals| - 1;
      var before, a := arrivals[..n], arrivals[n];
      ArrivalsPrefix(cfg, m, max, arrivals, n);
      LowerAllowed(cfg, m, max, before);
      var events := Lower(before);
      assert ArrivalAllowedAt(cfg, m, max, arrivals, n);
      match a {
        case Datagram(data, now) =>
          var d := Decode(data);
          if d.Some? && Accepts(d.value) {
            DatagramAllowed(cfg, m, max, arrivals);
            AllowedSnoc(cfg, m, max, events, Deliver(d.value, now));
            AllowedSnoc(cfg, m, max, events + [Deliver(d.value, now)], Take(d.value.RequestId()));
            assert Lower(arrivals) == events + [Deliver(d.value, now)] + [Take(d.value.RequestId())];
          } else {
            assert Lower(arrivals) == events;
          }
        case SweepAt(now) =>
          var all := events + [Sweep(now)];
          forall i | 0 <= i < |events| && Own(all[i], m, max)
            ensures Elapsed(now, all[i].now, MILLISECOND) <= cfg.timeoutMs
          {
            assert all[i] == events[i] && events[i] in events;
            OwnLowered(cfg, m, max, before, events[i]);
          }
          AllowedSnoc(cfg, m, max, events, Sweep(now));
      }
    }
  }

  // ----- The theorems -----

  /** The handed-on message has the wire fields of `m`. */
  predicate HandsOnWire(handed: Option<Message>, m: Message) {
    handed.Some? && handed.value.Wire() == m.Wire()
  }

  /** What the last arrival, one of the transfer's own, hands on: what taking would give in the run that
      ends with its delivery. */
  lemma HandedByDelivery(cfg: Config, buffers: Buffers, m: Message, max: nat, arrivals: seq<Arrival>)
    requires Segmentable(m, max) && LengthFits(max) && m.protocolVersion == PROTOCOL_VERSION
    requires arrivals != [] && OwnArrival(arrivals[|arrivals| - 1], m, max)
    ensures var a := arrivals[|arrivals| - 1];
            && Decode(a.data).Some?
            && HandedOn(cfg, buffers, arrivals)
               == Taken(Run(cfg, buffers, Lower(arrivals[..|arrivals| - 1]) + [Deliver(Decode(a.data).value, a.now)]),
                        m.RequestId())
    ensures HandedOn(cfg, buffers, arrivals).Some? ==> m.RequestId() !in ArriveAll(cfg, buffers, arrivals)
  {
    var before, a := arrivals[..|arrivals| - 1], arrivals[|arrivals| - 1];
    var i :| IsUnit(a.data, m, max, i);
    UnitDecodes(a.data, m, max, i);
    LowerRuns(cfg, buffers, before);
    RunSnoc(cfg, buffers, Lower(before), Deliver(Decode(a.data).value, a.now));
  }

  /** The run that ends with the delivery itself, before the taking. */
  lemma DeliveryRun(cfg: Config, m: Message, max: nat, arrivals: seq<Arrival>)
    requires Segmentable(m, max) && LengthFits(max) && m.protocolVersion == PROTOCOL_VERSION
    requires ArrivalsAllowed(cfg, m, max, arrivals)
    requires arrivals != [] && OwnArrival(arrivals[|arrivals| - 1], m, max)
    requires Decode(arrivals[|arrivals| - 1].data).Some?
    ensures var a := arrivals[|arrivals| - 1];
            var events := Lower(arrivals[..|arrivals| - 1]) + [Deliver(Decode(a.data).value, a.now)];
            && Allowed(cfg, m, max, events)
            && Got(m, max, events) == Delivered(m, max, arrivals)
            && Got(m, max, events[..|events| - 1]) == Delivered(m, max, arrivals[..|arrivals| - 1])
  {
    var n := |arrivals| - 1;
    var before, a := arrivals[..n], arrivals[n];
    var i :| IsUnit(a.data, m, max, i);
    UnitDecodes(a.data, m, max, i);
    var d := Deliver(Decode(a.data).value, a.now);
    var events := Lower(before) + [d];
    ArrivalsPrefix(cfg, m, max, arrivals, n);
    LowerAllowed(cfg, m, max, before);
    assert ArrivalAllowedAt(cfg, m, max, arrivals, n);
    DatagramAllowed(cfg, m, max, arrivals);
    AllowedSnoc(cfg, m, max, Lower(before), d);
    assert events[..|events| - 1] == Lower(before);
    DeliveredIsGot(cfg, m, max, before);
    DeliveredIsGot(cfg, m, max, arrivals);
    assert Lower(arrivals) == events + [Take(d.m.RequestId())];
    GotStep(m, max, events, Take(d.m.RequestId()));
  }

  /** The large-message branch, exactly. While the set of units is incomplete before it, an own arrival
      hands on the sender's message if and only if it completes the set and the transfer meets its
      conditions; a transfer that meets them hands on nothing earlier. Handing on closes the buffer. */
  lemma SegmentedEndToEnd(cfg: Config, buffers: Buffers, m: Message, max: nat, arrivals: seq<Arrival>)
    requires Segmentable(m, max) && LengthFits(max) && m.RequestId() !in buffers
    requires ArrivalsAllowed(cfg, m, max, arrivals)
    requires arrivals != [] && OwnArrival(arrivals[|arrivals| - 1], m, max)
    requires Delivered(m, max, arrivals[..|arrivals| - 1]) != All(m, max)
    ensures HandsOnWire(HandedOn(cfg, buffers, arrivals), m)
            <==> Delivered(m, max, arrivals) == All(m, max) && Transferable(cfg, m, max)
    ensures Transferable(cfg, m, max) && Delivered(m, max, arrivals) != All(m, max)
            ==> HandedOn(cfg, buffers, arrivals) == None
    ensures HandedOn(cfg, buffers, arrivals).Some? ==> m.RequestId() !in ArriveAll(cfg, buffers, arrivals)
  {
    var n := |arrivals| - 1;
    var a := arrivals[n];
    if m.protocolVersion == PROTOCOL_VERSION {
      HandedByDelivery(cfg, buffers, m, max, arrivals);
      DeliveryRun(cfg, m, max, arrivals);
      var events := Lower(arrivals[..n]) + [Deliver(Decode(a.data).value, a.now)];
      if Transferable(cfg, m, max) {
        TransferCompletes(cfg, buffers, m, max, events);
      } else {
        TransferFails(cfg, buffers, m, max, events);
      }
    } else {
      var i :| IsUnit(a.data, m, max, i);
      UnitDecodes(a.data, m, max, i);
    }
  }

  /** How many of the transfer's own arrivals handed something on. */
  ghost function Handovers(cfg: Config, buffers: Buffers, m: Message, max: nat, arrivals: seq<Arrival>): nat
    requires Segmentable(m, max)
  {
    if arrivals == [] then 0
    else
      Handovers(cfg, buffers, m, max, arrivals[..|arrivals| - 1])
      + if OwnArrival(arrivals[|arrivals| - 1], m, max) && HandedOn(cfg, buffers, arrivals).Some? then 1 else 0
  }

  lemma HandoversStep(cfg: Config, buffers: Buffers, m: Message, max: nat, before: seq<Arrival>, a: Arrival,
                      arrivals: seq<Arrival>, handed: bool)
    requires Segmentable(m, max) && arrivals == before + [a]
    requires handed <==> OwnArrival(a, m, max) && HandedOn(cfg, buffers, arrivals).Some?
    ensures Handovers(cfg, buffers, m, max, arrivals)
            == Handovers(cfg, buffers, m, max, before) + if handed then 1 else 0
  {
    assert arrivals[..|arrivals| - 1] == before;
  }

  lemma DeliveredStep(m: Message, max: nat, before: seq<Arrival>, a: Arrival)
    requires Segmentable(m, max)
    ensures Delivered(m, max, before) <= Delivered(m, max, before + [a])
    ensures !OwnArrival(a, m, max) ==> Delivered(m, max, before + [a]) == Delivered(m, max, before)
  {
    assert forall x :: x in before + [a] <==> x in before || x == a;
  }

  lemma {:induction false} NothingHandedEarly(cfg: Config, buffers: Buffers, m: Message, max: nat,
                                              arrivals: seq<Arrival>)
    requires Segmentable(m, max) && LengthFits(max) && m.RequestId() !in buffers && Transferable(cfg, m, max)
    requires ArrivalsAllowed(cfg, m, max, arrivals) && Delivered(m, max, arrivals) != All(m, max)
    ensures Handovers(cfg, buffers, m, max, arrivals) == 0
  {
    if arrivals != [] {
      var n := |arrivals| - 1;
      ArrivalsPrefix(cfg, m, max, arrivals, n);
      assert arrivals == arrivals[..n] + [arrivals[n]];
      DeliveredStep(m, max, arrivals[..n], arrivals[n]);
      NothingHandedEarly(cfg, buffers, m, max, arrivals[..n]);
      if OwnArrival(arrivals[n], m, max) {
        SegmentedEndToEnd(cfg, buffers, m, max, arrivals);
      }
    }
  }

  /** Over a whole sequence of arrivals that ends with the one completing the set, the transfer hands on
      exactly one message, the sender's, and it does so at the end. */
  lemma HandedOnOnce(cfg: Config, buffers: Buffers, m: Message, max: nat, arrivals: seq<Arrival>)
    requires Segmentable(m, max) && LengthFits(max) && m.RequestId() !in buffers && Transferable(cfg, m, max)
    requires ArrivalsAllowed(cfg, m, max, arrivals) && Delivered(m, max, arrivals) == All(m, max)
    requires arrivals != [] && Delivered(m, max, arrivals[..|arrivals| - 1]) != All(m, max)
    ensures Handovers(cfg, buffers, m, max, arrivals) == 1
    ensures HandsOnWire(HandedOn(cfg, buffers, arrivals), m)
  {
    var n := |arrivals| - 1;
    var before, a := arrivals[..n], arrivals[n];
    assert arrivals == before + [a];
    ArrivalsPrefix(cfg, m, max, arrivals, n);
    assert OwnArrival(a, m, max) by { DeliveredStep(m, max, before, a); }
    assert Handovers(cfg, buffers, m, max, before) == 0 by { NothingHandedEarly(cfg, buffers, m, max, before); }
    assert HandsOnWire(HandedOn(cfg, buffers, arrivals), m) by {
      SegmentedEndToEnd(cfg, buffers, m, max, arrivals);
    }
    HandoversStep(cfg, buffers, m, max, before, a, arrivals, true);
  }

  // ----- From sending to handing on -----

  /** What is sent for a large message are its units, all of them and nothing else, in order. */
  lemma SentUnits(m: Message, max: nat)
    requires Segmentable(m, max)
    ensures |Datagrams(Outgoing(m, max))| == Count(m, max)
    ensures forall i :: 0 <= i < Count(m, max) ==> IsUnit(Datagrams(Outgoing(m, max))[i], m, max, i)
    ensures forall d :: d in Datagrams(Outgoing(m, max)) <==> exists i :: IsUnit(d, m, max, i)
  {
    var sent := Datagrams(Outgoing(m, max));
    forall i | 0 <= i < Count(m, max) ensures IsUnit(sent[i], m, max, i) {
    }
    forall d, i: nat | IsUnit(d, m, max, i) ensures d in sent {
      assert sent[i] == d;
    }
  }

  ghost predicate Arrived(d: seq<Byte>, arrivals: seq<Arrival>) {
    exists a :: a in arrivals && a.Datagram? && a.data == d
  }

  /** Once everything that was sent has arrived, the set is complete. */
  lemma AllArrived(m: Message, max: nat, arrivals: seq<Arrival>)
    requires Segmentable(m, max)
    requires forall d :: d in Datagrams(Outgoing(m, max)) ==> Arrived(d, arrivals)
    ensures Delivered(m, max, arrivals) == All(m, max)
  {
    SentUnits(m, max);
    forall i | i in All(m, max) ensures i in Delivered(m, max, arrivals) {
      var d := Datagrams(Outgoing(m, max))[i];
      assert Arrived(d, arrivals);
      var a :| a in arrivals && a.Datagram? && a.data == d;
      assert IsUnit(a.data, m, max, i);
    }
  }

  /** The arrival with which the set was first complete. */
  lemma {:induction false} FirstComplete(m: Message, max: nat, arrivals: seq<Arrival>) returns (n: nat)
    requires Segmentable(m, max) && Delivered(m, max, arrivals) == All(m, max)
    ensures 0 < n <= |arrivals|
    ensures Delivered(m, max, arrivals[..n]) == All(m, max) && Delivered(m, max, arrivals[..n - 1]) != All(m, max)
  {
    assert 0 in All(m, max);
    var k := |arrivals| - 1;
    if Delivered(m, max, arrivals[..k]) == All(m, max) {
      n := FirstComplete(m, max, arrivals[..k]);
      assert arrivals[..k][..n] == arrivals[..n] && arrivals[..k][..n - 1] == arrivals[..n - 1];
    } else {
      n := |arrivals|;
      assert arrivals[..n] == arrivals;
    }
  }

  lemma CompletingArrival(cfg: Config, buffers: Buffers, m: Message, max: nat, before: seq<Arrival>,
                          upTo: seq<Arrival>)
    requires Segmentable(m, max) && LengthFits(max) && m.RequestId() !in buffers && Transferable(cfg, m, max)
    requires ArrivalsAllowed(cfg, m, max, before) && ArrivalsAllowed(cfg, m, max, upTo)
    requires upTo != [] && before == upTo[..|upTo| - 1]
    requires Delivered(m, max, upTo) == All(m, max) && Delivered(m, max, before) != All(m, max)
    ensures HandsOnWire(HandedOn(cfg, buffers, upTo), m)
    ensures Handovers(cfg, buffers, m, max, before) == 0
  {
    assert Handovers(cfg, buffers, m, max, before) == 0 by {
      NothingHandedEarly(cfg, buffers, m, max, before);
    }
    assert HandsOnWire(HandedOn(cfg, buffers, upTo), m) by {
      HandedOnOnce(cfg, buffers, m, max, upTo);
    }
  }

  /** A large message, from the call that sends it: once all of what was sent has arrived, in any order, with
      repeats and whatever else, it was handed on, at one of these arrivals and at none before. */
  lemma SentIsHandedOn(cfg: Config, buffers: Buffers, m: Message, max: nat, arrivals: seq<Arrival>)
    returns (n: nat, before: seq<Arrival>, upTo: seq<Arrival>)
    requires Segmentable(m, max) && LengthFits(max) && m.RequestId() !in buffers && Transferable(cfg, m, max)
    requires ArrivalsAllowed(cfg, m, max, arrivals)
    requires forall d :: d in Datagrams(Outgoing(m, max)) ==> Arrived(d, arrivals)
    ensures 0 < n <= |arrivals| && before == arrivals[..n - 1] && upTo == arrivals[..n]
    ensures HandsOnWire(HandedOn(cfg, buffers, upTo), m)
    ensures Handovers(cfg, buffers, m, max, before) == 0
  {
    AllArrived(m, max, arrivals);
    n := FirstComplete(m, max, arrivals);
    before, upTo := arrivals[..n - 1], arrivals[..n];
    assert upTo[..|upTo| - 1] == before;
    ArrivalsPrefix(cfg, m, max, arrivals, n);
    ArrivalsPrefix(cfg, m, max, arrivals, n - 1);
    CompletingArrival(cfg, buffers, m, max, before, upTo);
  }

  // ----- Any number of rounds -----

  /** The arrivals since the set of units was last complete. */
  ghost function Since(m: Message, max: nat, arrivals: seq<Arrival>): seq<Arrival>
    requires Segmentable(m, max)
  {
    if arrivals == [] then []
    else
      var round := Since(m, max, arrivals[..|arrivals| - 1]) + [arrivals[|arrivals| - 1]];
      if Delivered(m, max, round) == All(m, max) then [] else round
  }

  /** How often the set of units was completed, starting anew each time. */
  ghost function CompletedSets(m: Message, max: nat, arrivals: seq<Arrival>): nat
    requires Segmentable(m, max)
  {
    if arrivals == [] then 0
    else
      var before, a := arrivals[..|arrivals| - 1], arrivals[|arrivals| - 1];
      CompletedSets(m, max, before)
      + if Delivered(m, max, Since(m, max, before) + [a]) == All(m, max) then 1 else 0
  }

  lemma ArriveStep(cfg: Config, buffers: Buffers, arrivals: seq<Arrival>, before: seq<Arrival>, a: Arrival, s: Buffers)
    requires arrivals == before + [a] && s == ArriveAll(cfg, buffers, before)
    ensures ArriveAll(cfg, buffers, arrivals) == Arrive(cfg, s, a).0
  {
    assert arrivals[..|arrivals| - 1] == before;
  }

  lemma {:induction false} ArriveAppend(cfg: Config, buffers: Buffers, a: seq<Arrival>, b: seq<Arrival>)
    ensures ArriveAll(cfg, buffers, a + b) == ArriveAll(cfg, ArriveAll(cfg, buffers, a), b)
  {
    var middle, all := ArriveAll(cfg, buffers, a), a + b;
    if b == [] {
      assert all == a;
    } else {
      var before, last := b[..|b| - 1], b[|b| - 1];
      assert all == (a + before) + [last] && b == before + [last];
      ArriveAppend(cfg, buffers, a, before);
      var s := ArriveAll(cfg, middle, before);
      ArriveStep(cfg, buffers, all, a + before, last, s);
      ArriveStep(cfg, middle, b, before, last, s);
    }
  }

  lemma HandedIs(cfg: Config, buffers: Buffers, arrivals: seq<Arrival>, before: seq<Arrival>, a: Arrival, s: Buffers)
    requires arrivals == before + [a] && s == ArriveAll(cfg, buffers, before)
    ensures HandedOn(cfg, buffers, arrivals) == Arrive(cfg, s, a).1
  {
    assert arrivals[..|arrivals| - 1] == before;
  }

  lemma HandedAppend(cfg: Config, buffers: Buffers, a: seq<Arrival>, b: seq<Arrival>, arrivals: seq<Arrival>)
    requires b != [] && arrivals == a + b
    ensures HandedOn(cfg, buffers, arrivals) == HandedOn(cfg, ArriveAll(cfg, buffers, a), b)
  {
    var before, last := b[..|b| - 1], b[|b| - 1];
    var middle := ArriveAll(cfg, buffers, a);
    var s := ArriveAll(cfg, middle, before);
    ArriveAppend(cfg, buffers, a, before);
    assert arrivals == (a + before) + [last] && b == before + [last];
    HandedIs(cfg, buffers, arrivals, a + before, last, s);
    HandedIs(cfg, middle, b, before, last, s);
  }

  lemma ArrivalsSuffix(cfg: Config, m: Message, max: nat, a: seq<Arrival>, b: seq<Arrival>)
    requires Segmentable(m, max) && ArrivalsAllowed(cfg, m, max, a + b)
    ensures ArrivalsAllowed(cfg, m, max, b)
  {
    forall j | 0 <= j < |b| ensures ArrivalAllowedAt(cfg, m, max, b, j) {
      assert ArrivalAllowedAt(cfg, m, max, a + b, |a| + j);
      assert (a + b)[..|a| + j] == a + b[..j];
    }
  }

  /** Before the current round the buffer is closed. */
  ghost predicate RoundOpen(cfg: Config, buffers: Buffers, m: Message, max: nat,
                            done: seq<Arrival>, round: seq<Arrival>)
    requires Segmentable(m, max)
  {
    m.RequestId() !in ArriveAll(cfg, buffers, done) && Delivered(m, max, round) != All(m, max)
  }

  /** One more arrival in a round: it hands on a message exactly when it completes the set, and that is the
      sender's and closes the round. */
  lemma RoundStep(cfg: Config, buffers: Buffers, m: Message, max: nat, done: seq<Arrival>, round: seq<Arrival>,
                  a: Arrival, arrivals: seq<Arrival>)
    requires Segmentable(m, max) && LengthFits(max) && Transferable(cfg, m, max)
    requires RoundOpen(cfg, buffers, m, max, done, round)
    requires ArrivalsAllowed(cfg, m, max, arrivals) && arrivals == done + (round + [a])
    ensures OwnArrival(a, m, max) && HandedOn(cfg, buffers, arrivals).Some?
            <==> Delivered(m, max, round + [a]) == All(m, max)
    ensures Delivered(m, max, round + [a]) == All(m, max)
            ==> HandsOnWire(HandedOn(cfg, buffers, arrivals), m) && RoundOpen(cfg, buffers, m, max, arrivals, [])
  {
    var next := round + [a];
    ArrivalsSuffix(cfg, m, max, done, next);
    DeliveredStep(m, max, round, a);
    HandedAppend(cfg, buffers, done, next, arrivals);
    ArriveAppend(cfg, buffers, done, next);
    assert next[..|next| - 1] == round;
    assert 0 in All(m, max) && Delivered(m, max, []) == {};
    if OwnArrival(a, m, max) {
      SegmentedEndToEnd(cfg, ArriveAll(cfg, buffers, done), m, max, next);
    }
  }

  lemma SetsStep(m: Message, max: nat, before: seq<Arrival>, a: Arrival, arrivals: seq<Arrival>,
                 round: seq<Arrival>, complete: bool)
    requires Segmentable(m, max) && arrivals == before + [a] && round == Since(m, max, before)
    requires complete <==> Delivered(m, max, round + [a]) == All(m, max)
    ensures CompletedSets(m, max, arrivals) == CompletedSets(m, max, before) + if complete then 1 else 0
    ensures Since(m, max, arrivals) == if complete then [] else round + [a]
  {
    assert arrivals[..|arrivals| - 1] == before;
  }

  lemma RoundGrows(cfg: Config, buffers: Buffers, m: Message, max: nat, before: seq<Arrival>, a: Arrival,
                   arrivals: seq<Arrival>, done: seq<Arrival>, round: seq<Arrival>, complete: bool)
    requires Segmentable(m, max) && LengthFits(max) && Transferable(cfg, m, max)
    requires ArrivalsAllowed(cfg, m, max, arrivals) && arrivals == before + [a] && before == done + round
    requires round == Since(m, max, before) && RoundOpen(cfg, buffers, m, max, done, round)
    requires complete <==> Delivered(m, max, round + [a]) == All(m, max)
    ensures Since(m, max, arrivals) == if complete then [] else round + [a]
    ensures RoundOpen(cfg, buffers, m, max, if complete then arrivals else done, if complete then [] else round + [a])
    ensures Handovers(cfg, buffers, m, max, arrivals) - Handovers(cfg, buffers, m, max, before)
            == CompletedSets(m, max, arrivals) - CompletedSets(m, max, before)
  {
    assert arrivals == done + (round + [a]);
    RoundStep(cfg, buffers, m, max, done, round, a, arrivals);
    HandoversStep(cfg, buffers, m, max, before, a, arrivals, complete);
    SetsStep(m, max, before, a, arrivals, round, complete);
  }

  lemma {:induction false} RoundsRun(cfg: Config, buffers: Buffers, m: Message, max: nat, arrivals: seq<Arrival>)
    returns (done: seq<Arrival>, round: seq<Arrival>)
    requires Segmentable(m, max) && LengthFits(max) && m.RequestId() !in buffers && Transferable(cfg, m, max)
    requires ArrivalsAllowed(cfg, m, max, arrivals)
    ensures round == Since(m, max, arrivals) && arrivals == done + round
    ensures RoundOpen(cfg, buffers, m, max, done, round)
    ensures Handovers(cfg, buffers, m, max, arrivals) == CompletedSets(m, max, arrivals)
  {
    done, round := [], [];
    if arrivals == [] {
      assert 0 in All(m, max) && Delivered(m, max, []) == {};
    } else {
      var n := |arrivals| - 1;
      var before, a := arrivals[..n], arrivals[n];
      assert arrivals == before + [a];
      ArrivalsPrefix(cfg, m, max, arrivals, n);
      done, round := RoundsRun(cfg, buffers, m, max, before);
      var complete := Delivered(m, max, round + [a]) == All(m, max);
      RoundGrows(cfg, buffers, m, max, before, a, arrivals, done, round, complete);
      done, round := if complete then arrivals else done, if complete then [] else round + [a];
    }
  }

  /** Over any arrivals at all, late repeats and further rounds included, the transfer hands on one message
      for each completed set of units. */
  lemma HandedOnPerSet(cfg: Config, buffers: Buffers, m: Message, max: nat, arrivals: seq<Arrival>)
    requires Segmentable(m, max) && LengthFits(max) && m.RequestId() !in buffers && Transferable(cfg, m, max)
    requires ArrivalsAllowed(cfg, m, max, arrivals)
    ensures Handovers(cfg, buffers, m, max, arrivals) == CompletedSets(m, max, arrivals)
  {
    var done, round := RoundsRun(cfg, buffers, m, max, arrivals);
  }

  /** Each of these messages is the sender's. */
  lemma HandedOnFaithfully(cfg: Config, buffers: Buffers, m: Message, max: nat, before: seq<Arrival>, a: Arrival,
                           arrivals: seq<Arrival>)
    requires Segmentable(m, max) && LengthFits(max) && m.RequestId() !in buffers && Transferable(cfg, m, max)
    requires ArrivalsAllowed(cfg, m, max, arrivals) && arrivals == before + [a] && OwnArrival(a, m, max)
    ensures HandedOn(cfg, buffers, arrivals).Some? ==> HandsOnWire(HandedOn(cfg, buffers, arrivals), m)
  {
    ArrivalsPrefix(cfg, m, max, arrivals, |before|);
    assert arrivals[..|before|] == before;
    var done, round := RoundsRun(cfg, buffers, m, max, before);
    assert arrivals == done + (round + [a]);
    RoundStep(cfg, buffers, m, max, done, round, a, arrivals);
  }

  /** The small-message branch, exactly: the one datagram hands on the message at once if and only if the
      protocol version is the one spoken here and the type is not a TP type, whose messages a receiver
      takes for segments. Unless it is, every buffer is left alone. */
  lemma WholeEndToEnd(cfg: Config, buffers: Buffers, m: Message, max: nat, now: int)
    requires !NeedsSegmentation(|m.Data()|, max) && LengthFits(max)
    ensures var r := Arrive(cfg, buffers, Datagram(Encode(m), now));
            && (HandsOnWire(r.1, m) <==> m.protocolVersion == PROTOCOL_VERSION && !m.IsTp())
            && (m.protocolVersion != PROTOCOL_VERSION ==> r == (buffers, None))
            && (!m.IsTp() ==> r.0 == buffers)
  {
    DecodeEncode(m);
    EncodedHeader(m);
    if m.protocolVersion == PROTOCOL_VERSION && m.IsTp() {
      var d := m.Wire();
      assert Decode(Encode(m)) == Some(d);
      var added := AfterAdd(cfg.residue, buffers, d, now);
      if Accepts(d) && Ready(added, d.RequestId()) {
        var t := Taken(added, d.RequestId());
        assert !t.value.IsTp();
      }
    }
  }

  /** A small message, from the call that sends it: one datagram is sent, and receiving it hands on the
      message. */
  lemma SentWhole(cfg: Config, buffers: Buffers, m: Message, max: nat, now: int)
    requires |m.Data()| <= max && LengthFits(max) && max > 0
    requires m.protocolVersion == PROTOCOL_VERSION && !m.IsTp()
    ensures |Datagrams(Outgoing(m, max))| == 1
    ensures Arrive(cfg, buffers, Datagram(Datagrams(Outgoing(m, max))[0], now)) == (buffers, Some(m.Wire()))
  {
    WholeEndToEnd(cfg, buffers, m, max, now);
    DecodeEncode(m);
  }
}
