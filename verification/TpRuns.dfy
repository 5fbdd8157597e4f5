/** The round-trip theorem of SOME/IP-TP over whole runs: segments in any order, with repeats, between
    arbitrary traffic on other request ids. */
module TpRuns {
  import opened Bytes
  import opened Clock
  import opened Messages
  import opened TpTypes
  import opened TpSegmenter
  import opened TpReassembly
  import opened TpTransfer

  lemma SameHeader(d: Message, m: Message, max: nat, i: nat, j: nat)
    requires Segmentable(m, max) && IsSegment(d, m, max, i) && IsSegment(d, m, max, j)
    ensures MakeHeader(Start(max, i), i + 1 < Count(m, max)) == MakeHeader(Start(max, j), j + 1 < Count(m, max))
  {
    SegmentAccepted(d, m, max, i);
    SegmentAccepted(d, m, max, j);
  }

  lemma OffsetsDistinct(max: nat, c: nat, i: nat, j: nat)
    requires 0 < max && i < c && j < c && Start(max, c - 1) < OFFSET_LIMIT
    requires Start(max, i) % OFFSET_LIMIT == Start(max, j) % OFFSET_LIMIT
    ensures i == j
  {
    StartMonotone(max, i, c - 1);
    StartMonotone(max, j, c - 1);
    StartsApart(max, i, j);
  }

  /** A delivery is at most one of the segments when offsets do not wrap. */
  lemma SegmentIndexUnique(d: Message, m: Message, max: nat, i: nat, j: nat)
    requires Segmentable(m, max) && FitsOffset(m, max)
    requires IsSegment(d, m, max, i) && IsSegment(d, m, max, j)
    ensures i == j
  {
    SameHeader(d, m, max, i, j);
    OffsetsDistinct(max, Count(m, max), i, j);
  }

  lemma GotStep(m: Message, max: nat, before: seq<Event>, e: Event)
    requires Segmentable(m, max)
    ensures !Own(e, m, max) ==> Got(m, max, before + [e]) == Got(m, max, before)
    ensures FitsOffset(m, max) ==>
              forall i :: Carries(e, m, max, i) ==> Got(m, max, before + [e]) == Got(m, max, before) + {i}
  {
    var events := before + [e];
    assert forall x :: x in events <==> x in before || x == e;
    if FitsOffset(m, max) {
      forall i | Carries(e, m, max, i)
        ensures Got(m, max, events) == Got(m, max, before) + {i}
      {
        forall j | Carries(e, m, max, j) ensures j == i {
          SegmentIndexUnique(e.m, m, max, i, j);
        }
        assert e in events;
      }
    }
  }

  /** The buffer was opened by one of the transfer's own deliveries. */
  ghost predicate StartedBy(m: Message, max: nat, events: seq<Event>, b: Option<Buffer>)
    requires Segmentable(m, max)
  {
    b.Some? ==> exists i :: 0 <= i < |events| && Own(events[i], m, max)
                            && events[i].now == b.value.firstSegmentTime
  }

  lemma AllowedPrefix(cfg: Config, m: Message, max: nat, events: seq<Event>, n: nat)
    requires Segmentable(m, max) && Allowed(cfg, m, max, events) && n <= |events|
    ensures Allowed(cfg, m, max, events[..n])
  {
    forall j | 0 <= j < n ensures AllowedAt(cfg, m, max, events[..n], j) {
      assert AllowedAt(cfg, m, max, events, j);
    }
  }

  /** The state of a transfer before its next event, which is not the taking of a complete message. */
  ghost predicate UnderWay(cfg: Config, m: Message, max: nat, before: seq<Event>, b: Option<Buffer>)
    requires Segmentable(m, max)
  {
    && Progress(cfg, m, max, Got(m, max, before), b) && StartedBy(m, max, before, b)
    && (Got(m, max, before) != All(m, max) || !SizeKept(cfg, m, max))
  }

  lemma StartedStays(m: Message, max: nat, before: seq<Event>, e: Event, b: Option<Buffer>)
    requires Segmentable(m, max) && StartedBy(m, max, before, b)
    ensures StartedBy(m, max, before + [e], b)
  {
    if b.Some? {
      var i :| 0 <= i < |before| && Own(before[i], m, max) && before[i].now == b.value.firstSegmentTime;
      assert (before + [e])[i] == before[i];
    }
  }

  lemma OwnStep(cfg: Config, m: Message, max: nat, before: seq<Event>, e: Event, b: Option<Buffer>)
    requires Segmentable(m, max) && FitsOffset(m, max) && UnderWay(cfg, m, max, before, b) && Own(e, m, max)
    ensures var after := AfterOne(cfg, m.RequestId(), b, e);
            Progress(cfg, m, max, Got(m, max, before + [e]), after) && StartedBy(m, max, before + [e], after)
  {
    GotStep(m, max, before, e);
    var i :| Carries(e, m, max, i);
    SegmentAccepted(e.m, m, max, i);
    ProgressStored(cfg, m, max, Got(m, max, before), b, e.m, e.now, i);
    StartedStays(m, max, before, e, b);
    assert Own((before + [e])[|before|], m, max);
  }

  lemma OtherStep(cfg: Config, m: Message, max: nat, before: seq<Event>, e: Event, b: Option<Buffer>)
    requires Segmentable(m, max) && UnderWay(cfg, m, max, before, b) && !Own(e, m, max)
    requires AllowedAt(cfg, m, max, before + [e], |before|)
    ensures AfterOne(cfg, m.RequestId(), b, e) == b
    ensures Got(m, max, before + [e]) == Got(m, max, before) && StartedBy(m, max, before + [e], b)
  {
    GotStep(m, max, before, e);
    StartedStays(m, max, before, e, b);
    if b.Some? {
      ProgressComplete(cfg, m, max, Got(m, max, before), b.value);
    }
  }

  lemma ProgressStep(cfg: Config, m: Message, max: nat, before: seq<Event>, e: Event, b: Option<Buffer>)
    requires Segmentable(m, max) && FitsOffset(m, max) && UnderWay(cfg, m, max, before, b)
    requires AllowedAt(cfg, m, max, before + [e], |before|)
    ensures var after := AfterOne(cfg, m.RequestId(), b, e);
            Progress(cfg, m, max, Got(m, max, before + [e]), after) && StartedBy(m, max, before + [e], after)
  {
    if Own(e, m, max) {
      OwnStep(cfg, m, max, before, e, b);
    } else {
      OtherStep(cfg, m, max, before, e, b);
    }
  }

  /** The set never was complete before the last event, or completeness is never seen. */
  ghost predicate Unfinished(cfg: Config, m: Message, max: nat, events: seq<Event>)
    requires Segmentable(m, max)
  {
    forall j :: 0 <= j < |events| ==> Got(m, max, events[..j]) != All(m, max) || !SizeKept(cfg, m, max)
  }

  lemma UnfinishedPrefix(cfg: Config, m: Message, max: nat, events: seq<Event>, n: nat)
    requires Segmentable(m, max) && Unfinished(cfg, m, max, events) && n < |events|
    ensures Unfinished(cfg, m, max, events[..n])
    ensures Got(m, max, events[..n]) != All(m, max) || !SizeKept(cfg, m, max)
  {
    forall j | 0 <= j < n ensures Got(m, max, events[..n][..j]) != All(m, max) || !SizeKept(cfg, m, max) {
      assert events[..n][..j] == events[..j];
    }
  }

  /** Segments only ever arrive. */
  lemma GotMonotone(m: Message, max: nat, events: seq<Event>, j: nat, n: nat)
    requires Segmentable(m, max) && j <= n <= |events|
    ensures Got(m, max, events[..j]) <= Got(m, max, events[..n])
  {
    assert forall e :: e in events[..j] ==> e in events[..n];
  }

  lemma UnfinishedBefore(cfg: Config, m: Message, max: nat, events: seq<Event>)
    requires Segmentable(m, max)
    requires events == [] || Got(m, max, events[..|events| - 1]) != All(m, max)
    ensures Unfinished(cfg, m, max, events)
  {
    forall j | 0 <= j < |events| ensures Got(m, max, events[..j]) != All(m, max) {
      GotMonotone(m, max, events, j, |events| - 1);
    }
  }

  lemma {:induction false} RunProgress(cfg: Config, buffers: Buffers, m: Message, max: nat, events: seq<Event>)
    requires Segmentable(m, max) && FitsOffset(m, max) && m.RequestId() !in buffers
    requires Allowed(cfg, m, max, events) && Unfinished(cfg, m, max, events)
    ensures var b := Lookup(Run(cfg, buffers, events), m.RequestId());
            Progress(cfg, m, max, Got(m, max, events), b) && StartedBy(m, max, events, b)
  {
    if events == [] {
      assert Got(m, max, events) == {};
    } else {
      var n := |events| - 1;
      var before := events[..n];
      AllowedPrefix(cfg, m, max, events, n);
      UnfinishedPrefix(cfg, m, max, events, n);
      RunProgress(cfg, buffers, m, max, before);
      var e, b := events[n], Lookup(Run(cfg, buffers, before), m.RequestId());
      assert events == before + [e];
      assert AllowedAt(cfg, m, max, before + [e], n);
      ProgressStep(cfg, m, max, before, e, b);
      AfterProjects(cfg, Run(cfg, buffers, before), e, m.RequestId());
    }
  }

  // ----- Offsets that do not fit -----

  /** Every stored piece lies under its true offset or, after wrapping, under a smaller one. */
  ghost predicate Shadowed(m: Message, max: nat, b: Option<Buffer>)
    requires Segmentable(m, max)
  {
    b.Some? ==> forall o :: o in b.value.segments ==> o + |b.value.segments[o]| < |m.Data()|
  }

  lemma ShadowedStored(cfg: Config, m: Message, max: nat, b: Option<Buffer>, d: Message, now: int, i: nat)
    requires Segmentable(m, max) && !FitsOffset(m, max) && Shadowed(m, max, b)
    requires IsSegment(d, m, max, i) && Accepts(d)
    ensures Shadowed(m, max, Some(Stored(cfg.residue, b, d, now)))
  {
    SegmentAccepted(d, m, max, i);
    PieceBounds(m, max, i);
    assert Start(max, i) % OFFSET_LIMIT <= Start(max, i);
    assert OFFSET_LIMIT <= Start(max, Count(m, max) - 1);
  }

  lemma {:induction false} RunShadowed(cfg: Config, buffers: Buffers, m: Message, max: nat, events: seq<Event>)
    requires Segmentable(m, max) && !FitsOffset(m, max) && m.RequestId() !in buffers
    requires Allowed(cfg, m, max, events)
    ensures Shadowed(m, max, Lookup(Run(cfg, buffers, events), m.RequestId()))
  {
    if events != [] {
      var n := |events| - 1;
      var before, e := events[..n], events[n];
      AllowedPrefix(cfg, m, max, events, n);
      RunShadowed(cfg, buffers, m, max, before);
      assert AllowedAt(cfg, m, max, events, n);
      var b := Lookup(Run(cfg, buffers, before), m.RequestId());
      AfterProjects(cfg, Run(cfg, buffers, before), e, m.RequestId());
      if Own(e, m, max) {
        var i :| Carries(e, m, max, i);
        SegmentAccepted(e.m, m, max, i);
        ShadowedStored(cfg, m, max, b, e.m, e.now, i);
      }
    }
  }

  /** A buffer without the last octet of the payload cannot join to the payload. */
  lemma ShadowedUnfaithful(m: Message, max: nat, f: Buffer)
    requires Segmentable(m, max) && Shadowed(m, max, Some(f)) && Complete(f)
    ensures |Joined(f)| != |m.Data()|
  {
    CoveredExactly(f.segments, f.totalSize);
    assert Covered(f.segments, |m.Data()| - 1) <==> |m.Data()| - 1 < f.totalSize;
  }

  // ----- The round trip -----

  /** What a transfer needs to come through. All three can be checked before the first segment is sent. */
  predicate Transferable(cfg: Config, m: Message, max: nat)
    requires Segmentable(m, max)
  {
    FitsOffset(m, max) && SizeKept(cfg, m, max) && m.protocolVersion == PROTOCOL_VERSION
  }

  lemma CompleteIsFaithful(cfg: Config, m: Message, max: nat, got: set<nat>, buffers: Buffers)
    requires Segmentable(m, max) && m.protocolVersion == PROTOCOL_VERSION
    requires Progress(cfg, m, max, got, Lookup(buffers, m.RequestId())) && Ready(buffers, m.RequestId())
    ensures Faithful(buffers, m)
  {
    var f := buffers[m.RequestId()];
    ProgressComplete(cfg, m, max, got, f);
    var t := Taken(buffers, m.RequestId()).value;
    assert t.payload == Some(m.Data());
    assert t.sessionId == m.sessionId;
    assert t.messageType == m.messageType;
  }

  /** Up to its first completion, a transfer is reported complete exactly when the last missing segment
      has arrived, whatever the order, the repeats and the traffic in between; taking it then gives the
      sender's message. */
  lemma TransferCompletes(cfg: Config, buffers: Buffers, m: Message, max: nat, events: seq<Event>)
    requires Segmentable(m, max) && m.RequestId() !in buffers
    requires Allowed(cfg, m, max, events) && Transferable(cfg, m, max)
    requires events == [] || Got(m, max, events[..|events| - 1]) != All(m, max)
    ensures Ready(Run(cfg, buffers, events), m.RequestId()) <==> Got(m, max, events) == All(m, max)
    ensures Got(m, max, events) == All(m, max) ==> Faithful(Run(cfg, buffers, events), m)
  {
    UnfinishedBefore(cfg, m, max, events);
    RunProgress(cfg, buffers, m, max, events);
    var after := Run(cfg, buffers, events);
    assert 0 in All(m, max);
    if m.RequestId() in after {
      ProgressComplete(cfg, m, max, Got(m, max, events), after[m.RequestId()]);
    }
    if Ready(after, m.RequestId()) {
      CompleteIsFaithful(cfg, m, max, Got(m, max, events), after);
    }
  }

  /** When a condition fails, no run of any length ever gives the sender's message back. */
  lemma TransferFails(cfg: Config, buffers: Buffers, m: Message, max: nat, events: seq<Event>)
    requires Segmentable(m, max) && m.RequestId() !in buffers
    requires Allowed(cfg, m, max, events) && !Transferable(cfg, m, max)
    ensures !Faithful(Run(cfg, buffers, events), m)
    ensures FitsOffset(m, max) && !SizeKept(cfg, m, max) ==> !Ready(Run(cfg, buffers, events), m.RequestId())
  {
    var after := Run(cfg, buffers, events);
    if !FitsOffset(m, max) {
      RunShadowed(cfg, buffers, m, max, events);
      if Ready(after, m.RequestId()) {
        ShadowedUnfaithful(m, max, after[m.RequestId()]);
      }
    } else if !SizeKept(cfg, m, max) {
      RunProgress(cfg, buffers, m, max, events);
      if m.RequestId() in after {
        ProgressComplete(cfg, m, max, Got(m, max, events), after[m.RequestId()]);
      }
    }
  }

  /** The round trip, exactly: at the delivery that completes the set, the message can be taken back if
      and only if the transfer meets its three conditions. */
  lemma RoundTripExactly(cfg: Config, buffers: Buffers, m: Message, max: nat, events: seq<Event>)
    requires Segmentable(m, max) && m.RequestId() !in buffers && Allowed(cfg, m, max, events)
    requires Got(m, max, events) == All(m, max)
    requires events == [] || Got(m, max, events[..|events| - 1]) != All(m, max)
    ensures Faithful(Run(cfg, buffers, events), m) <==> Transferable(cfg, m, max)
  {
    if Transferable(cfg, m, max) {
      TransferCompletes(cfg, buffers, m, max, events);
    } else {
      TransferFails(cfg, buffers, m, max, events);
    }
  }

  /** What may happen while the transfers of `ms` are under way: a segment of one of them, any delivery that
      touches none of their buffers, any attempt to take a message, and sweeps within the timeout. */
  ghost predicate JointlyAllowedAt(cfg: Config, ms: set<Message>, max: nat, events: seq<Event>, j: nat)
    requires j < |events| && forall x :: x in ms ==> Segmentable(x, max)
  {
    match events[j]
    case Deliver(d, _) =>
      || (exists x :: x in ms && Own(events[j], x, max))
      || (Accepts(d) ==> forall x :: x in ms ==> d.clientId != x.clientId || d.sessionId != x.sessionId)
    case Take(_) => true
    case Sweep(now) =>
      forall i, x :: 0 <= i < j && x in ms && Own(events[i], x, max)
                     ==> Elapsed(now, events[i].now, MILLISECOND) <= cfg.timeoutMs
  }

  /** Any number of transfers, no two of the same client and session, can be under way at once: what belongs
      to one is foreign to all others, so each comes through on its own terms. */
  lemma ConcurrentTransfers(cfg: Config, buffers: Buffers, ms: set<Message>, max: nat, events: seq<Event>, m: Message)
    requires m in ms && forall x :: x in ms ==> Segmentable(x, max)
    requires forall x, y :: x in ms && y in ms && x.clientId == y.clientId && x.sessionId == y.sessionId ==> x == y
    requires forall j :: 0 <= j < |events| ==> JointlyAllowedAt(cfg, ms, max, events, j)
    requires m.RequestId() !in buffers && Got(m, max, events) == All(m, max)
    requires events == [] || Got(m, max, events[..|events| - 1]) != All(m, max)
    ensures Faithful(Run(cfg, buffers, events), m) <==> Transferable(cfg, m, max)
  {
    forall j | 0 <= j < |events| ensures AllowedAt(cfg, m, max, events, j) {
      assert JointlyAllowedAt(cfg, ms, max, events, j);
      if events[j].Deliver? {
        SameRequestId(events[j].m, m);
      }
      if x :| events[j].Deliver? && x in ms && Own(events[j], x, max) {
        var i :| Carries(events[j], x, max, i);
        SegmentAccepted(events[j].m, x, max, i);
      }
    }
    RoundTripExactly(cfg, buffers, m, max, events);
  }

  /** What the common standard libraries do: a vector that was moved from is empty. */
  const EMPTIED: nat -> nat := n => 0

  /** The recorded total is where the last piece begins, and no piece is empty. */
  ghost predicate TotalAtLast(b: Option<Buffer>) {
    b.Some? ==> && (b.value.hasLastSegment ==> b.value.totalSize in b.value.segments)
                && forall o :: o in b.value.segments ==> b.value.segments[o] != []
  }

  lemma TotalAtLastStored(m: Message, max: nat, b: Option<Buffer>, d: Message, now: int, i: nat)
    requires Segmentable(m, max) && TotalAtLast(b) && IsSegment(d, m, max, i) && Accepts(d)
    ensures TotalAtLast(Some(Stored(EMPTIED, b, d, now)))
  {
    SegmentAccepted(d, m, max, i);
    var base := Opened(b, d, now);
    assert TotalAtLast(Some(base));
    assert d.Data()[HEADER_OCTETS..] == Piece(m, max, i) != [];
  }

  lemma {:induction false} RunTotalAtLast(cfg: Config, buffers: Buffers, m: Message, max: nat, events: seq<Event>)
    requires Segmentable(m, max) && m.RequestId() !in buffers && cfg.residue == EMPTIED
    requires Allowed(cfg, m, max, events)
    ensures TotalAtLast(Lookup(Run(cfg, buffers, events), m.RequestId()))
  {
    if events != [] {
      var n := |events| - 1;
      var before, e := events[..n], events[n];
      AllowedPrefix(cfg, m, max, events, n);
      RunTotalAtLast(cfg, buffers, m, max, before);
      assert AllowedAt(cfg, m, max, events, n);
      AfterProjects(cfg, Run(cfg, buffers, before), e, m.RequestId());
      if Own(e, m, max) {
        var i :| Carries(e, m, max, i);
        SegmentAccepted(e.m, m, max, i);
        TotalAtLastStored(m, max, Lookup(Run(cfg, buffers, before), m.RequestId()), e.m, e.now, i);
      }
    }
  }

  /** With emptied vectors no segmented message ever completes: the recorded total stops where the last
      piece begins, and the piece reaches beyond it. */
  lemma EmptiedNeverCompletes(timeoutMs: int, buffers: Buffers, m: Message, max: nat, events: seq<Event>)
    requires Segmentable(m, max) && m.RequestId() !in buffers
    requires Allowed(Config(timeoutMs, EMPTIED), m, max, events)
    ensures !Ready(Run(Config(timeoutMs, EMPTIED), buffers, events), m.RequestId())
  {
    var cfg := Config(timeoutMs, EMPTIED);
    RunTotalAtLast(cfg, buffers, m, max, events);
    var after := Run(cfg, buffers, events);
    if m.RequestId() in after {
      var f := after[m.RequestId()];
      assert f.hasLastSegment ==> f.totalSize + |f.segments[f.totalSize]| > f.totalSize;
    }
  }

  lemma TwoInOrder(cfg: Config, m: Message, max: nat, events: seq<Event>)
    requires Segmentable(m, max) && Count(m, max) == 2
    requires events == [Deliver(SegmentAt(m, max, 0), 0), Deliver(SegmentAt(m, max, 1), 0)]
    ensures Allowed(cfg, m, max, events) && Got(m, max, events) == All(m, max)
  {
    assert Carries(events[0], m, max, 0) && Carries(events[1], m, max, 1);
    assert events[0] in events && events[1] in events;
  }

  lemma TwoSegments(m: Message)
    requires |m.Data()| == 3
    ensures Count(m, 2) == 2 && Start(2, 1) == 2
  {
    assert PieceCount(1, 2) == 1;
    assert Start(2, 1) == Start(2, 0) + 2;
  }

  /** Three octets in two segments, delivered in order: every segment arrived, nothing completes. */
  lemma EmptiedExample()
    ensures var m := FRESH.(payload := Some([1, 2, 3]));
            var events := [Deliver(SegmentAt(m, 2, 0), 0), Deliver(SegmentAt(m, 2, 1), 0)];
            && Got(m, 2, events) == All(m, 2)
            && !Ready(Run(Config(DEFAULT_REASSEMBLY_TIMEOUT_MS, EMPTIED), map[], events), m.RequestId())
  {
    var m := FRESH.(payload := Some([1, 2, 3]));
    var events := [Deliver(SegmentAt(m, 2, 0), 0), Deliver(SegmentAt(m, 2, 1), 0)];
    TwoSegments(m);
    TwoInOrder(Config(DEFAULT_REASSEMBLY_TIMEOUT_MS, EMPTIED), m, 2, events);
    EmptiedNeverCompletes(DEFAULT_REASSEMBLY_TIMEOUT_MS, map[], m, 2, events);
  }

  /** A payload that reaches a whole segment beyond the offset range ends in a segment that starts beyond
      it. */
  lemma LargeDoesNotFit(m: Message, max: nat)
    requires Segmentable(m, max) && |m.Data()| >= OFFSET_LIMIT + max
    ensures !FitsOffset(m, max)
  {
    var c := Count(m, max);
    CountBounds(|m.Data()|, max);
    assert Start(max, c) == Start(max, c - 1) + max;
  }

  /** 2^24 + 1392 zeros on the unreliable path: no order of arrival ever gives the message back. */
  lemma WrapExample(cfg: Config, buffers: Buffers, m: Message, n: nat, events: seq<Event>)
    requires n == OFFSET_LIMIT + UDP_SEGMENT_SIZE && m == FRESH.(payload := Some(seq(n, i => 0)))
    requires m.RequestId() !in buffers
    requires Allowed(cfg, m, UDP_SEGMENT_SIZE, events)
    ensures !Faithful(Run(cfg, buffers, events), m)
  {
    LargeDoesNotFit(m, UDP_SEGMENT_SIZE);
    TransferFails(cfg, buffers, m, UDP_SEGMENT_SIZE, events);
  }
}
