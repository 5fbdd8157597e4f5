/** Whole runs of the reassembler: which transfers come through, whatever else happens in between. */
module TpTransfer {
  import opened Bytes
  import opened Clock
  import opened Messages
  import opened TpTypes
  import opened TpSegmenter
  import opened TpReassembly

  datatype Config = Config(timeoutMs: int, residue: nat -> nat)

  datatype Event =
    | Deliver(m: Message, now: int)
    | Take(id: U32)
    | Sweep(now: int)

  ghost function After(cfg: Config, buffers: Buffers, e: Event): Buffers {
    match e
    case Deliver(m, now) => AfterAdd(cfg.residue, buffers, m, now)
    case Take(id) => AfterTake(buffers, id)
    case Sweep(now) => AfterSweep(cfg.timeoutMs, buffers, now)
  }

  ghost function Run(cfg: Config, buffers: Buffers, events: seq<Event>): Buffers {
    if events == [] then buffers
    else After(cfg, Run(cfg, buffers, events[..|events| - 1]), events[|events| - 1])
  }

  // ----- Request ids do not interfere -----

  /** The buffer of one request id, driven alone. */
  ghost function AfterOne(cfg: Config, id: U32, b: Option<Buffer>, e: Event): Option<Buffer> {
    match e
    case Deliver(m, now) =>
      if Accepts(m) && m.RequestId() == id then Some(Stored(cfg.residue, b, m, now)) else b
    case Take(other) => if other == id && b.Some? && Complete(b.value) then None else b
    case Sweep(now) => if b.Some? && Expired(cfg.timeoutMs, b.value, now) then None else b
  }

  ghost function RunOne(cfg: Config, id: U32, b: Option<Buffer>, events: seq<Event>): Option<Buffer> {
    if events == [] then b
    else AfterOne(cfg, id, RunOne(cfg, id, b, events[..|events| - 1]), events[|events| - 1])
  }

  predicate Concerns(e: Event, id: U32) {
    match e
    case Deliver(m, _) => Accepts(m) && m.RequestId() == id
    case Take(other) => other == id
    case Sweep(_) => true
  }

  function Relevant(events: seq<Event>, id: U32): seq<Event> {
    if events == [] then []
    else
      var last := events[|events| - 1];
      Relevant(events[..|events| - 1], id) + if Concerns(last, id) then [last] else []
  }

  lemma AfterProjects(cfg: Config, buffers: Buffers, e: Event, id: U32)
    ensures Lookup(After(cfg, buffers, e), id) == AfterOne(cfg, id, Lookup(buffers, id), e)
  {
  }

  /** Seen from one request id, a run over all buffers is the run of a single buffer over the events that
      concern this id. */
  lemma {:induction false} RunProjects(cfg: Config, buffers: Buffers, events: seq<Event>, id: U32)
    ensures Lookup(Run(cfg, buffers, events), id)
            == RunOne(cfg, id, Lookup(buffers, id), Relevant(events, id))
  {
    if events != [] {
      var before, last := events[..|events| - 1], events[|events| - 1];
      RunProjects(cfg, buffers, before, id);
      AfterProjects(cfg, Run(cfg, buffers, before), last, id);
      var relevant := Relevant(events, id);
      if Concerns(last, id) {
        assert relevant[..|relevant| - 1] == Relevant(before, id);
      } else {
        assert relevant == Relevant(before, id);
      }
    }
  }

  /** Two runs that agree on an id at the start and on the events that concern it agree on it at the end,
      both on its buffer and on what taking it would give. */
  lemma NonInterference(cfg: Config, a: Buffers, b: Buffers, es: seq<Event>, fs: seq<Event>, id: U32)
    requires Lookup(a, id) == Lookup(b, id) && Relevant(es, id) == Relevant(fs, id)
    ensures Lookup(Run(cfg, a, es), id) == Lookup(Run(cfg, b, fs), id)
    ensures Taken(Run(cfg, a, es), id) == Taken(Run(cfg, b, fs), id)
  {
    RunProjects(cfg, a, es, id);
    RunProjects(cfg, b, fs, id);
  }

  // ----- One transfer -----

  function UpTo(c: nat): (s: set<nat>)
    ensures forall i: nat :: i in s <==> i < c
  {
    if c == 0 then {} else UpTo(c - 1) + {c - 1}
  }

  function All(m: Message, max: nat): set<nat>
    requires max > 0
  {
    UpTo(Count(m, max))
  }

  function LastSize(m: Message, max: nat): nat
    requires Segmentable(m, max)
  {
    CountBounds(|m.Data()|, max);
    |Piece(m, max, Count(m, max) - 1)|
  }

  /** Reading the size of the last piece after the move still gives its size. */
  predicate SizeKept(cfg: Config, m: Message, max: nat)
    requires Segmentable(m, max)
  {
    cfg.residue(LastSize(m, max)) == LastSize(m, max)
  }

  /** Every segment starts at an offset the header can carry. */
  predicate FitsOffset(m: Message, max: nat)
    requires Segmentable(m, max)
  {
    Start(max, Count(m, max) - 1) < OFFSET_LIMIT
  }

  /** `d` is segment `i` as far as the wire shows. */
  ghost predicate IsSegment(d: Message, m: Message, max: nat, i: nat)
    requires Segmentable(m, max)
  {
    i < Count(m, max) && d.Wire() == SegmentAt(m, max, i).Wire()
  }

  ghost predicate Carries(e: Event, m: Message, max: nat, i: nat)
    requires Segmentable(m, max)
  {
    e.Deliver? && IsSegment(e.m, m, max, i)
  }

  ghost predicate Own(e: Event, m: Message, max: nat)
    requires Segmentable(m, max)
  {
    exists i :: Carries(e, m, max, i)
  }

  /** The segments that arrived. */
  ghost function Got(m: Message, max: nat, events: seq<Event>): set<nat>
    requires Segmentable(m, max)
  {
    set i | i in All(m, max) && exists e :: e in events && Carries(e, m, max, i)
  }

  /** What may happen at step `j` of the transfer of `m`: one of its segments, any delivery that does not
      touch its buffer, any attempt to take a message, and sweeps that come within the timeout. */
  ghost predicate AllowedAt(cfg: Config, m: Message, max: nat, events: seq<Event>, j: nat)
    requires Segmentable(m, max) && j < |events|
  {
    match events[j]
    case Deliver(d, now) =>
      Accepts(d) && d.RequestId() == m.RequestId() ==> Own(events[j], m, max)
    case Take(_) => true
    case Sweep(now) =>
      forall i :: 0 <= i < j && Own(events[i], m, max)
                  ==> Elapsed(now, events[i].now, MILLISECOND) <= cfg.timeoutMs
  }

  ghost predicate Allowed(cfg: Config, m: Message, max: nat, events: seq<Event>)
    requires Segmentable(m, max)
  {
    forall j :: 0 <= j < |events| ==> AllowedAt(cfg, m, max, events, j)
  }

  /** Taking the message now gives back what the sender passed in. */
  ghost predicate Faithful(buffers: Buffers, m: Message) {
    var t := Taken(buffers, m.RequestId());
    t.Some? && t.value.Wire() == m.Wire()
  }

  // ----- The buffer during a transfer whose offsets fit -----

  function Starts(max: nat, got: set<nat>): set<nat> {
    set i | i in got :: Start(max, i)
  }

  ghost predicate HoldsPieces(m: Message, max: nat, got: set<nat>, s: Segments)
    requires Segmentable(m, max) && got <= All(m, max)
  {
    && (forall i :: i in got ==> Start(max, i) in s && s[Start(max, i)] == Piece(m, max, i))
    && s.Keys == Starts(max, got)
  }

  ghost predicate Holds(cfg: Config, m: Message, max: nat, got: set<nat>, f: Buffer)
    requires Segmentable(m, max) && got <= All(m, max)
  {
    && f.serviceId == m.serviceId && f.methodId == m.methodId && f.clientId == m.clientId
    && f.interfaceVersion == m.interfaceVersion && f.returnCode == m.returnCode
    && f.messageType == TpTypeOf(m.messageType).value
    && f.segments != map[]
    && HoldsPieces(m, max, got, f.segments)
    && (f.hasLastSegment <==> Count(m, max) - 1 in got)
    && (f.hasLastSegment ==>
          f.totalSize == Start(max, Count(m, max) - 1) + cfg.residue(LastSize(m, max)))
  }

  /** The buffer holds exactly the segments in `got`, under their true offsets. */
  ghost predicate Progress(cfg: Config, m: Message, max: nat, got: set<nat>, b: Option<Buffer>)
    requires Segmentable(m, max)
  {
    && got <= All(m, max)
    && (b.None? <==> got == {})
    && (b.Some? ==> Holds(cfg, m, max, got, b.value))
  }

  /** What the reassembler reads off a delivered segment. */
  lemma SegmentAccepted(d: Message, m: Message, max: nat, i: nat)
    requires Segmentable(m, max) && IsSegment(d, m, max, i)
    ensures Accepts(d) && d.RequestId() == m.RequestId()
    ensures FromNetwork(d.Data()) == MakeHeader(Start(max, i), i + 1 < Count(m, max))
    ensures d.Data()[HEADER_OCTETS..] == Piece(m, max, i)
    ensures d.serviceId == m.serviceId && d.methodId == m.methodId && d.clientId == m.clientId
    ensures d.interfaceVersion == m.interfaceVersion && d.returnCode == m.returnCode
    ensures d.messageType == TpTypeOf(m.messageType).value
  {
    SegmentParts(m, max, i);
    assert d.Data() == SegmentAt(m, max, i).Data();
  }

  lemma PieceStored(m: Message, max: nat, got: set<nat>, s: Segments, i: nat)
    requires Segmentable(m, max) && got <= All(m, max) && HoldsPieces(m, max, got, s) && i < Count(m, max)
    ensures HoldsPieces(m, max, got + {i}, s[Start(max, i) := Piece(m, max, i)])
  {
    var t := s[Start(max, i) := Piece(m, max, i)];
    forall j | j in got + {i} ensures Start(max, j) in t && t[Start(max, j)] == Piece(m, max, j) {
      StartsApart(max, i, j);
    }
    assert Starts(max, got + {i}) == Starts(max, got) + {Start(max, i)};
  }

  lemma OffsetFits(m: Message, max: nat, i: nat)
    requires Segmentable(m, max) && FitsOffset(m, max) && i < Count(m, max)
    ensures Start(max, i) % OFFSET_LIMIT == Start(max, i)
  {
    StartMonotone(max, i, Count(m, max) - 1);
  }

  /** What is read off segment `i` of a transfer whose offsets fit. */
  lemma SegmentRead(m: Message, max: nat, d: Message, i: nat, start: nat, piece: seq<Byte>, last: bool)
    requires Segmentable(m, max) && FitsOffset(m, max) && IsSegment(d, m, max, i) && Accepts(d)
    requires start == Start(max, i) && piece == Piece(m, max, i) && (last <==> i == Count(m, max) - 1)
    ensures FromNetwork(d.Data()) == TpHeader(start, 0, !last) && d.Data()[HEADER_OCTETS..] == piece
    ensures last ==> LastSize(m, max) == |piece|
  {
    SegmentAccepted(d, m, max, i);
    OffsetFits(m, max, i);
  }

  lemma StoredBy(residue: nat -> nat, b: Option<Buffer>, d: Message, now: int, h: TpHeader, piece: seq<Byte>)
    requires Accepts(d) && FromNetwork(d.Data()) == h && d.Data()[HEADER_OCTETS..] == piece
    ensures var base := Opened(b, d, now);
            Stored(residue, b, d, now)
            == base.(segments := base.segments[h.offset := piece],
                     totalSize := if h.moreFlag then base.totalSize else h.offset + residue(|piece|),
                     hasLastSegment := !h.moreFlag || base.hasLastSegment)
  {
  }

  /** Storing segment `i` puts its data under its start and, if it is the last, records the total. */
  lemma StoredSegment(cfg: Config, m: Message, max: nat, b: Option<Buffer>, d: Message, now: int, i: nat)
    requires Segmentable(m, max) && FitsOffset(m, max) && IsSegment(d, m, max, i) && Accepts(d)
    ensures var base := Opened(b, d, now);
            var last := i == Count(m, max) - 1;
            Stored(cfg.residue, b, d, now)
            == base.(segments := base.segments[Start(max, i) := Piece(m, max, i)],
                     totalSize := if last then Start(max, i) + cfg.residue(LastSize(m, max)) else base.totalSize,
                     hasLastSegment := last || base.hasLastSegment)
  {
    var start, piece, last := Start(max, i), Piece(m, max, i), i == Count(m, max) - 1;
    SegmentRead(m, max, d, i, start, piece, last);
    StoredBy(cfg.residue, b, d, now, TpHeader(start, 0, !last), piece);
  }

  lemma ProgressStored(cfg: Config, m: Message, max: nat, got: set<nat>, b: Option<Buffer>,
                       d: Message, now: int, i: nat)
    requires Segmentable(m, max) && FitsOffset(m, max) && Progress(cfg, m, max, got, b)
    requires IsSegment(d, m, max, i) && Accepts(d)
    ensures Progress(cfg, m, max, got + {i}, Some(Stored(cfg.residue, b, d, now)))
    ensures Stored(cfg.residue, b, d, now).firstSegmentTime
            == if b.Some? then b.value.firstSegmentTime else now
  {
    SegmentAccepted(d, m, max, i);
    StoredSegment(cfg, m, max, b, d, now, i);
    var base := Opened(b, d, now);
    assert HoldsPieces(m, max, got, base.segments);
    PieceStored(m, max, got, base.segments, i);
  }

  /** Octet `k` lies in segment `k / max`. */
  lemma PieceOf(m: Message, max: nat, k: nat) returns (i: nat)
    requires Segmentable(m, max) && k < |m.Data()|
    ensures i < Count(m, max)
    ensures Start(max, i) <= k < Start(max, i) + |Piece(m, max, i)|
  {
    i := k / max;
    var c := Count(m, max);
    assert k == max * i + k % max && 0 <= k % max < max;
    StartIsProduct(max, i);
    assert max * i == i * max;
    CountBounds(|m.Data()|, max);
    if i >= c {
      StartMonotone(max, c, i);
      assert false;
    }
  }

  lemma HeldPiece(cfg: Config, m: Message, max: nat, got: set<nat>, f: Buffer, o: nat) returns (i: nat)
    requires Segmentable(m, max) && got <= All(m, max) && Holds(cfg, m, max, got, f) && o in f.segments
    ensures i in got && o == Start(max, i) && f.segments[o] == Piece(m, max, i)
    ensures o + |f.segments[o]| <= |m.Data()|
  {
    i :| i in got && o == Start(max, i);
  }

  lemma SameHolder(cfg: Config, m: Message, max: nat, got: set<nat>, f: Buffer, o: nat, p: nat, k: nat)
    requires Segmentable(m, max) && got <= All(m, max) && Holds(cfg, m, max, got, f)
    requires Covers(f.segments, o, k) && Covers(f.segments, p, k)
    ensures o == p
  {
    var i := HeldPiece(cfg, m, max, got, f, o);
    var j := HeldPiece(cfg, m, max, got, f, p);
    StartsApart(max, i, j);
  }

  lemma AllTile(cfg: Config, m: Message, max: nat, f: Buffer)
    requires Segmentable(m, max) && Holds(cfg, m, max, All(m, max), f)
    ensures Tiles(f.segments, |m.Data()|)
  {
    var s, n := f.segments, |m.Data()|;
    forall o | o in s ensures o + |s[o]| <= n && s[o] != [] {
      var i := HeldPiece(cfg, m, max, All(m, max), f, o);
    }
    forall k: nat | k < n ensures Covered(s, k) {
      var i := PieceOf(m, max, k);
      assert Covers(s, Start(max, i), k);
    }
    forall o, p, k | Covers(s, o, k) && Covers(s, p, k) ensures o == p {
      SameHolder(cfg, m, max, All(m, max), f, o, p, k);
    }
  }

  lemma TilingHoldsAll(cfg: Config, m: Message, max: nat, got: set<nat>, f: Buffer)
    requires Segmentable(m, max) && got <= All(m, max) && Holds(cfg, m, max, got, f) && Complete(f)
    ensures got == All(m, max) && f.totalSize == |m.Data()| && SizeKept(cfg, m, max)
  {
    var s, n, c := f.segments, |m.Data()|, Count(m, max);
    CountBounds(n, max);
    PieceBounds(m, max, c - 1);
    CoveredExactly(s, f.totalSize);
    forall o: nat | o in s ensures o + |s[o]| <= n {
      var i := HeldPiece(cfg, m, max, got, f, o);
    }
    assert Covered(s, n) <==> n < f.totalSize;
    assert Start(max, c - 1) in s;
    forall i: nat | i < c ensures i in got {
      PieceBounds(m, max, i);
      assert Covered(s, Start(max, i));
      var o :| Covers(s, o, Start(max, i));
      var j := HeldPiece(cfg, m, max, got, f, o);
      StartsApart(max, i, j);
    }
  }

  lemma AllJoin(cfg: Config, m: Message, max: nat, f: Buffer)
    requires Segmentable(m, max) && Holds(cfg, m, max, All(m, max), f) && Complete(f)
    ensures Joined(f) == m.Data()
  {
    TilingHoldsAll(cfg, m, max, All(m, max), f);
    forall k: nat | k < |m.Data()| ensures Joined(f)[k] == m.Data()[k] {
      var i := PieceOf(m, max, k);
      assert Covers(f.segments, Start(max, i), k);
    }
  }

  /** During a transfer whose offsets fit, the buffer is complete exactly when every segment is there and
      the size of the last one was read right; then it joins to the payload. */
  lemma ProgressComplete(cfg: Config, m: Message, max: nat, got: set<nat>, f: Buffer)
    requires Segmentable(m, max) && Progress(cfg, m, max, got, Some(f))
    ensures Complete(f) <==> got == All(m, max) && SizeKept(cfg, m, max)
    ensures Complete(f) ==> Joined(f) == m.Data()
  {
    if got == All(m, max) && SizeKept(cfg, m, max) {
      AllTile(cfg, m, max, f);
      CountBounds(|m.Data()|, max);
      PieceBounds(m, max, Count(m, max) - 1);
      assert Complete(f);
    }
    if Complete(f) {
      TilingHoldsAll(cfg, m, max, got, f);
      AllJoin(cfg, m, max, f);
    }
  }
}
