/** Putting TP segments back together: one buffer for each request id, segments accepted in any order. */
module TpReassembly {
  import opened Bytes
  import opened Clock
  import opened Messages
  import opened Ordered
  import opened TpTypes

  type Segments = map<nat, seq<Byte>>

  datatype Buffer = Buffer(
    serviceId: U16,
    instanceId: U16,
    methodId: U16,
    clientId: U16,
    interfaceVersion: Byte,
    returnCode: Byte,
    messageType: Byte,
    totalSize: nat,
    segments: Segments,
    firstSegmentTime: int,
    hasLastSegment: bool)

  type Buffers = map<U32, Buffer>

  // ----- What it means to be complete -----

  ghost predicate Covers(segments: Segments, o: nat, k: nat) {
    o in segments && o <= k < o + |segments[o]|
  }

  ghost predicate Covered(segments: Segments, k: nat) {
    exists o :: Covers(segments, o, k)
  }

  /** The stored pieces tile [0, total): none reaches past it, every octet lies in exactly one piece, and
      a piece without data can only stand at the very end. */
  ghost predicate Tiles(segments: Segments, total: nat) {
    && (forall o :: o in segments ==> o + |segments[o]| <= total)
    && (forall k: nat :: k < total ==> Covered(segments, k))
    && (forall o, p, k :: Covers(segments, o, k) && Covers(segments, p, k) ==> o == p)
    && (forall o :: o in segments && segments[o] == [] ==> o == total)
  }

  ghost predicate Complete(b: Buffer) {
    b.hasLastSegment && Tiles(b.segments, b.totalSize)
  }

  ghost predicate Ready(buffers: Buffers, id: U32) {
    id in buffers && Complete(buffers[id])
  }

  ghost function OctetAt(segments: Segments, k: nat): Byte
    requires Covered(segments, k)
  {
    var o :| Covers(segments, o, k);
    segments[o][k - o]
  }

  /** The payload of a complete buffer: octet `k` comes from the one piece that covers `k`. */
  ghost function Joined(b: Buffer): (s: seq<Byte>)
    requires Complete(b)
    ensures |s| == b.totalSize
    ensures forall o: nat, k: nat :: Covers(b.segments, o, k) ==> k < |s| && s[k] == b.segments[o][k - o]
  {
    seq(b.totalSize, k requires 0 <= k < b.totalSize => OctetAt(b.segments, k))
  }

  lemma CoveredExactly(segments: Segments, total: nat)
    requires Tiles(segments, total)
    ensures forall k: nat :: Covered(segments, k) <==> k < total
  {
  }

  lemma TotalUnique(segments: Segments, a: nat, b: nat)
    requires Tiles(segments, a) && Tiles(segments, b)
    ensures a == b
  {
    CoveredExactly(segments, a);
    CoveredExactly(segments, b);
    assert Covered(segments, a) <==> a < b;
    assert Covered(segments, b) <==> b < a;
  }

  // ----- The ascending walk over the pieces -----

  /** The pieces not in `rest`. */
  ghost function Visited(segments: Segments, rest: set<nat>): Segments {
    map o | o in segments && o !in rest :: segments[o]
  }

  /** The walk so far: what was visited tiles [0, end) and lies below everything still to come. */
  ghost predicate Walk(segments: Segments, rest: set<nat>, end: nat) {
    && rest <= segments.Keys
    && (forall o, p :: o in segments && o !in rest && p in rest ==> o < p)
    && Tiles(Visited(segments, rest), end)
  }

  lemma WalkStart(segments: Segments)
    ensures Walk(segments, segments.Keys, 0)
  {
    assert Visited(segments, segments.Keys) == map[];
  }

  lemma WalkStep(segments: Segments, rest: set<nat>, end: nat)
    requires Walk(segments, rest, end) && IsLeast(rest, end)
    ensures Walk(segments, rest - {end}, end + |segments[end]|)
  {
    var before, after := Visited(segments, rest), Visited(segments, rest - {end});
    var d := segments[end];
    assert after == before[end := d];
    forall k: nat | k < end + |d| ensures Covered(after, k) {
      if k < end {
        assert Covered(before, k);
        var o :| Covers(before, o, k);
        assert Covers(after, o, k);
      } else {
        assert Covers(after, end, k);
      }
    }
    forall o, p, k | Covers(after, o, k) && Covers(after, p, k) ensures o == p {
      assert o != end ==> Covers(before, o, k);
      assert p != end ==> Covers(before, p, k);
    }
  }

  /** In a tiling, the next piece in ascending order starts where the walk stands. */
  lemma NoGap(segments: Segments, rest: set<nat>, end: nat, next: nat, total: nat)
    requires Tiles(segments, total) && Walk(segments, rest, end) && IsLeast(rest, next)
    ensures next == end
  {
    var before := Visited(segments, rest);
    CoveredExactly(before, end);
    if end < total {
      assert Covered(segments, end);
      var o :| Covers(segments, o, end);
      assert o in rest || Covers(before, o, end);
    }
    assert Covered(before, next) <==> next < end;
    assert forall o: nat :: Covers(before, o, next) ==> Covers(segments, o, next) && o < next;
    assert segments[next] != [] ==> Covers(segments, next, next);
  }

  lemma WalkEnd(segments: Segments, end: nat)
    requires Walk(segments, {}, end)
    ensures Tiles(segments, end)
  {
    assert Visited(segments, {}) == segments;
  }

  method IsCompleteBuffer(buffer: Buffer) returns (complete: bool)
    ensures complete <==> Complete(buffer)
  {
    if !buffer.hasLastSegment {
      return false;
    }
    ghost var pieces := buffer.segments;
    var expectedOffset: nat := 0;
    var rest := buffer.segments.Keys;
    WalkStart(pieces);
    while rest != {}
      invariant Walk(pieces, rest, expectedOffset)
      decreases rest
    {
      var offset := Least(rest);
      if offset != expectedOffset {
        if Tiles(pieces, buffer.totalSize) {
          NoGap(pieces, rest, expectedOffset, offset, buffer.totalSize);
        }
        return false;
      }
      WalkStep(pieces, rest, expectedOffset);
      expectedOffset := expectedOffset + |buffer.segments[offset]|;
      rest := rest - {offset};
    }
    WalkEnd(pieces, expectedOffset);
    if Tiles(pieces, buffer.totalSize) {
      TotalUnique(pieces, buffer.totalSize, expectedOffset);
    }
    return expectedOffset == buffer.totalSize;
  }

  method JoinSegments(buffer: Buffer) returns (payload: seq<Byte>)
    requires Complete(buffer)
    ensures payload == Joined(buffer)
  {
    ghost var pieces := buffer.segments;
    payload := [];
    var rest := buffer.segments.Keys;
    WalkStart(pieces);
    while rest != {}
      invariant Walk(pieces, rest, |payload|)
      invariant forall o: nat, k: nat :: Covers(pieces, o, k) && o !in rest
                                         ==> k < |payload| && payload[k] == pieces[o][k - o]
      decreases rest
    {
      var offset := Least(rest);
      NoGap(pieces, rest, |payload|, offset, buffer.totalSize);
      WalkStep(pieces, rest, |payload|);
      payload := payload + buffer.segments[offset];
      rest := rest - {offset};
    }
    WalkEnd(pieces, |payload|);
    TotalUnique(pieces, buffer.totalSize, |payload|);
    forall k: nat | k < |payload| ensures payload[k] == Joined(buffer)[k] {
      assert Covered(pieces, k);
      var o :| Covers(pieces, o, k);
    }
  }

  // ----- One delivery, one take, one sweep -----

  predicate Accepts(m: Message) {
    m.IsTp() && |m.Data()| >= HEADER_OCTETS
  }

  /** The buffer a segment is stored into: a new or an empty one takes its fields from the segment. */
  function Opened(buffer: Option<Buffer>, m: Message, now: int): Buffer {
    if buffer.Some? && buffer.value.segments != map[] then buffer.value
    else
      Buffer(m.serviceId, m.instanceId, m.methodId, m.clientId, m.interfaceVersion, m.returnCode, m.messageType,
             0, map[], now, false)
  }

  /** A buffer after one more segment. The size of the last piece is read after the piece was moved into
      the table; C++ leaves that size unspecified, so it is `residue` of the size before the move. */
  function Stored(residue: nat -> nat, buffer: Option<Buffer>, m: Message, now: int): Buffer
    requires Accepts(m)
  {
    var header := FromNetwork(m.Data());
    var data := m.Data()[HEADER_OCTETS..];
    var base := Opened(buffer, m, now);
    var stored := base.(segments := base.segments[header.offset := data]);
    if header.moreFlag then stored
    else stored.(totalSize := header.offset + residue(|data|), hasLastSegment := true)
  }

  function Lookup(buffers: Buffers, id: U32): Option<Buffer> {
    if id in buffers then Some(buffers[id]) else None
  }

  function AfterAdd(residue: nat -> nat, buffers: Buffers, m: Message, now: int): Buffers {
    if Accepts(m) then buffers[m.RequestId() := Stored(residue, Lookup(buffers, m.RequestId()), m, now)]
    else buffers
  }

  function BaseTypeOf(messageType: Byte): Byte {
    if messageType == TP_REQUEST then REQUEST
    else if messageType == TP_REQUEST_NO_RETURN then REQUEST_NO_RETURN
    else if messageType == TP_NOTIFICATION then NOTIFICATION
    else if messageType == TP_RESPONSE then RESPONSE
    else if messageType == TP_ERROR then ERROR
    else REQUEST
  }

  function Rebuilt(b: Buffer, id: U32, payload: seq<Byte>): Message {
    Message(b.serviceId, b.instanceId, b.methodId, b.clientId, id % 0x1_0000, 0x01, b.interfaceVersion,
            BaseTypeOf(b.messageType), b.returnCode, false, Some(payload))
  }

  ghost function Taken(buffers: Buffers, id: U32): Option<Message> {
    if Ready(buffers, id) then Some(Rebuilt(buffers[id], id, Joined(buffers[id]))) else None
  }

  ghost function AfterTake(buffers: Buffers, id: U32): Buffers {
    if Ready(buffers, id) then buffers - {id} else buffers
  }

  predicate Expired(timeoutMs: int, b: Buffer, now: int) {
    Elapsed(now, b.firstSegmentTime, MILLISECOND) > timeoutMs
  }

  function AfterSweep(timeoutMs: int, buffers: Buffers, now: int): Buffers {
    map id | id in buffers && !Expired(timeoutMs, buffers[id], now) :: buffers[id]
  }

  /** A sweep keeps a buffer exactly when less than one millisecond more than the timeout has passed since
      its first segment, and keeps it as it is. */
  lemma SweepExactly(timeoutMs: nat, buffers: Buffers, now: int, id: U32)
    ensures id in AfterSweep(timeoutMs, buffers, now)
            <==> id in buffers && now - buffers[id].firstSegmentTime < 1_000_000 * (timeoutMs + 1)
    ensures id in AfterSweep(timeoutMs, buffers, now) ==> AfterSweep(timeoutMs, buffers, now)[id] == buffers[id]
  {
    if id in buffers {
      ElapsedExceeds(now, buffers[id].firstSegmentTime, MILLISECOND, timeoutMs);
    }
  }

  /** Everything but a TP message with at least a header leaves all buffers alone. */
  lemma RefusedExactly(residue: nat -> nat, buffers: Buffers, d: Message, now: int)
    ensures d.IsTp() && |d.Data()| >= 4 <==> Accepts(d)
    ensures !d.IsTp() || |d.Data()| < 4 ==> AfterAdd(residue, buffers, d, now) == buffers
  {
  }

  lemma OnePieceTiles(data: seq<Byte>)
    ensures Tiles(map[0 := data], |data|)
  {
    forall k: nat | k < |data| ensures Covered(map[0 := data], k) {
      assert Covers(map[0 := data], 0, k);
    }
  }

  /** A single last segment at offset 0, with or without data, completes at once, as a message with the
      fields of that segment and the base type of its TP type. */
  lemma SingleSegment(residue: nat -> nat, buffers: Buffers, d: Message, now: int)
    requires d.IsTp() && |d.Data()| >= 4 && d.RequestId() !in buffers
    requires FromNetwork(d.Data()).offset == 0 && !FromNetwork(d.Data()).moreFlag
    requires residue(|d.Data()| - 4) == |d.Data()| - 4
    ensures var after := AfterAdd(residue, buffers, d, now);
            && Taken(after, d.RequestId())
               == Some(Message(d.serviceId, d.instanceId, d.methodId, d.clientId, d.sessionId, 1, d.interfaceVersion,
                               d.messageType - 0x20, d.returnCode, false, Some(d.Data()[4..])))
            && AfterTake(after, d.RequestId()) == buffers
  {
    var id, data := d.RequestId(), d.Data()[HEADER_OCTETS..];
    var after := AfterAdd(residue, buffers, d, now);
    RequestIdParts(d);
    OnePieceTiles(data);
    assert after[id].segments == map[0 := data];
    assert Joined(after[id]) == data by {
      assert forall k: nat :: k < |data| ==> Covers(after[id].segments, 0, k);
    }
  }

  /** Later segments change what was received of a message, and nothing else about it. */
  lemma FirstSegmentDecides(residue: nat -> nat, b: Buffer, d: Message, now: int)
    requires Accepts(d) && b.segments != map[]
    ensures var t := Stored(residue, Some(b), d, now);
            t == b.(segments := t.segments, totalSize := t.totalSize, hasLastSegment := t.hasLastSegment)
  {
  }

  /** A buffer as the table creates it. */
  const BLANK := Buffer(0, 0, 0, 0, 0, 0, 0, 0, map[], 0, false)

  class TpReassembler {
    const timeoutMs: int
    const residue: nat -> nat
    var buffers: Buffers

    constructor (timeoutMs: int, residue: nat -> nat)
      ensures this.timeoutMs == timeoutMs && this.residue == residue && buffers == map[]
    {
      this.timeoutMs := timeoutMs;
      this.residue := residue;
      buffers := map[];
    }

    method IsComplete(requestId: U32) returns (complete: bool)
      ensures complete <==> Ready(buffers, requestId)
    {
      if requestId !in buffers {
        return false;
      }
      complete := IsCompleteBuffer(buffers[requestId]);
    }

    method AddSegment(segment: Message, now: int) returns (complete: bool)
      modifies this
      ensures buffers == AfterAdd(residue, old(buffers), segment, now)
      ensures complete <==> Accepts(segment) && Ready(buffers, segment.RequestId())
    {
      if !segment.IsTp() {
        return false;
      }
      var payload := segment.Data();
      if |payload| < HEADER_OCTETS {
        return false;
      }

      var tpHeader := FromNetwork(payload);
      var requestId := segment.RequestId();
      var offset := tpHeader.offset;
      var isLast := !tpHeader.moreFlag;

      var buffer := if requestId in buffers then buffers[requestId] else BLANK;
      if buffer.segments == map[] {
        buffer := buffer.(serviceId := segment.serviceId, instanceId := segment.instanceId,
          methodId := segment.methodId, clientId := segment.clientId,
          interfaceVersion := segment.interfaceVersion, returnCode := segment.returnCode,
          messageType := segment.messageType, totalSize := 0, firstSegmentTime := now, hasLastSegment := false);
      }
      var segmentData := payload[HEADER_OCTETS..];
      buffer := buffer.(segments := buffer.segments[offset := segmentData]);
      if isLast {
        buffer := buffer.(totalSize := offset + residue(|segmentData|), hasLastSegment := true);
      }
      assert buffer == Stored(residue, Lookup(buffers, requestId), segment, now);
      buffers := buffers[requestId := buffer];
      complete := IsComplete(requestId);
    }

    method Reassemble(requestId: U32) returns (message: Option<Message>)
      modifies this
      ensures message == Taken(old(buffers), requestId)
      ensures buffers == AfterTake(old(buffers), requestId)
    {
      if requestId !in buffers {
        return None;
      }
      var complete := IsComplete(requestId);
      if !complete {
        return None;
      }
      var buffer := buffers[requestId];
      var fullPayload := JoinSegments(buffer);
      var original := FRESH.(serviceId := buffer.serviceId, instanceId := buffer.instanceId,
        methodId := buffer.methodId, clientId := buffer.clientId, sessionId := requestId % 0x1_0000,
        protocolVersion := 0x01, interfaceVersion := buffer.interfaceVersion,
        messageType := BaseTypeOf(buffer.messageType), returnCode := buffer.returnCode,
        payload := Some(fullPayload));
      message := Some(original);
      buffers := buffers - {requestId};
    }

    method CleanupExpired(now: int)
      modifies this
      ensures buffers == AfterSweep(timeoutMs, old(buffers), now)
    {
      var rest: set<nat> := set id | id in buffers;
      while rest != {}
        invariant rest <= old(buffers).Keys
        invariant buffers == map id | id in old(buffers)
                                      && (id in rest || !Expired(timeoutMs, old(buffers)[id], now)) :: old(buffers)[id]
        decreases rest
      {
        var id := Least(rest);
        if Expired(timeoutMs, buffers[id], now) {
          buffers := buffers - {id};
        }
        rest := rest - {id};
      }
    }
  }
}
