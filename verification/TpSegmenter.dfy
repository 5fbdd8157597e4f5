/** Cutting one large message into offset-tagged TP segments. */
module TpSegmenter {
  import opened Arithmetic
  import opened Bytes
  import opened Messages
  import opened TpTypes

  predicate NeedsSegmentation(payloadSize: nat, maxSegmentSize: nat) {
    payloadSize > maxSegmentSize
  }

  function SegmentCount(payloadSize: nat, maxSegmentSize: nat): nat
    requires maxSegmentSize > 0
  {
    if payloadSize == 0 then 1
    else (payloadSize + maxSegmentSize - 1) / maxSegmentSize
  }

  /** The TP type a base type travels as; other types are not segmented. */
  function TpTypeOf(messageType: Byte): Option<Byte> {
    if messageType == REQUEST then Some(TP_REQUEST)
    else if messageType == REQUEST_NO_RETURN then Some(TP_REQUEST_NO_RETURN)
    else if messageType == NOTIFICATION then Some(TP_NOTIFICATION)
    else if messageType == RESPONSE then Some(TP_RESPONSE)
    else if messageType == ERROR then Some(TP_ERROR)
    else None
  }

  /** The types that are segmented, and the TP types they travel as. */
  lemma TpTypeExactly(m: Message)
    ensures TpTypeOf(m.messageType).Some? <==> m.messageType in {0x00, 0x01, 0x02, 0x80, 0x81}
    ensures m.IsBase() <==> m.messageType in {0x00, 0x01, 0x02, 0x80, 0x81}
    ensures m.IsTp() <==> m.messageType in {0x20, 0x21, 0x22, 0xA0, 0xA1}
    ensures TpTypeOf(m.messageType).Some? ==> TpTypeOf(m.messageType).value == m.messageType + 0x20
  {
  }

  /** Where segment `i` starts in the payload. */
  function Start(max: nat, i: nat): nat {
    if i == 0 then 0 else Start(max, i - 1) + max
  }

  lemma {:induction false} StartIsProduct(max: nat, i: nat)
    ensures Start(max, i) == i * max
  {
    if i > 0 {
      StartIsProduct(max, i - 1);
      assert (i - 1) * max == i * max - max;
    }
  }

  /** How many pieces of at most `max` octets a payload of `n` octets takes, by taking them off one by one. */
  function PieceCount(n: nat, max: nat): (c: nat)
    requires max > 0
    ensures c > 0
  {
    if n <= max then 1 else 1 + PieceCount(n - max, max)
  }

  function Count(m: Message, max: nat): (c: nat)
    requires max > 0
    ensures c > 0
  {
    PieceCount(|m.Data()|, max)
  }

  /** The messages this module cuts into more than one segment. */
  predicate Segmentable(m: Message, max: nat) {
    max > 0 && |m.Data()| > max && m.IsBase()
  }

  lemma {:induction false} CountBounds(n: nat, max: nat)
    requires 0 < max && 0 < n
    ensures Start(max, PieceCount(n, max) - 1) < n <= Start(max, PieceCount(n, max))
    decreases n
  {
    if n > max {
      CountBounds(n - max, max);
      var c := PieceCount(n - max, max);
      StartIsProduct(max, c - 1);
      StartIsProduct(max, c);
      StartIsProduct(max, c + 1);
      assert (c - 1) * max + max == c * max && c * max + max == (c + 1) * max;
    } else {
      assert Start(max, 1) == Start(max, 0) + max;
    }
  }

  /** The segment count is the rounded-up quotient. */
  lemma {:induction false} CeilingCounts(n: nat, max: nat)
    requires 0 < max
    ensures SegmentCount(n, max) == PieceCount(n, max)
    decreases n
  {
    if n > 0 {
      QuotientStep(n - 1, max);
      if n > max {
        CeilingCounts(n - max, max);
      }
    }
  }

  lemma {:induction false} StartMonotone(max: nat, i: nat, j: nat)
    requires i <= j
    ensures Start(max, i) <= Start(max, j)
    ensures i < j ==> Start(max, i) + max <= Start(max, j)
    decreases j
  {
    if i < j {
      StartMonotone(max, i, j - 1);
    }
  }

  /** Two different segments start at least a full segment apart. */
  lemma StartsApart(max: nat, i: nat, j: nat)
    ensures i == j || Start(max, i) + max <= Start(max, j) || Start(max, j) + max <= Start(max, i)
  {
    if i < j {
      StartMonotone(max, i, j);
    } else {
      StartMonotone(max, j, i);
    }
  }

  /** Segment `i` lies inside the payload; it is full unless it is the last, and the last is not empty. */
  lemma PieceBounds(m: Message, max: nat, i: nat)
    requires Segmentable(m, max) && i < Count(m, max)
    ensures Start(max, i) < |m.Data()|
    ensures i + 1 < Count(m, max) ==> Start(max, i) + max == Start(max, i + 1) < |m.Data()|
    ensures i + 1 == Count(m, max) ==> |m.Data()| <= Start(max, i) + max
    ensures Count(m, max) > 1
  {
    var n, c := |m.Data()|, Count(m, max);
    CountBounds(n, max);
    StartMonotone(max, i, c - 1);
    assert Start(max, i + 1) == Start(max, i) + max;
    if i + 1 < c {
      StartMonotone(max, i + 1, c - 1);
    }
    assert Start(max, 1) == Start(max, 0) + max;
  }

  function Piece(m: Message, max: nat, i: nat): (d: seq<Byte>)
    requires Segmentable(m, max) && i < Count(m, max)
    ensures |d| == Min(max, |m.Data()| - Start(max, i))
    ensures 0 < |d| <= max
  {
    PieceBounds(m, max, i);
    m.Data()[Start(max, i)..Min(Start(max, i) + max, |m.Data()|)]
  }

  /** Segment `i`: the fields of the message, its TP type, and a payload of header and data. */
  function SegmentAt(m: Message, max: nat, i: nat): Message
    requires Segmentable(m, max) && i < Count(m, max)
  {
    m.(messageType := TpTypeOf(m.messageType).value,
       reliable := false,
       payload := Some(MakeHeader(Start(max, i), i + 1 < Count(m, max)).ToNetwork() + Piece(m, max, i)))
  }

  /** A message that travels whole. */
  function Whole(m: Message): Message {
    m.(reliable := false, payload := if m.Data() == [] then None else m.payload)
  }

  /** A message that travels whole looks the same on the wire. */
  lemma WholeSame(m: Message)
    ensures Whole(m).Wire() == m.Wire()
  {
  }

  /** One turn of the loop: the piece it takes and where the next one starts. */
  lemma NextPiece(m: Message, max: nat, i: nat, offset: nat, size: nat)
    requires Segmentable(m, max) && i < Count(m, max)
    requires offset == Min(Start(max, i), |m.Data()|) && size == Min(max, |m.Data()| - offset)
    ensures offset == Start(max, i) && offset + size == Min(Start(max, i + 1), |m.Data()|)
    ensures offset + size >= |m.Data()| <==> i + 1 == Count(m, max)
    ensures m.Data()[offset..offset + size] == Piece(m, max, i)
  {
    PieceBounds(m, max, i);
    assert Start(max, i + 1) == Start(max, i) + max;
  }

  method Segment(original: Message, maxSegmentSize: nat) returns (segments: seq<Message>)
    requires maxSegmentSize > 0
    ensures !NeedsSegmentation(|original.Data()|, maxSegmentSize) ==> segments == [Whole(original)]
    ensures NeedsSegmentation(|original.Data()|, maxSegmentSize) && !original.IsBase() ==> segments == []
    ensures Segmentable(original, maxSegmentSize)
            ==> && |segments| == Count(original, maxSegmentSize)
                && forall i :: 0 <= i < |segments| ==> segments[i] == SegmentAt(original, maxSegmentSize, i)
  {
    var payload := original.Data();
    if payload == [] {
      return [original.(reliable := false, payload := None)];
    }
    var payloadSize := |payload|;
    if !NeedsSegmentation(payloadSize, maxSegmentSize) {
      return [original.(reliable := false, payload := Some(payload))];
    }
    var tpType := TpTypeOf(original.messageType);
    if tpType == None {
      return [];
    }

    var offset := 0;
    var segmentCount := SegmentCount(payloadSize, maxSegmentSize);
    CeilingCounts(payloadSize, maxSegmentSize);
    segments := [];
    for i := 0 to segmentCount
      invariant offset == Min(Start(maxSegmentSize, i), payloadSize)
      invariant |segments| == i
      invariant forall j :: 0 <= j < i ==> segments[j] == SegmentAt(original, maxSegmentSize, j)
    {
      var segmentPayloadSize := Min(maxSegmentSize, payloadSize - offset);
      NextPiece(original, maxSegmentSize, i, offset, segmentPayloadSize);
      var isLast := offset + segmentPayloadSize >= payloadSize;
      var segment := original.(messageType := tpType.value, reliable := false);
      var segmentPayload := MakeHeader(offset, !isLast).ToNetwork();
      segmentPayload := segmentPayload + payload[offset..offset + segmentPayloadSize];
      segment := segment.(payload := Some(segmentPayload));
      assert segment == SegmentAt(original, maxSegmentSize, i);
      segments := segments + [segment];
      offset := offset + segmentPayloadSize;
    }
  }

  /** The data of the first `k` segments, in order. */
  function Gathered(m: Message, max: nat, k: nat): seq<Byte>
    requires Segmentable(m, max) && k <= Count(m, max)
  {
    if k == 0 then [] else Gathered(m, max, k - 1) + Piece(m, max, k - 1)
  }

  lemma PrefixStep(d: seq<Byte>, s: nat, t: nat)
    requires s <= t <= |d|
    ensures d[..s] + d[s..t] == d[..t]
  {
  }

  lemma {:induction false} GatheredIsPrefix(m: Message, max: nat, k: nat)
    requires Segmentable(m, max) && k <= Count(m, max)
    ensures Start(max, k) <= |m.Data()| ==> Gathered(m, max, k) == m.Data()[..Start(max, k)]
    ensures Start(max, k) >= |m.Data()| ==> Gathered(m, max, k) == m.Data()
  {
    var d := m.Data();
    if k > 0 {
      GatheredIsPrefix(m, max, k - 1);
      PieceBounds(m, max, k - 1);
      assert Start(max, k) == Start(max, k - 1) + max;
      var s := Start(max, k - 1);
      PrefixStep(d, s, Min(s + max, |d|));
    }
  }

  /** What a receiver reads off segment `i`. */
  lemma SegmentParts(m: Message, max: nat, i: nat)
    requires Segmentable(m, max) && i < Count(m, max)
    ensures var s := SegmentAt(m, max, i);
            && |s.Data()| >= HEADER_OCTETS
            && FromNetwork(s.Data()) == MakeHeader(Start(max, i), i + 1 < Count(m, max))
            && s.Data()[HEADER_OCTETS..] == Piece(m, max, i)
            && |s.Data()| == HEADER_OCTETS + |Piece(m, max, i)|
  {
    FromToNetwork(MakeHeader(Start(max, i), i + 1 < Count(m, max)), Piece(m, max, i));
  }

  lemma PartitionPiece(m: Message, max: nat, i: nat)
    requires Segmentable(m, max) && i < Count(m, max)
    ensures var s := SegmentAt(m, max, i); var h := FromNetwork(s.Data());
            && s == m.(messageType := m.messageType + 0x20, reliable := false, payload := s.payload)
            && s.IsTp() && s.RequestId() == m.RequestId()
            && s.Data()[HEADER_OCTETS..] == Piece(m, max, i)
            && h.offset == i * max % OFFSET_LIMIT
            && (h.moreFlag <==> i < Count(m, max) - 1)
            && (i < Count(m, max) - 1 ==> |Piece(m, max, i)| == max)
            && 0 < |Piece(m, max, i)|
            && |Encode(s)| <= max + 20
  {
    SegmentParts(m, max, i);
    PieceBounds(m, max, i);
    StartIsProduct(max, i);
    EncodedHeader(SegmentAt(m, max, i));
  }

  /** The segments partition the payload: as many as the ceiling of n/max, all but the last full, the
      last not empty, only the last without the more flag, headers telling the true start as long as it
      fits 24 bits, and the data concatenating to the payload. No serialized segment exceeds the limit
      plus 20 octets. */
  lemma SegmenterPartition(m: Message, max: nat)
    requires Segmentable(m, max)
    ensures var c := Count(m, max); (c - 1) * max < |m.Data()| <= c * max
    ensures Gathered(m, max, Count(m, max)) == m.Data()
    ensures forall i :: 0 <= i < Count(m, max) ==>
                          var s := SegmentAt(m, max, i); var h := FromNetwork(s.Data());
                          && s == m.(messageType := m.messageType + 0x20, reliable := false, payload := s.payload)
                          && s.IsTp() && s.RequestId() == m.RequestId()
                          && s.Data()[HEADER_OCTETS..] == Piece(m, max, i)
                          && h.offset == i * max % OFFSET_LIMIT
                          && (h.moreFlag <==> i < Count(m, max) - 1)
                          && (i < Count(m, max) - 1 ==> |Piece(m, max, i)| == max)
                          && 0 < |Piece(m, max, i)|
                          && |Encode(s)| <= max + 20
  {
    var c := Count(m, max);
    CountBounds(|m.Data()|, max);
    GatheredIsPrefix(m, max, c);
    StartIsProduct(max, c);
    StartIsProduct(max, c - 1);
    forall i | 0 <= i < c
      ensures var s := SegmentAt(m, max, i); var h := FromNetwork(s.Data());
              && s == m.(messageType := m.messageType + 0x20, reliable := false, payload := s.payload)
              && s.IsTp() && s.RequestId() == m.RequestId()
              && s.Data()[HEADER_OCTETS..] == Piece(m, max, i)
              && h.offset == i * max % OFFSET_LIMIT
              && (h.moreFlag <==> i < Count(m, max) - 1)
              && (i < Count(m, max) - 1 ==> |Piece(m, max, i)| == max)
              && 0 < |Piece(m, max, i)|
              && |Encode(s)| <= max + 20
    {
      PartitionPiece(m, max, i);
    }
  }
}
