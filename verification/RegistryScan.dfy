/** Looking up a service in the shared registry: a scan over records of variable length. */
module RegistryScan {
  import opened Bytes

  /** The fixed part of a record. */
  const RECORD_HEAD := 18

  /** How much of it the scan makes sure of. */
  const CHECKED_HEAD := 16

  datatype RegistryEndpoint = RegistryEndpoint(address: seq<Byte>, port: U16, protocol: Byte)
  {
    /** The octets it takes: the length of the address, the address, the port and the protocol. */
    function Size(): nat {
      1 + |address| + 3
    }

    /** The length of the address fits its octet. */
    predicate Valid() {
      |address| < 0x100
    }
  }

  ghost predicate ValidEndpoints(es: seq<RegistryEndpoint>) {
    forall k :: 0 <= k < |es| ==> es[k].Valid()
  }

  datatype Record = Record(
    serviceId: U16,
    instanceId: U16,
    majorVersion: Byte,
    minorVersion: U32,
    ttl: U32,
    isLocal: Byte,
    endpoints: seq<RegistryEndpoint>)
  {
    ghost predicate Valid() {
      |endpoints| < 0x1_0000_0000 && ValidEndpoints(endpoints)
    }

    predicate Is(service: U16, instance: U16) {
      serviceId == service && instanceId == instance
    }
  }

  // ----- The layout -----

  function EncodeEndpoint(e: RegistryEndpoint): seq<Byte>
    requires e.Valid()
  {
    [|e.address|] + (e.address + (Big(e.port, 2) + [e.protocol]))
  }

  ghost function EncodeEndpoints(es: seq<RegistryEndpoint>): seq<Byte>
    requires ValidEndpoints(es)
  {
    if es == [] then [] else EncodeEndpoint(es[0]) + EncodeEndpoints(es[1..])
  }

  ghost function EncodeHead(r: Record): (s: seq<Byte>)
    requires r.Valid()
    ensures |s| == RECORD_HEAD
  {
    Big(r.serviceId, 2) + Big(r.instanceId, 2) + [r.majorVersion] + Big(r.minorVersion, 4) + Big(r.ttl, 4)
    + [r.isLocal] + Big(|r.endpoints|, 4)
  }

  ghost predicate ValidRecords(rs: seq<Record>) {
    forall k :: 0 <= k < |rs| ==> rs[k].Valid()
  }

  ghost function EncodeRecords(rs: seq<Record>): seq<Byte>
    requires ValidRecords(rs)
  {
    if rs == [] then [] else EncodeHead(rs[0]) + (EncodeEndpoints(rs[0].endpoints) + EncodeRecords(rs[1..]))
  }

  function EndpointsSize(es: seq<RegistryEndpoint>): nat {
    if es == [] then 0 else es[0].Size() + EndpointsSize(es[1..])
  }

  function RecordsSize(rs: seq<Record>): nat {
    if rs == [] then 0 else RECORD_HEAD + EndpointsSize(rs[0].endpoints) + RecordsSize(rs[1..])
  }

  // ----- What the scan is for -----

  /** The endpoints of the first record of the service, or none. */
  function FirstMatch(rs: seq<Record>, service: U16, instance: U16): seq<RegistryEndpoint> {
    if rs == [] then []
    else if rs[0].Is(service, instance) then rs[0].endpoints
    else FirstMatch(rs[1..], service, instance)
  }

  /** `FirstMatch` by position: the endpoints of a matching record before which none matches. */
  lemma {:induction false} FirstMatchMeaning(rs: seq<Record>, service: U16, instance: U16, k: nat)
    requires k < |rs| && rs[k].serviceId == service && rs[k].instanceId == instance
    requires forall i :: 0 <= i < k ==> rs[i].serviceId != service || rs[i].instanceId != instance
    ensures FirstMatch(rs, service, instance) == rs[k].endpoints
  {
    if k > 0 {
      FirstMatchMeaning(rs[1..], service, instance, k - 1);
    }
  }

  /** Without a match there are none. */
  lemma {:induction false} NoMatch(rs: seq<Record>, service: U16, instance: U16)
    requires forall i :: 0 <= i < |rs| ==> rs[i].serviceId != service || rs[i].instanceId != instance
    ensures FirstMatch(rs, service, instance) == []
  {
    if rs != [] {
      NoMatch(rs[1..], service, instance);
    }
  }

  /** How many endpoints of a list lie wholly within the first `room` octets. */
  function Fitting(es: seq<RegistryEndpoint>, room: int): (n: nat)
    ensures n <= |es|
  {
    if es == [] || room < es[0].Size() then 0 else 1 + Fitting(es[1..], room - es[0].Size())
  }

  /** `FirstMatch` in an area of `room` octets that may be too small for the records: a record is looked at
      if at least 16 octets of it are in the area, and its endpoints are returned as far as they fit. */
  function FirstMatchWithin(rs: seq<Record>, room: int, service: U16, instance: U16): seq<RegistryEndpoint> {
    if rs == [] || room < CHECKED_HEAD then []
    else if rs[0].Is(service, instance) then
      rs[0].endpoints[..Fitting(rs[0].endpoints, room - RECORD_HEAD)]
    else FirstMatchWithin(rs[1..], room - RECORD_HEAD - EndpointsSize(rs[0].endpoints), service, instance)
  }

  lemma {:induction false} AllFit(es: seq<RegistryEndpoint>, room: int)
    requires EndpointsSize(es) <= room
    ensures Fitting(es, room) == |es|
  {
    if es != [] {
      AllFit(es[1..], room - es[0].Size());
    }
  }

  /** In an area that holds the records nothing is lost. */
  lemma {:induction false} WithinWhole(rs: seq<Record>, room: int, service: U16, instance: U16)
    requires RecordsSize(rs) <= room
    ensures FirstMatchWithin(rs, room, service, instance) == FirstMatch(rs, service, instance)
  {
    if rs != [] {
      AllFit(rs[0].endpoints, room - RECORD_HEAD);
      WithinWhole(rs[1..], room - RECORD_HEAD - EndpointsSize(rs[0].endpoints), service, instance);
    }
  }

  // ----- Records in memory -----

  /** Two and four octets in network order, as numbers. */
  function Word16(memory: seq<Byte>, at: nat): U16
    requires at + 2 <= |memory|
  {
    var high: int, low: int := memory[at], memory[at + 1];
    0x100 * high + low
  }

  function Word32(memory: seq<Byte>, at: nat): U32
    requires at + 4 <= |memory|
  {
    var high: int, low: int := Word16(memory, at), Word16(memory, at + 2);
    0x1_0000 * high + low
  }

  lemma JoinPair(s: seq<Byte>)
    requires |s| == 2
    ensures Word16(s, 0) == Join(s)
  {
    assert s[..1][..0] == [];
    assert Join(s[..1]) == s[0];
  }

  lemma WordsJoin(s: seq<Byte>)
    ensures |s| == 2 ==> Word16(s, 0) == Join(s)
    ensures |s| == 4 ==> Word32(s, 0) == Join(s)
  {
    if |s| == 2 {
      JoinPair(s);
    } else if |s| == 4 {
      JoinPair(s[..2]);
      assert s[..3][..2] == s[..2];
      assert Join(s[..3]) == Join(s[..2]) * 0x100 + s[2];
    }
  }

  /** The endpoints stand in memory at the offset. */
  ghost predicate EndpointsAt(memory: seq<Byte>, offset: nat, es: seq<RegistryEndpoint>)
    decreases es
  {
    es == []
    || var e, port := es[0], offset + 1 + |es[0].address|;
       && port + 3 <= |memory| && memory[offset] == |e.address| && memory[offset + 1..port] == e.address
       && Word16(memory, port) == e.port && memory[port + 2] == e.protocol
       && EndpointsAt(memory, port + 3, es[1..])
  }

  /** The record stands in memory at the offset, as far as the scan looks at it. */
  ghost predicate RecordAt(memory: seq<Byte>, offset: nat, r: Record) {
    && offset + RECORD_HEAD <= |memory|
    && Word16(memory, offset) == r.serviceId && Word16(memory, offset + 2) == r.instanceId
    && Word32(memory, offset + 14) == |r.endpoints| && EndpointsAt(memory, offset + RECORD_HEAD, r.endpoints)
  }

  ghost predicate RecordsAt(memory: seq<Byte>, offset: nat, rs: seq<Record>)
    decreases rs
  {
    rs == [] || (RecordAt(memory, offset, rs[0])
                 && RecordsAt(memory, offset + RECORD_HEAD + EndpointsSize(rs[0].endpoints), rs[1..]))
  }

  lemma EndpointStands(memory: seq<Byte>, offset: nat, e: RegistryEndpoint)
    requires e.Valid() && OctetsAt(memory, offset, EncodeEndpoint(e))
    ensures var port := offset + 1 + |e.address|;
            && port + 3 <= |memory| && memory[offset] == |e.address| && memory[offset + 1..port] == e.address
            && Word16(memory, port) == e.port && memory[port + 2] == e.protocol
  {
    var word := Big(e.port, 2);
    var port := offset + 1 + |e.address|;
    OctetsSplit(memory, offset, [|e.address|], e.address + (word + [e.protocol]));
    OctetsSplit(memory, offset + 1, e.address, word + [e.protocol]);
    OctetsSplit(memory, port, word, [e.protocol]);
    OctetsSlice(memory, offset + 1, e.address);
    Limits();
    JoinBig(e.port, 2);
    WordsJoin(word);
    assert word[0] == memory[port] && word[1] == memory[port + 1];
    assert [|e.address| as int][0] == memory[offset];
    assert [e.protocol][0] == memory[port + 2];
  }

  lemma {:induction false} EndpointsStand(memory: seq<Byte>, offset: nat, es: seq<RegistryEndpoint>)
    requires ValidEndpoints(es) && OctetsAt(memory, offset, EncodeEndpoints(es))
    ensures EndpointsAt(memory, offset, es) && |EncodeEndpoints(es)| == EndpointsSize(es)
    decreases es
  {
    if es != [] {
      OctetsSplit(memory, offset, EncodeEndpoint(es[0]), EncodeEndpoints(es[1..]));
      EndpointStands(memory, offset, es[0]);
      EndpointsStand(memory, offset + es[0].Size(), es[1..]);
    }
  }

  lemma HeadWords(head: seq<Byte>, r: Record)
    requires r.Valid() && head == EncodeHead(r)
    ensures Join(head[0..2]) == r.serviceId && Join(head[2..4]) == r.instanceId && Join(head[14..18]) == |r.endpoints|
  {
    Limits();
    JoinBig(r.serviceId, 2);
    JoinBig(r.instanceId, 2);
    JoinBig(|r.endpoints|, 4);
    assert head[0..2] == Big(r.serviceId, 2);
    assert head[2..4] == Big(r.instanceId, 2);
    assert head[14..18] == Big(|r.endpoints|, 4);
  }

  lemma HeadStands(memory: seq<Byte>, offset: nat, r: Record, head: seq<Byte>)
    requires r.Valid() && head == EncodeHead(r) && OctetsAt(memory, offset, head)
    ensures offset + RECORD_HEAD <= |memory|
    ensures Word16(memory, offset) == r.serviceId && Word16(memory, offset + 2) == r.instanceId
    ensures Word32(memory, offset + 14) == |r.endpoints|
  {
    HeadWords(head, r);
    WordsJoin(head[0..2]);
    WordsJoin(head[2..4]);
    WordsJoin(head[14..18]);
    assert forall k :: 0 <= k < RECORD_HEAD ==> memory[offset + k] == head[k];
  }

  lemma RecordStands(memory: seq<Byte>, offset: nat, r: Record, head: seq<Byte>, rest: seq<Byte>)
    requires r.Valid() && head == EncodeHead(r)
    requires OctetsAt(memory, offset, head + (EncodeEndpoints(r.endpoints) + rest))
    ensures RecordAt(memory, offset, r)
    ensures OctetsAt(memory, offset + RECORD_HEAD + EndpointsSize(r.endpoints), rest)
  {
    var octets := EncodeEndpoints(r.endpoints);
    OctetsSplit(memory, offset, head, octets + rest);
    OctetsSplit(memory, offset + RECORD_HEAD, octets, rest);
    HeadStands(memory, offset, r, head);
    EndpointsStand(memory, offset + RECORD_HEAD, r.endpoints);
  }

  /** Encoded records stand where their octets stand. */
  lemma {:induction false} RecordsStand(memory: seq<Byte>, offset: nat, rs: seq<Record>)
    requires ValidRecords(rs) && OctetsAt(memory, offset, EncodeRecords(rs))
    ensures RecordsAt(memory, offset, rs)
    decreases rs
  {
    if rs != [] {
      RecordStands(memory, offset, rs[0], EncodeHead(rs[0]), EncodeRecords(rs[1..]));
      RecordsStand(memory, offset + RECORD_HEAD + EndpointsSize(rs[0].endpoints), rs[1..]);
    }
  }

  // ----- The scan -----

  /** The endpoints read, and where reading stopped. */
  datatype ReadResult = ReadResult(endpoints: seq<RegistryEndpoint>, end: nat)

  function EndpointsRead(memory: seq<Byte>, size: nat, offset: nat, n: nat): ReadResult
    requires size <= |memory|
    decreases n
  {
    if n == 0 || offset >= size then ReadResult([], offset)
    else
      var port := offset + 1 + memory[offset];
      if port + 3 > size then ReadResult([], offset + 1)
      else
        var e := RegistryEndpoint(memory[offset + 1..port], Word16(memory, port), memory[port + 2]);
        var more := EndpointsRead(memory, size, port + 3, n - 1);
        ReadResult([e] + more.endpoints, more.end)
  }

  function EndpointsSkipped(memory: seq<Byte>, size: nat, offset: nat, n: nat): nat
    requires size <= |memory|
    decreases n
  {
    if n == 0 || offset >= size then offset
    else EndpointsSkipped(memory, size, offset + 1 + memory[offset] + 3, n - 1)
  }

  predicate Hits(memory: seq<Byte>, offset: nat, service: U16, instance: U16)
    requires offset + RECORD_HEAD <= |memory|
  {
    Word16(memory, offset) == service && Word16(memory, offset + 2) == instance
  }

  /** Where the scan goes on after a record that does not match. */
  function Passed(memory: seq<Byte>, size: nat, offset: nat): nat
    requires size <= |memory| && offset + RECORD_HEAD <= |memory|
  {
    EndpointsSkipped(memory, size, offset + RECORD_HEAD, Word32(memory, offset + 14))
  }

  /** `memory` starts at the registry's area of `size` octets, and every head that the scan reads, whole,
      lies in it. */
  predicate Mapped(memory: seq<Byte>, size: nat, offset: nat, count: nat, service: U16, instance: U16)
    decreases count
  {
    && size <= |memory|
    && (count == 0 || offset + CHECKED_HEAD > size
        || (offset + RECORD_HEAD <= |memory|
            && (Hits(memory, offset, service, instance)
                || Mapped(memory, size, Passed(memory, size, offset), count - 1, service, instance))))
  }

  /** The scan reads behind the area. */
  predicate Overruns(memory: seq<Byte>, size: nat, offset: nat, count: nat, service: U16, instance: U16)
    requires size <= |memory|
    decreases count
  {
    && count > 0 && offset + CHECKED_HEAD <= size
    && (offset + RECORD_HEAD > size
        || (!Hits(memory, offset, service, instance)
            && Overruns(memory, size, Passed(memory, size, offset), count - 1, service, instance)))
  }

  function Scan(memory: seq<Byte>, size: nat, offset: nat, count: nat, service: U16, instance: U16):
      seq<RegistryEndpoint>
    requires Mapped(memory, size, offset, count, service, instance)
    decreases count
  {
    if count == 0 || offset + CHECKED_HEAD > size then []
    else if Hits(memory, offset, service, instance) then
      EndpointsRead(memory, size, offset + RECORD_HEAD, Word32(memory, offset + 14)).endpoints
    else
      Scan(memory, size, Passed(memory, size, offset), count - 1, service, instance)
  }

  /** The read branch, on any octets. */
  method ReadEndpoints(memory: seq<Byte>, size: nat, start: nat, epCount: U32)
    returns (result: seq<RegistryEndpoint>, offset: nat)
    requires size <= |memory|
    ensures ReadResult(result, offset) == EndpointsRead(memory, size, start, epCount)
  {
    result := [];
    offset := start;
    ghost var whole := EndpointsRead(memory, size, start, epCount);
    ghost var more := whole;
    var j := 0;
    while j < epCount && offset < size
      invariant 0 <= j <= epCount
      invariant more == EndpointsRead(memory, size, offset, epCount - j)
      invariant whole == ReadResult(result + more.endpoints, more.end)
    {
      if offset + 1 > size { break; }
      var addrLen := memory[offset];
      offset := offset + 1;
      if offset + addrLen + 3 > size { return; }
      var address := memory[offset..offset + addrLen];
      offset := offset + addrLen;
      var port := Word16(memory, offset);
      offset := offset + 2;
      var protocol := memory[offset];
      offset := offset + 1;
      var e := RegistryEndpoint(address, port, protocol);
      j := j + 1;
      ghost var rest := EndpointsRead(memory, size, offset, epCount - j);
      assert more == ReadResult([e] + rest.endpoints, rest.end);
      Assoc(result, [e], rest.endpoints);
      result, more := result + [e], rest;
    }
  }

  /** The skip branch, on any octets. */
  method SkipEndpoints(memory: seq<Byte>, size: nat, start: nat, epCount: U32) returns (offset: nat)
    requires size <= |memory|
    ensures offset == EndpointsSkipped(memory, size, start, epCount)
  {
    offset := start;
    var j := 0;
    while j < epCount && offset < size
      invariant 0 <= j <= epCount
      invariant EndpointsSkipped(memory, size, offset, epCount - j) == EndpointsSkipped(memory, size, start, epCount)
    {
      if offset + 1 > size { break; }
      var addrLen := memory[offset];
      offset := offset + 1 + addrLen + 3;
      j := j + 1;
    }
  }

  /** The scan, on any octets. */
  method LookupServiceEndpoints(memory: seq<Byte>, size: nat, count: U32, service: U16, instance: U16)
    returns (result: seq<RegistryEndpoint>)
    requires Mapped(memory, size, 0, count, service, instance)
    ensures result == Scan(memory, size, 0, count, service, instance)
  {
    var offset := 0;
    var i := 0;
    while i < count && offset < size
      invariant 0 <= i <= count && 0 <= offset
      invariant Mapped(memory, size, offset, count - i, service, instance)
      invariant Scan(memory, size, offset, count - i, service, instance)
                == Scan(memory, size, 0, count, service, instance)
    {
      if offset + CHECKED_HEAD > size { break; }
      var svcId := Word16(memory, offset);
      offset := offset + 2;
      var instId := Word16(memory, offset);
      offset := offset + 2;
      offset := offset + 1; // major version
      offset := offset + 4; // minor version
      offset := offset + 4; // ttl
      offset := offset + 1; // is local
      var epCount := Word32(memory, offset);
      offset := offset + 4;

      if svcId == service && instId == instance {
        result, offset := ReadEndpoints(memory, size, offset, epCount);
        return result;
      } else {
        offset := SkipEndpoints(memory, size, offset, epCount);
      }
      i := i + 1;
    }
    return [];
  }

  // ----- What the scan finds -----

  lemma FittingCons(es: seq<RegistryEndpoint>, room: int, more: seq<RegistryEndpoint>)
    requires es != [] && es[0].Size() <= room
    requires more == es[1..][..Fitting(es[1..], room - es[0].Size())]
    ensures [es[0]] + more == es[..Fitting(es, room)]
  {
  }

  /** One step of the read branch on an endpoint that stands in memory. */
  lemma ReadStep(memory: seq<Byte>, size: nat, offset: nat, es: seq<RegistryEndpoint>, r: ReadResult, more: ReadResult)
    requires size <= |memory| && es != [] && EndpointsAt(memory, offset, es)
    requires r == EndpointsRead(memory, size, offset, |es|)
    requires more == EndpointsRead(memory, size, offset + es[0].Size(), |es| - 1)
    ensures if offset + es[0].Size() <= size then r == ReadResult([es[0]] + more.endpoints, more.end)
            else r.endpoints == []
  {
  }

  /** The read branch returns the endpoints that lie wholly in the area; if all do, it stops behind them. */
  lemma {:induction false} ReadFits(memory: seq<Byte>, size: nat, offset: nat, es: seq<RegistryEndpoint>,
                                    r: ReadResult)
    requires size <= |memory| && EndpointsAt(memory, offset, es)
    requires r == EndpointsRead(memory, size, offset, |es|)
    ensures r.endpoints == es[..Fitting(es, size - offset)]
    ensures offset + EndpointsSize(es) <= size ==> r.end == offset + EndpointsSize(es)
    decreases es
  {
    if es != [] {
      var next := offset + es[0].Size();
      var more := EndpointsRead(memory, size, next, |es| - 1);
      ReadStep(memory, size, offset, es, r, more);
      if next <= size {
        ReadFits(memory, size, next, es[1..], more);
        FittingCons(es, size - offset, more.endpoints);
      }
    }
  }

  /** The skip branch advances over the whole list, or stops within it behind the area. */
  lemma {:induction false} SkipReaches(memory: seq<Byte>, size: nat, offset: nat, es: seq<RegistryEndpoint>)
    requires size <= |memory| && EndpointsAt(memory, offset, es)
    ensures var end, s := offset + EndpointsSize(es), EndpointsSkipped(memory, size, offset, |es|);
            s == end || size <= s < end
    decreases es
  {
    if es != [] && offset < size {
      SkipReaches(memory, size, offset + es[0].Size(), es[1..]);
    }
  }

  /** Both branches end at the same place when the list lies in the area. */
  lemma SkipMeetsRead(memory: seq<Byte>, size: nat, offset: nat, es: seq<RegistryEndpoint>)
    requires size <= |memory| && EndpointsAt(memory, offset, es) && offset + EndpointsSize(es) <= size
    ensures EndpointsRead(memory, size, offset, |es|) == ReadResult(es, offset + EndpointsSize(es))
    ensures EndpointsSkipped(memory, size, offset, |es|) == offset + EndpointsSize(es)
  {
    ReadFits(memory, size, offset, es, EndpointsRead(memory, size, offset, |es|));
    SkipReaches(memory, size, offset, es);
    AllFit(es, size - offset);
  }

  /** Stopping inside a list behind the area or after the list makes no difference to the scan. */
  lemma ScanOn(memory: seq<Byte>, size: nat, skipped: nat, end: nat, count: nat, service: U16, instance: U16)
    requires Mapped(memory, size, end, count, service, instance) && (skipped == end || size <= skipped < end)
    ensures Mapped(memory, size, skipped, count, service, instance)
    ensures Scan(memory, size, skipped, count, service, instance) == Scan(memory, size, end, count, service, instance)
  {
  }

  lemma ScanHit(memory: seq<Byte>, size: nat, offset: nat, count: nat, r: Record, service: U16, instance: U16)
    requires size <= |memory| && RecordAt(memory, offset, r) && offset + CHECKED_HEAD <= size && count > 0
    requires r.Is(service, instance)
    ensures Mapped(memory, size, offset, count, service, instance)
    ensures Scan(memory, size, offset, count, service, instance)
            == r.endpoints[..Fitting(r.endpoints, size - offset - RECORD_HEAD)]
  {
    var at := offset + RECORD_HEAD;
    ReadFits(memory, size, at, r.endpoints, EndpointsRead(memory, size, at, |r.endpoints|));
  }

  lemma ScanMiss(memory: seq<Byte>, size: nat, offset: nat, count: nat, r: Record, end: nat, left: nat,
                 service: U16, instance: U16)
    requires RecordAt(memory, offset, r) && offset + CHECKED_HEAD <= size
    requires !r.Is(service, instance) && count == left + 1
    requires end == offset + RECORD_HEAD + EndpointsSize(r.endpoints)
    requires Mapped(memory, size, end, left, service, instance)
    ensures Mapped(memory, size, offset, count, service, instance)
    ensures Scan(memory, size, offset, count, service, instance) == Scan(memory, size, end, left, service, instance)
  {
    SkipReaches(memory, size, offset + RECORD_HEAD, r.endpoints);
    ScanOn(memory, size, Passed(memory, size, offset), end, left, service, instance);
  }

  lemma WithinStep(rs: seq<Record>, room: int, left: int, service: U16, instance: U16, first: seq<RegistryEndpoint>)
    requires rs != [] && room >= CHECKED_HEAD && left == room - RECORD_HEAD - EndpointsSize(rs[0].endpoints)
    requires first == FirstMatchWithin(rs, room, service, instance)
    ensures first == if rs[0].Is(service, instance)
                     then rs[0].endpoints[..Fitting(rs[0].endpoints, room - RECORD_HEAD)]
                     else FirstMatchWithin(rs[1..], left, service, instance)
  {
  }

  lemma {:induction false} ScanFinds(memory: seq<Byte>, size: nat, offset: nat, room: int, count: nat,
                                     rs: seq<Record>, service: U16, instance: U16, first: seq<RegistryEndpoint>)
    requires size <= |memory| && RecordsAt(memory, offset, rs) && room == size - offset
    requires count == |rs| || (count > |rs| && room <= RecordsSize(rs))
    requires first == FirstMatchWithin(rs, room, service, instance)
    ensures Mapped(memory, size, offset, count, service, instance)
    ensures Scan(memory, size, offset, count, service, instance) == first
    decreases rs
  {
    if rs != [] && room >= CHECKED_HEAD {
      var end := offset + RECORD_HEAD + EndpointsSize(rs[0].endpoints);
      var roomLeft, left := size - end, count - 1;
      WithinStep(rs, room, roomLeft, service, instance, first);
      if rs[0].Is(service, instance) {
        ScanHit(memory, size, offset, count, rs[0], service, instance);
      } else {
        ScanFinds(memory, size, end, roomLeft, left, rs[1..], service, instance, first);
        ScanMiss(memory, size, offset, count, rs[0], end, left, service, instance);
      }
    }
  }

  /** Over records in memory: wherever the area ends, be it inside a record, the scan stays in memory and
      returns the first match within the area. The count may exceed the records unless more of the area
      follows them. */
  lemma LookupWithin(memory: seq<Byte>, size: nat, count: nat, rs: seq<Record>, service: U16, instance: U16)
    requires size <= |memory| && RecordsAt(memory, 0, rs)
    requires count == |rs| || (count > |rs| && size <= RecordsSize(rs))
    ensures Mapped(memory, size, 0, count, service, instance)
    ensures Scan(memory, size, 0, count, service, instance) == FirstMatchWithin(rs, size, service, instance)
  {
    ScanFinds(memory, size, 0, size, count, rs, service, instance, FirstMatchWithin(rs, size, service, instance));
  }

  /** For every list of records, encoded one behind the other in an area that holds them all, the scan
      returns the endpoints of the first match, or none. */
  lemma LookupExactly(rs: seq<Record>, rest: seq<Byte>, size: nat, service: U16, instance: U16)
    requires ValidRecords(rs) && RecordsSize(rs) <= size <= |EncodeRecords(rs) + rest|
    ensures Mapped(EncodeRecords(rs) + rest, size, 0, |rs|, service, instance)
    ensures Scan(EncodeRecords(rs) + rest, size, 0, |rs|, service, instance) == FirstMatch(rs, service, instance)
  {
    var memory := EncodeRecords(rs) + rest;
    RecordsStand(memory, 0, rs);
    LookupWithin(memory, size, |rs|, rs, service, instance);
    WithinWhole(rs, size, service, instance);
  }

  // ----- Reading behind the area -----

  /** When the scan needs more memory than the area: if memory ends with the area, exactly when it overruns;
      two octets more are always enough. */
  lemma {:induction false} MappedExactly(memory: seq<Byte>, size: nat, offset: nat, count: nat,
                                         service: U16, instance: U16)
    requires size <= |memory|
    ensures !Overruns(memory, size, offset, count, service, instance) || size + 2 <= |memory|
            ==> Mapped(memory, size, offset, count, service, instance)
    ensures size == |memory|
            ==> (Mapped(memory, size, offset, count, service, instance)
                 <==> !Overruns(memory, size, offset, count, service, instance))
    decreases count
  {
    if count > 0 && offset + RECORD_HEAD <= |memory| && offset + CHECKED_HEAD <= size {
      MappedExactly(memory, size, Passed(memory, size, offset), count - 1, service, instance);
    }
  }

  /** After `k` records, none of which matches, 16 or 17 octets of the area are left. */
  ghost predicate HeadCut(rs: seq<Record>, room: int, count: nat, k: nat, service: U16, instance: U16) {
    && k <= |rs| && k < count && (forall i :: 0 <= i < k ==> !rs[i].Is(service, instance))
    && CHECKED_HEAD <= room - RecordsSize(rs[..k]) < RECORD_HEAD
  }

  lemma HeadCutNext(rs: seq<Record>, room: int, roomLeft: int, count: nat, left: nat, k: nat,
                    service: U16, instance: U16)
    requires rs != [] && count == left + 1 && roomLeft == room - RECORD_HEAD - EndpointsSize(rs[0].endpoints)
    ensures HeadCut(rs, room, count, k + 1, service, instance)
            <==> !rs[0].Is(service, instance) && HeadCut(rs[1..], roomLeft, left, k, service, instance)
  {
    if k <= |rs| - 1 {
      assert rs[..k + 1][1..] == rs[1..][..k];
      assert (forall i :: 0 <= i < k + 1 ==> !rs[i].Is(service, instance))
        <==> !rs[0].Is(service, instance) && forall i :: 0 <= i < k ==> !rs[1..][i].Is(service, instance) by {
        assert forall i :: 0 <= i < k ==> rs[1..][i] == rs[i + 1];
        assert forall i :: 0 < i < k + 1 ==> rs[i] == rs[1..][i - 1];
      }
    }
  }

  lemma OverrunsOn(memory: seq<Byte>, size: nat, skipped: nat, end: nat, count: nat, service: U16, instance: U16)
    requires size <= |memory| && (skipped == end || size <= skipped < end)
    ensures Overruns(memory, size, skipped, count, service, instance)
            == Overruns(memory, size, end, count, service, instance)
  {
  }

  lemma OverrunsStep(memory: seq<Byte>, size: nat, offset: nat, count: nat, r: Record, end: nat, left: nat,
                     service: U16, instance: U16)
    requires size <= |memory| && RecordAt(memory, offset, r) && count == left + 1
    requires end == offset + RECORD_HEAD + EndpointsSize(r.endpoints) && offset + RECORD_HEAD <= size
    ensures Overruns(memory, size, offset, count, service, instance)
            <==> !r.Is(service, instance) && Overruns(memory, size, end, left, service, instance)
  {
    SkipReaches(memory, size, offset + RECORD_HEAD, r.endpoints);
    OverrunsOn(memory, size, Passed(memory, size, offset), end, left, service, instance);
  }

  /** Records take at least their heads. */
  lemma SizeOfSome(rs: seq<Record>, k: nat)
    requires 0 < k <= |rs|
    ensures RecordsSize(rs[..k]) >= RECORD_HEAD
  {
    assert rs[..k] != [];
  }

  lemma NextCut(rs: seq<Record>, room: int, roomLeft: int, count: nat, left: nat, service: U16, instance: U16)
    requires rs != [] && count == left + 1 && room >= RECORD_HEAD
    requires roomLeft == room - RECORD_HEAD - EndpointsSize(rs[0].endpoints)
    ensures (exists k: nat :: HeadCut(rs, room, count, k, service, instance))
            <==> !rs[0].Is(service, instance) && exists k: nat :: HeadCut(rs[1..], roomLeft, left, k, service, instance)
  {
    assert rs[..0] == [];
    if k: nat :| HeadCut(rs, room, count, k, service, instance) {
      HeadCutNext(rs, room, roomLeft, count, left, k - 1, service, instance);
    }
    if !rs[0].Is(service, instance) {
      if k: nat :| HeadCut(rs[1..], roomLeft, left, k, service, instance) {
        HeadCutNext(rs, room, roomLeft, count, left, k, service, instance);
      }
    }
  }

  lemma {:induction false} OverrunsFrom(memory: seq<Byte>, size: nat, offset: nat, room: int, count: nat,
                                        rs: seq<Record>, service: U16, instance: U16)
    requires size <= |memory| && RecordsAt(memory, offset, rs) && room == size - offset
    requires count == |rs| || (count > |rs| && room < RecordsSize(rs) + RECORD_HEAD)
    ensures Overruns(memory, size, offset, count, service, instance)
            <==> exists k: nat :: HeadCut(rs, room, count, k, service, instance)
    decreases rs
  {
    assert rs[..0] == [];
    if room < RECORD_HEAD || rs == [] {
      assert HeadCut(rs, room, count, 0, service, instance) <==> count > 0 && CHECKED_HEAD <= room;
      forall k: nat | k > 0 ensures !HeadCut(rs, room, count, k, service, instance) {
        if k <= |rs| {
          SizeOfSome(rs, k);
        }
      }
    } else {
      var end := offset + RECORD_HEAD + EndpointsSize(rs[0].endpoints);
      var roomLeft, left := size - end, count - 1;
      OverrunsStep(memory, size, offset, count, rs[0], end, left, service, instance);
      OverrunsFrom(memory, size, end, roomLeft, left, rs[1..], service, instance);
      NextCut(rs, room, roomLeft, count, left, service, instance);
    }
  }

  /** Over records in memory the scan reads behind the area exactly when the area ends 16 or 17 octets into
      a head that it comes to. */
  lemma OverrunsExactly(memory: seq<Byte>, size: nat, count: nat, rs: seq<Record>, service: U16, instance: U16)
    requires size <= |memory| && RecordsAt(memory, 0, rs)
    requires count == |rs| || (count > |rs| && size < RecordsSize(rs) + RECORD_HEAD)
    ensures Overruns(memory, size, 0, count, service, instance)
            <==> exists k: nat :: HeadCut(rs, size, count, k, service, instance)
  {
    OverrunsFrom(memory, size, 0, size, count, rs, service, instance);
  }

  ghost predicate Agree(a: seq<Byte>, b: seq<Byte>, size: nat) {
    size <= |a| && size <= |b| && forall i :: 0 <= i < size ==> a[i] == b[i]
  }

  lemma {:induction false} ReadAgrees(a: seq<Byte>, b: seq<Byte>, size: nat, offset: nat, n: nat)
    requires Agree(a, b, size)
    ensures EndpointsRead(a, size, offset, n) == EndpointsRead(b, size, offset, n)
    decreases n
  {
    if n > 0 && offset < size {
      var port := offset + 1 + a[offset];
      if port + 3 <= size {
        assert a[offset + 1..port] == b[offset + 1..port] && Word16(a, port) == Word16(b, port);
        ReadAgrees(a, b, size, port + 3, n - 1);
      }
    }
  }

  lemma {:induction false} SkipAgrees(a: seq<Byte>, b: seq<Byte>, size: nat, offset: nat, n: nat)
    requires Agree(a, b, size)
    ensures EndpointsSkipped(a, size, offset, n) == EndpointsSkipped(b, size, offset, n)
    decreases n
  {
    if n > 0 && offset < size {
      SkipAgrees(a, b, size, offset + 1 + a[offset] + 3, n - 1);
    }
  }

  lemma PassedAgrees(a: seq<Byte>, b: seq<Byte>, size: nat, offset: nat)
    requires Agree(a, b, size) && offset + RECORD_HEAD <= |a| && offset + RECORD_HEAD <= |b|
    ensures Passed(a, size, offset) == Passed(b, size, offset)
  {
    if offset + RECORD_HEAD <= size {
      assert Word32(a, offset + 14) == Word32(b, offset + 14);
      SkipAgrees(a, b, size, offset + RECORD_HEAD, Word32(a, offset + 14));
    }
  }

  /** What is read behind the area does not matter: the result depends on the area alone. */
  lemma {:induction false} ScanAgrees(a: seq<Byte>, b: seq<Byte>, size: nat, offset: nat, count: nat,
                                      service: U16, instance: U16)
    requires Agree(a, b, size)
    requires Mapped(a, size, offset, count, service, instance) && Mapped(b, size, offset, count, service, instance)
    ensures Scan(a, size, offset, count, service, instance) == Scan(b, size, offset, count, service, instance)
    decreases count
  {
    if count > 0 && offset + CHECKED_HEAD <= size {
      assert Hits(a, offset, service, instance) == Hits(b, offset, service, instance);
      if Hits(a, offset, service, instance) {
        if offset + RECORD_HEAD <= size {
          assert Word32(a, offset + 14) == Word32(b, offset + 14);
          ReadAgrees(a, b, size, offset + RECORD_HEAD, Word32(a, offset + 14));
        }
      } else {
        PassedAgrees(a, b, size, offset);
        ScanAgrees(a, b, size, Passed(a, size, offset), count - 1, service, instance);
      }
    }
  }

  /** So does whether the scan reads behind it. */
  lemma {:induction false} OverrunsAgrees(a: seq<Byte>, b: seq<Byte>, size: nat, offset: nat, count: nat,
                                          service: U16, instance: U16)
    requires Agree(a, b, size)
    ensures Overruns(a, size, offset, count, service, instance) == Overruns(b, size, offset, count, service, instance)
    decreases count
  {
    if count > 0 && offset + RECORD_HEAD <= size {
      assert Hits(a, offset, service, instance) == Hits(b, offset, service, instance);
      PassedAgrees(a, b, size, offset);
      OverrunsAgrees(a, b, size, Passed(a, size, offset), count - 1, service, instance);
    }
  }

  /** Encoded records of which memory holds the first `size` octets only, area and memory ending together:
      the scan stays in memory exactly when no head it comes to is cut behind 16 or 17 octets, and then it
      returns the first match within the area. */
  lemma LookupTruncated(rs: seq<Record>, size: nat, service: U16, instance: U16)
    requires ValidRecords(rs) && size <= |EncodeRecords(rs)|
    ensures var memory := EncodeRecords(rs)[..size];
            && (Mapped(memory, size, 0, |rs|, service, instance)
                <==> !exists k: nat :: HeadCut(rs, size, |rs|, k, service, instance))
            && (Mapped(memory, size, 0, |rs|, service, instance)
                ==> Scan(memory, size, 0, |rs|, service, instance) == FirstMatchWithin(rs, size, service, instance))
  {
    var whole := EncodeRecords(rs);
    var memory := whole[..size];
    RecordsStand(whole, 0, rs);
    OverrunsExactly(whole, size, |rs|, rs, service, instance);
    OverrunsAgrees(whole, memory, size, 0, |rs|, service, instance);
    MappedExactly(memory, size, 0, |rs|, service, instance);
    LookupWithin(whole, size, |rs|, rs, service, instance);
    if Mapped(memory, size, 0, |rs|, service, instance) {
      ScanAgrees(whole, memory, size, 0, |rs|, service, instance);
    }
  }

  /** One record without endpoints in an area of 16 octets: the scan reads two octets behind the area, and
      behind the memory if that ends there too. */
  lemma OverrunExample(r: Record, service: U16, instance: U16)
    requires r.Valid() && r.endpoints == []
    ensures var memory := EncodeHead(r);
            && Overruns(memory, 16, 0, 1, service, instance)
            && !Mapped(memory[..16], 16, 0, 1, service, instance)
  {
    var memory := EncodeHead(r);
    assert 0 + CHECKED_HEAD <= 16 < 0 + RECORD_HEAD;
  }
}
