/** Service Discovery entries and IPv4 options, and their octets. */
module ServiceEntries {
  import opened Bytes

  const ENTRY_SIZE := 16
  const OPTION_SIZE := 12

  const OFFER_SERVICE: Byte := 0x01
  const SUBSCRIBE_EVENTGROUP: Byte := 0x06
  const SUBSCRIBE_EVENTGROUP_ACK: Byte := 0x07

  const IPV4_ENDPOINT: Byte := 0x04
  const IPV4_MULTICAST: Byte := 0x14

  /** The length field of both IPv4 options. It is one less than what follows it on the wire. */
  const DECLARED_OPTION_LENGTH := 9

  datatype Entry = Entry(
    entryType: Byte,
    indexFirst: Byte,
    indexSecond: Byte,
    numFirst: Byte,
    numSecond: Byte,
    serviceId: U16,
    instanceId: U16,
    majorVersion: Byte,
    ttl: U32,
    minorVersion: U32)
  {
    function EventgroupId(): U16 {
      minorVersion % 0x1_0000
    }

    /** The fields fit their places: two counts of four bits, a time to live of 24 bits. */
    predicate Canonical() {
      numFirst < 0x10 && numSecond < 0x10 && ttl < 0x100_0000
    }
  }

  function EncodeEntry(e: Entry): (s: seq<Byte>)
    ensures |s| == ENTRY_SIZE
  {
    [e.entryType, e.indexFirst, e.indexSecond, e.numFirst % 0x10 + e.numSecond % 0x10 * 0x10]
    + Big(e.serviceId, 2) + Big(e.instanceId, 2) + [e.majorVersion] + Big(e.ttl, 3) + Big(e.minorVersion, 4)
  }

  function Read24(data: seq<Byte>, at: nat): (x: nat)
    requires at + 3 <= |data|
    ensures x < 0x100_0000
  {
    BigJoin(data[at..at + 3]);
    Limits();
    Join(data[at..at + 3])
  }

  function DecodeEntry(data: seq<Byte>): Option<Entry> {
    if |data| < ENTRY_SIZE then None
    else
      Some(Entry(data[0], data[1], data[2], data[3] % 0x10, data[3] / 0x10, Read16(data, 4), Read16(data, 6), data[8],
                 Read24(data, 9), Read32(data, 12)))
  }

  lemma EntryLayout(e: Entry)
    ensures var s := EncodeEntry(e);
            && s[0] == e.entryType && s[1] == e.indexFirst && s[2] == e.indexSecond
            && s[3] == e.numFirst % 0x10 + e.numSecond % 0x10 * 0x10 && s[8] == e.majorVersion
            && s[4..6] == Big(e.serviceId, 2) && s[6..8] == Big(e.instanceId, 2)
            && s[9..12] == Big(e.ttl, 3) && s[12..16] == Big(e.minorVersion, 4)
  {
  }

  /** An entry comes back from its octets exactly when its fields fit their places. */
  lemma DecodeEncodeEntry(e: Entry)
    ensures DecodeEntry(EncodeEntry(e)) == Some(e) <==> e.Canonical()
  {
    EntryLayout(e);
    Limits();
    JoinBig(e.serviceId, 2);
    JoinBig(e.instanceId, 2);
    JoinBig(e.minorVersion, 4);
    if e.ttl < 0x100_0000 {
      JoinBig(e.ttl, 3);
    }
  }

  lemma SameEntryCuts(s: seq<Byte>, t: seq<Byte>)
    requires |s| == |t| == ENTRY_SIZE
    requires forall i :: 0 <= i < 4 ==> s[i] == t[i]
    requires s[4..6] == t[4..6] && s[6..8] == t[6..8] && s[8] == t[8] && s[9..12] == t[9..12] && s[12..16] == t[12..16]
    ensures s == t
  {
    assert s == s[0..4] + s[4..6] + s[6..8] + [s[8]] + s[9..12] + s[12..16];
    assert t == t[0..4] + t[4..6] + t[6..8] + [t[8]] + t[9..12] + t[12..16];
  }

  /** Sixteen octets come back from the entry they parse to. */
  lemma EncodeDecodeEntry(data: seq<Byte>)
    requires |data| == ENTRY_SIZE
    ensures var e := DecodeEntry(data).value; e.Canonical() && EncodeEntry(e) == data
  {
    var e := DecodeEntry(data).value;
    var s := EncodeEntry(e);
    EntryLayout(e);
    assert s[4..6] == data[4..6] by { BigJoin(data[4..6]); }
    assert s[6..8] == data[6..8] by { BigJoin(data[6..8]); }
    assert s[9..12] == data[9..12] by { BigJoin(data[9..12]); }
    assert s[12..16] == data[12..16] by { BigJoin(data[12..16]); }
    SameEntryCuts(s, data);
  }

  // ----- Options -----

  datatype SdOption =
    | Endpoint(address: seq<Byte>, port: U16, protocol: Byte)
    | Multicast(address: seq<Byte>, port: U16)
  {
    /** An IPv4 address has four octets. */
    predicate Valid() {
      |address| == 4
    }
  }

  function EncodeOption(o: SdOption): (s: seq<Byte>)
    requires o.Valid()
    ensures |s| == OPTION_SIZE
  {
    [0x00, DECLARED_OPTION_LENGTH, if o.Endpoint? then IPV4_ENDPOINT else IPV4_MULTICAST, 0x00]
    + o.address + [0x00, if o.Endpoint? then o.protocol else 0x00] + Big(o.port, 2)
  }

  /** `data` is the payload from the option on; `length` is what is left of the declared options area.
      Octets past the payload are not modelled: an option that would need them does not parse. */
  function DecodeOption(data: seq<Byte>, length: nat): (o: Option<SdOption>)
    ensures o.Some? ==> o.value.Valid()
  {
    if length < 4 || |data| < 4 then None
    else
      var optionLength := Read16(data, 0);
      if length < 2 + optionLength || optionLength != DECLARED_OPTION_LENGTH || |data| < OPTION_SIZE then None
      else if data[2] == IPV4_ENDPOINT then Some(Endpoint(data[4..8], Read16(data, 10), data[9]))
      else if data[2] == IPV4_MULTICAST then Some(Multicast(data[4..8], Read16(data, 10)))
      else None
  }

  /** An option comes back exactly when 11 octets of the declared area are left, one less than it has. */
  lemma DecodeEncodeOption(o: SdOption, rest: seq<Byte>, length: nat)
    requires o.Valid()
    ensures DecodeOption(EncodeOption(o) + rest, length) == Some(o) <==> length >= OPTION_SIZE - 1
  {
    var data := EncodeOption(o) + rest;
    assert data[0..2] == [0x00, DECLARED_OPTION_LENGTH];
    assert Read16(data, 0) == DECLARED_OPTION_LENGTH by {
      assert Big(DECLARED_OPTION_LENGTH, 2) == [0x00, DECLARED_OPTION_LENGTH];
      Limits();
      JoinBig(DECLARED_OPTION_LENGTH, 2);
    }
    assert data[4..8] == o.address;
    assert data[10..12] == Big(o.port, 2);
    assert Read16(data, 10) == o.port by {
      Limits();
      JoinBig(o.port, 2);
    }
  }

  /** An area of 11 octets: the option is taken all the same, and the low octet of its port is whatever
      follows the area. */
  lemma ShortAreaExample(o: SdOption, behind: Byte)
    requires o.Valid()
    ensures DecodeOption(EncodeOption(o)[..11] + [behind], 11) == Some(o.(port := o.port / 0x100 * 0x100 + behind))
  {
    var taken := o.(port := o.port / 0x100 * 0x100 + behind);
    BigByShifts(o.port);
    BigByShifts(taken.port);
    assert EncodeOption(o)[..11] + [behind] == EncodeOption(taken) + [];
    DecodeEncodeOption(taken, [], 11);
  }

  /** The octets of an option: length, type, address, protocol and port. */
  lemma OptionOctets(o: SdOption)
    requires o.Valid()
    ensures EncodeOption(o)
            == [0x00, 9, if o.Endpoint? then 0x04 else 0x14, 0x00,
                o.address[0], o.address[1], o.address[2], o.address[3],
                0x00, if o.Endpoint? then o.protocol else 0x00, o.port / 0x100, o.port % 0x100]
  {
    BigByShifts(o.port);
  }

  /** Which octets are taken for an option: those that declare nine octets and one of the two types, with 11
      octets of the area left; and what is read off them. */
  lemma OptionExactly(data: seq<Byte>, length: nat)
    ensures DecodeOption(data, length).Some?
            <==> |data| >= 12 && length >= 11 && data[0] == 0 && data[1] == 9 && (data[2] == 0x04 || data[2] == 0x14)
    ensures DecodeOption(data, length).Some?
            ==> var high: int, low: int := data[10], data[11]; var port := 0x100 * high + low;
                DecodeOption(data, length).value
                == if data[2] == 0x04 then Endpoint(data[4..8], port, data[9]) else Multicast(data[4..8], port)
  {
    if |data| >= 4 {
      Read16Octets(data, 0);
      if |data| >= 12 {
        Read16Octets(data, 10);
      }
    }
  }

  /** The event group of an entry is the number in its last two octets. */
  lemma EventgroupOctets(data: seq<Byte>)
    requires |data| == ENTRY_SIZE
    ensures var g: int, h: int := data[14], data[15]; DecodeEntry(data).value.EventgroupId() == 0x100 * g + h
  {
    Read16Octets(data, 12);
    Read16Octets(data, 14);
    var s := data[12..16];
    assert s[..3] == data[12..15] && data[12..15][..2] == data[12..14];
    assert Join(s) == Join(data[12..15]) * 0x100 + data[15];
    assert Join(data[12..15]) == Join(data[12..14]) * 0x100 + data[14];
  }
}
