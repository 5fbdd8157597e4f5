/** The four-octet header that opens the payload of every SOME/IP-TP segment. */
module TpTypes {
  import opened Bytes

  /** The offset field has 24 bits. */
  const OFFSET_LIMIT := 0x100_0000
  const HEADER_OCTETS := 4

  const UDP_SEGMENT_SIZE := 1392
  const TCP_SEGMENT_SIZE := 4095

  const DEFAULT_REASSEMBLY_TIMEOUT_MS := 5000

  datatype TpHeader = TpHeader(offset: nat, reserved: nat, moreFlag: bool)
  {
    ghost predicate Valid() {
      offset < OFFSET_LIMIT && reserved < 0x80
    }

    /** The word `offset << 8 | reserved << 1 | more`, in network order. */
    function ToNetwork(): seq<Byte>
      requires Valid()
    {
      Big(offset * 0x100 + reserved * 2 + if moreFlag then 1 else 0, HEADER_OCTETS)
    }
  }

  /** Initializing the bit field keeps the low 24 bits of the offset. */
  function MakeHeader(offset: nat, more: bool): (h: TpHeader)
    ensures h.Valid()
  {
    TpHeader(offset % OFFSET_LIMIT, 0, more)
  }

  function FromNetwork(s: seq<Byte>): (h: TpHeader)
    requires |s| >= HEADER_OCTETS
    ensures h.Valid()
  {
    var value := Read32(s, 0);
    TpHeader(value / 0x100, value / 2 % 0x80, value % 2 == 1)
  }

  lemma Unpack(value: nat, offset: nat, reserved: nat, bit: nat)
    requires value == offset * 0x100 + reserved * 2 + bit && reserved < 0x80 && bit < 2
    ensures value / 0x100 == offset && value / 2 % 0x80 == reserved && value % 2 == bit
  {
    assert value / 2 == offset * 0x80 + reserved;
  }

  lemma FromToNetwork(h: TpHeader, rest: seq<Byte>)
    requires h.Valid()
    ensures FromNetwork(h.ToNetwork() + rest) == h
  {
    var bit := if h.moreFlag then 1 else 0;
    var value := h.offset * 0x100 + h.reserved * 2 + bit;
    Unpack(value, h.offset, h.reserved, bit);
    assert (h.ToNetwork() + rest)[0..HEADER_OCTETS] == Big(value, HEADER_OCTETS);
    assert Join(Big(value, HEADER_OCTETS)) == value by {
      Limits();
      JoinBig(value, HEADER_OCTETS);
    }
  }

  lemma WordParts(value: nat)
    ensures value == value / 0x100 * 0x100 + value / 2 % 0x80 * 2 + value % 2
  {
    var half := value / 2;
    assert value / 0x100 == half / 0x80;
  }

  lemma ToFromNetwork(s: seq<Byte>)
    requires |s| == HEADER_OCTETS
    ensures FromNetwork(s).ToNetwork() == s
  {
    assert s[0..HEADER_OCTETS] == s;
    WordParts(Join(s));
    BigJoin(s);
  }

  /** The octets of a header as segments carry it: 24 bits of offset, then seven reserved bits that are zero
      and the more flag. */
  lemma HeaderOctets(offset: nat, more: bool)
    ensures var o := offset % 0x100_0000;
            MakeHeader(offset, more).ToNetwork()
            == [o / 0x1_0000, o / 0x100 % 0x100, o % 0x100, if more then 1 else 0]
  {
    var o := offset % 0x100_0000;
    var word := o * 0x100 + if more then 1 else 0;
    BigByShifts(word);
    assert word / 0x100 == o && word / 0x1_0000 == o / 0x100 && word / 0x100_0000 == o / 0x1_0000;
  }
}
