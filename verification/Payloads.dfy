/** Typed access to a payload: values appended in either byte order and read back through a cursor. */
module Payloads {
  import opened Arithmetic
  import opened Bytes

  // ----- Words in either byte order -----

  /** The low `n` octets of `x`, least significant first. */
  function Little(x: nat, n: nat): (s: seq<Byte>)
    ensures |s| == n
  {
    if n == 0 then [] else [x % 0x100] + Little(x / 0x100, n - 1)
  }

  function JoinLittle(s: seq<Byte>): nat {
    if s == [] then 0 else s[0] + 0x100 * JoinLittle(s[1..])
  }

  lemma {:induction false} JoinLittleInverts(x: nat, n: nat)
    requires x < Limit(n)
    ensures JoinLittle(Little(x, n)) == x
  {
    if n > 0 {
      JoinLittleInverts(x / 0x100, n - 1);
    }
  }

  /** One more octet on the most significant side. */
  lemma {:induction false} JoinLittleSnoc(s: seq<Byte>, b: Byte)
    ensures JoinLittle(s + [b]) == JoinLittle(s) + b * Limit(|s|)
  {
    if s == [] {
      assert [b][1..] == [];
      assert s + [b] == [b];
    } else {
      JoinLittleSnoc(s[1..], b);
      assert (s + [b])[1..] == s[1..] + [b];
      assert b * Limit(|s|) == 0x100 * (b * Limit(|s| - 1)) by {
        assert Limit(|s|) == 0x100 * Limit(|s| - 1);
      }
    }
  }

  /** Dividing by 256 and then by `b` divides by their product. */
  lemma QuotientOfQuotient(x: nat, b: nat)
    requires b > 0
    ensures x / 0x100 / b == x / (0x100 * b)
  {
    var y := x / 0x100;
    var q, r := y / b, y % b;
    assert y == b * q + r;
    var d := 0x100 * b;
    var k := x / d - q;
    assert x == d * (x / d) + x % d && 0 <= x % d < d;
    assert 0x100 * (b * q) == d * q;
    assert d * (x / d) == d * q + d * k;
    MultipleBounds(d, k);
  }

  /** Shifting down `8 i` bits and keeping eight gives octet `i`, counted from the least significant. */
  lemma {:induction false} OctetByShift(x: nat, n: nat, i: nat)
    requires i < n
    ensures Little(x, n)[i] == x / Limit(i) % 0x100
    ensures Big(x, n)[n - 1 - i] == x / Limit(i) % 0x100
  {
    if i > 0 {
      OctetByShift(x / 0x100, n - 1, i - 1);
      QuotientOfQuotient(x, Limit(i - 1));
    }
  }

  function Word(x: nat, n: nat, bigEndian: bool): (s: seq<Byte>)
    ensures |s| == n
  {
    if bigEndian then Big(x, n) else Little(x, n)
  }

  function Value(s: seq<Byte>, bigEndian: bool): nat {
    if bigEndian then Join(s) else JoinLittle(s)
  }

  lemma ValueOfWord(x: nat, n: nat, bigEndian: bool)
    requires x < Limit(n)
    ensures Value(Word(x, n, bigEndian), bigEndian) == x
  {
    if bigEndian {
      JoinBig(x, n);
    } else {
      JoinLittleInverts(x, n);
    }
  }

  // ----- Reading -----

  /** What a read of `n` octets at the cursor finds. */
  function Peek(data: seq<Byte>, position: nat, n: nat): Option<seq<Byte>> {
    if position + n > |data| then None else Some(data[position..position + n])
  }

  function PeekWord(data: seq<Byte>, position: nat, n: nat, bigEndian: bool): Option<nat> {
    match Peek(data, position, n)
    case Some(s) => Some(Value(s, bigEndian))
    case None => None
  }

  /** A string is a big-endian length of 32 bits and that many octets. */
  function PeekText(data: seq<Byte>, position: nat): Option<seq<Byte>> {
    match PeekWord(data, position, 4, true)
    case Some(n) => Peek(data, position + 4, n)
    case None => None
  }

  // ----- The object -----

  lemma OneOctet(b: Byte)
    ensures Join([b]) == b
  {
    assert [b][..0] == [];
    assert Join([b]) == Join([b][..0]) * 0x100 + b;
  }

  lemma TwoOctets(first: Byte, second: Byte)
    ensures Join([first, second]) == first * 0x100 + second
    ensures JoinLittle([first, second]) == first + second * 0x100
  {
    var s := [first, second];
    assert s[..1] == [first] && [first][..0] == [];
    assert Join([first]) == first && Join(s) == Join(s[..1]) * 0x100 + s[1];
    assert s[1..] == [second] && [second][1..] == [];
    assert JoinLittle([second]) == second && JoinLittle(s) == s[0] + 0x100 * JoinLittle(s[1..]);
  }

  class Payload {
    var data: seq<Byte>
    var position: nat

    constructor ()
      ensures data == [] && position == 0
    {
      data, position := [], 0;
    }

    method AppendBytes(bytes: seq<Byte>)
      modifies this`data
      ensures data == old(data) + bytes
    {
      data := data + bytes;
    }

    method AppendUint8(value: Byte)
      modifies this`data
      ensures data == old(data) + Word(value, 1, true)
    {
      assert Big(value, 1) == Big(value / 0x100, 0) + [value];
      data := data + [value];
    }

    method AppendUint16(value: U16, bigEndian: bool)
      modifies this`data
      ensures data == old(data) + Word(value, 2, bigEndian)
    {
      var high, low := value / 0x100, value % 0x100;
      if bigEndian {
        assert Big(value, 2) == Big(high, 1) + [low] && Big(high, 1) == Big(0, 0) + [high];
        data := data + [high, low];
      } else {
        assert Little(value, 2) == [low] + Little(high, 1) && Little(high, 1) == [high] + Little(0, 0);
        data := data + [low, high];
      }
    }

    /** The loop of the 64-bit append; the 32-bit append writes the same four pushes out. */
    method AppendWide(value: nat, octets: nat, bigEndian: bool)
      modifies this`data
      ensures data == old(data) + Word(value, octets, bigEndian)
    {
      if bigEndian {
        for k := octets downto 0
          invariant data == old(data) + Big(value, octets)[..octets - k]
        {
          OctetByShift(value, octets, k);
          data := data + [value / Limit(k) % 0x100];
        }
      } else {
        for i := 0 to octets
          invariant data == old(data) + Little(value, octets)[..i]
        {
          OctetByShift(value, octets, i);
          data := data + [value / Limit(i) % 0x100];
        }
      }
    }

    method GetUint8() returns (ok: bool, value: Byte)
      modifies this`position
      ensures ok <==> PeekWord(data, old(position), 1, true).Some?
      ensures ok ==> value == PeekWord(data, old(position), 1, true).value && position == old(position) + 1
      ensures !ok ==> position == old(position)
    {
      if position >= |data| {
        return false, 0;
      }
      value := data[position];
      assert data[position..position + 1] == [value];
      OneOctet(value);
      position := position + 1;
      return true, value;
    }

    method GetUint16(bigEndian: bool) returns (ok: bool, value: nat)
      modifies this`position
      ensures ok <==> PeekWord(data, old(position), 2, bigEndian).Some?
      ensures ok ==> value == PeekWord(data, old(position), 2, bigEndian).value && position == old(position) + 2
      ensures !ok ==> position == old(position)
    {
      if position + 2 > |data| {
        return false, 0;
      }
      var first: int, second: int := data[position], data[position + 1];
      assert data[position..position + 2] == [first, second];
      TwoOctets(first, second);
      value := if bigEndian then first * 0x100 + second else first + second * 0x100;
      position := position + 2;
      return true, value;
    }

    /** The loop of the 64-bit read; the 32-bit read writes the same four terms out. */
    method GetWide(octets: nat, bigEndian: bool) returns (ok: bool, value: nat)
      modifies this`position
      ensures ok <==> PeekWord(data, old(position), octets, bigEndian).Some?
      ensures ok ==> value == PeekWord(data, old(position), octets, bigEndian).value
                     && position == old(position) + octets
      ensures !ok ==> position == old(position)
    {
      if position + octets > |data| {
        return false, 0;
      }
      ghost var word := data[position..position + octets];
      value := 0;
      if bigEndian {
        for i := 0 to octets
          invariant value == Join(word[..i])
        {
          assert word[..i + 1][..i] == word[..i] && word[i] == data[position + i];
          value := value * 0x100 + data[position + i];
        }
      } else {
        for i := 0 to octets
          invariant value == JoinLittle(word[..i])
          invariant position == old(position)
        {
          assert word[..i + 1] == word[..i] + [word[i]] && word[i] == data[position + i];
          JoinLittleSnoc(word[..i], word[i]);
          value := value + data[position + i] * Limit(i);
        }
      }
      assert word[..octets] == word;
      position := position + octets;
      return true, value;
    }

    method GetBytes(length: nat) returns (ok: bool, value: seq<Byte>)
      modifies this`position
      ensures ok <==> Peek(data, old(position), length).Some?
      ensures ok ==> value == Peek(data, old(position), length).value && position == old(position) + length
      ensures !ok ==> position == old(position)
    {
      if position + length > |data| {
        return false, [];
      }
      value := data[position..position + length];
      position := position + length;
      return true, value;
    }

    /** A string whose length can be read but whose octets are missing fails with the cursor behind the
        length. */
    method GetString() returns (ok: bool, value: seq<Byte>)
      modifies this`position
      ensures ok <==> PeekText(data, old(position)).Some?
      ensures ok ==> value == PeekText(data, old(position)).value && position == old(position) + 4 + |value|
      ensures !ok ==> position == if old(position) + 4 > |data| then old(position) else old(position) + 4
    {
      var length;
      ok, length := GetWide(4, true);
      if !ok {
        return false, [];
      }
      ok, value := GetBytes(length);
    }
  }

  // ----- Lists of typed values -----

  datatype Item =
    | WordItem(value: nat, octets: nat, bigEndian: bool)
    | BlockItem(bytes: seq<Byte>)
    | TextItem(text: seq<Byte>)
  {
    ghost predicate Valid() {
      match this
      case WordItem(value, octets, _) => value < Limit(octets)
      case BlockItem(_) => true
      case TextItem(text) => |text| < 0x1_0000_0000
    }

    /** The item appended in front of what is appended after it. */
    function Prepend(rest: seq<Byte>): seq<Byte> {
      match this
      case WordItem(value, octets, bigEndian) => Word(value, octets, bigEndian) + rest
      case BlockItem(bytes) => bytes + rest
      case TextItem(text) => Big(|text|, 4) + (text + rest)
    }

    /** How many octets the item takes. */
    function Size(): nat {
      match this
      case WordItem(_, octets, _) => octets
      case BlockItem(bytes) => |bytes|
      case TextItem(text) => 4 + |text|
    }

    /** What the reader has to know to read the item back. */
    function Shape(): Shape {
      match this
      case WordItem(_, octets, bigEndian) => WordShape(octets, bigEndian)
      case BlockItem(bytes) => BlockShape(|bytes|)
      case TextItem(_) => TextShape
    }
  }

  datatype Shape = WordShape(octets: nat, bigEndian: bool) | BlockShape(length: nat) | TextShape

  /** What reading an item gives: the item and the new cursor, or nothing. */
  datatype ItemRead = NoItem | ItemRead(item: Item, next: nat)

  /** What reading a list gives. */
  datatype ListRead = NoList | ListRead(items: seq<Item>, end: nat)

  /** One read of the given shape. */
  function ReadItem(data: seq<Byte>, position: nat, shape: Shape): ItemRead {
    match shape
    case WordShape(n, bigEndian) =>
      var x := PeekWord(data, position, n, bigEndian);
      if x.Some? then ItemRead(WordItem(x.value, n, bigEndian), position + n) else NoItem
    case BlockShape(n) =>
      var s := Peek(data, position, n);
      if s.Some? then ItemRead(BlockItem(s.value), position + n) else NoItem
    case TextShape =>
      var s := PeekText(data, position);
      if s.Some? then ItemRead(TextItem(s.value), position + 4 + |s.value|) else NoItem
  }

  function ReadItems(data: seq<Byte>, position: nat, shapes: seq<Shape>): ListRead
    decreases |shapes|
  {
    if shapes == [] then ListRead([], position)
    else
      var r := ReadItem(data, position, shapes[0]);
      if r == NoItem then NoList
      else
        var rs := ReadItems(data, r.next, shapes[1..]);
        if rs == NoList then NoList else ListRead([r.item] + rs.items, rs.end)
  }

  /** A list is read whole or not at all. */
  lemma {:induction false} ReadsWhole(data: seq<Byte>, position: nat, shapes: seq<Shape>)
    ensures var r := ReadItems(data, position, shapes);
            r.ListRead? ==> |r.items| == |shapes| && forall k :: 0 <= k < |shapes| ==> r.items[k].Shape() == shapes[k]
    decreases |shapes|
  {
    if shapes != [] {
      var r := ReadItem(data, position, shapes[0]);
      if r.ItemRead? {
        ReadsWhole(data, r.next, shapes[1..]);
      }
    }
  }

  /** The octets of the items, one behind the other. */
  function AllOctets(items: seq<Item>): seq<Byte> {
    if items == [] then [] else items[0].Prepend(AllOctets(items[1..]))
  }

  function TotalSize(items: seq<Item>): nat {
    if items == [] then 0 else items[0].Size() + TotalSize(items[1..])
  }

  function Shapes(items: seq<Item>): seq<Shape> {
    if items == [] then [] else [items[0].Shape()] + Shapes(items[1..])
  }

  lemma StandsPeek(data: seq<Byte>, position: nat, octets: seq<Byte>)
    requires OctetsAt(data, position, octets)
    ensures Peek(data, position, |octets|) == Some(octets)
  {
    OctetsSlice(data, position, octets);
  }

  ghost predicate ItemStands(data: seq<Byte>, position: nat, item: Item) {
    match item
    case WordItem(value, octets, bigEndian) => OctetsAt(data, position, Word(value, octets, bigEndian))
    case BlockItem(bytes) => OctetsAt(data, position, bytes)
    case TextItem(text) => OctetsAt(data, position, Big(|text|, 4)) && OctetsAt(data, position + 4, text)
  }

  lemma ItemReads(data: seq<Byte>, position: nat, item: Item)
    requires item.Valid() && ItemStands(data, position, item)
    ensures ReadItem(data, position, item.Shape()) == ItemRead(item, position + item.Size())
  {
    match item {
      case WordItem(value, n, bigEndian) =>
        StandsPeek(data, position, Word(value, n, bigEndian));
        ValueOfWord(value, n, bigEndian);
      case BlockItem(bytes) =>
        StandsPeek(data, position, bytes);
      case TextItem(text) =>
        StandsPeek(data, position, Big(|text|, 4));
        StandsPeek(data, position + 4, text);
        Limits();
        JoinBig(|text|, 4);
    }
  }

  lemma ReadItemsCons(data: seq<Byte>, position: nat, shape: Shape, shapes: seq<Shape>, item: Item, next: nat,
                      items: seq<Item>, end: nat)
    requires ReadItem(data, position, shape) == ItemRead(item, next)
    requires ReadItems(data, next, shapes) == ListRead(items, end)
    ensures ReadItems(data, position, [shape] + shapes) == ListRead([item] + items, end)
  {
    assert ([shape] + shapes)[1..] == shapes;
  }

  /** A string stands behind its length, in four octets, most significant first. */
  lemma TextOctets(text: seq<Byte>)
    requires |text| < 0x1_0000_0000
    ensures var n := |text|;
            TextItem(text).Prepend([])
            == [n / 0x100_0000, n / 0x1_0000 % 0x100, n / 0x100 % 0x100, n % 0x100] + text
  {
    BigByShifts(|text|);
  }

  /** The whole list reads back, and the cursor ends behind it. */
  ghost predicate ReadsBack(data: seq<Byte>, position: nat, items: seq<Item>) {
    ReadItems(data, position, Shapes(items)) == ListRead(items, position + TotalSize(items))
  }

  lemma OneMoreReads(data: seq<Byte>, position: nat, item: Item, rest: seq<Item>)
    requires item.Valid() && ItemStands(data, position, item)
    requires ReadsBack(data, position + item.Size(), rest)
    ensures ReadsBack(data, position, [item] + rest)
  {
    var items, next := [item] + rest, position + item.Size();
    assert items[1..] == rest;
    assert Shapes(items) == [item.Shape()] + Shapes(rest);
    assert ReadItem(data, position, item.Shape()) == ItemRead(item, next) by { ItemReads(data, position, item); }
    ReadItemsCons(data, position, item.Shape(), Shapes(rest), item, next, rest, next + TotalSize(rest));
  }

  lemma StandsSplitTwice(data: seq<Byte>, position: nat, a: seq<Byte>, b: seq<Byte>, c: seq<Byte>)
    requires OctetsAt(data, position, a + (b + c))
    ensures OctetsAt(data, position, a) && OctetsAt(data, position + |a|, b)
    ensures OctetsAt(data, position + |a| + |b|, c)
  {
    OctetsSplit(data, position, a, b + c);
    OctetsSplit(data, position + |a|, b, c);
  }

  lemma WordStands(data: seq<Byte>, position: nat, item: Item, rest: seq<Byte>)
    requires item.WordItem? && OctetsAt(data, position, item.Prepend(rest))
    ensures ItemStands(data, position, item) && OctetsAt(data, position + item.Size(), rest)
  {
    OctetsSplit(data, position, Word(item.value, item.octets, item.bigEndian), rest);
  }

  lemma BlockStands(data: seq<Byte>, position: nat, item: Item, rest: seq<Byte>)
    requires item.BlockItem? && OctetsAt(data, position, item.Prepend(rest))
    ensures ItemStands(data, position, item) && OctetsAt(data, position + item.Size(), rest)
  {
    OctetsSplit(data, position, item.bytes, rest);
  }

  lemma TextStands(data: seq<Byte>, position: nat, item: Item, rest: seq<Byte>)
    requires item.TextItem? && OctetsAt(data, position, item.Prepend(rest))
    ensures ItemStands(data, position, item) && OctetsAt(data, position + item.Size(), rest)
  {
    StandsSplitTwice(data, position, Big(|item.text|, 4), item.text, rest);
  }

  /** The octets of one item, and behind them those of the others. */
  lemma NextStands(data: seq<Byte>, position: nat, item: Item, rest: seq<Byte>)
    requires OctetsAt(data, position, item.Prepend(rest))
    ensures ItemStands(data, position, item) && OctetsAt(data, position + item.Size(), rest)
  {
    match item {
      case WordItem(_, _, _) => WordStands(data, position, item, rest);
      case BlockItem(_) => BlockStands(data, position, item, rest);
      case TextItem(_) => TextStands(data, position, item, rest);
    }
  }

  /** Any list of words, blocks and strings, in any mix of byte orders, is read back as it was appended,
      and leaves the cursor at its end. */
  lemma {:induction false} ItemsRoundTrip(data: seq<Byte>, position: nat, items: seq<Item>)
    requires (forall i :: i in items ==> i.Valid()) && OctetsAt(data, position, AllOctets(items))
    ensures ReadsBack(data, position, items)
    decreases items
  {
    if items != [] {
      var item, rest := items[0], items[1..];
      assert item in items && items == [item] + rest;
      NextStands(data, position, item, AllOctets(rest));
      ItemsRoundTrip(data, position + item.Size(), rest);
      OneMoreReads(data, position, item, rest);
    }
  }

  lemma {:induction false} SizeOfOctets(items: seq<Item>)
    ensures |AllOctets(items)| == TotalSize(items)
  {
    if items != [] {
      SizeOfOctets(items[1..]);
    }
  }

  /** Once a payload of appended items is read to its end, the cursor is at its size and no further word can
      be read. */
  lemma NothingBeyond(items: seq<Item>, octets: nat, bigEndian: bool)
    requires (forall i :: i in items ==> i.Valid()) && octets > 0
    ensures var r := ReadItems(AllOctets(items), 0, Shapes(items));
            && r == ListRead(items, |AllOctets(items)|)
            && PeekWord(AllOctets(items), r.end, octets, bigEndian) == None
  {
    SizeOfOctets(items);
    ItemsRoundTrip(AllOctets(items), 0, items);
  }

  // ----- Lists on the object -----

  lemma PrependFirst(item: Item, a: seq<Byte>, b: seq<Byte>)
    ensures item.Prepend(a + b) == item.Prepend(a) + b
  {
    match item {
      case WordItem(value, n, bigEndian) => Assoc(Word(value, n, bigEndian), a, b);
      case BlockItem(bytes) => Assoc(bytes, a, b);
      case TextItem(text) =>
        Assoc(Big(|text|, 4), text + a, b);
        Assoc(text, a, b);
    }
  }

  /** One more item stands behind the others. */
  lemma {:induction false} AllOctetsSnoc(items: seq<Item>, item: Item)
    ensures AllOctets(items + [item]) == AllOctets(items) + item.Prepend([])
  {
    if items == [] {
      assert items + [item] == [item] && [item][1..] == [];
    } else {
      AllOctetsSnoc(items[1..], item);
      assert (items + [item])[1..] == items[1..] + [item];
      PrependFirst(items[0], AllOctets(items[1..]), item.Prepend([]));
    }
  }

  /** A single octet has no byte order. */
  lemma OneOctetWord(value: nat, bigEndian: bool)
    requires value < 0x100
    ensures Word(value, 1, bigEndian) == Word(value, 1, true)
  {
    assert Big(value, 1) == Big(value / 0x100, 0) + [value];
    assert Little(value, 1) == [value] + Little(value / 0x100, 0);
  }

  /** Appending one value by the method for its type; a string goes behind its length. */
  method AppendItem(payload: Payload, item: Item)
    requires item.Valid()
    modifies payload`data
    ensures payload.data == old(payload.data) + item.Prepend([])
  {
    match item {
      case WordItem(value, octets, bigEndian) =>
        Limits();
        if octets == 1 {
          OneOctetWord(value, bigEndian);
          payload.AppendUint8(value);
        } else if octets == 2 {
          payload.AppendUint16(value, bigEndian);
        } else {
          payload.AppendWide(value, octets, bigEndian);
        }
      case BlockItem(bytes) =>
        payload.AppendBytes(bytes);
      case TextItem(text) =>
        payload.AppendWide(|text|, 4, true);
        payload.AppendBytes(text);
    }
  }

  method AppendItems(payload: Payload, items: seq<Item>)
    requires forall i :: i in items ==> i.Valid()
    modifies payload`data
    ensures payload.data == old(payload.data) + AllOctets(items)
  {
    for k := 0 to |items|
      invariant payload.data == old(payload.data) + AllOctets(items[..k])
    {
      AppendItem(payload, items[k]);
      assert items[..k + 1] == items[..k] + [items[k]];
      AllOctetsSnoc(items[..k], items[k]);
    }
    assert items[..|items|] == items;
  }

  lemma OneOctetPeek(data: seq<Byte>, position: nat, bigEndian: bool)
    ensures PeekWord(data, position, 1, bigEndian) == PeekWord(data, position, 1, true)
  {
    var s := Peek(data, position, 1);
    if s.Some? {
      var b := s.value[0];
      assert s.value == [b] && [b][1..] == [];
      OneOctet(b);
      assert JoinLittle([b]) == b + 0x100 * JoinLittle([]);
    }
  }

  /** Reading one value by the method for its type. A failed read of a word or a block leaves the cursor
      where it was. */
  method ReadNext(payload: Payload, shape: Shape) returns (r: ItemRead)
    modifies payload`position
    ensures r == ReadItem(payload.data, old(payload.position), shape)
    ensures r.ItemRead? ==> payload.position == r.next
    ensures r.NoItem? && !shape.TextShape? ==> payload.position == old(payload.position)
  {
    var ok;
    match shape {
      case WordShape(octets, bigEndian) =>
        var value;
        if octets == 1 {
          ok, value := payload.GetUint8();
          OneOctetPeek(payload.data, old(payload.position), bigEndian);
        } else if octets == 2 {
          ok, value := payload.GetUint16(bigEndian);
        } else {
          ok, value := payload.GetWide(octets, bigEndian);
        }
        r := if ok then ItemRead(WordItem(value, octets, bigEndian), payload.position) else NoItem;
      case BlockShape(length) =>
        var bytes;
        ok, bytes := payload.GetBytes(length);
        r := if ok then ItemRead(BlockItem(bytes), payload.position) else NoItem;
      case TextShape =>
        var text;
        ok, text := payload.GetString();
        r := if ok then ItemRead(TextItem(text), payload.position) else NoItem;
    }
  }

  /** A list of which some items were read before. */
  ghost function Continued(items: seq<Item>, rest: ListRead): ListRead {
    if rest == NoList then NoList else ListRead(items + rest.items, rest.end)
  }

  lemma ContinuedCons(items: seq<Item>, item: Item, rest: ListRead)
    ensures Continued(items, Continued([item], rest)) == Continued(items + [item], rest)
  {
    if rest != NoList {
      Assoc(items, [item], rest.items);
    }
  }

  /** Reading values one by one until the list is read or one read fails. */
  method ReadEach(payload: Payload, shapes: seq<Shape>) returns (r: ListRead)
    modifies payload`position
    ensures r == ReadItems(payload.data, old(payload.position), shapes)
    ensures r.ListRead? ==> payload.position == r.end
  {
    var items := [];
    ghost var start := payload.position;
    for k := 0 to |shapes|
      invariant ReadItems(payload.data, start, shapes)
                == Continued(items, ReadItems(payload.data, payload.position, shapes[k..]))
    {
      assert shapes[k..][1..] == shapes[k + 1..];
      var item := ReadNext(payload, shapes[k]);
      if item == NoItem {
        return NoList;
      }
      ghost var rest := ReadItems(payload.data, payload.position, shapes[k + 1..]);
      ContinuedCons(items, item.item, rest);
      items := items + [item.item];
    }
    return ListRead(items, payload.position);
  }

  /** The round trip on the object: values appended to a new payload and read back from its start, in any
      mix of types and byte orders; then the cursor is at the end and stays there when one more word is
      asked for. */
  method AppendThenRead(items: seq<Item>, octets: nat, bigEndian: bool) returns (payload: Payload, r: ListRead)
    requires (forall i :: i in items ==> i.Valid()) && octets > 0
    ensures r == ListRead(items, |payload.data|)
    ensures payload.data == AllOctets(items) && payload.position == |payload.data|
  {
    payload := new Payload();
    AppendItems(payload, items);
    ItemsRoundTrip(payload.data, 0, items);
    SizeOfOctets(items);
    r := ReadEach(payload, Shapes(items));
    var more := ReadNext(payload, WordShape(octets, bigEndian));
    assert more == NoItem;
  }
}
