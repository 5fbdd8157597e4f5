/** The wrap-around command ring in shared memory, as a queue. Slots are records; a slot keeps 256 octets
    and whatever an earlier command left behind the copied part. */
module ShmRing {
  import opened Arithmetic
  import opened Bytes

  const SLOT_PAYLOAD := 256

  datatype Command = Command(sequence: U32, clientId: U16, commandType: Byte, payload: seq<Byte>)

  datatype Slot = Slot(sequence: U32, clientId: U16, commandType: Byte, payloadLength: U32, data: seq<Byte>)

  /** `memcpy` of at most 256 octets over what the slot holds. */
  function Overwrite(previous: seq<Byte>, payload: seq<Byte>): (s: seq<Byte>)
    requires |previous| == SLOT_PAYLOAD
    ensures |s| == SLOT_PAYLOAD
  {
    var n := Min(|payload|, SLOT_PAYLOAD);
    payload[..n] + previous[n..]
  }

  function Written(slot: Slot, c: Command): Slot
    requires |slot.data| == SLOT_PAYLOAD
  {
    Slot(c.sequence, c.clientId, c.commandType, |c.payload| % 0x1_0000_0000, Overwrite(slot.data, c.payload))
  }

  /** What the draining side makes of a slot. A declared length over 256 reads past the slot and is cut
      here. */
  function Fetched(slot: Slot): Command
    requires |slot.data| == SLOT_PAYLOAD
  {
    Command(slot.sequence, slot.clientId, slot.commandType, slot.data[..Min(slot.payloadLength, SLOT_PAYLOAD)])
  }

  /** A command survives its slot exactly when its payload fits. */
  lemma SlotExactly(slot: Slot, c: Command)
    requires |slot.data| == SLOT_PAYLOAD && |c.payload| < 0x1_0000_0000
    ensures Fetched(Written(slot, c)) == c <==> |c.payload| <= SLOT_PAYLOAD
  {
    var n := Min(|c.payload|, SLOT_PAYLOAD);
    assert Written(slot, c).data[..n] == c.payload[..n];
    if |c.payload| <= SLOT_PAYLOAD {
      assert c.payload[..n] == c.payload;
    } else {
      assert |Fetched(Written(slot, c)).payload| == SLOT_PAYLOAD;
    }
  }

  /** Writing a slot replaces its octets as far as the command reaches and keeps the others. */
  lemma WrittenOctets(slot: Slot, c: Command, k: nat)
    requires |slot.data| == SLOT_PAYLOAD && k < 256
    ensures Written(slot, c).data[k] == if k < |c.payload| then c.payload[k] else slot.data[k]
  {
  }

  /** The draining side copies the declared number of octets from the slot on. Whatever follows the slot,
      those are the payload exactly when it fits or what follows happens to continue it. */
  lemma SlotReadsOn(slot: Slot, c: Command, beyond: seq<Byte>)
    requires |slot.data| == SLOT_PAYLOAD && |c.payload| < 0x1_0000_0000
    requires |c.payload| <= SLOT_PAYLOAD + |beyond|
    ensures (Written(slot, c).data + beyond)[..Written(slot, c).payloadLength] == c.payload
            <==> |c.payload| <= SLOT_PAYLOAD || c.payload[SLOT_PAYLOAD..] == beyond[..|c.payload| - SLOT_PAYLOAD]
  {
    var n := |c.payload|;
    var read := (Written(slot, c).data + beyond)[..n];
    if n <= SLOT_PAYLOAD {
      assert read == c.payload[..n] == c.payload;
    } else {
      assert Written(slot, c).data == c.payload[..SLOT_PAYLOAD];
      assert read[..SLOT_PAYLOAD] == c.payload[..SLOT_PAYLOAD];
      assert read[SLOT_PAYLOAD..] == beyond[..n - SLOT_PAYLOAD];
      assert c.payload == c.payload[..SLOT_PAYLOAD] + c.payload[SLOT_PAYLOAD..];
      assert read == read[..SLOT_PAYLOAD] + read[SLOT_PAYLOAD..];
    }
  }

  /** 257 zeros: with another octet behind the slot they do not come out as they went in. */
  lemma SlotExample(slot: Slot, c: Command, n: nat, behind: Byte)
    requires |slot.data| == SLOT_PAYLOAD && n == 257 && c.payload == seq(n, i => 0)
    ensures (Written(slot, c).data + [behind])[..Written(slot, c).payloadLength] == c.payload <==> behind == 0
  {
    SlotReadsOn(slot, c, [behind]);
    assert c.payload[SLOT_PAYLOAD..] == [0];
    assert [behind][..1] == [behind];
  }

  // ----- The ring as a value -----

  /** `index % capacity`, by taking the capacity off as often as it fits. */
  function Wrap(index: nat, capacity: nat): (w: nat)
    requires capacity > 0
    ensures w < capacity
  {
    if index < capacity then index else Wrap(index - capacity, capacity)
  }

  datatype Ring = Ring(count: nat, readIndex: nat, writeIndex: nat, slots: seq<Slot>)
  {
    function Capacity(): nat {
      |slots|
    }

    /** The write index is the read index plus the count, modulo the capacity. */
    ghost predicate Valid() {
      && (forall s :: s in slots ==> |s.data| == SLOT_PAYLOAD)
      && count <= Capacity()
      && (Capacity() == 0 ==> readIndex == writeIndex == 0)
      && (Capacity() > 0 ==> readIndex < Capacity() && writeIndex == Wrap(readIndex + count, Capacity()))
    }

    /** The slot of the command that is `i` places behind the oldest. */
    function Place(i: nat): nat
      requires Capacity() > 0
    {
      Wrap(readIndex + i, Capacity())
    }

    /** The commands in the ring, oldest first. */
    ghost function Contents(): seq<Command>
      requires Valid()
    {
      seq(count, i requires 0 <= i < count => Fetched(slots[Place(i)]))
    }
  }

  function Enqueue(r: Ring, c: Command): Ring
    requires r.writeIndex < r.Capacity() && |r.slots[r.writeIndex].data| == SLOT_PAYLOAD
  {
    Ring(r.count + 1, r.readIndex, Wrap(r.writeIndex + 1, r.Capacity()),
         r.slots[r.writeIndex := Written(r.slots[r.writeIndex], c)])
  }

  function Dequeue(r: Ring): Ring
    requires r.count > 0 && r.Capacity() > 0
  {
    Ring(r.count - 1, Wrap(r.readIndex + 1, r.Capacity()), r.writeIndex, r.slots)
  }

  lemma WrapOnce(index: nat, capacity: nat)
    requires capacity > 0 && index < 2 * capacity
    ensures Wrap(index, capacity) == if index < capacity then index else index - capacity
  {
  }

  /** Taking off the capacity as often as it fits leaves the remainder. */
  lemma {:induction false} WrapIsRemainder(index: nat, capacity: nat)
    requires capacity > 0
    ensures Wrap(index, capacity) == index % capacity
    decreases index
  {
    if index >= capacity {
      WrapIsRemainder(index - capacity, capacity);
      RemainderStep(index - capacity, capacity);
    } else {
      RemainderStep(index, capacity);
    }
  }

  lemma EnqueueKeeps(r: Ring, c: Command)
    requires r.Valid() && r.count < r.Capacity()
    ensures Enqueue(r, c).Valid()
    ensures Enqueue(r, c).Contents() == r.Contents() + [Fetched(Written(r.slots[r.writeIndex], c))]
  {
    var e, n := Enqueue(r, c), r.Capacity();
    WrapOnce(r.readIndex + r.count, n);
    WrapOnce(r.writeIndex + 1, n);
    WrapOnce(r.readIndex + r.count + 1, n);
    assert e.Place(r.count) == r.writeIndex;
    forall i: nat | i < r.count ensures e.slots[e.Place(i)] == r.slots[r.Place(i)] {
      WrapOnce(r.readIndex + i, n);
    }
  }

  /** A command put into a ring that is not full becomes the youngest; every other keeps its place and its
      octets. It is the command itself exactly when its payload fits a slot. */
  lemma EnqueueRefines(r: Ring, c: Command)
    requires r.Valid() && r.count < r.Capacity() && |c.payload| < 0x1_0000_0000
    ensures Enqueue(r, c).Valid()
    ensures |Enqueue(r, c).Contents()| == r.count + 1 && Enqueue(r, c).Contents()[..r.count] == r.Contents()
    ensures Enqueue(r, c).Contents() == r.Contents() + [c] <==> |c.payload| <= SLOT_PAYLOAD
  {
    EnqueueKeeps(r, c);
    SlotExactly(r.slots[r.writeIndex], c);
    var last := Fetched(Written(r.slots[r.writeIndex], c));
    assert (r.Contents() + [last])[r.count] == last && (r.Contents() + [c])[r.count] == c;
  }

  /** Taking from a ring that is not empty takes the oldest and leaves the rest as they were. */
  lemma DequeueRefines(r: Ring)
    requires r.Valid() && r.count > 0
    ensures Dequeue(r).Valid()
    ensures r.Contents() == [Fetched(r.slots[r.readIndex])] + Dequeue(r).Contents()
  {
    var d, n := Dequeue(r), r.Capacity();
    WrapOnce(r.readIndex + 1, n);
    WrapOnce(r.readIndex + r.count, n);
    WrapOnce(r.readIndex, n);
    WrapOnce(d.readIndex + d.count, n);
    assert r.Place(0) == r.readIndex;
    forall i: nat | i < d.count ensures d.Place(i) == r.Place(i + 1) {
      WrapOnce(d.readIndex + i, n);
      WrapOnce(r.readIndex + (i + 1), n);
    }
  }

  // ----- Whole runs -----

  datatype Op = Send(command: Command) | Drain

  /** The ring with what was accepted into it and what came out of it. */
  datatype Trace = Trace(ring: Ring, accepted: seq<Command>, delivered: seq<Command>)

  function Step(t: Trace, op: Op): Trace
    requires t.ring.Valid()
  {
    match op
    case Send(c) =>
      if t.ring.count >= t.ring.Capacity() then t
      else Trace(Enqueue(t.ring, c), t.accepted + [c], t.delivered)
    case Drain =>
      if t.ring.count == 0 then t
      else Trace(Dequeue(t.ring), t.accepted, t.delivered + [Fetched(t.ring.slots[t.ring.readIndex])])
  }

  ghost predicate Fifo(t: Trace) {
    t.ring.Valid() && t.accepted == t.delivered + t.ring.Contents()
  }

  ghost predicate AllFit(ops: seq<Op>) {
    forall op :: op in ops && op.Send? ==> |op.command.payload| <= SLOT_PAYLOAD
  }

  lemma StepFifo(t: Trace, op: Op)
    requires Fifo(t) && (op.Send? ==> |op.command.payload| <= SLOT_PAYLOAD)
    ensures Fifo(Step(t, op))
    ensures Step(t, op).ring.Capacity() == t.ring.Capacity()
    ensures op.Send? ==> (Step(t, op) == t <==> |t.ring.Contents()| == t.ring.Capacity())
    ensures op.Send? && Step(t, op) != t ==> Step(t, op).accepted == t.accepted + [op.command]
                                             && Step(t, op).delivered == t.delivered
    ensures op.Drain? ==> Step(t, op).accepted == t.accepted
                          && |Step(t, op).delivered| == |t.delivered| + if t.ring.Contents() == [] then 0 else 1
  {
    match op {
      case Send(c) =>
        if t.ring.count < t.ring.Capacity() {
          EnqueueRefines(t.ring, c);
          Assoc(t.delivered, t.ring.Contents(), [c]);
        }
      case Drain =>
        if t.ring.count > 0 {
          DequeueRefines(t.ring);
          Assoc(t.delivered, [Fetched(t.ring.slots[t.ring.readIndex])], Dequeue(t.ring).Contents());
        }
    }
  }

  ghost function RunOps(t: Trace, ops: seq<Op>): Trace
    requires Fifo(t) && AllFit(ops)
    ensures Fifo(RunOps(t, ops)) && RunOps(t, ops).ring.Capacity() == t.ring.Capacity()
  {
    if ops == [] then t
    else
      var before, last := ops[..|ops| - 1], ops[|ops| - 1];
      assert forall op :: op in before ==> op in ops;
      StepFifo(RunOps(t, before), last);
      Step(RunOps(t, before), last)
  }

  /** Over all interleavings of sending and draining, what came out followed by what is still in the ring is
      what was accepted, in order, each once, with its fields and payload; the ring never overflows. */
  lemma RingIsFifo(slots: seq<Slot>, ops: seq<Op>)
    requires (forall s :: s in slots ==> |s.data| == SLOT_PAYLOAD) && AllFit(ops)
    ensures Fifo(Trace(Ring(0, 0, 0, slots), [], []))
    ensures var t := RunOps(Trace(Ring(0, 0, 0, slots), [], []), ops);
            && t.accepted == t.delivered + t.ring.Contents()
            && t.ring.count <= |slots|
            && (|slots| > 0 ==> t.ring.writeIndex == (t.ring.readIndex + t.ring.count) % |slots|)
  {
    assert Ring(0, 0, 0, slots).Contents() == [];
    var r := RunOps(Trace(Ring(0, 0, 0, slots), [], []), ops).ring;
    if |slots| > 0 {
      WrapIsRemainder(r.readIndex + r.count, |slots|);
    }
  }

  // ----- The ring in shared memory -----

  class SharedRing {
    var count: nat
    var readIndex: nat
    var writeIndex: nat
    const slots: array<Slot>
    const clientId: U32
    /** The next sequence number. */
    var sequence: U32

    ghost function Now(): Ring
      reads this, slots
    {
      Ring(count, readIndex, writeIndex, slots[..])
    }

    constructor (capacity: nat, clientId: U32)
      ensures Now().Valid() && Now().Contents() == [] && Now().Capacity() == capacity
      ensures fresh(slots) && sequence == 1 && this.clientId == clientId
    {
      count, readIndex, writeIndex, sequence := 0, 0, 0, 1;
      var blank := seq(SLOT_PAYLOAD, i => 0);
      slots := new Slot[capacity](i => Slot(0, 0, 0, 0, blank));
      this.clientId := clientId;
    }

    method SendCommand(commandType: Byte, payload: seq<Byte>) returns (ok: bool)
      requires Now().Valid() && |payload| < 0x1_0000_0000
      modifies this`count, this`writeIndex, this`sequence, slots
      ensures ok <==> old(count) < slots.Length
      ensures !ok ==> Now() == old(Now()) && sequence == old(sequence)
      ensures ok ==> Now() == Enqueue(old(Now()), Command(old(sequence), clientId % 0x1_0000, commandType, payload))
      ensures ok ==> sequence == (old(sequence) + 1) % 0x1_0000_0000
      ensures Now().Valid()
    {
      if count >= slots.Length {
        return false;
      }
      var seqN := sequence;
      sequence := (sequence + 1) % 0x1_0000_0000;
      ghost var command := Command(seqN, clientId % 0x1_0000, commandType, payload);
      EnqueueKeeps(Now(), command);
      WrapIsRemainder(writeIndex + 1, slots.Length);
      assert slots[writeIndex] in slots[..];
      slots[writeIndex] := Slot(seqN, clientId % 0x1_0000, commandType, |payload| % 0x1_0000_0000,
                                Overwrite(slots[writeIndex].data, payload));
      writeIndex := (writeIndex + 1) % slots.Length;
      count := count + 1;
      return true;
    }

    /** One turn of the draining loop. */
    method ProcessOne() returns (command: Command)
      requires Now().Valid() && count > 0
      modifies this`count, this`readIndex
      ensures Now() == Dequeue(old(Now())) && Now().Valid()
      ensures old(Now()).Contents() == [command] + Now().Contents()
    {
      DequeueRefines(Now());
      WrapIsRemainder(readIndex + 1, slots.Length);
      assert slots[readIndex] in slots[..];
      var response := slots[readIndex];
      command := Command(response.sequence, response.clientId, response.commandType,
                         response.data[..Min(response.payloadLength, SLOT_PAYLOAD)]);
      readIndex := (readIndex + 1) % slots.Length;
      count := count - 1;
    }

    /** Draining until the ring is empty. */
    method ProcessAll() returns (commands: seq<Command>)
      requires Now().Valid()
      modifies this`count, this`readIndex
      ensures Now().Valid() && count == 0 && slots[..] == old(slots[..])
      ensures commands == old(Now()).Contents()
    {
      commands := [];
      while count > 0
        invariant Now().Valid() && slots[..] == old(slots[..])
        invariant commands + Now().Contents() == old(Now()).Contents()
      {
        var command := ProcessOne();
        commands := commands + [command];
      }
    }
  }
}
