/** The ring as the object the recorder uses: a slot array, two wrapping 64-bit cursors and a
    wrapping drop counter, each call proved to be one step of `RingModel`. */
module RingBuffer {
  import opened Bits
  import opened WireFormat
  import opened LogFormat
  import opened RingModel

  /** What a 64-bit counter shows after n increments. */
  function Wrap(n: nat): u64 { n % 0x1_0000_0000_0000_0000 }

  lemma WrapStep(n: nat)
    ensures Wrap(Wrap(n) + 1) == Wrap(n + 1)
  {
  }

  datatype Slot = Slot(
    ready: bool, topicId: u16, stamp: u64, seqNo: u64, payloadLen: u32, payload: seq<byte>)

  /** The consumer's copy; bytes of `payload` past `payloadLen` are left over from earlier pops. */
  datatype PoppedRecord = PoppedRecord(
    topicId: u16, stamp: u64, seqNo: u64, payloadLen: u32, payload: seq<byte>)
  {
    ghost predicate Sized() { |payload| == MAX_PAYLOAD && payloadLen <= MAX_PAYLOAD }

    function Record(): Record
      requires payloadLen <= |payload|
    {
      LogFormat.Record(topicId, stamp, seqNo, payload[..payloadLen])
    }
  }

  /** `memcpy` over the front of a fixed-size buffer: what lies behind it stays. */
  function Overwrite(buf: seq<byte>, data: seq<byte>): (r: seq<byte>)
    requires |data| <= |buf|
    ensures |r| == |buf| && r[..|data|] == data && r[|data|..] == buf[|data|..]
  {
    data + buf[|data|..]
  }

  ghost predicate Holds(slot: Slot, m: Option<Entry>) {
    && |slot.payload| == MAX_PAYLOAD && slot.payloadLen <= MAX_PAYLOAD
    && slot.ready == m.Some?
    && (m.Some? ==> m.value.rec == Record(slot.topicId, slot.stamp, slot.seqNo, slot.payload[..slot.payloadLen]))
  }

  /** The consumer's field-by-field copy; bytes past the record's length keep their old value. */
  function CopyOut(out: PoppedRecord, slot: Slot): (r: PoppedRecord)
    requires out.Sized() && |slot.payload| == MAX_PAYLOAD && slot.payloadLen <= MAX_PAYLOAD
    ensures r.Sized() && r.payload[r.payloadLen..] == out.payload[r.payloadLen..]
    ensures r.Record() == Record(slot.topicId, slot.stamp, slot.seqNo, slot.payload[..slot.payloadLen])
  {
    out.(topicId := slot.topicId, stamp := slot.stamp, seqNo := slot.seqNo, payloadLen := slot.payloadLen,
         payload := Overwrite(out.payload, slot.payload[..slot.payloadLen]))
  }

  class MpscRingBuffer {
    const capacity: nat
    const slots: array<Slot>
    var writeIndex: u64
    var readIndex: u64
    var droppedCount: u64
    ghost const bits: nat
    ghost var ops: seq<Op>

    /** The abstract ring this object stands for: the run of all calls so far. */
    ghost function Model(): (s: Ring)
      requires capacity > 0
      reads this
    {
      Run(Init(capacity), ops)
    }

    ghost predicate Valid()
      reads this, slots
    {
      && bits <= 63 && capacity == Pow2(bits) == slots.Length
      && writeIndex == Wrap(Model().claimed)
      && readIndex == Wrap(Model().served)
      && droppedCount == Wrap(Model().dropped)
      && forall i :: 0 <= i < capacity ==> Holds(slots[i], Model().slots[i])
    }

    constructor (n: nat)
      requires 1 <= n < TWO_64 && And(n, n - 1) == 0
      ensures Valid() && fresh(slots) && capacity == n && ops == []
    {
      PowerOfTwoTest(n);
      ghost var k: nat :| n == Pow2(k);
      PowerBelow(k);
      capacity, bits := n, k;
      slots := new Slot[n](i => Slot(false, 0, 0, 0, 0, Zeros(MAX_PAYLOAD)));
      writeIndex, readIndex, droppedCount, ops := 0, 0, 0, [];
    }

    /** The slot a cursor selects by masking is the one its unbounded ticket belongs to. */
    lemma SlotIndex(n: nat)
      requires Valid()
      ensures And(Wrap(n), capacity - 1) == SlotOf(n, capacity)
    {
      WrappedMask(n, bits);
    }

    method TryPush(topicId: u16, stamp: u64, seqNo: u64, data: seq<byte>, len: u32) returns (ok: bool)
      requires Valid() && (len <= MAX_PAYLOAD ==> len <= |data|)
      modifies this, slots
      ensures Valid()
      ensures len > MAX_PAYLOAD ==> !ok && ops == old(ops)
      ensures len <= MAX_PAYLOAD ==>
                var op := Push(Record(topicId, stamp, seqNo, data[..len]));
                ops == old(ops) + [op] && PushOut(ok) == Step(old(Model()), op).1
    {
      if len > MAX_PAYLOAD {
        return false;
      }
      ghost var s := Model();
      ghost var op := Push(Record(topicId, stamp, seqNo, data[..len]));
      RunSnoc(Init(capacity), ops, op);
      SlotIndex(s.claimed);
      WrapStep(s.claimed);
      WrapStep(s.dropped);
      PushShape(s, op.rec);
      hide SlotOf, Run, Init, Wrap, And, Pow2, Step, At;

      var idx := writeIndex;
      writeIndex := Wrap(writeIndex + 1);
      var k := And(idx, capacity - 1);
      assert Holds(slots[k], s.slots[k]);
      ops := ops + [op];
      if slots[k].ready {
        droppedCount := Wrap(droppedCount + 1);
        return false;
      }
      var slot := slots[k].(topicId := topicId);
      slot := slot.(stamp := stamp);
      slot := slot.(seqNo := seqNo);
      slot := slot.(payloadLen := len);
      slot := slot.(payload := Overwrite(slot.payload, data[..len]));
      assert Holds(slot.(ready := true), Some(Entry(s.claimed, op.rec)));
      slots[k] := slot.(ready := true);
      return true;
    }

    method TryPop(rec: PoppedRecord) returns (ok: bool, out: PoppedRecord)
      requires Valid() && rec.Sized()
      modifies this, slots
      ensures Valid() && out.Sized() && ops == old(ops) + [Pop]
      ensures Step(old(Model()), Pop).1 == PopOut(if ok then Some(out.Record()) else None)
      ensures !ok ==> out == rec && Model() == old(Model())
      ensures ok ==> out.payload[out.payloadLen..] == rec.payload[out.payloadLen..]
    {
      ghost var s := Model();
      RunSnoc(Init(capacity), ops, Pop);
      SlotIndex(s.served);
      WrapStep(s.served);
      PopShape(s);
      hide SlotOf, Run, Init, Wrap, And, Pow2, Step, At;

      out := rec;
      var k := And(readIndex, capacity - 1);
      assert Holds(slots[k], s.slots[k]);
      ops := ops + [Pop];
      if !slots[k].ready {
        return false, out;
      }
      out := CopyOut(out, slots[k]);
      assert Holds(slots[k].(ready := false), None);
      hide CopyOut, Overwrite;
      slots[k] := slots[k].(ready := false);
      readIndex := Wrap(readIndex + 1);
      return true, out;
    }

    method DroppedCount() returns (n: u64)
      requires Valid()
      ensures n == Wrap(Model().dropped)
    {
      n := droppedCount;
    }
  }

  lemma {:induction false} PowerBelow(k: nat)
    requires Pow2(k) < TWO_64
    ensures k <= 63
  {
    Pow2Values();
    if k > 64 {
      PowerMonotone(64, k);
    }
  }

  lemma {:induction false} PowerMonotone(j: nat, k: nat)
    requires j <= k
    ensures Pow2(j) <= Pow2(k)
  {
    if j < k { PowerMonotone(j, k - 1); }
  }

  lemma PushShape(s: Ring, rec: Record)
    requires Shaped(s) && !Oversize(rec)
    ensures var k, p := SlotOf(s.claimed, |s.slots|), Step(s, Push(rec));
            p.1 == PushOut(s.slots[k].None?) && p.0.served == s.served && p.0.claimed == s.claimed + 1
            && p.0.dropped == s.dropped + (if s.slots[k].None? then 0 else 1)
            && p.0.slots == if s.slots[k].None? then s.slots[k := Some(Entry(s.claimed, rec))] else s.slots
  {
  }

  lemma PopShape(s: Ring)
    requires Shaped(s)
    ensures var k, p := SlotOf(s.served, |s.slots|), Step(s, Pop);
            match s.slots[k]
            case None => p == (s, PopOut(None))
            case Some(e) =>
              p.1 == PopOut(Some(e.rec)) && p.0.slots == s.slots[k := None] && p.0.served == s.served + 1
              && p.0.claimed == s.claimed && p.0.dropped == s.dropped
  {
  }
}
