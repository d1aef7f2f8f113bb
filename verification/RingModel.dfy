/** The ring with each push and each pop as one step, so that calls never overlap, over any
    capacity n >= 1 and with unbounded tickets. A rejected push still consumes its ticket, so the
    writer's cursor can slip ahead of the reader's; the laws below are the ones every such run
    keeps. */
module RingModel {
  import opened Bits
  import opened WireFormat
  import opened LogFormat

  datatype Entry = Entry(ticket: nat, rec: Record)

  /** `claimed` and `served` are write_index_ and read_index_ before wrapping; `accepted` and
      `popped` are the histories of successful pushes and pops. */
  datatype Ring = Ring(
    slots: seq<Option<Entry>>,
    claimed: nat,
    served: nat,
    dropped: nat,
    accepted: seq<Entry>,
    popped: seq<Entry>)

  datatype Op = Push(rec: Record) | Pop

  datatype Out = PushOut(ok: bool) | PopOut(rec: Option<Record>)

  /** The slot that ticket or pop number t uses. */
  function SlotOf(t: nat, n: nat): (k: nat)
    requires n > 0
    ensures k < n
  {
    t % n
  }

  /** How many times that slot has had its turn before. */
  function Lap(a: nat, n: nat): nat
    requires n > 0
  {
    a / n
  }

  predicate Shaped(s: Ring) { |s.slots| > 0 }

  function At(s: Ring, a: nat): Option<Entry>
    requires Shaped(s)
  {
    s.slots[SlotOf(a, |s.slots|)]
  }

  function Init(n: nat): (s: Ring)
    requires n > 0
    ensures |s.slots| == n
  {
    Ring(seq(n, i => None), 0, 0, 0, [], [])
  }

  predicate Oversize(rec: Record) { |rec.payload| > MAX_PAYLOAD }

  function PushStep(s: Ring, rec: Record): (p: (Ring, Out))
    requires Shaped(s)
    ensures |p.0.slots| == |s.slots|
  {
    if Oversize(rec) then (s, PushOut(false))
    else if At(s, s.claimed).Some? then
      (s.(claimed := s.claimed + 1, dropped := s.dropped + 1), PushOut(false))
    else
      var e := Entry(s.claimed, rec);
      (s.(slots := s.slots[SlotOf(s.claimed, |s.slots|) := Some(e)],
          claimed := s.claimed + 1,
          accepted := s.accepted + [e]), PushOut(true))
  }

  function PopStep(s: Ring): (p: (Ring, Out))
    requires Shaped(s)
    ensures |p.0.slots| == |s.slots|
  {
    match At(s, s.served)
    case None => (s, PopOut(None))
    case Some(e) =>
      (s.(slots := s.slots[SlotOf(s.served, |s.slots|) := None],
          served := s.served + 1,
          popped := s.popped + [e]), PopOut(Some(e.rec)))
  }

  function Step(s: Ring, op: Op): (p: (Ring, Out))
    requires Shaped(s)
    ensures |p.0.slots| == |s.slots|
  {
    match op
    case Push(rec) => PushStep(s, rec)
    case Pop => PopStep(s)
  }

  function Run(s: Ring, ops: seq<Op>): (s': Ring)
    requires Shaped(s)
    ensures |s'.slots| == |s.slots|
  {
    if ops == [] then s
    else Step(Run(s, ops[..|ops| - 1]), ops[|ops| - 1]).0
  }

  function Outputs(s: Ring, ops: seq<Op>): (outs: seq<Out>)
    requires Shaped(s)
    ensures |outs| == |ops|
  {
    if ops == [] then []
    else Outputs(s, ops[..|ops| - 1]) + [Step(Run(s, ops[..|ops| - 1]), ops[|ops| - 1]).1]
  }

  lemma RunSnoc(s: Ring, ops: seq<Op>, op: Op)
    requires Shaped(s)
    ensures Run(s, ops + [op]) == Step(Run(s, ops), op).0
  {
    assert (ops + [op])[..|ops|] == ops;
  }

  // ---------------------------------------------------------------- slot arithmetic

  /** Two numbers less than n apart share a slot only when equal. */
  lemma SlotsApart(a: nat, b: nat, n: nat)
    requires n > 0 && a < b < a + n
    ensures SlotOf(a, n) != SlotOf(b, n)
  {
    if SlotOf(a, n) == SlotOf(b, n) {
      ModEqualClose(a, b, n);
    }
  }

  lemma SlotNextLap(a: nat, n: nat)
    requires n > 0
    ensures SlotOf(a + n, n) == SlotOf(a, n) && (a + n) / n == a / n + 1
  {
    ModAddMultiple(a, n, 1);
    var q, r := a / n, a % n;
    assert (q + 1) * n == q * n + n;
    DivModUnique(a + n, n, q + 1, r);
  }

  // ---------------------------------------------------------------- invariants

  /** Every ready slot holds an earlier ticket that belongs there. */
  ghost predicate Tickets(s: Ring)
    requires Shaped(s)
  {
    forall k :: 0 <= k < |s.slots| && s.slots[k].Some? ==>
      s.slots[k].value.ticket < s.claimed && SlotOf(s.slots[k].value.ticket, |s.slots|) == k
  }

  /** In reader order, an empty slot before a ready one was last visited by a ticket
      that precedes the one stored there. */
  ghost predicate EmptyBeforeReady(s: Ring)
    requires Shaped(s)
  {
    forall a: nat, b: nat, v: nat ::
      s.served <= a < b < s.served + |s.slots| && At(s, a).None? && At(s, b).Some?
      && v < s.claimed && SlotOf(v, |s.slots|) == SlotOf(a, |s.slots|)
      ==> v < At(s, b).value.ticket
  }

  /** In reader order, a ready slot is less than one lap ahead of any later ready slot. */
  ghost predicate ReadyOrder(s: Ring)
    requires Shaped(s)
  {
    forall a: nat, b: nat ::
      s.served <= a < b < s.served + |s.slots| && At(s, a).Some? && At(s, b).Some?
      ==> At(s, a).value.ticket < At(s, b).value.ticket + |s.slots|
  }

  /** No popped record is a lap or more ahead of anything popped or still waiting after it. */
  ghost predicate PoppedOrder(s: Ring)
    requires Shaped(s)
  {
    && (forall i :: 0 <= i < |s.popped| ==> s.popped[i].ticket < s.claimed)
    && (forall i, j :: 0 <= i < j < |s.popped| ==> s.popped[i].ticket < s.popped[j].ticket + |s.slots|)
    && (forall i, k :: 0 <= i < |s.popped| && 0 <= k < |s.slots| && s.slots[k].Some? ==>
          s.popped[i].ticket < s.slots[k].value.ticket + |s.slots|)
  }

  /** Records are accepted in ticket order. */
  ghost predicate AcceptedOrder(s: Ring) {
    && (forall i :: 0 <= i < |s.accepted| ==> s.accepted[i].ticket < s.claimed)
    && (forall i, j :: 0 <= i < j < |s.accepted| ==> s.accepted[i].ticket < s.accepted[j].ticket)
  }

  ghost predicate Inv(s: Ring) {
    && Shaped(s) && Tickets(s) && EmptyBeforeReady(s) && ReadyOrder(s)
    && PoppedOrder(s) && AcceptedOrder(s)
  }

  lemma InitInv(n: nat)
    requires n > 0
    ensures Inv(Init(n))
  {
    var s := Init(n);
    assert forall k :: 0 <= k < n ==> s.slots[k].None?;
  }

  lemma PushEmptyBeforeReady(s: Ring, rec: Record)
    requires Inv(s)
    ensures EmptyBeforeReady(PushStep(s, rec).0)
  {
    hide SlotOf;
    var s', n := PushStep(s, rec).0, |s.slots|;
    forall a: nat, b: nat, v: nat |
      s'.served <= a < b < s'.served + n && At(s', a).None? && At(s', b).Some?
      && v < s'.claimed && SlotOf(v, n) == SlotOf(a, n)
      ensures v < At(s', b).value.ticket
    {
      SlotsApart(a, b, n);
      assert At(s, a).None?;
      assert v < s.claimed;
      if s'.accepted == s.accepted || SlotOf(b, n) != SlotOf(s.claimed, n) {
        assert At(s', b) == At(s, b);
      }
    }
  }

  lemma PushReadyPair(s: Ring, rec: Record, a: nat, b: nat)
    requires Inv(s) && s.served <= a < b < s.served + |s.slots|
    requires var s' := PushStep(s, rec).0; At(s', a).Some? && At(s', b).Some?
    ensures var s' := PushStep(s, rec).0; At(s', a).value.ticket < At(s', b).value.ticket + |s.slots|
  {
    hide SlotOf;
    var s', n, w := PushStep(s, rec).0, |s.slots|, s.claimed;
    SlotsApart(a, b, n);
    if s'.accepted != s.accepted && SlotOf(a, n) == SlotOf(w, n) {
      assert At(s, a).None? && At(s, b) == At(s', b);
      if w >= n {
        SlotNextLap(w - n, n);
        assert w - n < At(s, b).value.ticket;
      }
    } else {
      assert At(s', a) == At(s, a);
      assert At(s, a).value.ticket < w;
      assert SlotOf(b, n) != SlotOf(w, n) ==> At(s', b) == At(s, b);
    }
  }

  lemma PushReadyOrder(s: Ring, rec: Record)
    requires Inv(s)
    ensures ReadyOrder(PushStep(s, rec).0)
  {
    var s' := PushStep(s, rec).0;
    hide At, PushStep, Inv;
    forall a: nat, b: nat |
      s'.served <= a < b < s'.served + |s'.slots| && At(s', a).Some? && At(s', b).Some?
      ensures At(s', a).value.ticket < At(s', b).value.ticket + |s'.slots|
    {
      PushServed(s, rec);
      PushReadyPair(s, rec, a, b);
    }
  }

  lemma PushServed(s: Ring, rec: Record)
    requires Shaped(s)
    ensures PushStep(s, rec).0.served == s.served
  {
  }

  lemma PushInv(s: Ring, rec: Record)
    requires Inv(s)
    ensures Inv(PushStep(s, rec).0)
  {
    PushEmptyBeforeReady(s, rec);
    PushReadyOrder(s, rec);
    hide SlotOf;
  }

  /** After a pop the slots ahead of the reader are those it had, minus the one served. */
  lemma PopView(s: Ring, a: nat)
    requires Shaped(s) && At(s, s.served).Some? && s.served < a <= s.served + |s.slots|
    ensures At(PopStep(s).0, a) == if a == s.served + |s.slots| then None else At(s, a)
  {
    hide SlotOf;
    if a == s.served + |s.slots| {
      SlotNextLap(s.served, |s.slots|);
    } else {
      SlotsApart(s.served, a, |s.slots|);
    }
  }

  lemma PopInv(s: Ring)
    requires Inv(s)
    ensures Inv(PopStep(s).0)
  {
    hide SlotOf;
    var s', n := PopStep(s).0, |s.slots|;
    if At(s, s.served).Some? {
      forall a: nat, b: nat, v: nat |
        s'.served <= a < b < s'.served + n && At(s', a).None? && At(s', b).Some?
        && v < s'.claimed && SlotOf(v, n) == SlotOf(a, n)
        ensures v < At(s', b).value.ticket
      {
        PopView(s, a);
        PopView(s, b);
      }
      forall a: nat, b: nat |
        s'.served <= a < b < s'.served + n && At(s', a).Some? && At(s', b).Some?
        ensures At(s', a).value.ticket < At(s', b).value.ticket + n
      {
        PopView(s, a);
        PopView(s, b);
      }
      PopPoppedOrder(s);
    }
  }

  lemma PopPoppedOrder(s: Ring)
    requires Inv(s) && At(s, s.served).Some?
    ensures PoppedOrder(PopStep(s).0)
  {
    hide SlotOf;
    var s', n, e := PopStep(s).0, |s.slots|, At(s, s.served).value;
    forall k | 0 <= k < n && s'.slots[k].Some?
      ensures e.ticket < s'.slots[k].value.ticket + n
    {
      var b := ReaderTurn(s, k);
      assert At(s, b) == s.slots[k];
    }
  }

  /** Each slot has exactly one turn in the reader's next lap. */
  lemma ReaderTurn(s: Ring, k: nat) returns (b: nat)
    requires Shaped(s) && k < |s.slots|
    ensures s.served <= b < s.served + |s.slots| && SlotOf(b, |s.slots|) == k
  {
    b := NextOnSlot(s.served, k, |s.slots|);
  }

  /** The first number from `from` on that uses slot k. */
  lemma NextOnSlot(from: nat, k: nat, n: nat) returns (b: nat)
    requires k < n
    ensures from <= b < from + n && SlotOf(b, n) == k
  {
    var q, r := from / n, from % n;
    assert from == q * n + r;
    if r <= k {
      b := q * n + k;
      DivModUnique(b, n, q, k);
    } else {
      b := (q + 1) * n + k;
      assert b == q * n + n + k;
      DivModUnique(b, n, q + 1, k);
    }
  }

  lemma StepInv(s: Ring, op: Op)
    requires Inv(s)
    ensures Inv(Step(s, op).0)
  {
    match op
    case Push(rec) => PushInv(s, rec);
    case Pop => PopInv(s);
  }

  lemma {:induction false} RunInv(s: Ring, ops: seq<Op>)
    requires Inv(s)
    ensures Inv(Run(s, ops))
  {
    if ops != [] {
      RunInv(s, ops[..|ops| - 1]);
      StepInv(Run(s, ops[..|ops| - 1]), ops[|ops| - 1]);
    }
  }

  // ---------------------------------------------------------------- bounded reordering

  /** In every run of calls that do not overlap, whatever was dropped: a record popped before one
      with an earlier ticket is less than one capacity ahead of it. */
  lemma BoundedReordering(n: nat, ops: seq<Op>, i: nat, j: nat)
    requires n > 0
    requires i < j < |Run(Init(n), ops).popped|
    ensures var p := Run(Init(n), ops).popped; p[i].ticket < p[j].ticket + n
  {
    InitInv(n);
    RunInv(Init(n), ops);
  }
}
