/** Laws of every run of calls that do not overlap: conservation, the exact pop order, what a failed pop
    means, how long a stall can last, and when the ring is a plain bounded queue. */
module RingTheorems {
  import opened Bits
  import opened WireFormat
  import opened LogFormat
  import opened RingModel

  // ---------------------------------------------------------------- conservation

  function Ready(s: Ring): set<nat> { set k: nat | k < |s.slots| && s.slots[k].Some? }

  /** Tickets claimed = dropped + accepted, and accepted = popped + still ready. */
  ghost predicate Conserved(s: Ring) {
    && |s.popped| == s.served
    && s.claimed == s.dropped + |s.accepted|
    && |s.accepted| == s.served + |Ready(s)|
  }

  lemma PushConserved(s: Ring, rec: Record)
    requires Shaped(s) && Conserved(s)
    ensures Conserved(PushStep(s, rec).0)
  {
    hide SlotOf;
    var s', k := PushStep(s, rec).0, SlotOf(s.claimed, |s.slots|);
    assert Ready(s') == if s'.accepted == s.accepted then Ready(s) else Ready(s) + {k};
    assert s'.accepted != s.accepted ==> k !in Ready(s);
  }

  lemma PopConserved(s: Ring)
    requires Shaped(s) && Conserved(s)
    ensures Conserved(PopStep(s).0)
  {
    hide SlotOf;
    var s', k := PopStep(s).0, SlotOf(s.served, |s.slots|);
    assert Ready(s') == Ready(s) - {k};
  }

  lemma StepConserved(s: Ring, op: Op)
    requires Shaped(s) && Conserved(s)
    ensures Conserved(Step(s, op).0)
  {
    hide Conserved, PushStep, PopStep;
    match op
    case Push(rec) => PushConserved(s, rec);
    case Pop => PopConserved(s);
  }

  /** In every run tickets and records are conserved; an oversize push touches neither side. */
  lemma {:induction false} Conservation(n: nat, ops: seq<Op>)
    requires n > 0
    ensures Conserved(Run(Init(n), ops))
    ensures forall rec :: Oversize(rec) ==> Run(Init(n), ops + [Push(rec)]) == Run(Init(n), ops)
  {
    if ops == [] {
      assert Ready(Init(n)) == {};
    } else {
      Conservation(n, ops[..|ops| - 1]);
      StepConserved(Run(Init(n), ops[..|ops| - 1]), ops[|ops| - 1]);
    }
    forall rec | Oversize(rec) ensures Run(Init(n), ops + [Push(rec)]) == Run(Init(n), ops) {
      assert (ops + [Push(rec)])[..|ops|] == ops;
    }
  }

  function Content(x: Option<Entry>): multiset<Entry> {
    if x.Some? then multiset{x.value} else multiset{}
  }

  /** The entries lying in the slots. */
  ghost function Held(slots: seq<Option<Entry>>): multiset<Entry> {
    if slots == [] then multiset{} else Held(slots[..|slots| - 1]) + Content(slots[|slots| - 1])
  }

  lemma HeldSnoc(slots: seq<Option<Entry>>, x: Option<Entry>)
    ensures Held(slots + [x]) == Held(slots) + Content(x)
  {
    assert (slots + [x])[..|slots|] == slots;
  }

  lemma AddBoth<T>(a: multiset<T>, b: multiset<T>, c: multiset<T>, d: multiset<T>, e: multiset<T>)
    requires a + b == c + d
    ensures (a + e) + b == (c + e) + d
  {
    assert (a + e) + b == (a + b) + e;
  }

  /** Replacing one slot exchanges its content. */
  lemma {:induction false} HeldUpdate(slots: seq<Option<Entry>>, k: nat, x: Option<Entry>)
    requires k < |slots|
    ensures Held(slots[k := x]) + Content(slots[k]) == Held(slots) + Content(x)
  {
    hide Held, Content;
    var m := |slots| - 1;
    var front, last := slots[..m], slots[m];
    assert slots == front + [last];
    HeldSnoc(front, last);
    if k < m {
      HeldUpdate(front, k, x);
      AddBoth(Held(front[k := x]), Content(slots[k]), Held(front), Content(x), Content(last));
      assert slots[k := x] == front[k := x] + [last];
      HeldSnoc(front[k := x], last);
    } else {
      assert slots[k := x] == front + [x];
      HeldSnoc(front, x);
    }
  }

  /** Nothing is lost, invented or duplicated: what was accepted is what was popped together
      with what still lies in the slots. */
  lemma {:induction false} ContentsConserved(n: nat, ops: seq<Op>)
    requires n > 0
    ensures var s := Run(Init(n), ops); multiset(s.accepted) == multiset(s.popped) + Held(s.slots)
  {
    if ops == [] {
      NothingHeld(n);
    } else {
      var m := |ops| - 1;
      ContentsConserved(n, ops[..m]);
      StepContents(Run(Init(n), ops[..m]), ops[m]);
    }
  }

  lemma StepContents(s: Ring, op: Op)
    requires Shaped(s) && multiset(s.accepted) == multiset(s.popped) + Held(s.slots)
    ensures var s' := Step(s, op).0; multiset(s'.accepted) == multiset(s'.popped) + Held(s'.slots)
  {
    hide SlotOf, Held;
    match op
    case Push(rec) =>
      var k, e := SlotOf(s.claimed, |s.slots|), Entry(s.claimed, rec);
      HeldUpdate(s.slots, k, Some(e));
      if s.slots[k].None? {
        assert multiset(s.accepted + [e]) == multiset(s.accepted) + multiset{e};
        assert Held(s.slots[k := Some(e)]) == Held(s.slots) + multiset{e};
      }
    case Pop =>
      var k := SlotOf(s.served, |s.slots|);
      HeldUpdate(s.slots, k, None);
      if s.slots[k].Some? {
        var e := s.slots[k].value;
        assert multiset(s.popped + [e]) == multiset(s.popped) + multiset{e};
        assert Held(s.slots) == Held(s.slots[k := None]) + multiset{e};
      }
  }

  lemma {:induction false} NothingHeld(n: nat)
    requires n > 0
    ensures Held(Init(n).slots) == multiset{}
  {
    NoneHeld(Init(n).slots);
  }

  lemma {:induction false} NoneHeld(slots: seq<Option<Entry>>)
    requires forall k :: 0 <= k < |slots| ==> slots[k].None?
    ensures Held(slots) == multiset{}
  {
    if slots != [] { NoneHeld(slots[..|slots| - 1]); }
  }

  // ---------------------------------------------------------------- exact pop order

  /** The records accepted into slot k, oldest first. */
  function InSlot(acc: seq<Entry>, k: nat, n: nat): seq<Entry>
    requires n > 0
  {
    if acc == [] then []
    else
      var m := |acc| - 1;
      InSlot(acc[..m], k, n) + if SlotOf(acc[m].ticket, n) == k then [acc[m]] else []
  }

  lemma InSlotSnoc(acc: seq<Entry>, e: Entry, k: nat, n: nat)
    requires n > 0
    ensures InSlot(acc + [e], k, n) == if SlotOf(e.ticket, n) == k then InSlot(acc, k, n) + [e] else InSlot(acc, k, n)
  {
    assert (acc + [e])[..|acc|] == acc;
  }

  /** The slot the reader meets at pop number a has been served Lap(a) times and holds the
      next record accepted into it, if any. */
  ghost predicate RoundAt(s: Ring, a: nat)
    requires Shaped(s)
  {
    var col := InSlot(s.accepted, SlotOf(a, |s.slots|), |s.slots|);
    match At(s, a)
    case None => |col| == Lap(a, |s.slots|)
    case Some(e) => |col| == Lap(a, |s.slots|) + 1 && col[Lap(a, |s.slots|)] == e
  }

  ghost predicate PopAt(s: Ring, i: nat)
    requires Shaped(s) && i < |s.popped|
  {
    var col := InSlot(s.accepted, SlotOf(i, |s.slots|), |s.slots|);
    Lap(i, |s.slots|) < |col| && s.popped[i] == col[Lap(i, |s.slots|)]
  }

  ghost predicate RoundRobin(s: Ring)
    requires Shaped(s)
  {
    && |s.popped| == s.served
    && (forall a: nat :: s.served <= a < s.served + |s.slots| ==> RoundAt(s, a))
    && (forall i: nat :: i < |s.popped| ==> PopAt(s, i))
  }

  lemma InitRoundRobin(n: nat)
    requires n > 0
    ensures RoundRobin(Init(n))
  {
    var s := Init(n);
    forall a: nat | a < n ensures RoundAt(s, a) {
      assert At(s, a).None?;
      DivModUnique(a, n, 0, a);
    }
  }

  lemma StepRoundRobin(s: Ring, op: Op)
    requires Shaped(s) && RoundRobin(s)
    ensures RoundRobin(Step(s, op).0)
  {
    hide SlotOf, Lap, InSlot;
    var s', n := Step(s, op).0, |s.slots|;
    match op
    case Push(rec) =>
      if s'.accepted != s.accepted {
        var e := Entry(s.claimed, rec);
        forall a: nat | s.served <= a < s.served + n ensures RoundAt(s', a) {
          InSlotSnoc(s.accepted, e, SlotOf(a, n), n);
          assert RoundAt(s, a);
        }
        forall i: nat | i < |s.popped| ensures PopAt(s', i) {
          InSlotSnoc(s.accepted, e, SlotOf(i, n), n);
          assert PopAt(s, i);
        }
      } else {
        forall a: nat | s.served <= a < s.served + n ensures RoundAt(s', a) { assert RoundAt(s, a); }
        forall i: nat | i < |s.popped| ensures PopAt(s', i) { assert PopAt(s, i); }
      }
    case Pop =>
      if At(s, s.served).Some? {
        assert RoundAt(s, s.served);
        forall a: nat | s'.served <= a < s'.served + n ensures RoundAt(s', a) {
          PopView(s, a);
          if a == s.served + n {
            LapNext(s.served, n);
          } else {
            assert RoundAt(s, a);
          }
        }
        forall i: nat | i < |s'.popped| ensures PopAt(s', i) {
          if i < |s.popped| { assert PopAt(s, i); }
        }
      }
  }

  lemma LapNext(a: nat, n: nat)
    requires n > 0
    ensures SlotOf(a + n, n) == SlotOf(a, n) && Lap(a + n, n) == Lap(a, n) + 1
  {
    SlotNextLap(a, n);
  }

  lemma {:induction false} RunRoundRobin(n: nat, ops: seq<Op>)
    requires n > 0
    ensures RoundRobin(Run(Init(n), ops))
  {
    if ops == [] {
      InitRoundRobin(n);
    } else {
      RunRoundRobin(n, ops[..|ops| - 1]);
      StepRoundRobin(Run(Init(n), ops[..|ops| - 1]), ops[|ops| - 1]);
    }
  }

  /** In every run, whatever was dropped: pop number i returns the (i / n)-th record ever
      accepted into slot i mod n. */
  lemma KthPop(n: nat, ops: seq<Op>, i: nat)
    requires n > 0 && i < |Run(Init(n), ops).popped|
    ensures var s := Run(Init(n), ops);
            var col := InSlot(s.accepted, i % n, n);
            i / n < |col| && s.popped[i] == col[i / n]
  {
    RunRoundRobin(n, ops);
    assert PopAt(Run(Init(n), ops), i);
  }

  // ---------------------------------------------------------------- what an empty pop means

  lemma {:induction false} IntervalSlots(lo: nat, hi: nat, n: nat)
    requires n > 0 && lo <= hi
    ensures |set t: nat | lo <= t < hi :: SlotOf(t, n)| <= hi - lo
    decreases hi - lo
  {
    hide SlotOf;
    var here := set t: nat | lo <= t < hi :: SlotOf(t, n);
    if lo == hi {
      assert here == {};
    } else {
      IntervalSlots(lo, hi - 1, n);
      var rest := set t: nat | lo <= t < hi - 1 :: SlotOf(t, n);
      assert here == rest + {SlotOf(hi - 1, n)};
    }
  }

  lemma SubsetSmaller(a: set<nat>, b: set<nat>)
    requires a <= b
    ensures |a| <= |b|
  {
    assert b == a + (b - a);
  }

  /** With the reader's slot empty, only tickets claimed after its last visit can be waiting. */
  lemma ReadyAfterVisit(s: Ring, v: nat)
    requires Inv(s) && At(s, s.served).None?
    requires v < s.claimed && SlotOf(v, |s.slots|) == SlotOf(s.served, |s.slots|)
    ensures |Ready(s)| <= s.claimed - v - 1
  {
    hide SlotOf;
    var n := |s.slots|;
    var after := set t: nat | v + 1 <= t < s.claimed :: SlotOf(t, n);
    forall k | k in Ready(s) ensures k in after {
      var b := ReaderTurn(s, k);
      assert At(s, b) == s.slots[k];
      assert b != s.served;
      var t := s.slots[k].value.ticket;
      assert v < t && SlotOf(t, n) == k;
    }
    IntervalSlots(v + 1, s.claimed, n);
    SubsetSmaller(Ready(s), after);
  }

  /** A slot no ticket has reached yet has never been served either. */
  lemma UnvisitedUnserved(s: Ring)
    requires Inv(s) && RoundRobin(s) && At(s, s.served).None?
    requires s.claimed <= SlotOf(s.served, |s.slots|)
    ensures s.claimed <= s.served
  {
    var n, r, k := |s.slots|, s.served, SlotOf(s.served, |s.slots|);
    assert RoundAt(s, r);
    NoTicketNoRecord(s.accepted, k, n, s.claimed);
    assert Lap(r, n) == 0;
    assert r == (r / n) * n + r % n;
  }

  /** Honest empty, for calls that do not overlap: when a pop fails and the drop count is a
      multiple of the capacity, nothing at all is waiting. */
  lemma HonestEmpty(s: Ring)
    requires Inv(s) && Conserved(s) && RoundRobin(s)
    requires At(s, s.served).None? && s.dropped % |s.slots| == 0
    ensures Ready(s) == {}
  {
    var n, k := |s.slots|, SlotOf(s.served, |s.slots|);
    assert |Ready(s)| == 0 by {
      if s.claimed <= k {
        UnvisitedUnserved(s);
      } else {
        var v := LastOnSlot(s.claimed, k, n);
        ReadyAfterVisit(s, v);
        LapCount(n, s.claimed, s.served, v, s.dropped, |Ready(s)|);
      }
    }
  }

  /** Arithmetic behind `HonestEmpty`. */
  lemma LapCount(n: nat, w: nat, r: nat, v: nat, d: nat, ready: nat)
    requires n > 0 && w == d + r + ready && d % n == 0 && v % n == r % n
    requires v < w <= v + n && ready <= w - v - 1
    ensures ready == 0
  {
    var q := d / n;
    assert d == q * n;
    ModAddMultiple(r, n, q);
    assert (r + d) % n == v % n;
    if ready > 0 {
      // r + d == w - ready would lie strictly between v and v + n
      ModEqualClose(r + d, v, n);
    }
  }

  /** The last ticket below w that used slot k. */
  lemma LastOnSlot(w: nat, k: nat, n: nat) returns (v: nat)
    requires k < n && k < w
    ensures v < w <= v + n && SlotOf(v, n) == k
  {
    if w < n {
      v := k;
      DivModUnique(k, n, 0, k);
    } else {
      v := NextOnSlot(w - n, k, n);
    }
  }

  lemma {:induction false} NoTicketNoRecord(acc: seq<Entry>, k: nat, n: nat, w: nat)
    requires n > 0 && w <= k < n && forall i :: 0 <= i < |acc| ==> acc[i].ticket < w
    ensures InSlot(acc, k, n) == []
  {
    if acc != [] {
      var m := |acc| - 1;
      NoTicketNoRecord(acc[..m], k, n, w);
      DivModUnique(acc[m].ticket, n, 0, acc[m].ticket);
    }
  }

  lemma EmptyAtMultiples(n: nat, ops: seq<Op>)
    requires n > 0
    requires var s := Run(Init(n), ops); At(s, s.served).None? && s.dropped % n == 0
    ensures Ready(Run(Init(n), ops)) == {}
  {
    hide Inv, Conserved, RoundRobin, Run, SlotOf, Ready;
    InitInv(n);
    RunInv(Init(n), ops);
    Conservation(n, ops);
    RunRoundRobin(n, ops);
    SameSize(n, ops);
    HonestEmpty(Run(Init(n), ops));
  }

  /** A drain of calls that did not overlap, ending in a failing pop after a multiple-of-capacity
      number of drops, has popped exactly the records ever accepted. */
  lemma DrainedAll(n: nat, ops: seq<Op>)
    requires n > 0
    requires var s := Run(Init(n), ops); At(s, s.served).None? && s.dropped % n == 0
    ensures var s := Run(Init(n), ops); multiset(s.popped) == multiset(s.accepted)
  {
    hide Inv, Conserved, RoundRobin, Run, Held, SlotOf, Ready;
    var s := Run(Init(n), ops);
    EmptyAtMultiples(n, ops);
    ContentsConserved(n, ops);
    NoneReadyNoneHeld(s);
  }

  lemma SameSize(n: nat, ops: seq<Op>)
    requires n > 0
    ensures |Run(Init(n), ops).slots| == n
  {
  }

  lemma NoneReadyNoneHeld(s: Ring)
    requires Ready(s) == {}
    ensures Held(s.slots) == multiset{}
  {
    forall k: nat | k < |s.slots| ensures s.slots[k].None? {
      assert k !in Ready(s);
    }
    NoneHeld(s.slots);
  }

  // ---------------------------------------------------------------- the condition is exact

  function Pushes(rec: Record, m: nat): (ops: seq<Op>)
    ensures |ops| == m
  {
    if m == 0 then [] else Pushes(rec, m - 1) + [Push(rec)]
  }

  function Pops(m: nat): (ops: seq<Op>)
    ensures |ops| == m
  {
    if m == 0 then [] else Pops(m - 1) + [Pop]
  }

  lemma {:induction false} RunConcat(s: Ring, a: seq<Op>, b: seq<Op>)
    requires Shaped(s)
    ensures Run(s, a + b) == Run(Run(s, a), b)
  {
    if b == [] {
      assert a + b == a;
    } else {
      var m := |b| - 1;
      assert (a + b)[..|a| + m] == a + b[..m];
      RunConcat(s, a, b[..m]);
    }
  }

  /** The first m slots of a fresh ring have been filled. */
  ghost predicate FilledTo(c: Ring, n: nat, m: nat) {
    && |c.slots| == n && c.claimed == m && c.served == 0 && c.dropped == 0
    && forall k :: 0 <= k < n ==> (c.slots[k].Some? <==> k < m)
  }

  lemma FilledStep(c: Ring, n: nat, m: nat, rec: Record)
    requires FilledTo(c, n, m) && m < n && !Oversize(rec)
    ensures FilledTo(PushStep(c, rec).0, n, m + 1)
  {
    DivModUnique(m, n, 0, m);
  }

  /** The first n pushes fill the slots in order. */
  lemma {:induction false} Filling(n: nat, rec: Record, m: nat)
    requires m <= n && n > 0 && !Oversize(rec)
    ensures FilledTo(Run(Init(n), Pushes(rec, m)), n, m)
  {
    if m > 0 {
      hide FilledTo, Run, Init, Pushes, PushStep;
      Filling(n, rec, m - 1);
      PushedOnce(Init(n), rec, m - 1);
      FilledStep(Run(Init(n), Pushes(rec, m - 1)), n, m - 1, rec);
    }
  }

  /** On a full ring every further push is dropped. */
  lemma {:induction false} Dropping(s: Ring, rec: Record, m: nat)
    requires Shaped(s) && !Oversize(rec) && forall k :: 0 <= k < |s.slots| ==> s.slots[k].Some?
    ensures Run(s, Pushes(rec, m)) == s.(claimed := s.claimed + m, dropped := s.dropped + m)
  {
    if m > 0 {
      Dropping(s, rec, m - 1);
      assert Pushes(rec, m)[..m - 1] == Pushes(rec, m - 1);
    }
  }

  /** c is a full ring s whose first m slots have been served. */
  ghost predicate Emptied(s: Ring, c: Ring, m: nat) {
    && |c.slots| == |s.slots| && c.claimed == s.claimed && c.served == m && c.dropped == s.dropped
    && forall k :: 0 <= k < |s.slots| ==> (c.slots[k].Some? <==> m <= k)
  }

  lemma EmptiedStep(s: Ring, c: Ring, m: nat)
    requires Emptied(s, c, m) && m < |s.slots|
    ensures Emptied(s, PopStep(c).0, m + 1)
  {
    DivModUnique(m, |s.slots|, 0, m);
  }

  /** Draining a full ring from a fresh reader empties the slots in order. */
  lemma {:induction false} DrainFull(s: Ring, m: nat)
    requires Shaped(s) && s.served == 0 && m <= |s.slots|
    requires forall k :: 0 <= k < |s.slots| ==> s.slots[k].Some?
    ensures Emptied(s, Run(s, Pops(m)), m)
  {
    if m == 0 {
      PoppedOnce(s, 0);
    } else {
      hide Emptied, Run, Pops, PopStep;
      DrainFull(s, m - 1);
      PoppedOnce(s, m - 1);
      EmptiedStep(s, Run(s, Pops(m - 1)), m - 1);
    }
  }

  /** Fill the ring, overrun it d times, then make room for m records. */
  function OverrunOps(n: nat, d: nat, m: nat, rec: Record): seq<Op> {
    Pushes(rec, n) + Pushes(rec, d) + Pops(m)
  }

  /** ... and push once more after draining it. */
  function StrandingOps(n: nat, d: nat, rec: Record): seq<Op> {
    OverrunOps(n, d, n, rec) + [Push(rec)]
  }

  lemma Overrun(n: nat, d: nat, m: nat, rec: Record) returns (s: Ring)
    requires n > 0 && m <= n && !Oversize(rec)
    ensures s == Run(Init(n), OverrunOps(n, d, m, rec))
    ensures s.claimed == n + d && s.served == m && s.dropped == d
    ensures forall k :: 0 <= k < n ==> (s.slots[k].Some? <==> m <= k)
  {
    RunConcat(Init(n), Pushes(rec, n), Pushes(rec, d));
    RunConcat(Init(n), Pushes(rec, n) + Pushes(rec, d), Pops(m));
    Filling(n, rec, n);
    var s1 := Run(Init(n), Pushes(rec, n));
    Dropping(s1, rec, d);
    DrainFull(Run(s1, Pushes(rec, d)), m);
    s := Run(Init(n), OverrunOps(n, d, m, rec));
  }

  /** For every drop count that is not a multiple of the capacity some run with exactly that
      many drops ends in a failing pop while a record waits. */
  lemma Stranding(n: nat, d: nat, rec: Record)
    requires n > 0 && d % n != 0 && !Oversize(rec)
    ensures var s := Run(Init(n), StrandingOps(n, d, rec));
            s.dropped == d && At(s, s.served).None? && Ready(s) != {}
  {
    var s := Overrun(n, d, n, rec);
    RunConcat(Init(n), OverrunOps(n, d, n, rec), [Push(rec)]);
    LastPush(s, rec, n, d);
  }

  lemma LastPush(s: Ring, rec: Record, n: nat, d: nat)
    requires |s.slots| == n > 0 && !Oversize(rec) && d % n != 0
    requires s.claimed == n + d && s.served == n && forall k :: 0 <= k < n ==> s.slots[k].None?
    ensures var s' := Run(s, [Push(rec)]);
            s'.dropped == s.dropped && At(s', s'.served).None? && Ready(s') != {}
  {
    assert [Push(rec)][..0] == [];
    SlotNextLap(d, n);
    SlotNextLap(0, n);
    DivModUnique(0, n, 0, 0);
    assert d % n in Ready(Run(s, [Push(rec)]));
  }

  /** For calls that do not overlap, a failed pop is guaranteed to mean "empty" for a given drop
      count exactly when that count is a multiple of the capacity. */
  lemma HonestEmptyExactly(n: nat, d: nat)
    requires n > 0
    ensures (forall ops: seq<Op> :: var s := Run(Init(n), ops);
              s.dropped == d && At(s, s.served).None? ==> Ready(s) == {})
       <==> d % n == 0
  {
    if d % n == 0 {
      forall ops: seq<Op> | Run(Init(n), ops).dropped == d
        && At(Run(Init(n), ops), Run(Init(n), ops).served).None?
        ensures Ready(Run(Init(n), ops)) == {}
      {
        EmptyAtMultiples(n, ops);
      }
    } else {
      Stranding(n, d, Record(0, 0, 0, []));
    }
  }

  // ---------------------------------------------------------------- bounded stall

  function PushCount(ops: seq<Op>): nat {
    if ops == [] then 0
    else PushCount(ops[..|ops| - 1]) + if ops[|ops| - 1].Push? && !Oversize(ops[|ops| - 1].rec) then 1 else 0
  }

  /** While the reader's slot stays empty no push has targeted it. */
  ghost predicate Stalled(s: Ring, s': Ring, pushed: nat)
    requires Shaped(s) && |s'.slots| == |s.slots|
  {
    && s'.served == s.served && At(s', s.served).None?
    && s'.claimed == s.claimed + pushed
    && forall t: nat :: s.claimed <= t < s'.claimed ==> SlotOf(t, |s.slots|) != SlotOf(s.served, |s.slots|)
  }

  ghost predicate Unblocked(s: Ring, s': Ring)
    requires Shaped(s) && |s'.slots| == |s.slots|
  {
    s'.served > s.served || (s'.served == s.served && At(s', s.served).Some?)
  }

  lemma {:induction false} StalledOrUnblocked(s: Ring, ops: seq<Op>)
    requires Shaped(s) && At(s, s.served).None?
    ensures Stalled(s, Run(s, ops), PushCount(ops)) || Unblocked(s, Run(s, ops))
  {
    if ops != [] {
      StalledOrUnblocked(s, ops[..|ops| - 1]);
      hide SlotOf;
    }
  }

  /** However far the cursors have slipped: once n valid pushes have been made, with pops in
      between or not, the reader that found its slot empty is moving again. */
  lemma BoundedStall(s: Ring, ops: seq<Op>)
    requires Shaped(s) && At(s, s.served).None? && PushCount(ops) >= |s.slots|
    ensures Unblocked(s, Run(s, ops))
  {
    StalledOrUnblocked(s, ops);
    var t := NextOnSlot(s.claimed, SlotOf(s.served, |s.slots|), |s.slots|);
  }

  lemma {:induction false} PushesCount(rec: Record, m: nat)
    requires !Oversize(rec)
    ensures PushCount(Pushes(rec, m)) == m
  {
    if m > 0 {
      PushesCount(rec, m - 1);
      assert Pushes(rec, m)[..m - 1] == Pushes(rec, m - 1);
    }
  }

  lemma {:induction false} PopsCount(ops: seq<Op>, m: nat)
    ensures PushCount(ops + Pops(m)) == PushCount(ops)
  {
    if m == 0 {
      assert ops + Pops(0) == ops;
    } else {
      PopsCount(ops, m - 1);
      assert (ops + Pops(m))[..|ops| + m - 1] == ops + Pops(m - 1);
    }
  }

  /** Pushes never touch an occupied slot. */
  lemma {:induction false} OccupiedStays(s: Ring, rec: Record, m: nat, k: nat)
    requires Shaped(s) && k < |s.slots| && s.slots[k].Some?
    ensures Run(s, Pushes(rec, m)).slots[k] == s.slots[k]
  {
    if m > 0 {
      OccupiedStays(s, rec, m - 1, k);
      assert Pushes(rec, m)[..m - 1] == Pushes(rec, m - 1);
    }
  }

  function PushAll(recs: seq<Record>): (ops: seq<Op>)
    ensures |ops| == |recs|
  {
    if recs == [] then [] else PushAll(recs[..|recs| - 1]) + [Push(recs[|recs| - 1])]
  }

  lemma {:induction false} PushBurstPrefix(s: Ring, recs: seq<Record>, t: nat)
    requires Shaped(s) && At(s, s.served).None? && |recs| <= |s.slots|
    requires forall i :: 0 <= i < |recs| ==> !Oversize(recs[i])
    requires s.claimed <= t < s.claimed + |s.slots| && SlotOf(t, |s.slots|) == SlotOf(s.served, |s.slots|)
    ensures var s' := Run(s, PushAll(recs));
            s'.claimed == s.claimed + |recs| && s'.served == s.served
            && At(s', s.served) == if t < s'.claimed then Some(Entry(t, recs[t - s.claimed])) else None
  {
    hide SlotOf;
    if recs != [] {
      var m := |recs| - 1;
      PushBurstPrefix(s, recs[..m], t);
      assert PushAll(recs)[..m] == PushAll(recs[..m]);
      var s1 := Run(s, PushAll(recs[..m]));
      assert Run(s, PushAll(recs)) == PushStep(s1, recs[m]).0;
      BurstStep(s1, recs[m], t);
    }
  }

  /** One push moves the slot of ticket t exactly when it is ticket t. */
  lemma BurstStep(s: Ring, rec: Record, t: nat)
    requires Shaped(s) && !Oversize(rec) && s.claimed < t + |s.slots| && t < s.claimed + |s.slots|
    requires s.claimed <= t ==> At(s, t).None?
    ensures var s' := PushStep(s, rec).0;
            s'.claimed == s.claimed + 1 && s'.served == s.served
            && At(s', t) == if t == s.claimed then Some(Entry(t, rec)) else At(s, t)
  {
    hide SlotOf;
    if s.claimed < t {
      SlotsApart(s.claimed, t, |s.slots|);
    } else if t < s.claimed {
      SlotsApart(t, s.claimed, |s.slots|);
    }
  }

  /** Of n pushes in a row exactly one targets the reader's empty slot; it is accepted, and
      the next pop returns it. */
  lemma PushBurst(s: Ring, recs: seq<Record>) returns (j: nat)
    requires Shaped(s) && At(s, s.served).None? && |recs| == |s.slots|
    requires forall i :: 0 <= i < |recs| ==> !Oversize(recs[i])
    ensures j < |recs|
    ensures forall t: nat :: s.claimed <= t < s.claimed + |recs| ==>
              (SlotOf(t, |s.slots|) == SlotOf(s.served, |s.slots|) <==> t == s.claimed + j)
    ensures PopStep(Run(s, PushAll(recs))).1 == PopOut(Some(recs[j]))
  {
    hide SlotOf, Run;
    var n := |s.slots|;
    var hit := NextOnSlot(s.claimed, SlotOf(s.served, n), n);
    j := hit - s.claimed;
    PushBurstPrefix(s, recs, hit);
    forall t: nat | s.claimed <= t < s.claimed + |recs|
      ensures SlotOf(t, n) == SlotOf(s.served, n) <==> t == hit
    {
      if t < hit {
        SlotsApart(t, hit, n);
      } else if hit < t {
        SlotsApart(hit, t, n);
      }
    }
  }

  // ---------------------------------------------------------------- a queue until the first drop

  function QueueStep(q: seq<Record>, n: nat, op: Op): (seq<Record>, Out) {
    match op
    case Push(rec) =>
      if Oversize(rec) || |q| >= n then (q, PushOut(false)) else (q + [rec], PushOut(true))
    case Pop =>
      if q == [] then (q, PopOut(None)) else (q[1..], PopOut(Some(q[0])))
  }

  function QueueRun(n: nat, ops: seq<Op>): seq<Record> {
    if ops == [] then [] else QueueStep(QueueRun(n, ops[..|ops| - 1]), n, ops[|ops| - 1]).0
  }

  function QueueOutputs(n: nat, ops: seq<Op>): (outs: seq<Out>)
    ensures |outs| == |ops|
  {
    if ops == [] then []
    else QueueOutputs(n, ops[..|ops| - 1]) + [QueueStep(QueueRun(n, ops[..|ops| - 1]), n, ops[|ops| - 1]).1]
  }

  function Recs(es: seq<Entry>): (rs: seq<Record>)
    ensures |rs| == |es| && forall i :: 0 <= i < |es| ==> rs[i] == es[i].rec
  {
    seq(|es|, i requires 0 <= i < |es| => es[i].rec)
  }

  /** The shape of the ring while nothing has been dropped. */
  ghost predicate Fifo(s: Ring) {
    && Shaped(s) && s.dropped == 0
    && s.served <= s.claimed <= s.served + |s.slots|
    && |s.accepted| == s.claimed && (forall i :: 0 <= i < s.claimed ==> s.accepted[i].ticket == i)
    && s.popped == s.accepted[..s.served]
    && (forall a: nat :: s.served <= a < s.claimed ==> At(s, a) == Some(s.accepted[a]))
    && (forall a: nat :: s.claimed <= a < s.served + |s.slots| ==> At(s, a) == None)
  }

  ghost function Waiting(s: Ring): seq<Record>
    requires Fifo(s)
  {
    Recs(s.accepted[s.served..])
  }

  lemma InitFifo(n: nat)
    requires n > 0
    ensures Fifo(Init(n)) && Waiting(Init(n)) == []
  {
  }

  lemma PushFifo(s: Ring, rec: Record)
    requires Fifo(s) && !Oversize(rec)
    ensures PushStep(s, rec).1 == PushOut(|Waiting(s)| < |s.slots|)
    ensures |Waiting(s)| < |s.slots| ==>
              Fifo(PushStep(s, rec).0) && Waiting(PushStep(s, rec).0) == Waiting(s) + [rec]
    ensures |Waiting(s)| >= |s.slots| ==> PushStep(s, rec).0.dropped == 1
  {
    hide SlotOf;
    if s.claimed == s.served + |s.slots| {
      SlotNextLap(s.served, |s.slots|);
      assert At(s, s.served).Some?;
    } else {
      PushAccepted(s, rec);
      RecsTail(s.accepted, Entry(s.claimed, rec), s.served);
    }
  }

  lemma PushAccepted(s: Ring, rec: Record)
    requires Fifo(s) && !Oversize(rec) && s.claimed < s.served + |s.slots|
    ensures Fifo(PushStep(s, rec).0)
    ensures PushStep(s, rec).0.accepted == s.accepted + [Entry(s.claimed, rec)]
    ensures PushStep(s, rec).0.served == s.served && PushStep(s, rec).1 == PushOut(true)
  {
    hide SlotOf;
    var s', n, w := PushStep(s, rec).0, |s.slots|, s.claimed;
    assert At(s, w).None?;
    forall a: nat | s.served <= a < s.served + n && a != w ensures At(s', a) == At(s, a) {
      if a < w { SlotsApart(a, w, n); } else { SlotsApart(w, a, n); }
    }
    assert s'.accepted[..s.served] == s.accepted[..s.served];
  }

  lemma RecsTail(es: seq<Entry>, e: Entry, r: nat)
    requires r <= |es|
    ensures Recs((es + [e])[r..]) == Recs(es[r..]) + [e.rec]
  {
    assert (es + [e])[r..] == es[r..] + [e];
  }

  lemma PopFifo(s: Ring)
    requires Fifo(s)
    ensures Fifo(PopStep(s).0)
    ensures (Waiting(PopStep(s).0), PopStep(s).1) == QueueStep(Waiting(s), |s.slots|, Pop)
  {
    hide SlotOf;
    var s', n, r := PopStep(s).0, |s.slots|, s.served;
    if r < s.claimed {
      assert At(s, r) == Some(s.accepted[r]);
      forall a: nat | r < a <= r + n
        ensures At(s', a) == if a < s.claimed then Some(s.accepted[a]) else None
      {
        PopView(s, a);
      }
      assert s.accepted[..r + 1] == s.accepted[..r] + [s.accepted[r]];
      assert Recs(s.accepted[r..])[1..] == Recs(s.accepted[r + 1..]);
      assert Waiting(s)[0] == s.accepted[r].rec;
    } else {
      assert Waiting(s) == [];
    }
  }

  lemma DroppedMonotone(s: Ring, op: Op)
    requires Shaped(s)
    ensures Step(s, op).0.dropped >= s.dropped
  {
  }

  lemma {:induction false} RunFifo(n: nat, ops: seq<Op>)
    requires n > 0 && Run(Init(n), ops).dropped == 0
    ensures Fifo(Run(Init(n), ops)) && Waiting(Run(Init(n), ops)) == QueueRun(n, ops)
  {
    if ops == [] {
      InitFifo(n);
    } else {
      hide Fifo, Waiting;
      var m := |ops| - 1;
      var s := Run(Init(n), ops[..m]);
      DroppedMonotone(s, ops[m]);
      RunFifo(n, ops[..m]);
      FifoSim(s, ops[m]);
    }
  }

  /** One step of the ring and one of the queue agree, drop or no drop. */
  lemma FifoSim(s: Ring, op: Op)
    requires Fifo(s)
    ensures Step(s, op).1 == QueueStep(Waiting(s), |s.slots|, op).1
    ensures Step(s, op).0.dropped == 0 ==>
              Fifo(Step(s, op).0) && Waiting(Step(s, op).0) == QueueStep(Waiting(s), |s.slots|, op).0
  {
    hide Fifo, Waiting;
    match op
    case Push(rec) => if !Oversize(rec) { PushFifo(s, rec); }
    case Pop => PopFifo(s);
  }

  /** Up to and including the first drop the ring answers every call as a single bounded
      queue does: it rejects only when full and pops in push order. */
  lemma {:induction false} QueueUntilFirstDrop(n: nat, ops: seq<Op>)
    requires n > 0 && (ops != [] ==> Run(Init(n), ops[..|ops| - 1]).dropped == 0)
    ensures Outputs(Init(n), ops) == QueueOutputs(n, ops)
  {
    if ops != [] {
      hide Fifo, Waiting;
      var m := |ops| - 1;
      RunFifo(n, ops[..m]);
      FifoSim(Run(Init(n), ops[..m]), ops[m]);
      if m > 0 {
        DroppedMonotone(Run(Init(n), ops[..m - 1]), ops[m - 1]);
        assert ops[..m][..m - 1] == ops[..m - 1];
      }
      QueueUntilFirstDrop(n, ops[..m]);
    }
  }

  lemma QueueSnoc(n: nat, ops: seq<Op>, op: Op)
    ensures QueueRun(n, ops + [op]) == QueueStep(QueueRun(n, ops), n, op).0
    ensures QueueOutputs(n, ops + [op])[|ops|] == QueueStep(QueueRun(n, ops), n, op).1
  {
    assert (ops + [op])[..|ops|] == ops;
  }

  lemma LastOutput(n: nat, ops: seq<Op>, op: Op)
    requires n > 0
    ensures Outputs(Init(n), ops + [op])[|ops|] == Step(Run(Init(n), ops), op).1
  {
    assert (ops + [op])[..|ops|] == ops;
  }

  lemma {:induction false} QueuePushes(n: nat, ops: seq<Op>, rec: Record, m: nat)
    requires !Oversize(rec) && |QueueRun(n, ops)| + m <= n
    ensures |QueueRun(n, ops + Pushes(rec, m))| == |QueueRun(n, ops)| + m
  {
    if m == 0 {
      assert ops + Pushes(rec, 0) == ops;
    } else {
      QueuePushes(n, ops, rec, m - 1);
      assert ops + Pushes(rec, m) == ops + Pushes(rec, m - 1) + [Push(rec)];
      QueueSnoc(n, ops + Pushes(rec, m - 1), Push(rec));
    }
  }

  /** A full queue rejects and stays as it is. */
  lemma {:induction false} QueueRejects(n: nat, ops: seq<Op>, rec: Record, m: nat)
    requires |QueueRun(n, ops)| == n
    ensures |QueueRun(n, ops + Pushes(rec, m))| == n
  {
    if m == 0 {
      assert ops + Pushes(rec, 0) == ops;
    } else {
      QueueRejects(n, ops, rec, m - 1);
      assert ops + Pushes(rec, m) == ops + Pushes(rec, m - 1) + [Push(rec)];
      QueueSnoc(n, ops + Pushes(rec, m - 1), Push(rec));
    }
  }

  lemma {:induction false} QueuePops(n: nat, ops: seq<Op>, m: nat)
    requires m <= |QueueRun(n, ops)|
    ensures |QueueRun(n, ops + Pops(m))| == |QueueRun(n, ops)| - m
  {
    if m == 0 {
      assert ops + Pops(0) == ops;
    } else {
      QueuePops(n, ops, m - 1);
      assert ops + Pops(m) == ops + Pops(m - 1) + [Pop];
      QueueSnoc(n, ops + Pops(m - 1), Pop);
    }
  }

  lemma OverrunQueue(n: nat, d: nat, m: nat, rec: Record)
    requires m <= n && !Oversize(rec)
    ensures |QueueRun(n, OverrunOps(n, d, m, rec))| == n - m
  {
    assert [] + Pushes(rec, n) == Pushes(rec, n);
    assert QueueRun(n, []) == [];
    QueuePushes(n, [], rec, n);
    QueueRejects(n, Pushes(rec, n), rec, d);
    QueuePops(n, Pushes(rec, n) + Pushes(rec, d), m);
  }

  /** With d drops, d not a multiple of n, the ring can report empty where a queue answers. */
  lemma OrderBreaksStranded(n: nat, d: nat, rec: Record)
    requires n > 0 && d % n != 0 && !Oversize(rec)
    ensures var ops := StrandingOps(n, d, rec) + [Pop];
            Run(Init(n), ops).dropped == d && Outputs(Init(n), ops) != QueueOutputs(n, ops)
  {
    var ops := StrandingOps(n, d, rec);
    Stranding(n, d, rec);
    OverrunQueue(n, d, n, rec);
    QueueSnoc(n, OverrunOps(n, d, n, rec), Push(rec));
    RunSnoc(Init(n), ops, Pop);
    LastOutput(n, ops, Pop);
    QueueSnoc(n, ops, Pop);
  }

  /** With d drops, d a positive multiple of n >= 2, the ring can reject where a queue accepts. */
  lemma OrderBreaksRefused(n: nat, d: nat, rec: Record)
    requires n >= 2 && d > 0 && d % n == 0 && !Oversize(rec)
    ensures var ops := OverrunOps(n, d - 1, 1, rec) + [Push(rec)];
            Run(Init(n), ops).dropped == d && Outputs(Init(n), ops) != QueueOutputs(n, ops)
  {
    hide Run, Outputs, QueueRun, QueueOutputs, OverrunOps, SlotOf;
    var ops := OverrunOps(n, d - 1, 1, rec);
    var s := Overrun(n, d - 1, 1, rec);
    SameSize(n, ops);
    BeforeMultiple(n, d);
    assert At(s, s.claimed).Some?;
    OverrunQueue(n, d - 1, 1, rec);
    RunSnoc(Init(n), ops, Push(rec));
    LastOutput(n, ops, Push(rec));
    QueueSnoc(n, ops, Push(rec));
  }

  lemma BeforeMultiple(n: nat, d: nat)
    requires n > 0 && d > 0 && d % n == 0
    ensures SlotOf(n + d - 1, n) == n - 1
  {
    var q := d / n;
    assert n + d - 1 == q * n + (n - 1);
    DivModUnique(n + d - 1, n, q, n - 1);
  }

  /** A single slot against a queue of one place. */
  ghost predicate OneSlot(s: Ring, q: seq<Record>) {
    && |s.slots| == 1
    && q == (if s.slots[0].Some? then [s.slots[0].value.rec] else [])
    && (s.slots[0].Some? ==> s.slots[0].value.ticket < s.claimed)
    && (forall i :: 0 <= i < |s.popped| ==>
          s.popped[i].ticket < s.claimed && (s.slots[0].Some? ==> s.popped[i].ticket < s.slots[0].value.ticket))
    && (forall i, j :: 0 <= i < j < |s.popped| ==> s.popped[i].ticket < s.popped[j].ticket)
  }

  lemma OneSlotStep(s: Ring, q: seq<Record>, op: Op)
    requires OneSlot(s, q)
    ensures OneSlot(Step(s, op).0, QueueStep(q, 1, op).0)
    ensures Step(s, op).1 == QueueStep(q, 1, op).1
  {
    assert SlotOf(s.claimed, 1) == 0 && SlotOf(s.served, 1) == 0;
    hide SlotOf;
  }

  /** A single slot is a queue of one place and keeps ticket order, whatever is dropped. */
  lemma {:induction false} OneSlotQueue(ops: seq<Op>)
    ensures Outputs(Init(1), ops) == QueueOutputs(1, ops)
    ensures OneSlot(Run(Init(1), ops), QueueRun(1, ops))
  {
    if ops != [] {
      hide OneSlot, Step, QueueStep;
      var m := |ops| - 1;
      OneSlotQueue(ops[..m]);
      OneSlotStep(Run(Init(1), ops[..m]), QueueRun(1, ops[..m]), ops[m]);
    }
  }

  /** For a given drop count the ring is guaranteed to answer every call as a bounded queue
      does exactly when nothing was dropped or there is only one slot. */
  lemma QueueExactly(n: nat, d: nat)
    requires n > 0
    ensures (forall ops: seq<Op> :: Run(Init(n), ops).dropped == d ==> Outputs(Init(n), ops) == QueueOutputs(n, ops))
       <==> d == 0 || n == 1
  {
    if d == 0 || n == 1 {
      forall ops: seq<Op> | Run(Init(n), ops).dropped == d
        ensures Outputs(Init(n), ops) == QueueOutputs(n, ops)
      {
        if n == 1 {
          OneSlotQueue(ops);
        } else {
          if ops != [] {
            var m := |ops| - 1;
            DroppedMonotone(Run(Init(n), ops[..m]), ops[m]);
          }
          QueueUntilFirstDrop(n, ops);
        }
      }
    } else if d % n != 0 {
      OrderBreaksStranded(n, d, Record(0, 0, 0, []));
    } else {
      OrderBreaksRefused(n, d, Record(0, 0, 0, []));
    }
  }

  // ---------------------------------------------------------------- the reordering bound is sharp

  /** c is s after m pushes of rec, as far as the slot of ticket t is concerned. */
  ghost predicate Refill(s: Ring, c: Ring, rec: Record, m: nat, t: nat)
    requires Shaped(s)
  {
    && |c.slots| == |s.slots| && c.claimed == s.claimed + m && c.served == s.served && c.popped == s.popped
    && At(c, t) == if t < c.claimed then Some(Entry(t, rec)) else None
  }

  lemma RefillStep(s: Ring, c: Ring, rec: Record, m: nat, t: nat)
    requires Shaped(s) && Refill(s, c, rec, m, t) && !Oversize(rec)
    requires m < |s.slots| && s.claimed <= t < s.claimed + |s.slots|
    ensures Refill(s, PushStep(c, rec).0, rec, m + 1, t)
  {
    hide SlotOf, At, PushStep;
    BurstStep(c, rec, t);
    PushPopsNothing(c, rec);
  }

  /** Of up to a lap of pushes, ticket t fills its slot if that is empty and the others leave
      it alone. */
  lemma {:induction false} Refilling(s: Ring, rec: Record, m: nat, t: nat)
    requires Shaped(s) && !Oversize(rec) && m <= |s.slots| && s.claimed <= t < s.claimed + |s.slots|
    requires At(s, t).None?
    ensures Refill(s, Run(s, Pushes(rec, m)), rec, m, t)
  {
    if m == 0 {
      assert Run(s, Pushes(rec, 0)) == s;
      hide At;
    } else {
      hide Refill, At, Run, Pushes, PushStep;
      Refilling(s, rec, m - 1, t);
      PushedOnce(s, rec, m - 1);
      RefillStep(s, Run(s, Pushes(rec, m - 1)), rec, m - 1, t);
    }
  }

  lemma PushedOnce(s: Ring, rec: Record, m: nat)
    requires Shaped(s)
    ensures Run(s, Pushes(rec, m + 1)) == PushStep(Run(s, Pushes(rec, m)), rec).0
  {
    RunSnoc(s, Pushes(rec, m), Push(rec));
  }

  lemma PushPopsNothing(s: Ring, rec: Record)
    requires Shaped(s)
    ensures PushStep(s, rec).0.popped == s.popped
  {
  }

  /** A lap of pushes into an empty ring is accepted and fills it. */
  lemma {:induction false} RefillAccepts(s: Ring, rec: Record, m: nat)
    requires Shaped(s) && !Oversize(rec) && m <= |s.slots| && forall k :: 0 <= k < |s.slots| ==> s.slots[k].None?
    ensures Run(s, Pushes(rec, m)).dropped == s.dropped
  {
    if m == 0 {
      assert Run(s, Pushes(rec, 0)) == s;
    } else {
      RefillAccepts(s, rec, m - 1);
      PushedOnce(s, rec, m - 1);
      NoneAnywhere(s, s.claimed + m - 1);
      hide Run, Pushes, PushStep, At;
      FreeNext(s, rec, m - 1);
    }
  }

  lemma FreeNext(s: Ring, rec: Record, m: nat)
    requires Shaped(s) && !Oversize(rec) && m < |s.slots| && At(s, s.claimed + m).None?
    ensures PushStep(Run(s, Pushes(rec, m)), rec).0.dropped == Run(s, Pushes(rec, m)).dropped
  {
    hide SlotOf, Run, Pushes, PushStep, At;
    Refilling(s, rec, m, s.claimed + m);
    PushFree(Run(s, Pushes(rec, m)), rec);
  }

  lemma NoneAnywhere(s: Ring, t: nat)
    requires Shaped(s) && forall k :: 0 <= k < |s.slots| ==> s.slots[k].None?
    ensures At(s, t).None?
  {
  }

  lemma PushFree(s: Ring, rec: Record)
    requires Shaped(s) && At(s, s.claimed).None?
    ensures PushStep(s, rec).0.dropped == s.dropped
  {
  }

  lemma RefillFull(s: Ring, rec: Record)
    requires Shaped(s) && !Oversize(rec) && forall k :: 0 <= k < |s.slots| ==> s.slots[k].None?
    ensures forall k :: 0 <= k < |s.slots| ==> Run(s, Pushes(rec, |s.slots|)).slots[k].Some?
  {
    hide SlotOf, Run, Pushes;
    var n := |s.slots|;
    forall k | 0 <= k < n ensures Run(s, Pushes(rec, n)).slots[k].Some? {
      var t := NextOnSlot(s.claimed, k, n);
      Refilling(s, rec, n, t);
    }
  }

  /** Overrun once, drain, fill again, overrun e times more, and pop twice. */
  function LateOps(n: nat, e: nat, rec: Record): seq<Op> {
    OverrunOps(n, 1, n, rec) + Pushes(rec, n) + Pushes(rec, e) + Pops(2)
  }

  /** The reader comes back to an empty slot, and the ticket that fills it overtakes the one a
      lap less one earlier, which waits next to it. */
  lemma LateByAlmostALap(n: nat, e: nat, rec: Record)
    requires n >= 2 && !Oversize(rec)
    ensures var s := Run(Init(n), LateOps(n, e, rec));
            s.dropped == e + 1 && |s.popped| == n + 2 && s.popped[n].ticket == s.popped[n + 1].ticket + n - 1
  {
    hide Run, Init, OverrunOps, LateOps, Pushes, Pops, SlotOf, PopStep, Oversize;
    var s := Overrun(n, 1, n, rec);
    PoppedServed(n, OverrunOps(n, 1, n, rec));
    SameSize(n, OverrunOps(n, 1, n, rec));
    LateRun(n, e, rec);
    Refilled(s, rec);
    RefillAccepts(s, rec, n);
    RefillFull(s, rec);
    var full := Run(s, Pushes(rec, n));
    Dropping(full, rec, e);
    TwoPops(Run(full, Pushes(rec, e)), rec, n + n, n + 1);
  }

  lemma PoppedServed(n: nat, ops: seq<Op>)
    requires n > 0
    ensures |Run(Init(n), ops).popped| == Run(Init(n), ops).served
  {
    Conservation(n, ops);
  }

  lemma LateRun(n: nat, e: nat, rec: Record)
    requires n > 0
    ensures var s := Run(Run(Run(Init(n), OverrunOps(n, 1, n, rec)), Pushes(rec, n)), Pushes(rec, e));
            Run(Init(n), LateOps(n, e, rec)) == PopStep(PopStep(s).0).0
  {
    hide OverrunOps, Pushes, Pops, Run, PopStep;
    var a, b, c := OverrunOps(n, 1, n, rec), Pushes(rec, n), Pushes(rec, e);
    RunConcat(Init(n), a, b);
    RunConcat(Init(n), a + b, c);
    RunConcat(Init(n), a + b + c, Pops(2));
    RunTwoPops(Run(Run(Run(Init(n), a), b), c));
  }

  lemma Refilled(s: Ring, rec: Record)
    requires Shaped(s) && s.claimed == |s.slots| + 1 && s.served == |s.slots| >= 2 && !Oversize(rec)
    requires forall k :: 0 <= k < |s.slots| ==> s.slots[k].None?
    ensures var n := |s.slots|;
            var s' := Run(s, Pushes(rec, n));
            && s'.served == n && s'.popped == s.popped
            && At(s', n) == Some(Entry(n + n, rec)) && At(s', n + 1) == Some(Entry(n + 1, rec))
  {
    hide SlotOf, Run;
    var n := |s.slots|;
    Refilling(s, rec, n, n + 1);
    Refilling(s, rec, n, n + n);
    SlotNextLap(n, n);
  }

  lemma TwoPops(s: Ring, rec: Record, t: nat, u: nat)
    requires Shaped(s) && |s.slots| >= 2
    requires At(s, s.served) == Some(Entry(t, rec)) && At(s, s.served + 1) == Some(Entry(u, rec))
    ensures PopStep(PopStep(s).0).0.popped == s.popped + [Entry(t, rec)] + [Entry(u, rec)]
    ensures PopStep(PopStep(s).0).0.dropped == s.dropped
  {
    hide SlotOf;
    PopView(s, s.served + 1);
  }

  lemma RunTwoPops(s: Ring)
    requires Shaped(s)
    ensures Run(s, Pops(2)) == PopStep(PopStep(s).0).0
  {
    PoppedOnce(s, 0);
    PoppedOnce(s, 1);
    hide *;
  }

  lemma PoppedOnce(s: Ring, m: nat)
    requires Shaped(s)
    ensures Run(s, Pops(0)) == s
    ensures Run(s, Pops(m + 1)) == PopStep(Run(s, Pops(m))).0
  {
    RunSnoc(s, Pops(m), Pop);
  }

  /** Over all runs of calls that do not overlap, a record popped before one with an earlier
      ticket is less than b ahead of it exactly when b is at least the capacity; a single slot
      never reorders. */
  lemma ReorderingExactly(n: nat, b: nat)
    requires n > 0
    ensures (forall ops: seq<Op>, i: nat, j: nat :: var p := Run(Init(n), ops).popped;
               i < j < |p| ==> p[i].ticket < p[j].ticket + b)
       <==> n == 1 || b >= n
  {
    if n == 1 || b >= n {
      forall ops: seq<Op>, i: nat, j: nat | i < j < |Run(Init(n), ops).popped|
        ensures var p := Run(Init(n), ops).popped; p[i].ticket < p[j].ticket + b
      {
        if n == 1 { OneSlotQueue(ops); } else { BoundedReordering(n, ops, i, j); }
      }
    } else {
      var rec := Record(0, 0, 0, []);
      LateByAlmostALap(n, 0, rec);
      var p := Run(Init(n), LateOps(n, 0, rec)).popped;
      assert !(p[n].ticket < p[n + 1].ticket + b);
    }
  }

  // ---------------------------------------------------------------- complete recordings

  /** The records offered to the ring, in push order; oversize ones never enter. */
  function Offered(ops: seq<Op>): seq<Record> {
    if ops == [] then []
    else
      var m := |ops| - 1;
      Offered(ops[..m]) + if ops[m].Push? && !Oversize(ops[m].rec) then [ops[m].rec] else []
  }

  lemma OfferedSnoc(ops: seq<Op>, op: Op)
    ensures Offered(ops + [op]) == Offered(ops) + if op.Push? && !Oversize(op.rec) then [op.rec] else []
  {
    assert (ops + [op])[..|ops|] == ops;
  }

  /** With nothing dropped, what was accepted is what was offered, in order. */
  lemma {:induction false} AcceptedIsOffered(n: nat, ops: seq<Op>)
    requires n > 0 && Run(Init(n), ops).dropped == 0
    ensures Recs(Run(Init(n), ops).accepted) == Offered(ops)
  {
    if ops != [] {
      var m := |ops| - 1;
      var s := Run(Init(n), ops[..m]);
      DroppedMonotone(s, ops[m]);
      AcceptedIsOffered(n, ops[..m]);
      if ops[m].Push? && !Oversize(ops[m].rec) {
        RecsTail(s.accepted, Entry(s.claimed, ops[m].rec), 0);
      }
    }
  }

  /** How many records had been popped at each pop that found nothing. */
  ghost function FailedPops(s: Ring, ops: seq<Op>): seq<nat>
    requires Shaped(s)
  {
    if ops == [] then []
    else
      var m := |ops| - 1;
      var before := Run(s, ops[..m]);
      FailedPops(s, ops[..m]) + if ops[m].Pop? && At(before, before.served).None? then [|before.popped|] else []
  }

  lemma FailedPopsSnoc(s: Ring, ops: seq<Op>, op: Op)
    requires Shaped(s)
    ensures var before := Run(s, ops);
            FailedPops(s, ops + [op])
            == FailedPops(s, ops) + if op.Pop? && At(before, before.served).None? then [|before.popped|] else []
  {
    assert (ops + [op])[..|ops|] == ops;
  }

  lemma NothingOffered(n: nat)
    requires n > 0
    ensures Offered([]) == [] && Run(Init(n), []).popped == []
  {
  }

  /** Whatever is dropped, only offered records are accepted. */
  lemma {:induction false} AcceptedOffered(n: nat, ops: seq<Op>, e: Entry)
    requires n > 0 && e in Run(Init(n), ops).accepted
    ensures e.rec in Offered(ops)
  {
    if ops != [] {
      var m := |ops| - 1;
      var s := Run(Init(n), ops[..m]);
      if e in s.accepted { AcceptedOffered(n, ops[..m], e); }
    }
  }

  /** Whatever is dropped, only offered records are popped. */
  lemma PoppedOffered(n: nat, ops: seq<Op>, i: nat)
    requires n > 0 && i < |Run(Init(n), ops).popped|
    ensures Run(Init(n), ops).popped[i].rec in Offered(ops)
  {
    hide Run, Offered;
    ContentsConserved(n, ops);
    var s := Run(Init(n), ops);
    assert s.popped[i] in multiset(s.popped);
    assert s.popped[i] in multiset(s.accepted);
    AcceptedOffered(n, ops, s.popped[i]);
  }

  /** A run without drops that ends in a failing pop has popped every record offered, in
      push order. */
  lemma CompleteDrain(n: nat, ops: seq<Op>)
    requires n > 0 && Run(Init(n), ops).dropped == 0
    requires var s := Run(Init(n), ops); At(s, s.served).None?
    ensures Recs(Run(Init(n), ops).popped) == Offered(ops)
  {
    var s := Run(Init(n), ops);
    RunFifo(n, ops);
    AcceptedIsOffered(n, ops);
    assert s.served == s.claimed;
    assert s.popped == s.accepted;
  }
}
