/** What a push held up between its claim and its check does to the reader: when a failing pop
    means that nothing waits, and how far a record can be overtaken. Each is an exact condition,
    and the bounds differ from those of calls that do not overlap. */
module RingOvertaking {
  import opened Bits
  import opened WireFormat
  import opened LogFormat
  import opened RingModel
  import opened RingTheorems
  import opened RingSerial
  import opened RingPlay
  import opened RingRaces
  import I = RingInterleaved
  import IT = RingInterleavedTheorems
  import IO = RingInterleavedOrder

  // ---------------------------------------------------------------- a held push

  /** Claims a ticket and stops there. */
  lemma HoldPush(n: nat, acts: seq<I.Action>, r: Ring, rec: Record) returns (acts': seq<I.Action>)
    requires n > 0 && !Oversize(rec) && I.Exec(n, acts).inflight == map[]
    requires Agrees(I.Exec(n, acts), r)
    ensures forall w :: I.Obeys(n, acts, w) && I.Allows(w, I.Exec(n, acts), I.Claim(rec)) ==> I.Obeys(n, acts', w)
    ensures var s, s' := I.Exec(n, acts), I.Exec(n, acts');
            && s' == s.(claimed := s.claimed + 1, inflight := map[s.claimed := I.Producer(rec, I.Claimed)])
            && Agrees(s', r.(claimed := s.claimed + 1))
  {
    hide I.Exec, I.Words, I.Obeys, SlotOf, I.Allows;
    acts' := Act(n, acts, I.Claim(rec));
    var s, s', r' := I.Exec(n, acts), I.Exec(n, acts'), r.(claimed := I.Exec(n, acts).claimed + 1);
    forall k: nat | k < |s.slots| ensures SlotAgrees(s', r', k) { assert SlotAgrees(s, r, k); }
  }

  /** Lets the held push of ticket t run to its end on a free slot. */
  lemma LetGo(n: nat, acts: seq<I.Action>, r: Ring, t: nat, rec: Record) returns (acts': seq<I.Action>)
    requires n > 0 && !Oversize(rec) && I.Obeys(n, acts, I.Lap)
    requires var s := I.Exec(n, acts);
             s.inflight == map[t := I.Producer(rec, I.Claimed)] && Agrees(s, r) && At(r, t).None?
    ensures I.Obeys(n, acts', I.Lap)
    ensures var s, s' := I.Exec(n, acts), I.Exec(n, acts');
            && s'.inflight == map[] && s'.claimed == s.claimed && s'.consumer == s.consumer
            && Agrees(s', r.(slots := r.slots[SlotOf(t, |r.slots|) := Some(Entry(t, rec))]))
  {
    hide I.Exec, I.Words, I.Obeys, SlotOf;
    var s := I.Exec(n, acts);
    I.LapRunInv(n, acts);
    assert I.FlightOk(s, t);
    acts' := FinishPush(n, acts, t);
    var s', r' := I.Exec(n, acts'), r.(slots := r.slots[SlotOf(t, |r.slots|) := Some(Entry(t, rec))]);
    assert SlotAgrees(s, r, I.Here(s, t));
    hide I.Inv;
    forall k: nat | k < |s.slots| ensures SlotAgrees(s', r', k) {
      assert SlotAgrees(s, r, k);
      OwnersKept(n, acts, s, t, k);
    }
  }

  lemma OwnersKept(n: nat, acts: seq<I.Action>, s: I.State, t: nat, k: nat)
    requires n > 0 && I.Obeys(n, acts, I.Lap) && s == I.Exec(n, acts) && k < |s.slots| && t in s.inflight
    ensures s.slots[k].ready ==> s.slots[k].owner != t
  {
    I.LapRunInv(n, acts);
    assert I.SlotOk(s, k) && I.FlightOk(s, t);
  }

  /** The ring after it was filled, overrun by a pushes, then by b more behind a held one, and
      drained, and the held push went through. */
  ghost predicate AfterHold(r: Ring, n: nat, a: nat, b: nat, rec: Record) {
    && |r.slots| == n > 0 && r.claimed == n + a + 1 + b && r.served == n == |r.popped| && r.dropped == a + b
    && forall k :: 0 <= k < n ==> r.slots[k] == if k == SlotOf(n + a, n) then Some(Entry(n + a, rec)) else None
  }

  lemma HeldRun(n: nat, a: nat, b: nat, rec: Record) returns (acts: seq<I.Action>, r: Ring)
    requires b < n && !Oversize(rec)
    ensures I.Obeys(n, acts, I.Lap) && AfterHold(r, n, a, b, rec) && Agrees(I.Exec(n, acts), r)
    ensures var s := I.Exec(n, acts); s.inflight == map[] && s.consumer.Idle? && s.claimed == r.claimed
  {
    hide I.Exec, I.Words, I.Obeys, Agrees, Run, SlotOf, I.Allows;
    var r1;
    acts, r1 := HeldBack(n, a, rec);
    var r2 := Overtaken(r1, rec, b);
    PushesCount(rec, b);
    PopsCount(Pushes(rec, b), n);
    acts := PlayOps(n, acts, r1, Pushes(rec, b) + Pops(n), 2);
    acts := LetGo(n, acts, r2, n + a, rec);
    r := r2.(slots := r2.slots[SlotOf(n + a, n) := Some(Entry(n + a, rec))]);
    PoppedLength(n, acts, r);
  }

  /** A full ring, overrun by a pushes, and ticket n + a held. */
  lemma HeldBack(n: nat, a: nat, rec: Record) returns (acts: seq<I.Action>, r: Ring)
    requires n > 0 && !Oversize(rec)
    ensures I.Obeys(n, acts, I.Lap) && I.Obeys(n, acts, I.Flights(2)) && Agrees(I.Exec(n, acts), r)
    ensures |r.slots| == n && r.claimed == n + a + 1 && r.served == 0 && r.dropped == a
    ensures forall k :: 0 <= k < n ==> r.slots[k].Some?
    ensures var s := I.Exec(n, acts);
            s.inflight == map[n + a := I.Producer(rec, I.Claimed)] && s.consumer.Idle? && s.claimed == r.claimed
  {
    hide I.Exec, I.Words, I.Obeys, Agrees, Run, SlotOf;
    ExecNothing(n);
    StartAgrees(n);
    r := Overrun(n, a, 0, rec);
    SameSize(n, OverrunOps(n, a, 0, rec));
    acts := PlayOps(n, [], Init(n), OverrunOps(n, a, 0, rec), 2);
    acts := HoldPush(n, acts, r, rec);
    r := r.(claimed := n + a + 1);
  }

  lemma StartAgrees(n: nat)
    requires n > 0
    ensures var s := I.Exec(n, []); Agrees(s, Init(n)) && s.claimed == Init(n).claimed && s.consumer.Idle? && s.inflight == map[]
  {
    ExecNothing(n);
    InitMatches(n);
  }

  /** A full ring rejects b pushes and is then emptied. */
  lemma Overtaken(r: Ring, rec: Record, b: nat) returns (r': Ring)
    requires Shaped(r) && r.served == 0 && !Oversize(rec) && forall k :: 0 <= k < |r.slots| ==> r.slots[k].Some?
    ensures r' == Run(r, Pushes(rec, b) + Pops(|r.slots|)) && |r'.slots| == |r.slots|
    ensures r'.claimed == r.claimed + b && r'.dropped == r.dropped + b && r'.served == |r.slots|
    ensures forall k :: 0 <= k < |r.slots| ==> r'.slots[k].None?
  {
    RunConcat(r, Pushes(rec, b), Pops(|r.slots|));
    Dropping(r, rec, b);
    DrainFull(Run(r, Pushes(rec, b)), |r.slots|);
    r' := Run(r, Pushes(rec, b) + Pops(|r.slots|));
  }

  lemma PoppedLength(n: nat, acts: seq<I.Action>, r: Ring)
    requires n > 0 && I.Obeys(n, acts, I.Lap) && Agrees(I.Exec(n, acts), r)
    ensures |r.popped| == r.served
  {
    IT.InterleavedConservation(n, acts);
  }

  // ---------------------------------------------------------------- what a failing pop means

  /** A held push strands a record behind the reader at any positive number of drops. */
  lemma HeldStranding(n: nat, d: nat, rec: Record) returns (acts: seq<I.Action>)
    requires n >= 2 && d >= 1 && !Oversize(rec)
    ensures I.Obeys(n, acts, I.Lap)
    ensures var s := I.Exec(n, acts);
            s.dropped == d && s.inflight == map[] && IT.Starved(s) && IT.ReadySlots(s) != {}
  {
    hide I.Exec, I.Obeys, I.Words;
    var r, k;
    if d % n != 0 {
      acts, r := HeldRun(n, d, 0, rec);
      SlotNextLap(d, n);
      k := d % n;
    } else {
      acts, r := HeldRun(n, d - 1, 1, rec);
      BeforeMultiple(n, d);
      k := n - 1;
    }
    SlotNextLap(0, n);
    DivModUnique(0, n, 0, 0);
    assert SlotOf(n, n) == 0;
    hide SlotOf;
    var s := I.Exec(n, acts);
    assert SlotAgrees(s, r, 0) && SlotAgrees(s, r, k);
    assert k in IT.ReadySlots(s);
  }

  lemma OneSlotStarved(s: I.State)
    requires |s.slots| == 1 && IT.Starved(s)
    ensures IT.ReadySlots(s) == {}
  {
    assert I.Here(s, s.served) == 0;
  }

  /** With no push left in flight, a failing pop is guaranteed to mean that nothing waits, for a
      given drop count, exactly when nothing was dropped or there is only one slot: pushes that
      overlap break the multiples of the capacity that `HonestEmptyExactly` allows. */
  lemma InterleavedEmptyExactly(n: nat, d: nat)
    requires n > 0
    ensures (forall acts :: var s := I.Exec(n, acts);
               I.Obeys(n, acts, I.Lap) && s.dropped == d && s.inflight == map[] && IT.Starved(s) ==> IT.ReadySlots(s) == {})
       <==> d == 0 || n == 1
  {
    hide I.Exec, I.Obeys;
    if d == 0 || n == 1 {
      forall acts | I.Obeys(n, acts, I.Lap) && I.Exec(n, acts).dropped == d
        && I.Exec(n, acts).inflight == map[] && IT.Starved(I.Exec(n, acts))
        ensures IT.ReadySlots(I.Exec(n, acts)) == {}
      {
        if n == 1 { OneSlotStarved(I.Exec(n, acts)); } else { IT.StarvedMeansDone(n, acts); }
      }
    } else {
      var acts := HeldStranding(n, d, Record(0, 0, 0, []));
    }
  }

  /** Ticket 0 is claimed and stalls; ticket 1 is pushed and returns. */
  lemma EarlyEmpty(n: nat, rec: Record) returns (acts: seq<I.Action>)
    requires n >= 2 && !Oversize(rec)
    ensures I.Obeys(n, acts, I.Reader) && I.Obeys(n, acts, I.Flights(2))
    ensures var s := I.Exec(n, acts); IT.Starved(s) && 1 in s.published && IT.ReadySlots(s) == {1}
  {
    hide I.Exec, I.Obeys, I.Words;
    ExecNothing(n);
    StartAgrees(n);
    acts := HoldPush(n, [], Init(n), rec);
    var r := Init(n).(claimed := 1);
    acts := PlayPush(n, acts, r, rec);
    DivModUnique(0, n, 0, 0);
    DivModUnique(1, n, 0, 1);
    var s, r' := I.Exec(n, acts), PushStep(r, rec).0;
    assert r'.slots == r.slots[1 := Some(Entry(1, rec))];
    hide SlotOf;
    forall k: nat | k < n ensures s.slots[k].ready <==> k == 1 { assert SlotAgrees(s, r', k); }
    assert SlotAgrees(s, r', 1);
  }

  /** When claims stay within one capacity of the reader, with at most p pushes in flight: a
      failing pop is guaranteed to mean that no record waits exactly when pushes do not overlap or
      there is only one slot. */
  lemma WindowEmptyExactly(n: nat, p: nat)
    requires n > 0
    ensures (forall acts :: var s := I.Exec(n, acts);
               I.Obeys(n, acts, I.Reader) && I.Obeys(n, acts, I.Flights(p)) && IT.Starved(s) ==> IT.ReadySlots(s) == {})
       <==> n == 1 || p <= 1
  {
    hide I.Exec, I.Obeys;
    if n == 1 || p <= 1 {
      forall acts | I.Obeys(n, acts, I.Reader) && I.Obeys(n, acts, I.Flights(p)) && IT.Starved(I.Exec(n, acts))
        ensures IT.ReadySlots(I.Exec(n, acts)) == {}
      {
        if n == 1 {
          OneSlotStarved(I.Exec(n, acts));
        } else {
          MorePushesAllowed(n, acts, p, 1);
          SerialStarved(n, acts);
        }
      }
    } else {
      var acts := EarlyEmpty(n, Record(0, 0, 0, []));
      MorePushesAllowed(n, acts, 2, p);
      assert 1 in IT.ReadySlots(I.Exec(n, acts));
    }
  }

  /** A lone push in flight that the reader waits for has nothing ready behind it. */
  lemma NothingBehind(s: I.State)
    requires I.Inv(s) && IT.Ordered(s) && Serial(s) && s.consumer.Idle? && s.served in s.inflight
    ensures IT.ReadySlots(s) == {}
  {
    hide SlotOf, I.Words;
    assert I.FlightOk(s, s.served);
    forall k: nat | k < |s.slots| && s.slots[k].ready ensures s.slots[k].owner < s.claimed { assert I.SlotOk(s, k); }
    assert forall k: nat :: k < |s.slots| && s.slots[k].ready ==> s.slots[k].owner == s.served;
    forall k: nat | k < |s.slots| ensures !s.slots[k].ready { assert I.SlotOk(s, k); }
  }

  lemma SerialStarved(n: nat, acts: seq<I.Action>)
    requires n > 0 && I.Obeys(n, acts, I.Reader) && I.Obeys(n, acts, I.Flights(1)) && IT.Starved(I.Exec(n, acts))
    ensures IT.ReadySlots(I.Exec(n, acts)) == {}
  {
    hide I.Exec, I.Obeys, I.Inv, IT.Ordered, Serial, Matches;
    IT.WindowRunOrdered(n, acts);
    var s := I.Exec(n, acts);
    if s.served in s.inflight {
      SerialRunIsAtomic(n, acts);
      IT.LapRunOrdered(n, acts);
      NothingBehind(s);
    } else {
      IT.StarvedMeansDone(n, acts);
    }
  }

  // ---------------------------------------------------------------- queue order

  /** Under the lap premise records are popped in ticket order, in all runs with d drops, exactly
      when nothing was dropped or there is only one slot. */
  lemma InterleavedOrderExactly(n: nat, d: nat)
    requires n > 0
    ensures (forall acts, i: nat, j: nat :: var s := I.Exec(n, acts);
               I.Obeys(n, acts, I.Lap) && s.dropped == d && i < j < |s.popped| ==> s.popped[i].ticket < s.popped[j].ticket)
       <==> d == 0 || n == 1
  {
    hide I.Exec, I.Obeys, I.Words;
    if d == 0 || n == 1 {
      forall acts, i: nat, j: nat | I.Obeys(n, acts, I.Lap) && I.Exec(n, acts).dropped == d && i < j < |I.Exec(n, acts).popped|
        ensures var s := I.Exec(n, acts); s.popped[i].ticket < s.popped[j].ticket
      {
        if n == 1 {
          IO.OneSlotInOrder(acts, i, j);
        } else {
          IT.UndroppedFifo(n, acts, i);
          IT.UndroppedFifo(n, acts, j);
        }
      }
    } else {
      var acts := OutOfOrder(n, d, Record(0, 0, 0, []));
      var s := I.Exec(n, acts);
      assert !(s.popped[n].ticket < s.popped[n + 1].ticket);
    }
  }

  /** Even pushes that do not overlap get out of order after any positive number of drops. */
  lemma OutOfOrder(n: nat, d: nat, rec: Record) returns (acts: seq<I.Action>)
    requires n >= 2 && d >= 1 && !Oversize(rec)
    ensures I.Obeys(n, acts, I.Lap)
    ensures var s := I.Exec(n, acts);
            s.dropped == d && |s.popped| == n + 2 && s.popped[n].ticket > s.popped[n + 1].ticket
  {
    hide I.Exec, I.Obeys, Agrees, Run, Init, LateOps, Matches;
    acts := AtomicRunIsSerial(n, LateOps(n, d - 1, rec));
    SerialRunIsAtomic(n, acts);
    LateByAlmostALap(n, d - 1, rec);
    SamePops(I.Exec(n, acts), Run(Init(n), LateOps(n, d - 1, rec)));
  }

  // ---------------------------------------------------------------- the sharp reordering bound

  /** From such a state one more lap of pushes fills the reader's slot two laps less one after
      the ticket that waits next to it. */
  lemma SecondLap(r: Ring, n: nat, rec: Record)
    requires n >= 2 && AfterHold(r, n, 1, n - 1, rec) && !Oversize(rec)
    ensures var r' := Run(r, Pushes(rec, n));
            && |r'.slots| == n && r'.served == n && r'.popped == r.popped
            && At(r', n) == Some(Entry(3 * n, rec)) && At(r', n + 1) == Some(Entry(n + 1, rec))
  {
    SlotNextLap(0, n);
    SlotNextLap(n, n);
    SlotNextLap(n + n, n);
    DivModUnique(0, n, 0, 0);
    SlotNextLap(1, n);
    DivModUnique(1, n, 0, 1);
    hide SlotOf, Run;
    assert At(r, 3 * n).None?;
    Refilling(r, rec, n, 3 * n);
    OccupiedStays(r, rec, n, 1);
  }

  lemma LateByAlmostTwoLaps(n: nat, rec: Record) returns (acts: seq<I.Action>)
    requires n >= 2 && !Oversize(rec)
    ensures I.Obeys(n, acts, I.Lap)
    ensures var p := I.Exec(n, acts).popped; |p| == n + 2 && p[n].ticket == p[n + 1].ticket + 2 * n - 1
  {
    hide I.Exec, I.Obeys, I.Words, SlotOf, Run, Agrees, At;
    var r;
    acts, r := HeldRun(n, 1, n - 1, rec);
    SecondLap(r, n, rec);
    var r', ops := Run(r, Pushes(rec, n)), Pushes(rec, n) + Pops(2);
    TwoPops(r', rec, 3 * n, n + 1);
    RunTwoPops(r');
    RunConcat(r, Pushes(rec, n), Pops(2));
    acts := PlayMore(n, acts, r, ops);
    SamePops(I.Exec(n, acts), Run(r, ops));
  }

  lemma PlayMore(n: nat, acts: seq<I.Action>, r: Ring, ops: seq<Op>) returns (acts': seq<I.Action>)
    requires n > 0 && I.Obeys(n, acts, I.Lap) && Agrees(I.Exec(n, acts), r)
    requires var s := I.Exec(n, acts); s.inflight == map[] && s.consumer.Idle? && s.claimed == r.claimed
    ensures I.Obeys(n, acts', I.Lap) && Agrees(I.Exec(n, acts'), Run(r, ops))
  {
    hide I.Exec, Agrees;
    var p := EnoughFlights(n, acts);
    acts' := PlayOps(n, acts, r, ops, p);
  }

  /** Some bound on the pushes in flight is never reached. */
  lemma {:induction false} EnoughFlights(n: nat, acts: seq<I.Action>) returns (p: nat)
    requires n > 0
    ensures p > 0 && I.Obeys(n, acts, I.Flights(p))
  {
    p := 1;
    if acts != [] {
      var m := |acts| - 1;
      var q := EnoughFlights(n, acts[..m]);
      p := q + |I.Exec(n, acts[..m]).inflight| + 1;
      MorePushesAllowed(n, acts[..m], q, p);
      I.ObeysSnoc(n, acts, I.Flights(p));
    }
  }

  lemma SamePops(s: I.State, r: Ring)
    requires Agrees(s, r)
    ensures s.dropped == r.dropped
    ensures |s.popped| == |r.popped| && forall i :: 0 <= i < |s.popped| ==> s.popped[i].ticket == r.popped[i].ticket
  {
  }

  /** Under the lap premise a record popped before one with an earlier ticket is less than b ahead
      of it, in all runs, exactly when b is at least two capacities; a single slot never reorders.
      For calls that do not overlap one capacity is enough (`ReorderingExactly`). */
  lemma InterleavedReorderingExactly(n: nat, b: nat)
    requires n > 0
    ensures (forall acts, i: nat, j: nat :: var p := I.Exec(n, acts).popped;
               I.Obeys(n, acts, I.Lap) && i < j < |p| ==> p[i].ticket < p[j].ticket + b)
       <==> n == 1 || b >= 2 * n
  {
    hide I.Exec, I.Obeys;
    if n == 1 || b >= 2 * n {
      forall acts, i: nat, j: nat | I.Obeys(n, acts, I.Lap) && i < j < |I.Exec(n, acts).popped|
        ensures var p := I.Exec(n, acts).popped; p[i].ticket < p[j].ticket + b
      {
        if n == 1 { IO.OneSlotInOrder(acts, i, j); } else { IO.InterleavedReordering(n, acts, i, j); }
      }
    } else {
      var acts := LateByAlmostTwoLaps(n, Record(0, 0, 0, []));
      var p := I.Exec(n, acts).popped;
      assert !(p[n].ticket < p[n + 1].ticket + b);
    }
  }
}
