/** What the interleaved ring guarantees under each premise on claiming: exclusive slots, whole
    records, conservation, and exact queue order while nothing is dropped. */
module RingInterleavedTheorems {
  import opened Bits
  import opened WireFormat
  import opened LogFormat
  import opened RingModel
  import I = RingInterleaved

  // ---------------------------------------------------------------- lap premise: mutual exclusion

  predicate Writing(s: I.State, t: nat) { t in s.inflight && s.inflight[t].pc.Filling? }

  /** Under the lap premise, at every moment at most one thread is between its check and its
      publish or release on any slot. */
  lemma ExclusiveSlots(n: nat, acts: seq<I.Action>, t: nat, u: nat)
    requires n > 0 && I.Obeys(n, acts, I.Lap) && Writing(I.Exec(n, acts), t)
    ensures var s := I.Exec(n, acts);
            && (Writing(s, u) && SlotOf(t, n) == SlotOf(u, n) ==> t == u)
            && (s.consumer.Copying? ==> SlotOf(t, n) != SlotOf(s.served, n))
  {
    I.LapRunInv(n, acts);
    var s := I.Exec(n, acts);
    assert I.FlightOk(s, t);
    if Writing(s, u) && t != u { I.FlightsApart(s, t, u); }
  }

  /** Under the lap premise every popped record is exactly the arguments of one published push,
      never a mixture and never padded with stale bytes, and no push is popped twice. */
  lemma NoMixture(n: nat, acts: seq<I.Action>, i: nat)
    requires n > 0 && I.Obeys(n, acts, I.Lap) && i < |I.Exec(n, acts).popped|
    ensures var s := I.Exec(n, acts);
            var p := s.popped[i];
            && p.ticket in s.published && p.words == I.Words(s.published[p.ticket])
            && (forall rec :: I.Words(rec) == p.words ==> rec == s.published[p.ticket])
            && (forall j :: 0 <= j < |s.popped| && j != i ==> s.popped[j].ticket != p.ticket)
  {
    I.LapRunInv(n, acts);
    var s := I.Exec(n, acts);
    forall rec | I.Words(rec) == s.popped[i].words ensures rec == s.published[s.popped[i].ticket] {
      I.WordsInjective(rec, s.published[s.popped[i].ticket]);
    }
  }

  // ---------------------------------------------------------------- lap premise: conservation

  function ReadyOf(slots: seq<I.Slot>): set<nat> { set k: nat | k < |slots| && slots[k].ready }

  function ReadySlots(s: I.State): set<nat> { ReadyOf(s.slots) }

  lemma ReadyUpdate(slots: seq<I.Slot>, k: nat, x: I.Slot)
    requires k < |slots|
    ensures !slots[k].ready && x.ready ==> |ReadyOf(slots[k := x])| == |ReadyOf(slots)| + 1
    ensures slots[k].ready && !x.ready ==> |ReadyOf(slots[k := x])| == |ReadyOf(slots)| - 1
    ensures slots[k].ready == x.ready ==> ReadyOf(slots[k := x]) == ReadyOf(slots)
  {
    var a, b := ReadyOf(slots), ReadyOf(slots[k := x]);
    forall j: nat ensures j in a <==> j < |slots| && slots[j].ready { }
    forall j: nat ensures j in b <==> j < |slots| && slots[k := x][j].ready { }
    hide ReadyOf;
    if x.ready {
      assert b == a + {k};
    } else {
      assert b == a - {k};
    }
  }

  function Finished(s: I.State): nat { s.served + if s.consumer.Released? then 1 else 0 }

  ghost predicate Counted(s: I.State) {
    && |s.popped| == Finished(s)
    && s.claimed == s.dropped + |s.published| + |s.inflight|
    && |s.published| == |s.popped| + |ReadySlots(s)|
    && (|s.slots| > 0 ==> forall i: nat :: i < |s.popped| ==>
          SlotOf(s.popped[i].ticket, |s.slots|) == SlotOf(i, |s.slots|))
  }

  lemma MapAdd<V>(m: map<nat, V>, k: nat, v: V)
    requires k !in m
    ensures |m[k := v]| == |m| + 1
  {
    assert m[k := v].Keys == m.Keys + {k};
    assert |m.Keys| == |m| && |m[k := v].Keys| == |m[k := v]|;
  }

  lemma MapKeep<V>(m: map<nat, V>, k: nat, v: V)
    requires k in m
    ensures |m[k := v]| == |m|
  {
    assert m[k := v].Keys == m.Keys;
    assert |m.Keys| == |m| && |m[k := v].Keys| == |m[k := v]|;
  }

  lemma MapRemove<V>(m: map<nat, V>, k: nat)
    requires k in m
    ensures |m - {k}| == |m| - 1
  {
    assert (m - {k}).Keys == m.Keys - {k};
    assert |m.Keys| == |m| && |(m - {k}).Keys| == |m - {k}|;
  }

  lemma ClaimCounted(s: I.State, rec: Record)
    requires Counted(s) && s.claimed !in s.inflight
    ensures Counted(I.ClaimStep(s, rec))
  {
    var s' := I.ClaimStep(s, rec);
    if s' != s {
      MapAdd(s.inflight, s.claimed, I.Producer(rec, I.Claimed));
      assert ReadySlots(s') == ReadySlots(s);
    }
  }

  lemma CheckCounted(s: I.State, t: nat)
    requires |s.slots| > 0 && Counted(s)
    ensures Counted(I.CheckStep(s, t))
  {
    hide SlotOf, ReadyOf;
    var s' := I.CheckStep(s, t);
    if s' != s {
      MapRemove(s.inflight, t);
      MapKeep(s.inflight, t, s.inflight[t].(pc := I.Filling(0)));
    }
  }

  lemma FillCounted(s: I.State, t: nat)
    requires |s.slots| > 0 && Counted(s)
    ensures Counted(I.FillStep(s, t))
  {
    hide SlotOf, I.Words, ReadyOf;
    var s' := I.FillStep(s, t);
    if s' != s {
      ReadyUpdate(s.slots, I.Here(s, t), s'.slots[I.Here(s, t)]);
      MapKeep(s.inflight, t, s'.inflight[t]);
    }
  }

  lemma PublishCounted(s: I.State, t: nat)
    requires |s.slots| > 0 && Counted(s) && (Writing(s, t) ==> !s.slots[I.Here(s, t)].ready && t !in s.published)
    ensures Counted(I.PublishStep(s, t))
  {
    hide SlotOf, I.Words, ReadyOf;
    var s' := I.PublishStep(s, t);
    if s' != s {
      ReadyUpdate(s.slots, I.Here(s, t), s'.slots[I.Here(s, t)]);
      MapRemove(s.inflight, t);
      MapAdd(s.published, t, s.inflight[t].rec);
    }
  }

  lemma ReleaseCounted(s: I.State)
    requires |s.slots| > 0 && Counted(s)
    requires var slot := s.slots[I.Here(s, s.served)];
             s.consumer.Copying? ==> slot.ready && SlotOf(slot.owner, |s.slots|) == I.Here(s, s.served)
    ensures Counted(I.ReleaseStep(s))
  {
    hide SlotOf, I.Words, ReadyOf;
    var s' := I.ReleaseStep(s);
    if s' != s {
      ReadyUpdate(s.slots, I.Here(s, s.served), s'.slots[I.Here(s, s.served)]);
    }
  }

  lemma ConsumeCounted(s: I.State)
    requires |s.slots| > 0 && Counted(s)
    ensures Counted(I.BeginPopStep(s)) && Counted(I.CopyStep(s)) && Counted(I.AdvanceStep(s))
  {
    hide SlotOf, I.Words, ReadyOf;
  }

  lemma InvFacts(s: I.State, t: nat)
    requires I.Inv(s)
    ensures s.claimed !in s.inflight
    ensures Writing(s, t) ==> !s.slots[I.Here(s, t)].ready && t !in s.published
    ensures var slot := s.slots[I.Here(s, s.served)];
            s.consumer.Copying? ==> slot.ready && SlotOf(slot.owner, |s.slots|) == I.Here(s, s.served)
  {
    hide SlotOf, I.Words;
    assert s.claimed in s.inflight ==> I.FlightOk(s, s.claimed);
    assert t in s.inflight ==> I.FlightOk(s, t);
    assert I.SlotOk(s, I.Here(s, s.served));
  }

  lemma NextCounted(s: I.State, a: I.Action)
    requires I.Inv(s) && Counted(s)
    ensures Counted(I.Next(s, a))
  {
    InvFacts(s, match a case Publish(t) => t case _ => 0);
    hide Counted, I.Inv, I.ClaimStep, I.CheckStep, I.FillStep, I.PublishStep, I.BeginPopStep, I.CopyStep, I.ReleaseStep, I.AdvanceStep;
    match a
    case Claim(rec) => ClaimCounted(s, rec);
    case Check(t) => CheckCounted(s, t);
    case Fill(t) => FillCounted(s, t);
    case Publish(t) => PublishCounted(s, t);
    case BeginPop => ConsumeCounted(s);
    case Copy => ConsumeCounted(s);
    case Release => ReleaseCounted(s);
    case Advance => ConsumeCounted(s);
  }

  /** Under the lap premise, in every state: tickets claimed = dropped + accepted + in flight,
      accepted = popped + ready, and pop number i came from slot i mod n. */
  lemma {:induction false} InterleavedConservation(n: nat, acts: seq<I.Action>)
    requires n > 0 && I.Obeys(n, acts, I.Lap)
    ensures Counted(I.Exec(n, acts))
  {
    if acts == [] {
      assert ReadySlots(I.Init(n)) == {};
    } else {
      var m := |acts| - 1;
      I.ObeysPrefix(n, acts, I.Lap, m);
      InterleavedConservation(n, acts[..m]);
      I.LapRunInv(n, acts[..m]);
      NextCounted(I.Exec(n, acts[..m]), acts[m]);
    }
  }

  // ---------------------------------------------------------------- tickets and their records

  /** The records producers asked to push, in the order of their claims. */
  function Claims(acts: seq<I.Action>): seq<Record> {
    if acts == [] then []
    else
      var m := |acts| - 1;
      Claims(acts[..m]) + if acts[m].Claim? then [acts[m].rec] else []
  }

  /** Those that fit a slot; the others never take a ticket. */
  function Fitting(rs: seq<Record>): seq<Record> {
    if rs == [] then []
    else
      var m := |rs| - 1;
      Fitting(rs[..m]) + if Oversize(rs[m]) then [] else [rs[m]]
  }

  lemma FittingSnoc(rs: seq<Record>, r: Record)
    ensures Fitting(rs + [r]) == Fitting(rs) + if Oversize(r) then [] else [r]
  {
    assert (rs + [r])[..|rs|] == rs;
  }

  ghost predicate Ticketed(s: I.State, rs: seq<Record>) {
    && s.claimed == |rs|
    && (forall t: nat :: t in s.inflight ==> t < |rs| && s.inflight[t].rec == rs[t])
    && (forall t: nat :: t in s.published ==> t < |rs| && s.published[t] == rs[t])
  }

  lemma NextTicketed(s: I.State, a: I.Action, rs: seq<Record>)
    requires |s.slots| > 0 && Ticketed(s, rs)
    ensures Ticketed(I.Next(s, a), if a.Claim? && !Oversize(a.rec) then rs + [a.rec] else rs)
  {
    hide SlotOf, I.Words;
  }

  lemma TicketsSnoc(acts: seq<I.Action>)
    requires acts != []
    ensures var m := |acts| - 1;
            Fitting(Claims(acts)) == Fitting(Claims(acts[..m])) + if acts[m].Claim? && !Oversize(acts[m].rec) then [acts[m].rec] else []
  {
    var m := |acts| - 1;
    var front := Claims(acts[..m]);
    hide Fitting;
    if acts[m].Claim? {
      FittingSnoc(front, acts[m].rec);
    } else {
      assert Claims(acts) == front;
    }
  }

  /** In every run ticket t belongs to the t-th fitting record claimed, in flight or published. */
  lemma {:induction false} TicketRecords(n: nat, acts: seq<I.Action>)
    requires n > 0
    ensures Ticketed(I.Exec(n, acts), Fitting(Claims(acts)))
  {
    if acts != [] {
      var m := |acts| - 1;
      TicketRecords(n, acts[..m]);
      TicketsSnoc(acts);
      var rs := Fitting(Claims(acts[..m]));
      hide Ticketed, I.Next, Fitting, Claims;
      NextTicketed(I.Exec(n, acts[..m]), acts[m], rs);
      assert rs + [] == rs;
    }
  }

  // ---------------------------------------------------------------- nothing dropped: exact FIFO

  ghost predicate Pending(s: I.State, t: nat)
    requires |s.slots| > 0
  {
    t in s.inflight || (s.slots[I.Here(s, t)].ready && s.slots[I.Here(s, t)].owner == t)
  }

  /** What holds while nothing has been dropped. Tickets below `Finished` are popped, in order;
      those from there up to the claim cursor are in flight or ready, each in its own slot; only
      tickets less than a lap ahead of the reader are past their check. */
  ghost predicate Ordered(s: I.State)
    requires I.Shaped(s)
  {
    && s.dropped == 0 && |s.popped| == Finished(s) <= s.claimed
    && (forall i: nat :: i < |s.popped| ==> s.popped[i].ticket == i)
    && (forall t: nat :: t in s.inflight ==> t >= Finished(s))
    && (forall t: nat :: Writing(s, t) ==> t < Finished(s) + |s.slots|)
    && (forall k: nat :: k < |s.slots| && s.slots[k].ready ==>
          Finished(s) <= s.slots[k].owner < Finished(s) + |s.slots|)
    && (forall t: nat :: Finished(s) <= t < s.claimed ==> Pending(s, t))
    && (forall t: nat :: t < s.claimed ==> t in s.inflight || t in s.published)
  }

  /** A ready slot that a ticket of the reader's next lap maps to is that ticket's own. */
  lemma OwnerInWindow(s: I.State, k: nat, t: nat)
    requires I.Inv(s) && Ordered(s) && k < |s.slots| && s.slots[k].ready
    requires Finished(s) <= t < Finished(s) + |s.slots| && I.Here(s, t) == k
    ensures s.slots[k].owner == t
  {
    hide SlotOf;
    assert I.SlotOk(s, k);
    var o := s.slots[k].owner;
    if o < t { SlotsApart(o, t, |s.slots|); } else if t < o { SlotsApart(t, o, |s.slots|); }
  }

  lemma ClaimOrdered(s: I.State, rec: Record)
    requires I.Inv(s) && Ordered(s)
    ensures Ordered(I.ClaimStep(s, rec))
  {
    hide SlotOf, I.Words;
    var c := I.ClaimStep(s, rec);
    forall u: nat | Finished(c) <= u < c.claimed ensures Pending(c, u) {
      if u < s.claimed { assert Pending(s, u); }
    }
    forall t: nat | Writing(c, t) ensures t < Finished(c) + |s.slots| {
      assert Writing(s, t);
    }
  }

  lemma FillOrdered(s: I.State, t: nat)
    requires I.Inv(s) && Ordered(s)
    ensures Ordered(I.FillStep(s, t))
  {
    hide SlotOf, I.Words;
    var f := I.FillStep(s, t);
    forall u: nat | Finished(f) <= u < f.claimed ensures Pending(f, u) { assert Pending(s, u); }
    forall u: nat | Writing(f, u) ensures u < Finished(f) + |s.slots| { assert Writing(s, u); }
  }

  /** A check that passes belongs to a ticket whose predecessor on the slot has been popped. */
  lemma PredecessorPopped(s: I.State, t: nat)
    requires I.Inv(s) && Ordered(s) && t in s.inflight && !s.slots[I.Here(s, t)].ready
    ensures t < Finished(s) + |s.slots|
  {
    hide SlotOf, I.Words;
    var n := |s.slots|;
    assert I.FlightOk(s, t);
    if t >= n { I.LapBehindDone(s, t); }
    assert t >= Finished(s) + n ==> Pending(s, t - n);
  }

  lemma CheckOrdered(s: I.State, t: nat)
    requires I.Inv(s) && Ordered(s) && I.CheckStep(s, t).dropped == 0
    ensures Ordered(I.CheckStep(s, t))
  {
    hide SlotOf, I.Words;
    var s', n := I.CheckStep(s, t), |s.slots|;
    if s' != s {
      assert I.FlightOk(s, t);
      PredecessorPopped(s, t);
      forall u: nat | Finished(s) <= u < s.claimed ensures Pending(s', u) { assert Pending(s, u); }
      forall u: nat | Writing(s', u) ensures u < Finished(s) + n { assert u != t ==> Writing(s, u); }
    }
  }

  lemma PublishOrdered(s: I.State, t: nat)
    requires I.Inv(s) && Ordered(s)
    ensures Ordered(I.PublishStep(s, t))
  {
    hide SlotOf, I.Words;
    var s' := I.PublishStep(s, t);
    if s' != s {
      assert I.FlightOk(s, t) && Writing(s, t);
      forall u: nat | Finished(s) <= u < s.claimed ensures Pending(s', u) { assert Pending(s, u); }
      forall u: nat | Writing(s', u) ensures u < Finished(s) + |s.slots| { assert Writing(s, u); }
    }
  }

  lemma ReleaseOrdered(s: I.State)
    requires I.Inv(s) && Ordered(s)
    ensures Ordered(I.ReleaseStep(s))
  {
    hide SlotOf, I.Words;
    var s' := I.ReleaseStep(s);
    if s' != s {
      var k, n := I.Here(s, s.served), |s.slots|;
      assert I.SlotOk(s, k);
      OwnerInWindow(s, k, s.served);
      forall t: nat | t in s'.inflight ensures t >= Finished(s') { assert I.FlightOk(s, t); }
      forall t: nat | Writing(s', t) ensures t < Finished(s') + n { assert Writing(s, t); }
      forall u: nat | Finished(s') <= u < s.claimed ensures Pending(s', u) {
        assert Pending(s, u);
      }
      forall j: nat | j < n && s'.slots[j].ready ensures Finished(s') <= s'.slots[j].owner < Finished(s') + n {
        assert I.SlotOk(s, j);
      }
    }
  }

  lemma ConsumeOrdered(s: I.State, a: I.Action)
    requires I.Inv(s) && Ordered(s) && (a.BeginPop? || a.Copy? || a.Advance?)
    ensures I.Shaped(I.Next(s, a)) ==> Ordered(I.Next(s, a))
  {
    hide SlotOf, I.Words;
    var s' := I.Next(s, a);
    forall u: nat | Finished(s) <= u < s.claimed ensures Pending(s', u) { assert Pending(s, u); }
    forall u: nat | Writing(s', u) ensures u < Finished(s) + |s.slots| { assert Writing(s, u); }
  }

  lemma NextOrdered(s: I.State, a: I.Action)
    requires I.Inv(s) && Ordered(s) && I.Next(s, a).dropped == 0
    ensures I.Shaped(I.Next(s, a)) ==> Ordered(I.Next(s, a))
  {
    hide Ordered, I.Inv, I.ClaimStep, I.CheckStep, I.FillStep, I.PublishStep, I.BeginPopStep, I.CopyStep, I.ReleaseStep, I.AdvanceStep;
    match a
    case Claim(rec) => ClaimOrdered(s, rec);
    case Check(t) => CheckOrdered(s, t);
    case Fill(t) => FillOrdered(s, t);
    case Publish(t) => PublishOrdered(s, t);
    case BeginPop => ConsumeOrdered(s, a);
    case Copy => ConsumeOrdered(s, a);
    case Release => ReleaseOrdered(s);
    case Advance => ConsumeOrdered(s, a);
  }

  lemma DropsGrow(s: I.State, a: I.Action)
    requires |s.slots| > 0
    ensures I.Next(s, a).dropped >= s.dropped
  {
  }

  /** Under the lap premise every run without a drop stays in order. */
  lemma {:induction false} LapRunOrdered(n: nat, acts: seq<I.Action>)
    requires n > 0 && I.Obeys(n, acts, I.Lap) && I.Exec(n, acts).dropped == 0
    ensures I.Inv(I.Exec(n, acts)) && Ordered(I.Exec(n, acts))
  {
    I.LapRunInv(n, acts);
    if acts != [] {
      hide Ordered;
      var m := |acts| - 1;
      I.ObeysPrefix(n, acts, I.Lap, m);
      DropsGrow(I.Exec(n, acts[..m]), acts[m]);
      LapRunOrdered(n, acts[..m]);
      NextOrdered(I.Exec(n, acts[..m]), acts[m]);
    }
  }

  /** While nothing has been dropped, pop number k returns the record of ticket k. */
  lemma UndroppedFifo(n: nat, acts: seq<I.Action>, k: nat)
    requires n > 0 && I.Obeys(n, acts, I.Lap) && I.Exec(n, acts).dropped == 0
    requires k < |I.Exec(n, acts).popped|
    ensures var s := I.Exec(n, acts);
            k in s.published && s.popped[k] == I.Popped(k, I.Words(s.published[k]))
  {
    LapRunOrdered(n, acts);
  }

  /** Real-time order while nothing has been dropped: a push that returned before another
      claimed its ticket is popped first. */
  lemma ReturnedFirstPoppedFirst(n: nat, acts: seq<I.Action>, m: nat, t: nat, u: nat, j: nat)
    requires n > 0 && m <= |acts| && I.Obeys(n, acts, I.Lap) && I.Exec(n, acts).dropped == 0
    requires t in I.Exec(n, acts[..m]).published && u >= I.Exec(n, acts[..m]).claimed
    requires j < |I.Exec(n, acts).popped| && I.Exec(n, acts).popped[j].ticket == u
    ensures t < j && I.Exec(n, acts).popped[t].ticket == t
  {
    LapRunOrdered(n, acts);
    I.ObeysPrefix(n, acts, I.Lap, m);
    I.LapRunInv(n, acts[..m]);
  }

  /** An idle consumer whose slot is not ready would see a failing pop. */
  predicate Starved(s: I.State)
    requires |s.slots| > 0
  {
    s.consumer.Idle? && !s.slots[I.Here(s, s.served)].ready
  }

  /** While nothing has been dropped, a failing pop means that the very ticket the reader waits
      for is still in flight, or that every ticket ever claimed has been popped. */
  lemma StarvedMeansDone(n: nat, acts: seq<I.Action>)
    requires n > 0 && I.Obeys(n, acts, I.Lap) && I.Exec(n, acts).dropped == 0
    requires var s := I.Exec(n, acts); Starved(s) && s.served !in s.inflight
    ensures var s := I.Exec(n, acts);
            |s.popped| == s.claimed == s.served && s.inflight == map[] && ReadySlots(s) == {}
  {
    LapRunOrdered(n, acts);
    var s := I.Exec(n, acts);
    forall t: nat | t in s.inflight ensures t < s.claimed { assert I.FlightOk(s, t); }
    forall k: nat | k < n && s.slots[k].ready ensures s.slots[k].owner < s.claimed { assert I.SlotOk(s, k); }
    assert s.served < s.claimed ==> Pending(s, s.served);
  }

  // ---------------------------------------------------------------- reader premise: no drops

  ghost predicate Windowed(s: I.State) { s.claimed <= s.served + |s.slots| }

  /** Within one capacity of the reader no check finds its slot occupied. */
  lemma CheckPasses(s: I.State, t: nat)
    requires I.Inv(s) && Ordered(s) && Windowed(s)
    ensures I.CheckStep(s, t).dropped == 0
  {
    hide SlotOf, I.Words;
    if t in s.inflight {
      assert I.FlightOk(s, t);
      var k := I.Here(s, t);
      if s.slots[k].ready {
        assert I.SlotOk(s, k);
        OwnerInWindow(s, k, t);
        assert false;
      }
    }
  }

  lemma NextWindowed(s: I.State, a: I.Action)
    requires I.Inv(s) && Ordered(s) && Windowed(s) && I.Allows(I.Reader, s, a)
    ensures I.Allows(I.Lap, s, a) && Windowed(I.Next(s, a)) && I.Next(s, a).dropped == 0
  {
    if a.Check? { CheckPasses(s, a.t); }
    hide SlotOf, I.Words;
  }

  /** Every run that claims only within one capacity of the reader keeps the lap premise, drops
      nothing and stays in order, so all of the above holds of it. */
  lemma {:induction false} WindowRunOrdered(n: nat, acts: seq<I.Action>)
    requires n > 0 && I.Obeys(n, acts, I.Reader)
    ensures I.Obeys(n, acts, I.Lap) && I.Exec(n, acts).dropped == 0 && Windowed(I.Exec(n, acts))
  {
    if acts != [] {
      hide Ordered, I.Inv, Windowed, I.Allows;
      var m := |acts| - 1;
      I.ObeysPrefix(n, acts, I.Reader, m);
      WindowRunOrdered(n, acts[..m]);
      LapRunOrdered(n, acts[..m]);
      NextWindowed(I.Exec(n, acts[..m]), acts[m]);
      I.ObeysSnoc(n, acts, I.Lap);
    }
  }

  // ---------------------------------------------------------------- bounded stall

  /** The reader has stood at turn r since ticket w was next, and every ticket of its slot claimed
      since is still in flight. */
  ghost predicate Waiting(s: I.State, r: nat, w: nat)
    requires |s.slots| > 0
  {
    && s.served == r && Starved(s)
    && forall t: nat :: w <= t < s.claimed && I.Here(s, t) == I.Here(s, r) ==> t in s.inflight
  }

  /** The reader has left turn r or finds its slot ready. */
  ghost predicate Unblocked(s: I.State, r: nat)
    requires |s.slots| > 0
  {
    Finished(s) > r || (s.served == r && s.slots[I.Here(s, r)].ready)
  }

  lemma NextStall(s: I.State, a: I.Action, r: nat, w: nat)
    requires |s.slots| > 0 && (Waiting(s, r, w) || Unblocked(s, r))
    ensures Waiting(I.Next(s, a), r, w) || Unblocked(I.Next(s, a), r)
  {
    hide SlotOf, I.Words;
  }

  lemma {:induction false} StallOrNot(n: nat, acts: seq<I.Action>, m: nat)
    requires n > 0 && m <= |acts| && Starved(I.Exec(n, acts[..m]))
    ensures var s, s' := I.Exec(n, acts[..m]), I.Exec(n, acts);
            Waiting(s', s.served, s.claimed) || Unblocked(s', s.served)
  {
    if m == |acts| {
      assert acts[..m] == acts;
    } else {
      var l := |acts| - 1;
      assert acts[..l][..m] == acts[..m];
      assert I.Exec(n, acts) == I.Next(I.Exec(n, acts[..l]), acts[l]);
      hide Waiting, Unblocked, I.Next, I.Exec;
      StallOrNot(n, acts[..l], m);
      var s := I.Exec(n, acts[..m]);
      NextStall(I.Exec(n, acts[..l]), acts[l], s.served, s.claimed);
    }
  }

  /** In every run, premise or not, whatever is dropped: once n tickets have been claimed since a
      pop failed, and none of the tickets up to there is in flight any more, the reader has moved
      or finds its slot ready. */
  lemma InterleavedStall(n: nat, acts: seq<I.Action>, m: nat)
    requires n > 0 && m <= |acts| && Starved(I.Exec(n, acts[..m]))
    requires var w := I.Exec(n, acts[..m]).claimed + n;
             I.Exec(n, acts).claimed >= w && forall t: nat :: t < w ==> t !in I.Exec(n, acts).inflight
    ensures Unblocked(I.Exec(n, acts), I.Exec(n, acts[..m]).served)
  {
    hide I.Exec, SlotOf;
    StallOrNot(n, acts, m);
    var s := I.Exec(n, acts[..m]);
    var t := NextOnSlot(s.claimed, I.Here(s, s.served), n);
    assert I.Here(I.Exec(n, acts), t) == I.Here(I.Exec(n, acts), s.served);
  }
}
