/** The order in which the interleaved ring hands records over, whatever is dropped, under the
    lap premise: the exact pop within each slot, and how far a record can be overtaken. */
module RingInterleavedOrder {
  import opened Bits
  import opened WireFormat
  import opened LogFormat
  import opened RingModel
  import I = RingInterleaved
  import IT = RingInterleavedTheorems

  /** The slot the reader meets at pop number a. */
  function View(s: I.State, a: nat): I.Slot
    requires |s.slots| > 0
  {
    s.slots[SlotOf(a, |s.slots|)]
  }

  // ---------------------------------------------------------------- invariants

  /** The published tickets of the slot of t that precede t. */
  function Before(published: set<nat>, t: nat, n: nat): set<nat>
    requires n > 0
  {
    set u | u in published && u < t && SlotOf(u, n) == SlotOf(t, n)
  }

  function Column(published: set<nat>, a: nat, n: nat): set<nat>
    requires n > 0
  {
    set u | u in published && SlotOf(u, n) == SlotOf(a, n)
  }

  /** The slot of the reader's turn a has been published into once per turn so far, and once
      more if it is ready. */
  ghost predicate TurnAt(s: I.State, a: nat)
    requires |s.slots| > 0
  {
    var pub, n := s.published.Keys, |s.slots|;
    && |Column(pub, a, n)| == Lap(a, n) + (if View(s, a).ready then 1 else 0)
    && (View(s, a).ready ==> |Before(pub, View(s, a).owner, n)| == Lap(a, n))
  }

  ghost predicate PopAt(s: I.State, i: nat)
    requires |s.slots| > 0 && i < |s.popped|
  {
    |Before(s.published.Keys, s.popped[i].ticket, |s.slots|)| == Lap(i, |s.slots|)
  }

  ghost predicate Turns(s: I.State)
    requires |s.slots| > 0
  {
    && |s.popped| == IT.Finished(s)
    && (forall a: nat :: IT.Finished(s) <= a < IT.Finished(s) + |s.slots| ==> TurnAt(s, a))
    && (forall i: nat :: i < |s.popped| ==> PopAt(s, i))
  }

  ghost predicate Settled(s: I.State, v: nat) { v < s.claimed && v !in s.inflight }

  /** In reader order, a settled ticket of an empty slot is less than a lap ahead of the ticket
      in any later ready slot. */
  ghost predicate EmptyBeforeReady(s: I.State)
    requires |s.slots| > 0
  {
    forall a: nat, b: nat, v: nat ::
      IT.Finished(s) <= a < b < IT.Finished(s) + |s.slots| && !View(s, a).ready && View(s, b).ready
      && Settled(s, v) && SlotOf(v, |s.slots|) == SlotOf(a, |s.slots|)
      ==> v < View(s, b).owner + |s.slots|
  }

  ghost predicate ReadyOrder(s: I.State)
    requires |s.slots| > 0
  {
    forall a: nat, b: nat ::
      IT.Finished(s) <= a < b < IT.Finished(s) + |s.slots| && View(s, a).ready && View(s, b).ready
      ==> View(s, a).owner < View(s, b).owner + 2 * |s.slots|
  }

  ghost predicate PoppedOrder(s: I.State) {
    && (forall i, j :: 0 <= i < j < |s.popped| ==> s.popped[i].ticket < s.popped[j].ticket + 2 * |s.slots|)
    && (forall i, k :: 0 <= i < |s.popped| && 0 <= k < |s.slots| && s.slots[k].ready ==>
          s.popped[i].ticket < s.slots[k].owner + 2 * |s.slots|)
  }

  ghost predicate Near(s: I.State)
    requires |s.slots| > 0
  {
    EmptyBeforeReady(s) && ReadyOrder(s) && PoppedOrder(s)
  }

  ghost predicate Order(s: I.State)
    requires |s.slots| > 0
  {
    Turns(s) && Near(s)
  }

  // ---------------------------------------------------------------- steps that publish and pop nothing

  /** Flags, owners, histories and the reader's turn are the same; tickets settle only on ready
      slots. */
  ghost predicate Alike(s: I.State, s': I.State)
    requires |s.slots| == |s'.slots| > 0
  {
    && (forall k :: 0 <= k < |s.slots| ==>
          s'.slots[k].ready == s.slots[k].ready && s'.slots[k].owner == s.slots[k].owner)
    && IT.Finished(s') == IT.Finished(s) && s'.popped == s.popped && s'.published == s.published
    && (forall v: nat :: Settled(s', v) ==> Settled(s, v) || View(s', v).ready)
  }

  lemma AlikeOrder(s: I.State, s': I.State)
    requires |s.slots| == |s'.slots| > 0 && Alike(s, s') && Order(s)
    ensures Order(s')
  {
    hide SlotOf, Lap, Before, Column;
    var n, f := |s.slots|, IT.Finished(s);
    forall a: nat | f <= a < f + n ensures TurnAt(s', a) { assert TurnAt(s, a); }
    forall i: nat | i < |s.popped| ensures PopAt(s', i) { assert PopAt(s, i); }
    forall a: nat, b: nat, v: nat |
      f <= a < b < f + n && !View(s', a).ready && View(s', b).ready
      && Settled(s', v) && SlotOf(v, n) == SlotOf(a, n)
      ensures v < View(s', b).owner + n
    {
      assert !View(s, a).ready && View(s, b).ready && Settled(s, v);
    }
    forall a: nat, b: nat | f <= a < b < f + n && View(s', a).ready && View(s', b).ready
      ensures View(s', a).owner < View(s', b).owner + 2 * n
    {
      assert View(s, a).ready && View(s, b).ready;
    }
  }

  lemma QuietAlike(s: I.State, a: I.Action)
    requires I.Shaped(s) && !a.Publish? && !a.Release?
    ensures Alike(s, I.Next(s, a))
  {
    hide SlotOf, I.Words;
  }

  // ---------------------------------------------------------------- publishing

  /** A push still in flight has the latest ticket of its slot. */
  lemma LatestOnSlot(s: I.State, t: nat, u: nat)
    requires I.Inv(s) && t in s.inflight && u in s.published && I.Here(s, u) == I.Here(s, t)
    ensures u < t
  {
    hide SlotOf;
    assert I.FlightOk(s, t);
    if t < u { SlotsApart(t, u, |s.slots|); }
  }

  lemma PublishColumns(s: I.State, t: nat, u: nat)
    requires I.Inv(s) && t in s.inflight && t !in s.published
    ensures var pub, n := s.published.Keys, |s.slots|;
            && (SlotOf(u, n) != SlotOf(t, n) ==> Column(pub + {t}, u, n) == Column(pub, u, n))
            && (SlotOf(u, n) == SlotOf(t, n) ==>
                  |Column(pub + {t}, u, n)| == |Column(pub, u, n)| + 1 && Before(pub + {t}, t, n) == Column(pub, u, n))
            && (u in pub ==> Before(pub + {t}, u, n) == Before(pub, u, n))
  {
    hide SlotOf;
    var pub, n := s.published.Keys, |s.slots|;
    forall v | v in pub && SlotOf(v, n) == SlotOf(t, n) ensures v < t { LatestOnSlot(s, t, v); }
    if SlotOf(u, n) == SlotOf(t, n) {
      assert Column(pub + {t}, u, n) == Column(pub, u, n) + {t};
    }
  }

  lemma PublishTurns(s: I.State, t: nat)
    requires I.Inv(s) && Turns(s) && I.PublishStep(s, t) != s
    ensures Turns(I.PublishStep(s, t))
  {
    hide SlotOf, Lap, Before, Column, I.Words;
    var s', n := I.PublishStep(s, t), |s.slots|;
    assert I.FlightOk(s, t);
    assert s'.published.Keys == s.published.Keys + {t};
    forall a: nat | IT.Finished(s) <= a < IT.Finished(s) + n ensures TurnAt(s', a) {
      assert TurnAt(s, a);
      PublishColumns(s, t, a);
      if View(s, a).ready {
        assert I.SlotOk(s, SlotOf(a, n));
        PublishColumns(s, t, View(s, a).owner);
      }
    }
    forall i: nat | i < |s.popped| ensures PopAt(s', i) {
      assert PopAt(s, i);
      PublishColumns(s, t, s.popped[i].ticket);
    }
  }

  lemma PublishNear(s: I.State, t: nat)
    requires I.Inv(s) && Near(s) && I.PublishStep(s, t) != s
    ensures Near(I.PublishStep(s, t))
  {
    hide SlotOf, I.Words;
    var s', n, f := I.PublishStep(s, t), |s.slots|, IT.Finished(s);
    assert I.FlightOk(s, t);
    PublishEmpties(s, t);
    forall a: nat, b: nat | f <= a < b < f + n && View(s', a).ready && View(s', b).ready
      ensures View(s', a).owner < View(s', b).owner + 2 * n
    {
      PublishPair(s, t, a, b);
    }
    forall k | 0 <= k < n && s.slots[k].ready ensures s.slots[k].owner < s.claimed { assert I.SlotOk(s, k); }
  }

  lemma PublishEmpties(s: I.State, t: nat)
    requires I.Inv(s) && Near(s) && I.PublishStep(s, t) != s
    ensures EmptyBeforeReady(I.PublishStep(s, t))
  {
    hide SlotOf, I.Words;
    var s', n, f := I.PublishStep(s, t), |s.slots|, IT.Finished(s);
    assert I.FlightOk(s, t);
    forall a: nat, b: nat, v: nat |
      f <= a < b < f + n && !View(s', a).ready && View(s', b).ready
      && Settled(s', v) && SlotOf(v, n) == SlotOf(a, n)
      ensures v < View(s', b).owner + n
    {
      assert !View(s, a).ready && v != t;
      if SlotOf(b, n) != SlotOf(t, n) { assert View(s, b).ready; }
    }
  }

  /** The ticket just published is less than two laps ahead of any ready slot behind it, and no
      ready slot in front of it is a lap ahead. */
  lemma PublishPair(s: I.State, t: nat, a: nat, b: nat)
    requires I.Inv(s) && Near(s) && I.PublishStep(s, t) != s
    requires IT.Finished(s) <= a < b < IT.Finished(s) + |s.slots|
    requires var s' := I.PublishStep(s, t); View(s', a).ready && View(s', b).ready
    ensures var s' := I.PublishStep(s, t); View(s', a).owner < View(s', b).owner + 2 * |s.slots|
  {
    hide SlotOf, I.Words;
    var n := |s.slots|;
    assert I.FlightOk(s, t);
    SlotsApart(a, b, n);
    if SlotOf(a, n) == SlotOf(t, n) {
      assert View(s, b).ready && !View(s, a).ready;
      if t >= n {
        I.LapBehindDone(s, t);
        assert Settled(s, t - n);
      }
    } else {
      assert View(s, a).ready && I.SlotOk(s, SlotOf(a, n));
      assert SlotOf(b, n) != SlotOf(t, n) ==> View(s, b).ready;
    }
  }

  // ---------------------------------------------------------------- popping

  /** After a release the slots of the reader's next lap are those it had, minus the one served. */
  lemma ReleaseView(s: I.State, a: nat)
    requires I.Inv(s) && I.ReleaseStep(s) != s && s.served < a <= s.served + |s.slots|
    ensures View(s, s.served).ready
    ensures var s' := I.ReleaseStep(s);
            && (a < s.served + |s.slots| ==> View(s', a) == View(s, a))
            && (a == s.served + |s.slots| ==> !View(s', a).ready)
  {
    hide SlotOf, I.Words;
    if a == s.served + |s.slots| {
      SlotNextLap(s.served, |s.slots|);
    } else {
      SlotsApart(s.served, a, |s.slots|);
    }
  }

  lemma ReleaseTurns(s: I.State)
    requires I.Inv(s) && Turns(s) && I.ReleaseStep(s) != s
    ensures Turns(I.ReleaseStep(s))
  {
    hide SlotOf, Lap, Before, Column, I.Words, I.Inv;
    var s', n, f := I.ReleaseStep(s), |s.slots|, s.served;
    assert TurnAt(s, f);
    ReleaseView(s, f + 1);
    forall a: nat | f < a <= f + n ensures TurnAt(s', a) {
      ReleaseView(s, a);
      if a == f + n {
        NextTurn(s.published.Keys, f, n);
      } else {
        assert TurnAt(s, a);
      }
    }
    forall i: nat | i < |s'.popped| ensures PopAt(s', i) {
      if i < f { assert PopAt(s, i); }
    }
  }

  lemma NextTurn(published: set<nat>, a: nat, n: nat)
    requires n > 0
    ensures Lap(a + n, n) == Lap(a, n) + 1 && Column(published, a + n, n) == Column(published, a, n)
  {
    SlotNextLap(a, n);
  }

  lemma ReleaseNear(s: I.State)
    requires I.Inv(s) && Near(s) && I.ReleaseStep(s) != s
    ensures Near(I.ReleaseStep(s))
  {
    hide SlotOf, I.Words, I.Inv;
    var s', n, f := I.ReleaseStep(s), |s.slots|, s.served;
    ReleaseView(s, f + 1);
    forall a: nat, b: nat, v: nat |
      f < a < b < f + 1 + n && !View(s', a).ready && View(s', b).ready
      && Settled(s', v) && SlotOf(v, n) == SlotOf(a, n)
      ensures v < View(s', b).owner + n
    {
      ReleaseView(s, a);
      ReleaseView(s, b);
      assert Settled(s, v);
    }
    forall a: nat, b: nat | f < a < b < f + 1 + n && View(s', a).ready && View(s', b).ready
      ensures View(s', a).owner < View(s', b).owner + 2 * n
    {
      ReleaseView(s, a);
      ReleaseView(s, b);
    }
    ReleasePopped(s);
  }

  lemma ReleasePopped(s: I.State)
    requires I.Inv(s) && Near(s) && I.ReleaseStep(s) != s
    ensures PoppedOrder(I.ReleaseStep(s))
  {
    hide SlotOf, I.Words, I.Inv;
    var s', n, f := I.ReleaseStep(s), |s.slots|, s.served;
    ReleaseView(s, f + 1);
    var e := View(s, f).owner;
    forall k | 0 <= k < n && s'.slots[k].ready ensures e < s'.slots[k].owner + 2 * n {
      var b := NextOnSlot(f, k, n);
      assert View(s, b) == s.slots[k];
    }
  }

  // ---------------------------------------------------------------- every run

  lemma NextOrder(s: I.State, a: I.Action)
    requires I.Inv(s) && Order(s)
    ensures Order(I.Next(s, a))
  {
    hide Turns, Near, I.Inv, I.PublishStep, I.ReleaseStep, I.ClaimStep, I.CheckStep, I.FillStep, I.BeginPopStep, I.CopyStep, I.AdvanceStep, Alike;
    InvShaped(s);
    if I.Next(s, a) != s {
      match a
      case Publish(t) =>
        PublishTurns(s, t);
        PublishNear(s, t);
      case Release =>
        ReleaseTurns(s);
        ReleaseNear(s);
      case _ =>
        QuietAlike(s, a);
        AlikeOrder(s, I.Next(s, a));
    }
  }

  lemma InvShaped(s: I.State)
    requires I.Inv(s)
    ensures I.Shaped(s)
  {
  }

  lemma InitOrder(n: nat)
    requires n > 0
    ensures Order(I.Init(n))
  {
    var s := I.Init(n);
    forall a: nat | a < n ensures TurnAt(s, a) {
      assert Column(s.published.Keys, a, n) == {};
      DivModUnique(a, n, 0, a);
    }
  }

  lemma {:induction false} LapRunOrder(n: nat, acts: seq<I.Action>)
    requires n > 0 && I.Obeys(n, acts, I.Lap)
    ensures Order(I.Exec(n, acts))
  {
    hide Order;
    if acts == [] {
      InitOrder(n);
    } else {
      var m := |acts| - 1;
      I.ObeysPrefix(n, acts, I.Lap, m);
      LapRunOrder(n, acts[..m]);
      I.LapRunInv(n, acts[..m]);
      NextOrder(I.Exec(n, acts[..m]), acts[m]);
    }
  }

  /** Whatever is dropped: pop number i takes from slot i mod n, and exactly i / n of the tickets
      published into that slot precede the one it returns. */
  lemma InterleavedKthPop(n: nat, acts: seq<I.Action>, i: nat)
    requires n > 0 && I.Obeys(n, acts, I.Lap) && i < |I.Exec(n, acts).popped|
    ensures var s := I.Exec(n, acts);
            var t := s.popped[i].ticket;
            t in s.published && t % n == i % n && |Before(s.published.Keys, t, n)| == i / n
  {
    hide Before;
    LapRunOrder(n, acts);
    IT.InterleavedConservation(n, acts);
    IT.NoMixture(n, acts, i);
    var s := I.Exec(n, acts);
    assert PopAt(s, i) && SlotOf(s.popped[i].ticket, n) == SlotOf(i, n);
  }

  /** Whatever is dropped: a record popped before one with an earlier ticket is less than two
      capacities ahead of it. */
  lemma InterleavedReordering(n: nat, acts: seq<I.Action>, i: nat, j: nat)
    requires n > 0 && I.Obeys(n, acts, I.Lap) && i < j < |I.Exec(n, acts).popped|
    ensures var p := I.Exec(n, acts).popped; p[i].ticket < p[j].ticket + 2 * n
  {
    LapRunOrder(n, acts);
  }

  /** A single slot hands records over in ticket order. */
  lemma OneSlotInOrder(acts: seq<I.Action>, i: nat, j: nat)
    requires I.Obeys(1, acts, I.Lap) && i < j < |I.Exec(1, acts).popped|
    ensures var p := I.Exec(1, acts).popped; p[i].ticket < p[j].ticket
  {
    InterleavedKthPop(1, acts, i);
    InterleavedKthPop(1, acts, j);
    var s := I.Exec(1, acts);
    var t, u := s.popped[i].ticket, s.popped[j].ticket;
    if u <= t { FewerBefore(s.published.Keys, u, t); }
  }

  lemma FewerBefore(published: set<nat>, u: nat, t: nat)
    requires u <= t
    ensures |Before(published, u, 1)| <= |Before(published, t, 1)|
  {
    var a, b := Before(published, u, 1), Before(published, t, 1);
    assert a <= b;
    assert b == a + (b - a);
  }
}
