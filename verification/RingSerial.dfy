/** A run of memory accesses in which pushes never overlap, however the consumer's accesses fall
    between theirs, is a run of whole calls. `RingPlay` has the converse. */
module RingSerial {
  import opened Bits
  import opened WireFormat
  import opened LogFormat
  import opened RingModel
  import opened RingTheorems
  import I = RingInterleaved
  import IT = RingInterleavedTheorems

  // ---------------------------------------------------------------- the relation

  ghost predicate SlotAgrees(s: I.State, r: Ring, k: nat)
    requires k < |s.slots| == |r.slots|
  {
    var slot := s.slots[k];
    && slot.ready == r.slots[k].Some?
    && (slot.ready ==> slot.owner in s.published && r.slots[k].value == Entry(slot.owner, s.published[slot.owner]))
  }

  /** Same waiting records, reader position, drops and pops. */
  ghost predicate Agrees(s: I.State, r: Ring) {
    && |s.slots| == |r.slots| > 0
    && (forall k: nat :: k < |s.slots| ==> SlotAgrees(s, r, k))
    && s.dropped == r.dropped && IT.Finished(s) == r.served
    && |s.popped| == |r.popped|
    && (forall i: nat :: i < |s.popped| ==> s.popped[i] == I.Popped(r.popped[i].ticket, I.Words(r.popped[i].rec)))
  }

  /** Agreement in everything a caller can see: pushes in flight have not taken effect yet, and
      what has been published is what was accepted. */
  ghost predicate Matches(s: I.State, r: Ring) {
    && Agrees(s, r)
    && r.claimed + |s.inflight| == s.claimed
    && (forall e: Entry :: e in r.accepted <==> e.ticket in s.published && s.published[e.ticket] == e.rec)
  }

  // ---------------------------------------------------------------- serial pushes are whole calls

  /** At most one push is in flight, and it holds the last ticket. */
  ghost predicate Serial(s: I.State) {
    |s.inflight| <= 1 && forall t: nat :: t in s.inflight ==> t + 1 == s.claimed
  }

  lemma NoneInFlight<V>(m: map<nat, V>)
    requires |m| == 0
    ensures m == map[]
  {
    assert |m.Keys| == |m|;
  }

  lemma OnlyOne<V>(m: map<nat, V>, t: nat)
    requires |m| <= 1 && t in m
    ensures |m| == 1 && m - {t} == map[]
  {
    IT.MapRemove(m, t);
    NoneInFlight(m - {t});
  }

  lemma SerialLap(s: I.State, a: I.Action)
    requires I.Allows(I.Flights(1), s, a)
    ensures I.Allows(I.Lap, s, a)
  {
    if |s.inflight| == 0 { NoneInFlight(s.inflight); }
  }

  lemma SerialClaim(s: I.State, rec: Record)
    requires Serial(s) && I.Allows(I.Flights(1), s, I.Claim(rec))
    ensures Serial(I.ClaimStep(s, rec))
  {
    if !Oversize(rec) {
      NoneInFlight(s.inflight);
      IT.MapAdd(s.inflight, s.claimed, I.Producer(rec, I.Claimed));
    }
  }

  /** No other step adds to the pushes in flight. */
  lemma FlightsShrink(s: I.State, a: I.Action)
    requires |s.slots| > 0 && !a.Claim?
    ensures var s' := I.Next(s, a);
            s'.claimed == s.claimed && s'.inflight.Keys <= s.inflight.Keys && |s'.inflight| <= |s.inflight|
  {
    hide SlotOf, I.Words;
    var s' := I.Next(s, a);
    assert s'.inflight.Keys <= s.inflight.Keys;
    SubsetSmaller(s'.inflight.Keys, s.inflight.Keys);
    assert |s.inflight.Keys| == |s.inflight| && |s'.inflight.Keys| == |s'.inflight|;
  }

  lemma SerialNext(s: I.State, a: I.Action)
    requires |s.slots| > 0 && Serial(s) && I.Allows(I.Flights(1), s, a)
    ensures Serial(I.Next(s, a))
  {
    if a.Claim? {
      SerialClaim(s, a.rec);
    } else {
      FlightsShrink(s, a);
      hide I.Next;
    }
  }

  /** The moments at which a call takes effect: a dropped push at its check, an accepted one when
      it publishes, a pop when it releases the slot. */
  function Effect(s: I.State, a: I.Action): seq<Op>
    requires |s.slots| > 0
  {
    match a
    case Check(t) => if I.CheckStep(s, t).dropped > s.dropped && t in s.inflight then [Push(s.inflight[t].rec)] else []
    case Publish(t) => if t in s.inflight && t !in I.PublishStep(s, t).inflight then [Push(s.inflight[t].rec)] else []
    case Release => if I.ReleaseStep(s) != s then [Pop] else []
    case _ => []
  }

  lemma DropMatches(s: I.State, r: Ring, t: nat)
    requires I.Inv(s) && Serial(s) && Matches(s, r) && Effect(s, I.Check(t)) != []
    ensures Matches(I.CheckStep(s, t), PushStep(r, s.inflight[t].rec).0)
  {
    hide SlotOf, I.Words;
    var s', r' := I.CheckStep(s, t), PushStep(r, s.inflight[t].rec).0;
    OnlyOne(s.inflight, t);
    assert I.FlightOk(s, t) && SlotAgrees(s, r, I.Here(s, t));
    forall k: nat | k < |s.slots| ensures SlotAgrees(s', r', k) { assert SlotAgrees(s, r, k); }
  }

  lemma PublishMatches(s: I.State, r: Ring, t: nat)
    requires I.Inv(s) && Serial(s) && Matches(s, r) && Effect(s, I.Publish(t)) != []
    ensures Matches(I.PublishStep(s, t), PushStep(r, s.inflight[t].rec).0)
  {
    hide SlotOf, I.Words;
    var rec := s.inflight[t].rec;
    var s', r' := I.PublishStep(s, t), PushStep(r, rec).0;
    OnlyOne(s.inflight, t);
    assert I.FlightOk(s, t) && SlotAgrees(s, r, I.Here(s, t));
    assert r'.accepted == r.accepted + [Entry(t, rec)];
    forall e: Entry ensures e in r'.accepted <==> e.ticket in s'.published && s'.published[e.ticket] == e.rec {
      assert e in r.accepted <==> e.ticket in s.published && s.published[e.ticket] == e.rec;
      assert e in r'.accepted <==> e in r.accepted || e == Entry(t, rec);
    }
    forall k: nat | k < |s.slots| ensures SlotAgrees(s', r', k) {
      assert SlotAgrees(s, r, k);
    }
  }

  lemma ReleaseMatches(s: I.State, r: Ring)
    requires I.Inv(s) && Matches(s, r) && I.ReleaseStep(s) != s
    ensures Matches(I.ReleaseStep(s), PopStep(r).0)
  {
    I.ReleasedWords(s);
    hide SlotOf, I.Words;
    var s', r' := I.ReleaseStep(s), PopStep(r).0;
    assert I.ConsumerOk(s) && SlotAgrees(s, r, I.Here(s, s.served));
    forall k: nat | k < |s.slots| ensures SlotAgrees(s', r', k) { assert SlotAgrees(s, r, k); }
  }

  lemma QuietFlights(s: I.State, a: I.Action)
    requires I.Inv(s) && Effect(s, a) == []
    ensures var s' := I.Next(s, a); s'.claimed + |s.inflight| == s.claimed + |s'.inflight|
  {
    IT.InvFacts(s, 0);
    hide SlotOf, I.Words, I.Inv;
    match a
    case Claim(rec) => if !Oversize(rec) { IT.MapAdd(s.inflight, s.claimed, I.Producer(rec, I.Claimed)); }
    case Check(t) => if t in s.inflight { IT.MapKeep(s.inflight, t, s.inflight[t].(pc := I.Filling(0))); }
    case Fill(t) => if t in s.inflight { IT.MapKeep(s.inflight, t, I.FillStep(s, t).inflight[t]); }
    case _ =>
  }

  lemma QuietAgrees(s: I.State, r: Ring, a: I.Action)
    requires |s.slots| > 0 && Agrees(s, r) && Effect(s, a) == []
    ensures Agrees(I.Next(s, a), r) && I.Next(s, a).published == s.published
  {
    hide SlotOf, I.Words;
    var s' := I.Next(s, a);
    forall k: nat | k < |s.slots| ensures SlotAgrees(s', r, k) { assert SlotAgrees(s, r, k); }
  }

  lemma QuietMatches(s: I.State, r: Ring, a: I.Action)
    requires I.Inv(s) && Matches(s, r) && Effect(s, a) == []
    ensures Matches(I.Next(s, a), r)
  {
    QuietFlights(s, a);
    QuietAgrees(s, r, a);
    hide Agrees, I.Next, Effect, I.Inv;
  }

  lemma NextMatches(s: I.State, r: Ring, a: I.Action)
    requires I.Inv(s) && Serial(s) && Matches(s, r)
    ensures Effect(s, a) == [] ==> Matches(I.Next(s, a), r)
    ensures Effect(s, a) != [] ==> |Effect(s, a)| == 1 && Matches(I.Next(s, a), Step(r, Effect(s, a)[0]).0)
  {
    assert |s.slots| > 0;
    hide I.Inv, Serial, Matches, I.ClaimStep, I.FillStep, I.PublishStep, I.BeginPopStep, I.CopyStep, I.ReleaseStep, I.AdvanceStep, I.CheckStep;
    if Effect(s, a) == [] {
      QuietMatches(s, r, a);
    } else {
      match a
      case Check(t) => DropMatches(s, r, t);
      case Publish(t) => PublishMatches(s, r, t);
      case Release => ReleaseMatches(s, r);
    }
  }

  /** The whole calls a run of accesses amounts to, in the order they take effect. */
  function Calls(n: nat, acts: seq<I.Action>): seq<Op>
    requires n > 0
  {
    if acts == [] then []
    else
      var m := |acts| - 1;
      Calls(n, acts[..m]) + Effect(I.Exec(n, acts[..m]), acts[m])
  }

  lemma InitMatches(n: nat)
    requires n > 0
    ensures Matches(I.Init(n), Init(n))
  {
    var s, r := I.Init(n), Init(n);
    forall k: nat | k < n ensures SlotAgrees(s, r, k) {
    }
  }

  /** When at most one push is in flight at a time, every run of accesses agrees with the run of
      whole calls it amounts to. */
  lemma {:induction false} SerialRunIsAtomic(n: nat, acts: seq<I.Action>)
    requires n > 0 && I.Obeys(n, acts, I.Flights(1))
    ensures I.Obeys(n, acts, I.Lap) && Serial(I.Exec(n, acts))
    ensures Matches(I.Exec(n, acts), Run(Init(n), Calls(n, acts)))
  {
    hide Matches, Serial, I.Allows, Effect, Step;
    if acts == [] {
      InitMatches(n);
      InitSerial(n);
    } else {
      var m := |acts| - 1;
      I.ObeysPrefix(n, acts, I.Flights(1), m);
      SerialRunIsAtomic(n, acts[..m]);
      var s, calls := I.Exec(n, acts[..m]), Calls(n, acts[..m]);
      SerialLap(s, acts[m]);
      I.ObeysSnoc(n, acts, I.Lap);
      I.LapRunInv(n, acts[..m]);
      SerialNext(s, acts[m]);
      NextMatches(s, Run(Init(n), calls), acts[m]);
      var e := Effect(s, acts[m]);
      if e == [] {
        assert calls + e == calls;
      } else {
        assert e == [e[0]];
        RunSnoc(Init(n), calls, e[0]);
      }
    }
  }

  /** So with one push in flight at a time a failing pop after a multiple-of-capacity number of
      drops means that nothing waits, and no record is overtaken by a lap or more. */
  lemma SerialLaws(n: nat, acts: seq<I.Action>)
    requires n > 0 && I.Obeys(n, acts, I.Flights(1))
    ensures var s := I.Exec(n, acts); IT.Starved(s) && s.dropped % n == 0 ==> IT.ReadySlots(s) == {}
    ensures var p := I.Exec(n, acts).popped; forall i, j :: 0 <= i < j < |p| ==> p[i].ticket < p[j].ticket + n
  {
    hide I.Exec, I.Obeys, Run, I.Words, Ready;
    SerialRunIsAtomic(n, acts);
    var s, ops := I.Exec(n, acts), Calls(n, acts);
    var r := Run(Init(n), ops);
    if IT.Starved(s) && s.dropped % n == 0 {
      assert SlotAgrees(s, r, I.Here(s, s.served));
      EmptyAtMultiples(n, ops);
      forall k: nat | k < n ensures !s.slots[k].ready { NoneReady(r, k); assert SlotAgrees(s, r, k); }
    }
    forall i: nat, j: nat | i < j < |s.popped| ensures s.popped[i].ticket < s.popped[j].ticket + n {
      BoundedReordering(n, ops, i, j);
    }
  }

  lemma NoneReady(r: Ring, k: nat)
    requires Ready(r) == {} && k < |r.slots|
    ensures r.slots[k].None?
  {
    assert k !in Ready(r);
  }

  lemma InitSerial(n: nat)
    requires n > 0
    ensures Serial(I.Init(n))
  {
  }
}
