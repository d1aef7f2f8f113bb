/** What overlapping pushes cost, for every capacity: records can mix. Records stay whole, and runs
    of accesses agree with runs of whole calls, exactly when pushes do not overlap. */
module RingRaces {
  import opened Bits
  import opened WireFormat
  import opened LogFormat
  import opened RingModel
  import opened RingTheorems
  import opened RingSerial
  import opened RingPlay
  import I = RingInterleaved

  lemma MorePushesAllowed(n: nat, acts: seq<I.Action>, p: nat, q: nat)
    requires n > 0 && p <= q && I.Obeys(n, acts, I.Flights(p))
    ensures I.Obeys(n, acts, I.Flights(q))
  {
    forall i | 0 <= i < |acts| ensures I.Allows(I.Flights(q), I.Exec(n, acts[..i]), acts[i]) {
      assert I.Allows(I.Flights(p), I.Exec(n, acts[..i]), acts[i]);
    }
  }

  // ---------------------------------------------------------------- records can mix

  /** Record a with the topic of b: what neither producer pushed. */
  function Mixed(a: Record, b: Record): Record { a.(topicId := b.topicId) }

  /** Ticket 0 stalls right after its check while tickets 1 to n - 1 are pushed one by one. */
  lemma OneLapLater(n: nat, a: Record, b: Record) returns (acts: seq<I.Action>)
    requires n > 0 && !Oversize(a) && !Oversize(b)
    ensures I.Obeys(n, acts, I.Flights(2)) && I.Obeys(n, acts, I.Lap)
    ensures var s := I.Exec(n, acts);
            && s.inflight == map[0 := I.Producer(a, I.Filling(0))] && s.claimed == n
            && s.served == 0 && s.consumer.Idle? && s.popped == [] && !s.slots[0].ready
            && forall t :: t in s.published ==> s.published[t] == b
  {
    hide *;
    acts := StallFirst(n, a);
    var s := I.Exec(n, acts);
    var r := Fillers(n, b);
    OneKey(I.Producer(a, I.Filling(0)));
    acts := PlayOps(n, acts, Init(n).(claimed := 1), Pushes(b, n - 1), 2);
    OnlyPushed(s, I.Exec(n, acts), b, n - 1);
    FirstFree(n, I.Exec(n, acts), r);
  }

  lemma OneKey(p: I.Producer)
    ensures |map[0 := p]| == 1
  {
  }

  /** The other tickets of the first lap leave the first slot free. */
  lemma Fillers(n: nat, b: Record) returns (r: Ring)
    requires n > 0 && !Oversize(b)
    ensures r == Run(Init(n).(claimed := 1), Pushes(b, n - 1)) && PushCount(Pushes(b, n - 1)) == n - 1
    ensures |r.slots| == n && At(r, n).None? && r.served == 0 && r.popped == []
  {
    PushesCount(b, n - 1);
    AllFree(n, n);
    Refilling(Init(n).(claimed := 1), b, n - 1, n);
    r := Run(Init(n).(claimed := 1), Pushes(b, n - 1));
  }

  /** Ticket n then passes its check on the slot ticket 0 is about to fill. */
  lemma Collision(n: nat, a: Record, b: Record) returns (acts: seq<I.Action>)
    requires n > 0 && !Oversize(a) && !Oversize(b)
    ensures I.Obeys(n, acts, I.Flights(2)) && I.Shaped(I.Exec(n, acts))
    ensures var s := I.Exec(n, acts);
            && s.inflight == map[0 := I.Producer(a, I.Filling(0)), n := I.Producer(b, I.Filling(0))]
            && s.served == 0 && s.consumer.Idle? && s.popped == [] && !s.slots[0].ready
            && forall t :: t in s.published ==> s.published[t] == b
  {
    hide I.Exec, I.Words, I.Obeys;
    acts := OneLapLater(n, a, b);
    var s := I.Exec(n, acts);
    I.LapRunInv(n, acts);
    assert |s.inflight| == 1;
    ClaimShape(s, b);
    DivModUnique(n, n, 1, 0);
    hide I.Inv;
    acts := Act(n, acts, I.Claim(b));
    acts := Act(n, acts, I.Check(n));
  }

  lemma AllFree(n: nat, t: nat)
    requires n > 0
    ensures At(Init(n).(claimed := 1), t).None?
  {
  }

  lemma StallFirst(n: nat, a: Record) returns (acts: seq<I.Action>)
    requires n > 0 && !Oversize(a)
    ensures I.Obeys(n, acts, I.Flights(2)) && I.Obeys(n, acts, I.Lap)
    ensures var s := I.Exec(n, acts);
            && s.inflight == map[0 := I.Producer(a, I.Filling(0))] && s.claimed == 1 && s.consumer.Idle?
            && s.published == map[] && Agrees(s, Init(n).(claimed := 1))
  {
    InitMatches(n);
    ExecNothing(n);
    hide I.Exec, I.Words;
    var s0 := I.Init(n);
    acts := Act(n, [], I.Claim(a));
    acts := Act(n, acts, I.Check(0));
    var s := I.Exec(n, acts);
    assert s == s0.(claimed := 1, inflight := map[0 := I.Producer(a, I.Filling(0))]);
    forall k: nat | k < n ensures SlotAgrees(s, Init(n).(claimed := 1), k) { assert SlotAgrees(s0, Init(n), k); }
  }

  lemma ExecNothing(n: nat)
    requires n > 0
    ensures I.Exec(n, []) == I.Init(n) && forall w :: I.Obeys(n, [], w)
  {
  }

  lemma {:induction false} OnlyPushed(s: I.State, s': I.State, b: Record, m: nat)
    requires Grown(s, s', Pushes(b, m)) && s.published == map[]
    ensures forall t :: t in s'.published ==> s'.published[t] == b
  {
    AllSame(b, m);
  }

  lemma {:induction false} AllSame(b: Record, m: nat)
    ensures forall op :: op in Pushes(b, m) ==> op == Push(b)
  {
    if m > 0 { AllSame(b, m - 1); }
  }

  lemma FirstFree(n: nat, s: I.State, r: Ring)
    requires n > 0 && Agrees(s, r) && |r.slots| == n && At(r, n).None? && s.consumer.Idle? && r.served == 0 && r.popped == []
    ensures SlotOf(n, n) == 0 && !s.slots[0].ready && s.served == 0 && s.popped == []
  {
    DivModUnique(n, n, 1, 0);
    assert SlotAgrees(s, r, 0);
  }

  /** Two pushes past their check on the first slot, i and j words stored. */
  function Racing(s: I.State, n: nat, a: Record, b: Record, i: nat, j: nat, c: seq<nat>): I.State
    requires |s.slots| > 0
  {
    s.(inflight := map[0 := I.Producer(a, I.Filling(i)), n := I.Producer(b, I.Filling(j))],
       slots := s.slots[0 := s.slots[0].(cells := c)])
  }

  /** Either racer's view of the same state. */
  lemma RacerViews(s: I.State, n: nat, a: Record, b: Record, i: nat, j: nat, c: seq<nat>)
    requires |s.slots| == n > 0
    ensures Storing(s.(inflight := map[n := I.Producer(b, I.Filling(j))]), 0, a, i, c) == Racing(s, n, a, b, i, j, c)
    ensures Storing(s.(inflight := map[0 := I.Producer(a, I.Filling(i))]), n, b, j, c) == Racing(s, n, a, b, i, j, c)
  {
    DivModUnique(n, n, 1, 0);
    DivModUnique(0, n, 0, 0);
    assert I.Here(s, n) == 0 && I.Here(s, 0) == 0;
    hide SlotOf;
    assert map[n := I.Producer(b, I.Filling(j))][0 := I.Producer(a, I.Filling(i))]
        == map[0 := I.Producer(a, I.Filling(i)), n := I.Producer(b, I.Filling(j))];
  }

  /** a stores its topic, b stores everything, a stores the rest. */
  lemma MixedStores(n: nat, acts: seq<I.Action>, s: I.State, a: Record, b: Record) returns (acts': seq<I.Action>, c: seq<nat>)
    requires |s.slots| == n > 0 && !Oversize(a) && !Oversize(b) && |s.slots[0].cells| == I.CELLS
    requires I.Exec(n, acts) == Racing(s, n, a, b, 0, 0, s.slots[0].cells)
    ensures Keeps(n, acts, acts') && |c| == I.CELLS
    ensures I.Exec(n, acts') == Racing(s, n, a, b, |I.Words(a)|, |I.Words(b)|, c)
    ensures c[..|I.Words(Mixed(a, b))|] == I.Words(Mixed(a, b))
  {
    var u, v, c0 := I.Words(a), I.Words(b), s.slots[0].cells;
    MixedWords(a, b);
    hide I.Exec, I.Words, Storing, Racing;
    var s0 := s.(inflight := map[n := I.Producer(b, I.Filling(0))]);
    RacerViews(s, n, a, b, 0, 0, c0);
    acts', c := PlayFills(n, acts, s0, 0, a, 0, 1, c0);
    RacerViews(s, n, a, b, 1, 0, c);
    var s1 := s.(inflight := map[0 := I.Producer(a, I.Filling(1))]);
    acts', c := PlayFills(n, acts', s1, n, b, 0, |v|, c);
    RacerViews(s, n, a, b, 1, |v|, c);
    var s2 := s.(inflight := map[n := I.Producer(b, I.Filling(|v|))]);
    acts', c := PlayFills(n, acts', s2, 0, a, 1, |u|, c);
    RacerViews(s, n, a, b, |u|, |v|, c);
  }

  lemma MixedWords(a: Record, b: Record)
    ensures I.Words(Mixed(a, b)) == I.Words(a)[0 := I.Words(b)[0]]
  {
  }

  /** Two pushes in flight are enough for a mixture: for every capacity and any two records there
      is a run that pops the stamp, number and payload of a with the topic of b, while everything
      published is b. */
  lemma MixtureHappens(n: nat, a: Record, b: Record) returns (acts: seq<I.Action>)
    requires n > 0 && !Oversize(a) && !Oversize(b)
    ensures I.Obeys(n, acts, I.Flights(2))
    ensures var s := I.Exec(n, acts);
            && s.popped == [I.Popped(n, I.Words(Mixed(a, b)))]
            && n in s.published && forall t :: t in s.published ==> s.published[t] == b
  {
    hide I.Exec, I.Words, I.Shaped;
    acts := Collision(n, a, b);
    var s := I.Exec(n, acts);
    ShapedFirst(s);
    assert Racing(s, n, a, b, 0, 0, s.slots[0].cells) == s;
    var c;
    acts, c := MixedStores(n, acts, s, a, b);
    var held := s.(inflight := map[0 := I.Producer(a, I.Filling(|I.Words(a)|))]);
    RacerViews(s, n, a, b, |I.Words(a)|, |I.Words(b)|, c);
    PublishStored(held, n, b, c);
    acts := Act(n, acts, I.Publish(n));
    acts := PopLanded(n, acts, Landed(held, n, b, c), c, Mixed(a, b));
    hide SlotOf;
    assert I.Exec(n, acts).published == s.published[n := b];
  }

  lemma ShapedFirst(s: I.State)
    requires I.Shaped(s)
    ensures |s.slots[0].cells| == I.CELLS && |s.out| == I.CELLS
  {
  }

  /** The consumer takes whatever words the first slot holds. */
  lemma PopLanded(n: nat, acts: seq<I.Action>, s: I.State, c: seq<nat>, rec: Record) returns (acts': seq<I.Action>)
    requires |s.slots| == n > 0 && I.Exec(n, acts) == s && s.consumer.Idle? && s.served == 0 && |s.out| == I.CELLS
    requires s.slots[0] == I.Slot(true, c, n) && |c| == I.CELLS && !Oversize(rec)
    requires c[..|I.Words(rec)|] == I.Words(rec)
    ensures Keeps(n, acts, acts')
    ensures I.Exec(n, acts').popped == s.popped + [I.Popped(n, I.Words(rec))]
    ensures I.Exec(n, acts').published == s.published
  {
    FirstTurn(s, c, rec);
    hide I.Exec, SlotOf, I.Words, I.Obeys, I.ReleaseStep;
    acts' := Act(n, acts, I.BeginPop);
    var out;
    acts', out := PlayCopies(n, acts', s.(consumer := I.Copying(0)), c);
    ReleaseFirst(s, c, out);
    acts' := Act(n, acts', I.Release);
  }

  lemma FirstTurn(s: I.State, c: seq<nat>, rec: Record)
    requires |s.slots| > 0 && |c| == I.CELLS && !Oversize(rec) && c[..|I.Words(rec)|] == I.Words(rec)
    ensures I.Here(s, 0) == 0 && 4 + c[3] == |I.Words(rec)|
  {
    DivModUnique(0, |s.slots|, 0, 0);
    var w := I.Words(rec);
    assert c[3] == c[..|w|][3] == w[3];
  }

  lemma ReleaseFirst(s: I.State, c: seq<nat>, out: seq<nat>)
    requires |s.slots| > 0 && I.Here(s, 0) == 0 && s.served == 0 && s.slots[0].cells == c
    requires |c| == |out| == I.CELLS && 4 + c[3] <= I.CELLS
    ensures var s' := I.ReleaseStep(s.(consumer := I.Copying(4 + c[3]), out := out));
            s'.popped == s.popped + [I.Popped(s.slots[0].owner, out[..4 + c[3]])] && s'.published == s.published
  {
    hide SlotOf;
  }

  /** Every popped record is the whole of some published push. */
  ghost predicate Whole(s: I.State) {
    forall i :: 0 <= i < |s.popped| ==> WholeWords(s, s.popped[i].words)
  }

  ghost predicate WholeWords(s: I.State, w: seq<nat>) {
    exists t :: t in s.published && I.Words(s.published[t]) == w
  }

  lemma MixtureNotWhole(n: nat) returns (acts: seq<I.Action>)
    requires n > 0
    ensures I.Obeys(n, acts, I.Flights(2)) && !Whole(I.Exec(n, acts))
  {
    hide I.Exec, I.Words, I.Obeys;
    var a, b := Record(1, 1, 0, []), Record(2, 2, 0, []);
    acts := MixtureHappens(n, a, b);
    var s := I.Exec(n, acts);
    if Whole(s) {
      assert WholeWords(s, s.popped[0].words);
      I.WordsInjective(Mixed(a, b), b);
    }
  }

  /** Every pop is one published record whole, in all runs with at most p pushes in flight,
      exactly when pushes do not overlap. */
  lemma MixtureExactly(n: nat, p: nat)
    requires n > 0
    ensures (forall acts :: I.Obeys(n, acts, I.Flights(p)) ==> Whole(I.Exec(n, acts))) <==> p <= 1
  {
    hide I.Exec, I.Obeys, Matches, Whole;
    if p <= 1 {
      forall acts | I.Obeys(n, acts, I.Flights(p)) ensures Whole(I.Exec(n, acts)) {
        MorePushesAllowed(n, acts, p, 1);
        SerialRunIsAtomic(n, acts);
        MatchedWhole(n, I.Exec(n, acts), Calls(n, acts));
      }
    } else {
      var acts := MixtureNotWhole(n);
      MorePushesAllowed(n, acts, 2, p);
    }
  }

  /** What agrees with a run of whole calls never mixes records. */
  lemma MatchedWhole(n: nat, s: I.State, ops: seq<Op>)
    requires n > 0 && Matches(s, Run(Init(n), ops))
    ensures Whole(s)
  {
    hide Run, I.Words, SlotAgrees;
    var r := Run(Init(n), ops);
    ContentsConserved(n, ops);
    forall i | 0 <= i < |s.popped| ensures WholeWords(s, s.popped[i].words) {
      var e := r.popped[i];
      assert e in multiset(r.popped);
      assert e in multiset(r.accepted);
      assert e in r.accepted;
    }
  }

  /** The state agrees with some run of whole calls. */
  ghost predicate LikeCalls(n: nat, s: I.State)
    requires n > 0
  {
    exists ops :: Matches(s, Run(Init(n), ops))
  }

  /** All runs with at most p pushes in flight behave like runs of whole calls exactly when pushes
      do not overlap; so every law of `RingModel` and `RingTheorems` holds of the concurrent ring
      then, and some fail otherwise. */
  lemma AtomicExactly(n: nat, p: nat)
    requires n > 0
    ensures (forall acts :: I.Obeys(n, acts, I.Flights(p)) ==> LikeCalls(n, I.Exec(n, acts))) <==> p <= 1
  {
    hide I.Exec, I.Obeys, Matches, Whole;
    if p <= 1 {
      forall acts | I.Obeys(n, acts, I.Flights(p)) ensures LikeCalls(n, I.Exec(n, acts)) {
        MorePushesAllowed(n, acts, p, 1);
        SerialRunIsAtomic(n, acts);
      }
    } else {
      var acts := MixtureNotWhole(n);
      MorePushesAllowed(n, acts, 2, p);
      if LikeCalls(n, I.Exec(n, acts)) {
        var ops :| Matches(I.Exec(n, acts), Run(Init(n), ops));
        MatchedWhole(n, I.Exec(n, acts), ops);
      }
    }
  }
}
