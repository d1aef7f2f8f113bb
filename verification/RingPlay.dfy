/** Building runs of the interleaved ring: one access at a time, one whole call at a time, and
    any run of whole calls while other pushes are held in flight. */
module RingPlay {
  import opened Bits
  import opened WireFormat
  import opened LogFormat
  import opened RingModel
  import opened RingTheorems
  import opened RingSerial
  import I = RingInterleaved
  import IT = RingInterleavedTheorems

  /** The longer run keeps every premise the shorter one keeps. */
  ghost predicate Keeps(n: nat, acts: seq<I.Action>, acts': seq<I.Action>)
    requires n > 0
  {
    forall w :: I.Obeys(n, acts, w) ==> I.Obeys(n, acts', w)
  }

  lemma Act(n: nat, acts: seq<I.Action>, a: I.Action) returns (acts': seq<I.Action>)
    requires n > 0
    ensures I.Exec(n, acts') == I.Next(I.Exec(n, acts), a)
    ensures forall w :: I.Obeys(n, acts, w) && I.Allows(w, I.Exec(n, acts), a) ==> I.Obeys(n, acts', w)
    ensures !a.Claim? ==> Keeps(n, acts, acts')
  {
    acts' := acts + [a];
    assert acts'[..|acts|] == acts;
    forall w | I.Obeys(n, acts, w) && I.Allows(w, I.Exec(n, acts), a) ensures I.Obeys(n, acts', w) {
      I.ObeysSnoc(n, acts', w);
    }
    assert !a.Claim? ==> forall w :: I.Allows(w, I.Exec(n, acts), a);
  }

  // ---------------------------------------------------------------- pushes

  /** Push t past its check with i words stored, the slot's cells being c. */
  function Storing(s: I.State, t: nat, rec: Record, i: nat, c: seq<nat>): I.State
    requires |s.slots| > 0
  {
    s.(inflight := s.inflight[t := I.Producer(rec, I.Filling(i))],
       slots := s.slots[I.Here(s, t) := s.slots[I.Here(s, t)].(cells := c)])
  }

  lemma FillOnce(s: I.State, t: nat, rec: Record, i: nat, c: seq<nat>)
    requires |s.slots| > 0 && i < |I.Words(rec)| && i < |c|
    ensures I.Next(Storing(s, t, rec, i, c), I.Fill(t)) == Storing(s, t, rec, i + 1, c[i := I.Words(rec)[i]])
  {
    hide SlotOf, I.Words;
    assert s.inflight[t := I.Producer(rec, I.Filling(i))][t := I.Producer(rec, I.Filling(i + 1))]
        == s.inflight[t := I.Producer(rec, I.Filling(i + 1))];
  }

  /** Stores the words from i up to `to`. */
  lemma PlayFills(n: nat, acts: seq<I.Action>, s: I.State, t: nat, rec: Record, from: nat, to: nat, c: seq<nat>)
    returns (acts': seq<I.Action>, c': seq<nat>)
    requires |s.slots| == n > 0 && from <= to <= |I.Words(rec)| <= |c|
    requires I.Exec(n, acts) == Storing(s, t, rec, from, c)
    ensures Keeps(n, acts, acts') && I.Exec(n, acts') == Storing(s, t, rec, to, c')
    ensures |c'| == |c|
    ensures forall k :: 0 <= k < |c| ==> c'[k] == if from <= k < to then I.Words(rec)[k] else c[k]
  {
    hide I.Exec, I.Next, Storing, I.Words;
    acts', c' := acts, c;
    var i := from;
    while i < to
      invariant from <= i <= to && |c'| == |c| && Keeps(n, acts, acts')
      invariant I.Exec(n, acts') == Storing(s, t, rec, i, c')
      invariant forall k :: 0 <= k < |c| ==> c'[k] == if from <= k < i then I.Words(rec)[k] else c[k]
    {
      FillOnce(s, t, rec, i, c');
      acts' := Act(n, acts', I.Fill(t));
      c' := c'[i := I.Words(rec)[i]];
      i := i + 1;
    }
  }

  /** What a push in flight leaves behind when it runs to its end: a drop, or its slot ready. */
  ghost predicate Pushed(s: I.State, s': I.State, t: nat, rec: Record)
    requires |s.slots| > 0
  {
    var k := I.Here(s, t);
    if s.slots[k].ready then s' == s.(dropped := s.dropped + 1, inflight := s.inflight - {t})
    else exists c :: |c| == |s.slots[k].cells| && s' == Landed(s, t, rec, c)
  }

  function Landed(s: I.State, t: nat, rec: Record, c: seq<nat>): I.State
    requires |s.slots| > 0
  {
    s.(inflight := s.inflight - {t}, published := s.published[t := rec],
       slots := s.slots[I.Here(s, t) := I.Slot(true, c, t)])
  }

  lemma FinishPush(n: nat, acts: seq<I.Action>, t: nat) returns (acts': seq<I.Action>)
    requires n > 0 && I.Shaped(I.Exec(n, acts))
    requires var s := I.Exec(n, acts);
             t in s.inflight && s.inflight[t].pc.Claimed? && !Oversize(s.inflight[t].rec)
    ensures Keeps(n, acts, acts')
    ensures Pushed(I.Exec(n, acts), I.Exec(n, acts'), t, I.Exec(n, acts).inflight[t].rec)
  {
    hide SlotOf, I.Words, I.Exec;
    var s := I.Exec(n, acts);
    var rec, k := s.inflight[t].rec, I.Here(s, t);
    acts' := Act(n, acts, I.Check(t));
    if !s.slots[k].ready {
      var w := |I.Words(rec)|;
      assert s.slots[k := s.slots[k].(cells := s.slots[k].cells)] == s.slots;
      var c;
      acts', c := PlayFills(n, acts', s, t, rec, 0, w, s.slots[k].cells);
      PublishStored(s, t, rec, c);
      acts' := Act(n, acts', I.Publish(t));
    }
  }

  lemma PublishStored(s: I.State, t: nat, rec: Record, c: seq<nat>)
    requires |s.slots| > 0
    ensures I.Next(Storing(s, t, rec, |I.Words(rec)|, c), I.Publish(t)) == Landed(s, t, rec, c)
  {
    hide SlotOf, I.Words;
    assert s.inflight[t := I.Producer(rec, I.Filling(|I.Words(rec)|))] - {t} == s.inflight - {t};
  }

  /** Whatever has been published since was pushed by ops. */
  ghost predicate Grown(s: I.State, s': I.State, ops: seq<Op>) {
    forall t :: t in s'.published ==>
      Push(s'.published[t]) in ops || (t in s.published && s'.published[t] == s.published[t])
  }

  /** One whole push, while others may be held in flight. */
  lemma PlayPush(n: nat, acts: seq<I.Action>, r: Ring, rec: Record) returns (acts': seq<I.Action>)
    requires n > 0 && !Oversize(rec) && I.Obeys(n, acts, I.Lap)
    requires var s := I.Exec(n, acts); Agrees(s, r) && s.claimed == r.claimed
    ensures forall w :: I.Obeys(n, acts, w) && I.Allows(w, I.Exec(n, acts), I.Claim(rec)) ==> I.Obeys(n, acts', w)
    ensures var s, s' := I.Exec(n, acts), I.Exec(n, acts');
            && Agrees(s', PushStep(r, rec).0) && s'.claimed == s.claimed + 1
            && s'.inflight == s.inflight && s'.consumer == s.consumer
            && Grown(s, s', [Push(rec)])
  {
    hide SlotOf, I.Words, I.Exec, Agrees, I.Allows;
    var s := I.Exec(n, acts);
    I.LapRunInv(n, acts);
    ClaimShape(s, rec);
    acts' := Act(n, acts, I.Claim(rec));
    acts' := FinishPush(n, acts', s.claimed);
    PushedAgrees(s, I.Exec(n, acts'), r, rec);
  }

  lemma ClaimShape(s: I.State, rec: Record)
    requires I.Inv(s) && !Oversize(rec)
    ensures var s' := I.ClaimStep(s, rec);
            && I.Shaped(s') && s.claimed in s'.inflight && s'.inflight[s.claimed] == I.Producer(rec, I.Claimed)
            && s'.inflight - {s.claimed} == s.inflight
  {
    IT.InvFacts(s, 0);
  }

  lemma PushedAgrees(s: I.State, s': I.State, r: Ring, rec: Record)
    requires I.Inv(s) && Agrees(s, r) && s.claimed == r.claimed && !Oversize(rec)
    requires Pushed(I.ClaimStep(s, rec), s', s.claimed, rec)
    ensures Agrees(s', PushStep(r, rec).0) && s'.claimed == s.claimed + 1
    ensures s'.inflight == s.inflight && s'.consumer == s.consumer
    ensures Grown(s, s', [Push(rec)])
  {
    ClaimShape(s, rec);
    hide SlotOf, I.Words;
    var r', k := PushStep(r, rec).0, I.Here(s, s.claimed);
    assert SlotAgrees(s, r, k);
    forall j: nat | j < |s.slots| ensures SlotAgrees(s', r', j) {
      assert SlotAgrees(s, r, j);
      assert I.SlotOk(s, j);
    }
  }

  // ---------------------------------------------------------------- pops

  /** One whole pop by an idle consumer. */
  lemma PlayPop(n: nat, acts: seq<I.Action>, r: Ring) returns (acts': seq<I.Action>)
    requires n > 0 && I.Obeys(n, acts, I.Lap)
    requires var s := I.Exec(n, acts); Agrees(s, r) && s.consumer.Idle?
    ensures Keeps(n, acts, acts')
    ensures var s, s' := I.Exec(n, acts), I.Exec(n, acts');
            && Agrees(s', PopStep(r).0) && s'.claimed == s.claimed
            && s'.inflight == s.inflight && s'.consumer.Idle? && s'.published == s.published
  {
    hide SlotOf, I.Words, I.Exec, Agrees, I.Inv;
    var s := I.Exec(n, acts);
    PopShape(s, r);
    acts' := acts;
    if s.slots[I.Here(s, s.served)].ready {
      acts' := Act(n, acts, I.BeginPop);
      CopyLength(n, acts');
      var out;
      acts', out := PlayCopies(n, acts', s.(consumer := I.Copying(0)), s.slots[I.Here(s, s.served)].cells);
      var b := I.Exec(n, acts');
      I.LapRunInv(n, acts');
      acts' := Act(n, acts', I.Release);
      acts' := Act(n, acts', I.Advance);
      PoppedAgrees(s, b, r);
    }
  }

  lemma PopShape(s: I.State, r: Ring)
    requires Agrees(s, r) && s.consumer.Idle?
    ensures !s.slots[I.Here(s, s.served)].ready ==> PopStep(r).0 == r
  {
    assert SlotAgrees(s, r, I.Here(s, s.served));
  }

  /** Copies all words the length asks for. */
  lemma PlayCopies(n: nat, acts: seq<I.Action>, s: I.State, cells: seq<nat>) returns (acts': seq<I.Action>, out: seq<nat>)
    requires n > 0 && I.Exec(n, acts) == s && s.consumer == I.Copying(0) && |s.slots| == n && |s.out| == I.CELLS
    requires cells == s.slots[I.Here(s, s.served)].cells && |cells| == I.CELLS && 4 + cells[3] <= I.CELLS
    ensures Keeps(n, acts, acts') && |out| == I.CELLS && out[..4 + cells[3]] == cells[..4 + cells[3]]
    ensures I.Exec(n, acts') == s.(consumer := I.Copying(4 + cells[3]), out := out)
  {
    hide SlotOf, I.Exec, I.Words;
    acts', out := acts, s.out;
    var i: nat, len := 0, 4 + cells[3];
    while i < len
      invariant i <= len && |out| == I.CELLS && Keeps(n, acts, acts')
      invariant I.Exec(n, acts') == s.(consumer := I.Copying(i), out := out)
      invariant forall k :: 0 <= k < i ==> out[k] == cells[k]
    {
      acts' := Act(n, acts', I.Copy);
      out := out[i := cells[i]];
      i := i + 1;
    }
  }

  lemma CopyLength(n: nat, acts: seq<I.Action>)
    requires n > 0 && I.Obeys(n, acts, I.Lap) && I.Exec(n, acts).consumer.Copying?
    ensures var s := I.Exec(n, acts);
            I.Shaped(s) && 4 + s.slots[I.Here(s, s.served)].cells[3] <= I.CELLS
  {
    I.LapRunInv(n, acts);
    var s := I.Exec(n, acts);
    var k := I.Here(s, s.served);
    assert I.SlotOk(s, k);
    var slot := s.slots[k];
    var w := I.Words(s.published[slot.owner]);
    assert slot.cells[3] == slot.cells[..|w|][3] == w[3];
  }

  lemma PoppedAgrees(s: I.State, b: I.State, r: Ring)
    requires Agrees(s, r) && s.consumer.Idle? && I.Inv(b) && |b.out| == I.CELLS
    requires |s.slots[I.Here(s, s.served)].cells| == I.CELLS && s.slots[I.Here(s, s.served)].ready
    requires 4 + s.slots[I.Here(s, s.served)].cells[3] <= I.CELLS
    requires b == s.(consumer := I.Copying(4 + s.slots[I.Here(s, s.served)].cells[3]), out := b.out)
    ensures var s' := I.Next(I.Next(b, I.Release), I.Advance);
            && Agrees(s', PopStep(r).0) && s'.claimed == s.claimed
            && s'.inflight == s.inflight && s'.consumer.Idle? && s'.published == s.published
  {
    var c, r', k := I.ReleaseStep(b), PopStep(r).0, I.Here(s, s.served);
    assert c.consumer.Released?;
    I.ReleasedWords(b);
    hide SlotOf, I.Words, I.Inv;
    assert SlotAgrees(s, r, k);
    forall j: nat | j < |s.slots| ensures SlotAgrees(I.AdvanceStep(c), r', j) { assert SlotAgrees(s, r, j); }
  }

  // ---------------------------------------------------------------- runs of calls

  /** Plays any sequence of whole calls from a state that agrees with r, with the pushes in
      flight left as they are, as long as no claim comes a lap after one of them. */
  lemma {:induction false} PlayOps(n: nat, acts: seq<I.Action>, r: Ring, ops: seq<Op>, p: nat) returns (acts': seq<I.Action>)
    requires n > 0 && I.Obeys(n, acts, I.Lap) && I.Obeys(n, acts, I.Flights(p))
    requires var s := I.Exec(n, acts);
             && Agrees(s, r) && s.claimed == r.claimed && s.consumer.Idle? && |s.inflight| < p
             && forall t: nat :: t in s.inflight ==> s.claimed + PushCount(ops) <= t + n
    ensures I.Obeys(n, acts', I.Lap) && I.Obeys(n, acts', I.Flights(p))
    ensures var s, s', r' := I.Exec(n, acts), I.Exec(n, acts'), Run(r, ops);
            && Agrees(s', r') && s'.claimed == r'.claimed == s.claimed + PushCount(ops)
            && s'.consumer.Idle? && s'.inflight == s.inflight && Grown(s, s', ops)
  {
    assert Shaped(r);
    hide Agrees, I.Exec, Step;
    acts' := acts;
    if ops != [] {
      var m := |ops| - 1;
      acts' := PlayOps(n, acts, r, ops[..m], p);
      acts' := PlayOp(n, acts', Run(r, ops[..m]), ops[m], p);
    }
  }

  lemma PlayOp(n: nat, acts: seq<I.Action>, r: Ring, op: Op, p: nat) returns (acts': seq<I.Action>)
    requires n > 0 && I.Obeys(n, acts, I.Lap) && I.Obeys(n, acts, I.Flights(p))
    requires var s := I.Exec(n, acts);
             && Agrees(s, r) && s.claimed == r.claimed && s.consumer.Idle? && |s.inflight| < p
             && (op.Push? && !Oversize(op.rec) ==> forall t: nat :: t in s.inflight ==> s.claimed + 1 <= t + n)
    ensures I.Obeys(n, acts', I.Lap) && I.Obeys(n, acts', I.Flights(p))
    ensures var s, s', r' := I.Exec(n, acts), I.Exec(n, acts'), Step(r, op).0;
            && Agrees(s', r') && s'.consumer.Idle? && s'.inflight == s.inflight && Grown(s, s', [op])
            && s'.claimed == r'.claimed == s.claimed + (if op.Push? && !Oversize(op.rec) then 1 else 0)
  {
    hide Agrees, I.Exec;
    acts' := acts;
    match op
    case Push(rec) =>
      if !Oversize(rec) { acts' := PlayPush(n, acts, r, rec); }
    case Pop =>
      acts' := PlayPop(n, acts, r);
  }

  /** Every run of whole calls is a run of accesses with one push in flight at a time. */
  lemma AtomicRunIsSerial(n: nat, ops: seq<Op>) returns (acts: seq<I.Action>)
    requires n > 0
    ensures I.Obeys(n, acts, I.Flights(1)) && I.Exec(n, acts).inflight == map[] && I.Exec(n, acts).consumer.Idle?
    ensures Agrees(I.Exec(n, acts), Run(Init(n), ops))
  {
    InitMatches(n);
    acts := PlayOps(n, [], Init(n), ops, 1);
  }
}
