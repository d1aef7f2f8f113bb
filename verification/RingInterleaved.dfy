/** The ring with every access to shared memory as its own step. A producer claims a ticket,
    checks the ready flag, stores the record field by field and byte by byte, then publishes;
    the consumer checks, copies word by word, releases and advances. Any number of pushes may
    be in flight. Each load or store of a ready flag is one atomic step. */
module RingInterleaved {
  import opened Bits
  import opened WireFormat
  import opened LogFormat
  import opened RingModel

  // Four scalar fields (topic id, stamp, sequence number, length) and the payload area.
  const CELLS: nat := 68

  /** `owner` is the ticket that published last; it is not part of the implementation. */
  datatype Slot = Slot(ready: bool, cells: seq<nat>, owner: nat)

  datatype Progress = Claimed | Filling(done: nat)

  datatype Producer = Producer(rec: Record, pc: Progress)

  datatype Consumer = Idle | Copying(done: nat) | Released

  datatype Popped = Popped(ticket: nat, words: seq<nat>)

  datatype State = State(
    slots: seq<Slot>,
    claimed: nat,
    served: nat,
    dropped: nat,
    inflight: map<nat, Producer>,
    consumer: Consumer,
    out: seq<nat>,
    published: map<nat, Record>,
    popped: seq<Popped>)

  datatype Action =
    | Claim(rec: Record)
    | Check(t: nat)
    | Fill(t: nat)
    | Publish(t: nat)
    | BeginPop
    | Copy
    | Release
    | Advance

  /** A record as the words a producer stores, in store order. */
  function Words(rec: Record): (w: seq<nat>)
    ensures |w| == 4 + |rec.payload| && w[3] == |rec.payload|
  {
    [rec.topicId, rec.stamp, rec.seqNo, |rec.payload|] + Bytes(rec.payload)
  }

  function Bytes(p: seq<byte>): (w: seq<nat>)
    ensures |w| == |p| && forall i :: 0 <= i < |p| ==> w[i] == p[i]
  {
    seq(|p|, i requires 0 <= i < |p| => p[i])
  }

  lemma WordsInjective(a: Record, b: Record)
    requires Words(a) == Words(b)
    ensures a == b
  {
    var u, v := Words(a), Words(b);
    assert u[0] == v[0] && u[1] == v[1] && u[2] == v[2] && u[3] == v[3];
    forall i | 0 <= i < |a.payload| ensures a.payload[i] == b.payload[i] {
      assert u[4 + i] == a.payload[i] && v[4 + i] == b.payload[i];
    }
    assert a.payload == b.payload;
  }

  ghost predicate Shaped(s: State) {
    && |s.slots| > 0 && |s.out| == CELLS
    && forall k :: 0 <= k < |s.slots| ==> |s.slots[k].cells| == CELLS
  }

  function Init(n: nat): (s: State)
    requires n > 0
  {
    var zero := seq(CELLS, i => 0);
    State(seq(n, i => Slot(false, zero, 0)), 0, 0, 0, map[], Idle, zero, map[], [])
  }

  function Here(s: State, t: nat): nat
    requires |s.slots| > 0
  {
    SlotOf(t, |s.slots|)
  }

  // ---------------------------------------------------------------- steps

  function ClaimStep(s: State, rec: Record): State {
    if Oversize(rec) then s
    else s.(claimed := s.claimed + 1, inflight := s.inflight[s.claimed := Producer(rec, Claimed)])
  }

  function CheckStep(s: State, t: nat): State
    requires |s.slots| > 0
  {
    if t !in s.inflight || !s.inflight[t].pc.Claimed? then s
    else if s.slots[Here(s, t)].ready then
      s.(dropped := s.dropped + 1, inflight := s.inflight - {t})
    else
      s.(inflight := s.inflight[t := s.inflight[t].(pc := Filling(0))])
  }

  function FillStep(s: State, t: nat): State
    requires |s.slots| > 0
  {
    if t !in s.inflight || !s.inflight[t].pc.Filling? then s
    else
      var p, k := s.inflight[t], Here(s, t);
      var slot, i := s.slots[k], p.pc.done;
      if i >= |Words(p.rec)| || i >= |slot.cells| then s
      else
        s.(slots := s.slots[k := slot.(cells := slot.cells[i := Words(p.rec)[i]])],
           inflight := s.inflight[t := p.(pc := Filling(i + 1))])
  }

  function PublishStep(s: State, t: nat): State
    requires |s.slots| > 0
  {
    if t !in s.inflight || s.inflight[t].pc != Filling(|Words(s.inflight[t].rec)|) then s
    else
      var k := Here(s, t);
      s.(slots := s.slots[k := s.slots[k].(ready := true, owner := t)],
         inflight := s.inflight - {t},
         published := s.published[t := s.inflight[t].rec])
  }

  function BeginPopStep(s: State): State
    requires |s.slots| > 0
  {
    if s.consumer.Idle? && s.slots[Here(s, s.served)].ready then s.(consumer := Copying(0)) else s
  }

  /** The length word decides how many payload bytes are copied. */
  function CopyStep(s: State): State
    requires |s.slots| > 0
  {
    if !s.consumer.Copying? then s
    else
      var cells, i := s.slots[Here(s, s.served)].cells, s.consumer.done;
      if i >= |cells| || i >= |s.out| || (i >= 4 && i >= 4 + cells[3]) then s
      else s.(out := s.out[i := cells[i]], consumer := Copying(i + 1))
  }

  function ReleaseStep(s: State): State
    requires |s.slots| > 0
  {
    if !s.consumer.Copying? then s
    else
      var k := Here(s, s.served);
      var slot := s.slots[k];
      if |slot.cells| < 4 || s.consumer.done != 4 + slot.cells[3] || s.consumer.done > |s.out| then s
      else
        s.(slots := s.slots[k := slot.(ready := false)],
           consumer := Released,
           popped := s.popped + [Popped(slot.owner, s.out[..s.consumer.done])])
  }

  function AdvanceStep(s: State): State {
    if s.consumer.Released? then s.(consumer := Idle, served := s.served + 1) else s
  }

  /** An action whose guard is false leaves the state alone. */
  function Next(s: State, a: Action): (s': State)
    requires |s.slots| > 0
    ensures |s'.slots| == |s.slots|
  {
    match a
    case Claim(rec) => ClaimStep(s, rec)
    case Check(t) => CheckStep(s, t)
    case Fill(t) => FillStep(s, t)
    case Publish(t) => PublishStep(s, t)
    case BeginPop => BeginPopStep(s)
    case Copy => CopyStep(s)
    case Release => ReleaseStep(s)
    case Advance => AdvanceStep(s)
  }

  function Exec(n: nat, acts: seq<Action>): (s: State)
    requires n > 0
    ensures |s.slots| == n
  {
    if acts == [] then Init(n) else Next(Exec(n, acts[..|acts| - 1]), acts[|acts| - 1])
  }

  // ---------------------------------------------------------------- premises on claiming

  /** When a producer may take its ticket. Lap: not while the push one capacity earlier is
      unfinished. Reader: only less than one capacity ahead of the reader. Flights: only while
      fewer than `most` pushes are in flight. */
  datatype Premise = Lap | Reader | Flights(most: nat)

  ghost predicate Allows(w: Premise, s: State, a: Action) {
    a.Claim? && !Oversize(a.rec) ==>
      match w
      case Lap => s.claimed >= |s.slots| ==> s.claimed - |s.slots| !in s.inflight
      case Reader => s.claimed < s.served + |s.slots|
      case Flights(most) => |s.inflight| < most
  }

  /** Every claim of the run was made when the premise allows it. */
  ghost predicate Obeys(n: nat, acts: seq<Action>, w: Premise)
    requires n > 0
  {
    forall i :: 0 <= i < |acts| ==> Allows(w, Exec(n, acts[..i]), acts[i])
  }

  lemma ObeysPrefix(n: nat, acts: seq<Action>, w: Premise, m: nat)
    requires n > 0 && m <= |acts| && Obeys(n, acts, w)
    ensures Obeys(n, acts[..m], w)
  {
    forall i | 0 <= i < m ensures Allows(w, Exec(n, acts[..m][..i]), acts[..m][i]) {
      assert acts[..m][..i] == acts[..i];
      assert Allows(w, Exec(n, acts[..i]), acts[i]);
    }
  }

  lemma ObeysSnoc(n: nat, acts: seq<Action>, w: Premise)
    requires n > 0 && acts != []
    requires var m := |acts| - 1; Obeys(n, acts[..m], w) && Allows(w, Exec(n, acts[..m]), acts[m])
    ensures Obeys(n, acts, w)
  {
    hide Exec, Allows;
    var m := |acts| - 1;
    forall i | 0 <= i < |acts| ensures Allows(w, Exec(n, acts[..i]), acts[i]) {
      if i < m {
        assert acts[..m][..i] == acts[..i];
        assert Allows(w, Exec(n, acts[..m][..i]), acts[..m][i]);
      }
    }
  }

  // ---------------------------------------------------------------- invariant

  ghost predicate FlightOk(s: State, t: nat)
    requires Shaped(s) && t in s.inflight
  {
    var p, slot := s.inflight[t], s.slots[Here(s, t)];
    && !Oversize(p.rec) && t < s.claimed <= t + |s.slots| && t !in s.published
    && (p.pc.Filling? ==>
          && p.pc.done <= |Words(p.rec)| && !slot.ready
          && slot.cells[..p.pc.done] == Words(p.rec)[..p.pc.done])
  }

  ghost predicate SlotOk(s: State, k: nat)
    requires Shaped(s) && k < |s.slots|
  {
    var slot := s.slots[k];
    slot.ready ==>
      && slot.owner in s.published && SlotOf(slot.owner, |s.slots|) == k
      && !Oversize(s.published[slot.owner])
      && slot.cells[..|Words(s.published[slot.owner])|] == Words(s.published[slot.owner])
      && (forall i :: 0 <= i < |s.popped| ==> s.popped[i].ticket != slot.owner)
  }

  ghost predicate ConsumerOk(s: State)
    requires Shaped(s)
  {
    var slot := s.slots[Here(s, s.served)];
    s.consumer.Copying? ==>
      && slot.ready && s.consumer.done <= CELLS && s.consumer.done <= 4 + slot.cells[3]
      && s.out[..s.consumer.done] == slot.cells[..s.consumer.done]
  }

  /** A popped record is the whole of one published push, popped once. */
  ghost predicate PopsOk(s: State) {
    && (forall i :: 0 <= i < |s.popped| ==>
          s.popped[i].ticket in s.published && s.popped[i].words == Words(s.published[s.popped[i].ticket]))
    && (forall i, j :: 0 <= i < j < |s.popped| ==> s.popped[i].ticket != s.popped[j].ticket)
  }

  ghost predicate Inv(s: State) {
    && Shaped(s)
    && (forall t: nat :: t in s.inflight ==> FlightOk(s, t))
    && (forall t: nat :: t in s.published ==> t < s.claimed)
    && (forall k: nat :: k < |s.slots| ==> SlotOk(s, k))
    && ConsumerOk(s)
    && PopsOk(s)
  }

  /** In flight together, two tickets never share a slot. */
  lemma FlightsApart(s: State, t: nat, u: nat)
    requires Inv(s) && t in s.inflight && u in s.inflight && t != u
    ensures Here(s, t) != Here(s, u)
  {
    assert FlightOk(s, t) && FlightOk(s, u);
    if t < u { SlotsApart(t, u, |s.slots|); } else { SlotsApart(u, t, |s.slots|); }
  }

  /** While a push is in flight the one a lap before it is not. */
  lemma LapBehindDone(s: State, t: nat)
    requires Inv(s) && t in s.inflight && t >= |s.slots|
    ensures t - |s.slots| !in s.inflight && Here(s, t - |s.slots|) == Here(s, t)
  {
    var u: nat := t - |s.slots|;
    SlotNextLap(u, |s.slots|);
    if u in s.inflight { FlightsApart(s, t, u); }
  }

  lemma ClaimInv(s: State, rec: Record)
    requires Inv(s) && Allows(Lap, s, Claim(rec))
    ensures Inv(ClaimStep(s, rec))
  {
    hide SlotOf, Words;
    var s' := ClaimStep(s, rec);
    forall t: nat | t in s'.inflight ensures FlightOk(s', t) {
      if t in s.inflight { assert FlightOk(s, t); }
    }
    forall k: nat | k < |s.slots| ensures SlotOk(s', k) { assert SlotOk(s, k); }
  }

  lemma CheckInv(s: State, t: nat)
    requires Inv(s)
    ensures Inv(CheckStep(s, t))
  {
    hide SlotOf, Words;
    var s' := CheckStep(s, t);
    forall u: nat | u in s'.inflight ensures FlightOk(s', u) {
      assert FlightOk(s, u);
    }
    forall k: nat | k < |s.slots| ensures SlotOk(s', k) { assert SlotOk(s, k); }
  }

  lemma FillInv(s: State, t: nat)
    requires Inv(s)
    ensures Inv(FillStep(s, t))
  {
    hide SlotOf, Words;
    var s' := FillStep(s, t);
    if s' != s {
      assert FlightOk(s, t);
      var p, k := s.inflight[t], Here(s, t);
      var i, w := p.pc.done, Words(p.rec);
      var old', new' := s.slots[k].cells, s'.slots[k].cells;
      forall u: nat | u in s'.inflight ensures FlightOk(s', u) {
        assert FlightOk(s, u);
        if u == t {
          assert new'[..i] == old'[..i];
          assert new'[..i + 1] == new'[..i] + [w[i]] == w[..i + 1];
        } else {
          FlightsApart(s, t, u);
        }
      }
      forall j: nat | j < |s.slots| ensures SlotOk(s', j) { assert SlotOk(s, j); }
    }
  }

  lemma PublishInv(s: State, t: nat)
    requires Inv(s)
    ensures Inv(PublishStep(s, t))
  {
    hide SlotOf, Words;
    var s' := PublishStep(s, t);
    if s' != s {
      assert FlightOk(s, t);
      var k, w := Here(s, t), Words(s.inflight[t].rec);
      assert w[..|w|] == w;
      forall u: nat | u in s'.inflight ensures FlightOk(s', u) {
        assert FlightOk(s, u);
        FlightsApart(s, t, u);
      }
      forall j: nat | j < |s.slots| ensures SlotOk(s', j) {
        assert SlotOk(s, j);
      }
    }
  }

  /** Steps that change neither slots, flights, publications nor pops keep what they say. */
  lemma SameViews(s: State, s': State)
    requires Inv(s) && Shaped(s') && ConsumerOk(s')
    requires s'.slots == s.slots && s'.inflight == s.inflight && s'.claimed == s.claimed
    requires s'.published == s.published && s'.popped == s.popped
    ensures Inv(s')
  {
    hide SlotOf, Words, ConsumerOk;
    forall t: nat | t in s.inflight ensures FlightOk(s', t) { assert FlightOk(s, t); }
    forall k: nat | k < |s.slots| ensures SlotOk(s', k) { assert SlotOk(s, k); }
  }

  lemma ConsumeInv(s: State)
    requires Inv(s)
    ensures Inv(BeginPopStep(s)) && Inv(CopyStep(s)) && Inv(AdvanceStep(s))
  {
    hide SlotOf, Words, FlightOk, SlotOk, PopsOk;
    CopyKeepsPrefix(s);
    SameViews(s, BeginPopStep(s));
    SameViews(s, CopyStep(s));
    SameViews(s, AdvanceStep(s));
  }

  lemma CopyKeepsPrefix(s: State)
    requires Shaped(s) && ConsumerOk(s)
    ensures ConsumerOk(CopyStep(s))
  {
    hide SlotOf;
    var c := CopyStep(s);
    if c != s {
      var i, cells := s.consumer.done, s.slots[Here(s, s.served)].cells;
      assert c.out[..i] == s.out[..i];
      assert c.out[..i + 1] == c.out[..i] + [cells[i]] == cells[..i + 1];
    }
  }

  /** At release the copied words are those of the push that owns the slot. */
  lemma ReleasedWords(s: State)
    requires Inv(s) && ReleaseStep(s) != s
    ensures var slot := s.slots[Here(s, s.served)];
            && slot.owner in s.published
            && s.out[..s.consumer.done] == Words(s.published[slot.owner])
  {
    hide SlotOf;
    var k := Here(s, s.served);
    assert SlotOk(s, k);
    var slot := s.slots[k];
    var w := Words(s.published[slot.owner]);
    assert slot.cells[3] == slot.cells[..|w|][3] == w[3];
  }

  lemma ReleaseInv(s: State)
    requires Inv(s)
    ensures Inv(ReleaseStep(s))
  {
    var s' := ReleaseStep(s);
    if s' != s {
      ReleasedWords(s);
      hide SlotOf, Words;
      var k := Here(s, s.served);
      assert SlotOk(s, k);
      forall t: nat | t in s'.inflight ensures FlightOk(s', t) { assert FlightOk(s, t); }
      forall j: nat | j < |s.slots| ensures SlotOk(s', j) { assert SlotOk(s, j); }
    }
  }

  lemma NextInv(s: State, a: Action)
    requires Inv(s) && Allows(Lap, s, a)
    ensures Inv(Next(s, a))
  {
    hide Inv, Allows, ClaimStep, CheckStep, FillStep, PublishStep, BeginPopStep, CopyStep, ReleaseStep, AdvanceStep;
    match a
    case Claim(rec) => ClaimInv(s, rec);
    case Check(t) => CheckInv(s, t);
    case Fill(t) => FillInv(s, t);
    case Publish(t) => PublishInv(s, t);
    case BeginPop => ConsumeInv(s);
    case Copy => ConsumeInv(s);
    case Release => ReleaseInv(s);
    case Advance => ConsumeInv(s);
  }

  /** Every run under the lap premise keeps the invariant. */
  lemma {:induction false} LapRunInv(n: nat, acts: seq<Action>)
    requires n > 0 && Obeys(n, acts, Lap)
    ensures Inv(Exec(n, acts))
  {
    if acts != [] {
      var m := |acts| - 1;
      ObeysPrefix(n, acts, Lap, m);
      LapRunInv(n, acts[..m]);
      NextInv(Exec(n, acts[..m]), acts[m]);
    }
  }
}
