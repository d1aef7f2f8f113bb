/** When the writer syncs. At each reading of the clock it flushes if something is pending and the
    interval since the last flush has passed; what is pending then no longer is. */
module FlushSchedule {
  import opened Bits
  import opened LogFormat

  /** `covered` records of the session are synced, the pending count still carries `carried`
      records of earlier sessions, and the last flush was at `last`. */
  datatype Flush = Flush(covered: nat, carried: nat, last: nat)

  /** Records the pending count stands for once `written` records of the session are in the file. */
  function Unsynced(f: Flush, written: nat): nat {
    f.carried + if written >= f.covered then written - f.covered else 0
  }

  /** The 32-bit pending count itself. */
  function Pending(f: Flush, written: nat): u32 { Truncate32(Unsynced(f, written)) }

  lemma PendingStep(f: Flush, written: nat)
    requires f.covered <= written
    ensures Truncate32(Pending(f, written) + 1) == Pending(f, written + 1)
  {
  }

  predicate Due(f: Flush, interval: nat, written: nat, now: nat) {
    Pending(f, written) != 0 && now - f.last >= interval
  }

  function FlushAt(f: Flush, interval: nat, written: nat, now: nat): Flush {
    if Due(f, interval, written, now) then Flush(written, 0, now) else f
  }

  /** Counts of records written, as they stand at successive readings. */
  ghost predicate Rising(from: nat, counts: seq<nat>) {
    && (forall i :: 0 <= i < |counts| ==> from <= counts[i])
    && (forall i, j :: 0 <= i < j < |counts| ==> counts[i] <= counts[j])
  }

  /** All readings of a session: counts[i] records were written at reading i. */
  ghost function Flushes(f: Flush, interval: nat, counts: seq<nat>, clock: nat -> nat): Flush {
    if counts == [] then f
    else
      var m := |counts| - 1;
      FlushAt(Flushes(f, interval, counts[..m], clock), interval, counts[m], clock(m))
  }

  lemma NoReadings(f: Flush, interval: nat, clock: nat -> nat)
    ensures Flushes(f, interval, [], clock) == f && Rising(f.covered, [])
  {
  }

  lemma FlushesSnoc(f: Flush, interval: nat, counts: seq<nat>, clock: nat -> nat, written: nat)
    requires Rising(f.covered, counts) && f.covered <= written
    requires counts != [] ==> counts[|counts| - 1] <= written
    ensures Rising(f.covered, counts + [written])
    ensures Flushes(f, interval, counts + [written], clock)
         == FlushAt(Flushes(f, interval, counts, clock), interval, written, clock(|counts|))
  {
    assert (counts + [written])[..|counts|] == counts;
  }

  // ---------------------------------------------------------------- flushes are an interval apart

  /** What is pending at reading j is no longer so after it. */
  ghost predicate ClearsAt(f: Flush, interval: nat, counts: seq<nat>, clock: nat -> nat, j: nat)
    requires j < |counts|
  {
    && Pending(Flushes(f, interval, counts[..j], clock), counts[j]) != 0
    && Pending(Flushes(f, interval, counts[..j + 1], clock), counts[j]) == 0
  }

  lemma ReadingAt(f: Flush, interval: nat, counts: seq<nat>, clock: nat -> nat, j: nat)
    requires j < |counts|
    ensures var g := Flushes(f, interval, counts[..j], clock);
            && Flushes(f, interval, counts[..j + 1], clock) == FlushAt(g, interval, counts[j], clock(j))
            && (ClearsAt(f, interval, counts, clock, j) <==> Due(g, interval, counts[j], clock(j)))
  {
    assert counts[..j + 1][..j] == counts[..j];
    NothingPending(Flush(counts[j], 0, clock(j)), counts[j]);
  }

  /** The time of a flush is remembered until the next one. */
  lemma {:induction false} LastIs(f: Flush, interval: nat, counts: seq<nat>, clock: nat -> nat, i: nat, j: nat)
    requires i < j <= |counts| && ClearsAt(f, interval, counts, clock, i)
    requires forall m: nat :: i < m < j ==> !ClearsAt(f, interval, counts, clock, m)
    ensures Flushes(f, interval, counts[..j], clock).last == clock(i)
  {
    hide Flushes, ClearsAt, Pending;
    ReadingAt(f, interval, counts, clock, j - 1);
    if i < j - 1 { LastIs(f, interval, counts, clock, i, j - 1); }
  }

  /** After a flush at reading i the next one comes at the first reading with something pending
      that is an interval later, and not before. */
  lemma NextFlushExactly(f: Flush, interval: nat, counts: seq<nat>, clock: nat -> nat, i: nat, j: nat)
    requires i < j < |counts| && ClearsAt(f, interval, counts, clock, i)
    requires forall m: nat :: i < m < j ==> !ClearsAt(f, interval, counts, clock, m)
    ensures ClearsAt(f, interval, counts, clock, j)
       <==> Pending(Flushes(f, interval, counts[..j], clock), counts[j]) != 0 && clock(j) - clock(i) >= interval
    ensures clock(j) - clock(i) >= interval ==> Pending(Flushes(f, interval, counts[..j + 1], clock), counts[j]) == 0
  {
    LastIs(f, interval, counts, clock, i, j);
    ReadingAt(f, interval, counts, clock, j);
    NothingPending(Flush(counts[j], 0, clock(j)), counts[j]);
    hide Flushes;
  }

  /** Any two flushes of a session are at least an interval apart. */
  lemma {:induction false} FlushesApart(f: Flush, interval: nat, counts: seq<nat>, clock: nat -> nat, i: nat, j: nat)
    requires i < j < |counts|
    requires ClearsAt(f, interval, counts, clock, i) && ClearsAt(f, interval, counts, clock, j)
    ensures clock(j) - clock(i) >= interval
    decreases j - i
  {
    hide ClearsAt;
    if m: nat :| i < m < j && ClearsAt(f, interval, counts, clock, m) {
      FlushesApart(f, interval, counts, clock, i, m);
      FlushesApart(f, interval, counts, clock, m, j);
    } else {
      NextFlushExactly(f, interval, counts, clock, i, j);
    }
  }

  // ---------------------------------------------------------------- one reading per busy drain

  /** Pops so far at the ends of the drains that popped something; `before` precede the first. */
  function Busy(before: nat, ends: seq<nat>): seq<nat> {
    if ends == [] then []
    else
      var m := |ends| - 1;
      Busy(before, ends[..m]) + if ends[m] > Latest(before, ends[..m]) then [ends[m]] else []
  }

  function Latest(before: nat, ends: seq<nat>): nat { if ends == [] then before else ends[|ends| - 1] }

  /** The same as records of a session that began after `from` pops. */
  function Since(from: nat, pops: seq<nat>): (counts: seq<nat>)
    ensures |counts| == |pops|
  {
    seq(|pops|, i requires 0 <= i < |pops| => if pops[i] >= from then pops[i] - from else 0)
  }

  /** The readings of a thread whose drains end at `ends`: one after each drain that popped
      something, except the last drain, which always has one. */
  function ReadingsOf(from: nat, before: nat, ends: seq<nat>): seq<nat>
    requires ends != []
  {
    var m := |ends| - 1;
    Since(from, Busy(before, ends[..m]) + [ends[m]])
  }

  lemma NothingBusy(from: nat, before: nat)
    ensures Since(from, Busy(before, [])) == []
  {
  }

  lemma SinceSnoc(from: nat, pops: seq<nat>, x: nat)
    ensures Since(from, pops + [x]) == Since(from, pops) + [if x >= from then x - from else 0]
  {
  }

  lemma BusyStep(before: nat, ends: seq<nat>, x: nat)
    ensures Busy(before, ends + [x]) == if x > Latest(before, ends) then Busy(before, ends) + [x] else Busy(before, ends)
  {
    assert (ends + [x])[..|ends|] == ends;
  }

  lemma BusySnoc(from: nat, before: nat, ends: seq<nat>, x: nat)
    ensures Since(from, Busy(before, ends + [x]))
         == Since(from, Busy(before, ends)) + if x > Latest(before, ends) then [if x >= from then x - from else 0] else []
    ensures ReadingsOf(from, before, ends + [x]) == Since(from, Busy(before, ends)) + [if x >= from then x - from else 0]
  {
    assert (ends + [x])[..|ends|] == ends;
    BusyStep(before, ends, x);
    SinceSnoc(from, Busy(before, ends), x);
    hide Busy, Since, Latest;
  }

  // ---------------------------------------------------------------- what stays pending

  /** Some reading finds a flush due, counting from the state before the first. */
  ghost predicate EverDue(f: Flush, interval: nat, counts: seq<nat>, clock: nat -> nat) {
    exists j :: 0 <= j < |counts| && Due(f, interval, counts[j], clock(j))
  }

  /** A session flushes at all exactly when some reading comes an interval after the flush before
      the session with something pending; and from then on nothing is carried. */
  lemma {:induction false} FlushedExactly(f: Flush, interval: nat, counts: seq<nat>, clock: nat -> nat)
    requires Rising(f.covered, counts)
    ensures Flushes(f, interval, counts, clock) != f <==> EverDue(f, interval, counts, clock)
    ensures EverDue(f, interval, counts, clock) ==> Flushes(f, interval, counts, clock).carried == 0
    ensures f.covered <= Flushes(f, interval, counts, clock).covered
    ensures counts != [] ==> Flushes(f, interval, counts, clock).covered <= counts[|counts| - 1]
  {
    if counts != [] {
      var m := |counts| - 1;
      var front := counts[..m];
      FlushedExactly(f, interval, front, clock);
      EverDueSnoc(f, interval, counts, clock);
      hide EverDue, Truncate32;
      var g := Flushes(f, interval, front, clock);
      if g.carried == 0 && g.covered >= counts[m] { NothingPending(g, counts[m]); }
    }
  }

  lemma EverDueSnoc(f: Flush, interval: nat, counts: seq<nat>, clock: nat -> nat)
    requires counts != []
    ensures var m := |counts| - 1;
            (EverDue(f, interval, counts, clock)
             <==> EverDue(f, interval, counts[..m], clock) || Due(f, interval, counts[m], clock(m)))
  {
    hide Due;
    var m := |counts| - 1;
    if EverDue(f, interval, counts[..m], clock) {
      var j :| 0 <= j < m && Due(f, interval, counts[..m][j], clock(j));
      assert counts[j] == counts[..m][j];
    }
    if EverDue(f, interval, counts, clock) && !Due(f, interval, counts[m], clock(m)) {
      var j :| 0 <= j < |counts| && Due(f, interval, counts[j], clock(j));
      assert counts[j] == counts[..m][j];
    }
  }

  lemma NothingPending(f: Flush, written: nat)
    requires f.carried == 0 && f.covered >= written
    ensures Pending(f, written) == 0
  {
  }

  /** Nothing is carried at the end exactly when nothing was at the start or the session has
      flushed. */
  lemma CarriedExactly(f: Flush, interval: nat, counts: seq<nat>, clock: nat -> nat)
    requires Rising(f.covered, counts)
    ensures Flushes(f, interval, counts, clock).carried == 0 <==> f.carried == 0 || EverDue(f, interval, counts, clock)
  {
    FlushedExactly(f, interval, counts, clock);
  }

  /** At the last reading nothing was pending, or the interval had passed. */
  ghost predicate ClearedAtLast(f: Flush, interval: nat, counts: seq<nat>, clock: nat -> nat)
    requires counts != []
  {
    var m := |counts| - 1;
    var g := Flushes(f, interval, counts[..m], clock);
    Pending(g, counts[m]) == 0 || clock(m) - g.last >= interval
  }

  /** The pending count ends at zero exactly then. */
  lemma ClearedExactly(f: Flush, interval: nat, counts: seq<nat>, clock: nat -> nat)
    requires counts != []
    ensures Pending(Flushes(f, interval, counts, clock), counts[|counts| - 1]) == 0
       <==> ClearedAtLast(f, interval, counts, clock)
  {
    var m := |counts| - 1;
    NothingPending(Flush(counts[m], 0, clock(m)), counts[m]);
  }

  /** Records covered and pending add up to the records written exactly when what is carried over
      is a multiple of 2^32, so in practice zero, and fewer than 2^32 are uncovered. */
  lemma CountExactly(f: Flush, written: nat)
    requires f.covered <= written
    ensures f.covered + Pending(f, written) == written
       <==> written - f.covered < 0x1_0000_0000 && f.carried % 0x1_0000_0000 == 0
  {
  }
}
