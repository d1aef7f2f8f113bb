/** When callbacks start during a timed replay. Each record has an absolute deadline; waking
    from a sleep may be late by e(i) and callback i keeps the thread busy for c(i). */
module ReplaySchedule {
  import opened Bits

  function Max(a: int, b: int): int { if a >= b then a else b }

  /** Time since the first stamp; an earlier stamp is clamped to "at once". */
  function Elapsed(stamp: u64, t0: u64): (d: u64)
    ensures stamp < t0 ==> d == 0
    ensures stamp >= t0 ==> t0 + d == stamp
  {
    if stamp >= t0 then stamp - t0 else 0
  }

  /** The absolute deadline, in the 64-bit arithmetic the replayer uses. */
  function Target(start: u64, t0: u64, stamp: u64): (t: u64)
    ensures start + Elapsed(stamp, t0) < TWO_64 ==> t == start + Elapsed(stamp, t0)
    ensures start + Elapsed(stamp, t0) >= TWO_64 ==> t < start
  {
    (start + Elapsed(stamp, t0)) % 0x1_0000_0000_0000_0000
  }

  function Targets(start: u64, stamps: seq<u64>): (tg: seq<nat>)
    ensures |tg| == |stamps|
    ensures forall i :: 0 <= i < |tg| ==> tg[i] == Target(start, stamps[0], stamps[i])
  {
    seq(|stamps|, i requires 0 <= i < |stamps| => Target(start, stamps[0], stamps[i]))
  }

  /** Start of callback i: sleep until the deadline unless already past it. */
  function StartAt(tg: seq<nat>, e: nat -> nat, c: nat -> nat, i: nat): nat
    requires i < |tg|
  {
    if i == 0 then tg[0] + e(0)
    else Max(StartAt(tg, e, c, i - 1) + c(i - 1), tg[i]) + e(i)
  }

  /** Later records do not change when earlier callbacks start. */
  lemma {:induction false} StartAtPrefix(tg: seq<nat>, ext: seq<nat>, e: nat -> nat, c: nat -> nat, i: nat)
    requires i < |tg| && tg <= ext
    ensures StartAt(tg, e, c, i) == StartAt(ext, e, c, i)
  {
    assert tg[i] == ext[i];
    if i > 0 { StartAtPrefix(tg, ext, e, c, i - 1); }
  }

  /** No callback starts before the first deadline. */
  lemma {:induction false} NotBeforeStart(tg: seq<nat>, e: nat -> nat, c: nat -> nat, i: nat)
    requires i < |tg|
    ensures StartAt(tg, e, c, i) >= tg[0]
  {
    if i > 0 { NotBeforeStart(tg, e, c, i - 1); }
  }

  function Sum(f: nat -> nat, lo: nat, hi: nat): nat
    requires lo <= hi
  {
    if lo == hi then 0 else Sum(f, lo, hi - 1) + f(hi - 1)
  }

  /** Start of callback i if it were held up by everything since deadline j. */
  function HeldSince(tg: seq<nat>, e: nat -> nat, c: nat -> nat, j: nat, i: nat): nat
    requires j <= i < |tg|
  {
    tg[j] + Sum(e, j, i + 1) + Sum(c, j, i)
  }

  lemma HeldSinceStep(tg: seq<nat>, e: nat -> nat, c: nat -> nat, j: nat, i: nat)
    requires j <= i < |tg|
    ensures i == j ==> HeldSince(tg, e, c, j, i) == tg[i] + e(i)
    ensures i > j ==> HeldSince(tg, e, c, j, i) == HeldSince(tg, e, c, j, i - 1) + c(i - 1) + e(i)
  {
    assert Sum(e, j, i + 1) == Sum(e, j, i) + e(i);
    if i > j {
      assert Sum(c, j, i) == Sum(c, j, i - 1) + c(i - 1);
    } else {
      assert Sum(e, j, j) == 0 && Sum(c, j, i) == 0;
    }
  }

  /** Callback i starts at the maximum, over every earlier deadline j, of that deadline plus
      all delays and costs since: an upper bound that is attained. */
  lemma {:induction false} MaxPlus(tg: seq<nat>, e: nat -> nat, c: nat -> nat, i: nat) returns (j: nat)
    requires i < |tg|
    ensures j <= i && StartAt(tg, e, c, i) == HeldSince(tg, e, c, j, i)
    ensures forall k: nat :: k <= i ==> HeldSince(tg, e, c, k, i) <= StartAt(tg, e, c, i)
  {
    HeldSinceStep(tg, e, c, i, i);
    if i == 0 {
      j := 0;
    } else {
      j := MaxPlus(tg, e, c, i - 1);
      HeldSinceStep(tg, e, c, j, i);
      if StartAt(tg, e, c, i - 1) + c(i - 1) < tg[i] {
        j := i;
      }
      forall k: nat | k <= i ensures HeldSince(tg, e, c, k, i) <= StartAt(tg, e, c, i) {
        HeldSinceStep(tg, e, c, k, i);
      }
    }
  }

  /** Lateness is only the wake-up delay of this very callback exactly when no earlier deadline,
      with all delays and costs since, runs past this one. */
  lemma NoDriftExactly(tg: seq<nat>, e: nat -> nat, c: nat -> nat, i: nat)
    requires i < |tg|
    ensures StartAt(tg, e, c, i) == tg[i] + e(i)
       <==> forall j: nat :: j < i ==> HeldSince(tg, e, c, j, i) <= tg[i] + e(i)
  {
    var j := MaxPlus(tg, e, c, i);
    HeldSinceStep(tg, e, c, i, i);
  }

  /** If every deadline leaves room for the previous delay and cost, no callback ever drifts. */
  lemma {:induction false} NoDrift(tg: seq<nat>, e: nat -> nat, c: nat -> nat, i: nat)
    requires i < |tg|
    requires forall k: nat :: k < i ==> Room(tg, e, c, k)
    ensures StartAt(tg, e, c, i) == tg[i] + e(i)
  {
    if i > 0 {
      NoDrift(tg, e, c, i - 1);
      assert Room(tg, e, c, i - 1);
    }
  }

  predicate Room(tg: seq<nat>, e: nat -> nat, c: nat -> nat, k: nat) {
    k + 1 < |tg| ==> tg[k] + e(k) + c(k) <= tg[k + 1]
  }

  // ---------------------------------------------------------------- sleeping by delta

  /** The alternative the design rejects: sleep for the gap since the previous record. */
  function DeltaStartAt(tg: seq<nat>, e: nat -> nat, c: nat -> nat, i: nat): nat
    requires i < |tg|
  {
    if i == 0 then tg[0] + e(0)
    else DeltaStartAt(tg, e, c, i - 1) + c(i - 1) + (if tg[i] >= tg[i - 1] then tg[i] - tg[i - 1] else 0) + e(i)
  }

  predicate InOrder(tg: seq<nat>, k: nat) { k + 1 < |tg| ==> tg[k] <= tg[k + 1] }

  /** For deadlines in order, sleeping by delta accumulates every delay and cost of the run,
      and absolute deadlines are never later than that. */
  lemma {:induction false} DeltaDrifts(tg: seq<nat>, e: nat -> nat, c: nat -> nat, i: nat)
    requires i < |tg| && forall k: nat :: k < i ==> InOrder(tg, k)
    ensures DeltaStartAt(tg, e, c, i) == tg[i] + Sum(e, 0, i + 1) + Sum(c, 0, i)
    ensures StartAt(tg, e, c, i) <= DeltaStartAt(tg, e, c, i)
  {
    assert Sum(e, 0, i + 1) == Sum(e, 0, i) + e(i);
    if i > 0 {
      assert InOrder(tg, i - 1);
      DeltaDrifts(tg, e, c, i - 1);
      assert Sum(c, 0, i) == Sum(c, 0, i - 1) + c(i - 1);
    }
  }
}
