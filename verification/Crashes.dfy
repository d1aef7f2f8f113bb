/** What survives when the machine stops: the file is cut at some byte, but not before what the
    last fsync covers. */
module Crashes {
  import opened Bits
  import opened WireFormat
  import opened LogFormat
  import opened RingModel
  import opened RingTheorems
  import opened FlushSchedule
  import RecordWriter
  import RingBuffer

  // ---------------------------------------------------------------- the file as a value

  /** Killed in the middle of writing a record: the file replays as the records before it. */
  lemma KilledMidRecord(createdAt: u64, ts: seq<Topic>, rs: seq<Record>, r: Record, k: nat)
    requires |ts| < TWO_32 && AllFit(ById(ts), rs + [r]) && k < |RecordBytes(r)|
    ensures Replay(Log(createdAt, ts, rs) + RecordBytes(r)[..k]) == Some(rs)
  {
    hide *;
    var n := |RecordsBytes(rs)| + k;
    LastCut(createdAt, ts, rs, r, k);
    TornExactly(createdAt, ts, rs + [r], n, |rs|);
    assert (rs + [r])[..|rs|] == rs;
  }

  lemma TornExactly(createdAt: u64, ts: seq<Topic>, rs: seq<Record>, k: nat, m: nat)
    requires |ts| < TWO_32 && AllFit(ById(ts), rs) && WhollyInside(rs, k, m)
    requires |Preamble(createdAt, ts)| + k <= |Log(createdAt, ts, rs)|
    ensures Replay(Log(createdAt, ts, rs)[..|Preamble(createdAt, ts)| + k]) == Some(rs[..m])
  {
    hide *;
    var m' := TornLog(createdAt, ts, rs, |Preamble(createdAt, ts)| + k);
    OneCount(rs, k, m, m');
  }

  lemma OneCount(rs: seq<Record>, n: nat, a: nat, b: nat)
    requires WhollyInside(rs, n, a) && WhollyInside(rs, n, b)
    ensures a == b
  {
    hide WhollyInside;
    var only := WhollyInsideCount(rs, n);
  }

  lemma LastCut(createdAt: u64, ts: seq<Topic>, rs: seq<Record>, r: Record, k: nat)
    requires k < |RecordBytes(r)|
    ensures var n := |Preamble(createdAt, ts)| + |RecordsBytes(rs)| + k;
            && n <= |Log(createdAt, ts, rs + [r])|
            && Log(createdAt, ts, rs + [r])[..n] == Log(createdAt, ts, rs) + RecordBytes(r)[..k]
    ensures WhollyInside(rs + [r], |RecordsBytes(rs)| + k, |rs|)
  {
    hide RecordBytes, RecordsBytes, Preamble;
    RecordsBytesSnoc(rs, r);
    CutInLast(Preamble(createdAt, ts), RecordsBytes(rs), RecordBytes(r), k);
    assert (rs + [r])[..|rs|] == rs && (rs + [r])[..|rs| + 1] == rs + [r];
  }

  lemma CutInLast(pre: seq<byte>, u: seq<byte>, v: seq<byte>, k: nat)
    requires k <= |v|
    ensures (pre + (u + v))[..|pre| + |u| + k] == pre + u + v[..k]
  {
  }

  // ---------------------------------------------------------------- the writer's file

  /** The records a replay of what is left of a file delivers; a refused file delivers none. */
  function Kept(b: seq<byte>): seq<Record> {
    match Replay(b)
    case None => []
    case Some(rs) => rs
  }

  /** The disk holds any prefix of the file that is no shorter than what was synced. */
  ghost predicate Survives(f: RecordWriter.AppendFile, n: nat)
    reads f
  {
    f.synced <= n <= |f.contents|
  }

  /** The writer has a session open on a file without failed writes whose records agree with its
      table. */
  ghost predicate Recording(w: RecordWriter.RecordWriter, createdAt: u64, ts: seq<Topic>)
    reads w, w.ring, w.ring.slots, w.binFile
  {
    && w.Valid() && w.binFile != null && !w.binFile.failed
    && |ts| < TWO_32 && w.preamble == Preamble(createdAt, ts) && AllFit(ById(ts), w.written)
  }

  /** How many records a cut keeps, given how many an fsync covers. */
  lemma CutKeeps(createdAt: u64, ts: seq<Topic>, rs: seq<Record>, covered: nat, synced: nat, n: nat) returns (m: nat)
    requires |ts| < TWO_32 && AllFit(ById(ts), rs)
    requires RecordWriter.Durable(synced, Preamble(createdAt, ts), rs, covered)
    requires synced <= n <= |Log(createdAt, ts, rs)|
    ensures covered <= m <= |rs| && Kept(Log(createdAt, ts, rs)[..n]) == rs[..m]
    ensures n == synced ==> m == covered
  {
    hide RecordsBytes, Preamble, Replay, ById;
    if n < |Preamble(createdAt, ts)| {
      TornPreamble(createdAt, ts, rs, n);
      m := 0;
    } else {
      m := TornLog(createdAt, ts, rs, n);
      if m < covered {
        RecordsBytesMonotone(rs[..m + 1], rs[..covered]);
      }
      if covered < m {
        RecordsBytesMonotone(rs[..covered + 1], rs[..m]);
        RecordsBytesMonotone(rs[..covered], rs[..m]);
      }
    }
  }

  /** Whatever the crash cuts off, a replay delivers the first records written, in order, and at
      least those the last fsync covers. */
  lemma CrashKeepsCovered(w: RecordWriter.RecordWriter, createdAt: u64, ts: seq<Topic>, n: nat) returns (m: nat)
    requires Recording(w, createdAt, ts) && Survives(w.binFile, n)
    ensures w.covered <= m <= |w.written| && Kept(w.binFile.contents[..n]) == w.written[..m]
  {
    hide Kept, RecordWriter.Durable, Preamble, RecordsBytes, ById;
    m := CutKeeps(createdAt, ts, w.written, w.covered, w.binFile.synced, n);
  }

  /** No crash can lose a written record exactly when the last fsync covers them all; and as long
      as the pending count neither carries anything over nor wraps, that is when it is zero. */
  lemma NothingLostExactly(w: RecordWriter.RecordWriter, createdAt: u64, ts: seq<Topic>)
    requires Recording(w, createdAt, ts)
    ensures (forall n: nat :: Survives(w.binFile, n) ==> Kept(w.binFile.contents[..n]) == w.written)
       <==> w.covered == |w.written|
    ensures w.carried == 0 && |w.written| - w.covered < TWO_32 ==> (w.covered == |w.written| <==> w.pending == 0)
  {
    hide Kept, RecordWriter.Durable, Preamble, RecordsBytes, ById;
    if w.covered == |w.written| {
      forall n: nat | Survives(w.binFile, n) ensures Kept(w.binFile.contents[..n]) == w.written {
        var m := CrashKeepsCovered(w, createdAt, ts, n);
      }
    } else {
      var n := w.binFile.synced;
      SyncedInside(w, createdAt, ts);
      var m := CutKeeps(createdAt, ts, w.written, w.covered, n, n);
      assert Survives(w.binFile, n) && Kept(w.binFile.contents[..n]) != w.written;
    }
  }

  lemma SyncedInside(w: RecordWriter.RecordWriter, createdAt: u64, ts: seq<Topic>)
    requires Recording(w, createdAt, ts)
    ensures w.binFile.synced <= |w.binFile.contents| == |Log(createdAt, ts, w.written)|
  {
    hide RecordsBytes, Preamble, ById;
    RecordsBytesMonotone(w.written[..w.covered], w.written);
  }

  /** The documented bound, that a crash loses only what is still in the ring, does not hold. For
      pushes that do not overlap, at any points between the thread's accesses: if the thread's
      clock readings all fall within the first flush interval, then when the thread ends nothing is
      on the disk for sure, although with no drop and no failed write the ring has been drained and
      every push is in the file. */
  method DrainedUnsynced(f: RecordWriter.AppendFile, ts: seq<Topic>, createdAt: u64, env: seq<seq<RecordWriter.PushArgs>>, clock: nat -> nat)
    returns (started: bool, writer: RecordWriter.RecordWriter)
    requires RecordWriter.AllReadable(env) && f.contents == [] && f.synced == 0 && !f.failed
    modifies f
    ensures fresh(writer) && fresh(writer.ring) && writer.Valid() && (!f.failed ==> started)
    ensures started && !f.failed && (forall i :: clock(i) < 100) ==>
              && writer.binFile == f && f.synced == 0 && writer.covered == 0
              && f.contents == Log(createdAt, ts, writer.written)
    ensures started && !f.failed && writer.ring.Model().dropped == 0 ==>
              Ready(writer.ring.Model()) == {} && writer.written == RecordWriter.SentAll(env)
  {
    hide Run, Init, Offered, At, Preamble, RecordsBytes, RecordWriter.SentAll, Recs, RecordWriter.Durable, Truncate32;
    NothingOffered(4096);
    writer := new RecordWriter.RecordWriter(100);
    started := writer.Open(f, ts, createdAt, 0);
    if !started {
      return;
    }
    RecordWriter.NothingSentAll(env);
    var k, counts, ends := writer.WriterThreadMain(env, |env|, clock, Offered(writer.ring.ops));
    assert env[..k] == env;
    if !f.failed && writer.ring.Model().dropped == 0 {
      DrainedWritten(writer.ring.ops, writer.written, RecordWriter.SentAll(env));
    }
  }

  lemma DrainedWritten(ops: seq<Op>, written: seq<Record>, sent: seq<Record>)
    requires var s := Run(Init(4096), ops);
             s.dropped == 0 && At(s, s.served).None? && written == Recs(s.popped[0..]) && Offered(ops) == sent
    ensures Ready(Run(Init(4096), ops)) == {} && written == sent
  {
    hide Run, Init, Recs, Offered, At;
    CompleteDrain(4096, ops);
    EmptyAtMultiples(4096, ops);
    var popped := Run(Init(4096), ops).popped;
    assert popped[0..] == popped;
  }

  // ---------------------------------------------------------------- the pending count

  /** Records covered and pending add up to the records written exactly when fewer than 2^32 are
      uncovered and what the count carries over is a multiple of 2^32, so in practice nothing. */
  lemma PendingExactly(w: RecordWriter.RecordWriter)
    requires w.Valid()
    ensures w.covered + w.pending == |w.written|
       <==> |w.written| - w.covered < 0x1_0000_0000 && w.carried % 0x1_0000_0000 == 0
  {
    CountExactly(w.Flushed(), |w.written|);
  }

  lemma ZeroPending(f: Flush, written: nat)
    requires f.covered >= written
    ensures Pending(f, written) == 0 <==> f.carried % 0x1_0000_0000 == 0
  {
  }

  /** When the thread of any session ends, first or later and for every clock: covered plus pending
      is written, with fewer than 2^32 uncovered, exactly when the count was zero as the session
      opened or some reading of the clock found a flush due. */
  method PendingInSession(writer: RecordWriter.RecordWriter, f: RecordWriter.AppendFile, ts: seq<Topic>, createdAt: u64, now: nat,
                          env: seq<seq<RecordWriter.PushArgs>>, clock: nat -> nat)
    returns (started: bool, ghost atOpen: Flush, ghost counts: seq<nat>)
    requires writer.Valid() && !writer.joinable
    requires RecordWriter.AllReadable(env) && f.contents == [] && f.synced == 0 && !f.failed
    modifies writer, writer.ring, writer.ring.slots, f
    ensures writer.Valid() && (!f.failed ==> started)
    ensures started ==> atOpen.covered == 0 && atOpen.last == now && Pending(atOpen, 0) == old(writer.pending)
    ensures started ==> Rising(0, counts) && counts != [] && counts[|counts| - 1] == |writer.written|
    ensures started ==>
              (writer.covered + writer.pending == |writer.written|
               <==> && |writer.written| - writer.covered < 0x1_0000_0000
                    && (old(writer.pending) == 0 || EverDue(atOpen, writer.flushInterval, counts, clock)))
  {
    hide Run, Init, Offered, At, Preamble, RecordsBytes, RecordWriter.SentAll, Recs, RecordWriter.Durable, Truncate32, Flushes, Rising, EverDue, RingBuffer.MpscRingBuffer.Valid;
    atOpen, counts := Flush(0, 0, 0), [];
    started := writer.Open(f, ts, createdAt, now);
    if !started {
      return;
    }
    atOpen := writer.Flushed();
    RecordWriter.NothingSentAll(env);
    var k;
    ghost var ends;
    k, counts, ends := writer.WriterThreadMain(env, |env|, clock, Offered(writer.ring.ops));
    CarriedModulo(atOpen, writer.flushInterval, counts, clock);
    PendingExactly(writer);
  }

  /** What a session carries at its end is a multiple of 2^32 exactly when the count was zero at
      its start or it has flushed. */
  lemma CarriedModulo(f: Flush, interval: nat, counts: seq<nat>, clock: nat -> nat)
    requires Rising(f.covered, counts) && f.covered == 0
    ensures Flushes(f, interval, counts, clock).carried % 0x1_0000_0000 == 0
       <==> Pending(f, 0) == 0 || EverDue(f, interval, counts, clock)
  {
    FlushedExactly(f, interval, counts, clock);
    ZeroPending(f, 0);
    hide EverDue, Flushes, Rising, Pending;
  }

  /** Close syncs without resetting the pending count. For every clock the closed file is synced to
      its end, and the count it leaves to the next session is zero exactly when nothing was pending
      at the last reading or the interval had passed by then; if every reading falls within the
      first interval it is still that of all records (modulo 2^32). */
  method PendingCarriedOver(f: RecordWriter.AppendFile, ts: seq<Topic>, createdAt: u64, env: seq<seq<RecordWriter.PushArgs>>, clock: nat -> nat)
    returns (started: bool, writer: RecordWriter.RecordWriter, ghost counts: seq<nat>)
    requires RecordWriter.AllReadable(env) && f.contents == [] && f.synced == 0 && !f.failed
    modifies f
    ensures fresh(writer) && fresh(writer.ring) && writer.Valid() && (!f.failed ==> started)
    ensures started && !f.failed ==> f.synced == |f.contents| && f.contents == Log(createdAt, ts, writer.written)
    ensures started ==> writer.covered == |writer.written| && writer.pending == Truncate32(writer.carried)
    ensures started ==>
              && Rising(0, counts) && counts != [] && counts[|counts| - 1] == |writer.written|
              && (writer.pending == 0 <==> ClearedAtLast(Flush(0, 0, 0), 100, counts, clock))
    ensures started && (forall i :: clock(i) < 100) ==> writer.carried == |writer.written|
  {
    hide Run, Init, Offered, At, Preamble, RecordsBytes, RecordWriter.SentAll, Recs, RecordWriter.Durable, Truncate32, Flushes, Rising, ClearedAtLast;
    counts := [];
    writer := new RecordWriter.RecordWriter(100);
    started := writer.Open(f, ts, createdAt, 0);
    if !started {
      return;
    }
    var k;
    k, counts := writer.Close(env, |env|, clock);
    if forall i :: clock(i) < 100 { NeverDue(Flush(0, 0, 0), 100, counts, clock); }
  }

  lemma NeverDue(f: Flush, interval: nat, counts: seq<nat>, clock: nat -> nat)
    requires Rising(f.covered, counts) && forall i :: clock(i) < f.last + interval
    ensures Flushes(f, interval, counts, clock) == f
  {
    FlushedExactly(f, interval, counts, clock);
  }
}
