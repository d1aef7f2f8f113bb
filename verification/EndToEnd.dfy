/** Push, pop, bytes, parse, callback: the pieces composed. */
module EndToEnd {
  import opened Bits
  import opened WireFormat
  import opened LogFormat
  import opened RingModel
  import opened RingTheorems
  import opened FlushSchedule
  import I = RingInterleaved
  import IT = RingInterleavedTheorems
  import RecordReader
  import RecordWriter
  import RingBuffer

  // ---------------------------------------------------------------- the recording as a value

  /** Any run of the ring without drops whose last pop found nothing: the log of what was popped
      replays as exactly the records offered, in push order, if and only if each agrees with
      the table. */
  lemma RunReplays(n: nat, ops: seq<Op>, createdAt: u64, ts: seq<Topic>)
    requires n > 0 && |ts| < TWO_32 && Run(Init(n), ops).dropped == 0
    requires var s := Run(Init(n), ops); At(s, s.served).None?
    ensures Replay(Log(createdAt, ts, Recs(Run(Init(n), ops).popped))) == Some(Offered(ops))
       <==> AllFit(ById(ts), Offered(ops))
  {
    hide Run, Log, Replay, Offered, At;
    CompleteDrain(n, ops);
    LogRoundTrip(createdAt, ts, Offered(ops));
  }

  /** The records the interleaved ring has handed over, in pop order. */
  ghost function HandedOver(s: I.State): seq<Record>
    requires I.PopsOk(s)
  {
    seq(|s.popped|, i requires 0 <= i < |s.popped| => s.published[s.popped[i].ticket])
  }

  /** The same with every memory access interleaved, when no ticket is claimed while the one a lap
      before it is unfinished, nothing was dropped, no push is left in flight and the last pop found
      nothing: every ticket's record has been handed over, in ticket order, and the log of them
      replays if and only if each agrees with the table. */
  lemma InterleavedReplays(n: nat, acts: seq<I.Action>, createdAt: u64, ts: seq<Topic>)
    requires n > 0 && |ts| < TWO_32 && I.Obeys(n, acts, I.Lap)
    requires var s := I.Exec(n, acts); s.dropped == 0 && s.inflight == map[] && IT.Starved(s)
    ensures var s := I.Exec(n, acts);
            && I.PopsOk(s) && |s.popped| == s.claimed
            && (forall k: nat :: k < s.claimed ==> k in s.published && HandedOver(s)[k] == s.published[k])
            && (Replay(Log(createdAt, ts, HandedOver(s))) == Some(HandedOver(s)) <==> AllFit(ById(ts), HandedOver(s)))
  {
    hide Log, Replay, I.Exec, I.Obeys, ById;
    var s := I.Exec(n, acts);
    LapPops(n, acts);
    IT.StarvedMeansDone(n, acts);
    forall k: nat | k < s.claimed ensures k in s.published && HandedOver(s)[k] == s.published[k] {
      IT.UndroppedFifo(n, acts, k);
    }
    LogRoundTrip(createdAt, ts, HandedOver(s));
  }

  lemma LapPops(n: nat, acts: seq<I.Action>)
    requires n > 0 && I.Obeys(n, acts, I.Lap)
    ensures I.PopsOk(I.Exec(n, acts))
  {
    I.LapRunInv(n, acts);
  }

  function RecordsOf(pops: seq<RingBuffer.PoppedRecord>): (rs: seq<Record>)
    requires forall i :: 0 <= i < |pops| ==> pops[i].payloadLen <= |pops[i].payload|
    ensures |rs| == |pops| && forall i :: 0 <= i < |pops| ==> rs[i] == pops[i].Record()
  {
    seq(|pops|, i requires 0 <= i < |pops| => pops[i].Record())
  }

  /** The consumer's copies hold the words it took from the slots. */
  ghost predicate Copied(pops: seq<RingBuffer.PoppedRecord>, popped: seq<I.Popped>) {
    && |pops| == |popped|
    && forall i :: 0 <= i < |pops| ==> pops[i].Sized() && I.Words(pops[i].Record()) == popped[i].words
  }

  lemma CopiedHandedOver(s: I.State, pops: seq<RingBuffer.PoppedRecord>)
    requires I.PopsOk(s) && Copied(pops, s.popped)
    ensures RecordsOf(pops) == HandedOver(s)
  {
    hide I.Words;
    forall i | 0 <= i < |pops| ensures RecordsOf(pops)[i] == HandedOver(s)[i] {
      I.WordsInjective(pops[i].Record(), s.published[s.popped[i].ticket]);
    }
  }

  function Flat<T>(xss: seq<seq<T>>): seq<T> {
    if xss == [] then [] else Flat(xss[..|xss| - 1]) + xss[|xss| - 1]
  }

  lemma FlatSnoc<T>(xss: seq<seq<T>>, k: nat)
    requires k < |xss|
    ensures Flat(xss[..k + 1]) == Flat(xss[..k]) + xss[k]
  {
    assert xss[..k + 1][..k] == xss[..k];
  }

  ghost predicate AllSized(pops: seq<RingBuffer.PoppedRecord>) {
    forall i :: 0 <= i < |pops| ==> pops[i].Sized()
  }

  lemma {:induction false} FlatSized(drains: seq<seq<RingBuffer.PoppedRecord>>, k: nat)
    requires AllSized(Flat(drains)) && k <= |drains|
    ensures AllSized(Flat(drains[..k])) && (k < |drains| ==> AllSized(drains[k]))
    decreases |drains| - k
  {
    if k < |drains| {
      FlatSized(drains, k + 1);
      FlatSnoc(drains, k);
      var a, b := Flat(drains[..k]), drains[k];
      forall i | 0 <= i < |a| ensures a[i].Sized() { assert (a + b)[i] == a[i]; }
      forall i | 0 <= i < |b| ensures b[i].Sized() { assert (a + b)[|a| + i] == b[i]; }
    } else {
      assert drains[..k] == drains;
    }
  }

  lemma RecordsOfConcat(a: seq<RingBuffer.PoppedRecord>, b: seq<RingBuffer.PoppedRecord>)
    requires AllSized(a) && AllSized(b)
    ensures AllSized(a + b) && RecordsOf(a + b) == RecordsOf(a) + RecordsOf(b)
  {
  }

  /** The session so far: with no failed write the records written are these pops. */
  ghost predicate Wrote(writer: RecordWriter.RecordWriter, f: RecordWriter.AppendFile, preamble: seq<byte>, pops: seq<RingBuffer.PoppedRecord>)
    reads writer, writer.ring, writer.ring.slots, writer.binFile, f
  {
    && writer.Valid() && writer.binFile == f && writer.preamble == preamble && AllSized(pops)
    && (!f.failed ==> writer.written == RecordsOf(pops))
  }

  /** One drain: every pop is written until one finds nothing. */
  method WritePops(writer: RecordWriter.RecordWriter, f: RecordWriter.AppendFile, ghost preamble: seq<byte>,
                   ghost before: seq<RingBuffer.PoppedRecord>, pops: seq<RingBuffer.PoppedRecord>)
    requires Wrote(writer, f, preamble, before) && AllSized(pops)
    modifies writer`pending, writer`written, f
    ensures Wrote(writer, f, preamble, before + pops) && (old(f.failed) ==> f.failed)
  {
    hide Run, Init, RecordsBytes, RecordBytes, RecordWriter.Durable, RecordWriter.RecordWriter.Valid;
    assert before + pops[..0] == before;
    for i := 0 to |pops|
      invariant Wrote(writer, f, preamble, before + pops[..i]) && (old(f.failed) ==> f.failed)
    {
      var _ := writer.WriteRecord(pops[i]);
      assert before + pops[..i + 1] == before + pops[..i] + [pops[i]];
      RecordsOfConcat(before + pops[..i], [pops[i]]);
    }
    assert pops[..|pops|] == pops;
  }

  /** How many records had been popped when each drain ended. */
  function DrainEnds<T>(drains: seq<seq<T>>): seq<nat> {
    if drains == [] then [] else DrainEnds(drains[..|drains| - 1]) + [|Flat(drains)|]
  }

  lemma DrainEndsSnoc<T>(drains: seq<seq<T>>, k: nat)
    requires k < |drains|
    ensures DrainEnds(drains[..k + 1]) == DrainEnds(drains[..k]) + [|Flat(drains[..k + 1])|]
    ensures |Flat(drains[..k + 1])| == |Flat(drains[..k])| + |drains[k]|
    ensures Latest(0, DrainEnds(drains[..k])) == |Flat(drains[..k])|
  {
    assert drains[..k + 1][..k] == drains[..k];
    FlatSnoc(drains, k);
  }

  /** The drains so far: their records are written, and as long as no write has failed the clock was
      read once after each that popped something. */
  ghost predicate Drained(writer: RecordWriter.RecordWriter, f: RecordWriter.AppendFile, preamble: seq<byte>,
                          drains: seq<seq<RingBuffer.PoppedRecord>>, flush: Flush, clock: nat -> nat, readings: nat)
    reads writer, writer.ring, writer.ring.slots, writer.binFile, f
  {
    var counts := Since(0, Busy(0, DrainEnds(drains)));
    && Wrote(writer, f, preamble, Flat(drains)) && readings == |counts|
    && (!f.failed ==>
          && flush.covered == 0 && Rising(0, counts) && (counts != [] ==> counts[|counts| - 1] <= |Flat(drains)|)
          && writer.Flushed() == Flushes(flush, writer.flushInterval, counts, clock))
  }

  /** One drain and, if it popped anything or is the last, one reading of the clock. */
  method DrainOver(writer: RecordWriter.RecordWriter, f: RecordWriter.AppendFile, ghost preamble: seq<byte>,
                   drains: seq<seq<RingBuffer.PoppedRecord>>, i: nat, clock: nat -> nat, readings: nat, ghost flush: Flush)
    returns (readings': nat)
    requires i + 1 < |drains| && AllSized(Flat(drains)) && Drained(writer, f, preamble, drains[..i], flush, clock, readings)
    modifies writer`pending, writer`written, writer`lastFlush, writer`covered, writer`carried, f
    ensures Drained(writer, f, preamble, drains[..i + 1], flush, clock, readings') && (old(f.failed) ==> f.failed)
  {
    hide Run, Init, RecordsBytes, RecordWriter.Durable, RecordWriter.RecordWriter.Valid, AllSized, Flat, Flushes, Rising, DrainEnds, Busy, Since;
    FlatSized(drains, i);
    FlatSnoc(drains, i);
    DrainEndsSnoc(drains, i);
    BusySnoc(0, 0, DrainEnds(drains[..i]), |Flat(drains[..i + 1])|);
    ghost var counts := Since(0, Busy(0, DrainEnds(drains[..i])));
    WritePops(writer, f, preamble, Flat(drains[..i]), drains[i]);
    readings' := readings;
    assert counts + [] == counts;
    if drains[i] != [] {
      if !f.failed { FlushesSnoc(flush, writer.flushInterval, counts, clock, |writer.written|); }
      writer.MaybeFlush(clock(readings));
      readings' := readings + 1;
    }
  }

  /** The thread's loops over what its pops answer: drains[i] are the records popped in the i-th
      drain; the last one is the drain after the shutdown request. The clock is read after each
      drain that popped something and after the last. */
  method ThreadOverPops(writer: RecordWriter.RecordWriter, f: RecordWriter.AppendFile, ghost preamble: seq<byte>,
                        drains: seq<seq<RingBuffer.PoppedRecord>>, clock: nat -> nat)
    requires Wrote(writer, f, preamble, []) && drains != [] && AllSized(Flat(drains))
    modifies writer`pending, writer`written, writer`lastFlush, writer`covered, writer`carried, f
    ensures Wrote(writer, f, preamble, Flat(drains)) && (old(f.failed) ==> f.failed)
    ensures !f.failed ==>
              writer.Flushed() == Flushes(old(writer.Flushed()), writer.flushInterval, ReadingsOf(0, 0, DrainEnds(drains)), clock)
  {
    var readings, last := 0, |drains| - 1;
    ghost var flush := writer.Flushed();
    FlatNothing<RingBuffer.PoppedRecord>(drains);
    NoReadings(flush, writer.flushInterval, clock);
    assert DrainEnds(drains[..0]) == [];
    NothingBusy(0, 0);
    assert Drained(writer, f, preamble, drains[..0], flush, clock, 0);
    hide Run, Init, RecordsBytes, RecordWriter.Durable, RecordWriter.RecordWriter.Valid, AllSized, Flat, Flushes, Rising, DrainEnds, Busy, Since, ReadingsOf, Drained;
    for i := 0 to last
      invariant Drained(writer, f, preamble, drains[..i], flush, clock, readings) && (old(f.failed) ==> f.failed)
    {
      readings := DrainOver(writer, f, preamble, drains, i, clock, readings, flush);
    }
    LastDrain(writer, f, preamble, drains, clock, readings, flush);
  }

  method LastDrain(writer: RecordWriter.RecordWriter, f: RecordWriter.AppendFile, ghost preamble: seq<byte>,
                   drains: seq<seq<RingBuffer.PoppedRecord>>, clock: nat -> nat, readings: nat, ghost flush: Flush)
    requires drains != [] && AllSized(Flat(drains)) && Drained(writer, f, preamble, drains[..|drains| - 1], flush, clock, readings)
    modifies writer`pending, writer`written, writer`lastFlush, writer`covered, writer`carried, f
    ensures Wrote(writer, f, preamble, Flat(drains)) && (old(f.failed) ==> f.failed)
    ensures !f.failed ==>
              writer.Flushed() == Flushes(flush, writer.flushInterval, ReadingsOf(0, 0, DrainEnds(drains)), clock)
  {
    hide Run, Init, RecordsBytes, RecordWriter.Durable, RecordWriter.RecordWriter.Valid, AllSized, Flat, Flushes, Rising, DrainEnds, Busy, Since, ReadingsOf;
    var last := |drains| - 1;
    assert drains[..last + 1] == drains;
    FlatSized(drains, last);
    FlatSnoc(drains, last);
    DrainEndsSnoc(drains, last);
    BusySnoc(0, 0, DrainEnds(drains[..last]), |Flat(drains)|);
    ghost var counts := Since(0, Busy(0, DrainEnds(drains[..last])));
    WritePops(writer, f, preamble, Flat(drains[..last]), drains[last]);
    if !f.failed { FlushesSnoc(flush, writer.flushInterval, counts, clock, |writer.written|); }
    writer.MaybeFlush(clock(readings));
  }

  lemma FlatNothing<T>(xss: seq<seq<T>>)
    ensures Flat(xss[..0]) == []
  {
  }

  /** The writer over a run of accesses, whatever is dropped and whenever it flushes: with no failed
      write the file it closes is the log of the published records the run handed over, none of them
      mixed, and it replays as these if and only if each agrees with the table. `drains` are the
      consumer's copies, drain by drain. */
  method InterleavedSession(f: RecordWriter.AppendFile, ts: seq<Topic>, createdAt: u64, n: nat, ghost acts: seq<I.Action>,
                            drains: seq<seq<RingBuffer.PoppedRecord>>, clock: nat -> nat) returns (started: bool)
    requires n > 0 && |ts| < TWO_32 && I.Obeys(n, acts, I.Lap) && drains != [] && Copied(Flat(drains), I.Exec(n, acts).popped)
    requires f.contents == [] && f.synced == 0 && !f.failed
    modifies f
    ensures I.PopsOk(I.Exec(n, acts)) && (!f.failed ==> started)
    ensures !f.failed ==>
              var rs := HandedOver(I.Exec(n, acts));
              && f.synced == |f.contents| && f.contents == Log(createdAt, ts, rs)
              && (Replay(f.contents) == Some(rs) <==> AllFit(ById(ts), rs))
  {
    hide Run, Init, Preamble, RecordsBytes, Log, Replay, ById, I.Exec, I.Obeys, I.Words, RecordWriter.Durable, RingBuffer.MpscRingBuffer.Valid, Flat;
    LapPops(n, acts);
    CopiedHandedOver(I.Exec(n, acts), Flat(drains));
    LogRoundTrip(createdAt, ts, RecordsOf(Flat(drains)));
    LogParts(createdAt, ts, RecordsOf(Flat(drains)));
    var writer := new RecordWriter.RecordWriter(100);
    started := writer.Open(f, ts, createdAt, 0);
    if !started {
      return;
    }
    ThreadOverPops(writer, f, Preamble(createdAt, ts), drains, clock);
    writer.joinable := false;
    var _, _ := writer.Close([], 0, clock);
  }

  // ---------------------------------------------------------------- the whole program

  /** A session on any writer that has none open, whatever the ring has seen before: pushes that
      do not overlap, made by other threads at any points between the writer's steps but all before
      Close. Whatever was dropped, a file without write failures is the log of what this session
      popped, in a run of the ring that was offered exactly these pushes after the earlier ones and
      was drained until a pop found nothing. */
  method RecordSession(writer: RecordWriter.RecordWriter, f: RecordWriter.AppendFile, ts: seq<Topic>, createdAt: u64,
                       env: seq<seq<RecordWriter.PushArgs>>, clock: nat -> nat)
    returns (started: bool, dropped: u64, ghost ops: seq<Op>)
    requires writer.Valid() && !writer.joinable
    requires RecordWriter.AllReadable(env) && f.contents == [] && f.synced == 0 && !f.failed
    modifies writer, writer.ring, writer.ring.slots, f
    ensures writer.Valid() && !writer.joinable && ops == writer.ring.ops && (!f.failed ==> started)
    ensures started ==> Offered(ops) == old(Offered(writer.ring.ops)) + RecordWriter.SentAll(env)
    ensures started ==>
              var s := Run(Init(4096), ops);
              dropped == RingBuffer.Wrap(s.dropped) && At(s, s.served).None? && old(writer.ring.Model().popped) <= s.popped
    ensures !f.failed ==>
              && f.synced == |f.contents|
              && f.contents == Log(createdAt, ts, Recs(Run(Init(4096), ops).popped[old(|writer.ring.Model().popped|)..]))
  {
    hide Run, Init, Offered, At, Preamble, RecordsBytes, RecordWriter.SentAll, Recs, Log, RingBuffer.Wrap, Pending, RecordWriter.Durable, RingBuffer.Holds, Pow2, Flushes, Rising, ClearedAtLast;
    dropped, ops := 0, writer.ring.ops;
    started := writer.Open(f, ts, createdAt, 0);
    if !started {
      return;
    }
    var k, counts := writer.Close(env, |env|, clock);
    assert env[..k] == env;
    ops := writer.ring.ops;
    dropped := writer.ring.DroppedCount();
    LogParts(createdAt, ts, Recs(Run(Init(4096), ops).popped[old(|writer.ring.Model().popped|)..]));
  }

  lemma LogParts(createdAt: u64, ts: seq<Topic>, rs: seq<Record>)
    ensures Log(createdAt, ts, rs) == Preamble(createdAt, ts) + RecordsBytes(rs)
  {
  }

  /** Only pushed records are popped, so they agree with the table if the pushes do. */
  lemma PoppedFit(n: nat, ops: seq<Op>, table: TopicTable)
    requires n > 0 && AllFit(table, Offered(ops))
    ensures AllFit(table, Recs(Run(Init(n), ops).popped))
  {
    hide Run, Offered, Fits;
    var s := Run(Init(n), ops);
    forall i | 0 <= i < |s.popped| ensures Fits(table, Recs(s.popped)[i]) {
      PoppedOffered(n, ops, i);
    }
  }

  /** The first session of a writer, read back; `early` is pushed before the file is opened and
      env while it is, in calls that do not overlap. With no failed write and every push as long as
      its topic says, the callbacks are exactly what was popped, whatever was dropped; with no drop
      they are exactly the pushes, in order. */
  method RecordThenReplay(ts: seq<Topic>, createdAt: u64, early: seq<RecordWriter.PushArgs>, env: seq<seq<RecordWriter.PushArgs>>,
                          clock: nat -> nat, withTiming: bool, now: u64, e: nat -> nat, c: nat -> nat, signals: nat -> seq<nat>)
    returns (calls: seq<RecordReader.Call>, ghost ops: seq<Op>, ghost failed: bool)
    requires (forall i :: 0 <= i < |early| ==> early[i].Readable()) && RecordWriter.AllReadable(env) && |ts| < TWO_32
    ensures !failed ==> Offered(ops) == RecordWriter.Sent(early) + RecordWriter.SentAll(env)
    ensures !failed && AllFit(ById(ts), RecordWriter.Sent(early) + RecordWriter.SentAll(env)) ==>
              var s := Run(Init(4096), ops);
              && RecordReader.Delivered(calls) == Recs(s.popped)
              && (s.dropped == 0 ==> RecordReader.Delivered(calls) == RecordWriter.Sent(early) + RecordWriter.SentAll(env))
    ensures withTiming ==> RecordReader.OnSchedule(calls, now, e, c)
  {
    hide Run, Init, Offered, At, Log, Parse, LogFormat.Walk, RecordWriter.Sent, RecordWriter.SentAll, RecordReader.OnSchedule, RecordReader.Delivered, Recs, Extend, AllFit;
    calls := [];
    NothingYet(now, e, c);
    NothingOffered(4096);
    var f := new RecordWriter.AppendFile();
    var writer := new RecordWriter.RecordWriter(100);
    writer.PushBatch(early);
    var started, dropped;
    started, dropped, ops := RecordSession(writer, f, ts, createdAt, env, clock);
    failed := f.failed;
    var reader := new RecordReader.RecordReader(f.contents);
    var parsed := reader.ParseHeaderAndMetadata();
    if parsed {
      calls := reader.Walk(withTiming, now, e, c, signals);
    }
    ghost var popped := Run(Init(4096), ops).popped;
    assert popped[0..] == popped;
    if !failed && AllFit(ById(ts), Offered(ops)) {
      PoppedFit(4096, ops, ById(ts));
      FileReadsBack(createdAt, ts, Recs(popped), f.contents);
      if Run(Init(4096), ops).dropped == 0 { CompleteDrain(4096, ops); }
    }
  }

  lemma NothingYet(now: u64, e: nat -> nat, c: nat -> nat)
    ensures RecordReader.OnSchedule([], now, e, c)
  {
  }

  /** A well-sized log parses to the stored table, and walking it gives its records. */
  lemma FileReadsBack(createdAt: u64, ts: seq<Topic>, rs: seq<Record>, b: seq<byte>)
    requires |ts| < TWO_32 && AllFit(ById(ts), rs)
    requires b == Log(createdAt, ts, rs)
    ensures Parse(b).Some? && Parse(b).value.topics == Stored(ts) && Parse(b).value.start <= |b|
    ensures var p := Parse(b).value; LogFormat.Walk(b, p.start, ById(p.topics)) == rs
  {
    hide LogFormat.Walk, Parse, ById, Preamble, RecordsBytes, Stored;
    LogRoundTrip(createdAt, ts, rs);
    ParsePreamble(createdAt, ts, RecordsBytes(rs));
  }
}
