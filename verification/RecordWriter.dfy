/** The writer object: header and table at Open, the drain loop of its thread interleaved with
    producers, the final drain, and Close; over an append-only file whose writes may be short
    or fail. */
module RecordWriter {
  import opened Bits
  import opened WireFormat
  import opened LogFormat
  import opened RingModel
  import opened RingTheorems
  import opened RingBuffer
  import opened FlushSchedule

  /** An append-only file. A write takes any positive number of bytes or fails. */
  class AppendFile {
    var contents: seq<byte>
    var synced: nat
    ghost var failed: bool

    constructor ()
      ensures contents == [] && synced == 0 && !failed
    {
      contents, synced, failed := [], 0, false;
    }

    method Write(data: seq<byte>) returns (n: int)
      requires data != []
      modifies this
      ensures synced == old(synced)
      ensures n < 0 ==> failed && contents == old(contents)
      ensures n >= 0 ==> 1 <= n <= |data| && contents == old(contents) + data[..n] && failed == old(failed)
    {
      if * {
        failed := true;
        return -1;
      }
      n :| 1 <= n <= |data|;
      contents := contents + data[..n];
    }

    method Fsync()
      modifies this`synced
      ensures synced == |contents|
    {
      synced := |contents|;
    }
  }

  /** Either all of data was appended, or a write failed and a proper prefix was. */
  twostate predicate Appended(f: AppendFile, data: seq<byte>, ok: bool)
    reads f
  {
    && f.synced == old(f.synced)
    && (ok ==> f.contents == old(f.contents) + data && f.failed == old(f.failed))
    && (!ok ==> f.failed && exists k :: 0 <= k < |data| && f.contents == old(f.contents) + data[..k])
  }

  /** Repeats short writes until everything is out; every schedule of positive writes works. */
  method WriteAll(f: AppendFile, data: seq<byte>) returns (ok: bool)
    modifies f
    ensures Appended(f, data, ok)
  {
    var p := 0;
    assert data[..0] == [];
    while |data| - p > 0
      invariant 0 <= p <= |data| && f.contents == old(f.contents) + data[..p]
      invariant f.synced == old(f.synced) && f.failed == old(f.failed)
    {
      var n := f.Write(data[p..]);
      if n < 0 {
        return false;
      }
      assert data[..p + n] == data[..p] + data[p..][..n];
      p := p + n;
    }
    assert data[..p] == data;
    return true;
  }

  datatype PushArgs = PushArgs(topicId: u16, stamp: u64, seqNo: u64, data: seq<byte>, len: u32)
  {
    predicate Readable() { len <= MAX_PAYLOAD ==> len <= |data| }
  }

  /** The records a batch of calls offers to the ring. */
  function Sent(batch: seq<PushArgs>): seq<Record>
    requires forall i :: 0 <= i < |batch| ==> batch[i].Readable()
  {
    if batch == [] then []
    else
      var m := |batch| - 1;
      assert batch[m].Readable();
      Sent(batch[..m]) + if batch[m].len > MAX_PAYLOAD then []
                         else [Record(batch[m].topicId, batch[m].stamp, batch[m].seqNo, batch[m].data[..batch[m].len])]
  }

  ghost predicate AllReadable(env: seq<seq<PushArgs>>) {
    forall i, j :: 0 <= i < |env| && 0 <= j < |env[i]| ==> env[i][j].Readable()
  }

  function SentAll(env: seq<seq<PushArgs>>): seq<Record>
    requires AllReadable(env)
  {
    if env == [] then [] else SentAll(env[..|env| - 1]) + Sent(env[|env| - 1])
  }

  /** Exactly the preamble and the first `covered` records of the file are on the disk for sure;
      before the first fsync nothing is, not even the preamble. */
  ghost predicate Durable(synced: nat, preamble: seq<byte>, written: seq<Record>, covered: nat) {
    && covered <= |written|
    && ((synced == 0 && covered == 0) || synced == |preamble| + |RecordsBytes(written[..covered])|)
  }

  /** Appending one more record. */
  lemma OneMore(synced: nat, preamble: seq<byte>, written: seq<Record>, covered: nat, r: Record)
    requires Durable(synced, preamble, written, covered)
    ensures Durable(synced, preamble, written + [r], covered)
    ensures preamble + RecordsBytes(written) + RecordBytes(r) == preamble + RecordsBytes(written + [r])
  {
    hide RecordsBytes, RecordBytes;
    assert (written + [r])[..covered] == written[..covered];
    RecordsBytesSnoc(written, r);
    ConcatAssociative(preamble, RecordsBytes(written), RecordBytes(r));
  }

  /** A file that holds only its preamble. */
  lemma EmptyFile(preamble: seq<byte>)
    ensures preamble == preamble + RecordsBytes([]) && Durable(0, preamble, [], 0)
  {
  }

  lemma NothingSince(es: seq<Entry>)
    ensures Recs(es[|es|..]) == []
  {
  }

  lemma DurableAll(preamble: seq<byte>, written: seq<Record>)
    ensures Durable(|preamble + RecordsBytes(written)|, preamble, written, |written|)
  {
    assert written[..|written|] == written;
  }

  /** What the thread starts from. */
  datatype Origin = Origin(flush: Flush, popped: seq<Entry>, ends: seq<nat>, synced: nat, failed: bool)

  class RecordWriter {
    const ring: MpscRingBuffer
    const flushInterval: nat
    var binFile: AppendFile?
    var shutdown: bool
    var joinable: bool
    var pending: u32
    var lastFlush: nat
    // Session history: the bytes before the records, the records written since Open, how many
    // pops preceded Open, how many of the records the last fsync covers; and how many records the
    // pending count still carries from sessions already closed.
    ghost var preamble: seq<byte>
    ghost var written: seq<Record>
    ghost var from: nat
    ghost var covered: nat
    ghost var carried: nat

    /** As long as no write has failed the file is the preamble and the records written, of which
        the last fsync covers a known number; the pending count is that of the others, plus what
        it carries over from earlier sessions, modulo 2^32. */
    ghost predicate Valid()
      reads this, ring, ring.slots, binFile
    {
      && ring.Valid() && ring.capacity == 4096
      && covered <= |written| && pending == Pending(Flushed(), |written|)
      && from <= |ring.Model().popped|
      && (binFile != null && !binFile.failed ==>
            binFile.contents == preamble + RecordsBytes(written) && Durable(binFile.synced, preamble, written, covered))
      && (joinable ==> binFile != null)
    }

    ghost function Flushed(): Flush
      reads this
    {
      Flush(covered, carried, lastFlush)
    }

    /** How many records had been popped at each pop that found nothing. */
    ghost function Ends(): seq<nat>
      requires ring.capacity > 0
      reads ring
    {
      FailedPops(Init(ring.capacity), ring.ops)
    }

    /** Every record popped since Open has been written. */
    ghost predicate Settled()
      reads this, ring
    {
      ring.capacity > 0 && from <= |ring.Model().popped| && written == Recs(ring.Model().popped[from..])
    }

    constructor (interval: nat)
      ensures Valid() && !joinable && binFile == null && fresh(ring) && fresh(ring.slots)
      ensures ring.capacity == 4096 && ring.ops == [] && flushInterval == interval
      ensures written == [] && covered == 0 && carried == 0
    {
      Pow2Is4096();
      assert RecordsBytes([]) == [];
      NothingPopped(4096);
      hide And, Pow2, RecordsBytes, Run, Init, Truncate32, Durable, Holds, Wrap;
      ring := new MpscRingBuffer(4096);
      flushInterval, binFile, shutdown, joinable, pending, lastFlush := interval, null, false, false, 0, 0;
      preamble, written, from, covered, carried := [], [], 0, 0, 0;
    }

    /** `Push` hands the call to the ring and touches nothing else. */
    method Push(a: PushArgs) returns (ok: bool)
      requires Valid() && a.Readable()
      modifies ring, ring.slots
      ensures Valid() && ring.Model().popped == old(ring.Model().popped) && Ends() == old(Ends())
      ensures Offered(ring.ops) == old(Offered(ring.ops)) + Sent([a])
      ensures a.len > MAX_PAYLOAD ==> !ok && ring.ops == old(ring.ops)
      ensures a.len <= MAX_PAYLOAD ==>
                var op := RingModel.Push(Record(a.topicId, a.stamp, a.seqNo, a.data[..a.len]));
                ring.ops == old(ring.ops) + [op] && PushOut(ok) == Step(old(ring.Model()), op).1
    {
      assert [a][..0] == [];
      ok := ring.TryPush(a.topicId, a.stamp, a.seqNo, a.data, a.len);
      if a.len <= MAX_PAYLOAD {
        ghost var op := RingModel.Push(Record(a.topicId, a.stamp, a.seqNo, a.data[..a.len]));
        OfferedSnoc(old(ring.ops), op);
        RunSnoc(Init(ring.capacity), old(ring.ops), op);
        FailedPopsSnoc(Init(ring.capacity), old(ring.ops), op);
      }
    }

    // -------------------------------------------------------------- opening

    method WriteTopic(f: AppendFile, t: Topic) returns (ok: bool)
      modifies f
      ensures Appended(f, TopicBytes(t), ok)
    {
      // snprintf bounds the name to 31 bytes and a NUL inside a zeroed 32-byte field
      var meta := TopicMetaEntry(t.topicId, t.wireSize, NameField(t.name));
      var buf := new byte[TOPIC_META_SIZE];
      assert 0 in meta.name by { assert StrLen(meta.name) < NAME_SIZE; }
      SerializeTopicMeta(meta, buf);
      NameFieldTwice(t.name);
      ok := WriteAll(f, buf[..]);
    }

    /** On success the file holds exactly the header and the table; on failure a proper prefix. */
    method WriteFileHeaderAndMetadata(f: AppendFile, ts: seq<Topic>, createdAt: u64) returns (ok: bool)
      requires f.contents == []
      modifies f
      ensures f.synced == old(f.synced)
      ensures ok ==> f.contents == Preamble(createdAt, ts) && f.failed == old(f.failed)
      ensures !ok ==> f.failed && f.contents < Preamble(createdAt, ts)
    {
      hide FileHeaderBytes, TopicBytes;
      var h := FileHeader(FORMAT_VERSION, Truncate32(|ts|), createdAt);
      var buf := new byte[FILE_HEADER_SIZE];
      SerializeFileHeader(h, buf);
      ok := WriteAll(f, buf[..]);
      if !ok {
        return false;
      }
      for i := 0 to |ts|
        invariant f.contents == FileHeaderBytes(h) + TableBytes(ts[..i]) && f.failed == old(f.failed)
        invariant f.synced == old(f.synced)
      {
        label before:
        ok := WriteTopic(f, ts[i]);
        assert ts[..i + 1][..i] == ts[..i];
        if !ok {
          TablePrefix(ts, i + 1);
          return false;
        }
      }
      assert ts[..|ts|] == ts;
      return true;
    }

    /** Begins a session on an empty file. */
    method BeginFile(f: AppendFile, ts: seq<Topic>, createdAt: u64) returns (ok: bool)
      requires Valid() && !joinable && f.contents == [] && f.synced == 0 && !f.failed
      modifies this`binFile, this`preamble, this`written, this`from, this`covered, this`carried, f
      ensures Valid() && binFile == f && preamble == Preamble(createdAt, ts) && written == []
      ensures ok ==> f.contents == preamble && f.synced == 0 && !f.failed && Settled() && from == |ring.Model().popped|
      ensures !ok ==> f.failed && f.contents < preamble
      ensures carried == Unsynced(old(Flushed()), |old(written)|)
    {
      EmptyFile(Preamble(createdAt, ts));
      NothingSince(ring.Model().popped);
      hide Preamble, Run, Durable, RecordsBytes, Truncate32, Init, Recs, MpscRingBuffer.Valid;
      binFile := f;
      carried := carried + (|written| - covered);
      preamble, written, covered, from := Preamble(createdAt, ts), [], 0, |ring.Model().popped|;
      ok := WriteFileHeaderAndMetadata(f, ts, createdAt);
    }

    /** `f` is the freshly truncated file, or null when the operating system refuses. The thread
        starts only once header and table are completely written. The pending count is not reset. */
    method Open(f: AppendFile?, ts: seq<Topic>, createdAt: u64, now: nat) returns (ok: bool)
      requires Valid() && !joinable && (f != null ==> f.contents == [] && f.synced == 0 && !f.failed)
      modifies this, f
      ensures Valid() && binFile == f && joinable == ok && ring.ops == old(ring.ops) && pending == old(pending)
      ensures f == null ==> !ok
      ensures ok ==> f.contents == Preamble(createdAt, ts) && !f.failed && !shutdown && Settled()
      ensures ok ==> preamble == Preamble(createdAt, ts) && written == [] && lastFlush == now
      ensures ok ==> from == |ring.Model().popped|
      ensures ok ==> f.synced == 0 && carried == Unsynced(old(Flushed()), |old(written)|)
      ensures !ok && f != null ==> f.failed && f.contents < Preamble(createdAt, ts)
    {
      hide Preamble, Run, Durable, RecordsBytes, Truncate32, Init, Recs, MpscRingBuffer.Valid;
      if f == null {
        binFile := null;
        return false;
      }
      ok := BeginFile(f, ts, createdAt);
      if !ok {
        return false;
      }
      lastFlush := now;
      shutdown := false;
      joinable := true;
    }

    // -------------------------------------------------------------- writing

    /** Appends header and payload of one record; only payload[..payloadLen] goes out. */
    static method AppendRecord(f: AppendFile, rec: PoppedRecord) returns (ok: bool)
      requires rec.Sized()
      modifies f
      ensures Appended(f, RecordBytes(rec.Record()), ok)
    {
      hide RecordHeaderBytes;
      var hdr := RecordHeader(rec.topicId, rec.stamp, rec.seqNo);
      var buf := new byte[RECORD_HEADER_SIZE];
      SerializeRecordHeader(hdr, buf);
      ghost var h, p := RecordHeaderBytes(hdr), rec.payload[..rec.payloadLen];
      ok := WriteAll(f, buf[..]);
      if !ok {
        ghost var k :| 0 <= k < |h| && f.contents == old(f.contents) + h[..k];
        assert (h + p)[..k] == h[..k];
        return false;
      }
      ok := WriteAll(f, rec.payload[..rec.payloadLen]);
      if !ok {
        ghost var k :| 0 <= k < |p| && f.contents == old(f.contents) + h + p[..k];
        assert (h + p)[..|h| + k] == h + p[..k];
        assert old(f.contents) + h + p[..k] == old(f.contents) + (h + p)[..|h| + k];
      } else {
        assert old(f.contents) + h + p == old(f.contents) + (h + p);
      }
    }

    method WriteRecord(rec: PoppedRecord) returns (ok: bool)
      requires Valid() && rec.Sized()
      modifies this`pending, this`written, binFile
      ensures Valid() && binFile == old(binFile)
      ensures binFile == null ==> !ok
      ensures binFile != null ==> Appended(binFile, RecordBytes(rec.Record()), ok)
      ensures ok ==> written == old(written) + [rec.Record()]
      ensures !ok ==> written == old(written)
    {
      if binFile == null {
        return false;
      }
      hide RecordsBytes, RecordBytes, Run, Pending, Truncate32, Durable, Init, MpscRingBuffer.Valid;
      ok := AppendRecord(binFile, rec);
      if !ok {
        return false;
      }
      if !binFile.failed { OneMore(binFile.synced, preamble, written, covered, rec.Record()); }
      PendingStep(Flushed(), |written|);
      pending := Truncate32(pending + 1);
      written := written + [rec.Record()];
    }

    /** Flushes at most once per interval, and only when something is pending. */
    method MaybeFlush(now: nat)
      requires Valid()
      modifies this`pending, this`lastFlush, this`covered, this`carried, binFile
      ensures Valid() && binFile == old(binFile)
      ensures binFile != null ==> binFile.contents == old(binFile.contents) && binFile.failed == old(binFile.failed)
      ensures Flushed() == FlushAt(old(Flushed()), flushInterval, |written|, now)
      ensures binFile != null ==>
                binFile.synced == if old(Due(Flushed(), flushInterval, |written|, now)) then |binFile.contents| else old(binFile.synced)
    {
      hide RecordsBytes, Run, Durable, Truncate32, MpscRingBuffer.Valid;
      NothingPending(Flush(|written|, 0, now), |written|);
      if pending == 0 {
        return;
      }
      if now - lastFlush < flushInterval {
        return;
      }
      if binFile != null {
        binFile.Fsync();
      }
      DurableAll(preamble, written);
      covered, carried := |written|, 0;
      pending := 0;
      lastFlush := now;
    }

    // -------------------------------------------------------------- the writer thread

    /** A batch of pushes, one after the other. */
    method PushBatch(batch: seq<PushArgs>)
      requires Valid() && forall i :: 0 <= i < |batch| ==> batch[i].Readable()
      modifies ring, ring.slots
      ensures Valid() && Offered(ring.ops) == old(Offered(ring.ops)) + Sent(batch)
      ensures ring.Model().popped == old(ring.Model().popped) && Ends() == old(Ends())
    {
      hide Run, Init, Sent, Offered, FailedPops, Pending, Durable, RecordsBytes, MpscRingBuffer.Valid;
      NothingSent();
      for i := 0 to |batch|
        invariant Valid() && ring.Model().popped == old(ring.Model().popped) && Ends() == old(Ends())
        invariant Offered(ring.ops) == old(Offered(ring.ops)) + Sent(batch[..i])
      {
        assert batch[i].Readable();
        var _ := Push(batch[i]);
        SentSnoc(batch[..i], batch[i]);
        assert batch[..i + 1] == batch[..i] + [batch[i]];
      }
      assert batch[..|batch|] == batch;
    }

    /** What other threads do before the writer's next access: the k-th batch of pushes, and the
        shutdown request once closeAt batches are in. */
    method Interfere(env: seq<seq<PushArgs>>, k: nat, closeAt: nat) returns (k': nat)
      requires Valid() && AllReadable(env) && k <= |env| && closeAt <= |env|
      modifies ring, ring.slots, this`shutdown
      ensures Valid() && k' == if k < |env| then k + 1 else k
      ensures Offered(ring.ops) == old(Offered(ring.ops)) + if k < |env| then Sent(env[k]) else []
      ensures ring.Model().popped == old(ring.Model().popped) && Ends() == old(Ends())
      ensures k == |env| ==> ring.Model() == old(ring.Model())
      ensures shutdown == (old(shutdown) || k' >= closeAt)
    {
      hide Run, Init, Sent, Offered, FailedPops, Pending, Durable, RecordsBytes, MpscRingBuffer.Valid;
      k' := k;
      if k < |env| {
        PushBatch(env[k]);
        k' := k + 1;
      }
      if k' >= closeAt {
        shutdown := true;
      }
    }

    /** What the thread keeps: all offered batches are accounted for, and as long as no write
        failed every popped record is in the file. */
    ghost predicate Draining(env: seq<seq<PushArgs>>, k: nat, start: seq<Record>)
      reads this, ring, ring.slots, binFile
    {
      && Valid() && binFile != null && AllReadable(env) && k <= |env|
      && Offered(ring.ops) == start + SentAll(env[..k])
      && (!binFile.failed ==> Settled())
    }

    /** The next batch, accounted for. */
    method NextBatch(env: seq<seq<PushArgs>>, k: nat, closeAt: nat, ghost start: seq<Record>) returns (k': nat)
      requires Draining(env, k, start) && closeAt <= |env|
      modifies ring, ring.slots, this`shutdown
      ensures Draining(env, k', start) && k' == if k < |env| then k + 1 else k
      ensures shutdown == (old(shutdown) || k' >= closeAt)
      ensures ring.Model().popped == old(ring.Model().popped) && Ends() == old(Ends())
      ensures k == |env| ==> ring.Model() == old(ring.Model())
    {
      hide Run, Init, Sent, SentAll, Offered, Recs, Durable, RecordsBytes, MpscRingBuffer.Valid, Pending, FailedPops;
      k' := Interfere(env, k, closeAt);
      if k < |env| {
        SentAllSnoc(env, k);
        assert start + (SentAll(env[..k]) + Sent(env[k])) == start + SentAll(env[..k]) + Sent(env[k]);
      }
    }

    /** Pops and writes until a pop finds nothing. */
    method Drain(env: seq<seq<PushArgs>>, k: nat, closeAt: nat, rec: PoppedRecord, ghost start: seq<Record>)
      returns (k': nat, rec': PoppedRecord, any: bool)
      requires Draining(env, k, start) && rec.Sized() && closeAt <= |env|
      modifies this`pending, this`written, this`shutdown, ring, ring.slots, binFile
      ensures Draining(env, k', start) && rec'.Sized() && binFile == old(binFile)
      ensures k <= k' && (k < |env| ==> k < k') && (old(binFile.failed) ==> binFile.failed)
      ensures At(ring.Model(), ring.Model().served).None?
      ensures shutdown == (old(shutdown) || k' >= closeAt) && binFile.synced == old(binFile.synced)
      ensures |old(written)| <= |written| && old(ring.Model().popped) <= ring.Model().popped
      ensures Ends() == old(Ends()) + [|ring.Model().popped|]
      ensures any <==> |old(ring.Model().popped)| < |ring.Model().popped|
    {
      hide Run, Init, FailedPops, Sent, SentAll, Offered, Recs, At, Truncate32, Durable, RecordsBytes, RecordBytes, Ready, Step, MpscRingBuffer.Valid;
      k', rec', any := k, rec, false;
      while true
        invariant Draining(env, k', start) && rec'.Sized() && binFile == old(binFile)
        invariant k <= k' && (any && k < |env| ==> k < k') && (old(binFile.failed) ==> binFile.failed)
        invariant shutdown == (old(shutdown) || (any && k' >= closeAt)) && binFile.synced == old(binFile.synced)
        invariant |old(written)| <= |written| && old(ring.Model().popped) <= ring.Model().popped
        invariant Ends() == old(Ends()) && (any <==> |old(ring.Model().popped)| < |ring.Model().popped|)
        decreases |env| - k', |Ready(ring.Model())|
      {
        k' := NextBatch(env, k', closeAt, start);
        var ok;
        ghost var ops := ring.ops;
        ok, rec' := ring.TryPop(rec');
        PopEffect(ring.capacity, ops, from);
        if !ok {
          break;
        }
        var _ := WriteRecord(rec');
        any := true;
      }
    }

    /** Every reading of the clock falls before the interval since the last flush has passed. */
    ghost predicate Early(clock: nat -> nat)
      reads this
    {
      forall i :: clock(i) < lastFlush + flushInterval
    }

    /** The readings of the clock so far, with counts[i] records written at reading i, have flushed
        what `Flushes` says, and nothing while they were early. */
    twostate predicate Readings(counts: seq<nat>, clock: nat -> nat)
      reads this, binFile
    {
      && Rising(old(covered), counts) && (counts != [] ==> counts[|counts| - 1] <= |written|)
      && Flushed() == Flushes(old(Flushed()), flushInterval, counts, clock)
      && (old(Early(clock)) ==> Flushed() == old(Flushed()))
    }

    /** The thread since it started in state o: what it has read off the clock, what it has popped
        and where its drains ended. As long as no write has failed there was one reading after each
        drain that popped something. */
    ghost predicate Progress(o: Origin, clock: nat -> nat, counts: seq<nat>, ends: seq<nat>)
      reads this, ring, binFile
    {
      && binFile != null && ring.capacity > 0 && (o.failed ==> binFile.failed)
      && Rising(o.flush.covered, counts) && (counts != [] ==> counts[|counts| - 1] <= |written|)
      && o.flush.covered <= |written| && Flushed() == Flushes(o.flush, flushInterval, counts, clock)
      && ((forall i :: clock(i) < o.flush.last + flushInterval) ==> Flushed() == o.flush && binFile.synced == o.synced)
      && o.popped <= ring.Model().popped && Ends() == o.ends + ends
      && Latest(|o.popped|, ends) == |ring.Model().popped|
      && (!binFile.failed ==> counts == Since(from, Busy(|o.popped|, ends)))
    }

    ghost function Now(): Origin
      requires binFile != null && ring.capacity > 0
      reads this, ring, binFile
    {
      Origin(Flushed(), ring.Model().popped, Ends(), binFile.synced, binFile.failed)
    }

    /** One turn of the loop: drain, then flush if anything was popped. */
    method Round(ghost o: Origin, env: seq<seq<PushArgs>>, k: nat, closeAt: nat, rec: PoppedRecord, clock: nat -> nat, readings: nat,
                 ghost start: seq<Record>, ghost counts: seq<nat>, ghost ends: seq<nat>)
      returns (k': nat, rec': PoppedRecord, readings': nat, ghost counts': seq<nat>, ghost ends': seq<nat>)
      requires Draining(env, k, start) && rec.Sized() && closeAt <= |env| && Progress(o, clock, counts, ends) && readings == |counts|
      modifies this`pending, this`written, this`shutdown, this`lastFlush, this`covered, this`carried, ring, ring.slots, binFile
      ensures Draining(env, k', start) && rec'.Sized() && binFile == old(binFile) && readings' == |counts'|
      ensures Progress(o, clock, counts', ends') && k <= k' && shutdown == (old(shutdown) || k' >= closeAt)
    {
      hide Run, Init, Sent, SentAll, Offered, Recs, At, Truncate32, Durable, RecordsBytes, MpscRingBuffer.Valid, Flushes, Pending, Rising, FailedPops, Busy, Since;
      var any: bool;
      k', rec', any := Drain(env, k, closeAt, rec, start);
      readings', counts' := readings, counts;
      ends' := ends + [|ring.Model().popped|];
      BusySnoc(from, |o.popped|, ends, |ring.Model().popped|);
      assert o.ends + ends + [|ring.Model().popped|] == o.ends + ends';
      if any {
        FlushesSnoc(o.flush, flushInterval, counts, clock, |written|);
        MaybeFlush(clock(readings));
        readings' := readings + 1;
        counts' := counts + [|written|];
      }
    }

    /** The last drain, which always ends in a reading. */
    method LastRound(ghost o: Origin, env: seq<seq<PushArgs>>, k: nat, closeAt: nat, rec: PoppedRecord, clock: nat -> nat, readings: nat,
                     ghost start: seq<Record>, ghost counts: seq<nat>, ghost ends: seq<nat>)
      returns (k': nat, ghost counts': seq<nat>, ghost ends': seq<nat>)
      requires Draining(env, k, start) && rec.Sized() && closeAt <= |env| && Progress(o, clock, counts, ends) && readings == |counts|
      modifies this`pending, this`written, this`shutdown, this`lastFlush, this`covered, this`carried, ring, ring.slots, binFile
      ensures Draining(env, k', start) && binFile == old(binFile) && k <= k' && shutdown == (old(shutdown) || k' >= closeAt)
      ensures At(ring.Model(), ring.Model().served).None? && o.popped <= ring.Model().popped && (o.failed ==> binFile.failed)
      ensures Rising(o.flush.covered, counts') && counts' != [] && counts'[|counts'| - 1] == |written|
      ensures Flushed() == Flushes(o.flush, flushInterval, counts', clock)
      ensures (forall i :: clock(i) < o.flush.last + flushInterval) ==> Flushed() == o.flush && binFile.synced == o.synced
      ensures ends' != [] && Ends() == o.ends + ends'
      ensures !binFile.failed ==> counts' == ReadingsOf(from, |o.popped|, ends')
    {
      hide Run, Init, Sent, SentAll, Offered, Recs, At, Truncate32, Durable, RecordsBytes, MpscRingBuffer.Valid, Flushes, Pending, Rising, FailedPops, Busy, Since, ReadingsOf;
      var any, rec';
      k', rec', any := Drain(env, k, closeAt, rec, start);
      ends' := ends + [|ring.Model().popped|];
      BusySnoc(from, |o.popped|, ends, |ring.Model().popped|);
      assert o.ends + ends + [|ring.Model().popped|] == o.ends + ends';
      FlushesSnoc(o.flush, flushInterval, counts, clock, |written|);
      MaybeFlush(clock(readings));
      counts' := counts + [|written|];
    }

    /** The thread body: drain, flush or sleep until shutdown is seen, then drain once more. Other
        threads act before every pop and before every look at the shutdown flag, so pushes and the
        request to shut down may arrive together after a pop that found nothing; the last drain
        takes them. `clock` gives the successive readings of the clock and `counts` the records
        written at each: one reading for every drain that popped something, and one at the end. */
    method WriterThreadMain(env: seq<seq<PushArgs>>, closeAt: nat, clock: nat -> nat, ghost start: seq<Record>)
      returns (k: nat, ghost counts: seq<nat>, ghost ends: seq<nat>)
      requires Draining(env, 0, start) && closeAt <= |env| && !shutdown
      modifies this`pending, this`written, this`shutdown, this`lastFlush, this`covered, this`carried, ring, ring.slots, binFile
      ensures Draining(env, k, start) && closeAt <= k && binFile == old(binFile) && shutdown
      ensures old(binFile.failed) ==> binFile.failed
      ensures At(ring.Model(), ring.Model().served).None? && old(ring.Model().popped) <= ring.Model().popped
      ensures Readings(counts, clock) && counts != [] && counts[|counts| - 1] == |written|
      ensures old(Early(clock)) ==> binFile.synced == old(binFile.synced)
      ensures ends != [] && Ends() == old(Ends()) + ends
      ensures !binFile.failed ==> counts == ReadingsOf(from, old(|ring.Model().popped|), ends)
    {
      NoReadings(Flushed(), flushInterval, clock);
      NothingBusy(from, |ring.Model().popped|);
      ghost var o := Now();
      hide Run, Init, Sent, SentAll, Offered, Recs, At, Truncate32, Durable, RecordsBytes, MpscRingBuffer.Valid, Flushes, Pending, Rising, FailedPops, Busy, Since, ReadingsOf;
      assert o.ends + [] == o.ends;
      assert Progress(o, clock, [], []);
      hide Progress;
      var rec := PoppedRecord(0, 0, 0, 0, Zeros(MAX_PAYLOAD));
      var readings := 0;
      counts, ends := [], [];
      k := Elsewhere(o, env, 0, closeAt, clock, start, counts, ends);
      while !shutdown
        invariant Draining(env, k, start) && rec.Sized() && binFile == old(binFile)
        invariant shutdown == (k >= closeAt) && readings == |counts| && Progress(o, clock, counts, ends)
        decreases |env| - k
      {
        k, rec, readings, counts, ends := Round(o, env, k, closeAt, rec, clock, readings, start, counts, ends);
        k := Elsewhere(o, env, k, closeAt, clock, start, counts, ends);
      }
      k, counts, ends := LastRound(o, env, k, closeAt, rec, clock, readings, start, counts, ends);
    }

    /** Other threads act while the writer thread is not at the ring: flushing, sleeping, or about
        to look at the shutdown flag. */
    method Elsewhere(ghost o: Origin, env: seq<seq<PushArgs>>, k: nat, closeAt: nat, clock: nat -> nat,
                     ghost start: seq<Record>, ghost counts: seq<nat>, ghost ends: seq<nat>) returns (k': nat)
      requires Draining(env, k, start) && closeAt <= |env| && Progress(o, clock, counts, ends)
      modifies ring, ring.slots, this`shutdown
      ensures Draining(env, k', start) && k' == (if k < |env| then k + 1 else k) && Progress(o, clock, counts, ends)
      ensures shutdown == (old(shutdown) || k' >= closeAt)
    {
      hide Run, Init, Sent, SentAll, Offered, Recs, Durable, RecordsBytes, MpscRingBuffer.Valid, Pending, FailedPops, Flushes, Rising, Busy, Since;
      k' := NextBatch(env, k, closeAt, start);
    }

    /** Requests shutdown and waits for the thread, whose accesses were interleaved with the
        batches of env. */
    method Join(env: seq<seq<PushArgs>>, closeAt: nat, clock: nat -> nat) returns (k: nat, ghost counts: seq<nat>, ghost ends: seq<nat>)
      requires Valid() && AllReadable(env) && closeAt <= |env| && joinable && !shutdown && Settled()
      modifies this`pending, this`written, this`shutdown, this`lastFlush, this`covered, this`carried, this`joinable, ring, ring.slots, binFile
      ensures Valid() && !joinable && (!binFile.failed ==> Settled()) && binFile == old(binFile)
      ensures closeAt <= k <= |env| && Offered(ring.ops) == old(Offered(ring.ops)) + SentAll(env[..k])
      ensures At(ring.Model(), ring.Model().served).None? && old(ring.Model().popped) <= ring.Model().popped
      ensures Readings(counts, clock) && counts != [] && counts[|counts| - 1] == |written|
      ensures pending == 0 <==> ClearedAtLast(old(Flushed()), flushInterval, counts, clock)
      ensures ends != [] && Ends() == old(Ends()) + ends
      ensures !binFile.failed ==> counts == ReadingsOf(from, old(|ring.Model().popped|), ends)
    {
      hide Run, Init, Sent, SentAll, Offered, Recs, At, Truncate32, Durable, RecordsBytes, MpscRingBuffer.Valid, Flushes, Rising, ClearedAtLast, FailedPops, ReadingsOf;
      NothingSentAll(env);
      k, counts, ends := WriterThreadMain(env, closeAt, clock, Offered(ring.ops));
      ClearedExactly(old(Flushed()), flushInterval, counts, clock);
      joinable := false;
    }

    /** Joins the thread, then syncs and closes. The sync leaves the pending count as the thread
        left it, so it carries over to the next session; it is zero exactly when nothing was pending
        at the last reading of the clock or the interval had passed by then. A second Close changes
        nothing. */
    method Close(env: seq<seq<PushArgs>>, closeAt: nat, clock: nat -> nat) returns (k: nat, ghost counts: seq<nat>)
      requires Valid() && AllReadable(env) && closeAt <= |env| && (joinable ==> !shutdown && Settled())
      modifies this, ring, ring.slots, binFile
      ensures Valid() && binFile == null && !joinable
      ensures old(joinable) ==>
                && closeAt <= k <= |env| && Offered(ring.ops) == old(Offered(ring.ops)) + SentAll(env[..k])
                && At(ring.Model(), ring.Model().served).None?
                && preamble == old(preamble) && from == old(from) && old(ring.Model().popped) <= ring.Model().popped
      ensures var f := old(binFile);
              old(joinable) && !f.failed ==>
                Settled() && f.contents == preamble + RecordsBytes(written) && f.synced == |f.contents|
      ensures old(binFile != null) ==> covered == |written|
      ensures old(joinable) ==>
                && Rising(old(covered), counts) && counts != [] && counts[|counts| - 1] == |written|
                && carried == Unsynced(Flushes(old(Flushed()), flushInterval, counts, clock), |written|)
                && (pending == 0 <==> ClearedAtLast(old(Flushed()), flushInterval, counts, clock))
      ensures old(!joinable) ==> ring.ops == old(ring.ops) && written == old(written) && pending == old(pending)
      ensures old(!joinable && binFile != null) ==>
                var f := old(binFile); f.contents == old(binFile.contents) && f.synced == |f.contents| && f.failed == old(binFile.failed)
    {
      hide Run, Init, Sent, SentAll, Offered, Recs, At, Truncate32, Durable, RecordsBytes, MpscRingBuffer.Valid, Flushes, Rising, ClearedAtLast, FailedPops, ReadingsOf;
      k, counts := 0, [];
      if joinable {
        ghost var ends;
        k, counts, ends := Join(env, closeAt, clock);
      }
      if binFile != null {
        binFile.Fsync();
        binFile := null;
        carried := carried + (|written| - covered);
        covered := |written|;
      }
    }
  }

  lemma NothingSentAll(env: seq<seq<PushArgs>>)
    ensures AllReadable(env[..0]) && SentAll(env[..0]) == []
  {
  }

  lemma NothingSent()
    ensures Sent([]) == []
  {
  }

  lemma SentSnoc(batch: seq<PushArgs>, a: PushArgs)
    requires a.Readable() && forall i :: 0 <= i < |batch| ==> batch[i].Readable()
    ensures Sent(batch + [a]) == Sent(batch) + Sent([a])
  {
    assert (batch + [a])[..|batch|] == batch;
    assert [a][..0] == [];
  }

  lemma SentAllSnoc(env: seq<seq<PushArgs>>, k: nat)
    requires AllReadable(env) && k < |env|
    ensures AllReadable(env[..k]) && AllReadable(env[..k + 1])
    ensures SentAll(env[..k + 1]) == SentAll(env[..k]) + Sent(env[k])
  {
    assert env[..k + 1][..k] == env[..k];
  }

  /** What one pop does to the run: nothing, or one more record served. */
  lemma PopEffect(n: nat, ops: seq<Op>, from: nat)
    requires n > 0 && from <= |Run(Init(n), ops).popped|
    ensures Offered(ops + [Pop]) == Offered(ops)
    ensures Step(Run(Init(n), ops), Pop).1.PopOut?
    ensures FailedPops(Init(n), ops + [Pop])
         == FailedPops(Init(n), ops) + if Step(Run(Init(n), ops), Pop).1 == PopOut(None) then [|Run(Init(n), ops).popped|] else []
    ensures var s, s' := Run(Init(n), ops), Run(Init(n), ops + [Pop]);
            Step(s, Pop).1 == PopOut(None) ==> s' == s && At(s, s.served).None?
    ensures var s, s' := Run(Init(n), ops), Run(Init(n), ops + [Pop]);
            Step(s, Pop).1 != PopOut(None) ==>
              && from <= |s'.popped| && |Ready(s')| < |Ready(s)| && s.popped <= s'.popped && |s'.popped| == |s.popped| + 1
              && Recs(s'.popped[from..]) == Recs(s.popped[from..]) + [Step(s, Pop).1.rec.value]
  {
    OfferedSnoc(ops, Pop);
    RunSnoc(Init(n), ops, Pop);
    FailedPopsSnoc(Init(n), ops, Pop);
    var s := Run(Init(n), ops);
    hide Run, SlotOf;
    var k := SlotOf(s.served, |s.slots|);
    if s.slots[k].Some? {
      RecsTail(s.popped, s.slots[k].value, from);
      assert Ready(PopStep(s).0) == Ready(s) - {k};
      assert k in Ready(s);
    }
  }

  lemma NameFieldTwice(name: seq<byte>)
    ensures NameField(NameField(name)) == NameField(name)
  {
    assert CStr(NameField(name)) == StoredName(name);
    assert StoredName(NameField(name)) == StoredName(name);
  }

  lemma {:induction false} TablePrefix(ts: seq<Topic>, i: nat)
    requires i <= |ts|
    ensures TableBytes(ts[..i]) <= TableBytes(ts)
  {
    hide TopicBytes;
    if i == |ts| {
      assert ts[..i] == ts;
    } else {
      var m := |ts| - 1;
      TablePrefix(ts[..m], i);
      assert ts[..m][..i] == ts[..i];
    }
  }

  lemma NothingPopped(n: nat)
    requires n > 0
    ensures Run(Init(n), []).popped == [] && Pending(Flush(0, 0, 0), 0) == 0
  {
  }

  lemma Pow2Is4096()
    ensures And(4096, 4095) == 0
  {
    assert Pow2(4) == 16;
    Pow2Byte(4);
    PowerOfTwoTest(4096);
    assert 4096 == Pow2(12);
  }
}
