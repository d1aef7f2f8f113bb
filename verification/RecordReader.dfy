/** The reader object: parses the header and table, then walks the records, with or without
    pacing, proved against `LogFormat` and `ReplaySchedule`. */
module RecordReader {
  import opened Bits
  import opened WireFormat
  import opened LogFormat
  import opened ReplaySchedule

  /** One callback: its arguments and the moment it started. */
  datatype Call = Call(topicId: u16, stamp: u64, seqNo: u64, payload: seq<byte>, len: u32, at: nat)

  function Delivered(calls: seq<Call>): (rs: seq<Record>)
    ensures |rs| == |calls|
    ensures forall i :: 0 <= i < |calls| ==>
              rs[i] == Record(calls[i].topicId, calls[i].stamp, calls[i].seqNo, calls[i].payload)
  {
    seq(|calls|, i requires 0 <= i < |calls| =>
      Record(calls[i].topicId, calls[i].stamp, calls[i].seqNo, calls[i].payload))
  }

  function Stamps(rs: seq<Record>): (ss: seq<u64>)
    ensures |ss| == |rs| && forall i :: 0 <= i < |rs| ==> ss[i] == rs[i].stamp
  {
    seq(|rs|, i requires 0 <= i < |rs| => rs[i].stamp)
  }

  /** The entries read before a file is refused: none, unless only its table is cut short. */
  function PartialTable(b: seq<byte>): seq<Topic> {
    if |b| < FILE_HEADER_SIZE then []
    else match ParseFileHeader(b)
      case None => []
      case Some(h) => if h.version != FORMAT_VERSION then [] else TableTopics(b, (|b| - 32) / 38)
  }

  lemma Refused(b: seq<byte>)
    ensures |b| < FILE_HEADER_SIZE ==> Parse(b) == None && PartialTable(b) == []
    ensures |b| >= FILE_HEADER_SIZE && ParseFileHeader(b) == None ==> Parse(b) == None && PartialTable(b) == []
    ensures |b| >= FILE_HEADER_SIZE && ParseFileHeader(b).Some? && ParseFileHeader(b).value.version != FORMAT_VERSION ==>
              Parse(b) == None && PartialTable(b) == []
  {
    hide ParseFileHeader;
  }

  lemma Tabled(b: seq<byte>, h: FileHeader)
    requires |b| >= FILE_HEADER_SIZE && ParseFileHeader(b) == Some(h) && h.version == FORMAT_VERSION
    ensures Parse(b) == if TableEnd(h.topicCount) > |b| then None
                        else Some(Parsed(TableTopics(b, h.topicCount), TableEnd(h.topicCount)))
    ensures PartialTable(b) == TableTopics(b, (|b| - 32) / 38)
  {
    hide ParseFileHeader, TableTopics;
  }

  lemma TableCut(b: seq<byte>, i: nat, count: nat)
    requires TableEnd(i) <= |b| < TableEnd(i) + TOPIC_META_SIZE && i < count
    ensures i == (|b| - 32) / 38 && TableEnd(count) > |b|
  {
  }

  /** A timed replay of rs begun at `start` makes its i-th callback when the schedule says. */
  ghost predicate OnSchedule(calls: seq<Call>, start: u64, e: nat -> nat, c: nat -> nat) {
    forall i: nat :: i < |calls| ==>
      calls[i].at == StartAt(Targets(start, Stamps(Delivered(calls))), e, c, i)
  }

  function RecordOf(x: Call): Record { Record(x.topicId, x.stamp, x.seqNo, x.payload) }

  lemma DeliveredSnoc(calls: seq<Call>, x: Call)
    ensures Delivered(calls + [x]) == Delivered(calls) + [RecordOf(x)]
  {
  }

  lemma NothingDelivered(now: u64, e: nat -> nat, c: nat -> nat)
    ensures Delivered([]) == [] && OnSchedule([], now, e, c)
  {
  }

  /** The scheduler's variables between two callbacks. */
  ghost predicate Pace(calls: seq<Call>, haveT0: bool, t0: u64, start: u64, clock: nat, now: u64, c: nat -> nat) {
    if calls == [] then !haveT0 && clock == now
    else
      var n := |calls| - 1;
      haveT0 && t0 == calls[0].stamp && start == now && clock == calls[n].at + c(n)
  }

  lemma StampsSnoc(rs: seq<Record>, r: Record)
    ensures Stamps(rs + [r]) == Stamps(rs) + [r.stamp]
  {
  }

  lemma TargetsSnoc(start: u64, ss: seq<u64>, x: u64)
    ensures Targets(start, ss + [x]) == Targets(start, ss) + [Target(start, if ss == [] then x else ss[0], x)]
  {
  }

  /** A callback made after sleeping to its own deadline extends a schedule. */
  lemma NextOnSchedule(calls: seq<Call>, x: Call, now: u64, e: nat -> nat, c: nat -> nat)
    requires OnSchedule(calls, now, e, c)
    requires calls == [] ==> x.at == Max(now, Target(now, x.stamp, x.stamp)) + e(0)
    requires calls != [] ==>
               x.at == Max(calls[|calls| - 1].at + c(|calls| - 1), Target(now, calls[0].stamp, x.stamp)) + e(|calls|)
    ensures OnSchedule(calls + [x], now, e, c)
  {
    var all, n, ss := calls + [x], |calls|, Stamps(Delivered(calls));
    DeliveredSnoc(calls, x);
    StampsSnoc(Delivered(calls), RecordOf(x));
    TargetsSnoc(now, ss, x.stamp);
    assert n > 0 ==> ss[0] == calls[0].stamp;
    var tg, ext := Targets(now, ss), Targets(now, ss + [x.stamp]);
    hide Targets, Target, Stamps, Delivered;
    forall i: nat | i < |all| ensures all[i].at == StartAt(ext, e, c, i) {
      if i < n { StartAtPrefix(tg, ext, e, c, i); }
      if i == n && n > 0 { StartAtPrefix(tg, ext, e, c, n - 1); }
    }
  }

  /** A timed replay whose deadlines leave room for the previous delay and cost, without 64-bit
      overflow: every callback starts at its recorded distance from the first stamp, late only by
      its own wake-up delay; earlier stamps play at once. */
  lemma PacedSpacing(calls: seq<Call>, start: u64, e: nat -> nat, c: nat -> nat, i: nat)
    requires OnSchedule(calls, start, e, c) && i < |calls|
    requires start + Elapsed(calls[i].stamp, calls[0].stamp) < TWO_64
    requires forall k: nat :: k < i ==> Room(Targets(start, Stamps(Delivered(calls))), e, c, k)
    ensures calls[i].stamp >= calls[0].stamp ==> calls[i].at == start + (calls[i].stamp - calls[0].stamp) + e(i)
    ensures calls[i].stamp < calls[0].stamp ==> calls[i].at == start + e(i)
  {
    NoDrift(Targets(start, Stamps(Delivered(calls))), e, c, i);
  }

  /** If the deadline overflows 64 bits it wraps to before the start of the replay, so the record
      plays as soon as the previous callback is done. */
  lemma OverflowPlaysAtOnce(calls: seq<Call>, start: u64, e: nat -> nat, c: nat -> nat, i: nat)
    requires OnSchedule(calls, start, e, c) && i < |calls|
    requires start + Elapsed(calls[i].stamp, calls[0].stamp) >= TWO_64
    ensures i > 0 && calls[i].at == calls[i - 1].at + c(i - 1) + e(i)
  {
    var tg := Targets(start, Stamps(Delivered(calls)));
    assert tg[0] == start && tg[i] < start;
    NotBeforeStart(tg, e, c, i - 1);
  }

  /** Absolute sleep: the deadline is split into seconds and nanoseconds, and a sleep cut short
      by a signal is retried with the same deadline. `wakeups` are the interruption times. */
  method SleepUntil(now: nat, target: u64, delay: nat, wakeups: seq<nat>) returns (clock: nat)
    ensures clock == Max(now, target) + delay
  {
    var sec, nsec := target / 1_000_000_000, target % 1_000_000_000;
    var deadline := sec * 1_000_000_000 + nsec;
    clock := now;
    for i := 0 to |wakeups|
      invariant Max(clock, deadline) == Max(now, target)
    {
      clock := if wakeups[i] < deadline then Max(clock, wakeups[i]) else Max(clock, deadline);
    }
    clock := Max(clock, deadline) + delay;
  }

  class RecordReader {
    var base: seq<byte>
    var recordsStart: nat
    var topics: seq<Topic>
    var byId: TopicTable

    constructor (file: seq<byte>)
      ensures base == file && recordsStart == 0 && topics == [] && byId == map[]
    {
      base, recordsStart, topics, byId := file, 0, [], map[];
    }

    /** Succeeds exactly on files `Parse` accepts; a table that runs out of file keeps the
        entries read so far. */
    method ParseHeaderAndMetadata() returns (ok: bool)
      modifies this
      ensures base == old(base) && ok == Parse(base).Some?
      ensures ok ==> recordsStart == Parse(base).value.start
      ensures ok ==> topics == old(topics) + Parse(base).value.topics
      ensures ok ==> byId == Extend(old(byId), Parse(base).value.topics)
      ensures !ok ==> recordsStart == old(recordsStart)
      ensures !ok ==> topics == old(topics) + PartialTable(base) && byId == Extend(old(byId), PartialTable(base))
    {
      hide Parse, PartialTable, ParseFileHeader, TableTopics, TableEnd;
      assert topics + [] == topics && Extend(byId, []) == byId;
      var header := ReadHeader();
      if header.None? {
        return false;
      }
      Tabled(base, header.value);
      hide Extend;
      var i, offset := ParseTable(header.value.topicCount);
      if i < header.value.topicCount {
        TableCut(base, i, header.value.topicCount);
        return false;
      }
      recordsStart := offset;
      return true;
    }

    /** The three tests a header must pass: long enough, right magic, right version. */
    method ReadHeader() returns (h: Option<FileHeader>)
      ensures h.None? ==> Parse(base) == None && PartialTable(base) == []
      ensures h.Some? ==> |base| >= FILE_HEADER_SIZE && ParseFileHeader(base) == h && h.value.version == FORMAT_VERSION
    {
      Refused(base);
      hide Parse, PartialTable, ParseFileHeader;
      if |base| < FILE_HEADER_SIZE {
        return None;
      }
      h := DeserializeFileHeader(base);
      if h.None? {
        return None;
      }
      if h.value.version != FORMAT_VERSION {
        return None;
      }
    }

    /** The metadata loop: reads entries until all are in or the file ends. */
    method ParseTable(count: u32) returns (i: nat, offset: nat)
      requires |base| >= FILE_HEADER_SIZE
      modifies this`topics, this`byId
      ensures i <= count && offset == TableEnd(i) <= |base| && (i < count ==> TableEnd(i) + TOPIC_META_SIZE > |base|)
      ensures topics == old(topics) + TableTopics(base, i)
      ensures byId == Extend(old(byId), TableTopics(base, i))
    {
      hide TopicAt;
      offset := FILE_HEADER_SIZE;
      i := 0;
      while i < count
        invariant 0 <= i <= count && offset == TableEnd(i) <= |base|
        invariant topics == old(topics) + TableTopics(base, i)
        invariant byId == Extend(old(byId), TableTopics(base, i))
      {
        if offset + TOPIC_META_SIZE > |base| {
          return;
        }
        var resolved := ReadTopic(offset);
        offset := offset + TOPIC_META_SIZE;
        topics := topics + [resolved];
        byId := byId[resolved.topicId := resolved];
        i := i + 1;
        assert TableTopics(base, i)[..i - 1] == TableTopics(base, i - 1);
      }
    }

    method ReadTopic(offset: nat) returns (t: Topic)
      requires offset + TOPIC_META_SIZE <= |base|
      ensures t == TopicAt(base, offset)
    {
      var entry := DeserializeTopicMeta(base, offset);
      t := Topic(entry.topicId, entry.structSize, CStr(entry.name));
    }

    /** What remains to be delivered from offset completes what the whole walk delivers. */
    ghost predicate Progress(calls: seq<Call>, offset: nat)
      reads this
    {
      Delivered(calls) + LogFormat.Walk(base, offset, byId) == LogFormat.Walk(base, recordsStart, byId)
    }

    lemma ProgressNext(calls: seq<Call>, offset: nat, x: Call)
      requires Progress(calls, offset) && RecordAt(base, offset, byId) == Some(RecordOf(x))
      ensures Progress(calls + [x], offset + RECORD_HEADER_SIZE + |x.payload|)
    {
      hide RecordAt;
      DeliveredSnoc(calls, x);
      var rest := LogFormat.Walk(base, offset + RECORD_HEADER_SIZE + |x.payload|, byId);
      assert LogFormat.Walk(base, offset, byId) == [RecordOf(x)] + rest;
      assert Delivered(calls) + ([RecordOf(x)] + rest) == Delivered(calls) + [RecordOf(x)] + rest;
    }

    lemma ProgressDone(calls: seq<Call>, offset: nat)
      requires Progress(calls, offset) && RecordAt(base, offset, byId).None?
      ensures Delivered(calls) == LogFormat.Walk(base, recordsStart, byId)
    {
      hide RecordAt;
      assert LogFormat.Walk(base, offset, byId) == [];
    }

    /** The bounds and lookup tests of one iteration, as `RecordAt` sees them. */
    lemma Tests(offset: nat)
      ensures offset + RECORD_HEADER_SIZE > |base| ==> RecordAt(base, offset, byId).None?
      ensures offset + RECORD_HEADER_SIZE <= |base| ==>
                var h, p := ParseRecordHeader(base, offset), offset + RECORD_HEADER_SIZE;
                RecordAt(base, offset, byId) ==
                  if h.topicId !in byId || p + byId[h.topicId].wireSize > |base| then None
                  else Some(Record(h.topicId, h.stamp, h.seqNo, base[p..p + byId[h.topicId].wireSize]))
    {
    }

    /** Delivers the records the log holds, in order, paced or not; when paced, on schedule. */
    method Walk(withTiming: bool, now: u64, e: nat -> nat, c: nat -> nat, signals: nat -> seq<nat>) returns (calls: seq<Call>)
      ensures Delivered(calls) == LogFormat.Walk(base, recordsStart, byId)
      ensures forall i :: 0 <= i < |calls| ==> calls[i].len == |calls[i].payload|
      ensures withTiming ==> OnSchedule(calls, now, e, c)
    {
      hide RecordAt, OnSchedule, LogFormat.Walk, Delivered, ParseRecordHeader, Target;
      var offset := recordsStart;
      var haveT0, t0: u64, start: u64, clock: nat := false, 0, 0, now;
      calls := [];
      NothingDelivered(now, e, c);
      while offset + RECORD_HEADER_SIZE <= |base|
        invariant Progress(calls, offset)
        invariant forall i :: 0 <= i < |calls| ==> calls[i].len == |calls[i].payload|
        invariant withTiming ==> OnSchedule(calls, now, e, c) && Pace(calls, haveT0, t0, start, clock, now, c)
      {
        Tests(offset);
        var hdr := DeserializeRecordHeader(base, offset);
        if hdr.topicId !in byId {
          break;
        }
        var topic := byId[hdr.topicId];
        var payloadOffset := offset + RECORD_HEADER_SIZE;
        if payloadOffset + topic.wireSize > |base| {
          break;
        }
        if withTiming {
          if !haveT0 {
            t0 := hdr.stamp;
            start := clock;
            haveT0 := true;
          }
          clock := SleepUntil(clock, Target(start, t0, hdr.stamp), e(|calls|), signals(|calls|));
        }
        var call := Call(hdr.topicId, hdr.stamp, hdr.seqNo, base[payloadOffset..payloadOffset + topic.wireSize], topic.wireSize, clock);
        ProgressNext(calls, offset, call);
        if withTiming { NextOnSchedule(calls, call, now, e, c); }
        clock := clock + c(|calls|);
        calls := calls + [call];
        offset := payloadOffset + topic.wireSize;
      }
      Tests(offset);
      ProgressDone(calls, offset);
    }

    /** The public entry point repeats the paced walk. */
    method Run(now: u64, e: nat -> nat, c: nat -> nat, signals: nat -> seq<nat>) returns (calls: seq<Call>)
      ensures Delivered(calls) == LogFormat.Walk(base, recordsStart, byId)
      ensures forall i :: 0 <= i < |calls| ==> calls[i].len == |calls[i].payload|
      ensures OnSchedule(calls, now, e, c)
    {
      hide RecordAt, OnSchedule, LogFormat.Walk, Delivered, ParseRecordHeader, Target;
      var offset := recordsStart;
      var haveT0, t0: u64, start: u64, clock: nat := false, 0, 0, now;
      calls := [];
      NothingDelivered(now, e, c);
      while offset + RECORD_HEADER_SIZE <= |base|
        invariant Progress(calls, offset)
        invariant forall i :: 0 <= i < |calls| ==> calls[i].len == |calls[i].payload|
        invariant OnSchedule(calls, now, e, c) && Pace(calls, haveT0, t0, start, clock, now, c)
      {
        Tests(offset);
        var hdr := DeserializeRecordHeader(base, offset);
        if hdr.topicId !in byId {
          break;
        }
        var topic := byId[hdr.topicId];
        var payloadOffset := offset + RECORD_HEADER_SIZE;
        if payloadOffset + topic.wireSize > |base| {
          break;
        }
        if !haveT0 {
          t0 := hdr.stamp;
          start := clock;
          haveT0 := true;
        }
        clock := SleepUntil(clock, Target(start, t0, hdr.stamp), e(|calls|), signals(|calls|));
        var call := Call(hdr.topicId, hdr.stamp, hdr.seqNo, base[payloadOffset..payloadOffset + topic.wireSize], topic.wireSize, clock);
        ProgressNext(calls, offset, call);
        NextOnSchedule(calls, call, now, e, c);
        clock := clock + c(|calls|);
        calls := calls + [call];
        offset := payloadOffset + topic.wireSize;
      }
      Tests(offset);
      ProgressDone(calls, offset);
    }
  }
}
