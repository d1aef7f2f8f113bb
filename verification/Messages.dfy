/** Messages through the whole program: set-up, subscription callbacks, ring, writer, file, reader,
    advertising, dispatch and decoding. */
module Messages {
  import opened Bits
  import opened WireFormat
  import opened LogFormat
  import opened RingModel
  import opened RingTheorems
  import opened TopicRegistry
  import opened EndToEnd
  import I = RingInterleaved
  import IT = RingInterleavedTheorems
  import RingBuffer
  import RecordReader
  import RecordWriter
  import GenericRecorder
  import GenericReplayer

  // ---------------------------------------------------------------- decoding what was encoded

  predicate Kinds<V>(types: seq<TopicType<V>>, samples: seq<Sample<V>>) {
    forall i :: 0 <= i < |samples| ==> samples[i].kind < |types|
  }

  /** Samples of types that are recorded, each a value of its type. */
  ghost predicate AllProper<V>(types: seq<TopicType<V>>, on: nat -> bool, samples: seq<Sample<V>>) {
    Kinds(types, samples) && forall i :: 0 <= i < |samples| ==> Proper(types, samples[i]) && on(samples[i].kind)
  }

  function RecordsFor<V>(types: seq<TopicType<V>>, samples: seq<Sample<V>>): (rs: seq<Record>)
    requires Kinds(types, samples)
    ensures |rs| == |samples| && forall i :: 0 <= i < |samples| ==> rs[i] == RecordFor(types, samples[i])
  {
    seq(|samples|, i requires 0 <= i < |samples| => RecordFor(types, samples[i]))
  }

  /** What replay should publish: the recorded values and stamps, in order. */
  function Republished<V>(samples: seq<Sample<V>>): seq<GenericReplayer.Publication<V>> {
    seq(|samples|, i requires 0 <= i < |samples| =>
      GenericReplayer.Publication(samples[i].kind, samples[i].value, samples[i].stamp))
  }

  /** One recorded sample is republished as itself by whoever opened the recorded table. */
  lemma SampleSurvives<V(!new)>(types: seq<TopicType<V>>, on: nat -> bool, adv: set<nat>, s: Sample<V>)
    requires LawfulList(types) && Proper(types, s) && on(s.kind)
    requires GenericReplayer.Opened(types, adv, Stored(GenericRecorder.Announced(types, on)))
    ensures var r := RecordFor(types, s);
            && Fits(ById(Stored(GenericRecorder.Announced(types, on))), r)
            && GenericReplayer.Dispatch(types, r) == [GenericReplayer.Publication(s.kind, s.value, s.stamp)]
  {
    var ts, r := GenericRecorder.Announced(types, on), RecordFor(types, s);
    GenericRecorder.RecordsAgree(types, on, s);
    StoredTable(ts);
    assert Lawful(types[s.kind]);
    GenericReplayer.DispatchOnce(types, r, s.kind);
  }

  lemma {:induction false} SamplesSurvive<V(!new)>(types: seq<TopicType<V>>, on: nat -> bool, adv: set<nat>, samples: seq<Sample<V>>)
    requires LawfulList(types) && AllProper(types, on, samples)
    requires GenericReplayer.Opened(types, adv, Stored(GenericRecorder.Announced(types, on)))
    ensures var rs := RecordsFor(types, samples);
            && AllFit(ById(GenericRecorder.Announced(types, on)), rs)
            && GenericReplayer.Decodable(types, rs) && GenericReplayer.DispatchAll(types, rs) == Republished(samples)
  {
    hide GenericReplayer.Dispatch, GenericReplayer.Opened, LawfulList, ById, Stored, GenericRecorder.Announced, RecordFor, Fits, AllFit, Republished;
    AllRecordsFit(types, on, adv, samples);
    NothingRepublished<V>();
    if samples != [] {
      var m := |samples| - 1;
      SamplesSurvive(types, on, adv, samples[..m]);
      assert RecordsFor(types, samples)[..m] == RecordsFor(types, samples[..m]);
      SampleSurvives(types, on, adv, samples[m]);
      RepublishedSnoc(samples[..m], samples[m]);
      assert samples[..m] + [samples[m]] == samples;
    }
  }

  lemma NothingRepublished<V>()
    ensures Republished<V>([]) == []
  {
  }

  lemma RepublishedSnoc<V>(samples: seq<Sample<V>>, s: Sample<V>)
    ensures Republished(samples + [s]) == Republished(samples) + [GenericReplayer.Publication(s.kind, s.value, s.stamp)]
  {
  }

  lemma AllRecordsFit<V(!new)>(types: seq<TopicType<V>>, on: nat -> bool, adv: set<nat>, samples: seq<Sample<V>>)
    requires LawfulList(types) && AllProper(types, on, samples)
    requires GenericReplayer.Opened(types, adv, Stored(GenericRecorder.Announced(types, on)))
    ensures AllFit(ById(GenericRecorder.Announced(types, on)), RecordsFor(types, samples))
    ensures GenericReplayer.Decodable(types, RecordsFor(types, samples))
  {
    hide GenericReplayer.Dispatch, GenericReplayer.Opened, LawfulList, ById, Stored, GenericRecorder.Announced, RecordFor, Fits;
    var ts, rs := GenericRecorder.Announced(types, on), RecordsFor(types, samples);
    forall i | 0 <= i < |rs| ensures Fits(ById(ts), rs[i]) && Fits(ById(Stored(ts)), rs[i]) {
      GenericRecorder.RecordsAgree(types, on, samples[i]);
      SampleSurvives(types, on, adv, samples[i]);
    }
    ListDistinct(types);
    GenericReplayer.ServedDecodable(types, adv, Stored(ts), rs);
  }

  lemma ListDistinct<V(!new)>(types: seq<TopicType<V>>)
    requires LawfulList(types)
    ensures DistinctIds(types)
  {
  }

  // ---------------------------------------------------------------- what the callbacks push

  /** A sample whose type fits a slot of the ring. */
  predicate Slim<V>(types: seq<TopicType<V>>, s: Sample<V>)
    requires s.kind < |types|
  {
    types[s.kind].wireSize <= MAX_PAYLOAD
  }

  predicate AllSlim<V>(types: seq<TopicType<V>>, samples: seq<Sample<V>>)
    requires Kinds(types, samples)
  {
    forall i :: 0 <= i < |samples| ==> Slim(types, samples[i])
  }

  /** The samples whose type fits a slot. */
  function Narrow<V>(types: seq<TopicType<V>>, samples: seq<Sample<V>>): (ns: seq<Sample<V>>)
    requires Kinds(types, samples)
    ensures Kinds(types, ns)
  {
    if samples == [] then []
    else
      var m := |samples| - 1;
      Narrow(types, samples[..m]) + if Slim(types, samples[m]) then [samples[m]] else []
  }

  lemma NarrowSnoc<V>(types: seq<TopicType<V>>, samples: seq<Sample<V>>)
    requires Kinds(types, samples) && samples != []
    ensures var m := |samples| - 1;
            Narrow(types, samples) == Narrow(types, samples[..m]) + if Slim(types, samples[m]) then [samples[m]] else []
  {
  }

  lemma AllSlimSnoc<V>(types: seq<TopicType<V>>, samples: seq<Sample<V>>)
    requires Kinds(types, samples) && samples != []
    ensures var m := |samples| - 1;
            AllSlim(types, samples) <==> AllSlim(types, samples[..m]) && Slim(types, samples[m])
  {
    hide Slim;
    var m := |samples| - 1;
    if AllSlim(types, samples[..m]) && Slim(types, samples[m]) {
      forall i | 0 <= i < |samples| ensures Slim(types, samples[i]) {
        if i < m { assert samples[..m][i] == samples[i]; }
      }
    }
    if AllSlim(types, samples) {
      forall i | 0 <= i < m ensures Slim(types, samples[..m][i]) { assert samples[..m][i] == samples[i]; }
    }
  }

  lemma {:induction false} NarrowLength<V>(types: seq<TopicType<V>>, samples: seq<Sample<V>>)
    requires Kinds(types, samples)
    ensures |Narrow(types, samples)| <= |samples|
    ensures AllSlim(types, samples) ==> Narrow(types, samples) == samples
    ensures !AllSlim(types, samples) ==> |Narrow(types, samples)| < |samples|
  {
    if samples != [] {
      var m := |samples| - 1;
      AllSlimSnoc(types, samples);
      NarrowSnoc(types, samples);
      NarrowLength(types, samples[..m]);
      hide Narrow, Slim, AllSlim, Kinds;
      assert samples == samples[..m] + [samples[m]];
    }
  }

  lemma {:induction false} NarrowProper<V>(types: seq<TopicType<V>>, on: nat -> bool, samples: seq<Sample<V>>)
    requires AllProper(types, on, samples)
    ensures AllProper(types, on, Narrow(types, samples))
  {
    if samples != [] { NarrowProper(types, on, samples[..|samples| - 1]); }
  }

  ghost predicate BatchesProper<V>(types: seq<TopicType<V>>, on: nat -> bool, batches: seq<seq<Sample<V>>>) {
    forall i :: 0 <= i < |batches| ==> AllProper(types, on, batches[i])
  }

  lemma {:induction false} FlatProper<V>(types: seq<TopicType<V>>, on: nat -> bool, batches: seq<seq<Sample<V>>>)
    requires BatchesProper(types, on, batches)
    ensures AllProper(types, on, Flat(batches))
  {
    if batches != [] { FlatProper(types, on, batches[..|batches| - 1]); }
  }

  /** The pushes the callbacks of a batch of samples make. */
  function PushesFor<V>(types: seq<TopicType<V>>, batch: seq<Sample<V>>): (ps: seq<RecordWriter.PushArgs>)
    requires Kinds(types, batch)
    ensures |ps| == |batch| && forall i :: 0 <= i < |batch| ==> ps[i] == GenericRecorder.ArgsFor(types, batch[i])
  {
    seq(|batch|, i requires 0 <= i < |batch| => GenericRecorder.ArgsFor(types, batch[i]))
  }

  function BatchesFor<V>(types: seq<TopicType<V>>, batches: seq<seq<Sample<V>>>): (env: seq<seq<RecordWriter.PushArgs>>)
    requires forall i :: 0 <= i < |batches| ==> Kinds(types, batches[i])
    ensures |env| == |batches| && forall i :: 0 <= i < |batches| ==> env[i] == PushesFor(types, batches[i])
  {
    seq(|batches|, i requires 0 <= i < |batches| => PushesFor(types, batches[i]))
  }

  lemma PushesReadable<V(!new)>(types: seq<TopicType<V>>, on: nat -> bool, batch: seq<Sample<V>>)
    requires LawfulList(types) && AllProper(types, on, batch)
    ensures forall i :: 0 <= i < |batch| ==> PushesFor(types, batch)[i].Readable()
  {
    forall i | 0 <= i < |batch| ensures PushesFor(types, batch)[i].Readable() {
      GenericRecorder.SampleSent(types, batch[i]);
    }
  }

  lemma {:induction false} PushesSent<V(!new)>(types: seq<TopicType<V>>, on: nat -> bool, batch: seq<Sample<V>>)
    requires LawfulList(types) && AllProper(types, on, batch)
    ensures forall i :: 0 <= i < |batch| ==> PushesFor(types, batch)[i].Readable()
    ensures RecordWriter.Sent(PushesFor(types, batch)) == RecordsFor(types, Narrow(types, batch))
  {
    PushesReadable(types, on, batch);
    if batch != [] {
      hide LawfulList, GenericRecorder.ArgsFor, RecordFor, Proper, RecordWriter.PushArgs.Readable;
      var m := |batch| - 1;
      var ps := PushesFor(types, batch);
      PushesSent(types, on, batch[..m]);
      assert ps[..m] == PushesFor(types, batch[..m]);
      assert ps == ps[..m] + [ps[m]];
      GenericRecorder.SampleSent(types, batch[m]);
      RecordWriter.SentSnoc(ps[..m], ps[m]);
      hide RecordWriter.Sent;
    }
  }

  lemma BatchesReadable<V(!new)>(types: seq<TopicType<V>>, on: nat -> bool, batches: seq<seq<Sample<V>>>)
    requires LawfulList(types) && BatchesProper(types, on, batches)
    ensures RecordWriter.AllReadable(BatchesFor(types, batches))
  {
    var env: seq<seq<RecordWriter.PushArgs>> := BatchesFor(types, batches);
    forall i: nat, j: nat | 0 <= i < |env| && 0 <= j < |env[i]| ensures env[i][j].Readable() {
      PushesReadable(types, on, batches[i]);
    }
  }

  /** The callbacks offer the ring exactly the records of the samples that fit a slot. */
  lemma {:induction false} BatchesSent<V(!new)>(types: seq<TopicType<V>>, on: nat -> bool, batches: seq<seq<Sample<V>>>)
    requires LawfulList(types) && BatchesProper(types, on, batches)
    ensures RecordWriter.AllReadable(BatchesFor(types, batches)) && Kinds(types, Flat(batches))
    ensures RecordWriter.SentAll(BatchesFor(types, batches)) == RecordsFor(types, Narrow(types, Flat(batches)))
  {
    BatchesReadable(types, on, batches);
    FlatProper(types, on, batches);
    if batches != [] {
      hide LawfulList, RecordWriter.Sent, Narrow, PushesFor, Proper, RecordsFor, AllProper;
      var m, env := |batches| - 1, BatchesFor(types, batches);
      BatchesSent(types, on, batches[..m]);
      FlatProper(types, on, batches[..m]);
      assert env[..m] == BatchesFor(types, batches[..m]);
      ProperKinds(types, on, batches[m]);
      PushesSent(types, on, batches[m]);
      NarrowConcat(types, Flat(batches[..m]), batches[m]);
      RecordsConcat(types, Narrow(types, Flat(batches[..m])), Narrow(types, batches[m]));
    }
  }

  lemma ProperKinds<V>(types: seq<TopicType<V>>, on: nat -> bool, samples: seq<Sample<V>>)
    requires AllProper(types, on, samples)
    ensures Kinds(types, samples)
  {
  }

  lemma RecordsConcat<V>(types: seq<TopicType<V>>, a: seq<Sample<V>>, b: seq<Sample<V>>)
    requires Kinds(types, a) && Kinds(types, b)
    ensures RecordsFor(types, a + b) == RecordsFor(types, a) + RecordsFor(types, b)
  {
    hide RecordFor;
  }

  lemma {:induction false} NarrowConcat<V>(types: seq<TopicType<V>>, a: seq<Sample<V>>, b: seq<Sample<V>>)
    requires Kinds(types, a) && Kinds(types, b)
    ensures Narrow(types, a + b) == Narrow(types, a) + Narrow(types, b)
  {
    if b == [] {
      assert a + b == a;
    } else {
      var m := |b| - 1;
      NarrowConcat(types, a, b[..m]);
      hide Slim;
      assert (a + b)[..|a| + m] == a + b[..m] && (a + b)[|a| + m] == b[m];
      NarrowSnoc(types, a + b);
      NarrowSnoc(types, b);
      hide Narrow, Kinds;
    }
  }

  // ---------------------------------------------------------------- opening what was recorded

  lemma OwnTopicGranted<V>(types: seq<TopicType<V>>, i: nat, name: seq<byte>, grants: nat -> bool)
    requires DistinctIds(types) && i < |types|
    ensures GenericReplayer.Granted(types, TopicOf(types[i]).(name := name), grants) <==> grants(i)
  {
    var t := TopicOf(types[i]).(name := name);
    assert GenericReplayer.Accepts(types[i], t);
  }

  /** A replayer of the same list accepts the recorder's table exactly when it may publish every
      type that was recorded. */
  lemma RecordedTableAccepted<V>(types: seq<TopicType<V>>, on: nat -> bool, grants: nat -> bool)
    requires DistinctIds(types)
    ensures GenericReplayer.AllGranted(types, Stored(GenericRecorder.Announced(types, on)), grants)
       <==> forall i: nat :: i < |types| && on(i) ==> grants(i)
  {
    hide GenericReplayer.Granted, StoredName, DistinctIds, GenericRecorder.Announced;
    var ts := GenericRecorder.Announced(types, on);
    if forall i: nat :: i < |types| && on(i) ==> grants(i) {
      forall j | 0 <= j < |Stored(ts)| ensures GenericReplayer.Granted(types, Stored(ts)[j], grants) {
        var i := GenericRecorder.AnnouncedSource(types, on, ts[j]);
        OwnTopicGranted(types, i, StoredName(ts[j].name), grants);
      }
    }
    if GenericReplayer.AllGranted(types, Stored(ts), grants) {
      forall i: nat | i < |types| && on(i) ensures grants(i) {
        var j := GenericRecorder.AnnouncedAt(types, on, i);
        OwnTopicGranted(types, i, StoredName(ts[j].name), grants);
      }
    }
  }

  /** Ids are 16-bit, so a list of distinct ones is short. */
  lemma FewTypes<V>(types: seq<TopicType<V>>)
    requires DistinctIds(types)
    ensures |types| <= 0x1_0000
  {
    var ids := IdSet(types);
    SmallSet(ids, 0x1_0000);
  }

  lemma {:induction false} IdSet<V>(types: seq<TopicType<V>>) returns (ids: set<nat>)
    requires DistinctIds(types)
    ensures |ids| == |types| && forall x :: x in ids <==> exists i :: 0 <= i < |types| && types[i].id == x
  {
    ids := {};
    if types != [] {
      var m := |types| - 1;
      ids := IdSet(types[..m]);
      forall x | x in ids ensures x != types[m].id {
        var i :| 0 <= i < m && types[..m][i].id == x;
      }
      forall i | 0 <= i < m ensures types[i].id in ids { assert types[..m][i].id == types[i].id; }
      ids := ids + {types[m].id};
    }
  }

  lemma {:induction false} SmallSet(ids: set<nat>, n: nat)
    requires forall x :: x in ids ==> x < n
    ensures |ids| <= n
  {
    if n == 0 {
      assert ids == {};
    } else {
      SmallSet(ids - {n - 1}, n - 1);
    }
  }

  lemma {:induction false} AnnouncedFew<V>(types: seq<TopicType<V>>, on: nat -> bool)
    ensures |GenericRecorder.Announced(types, on)| <= |types|
  {
    if types != [] { AnnouncedFew(types[..|types| - 1], on); }
  }

  // ---------------------------------------------------------------- the whole program

  /** Records of proper samples decode to those that fit a slot, and to all of them exactly when
      all fit. */
  lemma NarrowDecodes<V(!new)>(types: seq<TopicType<V>>, on: nat -> bool, adv: set<nat>, samples: seq<Sample<V>>, rs: seq<Record>)
    requires LawfulList(types) && AllProper(types, on, samples) && rs == RecordsFor(types, Narrow(types, samples))
    requires GenericReplayer.Opened(types, adv, Stored(GenericRecorder.Announced(types, on)))
    ensures GenericReplayer.Decodable(types, rs)
    ensures GenericReplayer.DispatchAll(types, rs) == Republished(Narrow(types, samples))
    ensures GenericReplayer.DispatchAll(types, rs) == Republished(samples) <==> AllSlim(types, samples)
  {
    hide LawfulList, GenericReplayer.Opened, Stored, GenericRecorder.Announced, GenericReplayer.DispatchAll, GenericReplayer.Decodable, Narrow, AllSlim, RecordsFor;
    NarrowProper(types, on, samples);
    NarrowLength(types, samples);
    SamplesSurvive(types, on, adv, Narrow(types, samples));
  }

  lemma OfferedFit<V(!new)>(types: seq<TopicType<V>>, on: nat -> bool, samples: seq<Sample<V>>)
    requires LawfulList(types) && AllProper(types, on, samples)
    ensures AllFit(ById(GenericRecorder.Announced(types, on)), RecordsFor(types, Narrow(types, samples)))
  {
    NarrowProper(types, on, samples);
    var ns := Narrow(types, samples);
    forall i | 0 <= i < |ns| ensures Fits(ById(GenericRecorder.Announced(types, on)), RecordsFor(types, ns)[i]) {
      GenericRecorder.RecordsAgree(types, on, ns[i]);
    }
  }

  /** Opens a recorded file and republishes it. */
  method ReplayMessages<V(!new)>(types: seq<TopicType<V>>, ghost on: nat -> bool, grants: nat -> bool, b: seq<byte>,
                                 now: u64, e: nat -> nat, c: nat -> nat, signals: nat -> seq<nat>, ghost createdAt: u64, ghost rs: seq<Record>)
    returns (isOpen: bool, published: seq<GenericReplayer.Publication<V>>, starts: seq<nat>, ghost adv: set<nat>)
    requires LawfulList(types)
    ensures Recorded(types, on, b, createdAt, rs) ==>
              && (isOpen <==> forall i: nat :: i < |types| && on(i) ==> grants(i))
              && (isOpen ==>
                    && GenericReplayer.Opened(types, adv, Stored(GenericRecorder.Announced(types, on)))
                    && GenericReplayer.Decodable(types, rs) && published == GenericReplayer.DispatchAll(types, rs)
                    && |published| == |starts| && GenericReplayer.OnTime(starts, rs, now, e, c)
                    && (forall i: nat :: i in adv <==> i < |types| && on(i)))
  {
    hide LawfulList, GenericReplayer.OnTime, GenericReplayer.Advertises, Log, Parse, LogFormat.Walk, ById, Extend, Stored, GenericRecorder.Announced, GenericReplayer.Opened, GenericReplayer.AllGranted, GenericReplayer.DispatchAll, GenericReplayer.Decodable, AllFit, DistinctIds;
    ListDistinct(types);
    var reader := new RecordReader.RecordReader(b);
    var replayer := new GenericReplayer.GenericReplayer(types);
    if Recorded(types, on, b, createdAt, rs) {
      TableFew(types, on);
      FileReadsBack(createdAt, GenericRecorder.Announced(types, on), rs, b);
      RecordedTableAccepted(types, on, grants);
    }
    starts := [];
    ghost var offered;
    isOpen, offered := replayer.Open(reader, grants);
    if isOpen {
      StartInside(b);
      starts := replayer.Replay(reader, now, e, c, signals);
      if Recorded(types, on, b, createdAt, rs) { RecordedAdvertised(types, on, grants, offered); }
    }
    published, adv := replayer.published, replayer.advertised;
  }

  lemma AdvertisesOwn<V>(types: seq<TopicType<V>>, on: nat -> bool, grants: nat -> bool, i: nat)
    requires i < |types| && on(i) && grants(i)
    ensures GenericReplayer.Advertises(types, Stored(GenericRecorder.Announced(types, on)), grants, i)
  {
    hide StoredName, GenericRecorder.Announced;
    var j := GenericRecorder.AnnouncedAt(types, on, i);
    assert GenericReplayer.Accepts(types[i], Stored(GenericRecorder.Announced(types, on))[j]);
  }

  lemma AdvertisesOnly<V>(types: seq<TopicType<V>>, on: nat -> bool, grants: nat -> bool, i: nat)
    requires DistinctIds(types) && GenericReplayer.Advertises(types, Stored(GenericRecorder.Announced(types, on)), grants, i)
    ensures i < |types| && on(i)
  {
    hide StoredName, GenericRecorder.Announced;
    var ts := GenericRecorder.Announced(types, on);
    var j :| 0 <= j < |Stored(ts)| && GenericReplayer.Accepts(types[i], Stored(ts)[j]);
    var own := GenericRecorder.AnnouncedSource(types, on, ts[j]);
    assert types[own].id == types[i].id;
  }

  /** Opening the recorder's own table advertises exactly the types recorded. */
  lemma RecordedAdvertised<V>(types: seq<TopicType<V>>, on: nat -> bool, grants: nat -> bool, offered: nat)
    requires DistinctIds(types) && GenericReplayer.AllGranted(types, Stored(GenericRecorder.Announced(types, on)), grants)
    requires GenericReplayer.FirstRefused(types, Stored(GenericRecorder.Announced(types, on)), grants, offered)
    ensures forall i: nat :: GenericReplayer.Advertises(types, Stored(GenericRecorder.Announced(types, on))[..offered], grants, i)
                        <==> i < |types| && on(i)
  {
    hide Stored, GenericRecorder.Announced, GenericReplayer.Granted, GenericReplayer.Advertises, DistinctIds;
    RecordedTableAccepted(types, on, grants);
    var ts := Stored(GenericRecorder.Announced(types, on));
    assert ts[..offered] == ts;
    forall i: nat ensures GenericReplayer.Advertises(types, ts, grants, i) <==> i < |types| && on(i) {
      if i < |types| && on(i) { AdvertisesOwn(types, on, grants, i); }
      if GenericReplayer.Advertises(types, ts, grants, i) { AdvertisesOnly(types, on, grants, i); }
    }
  }

  /** The file is the log of rs under the table the recorder announces. */
  ghost predicate Recorded<V>(types: seq<TopicType<V>>, on: nat -> bool, b: seq<byte>, createdAt: u64, rs: seq<Record>) {
    var ts := GenericRecorder.Announced(types, on);
    b == Log(createdAt, ts, rs) && AllFit(ById(ts), rs)
  }

  lemma StartInside(b: seq<byte>)
    requires Parse(b).Some?
    ensures Parse(b).value.start <= |b|
  {
    hide ParseFileHeader, TableTopics;
  }

  lemma TableFew<V>(types: seq<TopicType<V>>, on: nat -> bool)
    requires DistinctIds(types)
    ensures |GenericRecorder.Announced(types, on)| < TWO_32
  {
    FewTypes(types);
    AnnouncedFew(types, on);
  }

  /** Whatever was dropped, a file of popped records is one the recorder's table describes. */
  lemma SessionRecorded<V(!new)>(types: seq<TopicType<V>>, on: nat -> bool, samples: seq<Sample<V>>, ops: seq<Op>, createdAt: u64, b: seq<byte>)
    requires LawfulList(types) && AllProper(types, on, samples)
    requires Offered(ops) == RecordsFor(types, Narrow(types, samples))
    requires b == Log(createdAt, GenericRecorder.Announced(types, on), Recs(Run(Init(4096), ops).popped))
    ensures Recorded(types, on, b, createdAt, Recs(Run(Init(4096), ops).popped))
  {
    hide Run, Init, Recs, Offered, LawfulList, Log, ById, GenericRecorder.Announced, Narrow, RecordsFor, AllFit;
    OfferedFit(types, on, samples);
    PoppedFit(4096, ops, ById(GenericRecorder.Announced(types, on)));
  }

  /** The callbacks of samples that arrive before the file is opened. */
  method SampleEarly<V(!new)>(recorder: GenericRecorder.GenericRecorder<V>, ghost on: nat -> bool, early: seq<Sample<V>>)
    requires recorder.writer.Valid() && LawfulList(recorder.types) && AllProper(recorder.types, on, early)
    requires forall i: nat :: i < |recorder.types| && on(i) ==> i in recorder.subscribed
    modifies recorder.writer.ring, recorder.writer.ring.slots
    ensures var w := recorder.writer; w.Valid() && w.ring.Model().popped == old(w.ring.Model().popped)
    ensures Offered(recorder.writer.ring.ops) == old(Offered(recorder.writer.ring.ops)) + RecordsFor(recorder.types, Narrow(recorder.types, early))
  {
    assert recorder.writer.ring.capacity > 0;
    hide Run, Init, Offered, LawfulList, RecordWriter.RecordWriter.Valid, RecordWriter.Sent, Narrow, RecordsFor;
    ghost var types := recorder.types;
    NothingNarrow(types);
    for i := 0 to |early|
      invariant recorder.writer.Valid() && recorder.writer.ring.Model().popped == old(recorder.writer.ring.Model().popped)
      invariant Offered(recorder.writer.ring.ops) == old(Offered(recorder.writer.ring.ops)) + RecordsFor(types, Narrow(types, early[..i]))
    {
      var _ := recorder.OnSample(early[i]);
      OneMoreSample(types, early, i);
    }
    assert early[..|early|] == early;
  }

  lemma NothingNarrow<V>(types: seq<TopicType<V>>)
    ensures Kinds<V>(types, []) && RecordsFor(types, Narrow<V>(types, [])) == []
  {
  }

  lemma OneMoreSample<V(!new)>(types: seq<TopicType<V>>, samples: seq<Sample<V>>, i: nat)
    requires LawfulList(types) && Kinds(types, samples) && i < |samples| && Proper(types, samples[i])
    ensures Kinds(types, samples[..i]) && Kinds(types, samples[..i + 1]) && GenericRecorder.ArgsFor(types, samples[i]).Readable()
    ensures RecordsFor(types, Narrow(types, samples[..i + 1]))
         == RecordsFor(types, Narrow(types, samples[..i])) + RecordWriter.Sent([GenericRecorder.ArgsFor(types, samples[i])])
  {
    var front := samples[..i + 1];
    NarrowSnoc(types, front);
    assert front[..i] == samples[..i] && front[i] == samples[i];
    GenericRecorder.SampleSent(types, samples[i]);
    hide LawfulList, RecordWriter.Sent, Narrow, RecordFor;
  }

  /** Set-up, callbacks and the writer: what is offered to the ring and what the closed file holds. */
  method RecordMessages<V(!new)>(types: seq<TopicType<V>>, enabled: nat -> bool, subscribes: nat -> bool,
                                 early: seq<Sample<V>>, batches: seq<seq<Sample<V>>>, createdAt: u64, clock: nat -> nat)
    returns (setUp: bool, file: seq<byte>, ghost ops: seq<Op>, ghost failed: bool)
    requires LawfulList(types) && AllProper(types, GenericRecorder.On(enabled, subscribes), early)
    requires BatchesProper(types, GenericRecorder.On(enabled, subscribes), batches)
    ensures AllProper(types, GenericRecorder.On(enabled, subscribes), early + Flat(batches))
    ensures setUp <==> forall i: nat :: i < |types| && enabled(i) ==> subscribes(i)
    ensures setUp && !failed ==>
              var s := Run(Init(4096), ops);
              && Offered(ops) == RecordsFor(types, Narrow(types, early + Flat(batches))) && At(s, s.served).None?
              && Recorded(types, GenericRecorder.On(enabled, subscribes), file, createdAt, Recs(s.popped))
  {
    hide Run, Init, Recs, At, Offered, LawfulList, Log, Stored, GenericRecorder.Announced, Narrow, RecordsFor, Flat, BatchesFor, RecordWriter.AllReadable, RecordWriter.SentAll, Recorded, RecordWriter.RecordWriter.Valid;
    ghost var on := GenericRecorder.On(enabled, subscribes);
    file, ops, failed := [], [], false;
    BatchesSent(types, on, batches);
    BothProper(types, on, early, batches);
    NothingOffered(4096);
    var f := new RecordWriter.AppendFile();
    var writer := new RecordWriter.RecordWriter(100);
    var recorder := new GenericRecorder.GenericRecorder(types, writer);
    setUp := recorder.OnSetup(enabled, subscribes);
    if !setUp {
      return;
    }
    SampleEarly(recorder, on, early);
    var started, dropped;
    started, dropped, ops := RecordSession(writer, f, recorder.enabledTopics, createdAt, BatchesFor(types, batches), clock);
    file, failed := f.contents, f.failed;
    ghost var popped := Run(Init(4096), ops).popped;
    assert popped[0..] == popped;
    if !failed { SessionRecorded(types, on, early + Flat(batches), ops, createdAt, file); }
  }

  /** Sets up a recorder, records the samples its callbacks receive, `early` before the file is
      opened and `batches` at any points between the writer's accesses, in callbacks that do not
      overlap, and replays the file with the same type list. With no failed write: the file opens
      exactly when the replayer may publish every type recorded; then, whatever was dropped, each
      record popped is published once; and with no drop the publications are the samples whose type
      fits a slot, in order, value for value and stamp for stamp, so all the samples exactly when
      every type sampled fits. */
  method RecordAndRepublish<V(!new)>(types: seq<TopicType<V>>, enabled: nat -> bool, subscribes: nat -> bool, grants: nat -> bool,
                                     early: seq<Sample<V>>, batches: seq<seq<Sample<V>>>, createdAt: u64, clock: nat -> nat,
                                     now: u64, e: nat -> nat, c: nat -> nat, signals: nat -> seq<nat>)
    returns (setUp: bool, isOpen: bool, published: seq<GenericReplayer.Publication<V>>, starts: seq<nat>, ghost ops: seq<Op>, ghost failed: bool)
    requires LawfulList(types) && AllProper(types, GenericRecorder.On(enabled, subscribes), early)
    requires BatchesProper(types, GenericRecorder.On(enabled, subscribes), batches)
    ensures Kinds(types, early + Flat(batches))
    ensures setUp <==> forall i: nat :: i < |types| && enabled(i) ==> subscribes(i)
    ensures setUp && !failed ==> (isOpen <==> forall i: nat :: i < |types| && enabled(i) && subscribes(i) ==> grants(i))
    ensures setUp && !failed ==> Offered(ops) == RecordsFor(types, Narrow(types, early + Flat(batches)))
    ensures setUp && !failed && isOpen ==>
              var rs := Recs(Run(Init(4096), ops).popped);
              && GenericReplayer.Decodable(types, rs) && published == GenericReplayer.DispatchAll(types, rs)
              && |published| == |starts| && GenericReplayer.OnTime(starts, rs, now, e, c)
    ensures setUp && !failed && isOpen && Run(Init(4096), ops).dropped == 0 ==>
              var samples := early + Flat(batches);
              && published == Republished(Narrow(types, samples))
              && (published == Republished(samples) <==> AllSlim(types, samples))
  {
    hide Run, Init, Recs, At, Offered, LawfulList, Stored, GenericRecorder.Announced, GenericReplayer.Opened, GenericReplayer.DispatchAll, GenericReplayer.Decodable, GenericReplayer.OnTime, Narrow, AllSlim, RecordsFor, Republished, Flat, Recorded;
    ghost var on := GenericRecorder.On(enabled, subscribes);
    isOpen, published, starts := false, [], [];
    var file;
    setUp, file, ops, failed := RecordMessages(types, enabled, subscribes, early, batches, createdAt, clock);
    if !setUp {
      return;
    }
    ghost var adv, popped := {}, Run(Init(4096), ops).popped;
    isOpen, published, starts, adv := ReplayMessages(types, on, grants, file, now, e, c, signals, createdAt, Recs(popped));
    if !failed && isOpen && Run(Init(4096), ops).dropped == 0 {
      CompleteDrain(4096, ops);
      NarrowDecodes(types, on, adv, early + Flat(batches), Recs(popped));
    }
  }

  lemma BothProper<V>(types: seq<TopicType<V>>, on: nat -> bool, early: seq<Sample<V>>, batches: seq<seq<Sample<V>>>)
    requires AllProper(types, on, early) && BatchesProper(types, on, batches)
    ensures AllProper(types, on, early + Flat(batches)) && Kinds(types, Flat(batches))
    ensures RecordsFor(types, Narrow(types, early + Flat(batches)))
         == RecordsFor(types, Narrow(types, early)) + RecordsFor(types, Narrow(types, Flat(batches)))
  {
    FlatProper(types, on, batches);
    NarrowConcat(types, early, Flat(batches));
    RecordsConcat(types, Narrow(types, early), Narrow(types, Flat(batches)));
    hide Narrow, RecordsFor, Flat;
  }

  // ---------------------------------------------------------------- callbacks that overlap

  /** The claims of callbacks that fit a slot are those of the samples that do. */
  lemma {:induction false} FittingNarrow<V(!new)>(types: seq<TopicType<V>>, on: nat -> bool, samples: seq<Sample<V>>)
    requires LawfulList(types) && AllProper(types, on, samples)
    ensures IT.Fitting(RecordsFor(types, samples)) == RecordsFor(types, Narrow(types, samples))
  {
    if samples != [] {
      var m := |samples| - 1;
      FittingNarrow(types, on, samples[..m]);
      assert Lawful(types[samples[m].kind]);
      assert RecordsFor(types, samples)[..m] == RecordsFor(types, samples[..m]);
      NarrowSnoc(types, samples);
      hide LawfulList, Lawful;
    }
  }

  /** Under the lap premise whatever the ring hands over is a record some callback pushed. */
  lemma HandedOverFit<V(!new)>(types: seq<TopicType<V>>, on: nat -> bool, samples: seq<Sample<V>>, n: nat, acts: seq<I.Action>)
    requires n > 0 && I.Obeys(n, acts, I.Lap) && LawfulList(types) && AllProper(types, on, samples)
    requires IT.Claims(acts) == RecordsFor(types, samples)
    ensures I.PopsOk(I.Exec(n, acts))
    ensures forall i :: 0 <= i < |HandedOver(I.Exec(n, acts))| ==>
              HandedOver(I.Exec(n, acts))[i] in RecordsFor(types, Narrow(types, samples))
    ensures AllFit(ById(GenericRecorder.Announced(types, on)), HandedOver(I.Exec(n, acts)))
  {
    hide I.Exec, I.Obeys, LawfulList, GenericRecorder.Announced, ById, Narrow, RecordsFor, IT.Claims, IT.Fitting, Fits;
    LapPops(n, acts);
    IT.TicketRecords(n, acts);
    FittingNarrow(types, on, samples);
    OfferedFit(types, on, samples);
    var s, rs := I.Exec(n, acts), RecordsFor(types, Narrow(types, samples));
    forall i | 0 <= i < |HandedOver(s)|
      ensures HandedOver(s)[i] in rs && Fits(ById(GenericRecorder.Announced(types, on)), HandedOver(s)[i])
    {
      assert HandedOver(s)[i] == rs[s.popped[i].ticket];
    }
  }

  /** Nothing dropped, nothing in flight and a failing pop: the samples that fit a slot have been
      handed over, in the order of their claims. */
  lemma HandedOverAll<V(!new)>(types: seq<TopicType<V>>, on: nat -> bool, samples: seq<Sample<V>>, n: nat, acts: seq<I.Action>)
    requires n > 0 && I.Obeys(n, acts, I.Lap) && LawfulList(types) && AllProper(types, on, samples)
    requires IT.Claims(acts) == RecordsFor(types, samples)
    requires var s := I.Exec(n, acts); s.dropped == 0 && s.inflight == map[] && IT.Starved(s)
    ensures I.PopsOk(I.Exec(n, acts)) && HandedOver(I.Exec(n, acts)) == RecordsFor(types, Narrow(types, samples))
  {
    hide I.Exec, I.Obeys, LawfulList, Narrow, RecordsFor, IT.Claims, IT.Fitting;
    LapPops(n, acts);
    IT.TicketRecords(n, acts);
    FittingNarrow(types, on, samples);
    IT.StarvedMeansDone(n, acts);
    var s, rs := I.Exec(n, acts), RecordsFor(types, Narrow(types, samples));
    forall k: nat | k < s.claimed ensures HandedOver(s)[k] == rs[k] { IT.UndroppedFifo(n, acts, k); }
  }

  /** The whole program with every memory access of the callbacks' pushes interleaved, under the lap
      premise. With no failed write the file opens exactly when every recorded type may be published;
      then, whatever was dropped, what is published is the decoding of the records handed over, each
      of them pushed by some callback; and with nothing dropped or in flight and the last pop failing
      it is the samples whose type fits a slot, in the order of their claims, so all the samples
      exactly when every type sampled fits. */
  method InterleavedMessages<V(!new)>(types: seq<TopicType<V>>, enabled: nat -> bool, subscribes: nat -> bool, grants: nat -> bool,
                                      ghost samples: seq<Sample<V>>, n: nat, ghost acts: seq<I.Action>,
                                      drains: seq<seq<RingBuffer.PoppedRecord>>, createdAt: u64, clock: nat -> nat,
                                      now: u64, e: nat -> nat, c: nat -> nat, signals: nat -> seq<nat>)
    returns (setUp: bool, isOpen: bool, published: seq<GenericReplayer.Publication<V>>, starts: seq<nat>, ghost failed: bool)
    requires LawfulList(types) && AllProper(types, GenericRecorder.On(enabled, subscribes), samples)
    requires n > 0 && I.Obeys(n, acts, I.Lap) && IT.Claims(acts) == RecordsFor(types, samples)
    requires drains != [] && Copied(Flat(drains), I.Exec(n, acts).popped)
    ensures setUp <==> forall i: nat :: i < |types| && enabled(i) ==> subscribes(i)
    ensures setUp && !failed ==> (isOpen <==> forall i: nat :: i < |types| && enabled(i) && subscribes(i) ==> grants(i))
    ensures I.PopsOk(I.Exec(n, acts))
    ensures forall r :: r in HandedOver(I.Exec(n, acts)) ==> r in RecordsFor(types, Narrow(types, samples))
    ensures setUp && !failed && isOpen ==>
              var rs := HandedOver(I.Exec(n, acts));
              && GenericReplayer.Decodable(types, rs) && published == GenericReplayer.DispatchAll(types, rs)
              && |published| == |starts| && GenericReplayer.OnTime(starts, rs, now, e, c)
    ensures var s := I.Exec(n, acts);
            setUp && !failed && isOpen && s.dropped == 0 && s.inflight == map[] && IT.Starved(s) ==>
              && published == Republished(Narrow(types, samples))
              && (published == Republished(samples) <==> AllSlim(types, samples))
  {
    hide LawfulList, Log, Stored, GenericRecorder.Announced, GenericReplayer.Opened, GenericReplayer.DispatchAll, GenericReplayer.Decodable, GenericReplayer.OnTime, Narrow, AllSlim, RecordsFor, Republished, Flat, Recorded, RecordWriter.RecordWriter.Valid, I.Exec, I.Obeys, IT.Claims, AllProper, AllFit, ById, Replay, Copied, HandedOver;
    ghost var on := GenericRecorder.On(enabled, subscribes);
    isOpen, published, starts, failed := false, [], [], false;
    HandedOverFit(types, on, samples, n, acts);
    ListDistinct(types);
    TableFew(types, on);
    var f := new RecordWriter.AppendFile();
    var writer := new RecordWriter.RecordWriter(100);
    var recorder := new GenericRecorder.GenericRecorder(types, writer);
    setUp := recorder.OnSetup(enabled, subscribes);
    if !setUp {
      return;
    }
    var _ := InterleavedSession(f, recorder.enabledTopics, createdAt, n, acts, drains, clock);
    failed := f.failed;
    ghost var s := I.Exec(n, acts);
    ghost var adv;
    if !failed { LogRecorded(types, on, f.contents, createdAt, HandedOver(s)); }
    isOpen, published, starts, adv := ReplayMessages(types, on, grants, f.contents, now, e, c, signals, createdAt, HandedOver(s));
    if !failed && isOpen && s.dropped == 0 && s.inflight == map[] && IT.Starved(s) {
      HandedOverAll(types, on, samples, n, acts);
      NarrowDecodes(types, on, adv, samples, HandedOver(s));
    }
  }

  lemma LogRecorded<V>(types: seq<TopicType<V>>, on: nat -> bool, b: seq<byte>, createdAt: u64, rs: seq<Record>)
    requires b == Log(createdAt, GenericRecorder.Announced(types, on), rs) && AllFit(ById(GenericRecorder.Announced(types, on)), rs)
    ensures Recorded(types, on, b, createdAt, rs)
  {
  }
}
