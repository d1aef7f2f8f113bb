/** The replayer's folds over the type list: advertising one publisher per topic found in the
    file, and decoding and republishing each record. */
module GenericReplayer {
  import opened Bits
  import opened WireFormat
  import opened LogFormat
  import opened TopicRegistry
  import opened ReplaySchedule
  import RecordReader

  /** A value published through the publisher of type number `kind`. */
  datatype Publication<V> = Publication(kind: nat, value: V, stamp: u64)

  /** The type's id and size are those recorded in the file. */
  predicate Accepts<V>(t: TopicType<V>, topic: Topic) {
    t.id == topic.topicId && t.wireSize == topic.wireSize
  }

  /** Some type of the list accepts the topic and its publisher has been advertised. */
  ghost predicate Served<V>(types: seq<TopicType<V>>, advertised: set<nat>, topic: Topic) {
    exists i: nat :: i < |types| && i in advertised && Accepts(types[i], topic)
  }

  /** Some type accepts the topic and the middleware lets it publish. */
  ghost predicate Granted<V>(types: seq<TopicType<V>>, topic: Topic, grants: nat -> bool) {
    exists i: nat :: i < |types| && Accepts(types[i], topic) && grants(i)
  }

  ghost predicate AllGranted<V>(types: seq<TopicType<V>>, topics: seq<Topic>, grants: nat -> bool) {
    forall j :: 0 <= j < |topics| ==> Granted(types, topics[j], grants)
  }

  /** Entry r is the first no type accepts and may publish, or there is none and r is the end. */
  ghost predicate FirstRefused<V>(types: seq<TopicType<V>>, topics: seq<Topic>, grants: nat -> bool, r: nat) {
    && r <= |topics| && (forall j :: 0 <= j < r ==> Granted(types, topics[j], grants))
    && (r < |topics| ==> !Granted(types, topics[r], grants))
  }

  /** Type i accepts one of the entries and may publish. */
  ghost predicate Advertises<V>(types: seq<TopicType<V>>, topics: seq<Topic>, grants: nat -> bool, i: nat) {
    i < |types| && grants(i) && exists j :: 0 <= j < |topics| && Accepts(types[i], topics[j])
  }

  lemma NothingOffered<V>(types: seq<TopicType<V>>, topics: seq<Topic>, grants: nat -> bool)
    ensures forall i: nat :: !Advertises(types, topics[..0], grants, i)
  {
  }

  lemma AdvertisesSnoc<V>(types: seq<TopicType<V>>, topics: seq<Topic>, grants: nat -> bool, i: nat, j: nat)
    requires j < |topics|
    ensures Advertises(types, topics[..j + 1], grants, i)
       <==> Advertises(types, topics[..j], grants, i) || (i < |types| && grants(i) && Accepts(types[i], topics[j]))
  {
    hide Accepts;
    var more, had := topics[..j + 1], topics[..j];
    assert more[j] == topics[j];
    if Advertises(types, had, grants, i) {
      var k :| 0 <= k < |had| && Accepts(types[i], had[k]);
      assert more[k] == had[k];
    }
    if Advertises(types, more, grants, i) && !Accepts(types[i], topics[j]) {
      var k :| 0 <= k < |more| && Accepts(types[i], more[k]);
      assert had[k] == more[k];
    }
  }

  /** A refused entry adds nothing. */
  lemma RefusedAdds<V>(types: seq<TopicType<V>>, topics: seq<Topic>, grants: nat -> bool, j: nat)
    requires j < |topics| && !Granted(types, topics[j], grants)
    ensures forall i: nat :: Advertises(types, topics[..j + 1], grants, i) <==> Advertises(types, topics[..j], grants, i)
  {
    forall i: nat ensures Advertises(types, topics[..j + 1], grants, i) <==> Advertises(types, topics[..j], grants, i) {
      AdvertisesSnoc(types, topics, grants, i, j);
    }
  }

  /** What the dispatch fold publishes for one record. */
  function Dispatch<V>(types: seq<TopicType<V>>, r: Record): seq<Publication<V>>
    requires forall i :: 0 <= i < |types| && types[i].id == r.topicId ==> types[i].wireSize <= |r.payload|
  {
    if types == [] then []
    else
      var m := |types| - 1;
      Dispatch(types[..m], r)
      + if types[m].id == r.topicId then [Publication(m, types[m].decode(r.payload[..types[m].wireSize]), r.stamp)] else []
  }

  /** A record whose topic one type claims is published once, by that type. */
  lemma {:induction false} DispatchOnce<V>(types: seq<TopicType<V>>, r: Record, k: nat)
    requires DistinctIds(types) && k < |types| && types[k].id == r.topicId && types[k].wireSize == |r.payload|
    ensures forall i :: 0 <= i < |types| && types[i].id == r.topicId ==> i == k
    ensures Dispatch(types, r) == [Publication(k, types[k].decode(r.payload), r.stamp)]
  {
    var m := |types| - 1;
    assert r.payload[..|r.payload|] == r.payload;
    if k < m {
      assert types[..m][k] == types[k];
      DispatchOnce(types[..m], r, k);
    } else {
      DispatchNone(types[..m], r);
    }
  }

  lemma {:induction false} DispatchNone<V>(types: seq<TopicType<V>>, r: Record)
    requires forall i :: 0 <= i < |types| ==> types[i].id != r.topicId
    ensures Dispatch(types, r) == []
  {
    if types != [] { DispatchNone(types[..|types| - 1], r); }
  }

  /** Every topic entry of the file was accepted when the file was opened. */
  ghost predicate Opened<V>(types: seq<TopicType<V>>, advertised: set<nat>, topics: seq<Topic>) {
    forall j :: 0 <= j < |topics| ==> Served(types, advertised, topics[j])
  }

  /** After a successful open every record that agrees with the table, duplicate entries or not,
      belongs to exactly one type, is exactly as long as its decoder expects, and goes to an
      advertised publisher. */
  lemma RecordServed<V>(types: seq<TopicType<V>>, advertised: set<nat>, topics: seq<Topic>, r: Record) returns (k: nat)
    requires DistinctIds(types) && Opened(types, advertised, topics) && Fits(ById(topics), r)
    ensures k < |types| && k in advertised && types[k].id == r.topicId && types[k].wireSize == |r.payload|
    ensures forall i :: 0 <= i < |types| && types[i].id == r.topicId ==> i == k
    ensures Dispatch(types, r) == [Publication(k, types[k].decode(r.payload), r.stamp)]
  {
    var t := ById(topics)[r.topicId];
    var j := ByIdEntry(topics, r.topicId);
    assert Served(types, advertised, topics[j]);
    k :| k < |types| && k in advertised && Accepts(types[k], t);
    DispatchOnce(types, r, k);
  }

  /** All publications of a replay, in order. */
  function DispatchAll<V>(types: seq<TopicType<V>>, rs: seq<Record>): seq<Publication<V>>
    requires Decodable(types, rs)
  {
    if rs == [] then [] else DispatchAll(types, rs[..|rs| - 1]) + Dispatch(types, rs[|rs| - 1])
  }

  /** No decoder would read past the payload it is given. */
  ghost predicate Decodable<V>(types: seq<TopicType<V>>, rs: seq<Record>) {
    forall j, i :: 0 <= j < |rs| && 0 <= i < |types| && types[i].id == rs[j].topicId ==> types[i].wireSize <= |rs[j].payload|
  }

  lemma ServedDecodable<V>(types: seq<TopicType<V>>, advertised: set<nat>, topics: seq<Topic>, rs: seq<Record>)
    requires DistinctIds(types) && Opened(types, advertised, topics) && AllFit(ById(topics), rs)
    ensures Decodable(types, rs)
  {
    forall j, i | 0 <= j < |rs| && 0 <= i < |types| && types[i].id == rs[j].topicId
      ensures types[i].wireSize <= |rs[j].payload|
    {
      var k := RecordServed(types, advertised, topics, rs[j]);
    }
  }

  /** Exactly one publication per record delivered. */
  lemma {:induction false} OnePerRecord<V>(types: seq<TopicType<V>>, advertised: set<nat>, topics: seq<Topic>, rs: seq<Record>)
    requires DistinctIds(types) && Opened(types, advertised, topics) && AllFit(ById(topics), rs)
    ensures Decodable(types, rs) && |DispatchAll(types, rs)| == |rs|
    ensures forall j :: 0 <= j < |rs| ==> DispatchAll(types, rs)[j].kind in advertised
    ensures forall j :: 0 <= j < |rs| ==> DispatchAll(types, rs)[j].stamp == rs[j].stamp
  {
    ServedDecodable(types, advertised, topics, rs);
    if rs != [] {
      hide Dispatch, Served, ById;
      var m := |rs| - 1;
      OnePerRecord(types, advertised, topics, rs[..m]);
      var k := RecordServed(types, advertised, topics, rs[m]);
      assert DispatchAll(types, rs) == DispatchAll(types, rs[..m]) + Dispatch(types, rs[m]);
    }
  }

  class GenericReplayer<V> {
    const types: seq<TopicType<V>>
    var advertised: set<nat>
    var published: seq<Publication<V>>

    constructor (types: seq<TopicType<V>>)
      ensures this.types == types && advertised == {} && published == []
    {
      this.types, advertised, published := types, {}, [];
    }

    /** One element of the advertising fold; `granted` is the middleware's answer. */
    method TryAdvertise(i: nat, topic: Topic, granted: bool, found: bool) returns (found': bool)
      requires i < |types|
      modifies this`advertised
      ensures found' == (found || (Accepts(types[i], topic) && granted))
      ensures advertised == old(advertised) + if Accepts(types[i], topic) && granted then {i} else {}
    {
      found' := found;
      if topic.topicId != types[i].id {
        return;
      }
      if topic.wireSize != types[i].wireSize {
        return;
      }
      if !granted {
        return;
      }
      advertised := advertised + {i};
      found' := true;
    }

    /** Succeeds exactly when some type accepts the topic and may publish it, and advertises
        exactly the types that do. */
    method OnTopicFound(topic: Topic, grants: nat -> bool) returns (found: bool)
      modifies this`advertised
      ensures found <==> Granted(types, topic, grants)
      ensures found ==> Served(types, advertised, topic)
      ensures forall i: nat :: i in advertised <==> i in old(advertised) || (i < |types| && Accepts(types[i], topic) && grants(i))
    {
      found := false;
      for k := 0 to |types|
        invariant found <==> exists i: nat :: i < k && Accepts(types[i], topic) && grants(i)
        invariant found ==> Served(types, advertised, topic)
        invariant forall i: nat :: i in advertised <==> i in old(advertised) || (i < k && Accepts(types[i], topic) && grants(i))
      {
        found := TryAdvertise(k, topic, grants(k), found);
        if Accepts(types[k], topic) && grants(k) {
          assert k < |types| && k in advertised && Accepts(types[k], topic);
        }
      }
    }

    /** The hook loop: offers every entry to `OnTopicFound` until one is refused, which is entry
        number `offered`; advertises exactly the types that accept one of those before it. */
    method OfferTopics(topics: seq<Topic>, grants: nat -> bool) returns (ok: bool, ghost offered: nat)
      modifies this`advertised
      ensures ok <==> AllGranted(types, topics, grants)
      ensures ok ==> Opened(types, advertised, topics)
      ensures FirstRefused(types, topics, grants, offered) && (ok <==> offered == |topics|)
      ensures forall i: nat :: i in advertised <==> i in old(advertised) || Advertises(types, topics[..offered], grants, i)
    {
      hide Served, Granted, Advertises;
      NothingOffered(types, topics, grants);
      for j := 0 to |topics|
        invariant forall t :: 0 <= t < j ==> Granted(types, topics[t], grants)
        invariant forall t :: 0 <= t < j ==> Served(types, advertised, topics[t])
        invariant forall i: nat :: i in advertised <==> i in old(advertised) || Advertises(types, topics[..j], grants, i)
      {
        ghost var had := advertised;
        var found := OnTopicFound(topics[j], grants);
        forall t | 0 <= t < j ensures Served(types, advertised, topics[t]) {
          ServedMore(types, had, advertised, topics[t]);
        }
        forall i: nat ensures i in advertised <==> i in old(advertised) || Advertises(types, topics[..j + 1], grants, i) {
          AdvertisesSnoc(types, topics, grants, i, j);
        }
        if !found {
          RefusedAdds(types, topics, grants, j);
          return false, j;
        }
      }
      assert topics[..|topics|] == topics;
      return true, |topics|;
    }

    /** Parses the file, then runs the hook loop; one refused entry refuses the file. */
    method Open(reader: RecordReader.RecordReader, grants: nat -> bool) returns (ok: bool, ghost offered: nat)
      requires reader.topics == [] && reader.byId == map[]
      modifies reader, this`advertised
      ensures reader.base == old(reader.base)
      ensures ok ==> Parse(reader.base) == Some(Parsed(reader.topics, reader.recordsStart))
      ensures ok ==> reader.byId == ById(reader.topics) && Opened(types, advertised, reader.topics)
      ensures ok <==> Parse(reader.base).Some? && AllGranted(types, Parse(reader.base).value.topics, grants)
      ensures Parse(reader.base).None? ==> advertised == old(advertised)
      ensures Parse(reader.base).Some? ==>
                var topics := Parse(reader.base).value.topics;
                && FirstRefused(types, topics, grants, offered)
                && forall i: nat :: i in advertised <==> i in old(advertised) || Advertises(types, topics[..offered], grants, i)
    {
      hide Parse, Opened, AllGranted, Extend, FirstRefused, Advertises;
      offered := 0;
      ok := reader.ParseHeaderAndMetadata();
      if !ok {
        return;
      }
      ghost var p := Parse(reader.base).value;
      assert [] + p.topics == p.topics;
      ok, offered := OfferTopics(reader.topics, grants);
    }

    /** The dispatch fold of one callback. */
    method OnRecord(topicId: u16, stamp: u64, seqNo: u64, payload: seq<byte>)
      requires forall i :: 0 <= i < |types| && types[i].id == topicId ==> types[i].wireSize <= |payload|
      modifies this`published
      ensures published == old(published) + Dispatch(types, Record(topicId, stamp, seqNo, payload))
    {
      ghost var r := Record(topicId, stamp, seqNo, payload);
      for k := 0 to |types|
        invariant published == old(published) + Dispatch(types[..k], r)
      {
        assert types[..k + 1][..k] == types[..k];
        if topicId == types[k].id {
          var v := types[k].decode(payload[..types[k].wireSize]);
          published := published + [Publication(k, v, stamp)];
        }
      }
      assert types[..|types|] == types;
    }

    method OnRecords(calls: seq<RecordReader.Call>)
      requires Decodable(types, RecordReader.Delivered(calls))
      modifies this`published
      ensures published == old(published) + DispatchAll(types, RecordReader.Delivered(calls))
    {
      hide Dispatch;
      ghost var rs := RecordReader.Delivered(calls);
      for j := 0 to |calls|
        invariant Decodable(types, rs[..j]) && published == old(published) + DispatchAll(types, rs[..j])
      {
        assert rs[j] == RecordReader.RecordOf(calls[j]);
        OnRecord(calls[j].topicId, calls[j].stamp, calls[j].seqNo, calls[j].payload);
        assert rs[..j + 1][..j] == rs[..j];
      }
      assert rs[..|rs|] == rs;
    }

    /** Republishes a whole opened file: one publication per record, in file order, each when the
        schedule says; `starts` are the start times of the callbacks. */
    method Replay(reader: RecordReader.RecordReader, now: u64, e: nat -> nat, c: nat -> nat, signals: nat -> seq<nat>)
      returns (starts: seq<nat>)
      requires DistinctIds(types) && reader.byId == ById(reader.topics) && reader.recordsStart <= |reader.base|
      requires Opened(types, advertised, reader.topics)
      modifies this`published
      ensures var rs := LogFormat.Walk(reader.base, reader.recordsStart, reader.byId);
              && Decodable(types, rs) && published == old(published) + DispatchAll(types, rs)
              && |DispatchAll(types, rs)| == |rs| == |starts| && OnTime(starts, rs, now, e, c)
    {
      hide LogFormat.Walk, DispatchAll, RecordReader.OnSchedule, RecordReader.Delivered, Opened, Decodable, RecordsBytes, OnTime;
      var calls := reader.Run(now, e, c, signals);
      WalkTiles(reader.base, reader.recordsStart, reader.byId);
      OnePerRecord(types, advertised, reader.topics, RecordReader.Delivered(calls));
      OnRecords(calls);
      starts := seq(|calls|, i requires 0 <= i < |calls| => calls[i].at);
      CallsOnTime(calls, starts, now, e, c);
    }
  }

  /** One start time per record, each the one the schedule gives. */
  ghost predicate OnTime(starts: seq<nat>, rs: seq<Record>, now: u64, e: nat -> nat, c: nat -> nat) {
    && |starts| == |rs|
    && forall i: nat :: i < |rs| ==> starts[i] == StartAt(Targets(now, RecordReader.Stamps(rs)), e, c, i)
  }

  lemma CallsOnTime(calls: seq<RecordReader.Call>, starts: seq<nat>, now: u64, e: nat -> nat, c: nat -> nat)
    requires RecordReader.OnSchedule(calls, now, e, c)
    requires |starts| == |calls| && forall i :: 0 <= i < |calls| ==> starts[i] == calls[i].at
    ensures OnTime(starts, RecordReader.Delivered(calls), now, e, c)
  {
  }

  lemma ServedMore<V>(types: seq<TopicType<V>>, had: set<nat>, have: set<nat>, topic: Topic)
    requires had <= have && Served(types, had, topic)
    ensures Served(types, have, topic)
  {
    var i: nat :| i < |types| && i in had && Accepts(types[i], topic);
    assert i in have;
  }
}
