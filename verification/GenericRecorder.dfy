/** The recorder's set-up fold over the type list and its sample callback. */
module GenericRecorder {
  import opened Bits
  import opened WireFormat
  import opened LogFormat
  import opened RingModel
  import opened RingTheorems
  import opened TopicRegistry
  import RecordWriter

  /** A type is recorded when the configuration enables it and the subscription is granted. */
  function On(enabled: nat -> bool, subscribes: nat -> bool): nat -> bool {
    (i: nat) => enabled(i) && subscribes(i)
  }

  /** The topics announced to the writer: the types switched on, in declaration order. */
  function Announced<V>(types: seq<TopicType<V>>, on: nat -> bool): (ts: seq<Topic>) {
    if types == [] then []
    else
      var m := |types| - 1;
      Announced(types[..m], on) + if on(m) then [TopicOf(types[m])] else []
  }

  /** With distinct ids every announced type is found in the table under its own size. */
  lemma {:induction false} AnnouncedLookup<V>(types: seq<TopicType<V>>, on: nat -> bool, i: nat)
    requires DistinctIds(types) && i < |types| && on(i)
    ensures types[i].id in ById(Announced(types, on))
    ensures ById(Announced(types, on))[types[i].id] == Topic(types[i].id, types[i].wireSize, types[i].name)
  {
    var m := |types| - 1;
    var front, all := Announced(types[..m], on), Announced(types, on);
    if i < m {
      assert types[..m][i] == types[i];
      AnnouncedLookup(types[..m], on, i);
    }
    if on(m) {
      ByIdSnoc(front, TopicOf(types[m]));
    } else {
      assert all == front;
    }
  }

  lemma ByIdSnoc(ts: seq<Topic>, t: Topic)
    ensures ById(ts + [t]) == ById(ts)[t.topicId := t]
  {
    assert (ts + [t])[..|ts|] == ts;
  }

  /** Only types switched on are announced. */
  lemma {:induction false} AnnouncedSource<V>(types: seq<TopicType<V>>, on: nat -> bool, t: Topic) returns (i: nat)
    requires t in Announced(types, on)
    ensures i < |types| && on(i) && t == TopicOf(types[i])
  {
    var m := |types| - 1;
    if t in Announced(types[..m], on) {
      i := AnnouncedSource(types[..m], on, t);
    } else {
      i := m;
    }
  }

  /** Announced types keep their declaration order. */
  lemma {:induction false} AnnouncedInOrder<V>(types: seq<TopicType<V>>, on: nat -> bool, i: nat, i': nat) returns (j: nat, j': nat)
    requires i < i' < |types| && on(i) && on(i')
    ensures j < j' < |Announced(types, on)|
    ensures Announced(types, on)[j] == TopicOf(types[i]) && Announced(types, on)[j'] == TopicOf(types[i'])
  {
    var m := |types| - 1;
    var front := types[..m];
    if i' < m {
      assert front[i] == types[i] && front[i'] == types[i'];
      j, j' := AnnouncedInOrder(front, on, i, i');
    } else {
      assert front[i] == types[i];
      j := AnnouncedAt(front, on, i);
      j' := |Announced(front, on)|;
    }
  }

  lemma {:induction false} AnnouncedAt<V>(types: seq<TopicType<V>>, on: nat -> bool, i: nat) returns (j: nat)
    requires i < |types| && on(i)
    ensures j < |Announced(types, on)| && Announced(types, on)[j] == TopicOf(types[i])
  {
    var m := |types| - 1;
    if i < m {
      assert types[..m][i] == types[i];
      j := AnnouncedAt(types[..m], on, i);
    } else {
      j := |Announced(types[..m], on)|;
    }
  }

  /** Every record a subscribed callback pushes agrees with the table given to the writer. */
  lemma RecordsAgree<V(!new)>(types: seq<TopicType<V>>, on: nat -> bool, s: Sample<V>)
    requires LawfulList(types) && Proper(types, s) && on(s.kind)
    ensures Fits(ById(Announced(types, on)), RecordFor(types, s))
  {
    AnnouncedLookup(types, on, s.kind);
    assert Lawful(types[s.kind]);
  }

  /** The push a subscription callback makes: the encoded sample, as long as the wire size. */
  function ArgsFor<V>(types: seq<TopicType<V>>, s: Sample<V>): RecordWriter.PushArgs
    requires s.kind < |types|
  {
    RecordWriter.PushArgs(types[s.kind].id, s.stamp, s.seqNo, types[s.kind].encode(s.value), types[s.kind].wireSize)
  }

  /** What reaches the ring: the sample's record, unless its type is wider than a slot. */
  lemma SampleSent<V(!new)>(types: seq<TopicType<V>>, s: Sample<V>)
    requires LawfulList(types) && Proper(types, s)
    ensures ArgsFor(types, s).Readable()
    ensures RecordWriter.Sent([ArgsFor(types, s)]) == if types[s.kind].wireSize <= MAX_PAYLOAD then [RecordFor(types, s)] else []
  {
    assert Lawful(types[s.kind]);
    var a := ArgsFor(types, s);
    assert a.data[..|a.data|] == a.data && [a][..0] == [];
  }

  class GenericRecorder<V(!new)> {
    const types: seq<TopicType<V>>
    const writer: RecordWriter.RecordWriter
    var subscribed: set<nat>
    var enabledTopics: seq<Topic>

    constructor (types: seq<TopicType<V>>, writer: RecordWriter.RecordWriter)
      ensures this.types == types && this.writer == writer && subscribed == {} && enabledTopics == []
    {
      this.types, this.writer, subscribed, enabledTopics := types, writer, {}, [];
    }

    /** One element of the fold: skip a disabled type, fail on a refused subscription, else
        keep the subscription and announce the topic. */
    method SetupOne(i: nat, enabled: bool, subscribes: bool, ok: bool) returns (ok': bool)
      requires i < |types|
      modifies this
      ensures ok' == (ok && (enabled ==> subscribes))
      ensures subscribed == old(subscribed) + if enabled && subscribes then {i} else {}
      ensures enabledTopics == old(enabledTopics) + if enabled && subscribes then [TopicOf(types[i])] else []
    {
      ok' := ok;
      if !enabled {
        return;
      }
      if !subscribes {
        ok' := false;
        return;
      }
      subscribed := subscribed + {i};
      enabledTopics := enabledTopics + [Topic(types[i].id, types[i].wireSize, types[i].name)];
    }

    /** Subscribes every enabled type; reports success only if none was refused. */
    method OnSetup(enabled: nat -> bool, subscribes: nat -> bool) returns (ok: bool)
      requires enabledTopics == [] && subscribed == {}
      modifies this
      ensures ok <==> forall i: nat :: i < |types| && enabled(i) ==> subscribes(i)
      ensures enabledTopics == Announced(types, On(enabled, subscribes))
      ensures forall i: nat :: i in subscribed <==> i < |types| && enabled(i) && subscribes(i)
    {
      ok := true;
      ghost var on := On(enabled, subscribes);
      for k := 0 to |types|
        invariant ok <==> forall i: nat :: i < k && enabled(i) ==> subscribes(i)
        invariant enabledTopics == Announced(types[..k], on)
        invariant forall i: nat :: i in subscribed <==> i < k && enabled(i) && subscribes(i)
      {
        ok := SetupOne(k, enabled(k), subscribes(k), ok);
        assert types[..k + 1][..k] == types[..k];
      }
      assert types[..|types|] == types;
    }

    /** The subscription callback: encode into a buffer of the wire size and push all of it. */
    method OnSample(s: Sample<V>) returns (ok: bool)
      requires writer.Valid() && LawfulList(types) && Proper(types, s) && s.kind in subscribed
      modifies writer.ring, writer.ring.slots
      ensures writer.Valid() && writer.ring.Model().popped == old(writer.ring.Model().popped)
      ensures Offered(writer.ring.ops) == old(Offered(writer.ring.ops)) + RecordWriter.Sent([ArgsFor(types, s)])
      ensures types[s.kind].wireSize <= 64 ==>
                Offered(writer.ring.ops)
                == old(Offered(writer.ring.ops)) + [Record(types[s.kind].id, s.stamp, s.seqNo, types[s.kind].encode(s.value))]
      ensures types[s.kind].wireSize > 64 ==> !ok && writer.ring.ops == old(writer.ring.ops)
    {
      SampleSent(types, s);
      var buf := types[s.kind].encode(s.value);
      ok := writer.Push(RecordWriter.PushArgs(types[s.kind].id, s.stamp, s.seqNo, buf, types[s.kind].wireSize));
    }
  }
}
