/** The compile-time list of message types: id, name, wire size and codec of each. Values of all
    types share one carrier V; `owns` says which values belong to a type. */
module TopicRegistry {
  import opened Bits
  import opened WireFormat
  import opened LogFormat
  import opened PayloadCodec

  datatype TopicType<!V> = TopicType(
    id: u16,
    wireSize: u32,
    name: seq<byte>,
    owns: V -> bool,
    encode: V -> seq<byte>,
    decode: seq<byte> -> V)

  /** Encoding fills exactly the wire size and decoding undoes it. */
  ghost predicate Lawful<V(!new)>(t: TopicType<V>) {
    forall v: V :: t.owns(v) ==> |t.encode(v)| == t.wireSize && t.decode(t.encode(v)) == v
  }

  ghost predicate DistinctIds<V>(types: seq<TopicType<V>>) {
    forall i, j :: 0 <= i < j < |types| ==> types[i].id != types[j].id
  }

  ghost predicate LawfulList<V(!new)>(types: seq<TopicType<V>>) {
    DistinctIds(types) && forall i :: 0 <= i < |types| ==> Lawful(types[i])
  }

  function TopicOf<V>(t: TopicType<V>): Topic { Topic(t.id, t.wireSize, t.name) }

  /** A value of type number `kind`, as the middleware delivers or republishes it. */
  datatype Sample<V> = Sample(kind: nat, value: V, stamp: u64, seqNo: u64)

  ghost predicate Proper<V>(types: seq<TopicType<V>>, s: Sample<V>) {
    s.kind < |types| && types[s.kind].owns(s.value)
  }

  /** The record a sample becomes on its way into the ring. */
  function RecordFor<V>(types: seq<TopicType<V>>, s: Sample<V>): Record
    requires s.kind < |types|
  {
    Record(types[s.kind].id, s.stamp, s.seqNo, types[s.kind].encode(s.value))
  }

  /** The one type of the shipped list: id 4, "/joy", 22 bytes. */
  function JoyType(): TopicType<JoyMsgs> {
    TopicType(4, 22, [47, 106, 111, 121], (v: JoyMsgs) => true,
              (v: JoyMsgs) => JoyBytes(v),
              (b: seq<byte>) => if |b| >= JOY_SIZE then ParseJoy(b) else JoyMsgs(0, 0, 0, false, false, false, false, false, false))
  }

  /** The shipped list keeps the rule its documentation states, so every theorem about lawful
      lists applies to it. */
  lemma ShippedListLawful()
    ensures LawfulList([JoyType()]) && JoyType().wireSize <= MAX_PAYLOAD
    ensures TopicOf(JoyType()) == Topic(4, 22, [47, 106, 111, 121])
  {
    forall v: JoyMsgs ensures |JoyType().encode(v)| == 22 && JoyType().decode(JoyType().encode(v)) == v {
      JoyRoundTrip(v, []);
      assert JoyBytes(v) + [] == JoyBytes(v);
    }
  }

  /** The shipped type is coded by the joystick codec. */
  lemma ShippedCodec(v: JoyMsgs, b: seq<byte>)
    ensures JoyType().encode(v) == JoyBytes(v)
    ensures |b| >= 22 ==> JoyType().decode(b) == ParseJoy(b)
  {
  }

  /** `EncodePayload` fills a buffer of the wire size with what the shipped type encodes to. */
  method EncodeShipped(v: JoyMsgs, out: array<byte>)
    requires out.Length == 22
    modifies out
    ensures out[..] == JoyType().encode(v)
  {
    ShippedCodec(v, []);
    EncodePayload(v, out);
    assert out[..22] == out[..];
  }

  /** `DecodePayload` returns what the shipped type decodes to. */
  method DecodeShipped(b: seq<byte>) returns (v: JoyMsgs)
    requires |b| >= 22
    ensures v == JoyType().decode(b)
  {
    v := DecodePayload(b);
    ShippedCodec(v, b);
  }
}
