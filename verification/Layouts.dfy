/** Every layout byte by byte, in numbers: where each field lies and what each of its bytes is, and
    exactly which files are accepted. */
module Layouts {
  import opened Bits
  import opened WireFormat
  import opened LogFormat
  import opened PayloadCodec
  import opened TopicRegistry

  /** The i-th byte of v, least significant first, as the encoders select it. */
  function ByteOf(v: nat, i: nat): nat { And(Shr(v, 8 * i), 0xFF) }

  /** The bytes of b from off on are the n bytes of v. */
  ghost predicate Holds(b: seq<byte>, off: nat, v: nat, n: nat) {
    off + n <= |b| && forall i :: 0 <= i < n ==> b[off + i] == ByteOf(v, i)
  }

  lemma LEHolds(v: nat, n: nat)
    ensures Holds(LE(v, n), 0, v, n)
  {
    hide LE, And, Shr;
    forall i | 0 <= i < n ensures LE(v, n)[0 + i] == ByteOf(v, i) { LEAt(v, n, i); }
  }

  /** A field keeps its bytes wherever it is placed. */
  lemma Placed(b: seq<byte>, off: nat, v: nat, n: nat)
    requires off + n <= |b| && b[off..off + n] == LE(v, n)
    ensures Holds(b, off, v, n)
  {
    LEHolds(v, n);
    hide LE, ByteOf;
    forall i | 0 <= i < n ensures b[off + i] == ByteOf(v, i) {
      assert b[off + i] == b[off..off + n][i] == LE(v, n)[0 + i];
    }
  }

  // ---------------------------------------------------------------- what is written

  lemma FileHeaderLayout(h: FileHeader)
    ensures var b := FileHeaderBytes(h);
            && |b| == 32 && b[..8] == [73, 50, 87, 76, 79, 71, 0, 0]
            && Holds(b, 8, h.version, 4) && Holds(b, 12, h.topicCount, 4) && Holds(b, 16, h.createdAt, 8)
            && forall i :: 24 <= i < 32 ==> b[i] == 0
  {
    hide LE, Holds;
    var b := FileHeaderBytes(h);
    assert b[8..12] == LE(h.version, 4) && b[12..16] == LE(h.topicCount, 4) && b[16..24] == LE(h.createdAt, 8);
    Placed(b, 8, h.version, 4);
    Placed(b, 12, h.topicCount, 4);
    Placed(b, 16, h.createdAt, 8);
  }

  /** How much of a name is kept. */
  function Cut(name: seq<byte>): nat { if StrLen(name) <= 31 then StrLen(name) else 31 }

  lemma TopicLayout(t: Topic)
    ensures var b := TopicBytes(t);
            && |b| == 38 && Holds(b, 0, t.topicId, 2) && Holds(b, 2, t.wireSize, 4)
            && forall i :: 0 <= i < 32 ==> b[6 + i] == if i < Cut(t.name) then t.name[i] else 0
  {
    hide LE, Holds, StrLen;
    var b, f := TopicBytes(t), NameField(t.name);
    assert b[0..2] == LE(t.topicId, 2) && b[2..6] == LE(t.wireSize, 4) && b[6..38] == f;
    Placed(b, 0, t.topicId, 2);
    Placed(b, 2, t.wireSize, 4);
    assert StoredName(t.name) == t.name[..Cut(t.name)];
    forall i | 0 <= i < 32 ensures b[6 + i] == if i < Cut(t.name) then t.name[i] else 0 {
      assert b[6 + i] == b[6..38][i] == f[i];
    }
  }

  lemma RecordLayout(r: Record)
    ensures var b := RecordBytes(r);
            && |b| == 18 + |r.payload|
            && Holds(b, 0, r.topicId, 2) && Holds(b, 2, r.stamp, 8) && Holds(b, 10, r.seqNo, 8)
            && b[18..] == r.payload
  {
    hide LE, Holds;
    var b := RecordBytes(r);
    assert b[0..2] == LE(r.topicId, 2) && b[2..10] == LE(r.stamp, 8) && b[10..18] == LE(r.seqNo, 8);
    Placed(b, 0, r.topicId, 2);
    Placed(b, 2, r.stamp, 8);
    Placed(b, 10, r.seqNo, 8);
  }

  lemma {:induction false} TableLayout(ts: seq<Topic>, j: nat)
    requires j < |ts|
    ensures 38 * j + 38 <= |TableBytes(ts)| && TableBytes(ts)[38 * j..38 * j + 38] == TopicBytes(ts[j])
  {
    hide TopicBytes;
    var m := |ts| - 1;
    if j < m {
      TableLayout(ts[..m], j);
      assert ts[..m][j] == ts[j];
    }
  }

  /** A log is its header, entry j at 32 + 38 * j, and the records from 32 + 38 * count on, each
      where the ones before it end. */
  lemma LogLayout(createdAt: u64, ts: seq<Topic>, rs: seq<Record>, j: nat, k: nat)
    requires |ts| < TWO_32 && j < |ts| && k < |rs|
    ensures var b := Log(createdAt, ts, rs);
            var at := 32 + 38 * |ts| + |RecordsBytes(rs[..k])|;
            && |b| == 32 + 38 * |ts| + |RecordsBytes(rs)|
            && b[..32] == FileHeaderBytes(FileHeader(1, |ts|, createdAt))
            && b[32 + 38 * j..32 + 38 * j + 38] == TopicBytes(ts[j])
            && at + |RecordBytes(rs[k])| <= |b| && b[at..at + |RecordBytes(rs[k])|] == RecordBytes(rs[k])
  {
    hide FileHeaderBytes, TopicBytes, RecordBytes, RecordsBytes, TableBytes;
    var h := FileHeaderBytes(FileHeader(1, |ts|, createdAt));
    TableLayout(ts, j);
    RecordInside(rs, k);
    ThreeLayers(h, TableBytes(ts), RecordsBytes(rs), 38 * j, 38, |RecordsBytes(rs[..k])|, |RecordBytes(rs[k])|);
  }

  lemma RecordInside(rs: seq<Record>, k: nat)
    requires k < |rs|
    ensures var at, n := |RecordsBytes(rs[..k])|, |RecordBytes(rs[k])|;
            at + n <= |RecordsBytes(rs)| && RecordsBytes(rs)[at..at + n] == RecordBytes(rs[k])
  {
    hide RecordBytes, RecordsBytes;
    var a, b := rs[..k + 1], rs[k + 1..];
    assert rs == a + b && a == rs[..k] + [rs[k]];
    RecordsBytesConcat(a, b);
    RecordsBytesSnoc(rs[..k], rs[k]);
  }

  lemma ThreeLayers(u: seq<byte>, v: seq<byte>, w: seq<byte>, i: nat, m: nat, j: nat, n: nat)
    requires i + m <= |v| && j + n <= |w|
    ensures var b := u + v + w;
            && b[..|u|] == u && b[|u| + i..|u| + i + m] == v[i..i + m]
            && b[|u| + |v| + j..|u| + |v| + j + n] == w[j..j + n]
  {
    var b := u + v + w;
    assert b[|u| + i..|u| + i + m] == v[i..i + m];
  }

  lemma JoyLayout(v: JoyMsgs)
    ensures var b := JoyBytes(v);
            && |b| == 22 && Holds(b, 0, v.timestamp, 8) && Holds(b, 8, v.axis0, 4) && Holds(b, 12, v.axis2, 4)
            && b[16..] == [Flag(v.button0), Flag(v.button1), Flag(v.button3), Flag(v.button4), Flag(v.button5), Flag(v.button6)]
  {
    hide LE, Holds;
    var b := JoyBytes(v);
    assert b[0..8] == LE(v.timestamp, 8) && b[8..12] == LE(v.axis0, 4) && b[12..16] == LE(v.axis2, 4);
    Placed(b, 0, v.timestamp, 8);
    Placed(b, 8, v.axis0, 4);
    Placed(b, 12, v.axis2, 4);
  }

  /** The record the shipped recorder offers for a joystick sample: topic 4, the sample's own stamp
      and number, and the fields at their places in 22 bytes. */
  lemma JoyRecord(s: Sample<JoyMsgs>)
    requires s.kind == 0
    ensures var r, v := RecordFor([JoyType()], s), s.value;
            && r.topicId == 4 && r.stamp == s.stamp && r.seqNo == s.seqNo && |r.payload| == 22
            && Holds(r.payload, 0, v.timestamp, 8) && Holds(r.payload, 8, v.axis0, 4) && Holds(r.payload, 12, v.axis2, 4)
            && r.payload[16] == (if v.button0 then 1 else 0) && r.payload[17] == (if v.button1 then 1 else 0)
            && r.payload[18] == (if v.button3 then 1 else 0) && r.payload[19] == (if v.button4 then 1 else 0)
            && r.payload[20] == (if v.button5 then 1 else 0) && r.payload[21] == (if v.button6 then 1 else 0)
  {
    hide LE, Holds, JoyBytes;
    ShippedCodec(s.value, []);
    JoyLayout(s.value);
    var b := JoyBytes(s.value);
    assert b[16..][0] == b[16] && b[16..][1] == b[17] && b[16..][2] == b[18];
    assert b[16..][3] == b[19] && b[16..][4] == b[20] && b[16..][5] == b[21];
  }

  // ---------------------------------------------------------------- what is read

  lemma FieldRead(b: seq<byte>, off: nat, n: nat)
    requires off + n <= |b|
    ensures Holds(b, off, Val(b[off..off + n]), n)
  {
    LEVal(b[off..off + n]);
    Placed(b, off, Val(b[off..off + n]), n);
  }

  /** A header is read from any 32 bytes with the magic, whatever its reserved bytes hold. */
  lemma HeaderRead(b: seq<byte>)
    requires |b| >= 32
    ensures ParseFileHeader(b).None? <==> b[..8] != [73, 50, 87, 76, 79, 71, 0, 0]
    ensures ParseFileHeader(b).Some? ==>
              var h := ParseFileHeader(b).value;
              Holds(b, 8, h.version, 4) && Holds(b, 12, h.topicCount, 4) && Holds(b, 16, h.createdAt, 8)
  {
    hide Holds, Val;
    FieldRead(b, 8, 4);
    FieldRead(b, 12, 4);
    FieldRead(b, 16, 8);
  }

  lemma TopicRead(b: seq<byte>, off: nat)
    requires off + 38 <= |b|
    ensures var t := TopicAt(b, off);
            Holds(b, off, t.topicId, 2) && Holds(b, off + 2, t.wireSize, 4) && t.name == CStr(b[off + 6..off + 38])
  {
    hide Holds, Val, CStr;
    FieldRead(b, off, 2);
    FieldRead(b, off + 2, 4);
  }

  /** Entry j of a table is read at 32 + 38 * j. */
  lemma {:induction false} TableRead(b: seq<byte>, n: nat, j: nat)
    requires j < n && 32 + 38 * n <= |b|
    ensures TableTopics(b, n)[j] == TopicAt(b, 32 + 38 * j)
  {
    hide TopicAt;
    if j < n - 1 { TableRead(b, n - 1, j); }
  }

  lemma RecordHeaderRead(b: seq<byte>, off: nat)
    requires off + 18 <= |b|
    ensures var h := ParseRecordHeader(b, off);
            Holds(b, off, h.topicId, 2) && Holds(b, off + 2, h.stamp, 8) && Holds(b, off + 10, h.seqNo, 8)
  {
    hide Holds, Val;
    FieldRead(b, off, 2);
    FieldRead(b, off + 2, 8);
    FieldRead(b, off + 10, 8);
  }

  function Word(a: nat, b: nat, c: nat, d: nat): nat { a + 256 * b + 65536 * c + 16777216 * d }

  lemma FourBytes(w: seq<byte>)
    requires |w| == 4
    ensures Val(w) == Word(w[0], w[1], w[2], w[3])
  {
    assert Val(w[1..]) == w[1] + 256 * Val(w[2..]) by { assert w[1..][1..] == w[2..]; }
    assert Val(w[2..]) == w[2] + 256 * Val(w[3..]) by { assert w[2..][1..] == w[3..]; }
    assert Val(w[3..]) == w[3] by { assert w[3..][1..] == []; }
  }

  lemma WordOne(a: nat, b: nat, c: nat, d: nat)
    ensures Word(a, b, c, d) == 1 <==> a == 1 && b == 0 && c == 0 && d == 0
  {
  }

  lemma OneInFour(w: seq<byte>)
    requires |w| == 4
    ensures Val(w) == 1 <==> w == [1, 0, 0, 0]
  {
    hide Val, Word;
    FourBytes(w);
    WordOne(w[0], w[1], w[2], w[3]);
  }

  lemma AcceptedFields(b: seq<byte>)
    requires |b| >= 32
    ensures Parse(b).Some?
       <==> b[..8] == [73, 50, 87, 76, 79, 71, 0, 0] && Val(b[8..12]) == 1 && 32 + 38 * Val(b[12..16]) <= |b|
  {
    hide Val, TableTopics;
  }

  /** A file is accepted exactly when it has a whole header with the magic, the version bytes 1, 0,
      0, 0, and room for the table its count announces. */
  lemma AcceptedExactly(b: seq<byte>)
    ensures Parse(b).Some?
       <==> && |b| >= 32 && b[..8] == [73, 50, 87, 76, 79, 71, 0, 0] && b[8..12] == [1, 0, 0, 0]
            && 32 + 38 * Word(b[12], b[13], b[14], b[15]) <= |b|
  {
    if |b| >= 32 {
      hide Val, Parse, Word;
      AcceptedFields(b);
      OneInFour(b[8..12]);
      FourBytes(b[12..16]);
    }
  }
}
