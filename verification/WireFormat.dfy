/** On-disk layout: little-endian integers, the file header, a topic table entry and a
    record header. Each layout has a specification function on byte sequences and an
    imperative serialiser that fills a caller-owned buffer. */
module WireFormat {
  import opened Bits

  const FORMAT_VERSION: u32 := 1
  const FILE_HEADER_SIZE: nat := 32
  const TOPIC_META_SIZE: nat := 38
  const RECORD_HEADER_SIZE: nat := 18
  const NAME_SIZE: nat := 32
  const MAX_PAYLOAD: nat := 64
  // The eight bytes "I2WLOG" and two NULs.
  const MAGIC: seq<byte> := [73, 50, 87, 76, 79, 71, 0, 0]

  datatype Option<+T> = None | Some(value: T)

  datatype FileHeader = FileHeader(version: u32, topicCount: u32, createdAt: u64)
  datatype TopicMetaEntry = TopicMetaEntry(topicId: u16, structSize: u32, name: seq<byte>)
  datatype RecordHeader = RecordHeader(topicId: u16, stamp: u64, seqNo: u64)

  // ---------------------------------------------------------------- integers

  /** The n low-order bytes of v, least significant first. */
  function LE(v: nat, n: nat): (b: seq<byte>)
    ensures |b| == n
  {
    if n == 0 then [] else [v % 256] + LE(v / 256, n - 1)
  }

  /** The value a little-endian byte string stands for. */
  function Val(b: seq<byte>): (v: nat) {
    if b == [] then 0 else b[0] + 256 * Val(b[1..])
  }

  /** Decoding undoes encoding on every value that fits. */
  lemma {:induction false} ValLE(v: nat, n: nat)
    requires v < Pow2(8 * n)
    ensures Val(LE(v, n)) == v
  {
    if n > 0 {
      Pow2Byte(8 * (n - 1));
      ValLE(v / 256, n - 1);
      assert LE(v, n)[1..] == LE(v / 256, n - 1);
    }
  }

  /** Every byte string is the encoding of its value, so no two strings share one. */
  lemma {:induction false} LEVal(b: seq<byte>)
    ensures Val(b) < Pow2(8 * |b|)
    ensures LE(Val(b), |b|) == b
  {
    if b != [] {
      LEVal(b[1..]);
      Pow2Byte(8 * (|b| - 1));
      assert Val(b) % 256 == b[0] && Val(b) / 256 == Val(b[1..]);
    }
  }

  /** Byte i of the encoding is what `(v >> 8*i) & 0xFF` selects. */
  lemma {:induction false} LEAt(v: nat, n: nat, i: nat)
    requires i < n
    ensures LE(v, n)[i] == And(Shr(v, 8 * i), 255)
  {
    if i == 0 {
      MaskByte(v);
    } else {
      LEAt(v / 256, n - 1, i - 1);
      ShrByte(v, 8 * (i - 1));
    }
  }

  /** Appending one more significant byte ORs it in above the bits already decoded. */
  lemma {:induction false} ValSnoc(b: seq<byte>, x: byte)
    ensures Val(b) < Pow2(8 * |b|)
    ensures Val(b + [x]) == Or(Val(b), Shl(x, 8 * |b|))
  {
    LEVal(b);
    OrDisjoint(Val(b), x, 8 * |b|);
    ValSnocSum(b, x);
  }

  lemma {:induction false} ValSnocSum(b: seq<byte>, x: byte)
    ensures Val(b + [x]) == Val(b) + Shl(x, 8 * |b|)
  {
    if b == [] {
      assert b + [x] == [x];
      assert [x][1..] == [];
    } else {
      assert (b + [x])[1..] == b[1..] + [x];
      ValSnocSum(b[1..], x);
      ShlByte(x, 8 * (|b| - 1));
    }
  }

  lemma LEExpand(v: nat)
    ensures LE(v, 2) == [And(v, 255), And(Shr(v, 8), 255)]
    ensures LE(v, 4) == [And(v, 255), And(Shr(v, 8), 255), And(Shr(v, 16), 255), And(Shr(v, 24), 255)]
  {
    LEAt(v, 2, 0); LEAt(v, 2, 1);
    LEAt(v, 4, 0); LEAt(v, 4, 1); LEAt(v, 4, 2); LEAt(v, 4, 3);
  }

  lemma AndBelow(a: nat)
    ensures And(a, 255) < 256
  {
    MaskByte(a);
  }

  method EncodeU16(out: array<byte>, off: nat, v: u16)
    requires off + 2 <= out.Length
    modifies out
    ensures out[off..off + 2] == LE(v, 2)
    ensures out[..off] == old(out[..off]) && out[off + 2..] == old(out[off + 2..])
  {
    AndBelow(v); AndBelow(Shr(v, 8));
    LEExpand(v);
    out[off] := And(v, 0xFF);
    out[off + 1] := And(Shr(v, 8), 0xFF);
  }

  method EncodeU32(out: array<byte>, off: nat, v: u32)
    requires off + 4 <= out.Length
    modifies out
    ensures out[off..off + 4] == LE(v, 4)
    ensures out[..off] == old(out[..off]) && out[off + 4..] == old(out[off + 4..])
  {
    AndBelow(v); AndBelow(Shr(v, 8)); AndBelow(Shr(v, 16)); AndBelow(Shr(v, 24));
    LEExpand(v);
    out[off] := And(v, 0xFF);
    out[off + 1] := And(Shr(v, 8), 0xFF);
    out[off + 2] := And(Shr(v, 16), 0xFF);
    out[off + 3] := And(Shr(v, 24), 0xFF);
  }

  method EncodeU64(out: array<byte>, off: nat, v: u64)
    requires off + 8 <= out.Length
    modifies out
    ensures out[off..off + 8] == LE(v, 8)
    ensures out[..off] == old(out[..off]) && out[off + 8..] == old(out[off + 8..])
  {
    for i := 0 to 8
      invariant out[off..off + i] == LE(v, 8)[..i]
      invariant out[..off] == old(out[..off]) && out[off + 8..] == old(out[off + 8..])
    {
      AndBelow(Shr(v, 8 * i));
      LEAt(v, 8, i);
      out[off + i] := And(Shr(v, 8 * i), 0xFF);
      assert out[off..off + i + 1] == out[off..off + i] + [out[off + i]];
    }
  }

  method DecodeU16(b: seq<byte>, off: nat) returns (v: u16)
    requires off + 2 <= |b|
    ensures v == Val(b[off..off + 2])
  {
    ghost var w := b[off..off + 2];
    ValSnoc([w[0]], w[1]);
    assert [w[0]] + [w[1]] == w && Val([w[0]]) == w[0];
    Bound(w);
    v := Or(b[off], Shl(b[off + 1], 8));
  }

  method DecodeU32(b: seq<byte>, off: nat) returns (v: u32)
    requires off + 4 <= |b|
    ensures v == Val(b[off..off + 4])
  {
    ghost var w := b[off..off + 4];
    assert Val([w[0]]) == w[0];
    assert w[..2] == [w[0]] + [w[1]];
    assert w[..3] == w[..2] + [w[2]];
    assert w == w[..3] + [w[3]];
    ValSnoc([w[0]], w[1]);
    ValSnoc(w[..2], w[2]);
    ValSnoc(w[..3], w[3]);
    Bound(w);
    v := Or(Or(Or(b[off], Shl(b[off + 1], 8)), Shl(b[off + 2], 16)), Shl(b[off + 3], 24));
  }

  method DecodeU64(b: seq<byte>, off: nat) returns (v: u64)
    requires off + 8 <= |b|
    ensures v == Val(b[off..off + 8])
  {
    var acc: nat := 0;
    for i := 0 to 8
      invariant acc == Val(b[off..off + i])
    {
      assert b[off..off + i + 1] == b[off..off + i] + [b[off + i]];
      ValSnoc(b[off..off + i], b[off + i]);
      acc := Or(acc, Shl(b[off + i], 8 * i));
    }
    Bound(b[off..off + 8]);
    v := acc;
  }

  /** A field of 2, 4 or 8 bytes decodes into its integer type. */
  lemma Bound(b: seq<byte>)
    ensures |b| == 2 ==> Val(b) < 0x1_0000
    ensures |b| == 4 ==> Val(b) < TWO_32
    ensures |b| == 8 ==> Val(b) < TWO_64
  {
    LEVal(b);
    Pow2Values();
  }

  function U16At(b: seq<byte>, off: nat): (v: u16)
    requires off + 2 <= |b|
  {
    Bound(b[off..off + 2]);
    Val(b[off..off + 2])
  }

  function U32At(b: seq<byte>, off: nat): (v: u32)
    requires off + 4 <= |b|
  {
    Bound(b[off..off + 4]);
    Val(b[off..off + 4])
  }

  function U64At(b: seq<byte>, off: nat): (v: u64)
    requires off + 8 <= |b|
  {
    Bound(b[off..off + 8]);
    Val(b[off..off + 8])
  }

  // ---------------------------------------------------------------- C strings

  function Zeros(n: nat): (z: seq<byte>)
    ensures |z| == n && forall i :: 0 <= i < n ==> z[i] == 0
  {
    seq(n, i => 0)
  }

  /** `strlen`: the position of the first NUL, or the whole length when there is none. */
  function StrLen(s: seq<byte>): (n: nat)
    ensures n <= |s| && (n < |s| ==> s[n] == 0)
    ensures forall i :: 0 <= i < n ==> s[i] != 0
  {
    if s == [] || s[0] == 0 then 0 else 1 + StrLen(s[1..])
  }

  function CStr(s: seq<byte>): (c: seq<byte>)
    ensures c <= s && 0 !in c
  {
    s[..StrLen(s)]
  }

  lemma StrLenUnique(s: seq<byte>, n: nat)
    requires n <= |s| && (n < |s| ==> s[n] == 0) && forall i :: 0 <= i < n ==> s[i] != 0
    ensures StrLen(s) == n
  {
    var m := StrLen(s);
    assert !(m < n);
    assert !(n < m);
  }

  /** What survives of a topic name on disk: cut at its first NUL and at 31 bytes. */
  function StoredName(name: seq<byte>): (c: seq<byte>)
    ensures |c| <= 31 && c <= name && 0 !in c
  {
    var c := CStr(name);
    if |c| <= 31 then c else c[..31]
  }

  /** The 32-byte name field `snprintf` leaves behind. */
  function NameField(name: seq<byte>): (f: seq<byte>)
    ensures |f| == NAME_SIZE && CStr(f) == StoredName(name)
  {
    var c := StoredName(name);
    var f := c + Zeros(NAME_SIZE - |c|);
    assert StrLen(f) == |c| by {
      assert f[|c|] == 0;
      assert forall i :: 0 <= i < |c| ==> f[i] == c[i];
      StrLenUnique(f, |c|);
    }
    f
  }

  // ---------------------------------------------------------------- layouts

  function FileHeaderBytes(h: FileHeader): (b: seq<byte>)
    ensures |b| == FILE_HEADER_SIZE
  {
    MAGIC + LE(h.version, 4) + LE(h.topicCount, 4) + LE(h.createdAt, 8) + Zeros(8)
  }

  function ParseFileHeader(b: seq<byte>): (r: Option<FileHeader>)
    requires |b| >= FILE_HEADER_SIZE
  {
    if b[..8] != MAGIC then None
    else Some(FileHeader(U32At(b, 8), U32At(b, 12), U64At(b, 16)))
  }

  lemma FileHeaderRoundTrip(b: seq<byte>, h: FileHeader)
    requires |b| >= FILE_HEADER_SIZE && b[..FILE_HEADER_SIZE] == FileHeaderBytes(h)
    ensures ParseFileHeader(b) == Some(h)
  {
    var w := FileHeaderBytes(h);
    assert b[..8] == w[..8] == MAGIC;
    assert b[8..12] == w[8..12] == LE(h.version, 4);
    assert b[12..16] == w[12..16] == LE(h.topicCount, 4);
    assert b[16..24] == w[16..24] == LE(h.createdAt, 8);
    FieldValues(h.version, h.topicCount, h.createdAt);
  }

  lemma FieldValues(a: u32, b: u32, c: u64)
    ensures Val(LE(a, 4)) == a && Val(LE(b, 4)) == b && Val(LE(c, 8)) == c
  {
    Pow2Values();
    ValLE(a, 4); ValLE(b, 4); ValLE(c, 8);
  }

  /** One serialised table entry: the name is re-measured with `strlen` and zero padded. */
  function TopicMetaBytes(e: TopicMetaEntry): (b: seq<byte>)
    ensures |b| == TOPIC_META_SIZE
  {
    LE(e.topicId, 2) + LE(e.structSize, 4) + NameField(e.name)
  }

  function ParseTopicMeta(b: seq<byte>, off: nat): (e: TopicMetaEntry)
    requires off + TOPIC_META_SIZE <= |b|
    ensures |e.name| == NAME_SIZE
  {
    TopicMetaEntry(U16At(b, off), U32At(b, off + 2), b[off + 6..off + 38])
  }

  lemma SliceOfSlice(b: seq<byte>, off: nat, n: nat, i: nat, j: nat)
    requires i <= j <= n && off + n <= |b|
    ensures b[off..off + n][i..j] == b[off + i..off + j]
  {
    var x, y := b[off..off + n][i..j], b[off + i..off + j];
    assert |x| == |y|;
    forall k | 0 <= k < |x| ensures x[k] == y[k] {
      assert x[k] == b[off..off + n][i + k] == b[off + (i + k)];
      assert y[k] == b[(off + i) + k];
    }
  }

  lemma ThreeFields(b: seq<byte>, off: nat, u: seq<byte>, v: seq<byte>, w: seq<byte>)
    requires off + |u| + |v| + |w| <= |b| && b[off..off + |u| + |v| + |w|] == u + v + w
    ensures b[off..off + |u|] == u && b[off + |u|..off + |u| + |v|] == v
    ensures b[off + |u| + |v|..off + |u| + |v| + |w|] == w
  {
    var i, j, n := |u|, |u| + |v|, |u| + |v| + |w|;
    SliceOfSlice(b, off, n, 0, i);
    SliceOfSlice(b, off, n, i, j);
    SliceOfSlice(b, off, n, j, n);
    var all := u + v + w;
    assert all[0..i] == u && all[i..j] == v && all[j..n] == w;
  }

  lemma TopicMetaRoundTrip(b: seq<byte>, off: nat, e: TopicMetaEntry)
    requires off + TOPIC_META_SIZE <= |b| && b[off..off + TOPIC_META_SIZE] == TopicMetaBytes(e)
    ensures ParseTopicMeta(b, off) == e.(name := NameField(e.name))
  {
    ThreeFields(b, off, LE(e.topicId, 2), LE(e.structSize, 4), NameField(e.name));
    Pow2Values();
    ValLE(e.topicId, 2);
    ValLE(e.structSize, 4);
  }

  function RecordHeaderBytes(h: RecordHeader): (b: seq<byte>)
    ensures |b| == RECORD_HEADER_SIZE
  {
    LE(h.topicId, 2) + LE(h.stamp, 8) + LE(h.seqNo, 8)
  }

  function ParseRecordHeader(b: seq<byte>, off: nat): (h: RecordHeader)
    requires off + RECORD_HEADER_SIZE <= |b|
  {
    RecordHeader(U16At(b, off), U64At(b, off + 2), U64At(b, off + 10))
  }

  /** Re-serialising a parsed record header gives back the bytes it was parsed from. */
  lemma RecordHeaderBytesOf(b: seq<byte>, off: nat)
    requires off + RECORD_HEADER_SIZE <= |b|
    ensures RecordHeaderBytes(ParseRecordHeader(b, off)) == b[off..off + RECORD_HEADER_SIZE]
  {
    hide LE, Val;
    var u, v, w := b[off..off + 2], b[off + 2..off + 10], b[off + 10..off + 18];
    LEVal(u);
    LEVal(v);
    LEVal(w);
    Consecutive(b, off, off + 2, off + 10, off + 18);
  }

  lemma Consecutive(b: seq<byte>, i: nat, j: nat, k: nat, l: nat)
    requires i <= j <= k <= l <= |b|
    ensures b[i..l] == b[i..j] + b[j..k] + b[k..l]
  {
  }

  lemma RecordHeaderRoundTrip(b: seq<byte>, off: nat, h: RecordHeader)
    requires off + RECORD_HEADER_SIZE <= |b| && b[off..off + RECORD_HEADER_SIZE] == RecordHeaderBytes(h)
    ensures ParseRecordHeader(b, off) == h
  {
    var w := RecordHeaderBytes(h);
    assert b[off..off + 2] == w[..2] == LE(h.topicId, 2);
    assert b[off + 2..off + 10] == w[2..10] == LE(h.stamp, 8);
    assert b[off + 10..off + 18] == w[10..18] == LE(h.seqNo, 8);
    Pow2Values();
    ValLE(h.topicId, 2); ValLE(h.stamp, 8); ValLE(h.seqNo, 8);
  }

  // ---------------------------------------------------------------- buffer routines

  /** `memcpy` of src[..n] to the front of the region at off. */
  method CopyInto(out: array<byte>, off: nat, src: seq<byte>)
    requires off + |src| <= out.Length
    modifies out
    ensures out[off..off + |src|] == src
    ensures out[..off] == old(out[..off]) && out[off + |src|..] == old(out[off + |src|..])
  {
    for i := 0 to |src|
      invariant out[off..off + i] == src[..i]
      invariant out[..off] == old(out[..off]) && out[off + |src|..] == old(out[off + |src|..])
    {
      out[off + i] := src[i];
      assert out[off..off + i + 1] == out[off..off + i] + [out[off + i]];
    }
  }

  method SerializeFileHeader(h: FileHeader, out: array<byte>)
    requires out.Length == FILE_HEADER_SIZE
    modifies out
    ensures out[..] == FileHeaderBytes(h)
  {
    CopyInto(out, 0, MAGIC);
    EncodeU32(out, 8, h.version);
    assert out[..8] == MAGIC;
    EncodeU32(out, 12, h.topicCount);
    assert out[..12] == MAGIC + LE(h.version, 4);
    EncodeU64(out, 16, h.createdAt);
    assert out[..16] == MAGIC + LE(h.version, 4) + LE(h.topicCount, 4);
    CopyInto(out, 24, Zeros(8));
    assert out[..24] == MAGIC + LE(h.version, 4) + LE(h.topicCount, 4) + LE(h.createdAt, 8);
    assert out[..] == out[..24] + out[24..32];
  }

  method DeserializeFileHeader(b: seq<byte>) returns (r: Option<FileHeader>)
    requires |b| >= FILE_HEADER_SIZE
    ensures r == ParseFileHeader(b)
    ensures r.None? <==> b[..8] != [73, 50, 87, 76, 79, 71, 0, 0]
  {
    if b[..8] != MAGIC {
      return None;
    }
    var version := DecodeU32(b, 8);
    var topicCount := DecodeU32(b, 12);
    var createdAt := DecodeU64(b, 16);
    r := Some(FileHeader(version, topicCount, createdAt));
  }

  /** The in-memory name is a 32-byte array; the source demands a NUL inside it. */
  method SerializeTopicMeta(e: TopicMetaEntry, out: array<byte>)
    requires out.Length == TOPIC_META_SIZE && |e.name| == NAME_SIZE && 0 in e.name
    modifies out
    ensures out[..] == TopicMetaBytes(e)
  {
    NameFieldParts(e.name);
    hide LE, StrLen, StoredName, Zeros, NameField;
    var len := StrLen(e.name);
    var kept := e.name[..if len < 32 then len else 31];
    KeptIsStored(e.name, kept);
    EncodeU16(out, 0, e.topicId);
    EncodeU32(out, 2, e.structSize);
    assert out[..6] == out[..2] + out[2..6];
    CopyInto(out, 6, Zeros(32));
    ZerosTail(32, |kept|);
    assert out[6 + |kept|..] == out[6..][|kept|..];
    CopyInto(out, 6, kept);
    assert out[6..] == out[6..6 + |kept|] + out[6 + |kept|..];
    assert out[..] == out[..6] + out[6..];
  }

  lemma NameFieldParts(name: seq<byte>)
    ensures NameField(name) == StoredName(name) + Zeros(NAME_SIZE - |StoredName(name)|)
  {
  }

  lemma KeptIsStored(name: seq<byte>, kept: seq<byte>)
    requires kept == name[..if StrLen(name) < 32 then StrLen(name) else 31]
    ensures kept == StoredName(name)
  {
  }

  lemma ZerosTail(n: nat, k: nat)
    requires k <= n
    ensures Zeros(n)[k..] == Zeros(n - k)
  {
  }

  method DeserializeTopicMeta(b: seq<byte>, off: nat) returns (e: TopicMetaEntry)
    requires off + TOPIC_META_SIZE <= |b|
    ensures e == ParseTopicMeta(b, off)
  {
    var id := DecodeU16(b, off);
    var size := DecodeU32(b, off + 2);
    e := TopicMetaEntry(id, size, b[off + 6..off + 38]);
  }

  method SerializeRecordHeader(h: RecordHeader, out: array<byte>)
    requires out.Length == RECORD_HEADER_SIZE
    modifies out
    ensures out[..] == RecordHeaderBytes(h)
  {
    EncodeU16(out, 0, h.topicId);
    EncodeU64(out, 2, h.stamp);
    assert out[..2] == LE(h.topicId, 2);
    EncodeU64(out, 10, h.seqNo);
    assert out[..10] == LE(h.topicId, 2) + LE(h.stamp, 8);
    assert out[..] == out[..10] + out[10..18];
  }

  method DeserializeRecordHeader(b: seq<byte>, off: nat) returns (h: RecordHeader)
    requires off + RECORD_HEADER_SIZE <= |b|
    ensures h == ParseRecordHeader(b, off)
  {
    var id := DecodeU16(b, off);
    var stamp := DecodeU64(b, off + 2);
    var seqNo := DecodeU64(b, off + 10);
    h := RecordHeader(id, stamp, seqNo);
  }
}
