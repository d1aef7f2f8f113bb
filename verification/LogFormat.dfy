/** The `.bin` log as a value: what a writer lays down, what a reader takes back, and the
    round-trip, torn-tail and tiling laws between the two. */
module LogFormat {
  import opened Bits
  import opened WireFormat

  datatype Record = Record(topicId: u16, stamp: u64, seqNo: u64, payload: seq<byte>)

  /** A topic as the recorder announces it and as the reader resolves it. */
  datatype Topic = Topic(topicId: u16, wireSize: u32, name: seq<byte>)

  type TopicTable = map<u16, Topic>

  /** Where a table of n entries ends and the records start. */
  function TableEnd(n: nat): (e: nat)
    ensures e >= FILE_HEADER_SIZE
  {
    32 + 38 * n
  }

  /** `static_cast<uint32_t>` of a size. */
  function Truncate32(n: nat): (v: u32)
    ensures n < TWO_32 ==> v == n
  {
    n % 0x1_0000_0000
  }

  // ---------------------------------------------------------------- writing

  function HeaderOf(r: Record): RecordHeader { RecordHeader(r.topicId, r.stamp, r.seqNo) }

  function RecordBytes(r: Record): (b: seq<byte>)
    ensures |b| == RECORD_HEADER_SIZE + |r.payload|
  {
    RecordHeaderBytes(HeaderOf(r)) + r.payload
  }

  function RecordsBytes(rs: seq<Record>): (b: seq<byte>) {
    if rs == [] then [] else RecordBytes(rs[0]) + RecordsBytes(rs[1..])
  }

  function TopicBytes(t: Topic): (b: seq<byte>)
    ensures |b| == TOPIC_META_SIZE
  {
    TopicMetaBytes(TopicMetaEntry(t.topicId, t.wireSize, t.name))
  }

  function TableBytes(ts: seq<Topic>): (b: seq<byte>)
    ensures |b| == 38 * |ts|
  {
    if ts == [] then [] else TableBytes(ts[..|ts| - 1]) + TopicBytes(ts[|ts| - 1])
  }

  /** Header and table; the count field is the topic count truncated to 32 bits. */
  function Preamble(createdAt: u64, ts: seq<Topic>): (b: seq<byte>)
    ensures |b| == TableEnd(|ts|)
  {
    FileHeaderBytes(FileHeader(FORMAT_VERSION, Truncate32(|ts|), createdAt)) + TableBytes(ts)
  }

  function Log(createdAt: u64, ts: seq<Topic>, rs: seq<Record>): (b: seq<byte>) {
    Preamble(createdAt, ts) + RecordsBytes(rs)
  }

  lemma {:induction false} RecordsBytesConcat(a: seq<Record>, b: seq<Record>)
    ensures RecordsBytes(a + b) == RecordsBytes(a) + RecordsBytes(b)
  {
    if a == [] {
      assert a + b == b;
    } else {
      assert (a + b)[1..] == a[1..] + b;
      RecordsBytesConcat(a[1..], b);
    }
  }

  lemma RecordsBytesSnoc(rs: seq<Record>, r: Record)
    ensures RecordsBytes(rs + [r]) == RecordsBytes(rs) + RecordBytes(r)
  {
    RecordsBytesConcat(rs, [r]);
    assert [r][1..] == [];
    assert RecordsBytes([r]) == RecordBytes(r) + [];
  }

  // ---------------------------------------------------------------- the topic table

  /** Repeated assignment into a dictionary that may already hold entries. */
  function Extend(m: TopicTable, ts: seq<Topic>): TopicTable {
    if ts == [] then m else Extend(m, ts[..|ts| - 1])[ts[|ts| - 1].topicId := ts[|ts| - 1]]
  }

  /** The lookup of a fresh reader: the last entry wins. */
  function ById(ts: seq<Topic>): TopicTable { Extend(map[], ts) }

  /** Every id found comes from some entry of the table. */
  lemma {:induction false} ByIdEntry(ts: seq<Topic>, id: u16) returns (i: nat)
    requires id in ById(ts)
    ensures i < |ts| && ById(ts)[id] == ts[i] && ts[i].topicId == id
  {
    var n := |ts| - 1;
    if ts[n].topicId == id {
      i := n;
    } else {
      i := ByIdEntry(ts[..n], id);
    }
  }

  /** The entry found for an id is the one at the last position holding that id. */
  lemma {:induction false} ByIdIsLast(ts: seq<Topic>, i: nat)
    requires i < |ts|
    ensures ts[i].topicId in ById(ts)
    ensures (forall j :: i < j < |ts| ==> ts[j].topicId != ts[i].topicId) ==> ById(ts)[ts[i].topicId] == ts[i]
  {
    var n := |ts| - 1;
    if i < n {
      ByIdIsLast(ts[..n], i);
      assert ts[..n][i] == ts[i];
    }
  }

  predicate Fits(table: TopicTable, r: Record) {
    r.topicId in table && |r.payload| == table[r.topicId].wireSize
  }

  predicate AllFit(table: TopicTable, rs: seq<Record>) {
    forall i :: 0 <= i < |rs| ==> Fits(table, rs[i])
  }

  // ---------------------------------------------------------------- parsing

  function TopicAt(b: seq<byte>, off: nat): (t: Topic)
    requires off + TOPIC_META_SIZE <= |b|
  {
    var e := ParseTopicMeta(b, off);
    Topic(e.topicId, e.structSize, CStr(e.name))
  }

  /** The first n entries of the table of file b. */
  function TableTopics(b: seq<byte>, n: nat): (ts: seq<Topic>)
    requires TableEnd(n) <= |b|
    ensures |ts| == n
  {
    if n == 0 then [] else TableTopics(b, n - 1) + [TopicAt(b, TableEnd(n - 1))]
  }

  datatype Parsed = Parsed(topics: seq<Topic>, start: nat)

  function Parse(b: seq<byte>): (p: Option<Parsed>)
    ensures p.Some? ==> p.value.start == TableEnd(|p.value.topics|) <= |b|
  {
    if |b| < FILE_HEADER_SIZE then None
    else match ParseFileHeader(b)
      case None => None
      case Some(h) =>
        if h.version != FORMAT_VERSION then None
        else if TableEnd(h.topicCount) > |b| then None
        else Some(Parsed(TableTopics(b, h.topicCount), TableEnd(h.topicCount)))
  }

  /** The record at off, unless the header is cut short, the topic unknown or the payload cut short. */
  function RecordAt(b: seq<byte>, off: nat, table: TopicTable): (r: Option<Record>)
    ensures r.Some? ==> Fits(table, r.value) && off + RECORD_HEADER_SIZE + |r.value.payload| <= |b|
  {
    if off + RECORD_HEADER_SIZE > |b| then None
    else
      var h := ParseRecordHeader(b, off);
      if h.topicId !in table then None
      else
        var p := off + RECORD_HEADER_SIZE;
        var size := table[h.topicId].wireSize;
        if p + size > |b| then None
        else
          Some(Record(h.topicId, h.stamp, h.seqNo, b[p..p + size]))
  }

  function Walk(b: seq<byte>, off: nat, table: TopicTable): (rs: seq<Record>)
    decreases |b| - off
  {
    match RecordAt(b, off, table)
    case None => []
    case Some(r) => [r] + Walk(b, off + RECORD_HEADER_SIZE + |r.payload|, table)
  }

  /** What a reader hands to its callback for a whole file, or None when the file is refused. */
  function Replay(b: seq<byte>): (rs: Option<seq<Record>>) {
    match Parse(b)
    case None => None
    case Some(p) => Some(Walk(b, p.start, ById(p.topics)))
  }

  // ---------------------------------------------------------------- tiling

  /** A delivered record re-serialises to the bytes it was read from. */
  lemma RecordAtBytes(b: seq<byte>, off: nat, table: TopicTable)
    requires RecordAt(b, off, table).Some?
    ensures var w := RecordBytes(RecordAt(b, off, table).value);
            off + |w| <= |b| && b[off..off + |w|] == w
  {
    RecordHeaderBytesOf(b, off);
    var p := off + RECORD_HEADER_SIZE;
    var e := p + |RecordAt(b, off, table).value.payload|;
    assert b[off..e] == b[off..p] + b[p..e];
  }

  /** rs is laid out contiguously in b from off, within bounds and in agreement with the table. */
  ghost predicate Tiles(b: seq<byte>, off: nat, table: TopicTable, rs: seq<Record>) {
    && AllFit(table, rs)
    && off + |RecordsBytes(rs)| <= |b|
    && b[off..off + |RecordsBytes(rs)|] == RecordsBytes(rs)
  }

  /** On arbitrary bytes the delivered records tile the region, re-serialise to exactly the
      bytes consumed, and delivery stops only where no further record can be read. */
  lemma {:induction false} WalkTiles(b: seq<byte>, off: nat, table: TopicTable)
    requires off <= |b|
    ensures Tiles(b, off, table, Walk(b, off, table))
    ensures RecordAt(b, off + |RecordsBytes(Walk(b, off, table))|, table).None?
    decreases |b| - off
  {
    hide RecordAt, RecordBytes;
    match RecordAt(b, off, table)
    case None =>
      assert b[off..off] == [];
    case Some(r) =>
      var n := off + |RecordBytes(r)|;
      RecordAtBytes(b, off, table);
      WalkTiles(b, n, table);
      var rest := Walk(b, n, table);
      assert ([r] + rest)[1..] == rest;
      assert RecordsBytes([r] + rest) == RecordBytes(r) + RecordsBytes(rest);
      JoinTiling(b, off, RecordBytes(r), RecordsBytes(rest));
  }

  /** A record laid out at off is the one the reader finds there. */
  lemma RecordAtOf(b: seq<byte>, off: nat, table: TopicTable, r: Record)
    requires Fits(table, r) && off + |RecordBytes(r)| <= |b|
    requires b[off..off + |RecordBytes(r)|] == RecordBytes(r)
    ensures RecordAt(b, off, table) == Some(r)
  {
    var w, n := RecordBytes(r), |RecordBytes(r)|;
    var p := off + RECORD_HEADER_SIZE;
    assert b[off..p] == b[off..off + n][..RECORD_HEADER_SIZE] == w[..RECORD_HEADER_SIZE];
    assert w[..RECORD_HEADER_SIZE] == RecordHeaderBytes(HeaderOf(r));
    RecordHeaderRoundTrip(b, off, HeaderOf(r));
    assert b[p..off + n] == b[off..off + n][RECORD_HEADER_SIZE..] == w[RECORD_HEADER_SIZE..] == r.payload;
  }

  /** Any tiling of the region is a prefix of what the reader delivers: with `WalkTiles`,
      delivery is the unique longest tiling. */
  lemma {:induction false} WalkIsLongest(b: seq<byte>, off: nat, table: TopicTable, rs: seq<Record>)
    requires Tiles(b, off, table, rs)
    ensures rs <= Walk(b, off, table)
    decreases |rs|
  {
    hide RecordAt, RecordBytes;
    if rs != [] {
      var r, n := rs[0], off + |RecordBytes(rs[0])|;
      HeadOfTiling(b, off, RecordBytes(r), RecordsBytes(rs[1..]));
      RecordAtOf(b, off, table, r);
      WalkIsLongest(b, n, table, rs[1..]);
    }
  }

  lemma {:induction false} RecordsBytesLonger(rs: seq<Record>)
    ensures |RecordsBytes(rs)| >= RECORD_HEADER_SIZE * |rs|
  {
    if rs != [] { RecordsBytesLonger(rs[1..]); }
  }

  lemma RecordsBytesMonotone(a: seq<Record>, b: seq<Record>)
    requires a <= b
    ensures |RecordsBytes(b)| >= |RecordsBytes(a)| + RECORD_HEADER_SIZE * (|b| - |a|)
  {
    assert b == a + b[|a|..];
    RecordsBytesConcat(a, b[|a|..]);
    RecordsBytesLonger(b[|a|..]);
  }

  /** Records that tile a region to its very end are all that is delivered. */
  lemma WalkExact(b: seq<byte>, off: nat, table: TopicTable, rs: seq<Record>)
    requires Tiles(b, off, table, rs) && off + |RecordsBytes(rs)| == |b|
    ensures Walk(b, off, table) == rs
  {
    hide Walk, RecordsBytes;
    WalkIsLongest(b, off, table, rs);
    var got := Walk(b, off, table);
    assert |RecordsBytes(got)| <= |RecordsBytes(rs)| by { WalkTiles(b, off, table); }
    RecordsBytesMonotone(rs, got);
  }

  lemma TilesAfter(pre: seq<byte>, table: TopicTable, rs: seq<Record>, w: seq<byte>)
    requires AllFit(table, rs) && w == RecordsBytes(rs)
    ensures Tiles(pre + w, |pre|, table, rs)
  {
    assert (pre + w)[|pre|..|pre| + |w|] == w;
  }

  /** Reading back a region of well-sized records returns them. */
  lemma WalkOfRecords(pre: seq<byte>, table: TopicTable, rs: seq<Record>)
    requires AllFit(table, rs)
    ensures Walk(pre + RecordsBytes(rs), |pre|, table) == rs
  {
    TilesAfter(pre, table, rs, RecordsBytes(rs));
    WalkExact(pre + RecordsBytes(rs), |pre|, table, rs);
  }

  /** For a fixed table the record region has one reading only. */
  lemma Unambiguous(table: TopicTable, rs: seq<Record>, qs: seq<Record>)
    requires AllFit(table, rs) && AllFit(table, qs) && RecordsBytes(rs) == RecordsBytes(qs)
    ensures rs == qs
  {
    WalkOfRecords([], table, rs);
    WalkOfRecords([], table, qs);
  }

  // ---------------------------------------------------------------- torn tail

  /** m records end at or before byte n of the record region and the next one does not. */
  predicate WhollyInside(rs: seq<Record>, n: nat, m: nat) {
    && m <= |rs|
    && |RecordsBytes(rs[..m])| <= n
    && (m < |rs| ==> n < |RecordsBytes(rs[..m + 1])|)
  }

  /** Cutting a file short never changes a record that is still delivered. */
  lemma WalkOfPrefix(b: seq<byte>, off: nat, table: TopicTable, n: nat)
    requires off <= n <= |b|
    ensures Walk(b[..n], off, table) <= Walk(b, off, table)
  {
    hide Walk, RecordsBytes;
    var got := Walk(b[..n], off, table);
    WalkTiles(b[..n], off, table);
    var g := off + |RecordsBytes(got)|;
    SliceOfPrefix(b, n, off, g);
    WalkIsLongest(b, off, table, got);
  }

  /** Cutting the region anywhere loses exactly the records not wholly inside. */
  lemma TornRegion(b: seq<byte>, off: nat, table: TopicTable, rs: seq<Record>, n: nat, m: nat)
    requires Tiles(b, off, table, rs) && off + |RecordsBytes(rs)| == |b|
    requires n <= |RecordsBytes(rs)| && WhollyInside(rs, n, m)
    ensures Walk(b[..off + n], off, table) == rs[..m]
  {
    hide Walk, RecordsBytes;
    var got := Walk(b[..off + n], off, table);
    assert got == rs[..|got|] by {
      WalkOfPrefix(b, off, table, off + n);
      WalkExact(b, off, table, rs);
    }
    assert rs[..m] <= got by { KeptRecordsTile(b, off, table, rs, n, m); }
    assert |RecordsBytes(got)| <= n by { WalkTiles(b[..off + n], off, table); }
    if m < |got| {
      assert rs[..m + 1] <= got;
      RecordsBytesMonotone(rs[..m + 1], got);
    }
  }

  lemma KeptRecordsTile(b: seq<byte>, off: nat, table: TopicTable, rs: seq<Record>, n: nat, m: nat)
    requires Tiles(b, off, table, rs) && off + |RecordsBytes(rs)| == |b|
    requires n <= |RecordsBytes(rs)| && m <= |rs| && |RecordsBytes(rs[..m])| <= n
    ensures rs[..m] <= Walk(b[..off + n], off, table)
  {
    hide Walk, RecordsBytes;
    var kept, cut := rs[..m], b[..off + n];
    assert rs == kept + rs[m..];
    RecordsBytesConcat(kept, rs[m..]);
    var u, v := RecordsBytes(kept), RecordsBytes(rs[m..]);
    HeadOfTiling(b, off, u, v);
    SliceOfPrefix(b, off + n, off, off + |u|);
    WalkIsLongest(cut, off, table, kept);
  }

  lemma SliceOfPrefix(b: seq<byte>, n: nat, i: nat, j: nat)
    requires i <= j <= n <= |b|
    ensures b[..n][i..j] == b[i..j]
  {
  }

  lemma JoinTiling(b: seq<byte>, off: nat, u: seq<byte>, v: seq<byte>)
    requires off + |u| + |v| <= |b| && b[off..off + |u|] == u && b[off + |u|..off + |u| + |v|] == v
    ensures b[off..off + |u| + |v|] == u + v
  {
  }

  lemma HeadOfTiling(b: seq<byte>, off: nat, u: seq<byte>, v: seq<byte>)
    requires off + |u| + |v| <= |b| && b[off..off + |u| + |v|] == u + v
    ensures b[off..off + |u|] == u && b[off + |u|..off + |u| + |v|] == v
  {
    assert b[off..off + |u|] == b[off..off + |u| + |v|][..|u|];
    assert b[off + |u|..off + |u| + |v|] == b[off..off + |u| + |v|][|u|..];
  }

  /** There is always such a count, and only one. */
  lemma {:induction false} WhollyInsideCount(rs: seq<Record>, n: nat) returns (m: nat)
    ensures WhollyInside(rs, n, m)
    ensures forall k: nat :: WhollyInside(rs, n, k) ==> k == m
  {
    m := 0;
    assert rs[..0] == [];
    while m < |rs| && |RecordsBytes(rs[..m + 1])| <= n
      invariant m <= |rs| && |RecordsBytes(rs[..m])| <= n
    {
      m := m + 1;
    }
    forall k: nat | WhollyInside(rs, n, k) ensures k == m {
      if k < m {
        RecordsBytesMonotone(rs[..k + 1], rs[..m]);
      } else if m < k {
        RecordsBytesMonotone(rs[..m + 1], rs[..k]);
      }
    }
  }

  // ---------------------------------------------------------------- table round trip

  function Stored(ts: seq<Topic>): (ss: seq<Topic>)
    ensures |ss| == |ts|
    ensures forall i :: 0 <= i < |ts| ==> ss[i] == ts[i].(name := StoredName(ts[i].name))
  {
    if ts == [] then []
    else Stored(ts[..|ts| - 1]) + [ts[|ts| - 1].(name := StoredName(ts[|ts| - 1].name))]
  }

  /** A table laid out after the header parses to its topics, names cut as stored. */
  lemma {:induction false} TableRoundTrip(b: seq<byte>, ts: seq<Topic>)
    requires TableEnd(|ts|) <= |b|
    requires b[FILE_HEADER_SIZE..TableEnd(|ts|)] == TableBytes(ts)
    ensures TableTopics(b, |ts|) == Stored(ts)
  {
    hide TopicMetaBytes, NameField, StoredName, CStr, ParseTopicMeta;
    if ts != [] {
      var n := |ts| - 1;
      HeadOfTiling(b, FILE_HEADER_SIZE, TableBytes(ts[..n]), TopicBytes(ts[n]));
      TableRoundTrip(b, ts[..n]);
      TopicMetaRoundTrip(b, TableEnd(n), TopicMetaEntry(ts[n].topicId, ts[n].wireSize, ts[n].name));
    }
  }

  lemma ParseOf(b: seq<byte>, h: FileHeader, ts: seq<Topic>)
    requires h.version == FORMAT_VERSION && h.topicCount == |ts|
    requires |b| >= TableEnd(|ts|)
    requires b[..FILE_HEADER_SIZE] == FileHeaderBytes(h)
    requires b[FILE_HEADER_SIZE..TableEnd(|ts|)] == TableBytes(ts)
    ensures Parse(b) == Some(Parsed(Stored(ts), TableEnd(|ts|)))
  {
    FileHeaderRoundTrip(b, h);
    TableRoundTrip(b, ts);
    ParseFrom(b, h, ts);
  }

  lemma ParseFrom(b: seq<byte>, h: FileHeader, ts: seq<Topic>)
    requires h.version == FORMAT_VERSION && h.topicCount == |ts|
    requires |b| >= TableEnd(|ts|)
    requires ParseFileHeader(b) == Some(h) && TableTopics(b, |ts|) == Stored(ts)
    ensures Parse(b) == Some(Parsed(Stored(ts), TableEnd(|ts|)))
  {
    hide ParseFileHeader, TableTopics, Stored;
  }

  /** Parsing what the writer laid down returns the same topics in order, names cut as stored. */
  lemma ParsePreamble(createdAt: u64, ts: seq<Topic>, rest: seq<byte>)
    requires |ts| < TWO_32
    ensures Parse(Preamble(createdAt, ts) + rest)
         == Some(Parsed(Stored(ts), TableEnd(|ts|)))
  {
    hide Parse, Preamble, Stored;
    var h := FileHeader(FORMAT_VERSION, Truncate32(|ts|), createdAt);
    ParseBehind(createdAt, ts, h, FileHeaderBytes(h), TableBytes(ts), rest);
  }

  lemma ParseBehind(createdAt: u64, ts: seq<Topic>, h: FileHeader, u: seq<byte>, v: seq<byte>, rest: seq<byte>)
    requires h == FileHeader(FORMAT_VERSION, Truncate32(|ts|), createdAt) && h.topicCount == |ts|
    requires u == FileHeaderBytes(h) && v == TableBytes(ts)
    ensures Parse(Preamble(createdAt, ts) + rest)
         == Some(Parsed(Stored(ts), TableEnd(|ts|)))
  {
    hide Parse, Preamble, Stored, FileHeaderBytes, TableBytes;
    PreambleParts(createdAt, ts, h, u, v, rest);
    ParseOf(Preamble(createdAt, ts) + rest, h, ts);
  }

  lemma PreambleParts(createdAt: u64, ts: seq<Topic>, h: FileHeader, u: seq<byte>, v: seq<byte>, rest: seq<byte>)
    requires h == FileHeader(FORMAT_VERSION, Truncate32(|ts|), createdAt)
    requires u == FileHeaderBytes(h) && v == TableBytes(ts)
    ensures (Preamble(createdAt, ts) + rest)[..|u|] == u
    ensures (Preamble(createdAt, ts) + rest)[|u|..|u| + |v|] == v
  {
    ThreeParts(u, v, rest);
  }

  lemma ConcatAssociative(u: seq<byte>, v: seq<byte>, w: seq<byte>)
    ensures u + v + w == u + (v + w)
  {
  }

  lemma ThreeParts(u: seq<byte>, v: seq<byte>, w: seq<byte>)
    ensures (u + v + w)[..|u|] == u && (u + v + w)[|u|..|u| + |v|] == v
  {
  }

  /** Storing names changes neither which ids the table knows nor their sizes. */
  lemma {:induction false} StoredTable(ts: seq<Topic>)
    ensures ById(Stored(ts)).Keys == ById(ts).Keys
    ensures forall id :: id in ById(ts) ==> ById(Stored(ts))[id].wireSize == ById(ts)[id].wireSize
  {
    if ts != [] {
      var n := |ts| - 1;
      StoredTable(ts[..n]);
      assert Stored(ts)[..n] == Stored(ts[..n]);
    }
  }

  /** A log reads back as its records exactly when every record agrees with the table. */
  lemma LogRoundTrip(createdAt: u64, ts: seq<Topic>, rs: seq<Record>)
    requires |ts| < TWO_32
    ensures Replay(Log(createdAt, ts, rs)) == Some(rs) <==> AllFit(ById(ts), rs)
  {
    hide Walk, Parse, RecordsBytes, Preamble, ById, Stored;
    var pre := Preamble(createdAt, ts);
    ParsePreamble(createdAt, ts, RecordsBytes(rs));
    StoredTable(ts);
    var table := ById(Stored(ts));
    assert AllFit(table, rs) <==> AllFit(ById(ts), rs);
    if AllFit(ById(ts), rs) {
      WalkOfRecords(pre, table, rs);
    } else {
      WalkTiles(pre + RecordsBytes(rs), |pre|, table);
    }
  }

  /** A log torn at any byte past its table replays exactly the records wholly before the tear. */
  lemma TornLog(createdAt: u64, ts: seq<Topic>, rs: seq<Record>, n: nat) returns (m: nat)
    requires |ts| < TWO_32 && AllFit(ById(ts), rs)
    requires |Preamble(createdAt, ts)| <= n <= |Log(createdAt, ts, rs)|
    ensures WhollyInside(rs, n - |Preamble(createdAt, ts)|, m)
    ensures Replay(Log(createdAt, ts, rs)[..n]) == Some(rs[..m])
  {
    hide RecordsBytes, Preamble, ById, Stored, Replay;
    m := WhollyInsideCount(rs, n - |Preamble(createdAt, ts)|);
    StoredTable(ts);
    TornFile(Preamble(createdAt, ts), RecordsBytes(rs), createdAt, ts, rs, n - |Preamble(createdAt, ts)|, m);
  }

  lemma TornFile(pre: seq<byte>, w: seq<byte>, createdAt: u64, ts: seq<Topic>, rs: seq<Record>, k: nat, m: nat)
    requires |ts| < TWO_32 && AllFit(ById(Stored(ts)), rs)
    requires pre == Preamble(createdAt, ts) && w == RecordsBytes(rs) && k <= |w| && WhollyInside(rs, k, m)
    ensures Replay((pre + w)[..|pre| + k]) == Some(rs[..m])
  {
    hide Walk, Parse, RecordsBytes, Preamble, ById, Stored;
    var table := ById(Stored(ts));
    ParsePreamble(createdAt, ts, w[..k]);
    CutAfter(pre, w, k);
    TilesAfter(pre, table, rs, w);
    TornRegion(pre + w, |pre|, table, rs, k, m);
  }

  lemma CutAfter(pre: seq<byte>, w: seq<byte>, k: nat)
    requires k <= |w|
    ensures (pre + w)[..|pre| + k] == pre + w[..k]
  {
  }

  /** A file torn inside its header or table is refused, never misread. */
  lemma TornPreamble(createdAt: u64, ts: seq<Topic>, rs: seq<Record>, n: nat)
    requires |ts| < TWO_32 && n < |Preamble(createdAt, ts)|
    ensures n <= |Log(createdAt, ts, rs)| && Replay(Log(createdAt, ts, rs)[..n]) == None
  {
    var h := FileHeader(FORMAT_VERSION, Truncate32(|ts|), createdAt);
    TornHead(h, FileHeaderBytes(h), TableBytes(ts), RecordsBytes(rs), n);
  }

  lemma TornHead(h: FileHeader, head: seq<byte>, table: seq<byte>, w: seq<byte>, n: nat)
    requires head == FileHeaderBytes(h) && |table| == 38 * h.topicCount && n < |head| + |table|
    ensures Parse((head + table + w)[..n]) == None
  {
    if n >= FILE_HEADER_SIZE {
      ThreeParts(head, table, w);
      SliceOfPrefix(head + table + w, n, 0, FILE_HEADER_SIZE);
      FileHeaderRoundTrip((head + table + w)[..n], h);
    }
  }
}
