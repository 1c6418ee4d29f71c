/**
 The segment format (src/wal/format.h) and what the segment reader makes of any byte sequence
 (src/wal/readable_log_segment.cc).

   Segment := Magic Batch*      Batch := Crc32 Length Record*      Record := Type VarString
 */
module WalFormat {
  import opened Coding

  datatype Entry = Entry(index: nat, term: nat, data: bytes)
  datatype HardState = HardState(term: nat, vote: nat, commit: Option<nat>)

  /** One record of a batch. */
  datatype Record = HardStateRecord(hs: HardState) | EntryRecord(entry: Entry)

  /**
   The library code the log calls: the CRC, and protobuf serialisation and parsing.  They are
   arbitrary functions; only `Lawful` is ever assumed of them.
   */
  datatype Codec = Codec(
    crc: bytes -> uint32,
    entryWire: Entry -> bytes, parseEntry: bytes -> Entry,
    hardStateWire: HardState -> bytes, parseHardState: bytes -> HardState)
  {
    /** Parsing what was serialised gives the message back. */
    ghost predicate Lawful() {
      && (forall e: Entry :: parseEntry(entryWire(e)) == e)
      && (forall h: HardState :: parseHardState(hardStateWire(h)) == h)
    }

    function Wire(r: Record): bytes {
      match r
      case HardStateRecord(h) => hardStateWire(h)
      case EntryRecord(e) => entryWire(e)
    }
  }

  const HARD_STATE_TYPE: byte := 1
  const LOG_ENTRY_TYPE: byte := 2
  const BATCH_HEADER_SIZE: nat := 8
  const RECORD_HEADER_SIZE: nat := 1

  /** "yaraft_log" */
  const MAGIC: bytes := [121, 97, 114, 97, 102, 116, 95, 108, 111, 103]

  // ---------------------------------------------------------------------------------------
  // Writing
  // ---------------------------------------------------------------------------------------

  function TypeOf(r: Record): byte {
    if r.HardStateRecord? then HARD_STATE_TYPE else LOG_ENTRY_TYPE
  }

  function RecordBytes(c: Codec, r: Record): (s: bytes)
    ensures |s| >= 2
  {
    [TypeOf(r)] + Slice(c.Wire(r))
  }

  function RecordsBytes(c: Codec, rs: seq<Record>): bytes {
    if rs == [] then [] else RecordBytes(c, rs[0]) + RecordsBytes(c, rs[1..])
  }

  /** A batch on disk: checksum, 32-bit length, data. */
  function FrameBytes(crc: uint32, data: bytes): (s: bytes)
    ensures |s| == BATCH_HEADER_SIZE + |data|
  {
    Fixed32(crc) + Fixed32(|data|) + data
  }

  function BatchBytes(c: Codec, data: bytes): (s: bytes)
    ensures |s| == BATCH_HEADER_SIZE + |data|
  {
    FrameBytes(c.crc(data), data)
  }

  // ---------------------------------------------------------------------------------------
  // Reading
  // ---------------------------------------------------------------------------------------

  datatype Fault =
    | BadMagicLength | BadMagic | BadBatchHeader | BadBatchLength | BadChecksum | BadRecord
  datatype Status = OK | Corruption(fault: Fault) | IOError

  /** The records handed to the memory store before the reader returned, and its status. */
  datatype Reading = Reading(applied: seq<Record>, status: Status)

  function Prepend(rs: seq<Record>, r: Reading): Reading {
    Reading(rs + r.applied, r.status)
  }

  /** A record of an unknown type is skipped. */
  function ParseRecord(c: Codec, tag: byte, data: bytes): seq<Record> {
    if tag == LOG_ENTRY_TYPE then [EntryRecord(c.parseEntry(data))]
    else if tag == HARD_STATE_TYPE then [HardStateRecord(c.parseHardState(data))]
    else []
  }

  function ReadRecords(c: Codec, data: bytes): Reading
    decreases |data|
  {
    if data == [] then Reading([], OK)
    else
      match GetSlice(data[1..])
      case Malformed => Reading([], Corruption(BadRecord))
      case Decoded(x, rest) => Prepend(ParseRecord(c, data[0], x), ReadRecords(c, rest))
  }

  /** One batch: the records applied, the status, and on success the unread input. */
  datatype BatchReading = BatchReading(applied: seq<Record>, status: Status, rest: bytes)

  function ReadBatch(c: Codec, buf: bytes, verify: bool): (r: BatchReading)
    ensures r.status == OK ==> |r.rest| < |buf|
  {
    if |buf| < BATCH_HEADER_SIZE then BatchReading([], Corruption(BadBatchHeader), buf)
    else
      var crc, len, rest := DecodeFixed32(buf), DecodeFixed32(buf[4..]), buf[BATCH_HEADER_SIZE..];
      if |rest| < len then BatchReading([], Corruption(BadBatchLength), rest)
      else if verify && c.crc(rest[..len]) != crc then BatchReading([], Corruption(BadChecksum), rest)
      else
        var r := ReadRecords(c, rest[..len]);
        BatchReading(r.applied, r.status, rest[len..])
  }

  function ReadBatches(c: Codec, buf: bytes, verify: bool): Reading
    decreases |buf|
  {
    if buf == [] then Reading([], OK)
    else
      var r := ReadBatch(c, buf, verify);
      if r.status != OK then Reading(r.applied, r.status)
      else Prepend(r.applied, ReadBatches(c, r.rest, verify))
  }

  function ReadSegment(c: Codec, file: bytes, verify: bool): Reading {
    if |file| < |MAGIC| then Reading([], Corruption(BadMagicLength))
    else if file[..|MAGIC|] != MAGIC then Reading([], Corruption(BadMagic))
    else ReadBatches(c, file[|MAGIC|..], verify)
  }

  // ---------------------------------------------------------------------------------------
  // Records: reading inverts writing, and a cut is noticed unless it falls between records
  // ---------------------------------------------------------------------------------------

  ghost predicate Small(c: Codec, rs: seq<Record>) {
    forall i :: 0 <= i < |rs| ==> |c.Wire(rs[i])| < TWO_32
  }

  lemma {:induction false} ReadOneRecord(c: Codec, r: Record, rest: bytes)
    requires c.Lawful() && |c.Wire(r)| < TWO_32
    ensures ReadRecords(c, RecordBytes(c, r) + rest) == Prepend([r], ReadRecords(c, rest))
  {
    var s := RecordBytes(c, r) + rest;
    assert s[1..] == Slice(c.Wire(r)) + rest;
    SliceRoundTrip(c.Wire(r), rest);
  }

  lemma {:induction false} RecordsRoundTrip(c: Codec, rs: seq<Record>)
    requires c.Lawful() && Small(c, rs)
    ensures ReadRecords(c, RecordsBytes(c, rs)) == Reading(rs, OK)
  {
    if rs != [] {
      var rest := RecordsBytes(c, rs[1..]);
      assert Small(c, rs[1..]);
      RecordsRoundTrip(c, rs[1..]);
      ReadOneRecord(c, rs[0], rest);
      assert [rs[0]] + rs[1..] == rs;
    }
  }

  /** r is what reading the first k bytes of the records rs may give: rs up to a record boundary. */
  ghost predicate CutOutcome(c: Codec, rs: seq<Record>, k: nat, r: Reading) {
    && |r.applied| < |rs|
    && r.applied == rs[..|r.applied|]
    && (r.status == OK || r.status == Corruption(BadRecord))
    && (r.status == OK ==> k == |RecordsBytes(c, r.applied)|)
  }

  lemma {:induction false} CutOutcomeCons(c: Codec, rs: seq<Record>, k: nat, r: Reading)
    requires rs != [] && CutOutcome(c, rs[1..], k, r)
    ensures CutOutcome(c, rs, k + |RecordBytes(c, rs[0])|, Prepend([rs[0]], r))
  {
    var applied := [rs[0]] + r.applied;
    assert applied[1..] == r.applied;
    assert rs[..|applied|] == [rs[0]] + rs[1..][..|r.applied|];
  }

  /** The bytes of the format, written out. */
  lemma FormatIs(c: Codec, h: HardState, e: Entry, data: bytes)
    ensures |MAGIC| == 10 && forall i :: 0 <= i < 10 ==> MAGIC[i] == "yaraft_log"[i] as nat
    ensures RecordBytes(c, HardStateRecord(h)) == [1] + (Varint(|c.hardStateWire(h)|) + c.hardStateWire(h))
    ensures RecordBytes(c, EntryRecord(e)) == [2] + (Varint(|c.entryWire(e)|) + c.entryWire(e))
    ensures var s := BatchBytes(c, data); s[..4] == Fixed32(c.crc(data)) && s[4..8] == Fixed32(|data|) && s[8..] == data
  {
    assert "yaraft_log" == ['y', 'a', 'r', 'a', 'f', 't', '_', 'l', 'o', 'g'];
  }

  // ---------------------------------------------------------------------------------------
  // Exactly which bytes are records, and what they mean
  // ---------------------------------------------------------------------------------------

  /** A record as it may be found: a type, a varint for the length (in any form), the data. */
  datatype Raw = Raw(tag: byte, head: bytes, data: bytes)

  ghost predicate GoodRaw(r: Raw) {
    GetVarint32(r.head) == Decoded(|r.data|, [])
  }

  ghost predicate GoodRaws(raws: seq<Raw>) {
    forall i :: 0 <= i < |raws| ==> GoodRaw(raws[i])
  }

  function RawsBytes(raws: seq<Raw>): bytes {
    if raws == [] then [] else [raws[0].tag] + (raws[0].head + raws[0].data + RawsBytes(raws[1..]))
  }

  /** Type 2 is an entry, type 1 a hard state, and any other type is skipped. */
  function Meaning(c: Codec, r: Raw): seq<Record> {
    if r.tag == 2 then [EntryRecord(c.parseEntry(r.data))]
    else if r.tag == 1 then [HardStateRecord(c.parseHardState(r.data))]
    else []
  }

  function Meanings(c: Codec, raws: seq<Raw>): seq<Record> {
    if raws == [] then [] else Meaning(c, raws[0]) + Meanings(c, raws[1..])
  }

  lemma {:induction false} ReadOneRaw(r: Raw, rest: bytes)
    requires GoodRaw(r)
    ensures GetSlice(r.head + r.data + rest) == Decoded(r.data, rest)
  {
    VarintHead(r.head, r.data + rest);
    assert r.head[..|r.head|] == r.head;
    assert r.head + r.data + rest == r.head + (r.data + rest);
    assert (r.data + rest)[..|r.data|] == r.data && (r.data + rest)[|r.data|..] == rest;
  }

  lemma {:induction false} RawsRead(c: Codec, raws: seq<Raw>)
    requires GoodRaws(raws)
    ensures ReadRecords(c, RawsBytes(raws)) == Reading(Meanings(c, raws), OK)
  {
    if raws != [] {
      var rest := RawsBytes(raws[1..]);
      ReadOneRaw(raws[0], rest);
      RawsRead(c, raws[1..]);
      assert RawsBytes(raws)[1..] == raws[0].head + raws[0].data + rest;
    }
  }

  lemma {:induction false} RawsOf(c: Codec, data: bytes) returns (raws: seq<Raw>)
    requires ReadRecords(c, data).status == OK
    ensures data == RawsBytes(raws) && GoodRaws(raws)
    decreases |data|
  {
    if data == [] {
      raws := [];
    } else {
      var first := RawAt(data[1..], data[0]);
      var rest := GetSlice(data[1..]).rest;
      var more := RawsOf(c, rest);
      raws := [first] + more;
      assert raws[1..] == more && [data[0]] + data[1..] == data;
    }
  }

  lemma {:induction false} RawAt(s: bytes, tag: byte) returns (r: Raw)
    requires GetSlice(s).Decoded?
    ensures GoodRaw(r) && r.tag == tag && r.data == GetSlice(s).value && s == r.head + r.data + GetSlice(s).rest
  {
    var d := GetVarint32(s);
    VarintHead(s, []);
    var head := s[..|s| - |d.rest|];
    r := Raw(tag, head, d.rest[..d.value]);
    assert head + [] == head && d.rest == r.data + d.rest[d.value..];
    Assoc(head, r.data, d.rest[d.value..]);
  }

  /** The data of a batch is read without error, to exactly these records, when it is made of them. */
  lemma {:induction false} RecordsReadExactly(c: Codec, data: bytes, rs: seq<Record>)
    ensures ReadRecords(c, data) == Reading(rs, OK) <==>
            exists raws :: data == RawsBytes(raws) && GoodRaws(raws) && rs == Meanings(c, raws)
  {
    if ReadRecords(c, data) == Reading(rs, OK) {
      var raws := RawsOf(c, data);
      RawsRead(c, raws);
    }
    forall raws | data == RawsBytes(raws) && GoodRaws(raws) && rs == Meanings(c, raws)
      ensures ReadRecords(c, data) == Reading(rs, OK)
    {
      RawsRead(c, raws);
    }
  }

  /** Cutting at least one byte off a batch's data is a bad record or loses a whole record. */
  lemma {:induction false} CutRecords(c: Codec, rs: seq<Record>, k: nat)
    requires c.Lawful() && Small(c, rs) && k < |RecordsBytes(c, rs)|
    ensures CutOutcome(c, rs, k, ReadRecords(c, RecordsBytes(c, rs)[..k]))
  {
    var all, first, rest := RecordsBytes(c, rs), RecordBytes(c, rs[0]), RecordsBytes(c, rs[1..]);
    if k == 0 {
      assert RecordsBytes(c, []) == [];
    } else if k < |first| {
      assert all[..k][1..] == Slice(c.Wire(rs[0]))[..k - 1];
      SliceTruncated(c.Wire(rs[0]), k - 1);
    } else {
      var k' := k - |first|;
      assert Small(c, rs[1..]);
      assert all[..k] == first + rest[..k'];
      ReadOneRecord(c, rs[0], rest[..k']);
      CutRecords(c, rs[1..], k');
      CutOutcomeCons(c, rs, k', ReadRecords(c, rest[..k']));
    }
  }

  // ---------------------------------------------------------------------------------------
  // Batches
  // ---------------------------------------------------------------------------------------

  lemma {:induction false} FrameHeader(crc: uint32, data: bytes, rest: bytes)
    requires |data| < TWO_32
    ensures var s := FrameBytes(crc, data) + rest;
            DecodeFixed32(s) == crc && DecodeFixed32(s[4..]) == |data|
            && s[BATCH_HEADER_SIZE..] == data + rest
  {
    Fixed32RoundTrip(crc);
    Fixed32RoundTrip(|data|);
    HeaderIs(Fixed32(crc), Fixed32(|data|), crc, |data|, data, rest);
  }

  lemma {:induction false} HeaderIs(a: bytes, b: bytes, crc: nat, len: nat, data: bytes, rest: bytes)
    requires |a| == |b| == 4 && DecodeFixed32(a) == crc && DecodeFixed32(b) == len
    ensures var s := a + b + data + rest;
            DecodeFixed32(s) == crc && DecodeFixed32(s[4..]) == len && s[8..] == data + rest
  {
    HeaderParts(a, b, data, rest);
  }

  lemma {:induction false} HeaderParts(a: bytes, b: bytes, data: bytes, rest: bytes)
    requires |a| == |b| == 4
    ensures var s := a + b + data + rest;
            DecodeFixed32(s) == DecodeFixed32(a) && DecodeFixed32(s[4..]) == DecodeFixed32(b) && s[8..] == data + rest
  {
    var s := a + b + data + rest;
    assert s[..4] == a && s[4..][..4] == b;
  }

  /** What the reader does with a frame at the head of the buffer. */
  lemma {:induction false} ReadOneFrame(c: Codec, crc: uint32, data: bytes, rest: bytes, verify: bool)
    requires |data| < TWO_32
    ensures var r := ReadRecords(c, data);
            ReadBatches(c, FrameBytes(crc, data) + rest, verify) ==
            if verify && c.crc(data) != crc then Reading([], Corruption(BadChecksum))
            else if r.status != OK then r
            else Prepend(r.applied, ReadBatches(c, rest, verify))
  {
    FrameHeader(crc, data, rest);
    assert (data + rest)[..|data|] == data && (data + rest)[|data|..] == rest;
  }

  /** What the reader says of a frame of which only the first `extra` bytes are there. */
  function CutStatus(extra: nat): Status {
    if extra == 0 then OK
    else if extra < BATCH_HEADER_SIZE then Corruption(BadBatchHeader)
    else Corruption(BadBatchLength)
  }

  /** A frame cut anywhere but at its end is noticed before any of its records is applied. */
  lemma {:induction false} CutFrame(c: Codec, crc: uint32, data: bytes, k: nat, verify: bool)
    requires |data| < TWO_32 && k < |FrameBytes(crc, data)|
    ensures ReadBatches(c, FrameBytes(crc, data)[..k], verify) == Reading([], CutStatus(k))
  {
    if k >= BATCH_HEADER_SIZE {
      var part := data[..k - BATCH_HEADER_SIZE];
      Fixed32RoundTrip(|data|);
      ShortFrame(c, Fixed32(crc), Fixed32(|data|), part, verify);
      assert FrameBytes(crc, data)[..k] == Fixed32(crc) + Fixed32(|data|) + part;
    }
  }

  lemma {:induction false} ShortFrame(c: Codec, a: bytes, b: bytes, part: bytes, verify: bool)
    requires |a| == |b| == 4 && |part| < DecodeFixed32(b)
    ensures ReadBatches(c, a + b + part, verify) == Reading([], Corruption(BadBatchLength))
  {
    HeaderParts(a, b, part, []);
    assert a + b + part + [] == a + b + part;
  }

  // ---------------------------------------------------------------------------------------
  // Segments
  // ---------------------------------------------------------------------------------------

  /** The batches of a segment, one after another. */
  function BatchesBytes(c: Codec, ds: seq<bytes>): bytes {
    if ds == [] then [] else BatchBytes(c, ds[0]) + BatchesBytes(c, ds[1..])
  }

  /** Reads the data of batches one by one, stopping at the first that is not all good records. */
  function ReadDatas(c: Codec, ds: seq<bytes>): Reading {
    if ds == [] then Reading([], OK)
    else
      var r := ReadRecords(c, ds[0]);
      if r.status != OK then r else Prepend(r.applied, ReadDatas(c, ds[1..]))
  }

  function Datas(c: Codec, bs: seq<seq<Record>>): (ds: seq<bytes>)
    ensures |ds| == |bs|
  {
    if bs == [] then [] else [RecordsBytes(c, bs[0])] + Datas(c, bs[1..])
  }

  function Flatten<T>(xss: seq<seq<T>>): seq<T> {
    if xss == [] then [] else xss[0] + Flatten(xss[1..])
  }

  lemma {:induction false} BatchesBytesConcat(c: Codec, a: seq<bytes>, b: seq<bytes>)
    ensures BatchesBytes(c, a + b) == BatchesBytes(c, a) + BatchesBytes(c, b)
  {
    if a == [] {
      assert a + b == b;
    } else {
      assert (a + b)[1..] == a[1..] + b;
      BatchesBytesConcat(c, a[1..], b);
    }
  }

  ghost predicate Short(ds: seq<bytes>) {
    forall i :: 0 <= i < |ds| ==> |ds[i]| < TWO_32
  }

  lemma Assoc<T>(a: seq<T>, b: seq<T>, c: seq<T>)
    ensures a + (b + c) == a + b + c
  {
  }

  /** Batches are read one by one; what follows them is read when all were good. */
  lemma {:induction false} ReadThen(c: Codec, ds: seq<bytes>, tail: bytes, verify: bool)
    requires Short(ds)
    ensures var r := ReadDatas(c, ds);
            ReadBatches(c, BatchesBytes(c, ds) + tail, verify) ==
            if r.status != OK then r else Prepend(r.applied, ReadBatches(c, tail, verify))
  {
    if ds == [] {
      assert BatchesBytes(c, ds) + tail == tail;
    } else {
      var rest := BatchesBytes(c, ds[1..]);
      Assoc(BatchBytes(c, ds[0]), rest, tail);
      ReadOneFrame(c, c.crc(ds[0]), ds[0], rest + tail, verify);
      ReadThen(c, ds[1..], tail, verify);
      Assoc(ReadRecords(c, ds[0]).applied, ReadDatas(c, ds[1..]).applied, ReadBatches(c, tail, verify).applied);
    }
  }

  /** Checksums written by the writer match, so verification makes no difference. */
  lemma {:induction false} ReadWrittenBatches(c: Codec, ds: seq<bytes>, verify: bool)
    requires Short(ds)
    ensures ReadBatches(c, BatchesBytes(c, ds), verify) == ReadDatas(c, ds)
  {
    ReadThen(c, ds, [], verify);
    assert BatchesBytes(c, ds) + [] == BatchesBytes(c, ds);
  }

  lemma {:induction false} ReadAfterMagic(c: Codec, body: bytes, verify: bool)
    ensures ReadSegment(c, MAGIC + body, verify) == ReadBatches(c, body, verify)
  {
    var file := MAGIC + body;
    assert file[..|MAGIC|] == MAGIC && file[|MAGIC|..] == body;
  }

  lemma {:induction false} ReadWrittenSegment(c: Codec, ds: seq<bytes>, verify: bool)
    requires Short(ds)
    ensures ReadSegment(c, MAGIC + BatchesBytes(c, ds), verify) == ReadDatas(c, ds)
  {
    ReadAfterMagic(c, BatchesBytes(c, ds), verify);
    ReadWrittenBatches(c, ds, verify);
  }

  /** Batches of small records whose data is under 2^32 bytes. */
  ghost predicate Writable(c: Codec, bs: seq<seq<Record>>) {
    forall i :: 0 <= i < |bs| ==> Small(c, bs[i]) && |RecordsBytes(c, bs[i])| < TWO_32
  }

  /** n is the number of batches complete in the first k bytes that follow the magic. */
  ghost predicate CompleteIn(c: Codec, ds: seq<bytes>, k: nat, n: nat) {
    && n <= |ds|
    && |BatchesBytes(c, ds[..n])| <= k
    && (n < |ds| ==> k < |BatchesBytes(c, ds[..n + 1])|)
  }

  /** What the reader makes of the first n of the batches and `extra` bytes of the next. */
  function CutReading(c: Codec, ds: seq<bytes>, n: nat, extra: nat): Reading
    requires n <= |ds|
  {
    var r := ReadDatas(c, ds[..n]);
    if r.status != OK then r else Reading(r.applied, CutStatus(extra))
  }

  /** Any batches cut at any byte: the complete ones are read, the next is noticed and not read. */
  lemma {:induction false} CutDatas(c: Codec, ds: seq<bytes>, k: nat, n: nat, verify: bool)
    requires Short(ds) && k <= |BatchesBytes(c, ds)| && CompleteIn(c, ds, k, n)
    ensures ReadBatches(c, BatchesBytes(c, ds)[..k], verify) ==
            CutReading(c, ds, n, k - |BatchesBytes(c, ds[..n])|)
  {
    var part := CutSplit(c, ds, k, n);
    ReadThen(c, ds[..n], part, verify);
    PrependNothing(ReadDatas(c, ds[..n]).applied, CutStatus(|part|));
    if n < |ds| {
      CutFrame(c, c.crc(ds[n]), ds[n], |part|, verify);
    }
  }

  lemma PrependNothing(rs: seq<Record>, status: Status)
    ensures Prepend(rs, Reading([], status)) == Reading(rs, status)
  {
  }

  /** The first k bytes are n whole batches and part of the next. */
  lemma {:induction false} CutSplit(c: Codec, ds: seq<bytes>, k: nat, n: nat) returns (part: bytes)
    requires k <= |BatchesBytes(c, ds)| && CompleteIn(c, ds, k, n)
    ensures BatchesBytes(c, ds)[..k] == BatchesBytes(c, ds[..n]) + part
    ensures if n == |ds| then part == []
            else |part| < |BatchBytes(c, ds[n])| && part == BatchBytes(c, ds[n])[..|part|]
  {
    var all, whole := BatchesBytes(c, ds), BatchesBytes(c, ds[..n]);
    if n == |ds| {
      assert ds[..n] == ds;
      part := [];
      assert all[..k] == whole + part;
    } else {
      SplitAt(c, ds, n);
      var next, rest := BatchBytes(c, ds[n]), BatchesBytes(c, ds[n + 1..]);
      part := next[..k - |whole|];
      TakeMiddle(whole, next, rest, k);
    }
  }

  lemma TakeMiddle(a: bytes, b: bytes, c: bytes, k: nat)
    requires |a| <= k <= |a| + |b|
    ensures (a + (b + c))[..k] == a + b[..k - |a|]
  {
  }

  lemma {:induction false} SplitAt(c: Codec, ds: seq<bytes>, n: nat)
    requires n < |ds|
    ensures BatchesBytes(c, ds) == BatchesBytes(c, ds[..n]) + (BatchBytes(c, ds[n]) + BatchesBytes(c, ds[n + 1..]))
    ensures |BatchesBytes(c, ds[..n + 1])| == |BatchesBytes(c, ds[..n])| + |BatchBytes(c, ds[n])|
  {
    assert ds == ds[..n] + ds[n..] && ds[n..][1..] == ds[n + 1..];
    BatchesBytesConcat(c, ds[..n], ds[n..]);
    var one := [ds[n]];
    assert ds[..n + 1] == ds[..n] + one && one[1..] == [];
    BatchesBytesConcat(c, ds[..n], one);
  }

  lemma {:induction false} HeadOfPrefix(c: Codec, ds: seq<bytes>, n: nat)
    requires 0 < n <= |ds|
    ensures BatchesBytes(c, ds[..n]) == BatchBytes(c, ds[0]) + BatchesBytes(c, ds[1..][..n - 1])
  {
    assert ds[..n][1..] == ds[1..][..n - 1];
  }

  lemma {:induction false} DatasPrefix(c: Codec, bs: seq<seq<Record>>, n: nat)
    requires n <= |bs|
    ensures Datas(c, bs)[..n] == Datas(c, bs[..n])
  {
    if n > 0 {
      DatasPrefix(c, bs[1..], n - 1);
      assert bs[..n][1..] == bs[1..][..n - 1];
    }
  }

  lemma {:induction false} DatasRead(c: Codec, bs: seq<seq<Record>>)
    requires c.Lawful() && Writable(c, bs)
    ensures Short(Datas(c, bs)) && ReadDatas(c, Datas(c, bs)) == Reading(Flatten(bs), OK)
  {
    if bs != [] {
      RecordsRoundTrip(c, bs[0]);
      DatasRead(c, bs[1..]);
    }
  }

  /** The reader applied the n complete batches, and named the part that was cut. */
  ghost predicate AppliedComplete(c: Codec, bs: seq<seq<Record>>, k: nat, n: nat, r: Reading)
  {
    && CompleteIn(c, Datas(c, bs), k, n)
    && r == Reading(Flatten(bs[..n]), CutStatus(k - |BatchesBytes(c, Datas(c, bs)[..n])|))
  }

  /**
   Crash atomicity.  For every prefix of a written segment, the reader applies exactly the
   records of the batches complete in it, never part of a batch.  It reports OK only when the
   cut is on a batch boundary at or after the magic, and otherwise which part was cut.
   */
  lemma {:induction false} CrashAtomicity(c: Codec, bs: seq<seq<Record>>, k: nat, n: nat, verify: bool)
    requires c.Lawful() && Writable(c, bs)
    requires k <= |MAGIC| + |BatchesBytes(c, Datas(c, bs))|
    requires k >= |MAGIC| ==> CompleteIn(c, Datas(c, bs), k - |MAGIC|, n)
    ensures var r := ReadSegment(c, (MAGIC + BatchesBytes(c, Datas(c, bs)))[..k], verify);
            if k < |MAGIC| then r == Reading([], Corruption(BadMagicLength)) else AppliedComplete(c, bs, k - |MAGIC|, n, r)
  {
    ReadMagicCut(c, BatchesBytes(c, Datas(c, bs)), k, verify);
    if k >= |MAGIC| {
      CutBatches(c, bs, k - |MAGIC|, n, verify);
    }
  }

  lemma {:induction false} CutBatches(c: Codec, bs: seq<seq<Record>>, k: nat, n: nat, verify: bool)
    requires c.Lawful() && Writable(c, bs)
    requires k <= |BatchesBytes(c, Datas(c, bs))| && CompleteIn(c, Datas(c, bs), k, n)
    ensures AppliedComplete(c, bs, k, n, ReadBatches(c, BatchesBytes(c, Datas(c, bs))[..k], verify))
  {
    DatasRead(c, bs);
    CutDatas(c, Datas(c, bs), k, n, verify);
    DatasPrefix(c, bs, n);
    DatasRead(c, bs[..n]);
  }

  lemma {:induction false} ReadMagicCut(c: Codec, body: bytes, k: nat, verify: bool)
    requires k <= |MAGIC| + |body|
    ensures ReadSegment(c, (MAGIC + body)[..k], verify) ==
            if k < |MAGIC| then Reading([], Corruption(BadMagicLength))
            else ReadBatches(c, body[..k - |MAGIC|], verify)
  {
    if k >= |MAGIC| {
      assert (MAGIC + body)[..k] == MAGIC + body[..k - |MAGIC|];
      ReadAfterMagic(c, body[..k - |MAGIC|], verify);
    }
  }

  /** Every cut has exactly such a number of complete batches. */
  lemma {:induction false} CompleteExists(c: Codec, ds: seq<bytes>, k: nat) returns (n: nat)
    ensures CompleteIn(c, ds, k, n)
  {
    if ds == [] || k < |BatchBytes(c, ds[0])| {
      n := 0;
      if ds != [] {
        HeadOfPrefix(c, ds, 1);
      }
    } else {
      var n' := CompleteExists(c, ds[1..], k - |BatchBytes(c, ds[0])|);
      n := n' + 1;
      HeadOfPrefix(c, ds, n);
      if n < |ds| {
        HeadOfPrefix(c, ds, n + 1);
      }
    }
  }

  // ---------------------------------------------------------------------------------------
  // Exactly what the reader accepts, over all byte sequences
  // ---------------------------------------------------------------------------------------

  datatype Frame = Frame(crc: uint32, data: bytes)

  function FramesBytes(fs: seq<Frame>): bytes {
    if fs == [] then [] else FrameBytes(fs[0].crc, fs[0].data) + FramesBytes(fs[1..])
  }

  ghost predicate GoodFrame(c: Codec, f: Frame, verify: bool) {
    && |f.data| < TWO_32
    && (verify ==> f.crc == c.crc(f.data))
    && ReadRecords(c, f.data).status == OK
  }

  ghost predicate GoodFrames(c: Codec, fs: seq<Frame>, verify: bool) {
    forall i :: 0 <= i < |fs| ==> GoodFrame(c, fs[i], verify)
  }

  lemma LowByte(b: byte, q: nat)
    ensures (b + 256 * q) % 256 == b && (b + 256 * q) / 256 == q
  {
  }

  lemma ByteQuotients(v: nat)
    ensures v / 0x1_0000 == v / 0x100 / 256 && v / 0x100_0000 == v / 0x100 / 256 / 256
  {
  }

  lemma {:induction false} Fixed32Inverse(s: bytes)
    requires |s| >= 4
    ensures Fixed32(DecodeFixed32(s)) == s[..4]
  {
    var v: nat := DecodeFixed32(s);
    var b1: int, b2: int, b3: int := s[1], s[2], s[3];
    LowByte(s[0], b1 + 256 * (b2 + 256 * b3));
    LowByte(s[1], b2 + 256 * b3);
    LowByte(s[2], b3);
    ByteQuotients(v);
  }

  /** The header the reader decodes is the header a frame with that checksum and data has. */
  lemma {:induction false} HeaderIsFrame(buf: bytes)
    requires |buf| >= BATCH_HEADER_SIZE
    requires DecodeFixed32(buf[4..]) <= |buf| - BATCH_HEADER_SIZE
    ensures var len, rest := DecodeFixed32(buf[4..]), buf[BATCH_HEADER_SIZE..];
            buf == FrameBytes(DecodeFixed32(buf), rest[..len]) + rest[len..]
  {
    Fixed32Inverse(buf);
    Fixed32Inverse(buf[4..]);
    var len, rest := DecodeFixed32(buf[4..]), buf[BATCH_HEADER_SIZE..];
    assert buf == buf[..4] + buf[4..][..4] + rest[..len] + rest[len..];
  }

  lemma {:induction false} AcceptedFrames(c: Codec, buf: bytes, verify: bool) returns (fs: seq<Frame>)
    requires ReadBatches(c, buf, verify).status == OK
    ensures buf == FramesBytes(fs) && GoodFrames(c, fs, verify)
    decreases |buf|
  {
    if buf == [] {
      fs := [];
    } else {
      var crc, len, rest := DecodeFixed32(buf), DecodeFixed32(buf[4..]), buf[BATCH_HEADER_SIZE..];
      var fs' := AcceptedFrames(c, rest[len..], verify);
      HeaderIsFrame(buf);
      assert GoodFrame(c, Frame(crc, rest[..len]), verify);
      fs := [Frame(crc, rest[..len])] + fs';
      assert fs[1..] == fs';
    }
  }

  /** The records of the frames, one frame after another. */
  function FramesRecords(c: Codec, fs: seq<Frame>): seq<Record> {
    if fs == [] then [] else ReadRecords(c, fs[0].data).applied + FramesRecords(c, fs[1..])
  }

  lemma {:induction false} FramesAccepted(c: Codec, fs: seq<Frame>, verify: bool)
    requires GoodFrames(c, fs, verify)
    ensures ReadBatches(c, FramesBytes(fs), verify) == Reading(FramesRecords(c, fs), OK)
  {
    if fs != [] {
      assert GoodFrame(c, fs[0], verify);
      FramesAccepted(c, fs[1..], verify);
      ReadOneFrame(c, fs[0].crc, fs[0].data, FramesBytes(fs[1..]), verify);
    }
  }

  /**
   The reader returns OK on a byte sequence, with exactly these records, when all of it is the
   magic followed by frames whose length field, checksum (if verified) and records are good.
   What does not start with the magic is rejected as such.
   */
  lemma {:induction false} ReaderAcceptsExactly(c: Codec, file: bytes, verify: bool, rs: seq<Record>)
    ensures ReadSegment(c, file, verify) == Reading(rs, OK) <==>
            exists fs :: file == MAGIC + FramesBytes(fs) && GoodFrames(c, fs, verify) && rs == FramesRecords(c, fs)
    ensures !(MAGIC <= file) <==>
            ReadSegment(c, file, verify) == Reading([], Corruption(if |file| < 10 then BadMagicLength else BadMagic))
  {
    if ReadSegment(c, file, verify) == Reading(rs, OK) {
      var body := file[|MAGIC|..];
      var fs := AcceptedFrames(c, body, verify);
      assert file == MAGIC + body;
      FramesAccepted(c, fs, verify);
      assert file == MAGIC + FramesBytes(fs) && GoodFrames(c, fs, verify);
    }
    forall fs | file == MAGIC + FramesBytes(fs) && GoodFrames(c, fs, verify) && rs == FramesRecords(c, fs)
      ensures ReadSegment(c, file, verify) == Reading(rs, OK)
    {
      ReadAfterMagic(c, FramesBytes(fs), verify);
      FramesAccepted(c, fs, verify);
    }
    NoMagic(c, file, verify);
  }

  lemma {:induction false} NoMagic(c: Codec, file: bytes, verify: bool)
    ensures !(MAGIC <= file) <==>
            ReadSegment(c, file, verify) == Reading([], Corruption(if |file| < 10 then BadMagicLength else BadMagic))
  {
    if MAGIC <= file {
      BatchesFault(c, file[|MAGIC|..], verify);
    }
  }

  lemma {:induction false} BatchesFault(c: Codec, buf: bytes, verify: bool)
    ensures var s := ReadBatches(c, buf, verify).status;
            s == OK || s in {Corruption(BadBatchHeader), Corruption(BadBatchLength), Corruption(BadChecksum), Corruption(BadRecord)}
    decreases |buf|
  {
    if buf != [] {
      var r := ReadBatch(c, buf, verify);
      if r.status == OK {
        BatchesFault(c, r.rest, verify);
      } else if |buf| >= BATCH_HEADER_SIZE && DecodeFixed32(buf[4..]) <= |buf| - BATCH_HEADER_SIZE {
        RecordsFault(c, buf[BATCH_HEADER_SIZE..][..DecodeFixed32(buf[4..])]);
      }
    }
  }

  /** Reading records fails only with a bad record. */
  lemma {:induction false} RecordsFault(c: Codec, data: bytes)
    ensures var r := ReadRecords(c, data); r.status == OK || r.status == Corruption(BadRecord)
    decreases |data|
  {
    if data != [] && GetSlice(data[1..]).Decoded? {
      RecordsFault(c, GetSlice(data[1..]).rest);
    }
  }
}
