/** The segment reader (src/wal/readable_log_segment.h, src/wal/readable_log_segment.cc). */
module WalReader {
  import opened Coding
  import opened WalFormat

  /** The contents of a memory store: what was appended, and the last hard state set. */
  datatype Store = Store(entries: seq<Entry>, hardState: HardState)

  const NO_HARD_STATE := HardState(0, 0, None)
  const EMPTY_STORE := Store([], NO_HARD_STATE)

  function Apply(s: Store, r: Record): Store {
    match r
    case EntryRecord(e) => s.(entries := s.entries + [e])
    case HardStateRecord(h) => s.(hardState := h)
  }

  /** Applies records in order. */
  function Replay(s: Store, rs: seq<Record>): Store
    decreases |rs|
  {
    if rs == [] then s else Replay(Apply(s, rs[0]), rs[1..])
  }

  function Entries(rs: seq<Record>): seq<Entry> {
    if rs == [] then []
    else EntryOf(rs[0]) + Entries(rs[1..])
  }

  function EntryOf(r: Record): seq<Entry> {
    if r.EntryRecord? then [r.entry] else []
  }

  function LastHardState(h: HardState, rs: seq<Record>): HardState {
    if rs == [] then h
    else if rs[|rs| - 1].HardStateRecord? then rs[|rs| - 1].hs
    else LastHardState(h, rs[..|rs| - 1])
  }

  lemma {:induction false} ReplayConcat(s: Store, a: seq<Record>, b: seq<Record>)
    ensures Replay(s, a + b) == Replay(Replay(s, a), b)
    decreases |a|
  {
    if a == [] {
      assert a + b == b;
    } else {
      assert (a + b)[1..] == a[1..] + b;
      ReplayConcat(Apply(s, a[0]), a[1..], b);
    }
  }

  lemma {:induction false} EntriesConcat(a: seq<Record>, b: seq<Record>)
    ensures Entries(a + b) == Entries(a) + Entries(b)
  {
    if a == [] {
      assert a + b == b;
    } else {
      assert (a + b)[1..] == a[1..] + b;
      EntriesConcat(a[1..], b);
      assert EntryOf(a[0]) + (Entries(a[1..]) + Entries(b)) == EntryOf(a[0]) + Entries(a[1..]) + Entries(b);
    }
  }

  /** Replaying records is appending all their entries in order and keeping the last hard state. */
  lemma {:induction false} ReplayIs(s: Store, rs: seq<Record>)
    ensures Replay(s, rs) == Store(s.entries + Entries(rs), LastHardState(s.hardState, rs))
  {
    if rs != [] {
      var init, last := rs[..|rs| - 1], rs[|rs| - 1];
      assert rs == init + [last];
      ReplayIs(s, init);
      ReplayConcat(s, init, [last]);
      EntriesConcat(init, [last]);
      assert [last][1..] == [];
      assert Replay(s, rs) == Apply(Replay(s, init), last);
    }
  }

  /** The last hard state is the one after which only entries follow, or the one before all. */
  lemma {:induction false} LastHardStateIs(h: HardState, rs: seq<Record>, i: nat)
    ensures i < |rs| && rs[i].HardStateRecord? && (forall j :: i < j < |rs| ==> rs[j].EntryRecord?) ==>
              LastHardState(h, rs) == rs[i].hs
    ensures (forall j :: 0 <= j < |rs| ==> rs[j].EntryRecord?) ==> LastHardState(h, rs) == h
    decreases |rs|
  {
    if rs != [] {
      LastHardStateIs(h, rs[..|rs| - 1], i);
    }
  }

  class MemoryStorage {
    var entries: seq<Entry>
    var hardState: HardState

    constructor ()
      ensures Contents() == EMPTY_STORE
    {
      entries := [];
      hardState := NO_HARD_STATE;
    }

    function Contents(): Store
      reads this
    {
      Store(entries, hardState)
    }

    method Append(e: Entry)
      modifies this
      ensures Contents() == Apply(old(Contents()), EntryRecord(e))
    {
      entries := entries + [e];
    }

    method SetHardState(h: HardState)
      modifies this
      ensures Contents() == Apply(old(Contents()), HardStateRecord(h))
    {
      hardState := h;
    }
  }

  class ReadableLogSegment {
    const codec: Codec
    const verifyChecksum: bool
    const memStore: MemoryStorage
    var buf: bytes
    var remain: nat
    var numEntries: nat

    constructor (codec: Codec, scratch: bytes, memStore: MemoryStorage, verifyChecksum: bool)
      ensures Valid() && buf == scratch && numEntries == 0
      ensures this.codec == codec && this.memStore == memStore && this.verifyChecksum == verifyChecksum
    {
      this.codec, this.memStore, this.verifyChecksum := codec, memStore, verifyChecksum;
      buf, remain, numEntries := scratch, |scratch|, 0;
    }

    ghost predicate Valid()
      reads this
    {
      remain == |buf|
    }

    predicate Eof()
      requires Valid()
      reads this
    {
      remain == 0
    }

    method Advance(size: nat)
      requires Valid() && size <= remain
      modifies this`buf, this`remain
      ensures Valid() && buf == old(buf)[size..]
    {
      remain := remain - size;
      buf := buf[size..];
    }

    method ReadHeader() returns (s: Status)
      requires Valid()
      modifies this`buf, this`remain
      ensures Valid()
      ensures s == OK ==> old(buf) == MAGIC + buf
      ensures s != OK ==> s == ReadSegment(codec, old(buf), verifyChecksum).status && !(MAGIC <= old(buf))
    {
      if remain < |MAGIC| {
        return Corruption(BadMagicLength);
      }
      if buf[..|MAGIC|] != MAGIC {
        return Corruption(BadMagic);
      }
      Advance(|MAGIC|);
      return OK;
    }

    /** The loop over the records of a batch; those before a bad one have been applied. */
    method ApplyRecords(data: bytes) returns (s: Status)
      modifies this`numEntries, memStore
      ensures var r := ReadRecords(codec, data);
              && s == r.status
              && memStore.Contents() == Replay(old(memStore.Contents()), r.applied)
              && numEntries == old(numEntries) + |Entries(r.applied)|
    {
      var record := data;
      ghost var want := ReadRecords(codec, data);
      while |record| > 0
        invariant ReadRecords(codec, record).status == want.status
        invariant Replay(memStore.Contents(), ReadRecords(codec, record).applied)
               == Replay(old(memStore.Contents()), want.applied)
        invariant numEntries + |Entries(ReadRecords(codec, record).applied)|
               == old(numEntries) + |Entries(want.applied)|
        decreases |record|
      {
        ghost var before, had := memStore.Contents(), record;
        var tag := record[0];
        record := record[RECORD_HEADER_SIZE..];
        var d;
        d, record := GetLengthPrefixedSlice(record);
        if d.Malformed? {
          return Corruption(BadRecord);
        }
        RecordStep(codec, had, before);
        if tag == LOG_ENTRY_TYPE {
          memStore.Append(codec.parseEntry(d.value));
          numEntries := numEntries + 1;
        } else if tag == HARD_STATE_TYPE {
          memStore.SetHardState(codec.parseHardState(d.value));
        }
      }
      return OK;
    }

    /** Reads one batch. */
    method ReadRecord() returns (s: Status)
      requires Valid()
      modifies this`buf, this`remain, this`numEntries, memStore
      ensures Valid()
      ensures var r := ReadBatch(codec, old(buf), verifyChecksum);
              && s == r.status
              && (s == OK ==> buf == r.rest)
              && memStore.Contents() == Replay(old(memStore.Contents()), r.applied)
              && numEntries == old(numEntries) + |Entries(r.applied)|
    {
      if remain < BATCH_HEADER_SIZE {
        return Corruption(BadBatchHeader);
      }
      var crc := DecodeFixed32(buf);
      var len := DecodeFixed32(buf[4..]);
      Advance(BATCH_HEADER_SIZE);
      if remain < len {
        return Corruption(BadBatchLength);
      }
      if verifyChecksum && codec.crc(buf[..len]) != crc {
        return Corruption(BadChecksum);
      }
      s := ApplyRecords(buf[..len]);
      if s != OK {
        return s;
      }
      Advance(len);
    }
  }

  /** Applying the record at the head of the data leaves the rest of the data to apply. */
  lemma {:induction false} RecordStep(c: Codec, data: bytes, s: Store)
    requires data != [] && GetSlice(data[1..]).Decoded?
    ensures var d := GetSlice(data[1..]);
            var r, more := ReadRecords(c, data), ParseRecord(c, data[0], d.value);
            var rest := ReadRecords(c, d.rest);
            && |more| <= 1
            && r.status == rest.status
            && Replay(s, r.applied) == Replay(if more == [] then s else Apply(s, more[0]), rest.applied)
            && |Entries(r.applied)| == |Entries(rest.applied)| + (if data[0] == LOG_ENTRY_TYPE then 1 else 0)
  {
    var d := GetSlice(data[1..]);
    AppliedHead(s, ParseRecord(c, data[0], d.value), ReadRecords(c, d.rest).applied);
  }

  lemma {:induction false} AppliedHead(s: Store, more: seq<Record>, rest: seq<Record>)
    requires |more| <= 1
    ensures Replay(s, more + rest) == Replay(if more == [] then s else Apply(s, more[0]), rest)
    ensures |Entries(more + rest)| == |Entries(rest)| + (if more != [] && more[0].EntryRecord? then 1 else 0)
  {
    if more == [] {
      assert more + rest == rest;
    } else {
      assert (more + rest)[0] == more[0] && (more + rest)[1..] == rest;
    }
  }

  /** Reading the batch at the head of the buffer leaves the rest of the buffer to read. */
  lemma {:induction false} BatchStep(c: Codec, buf: bytes, verify: bool, s: Store)
    requires buf != []
    ensures var r, b := ReadBatches(c, buf, verify), ReadBatch(c, buf, verify);
            && (b.status != OK ==> r == Reading(b.applied, b.status))
            && (b.status == OK ==>
                  var rest := ReadBatches(c, b.rest, verify);
                  && r.status == rest.status
                  && Replay(s, r.applied) == Replay(Replay(s, b.applied), rest.applied)
                  && |Entries(r.applied)| == |Entries(b.applied)| + |Entries(rest.applied)|)
  {
    var b := ReadBatch(c, buf, verify);
    if b.status == OK {
      ReplayConcat(s, b.applied, ReadBatches(c, b.rest, verify).applied);
      EntriesConcat(b.applied, ReadBatches(c, b.rest, verify).applied);
    }
  }

  /** The reader ends on every byte sequence, and OK means that every byte was consumed. */
  method ReadSegmentIntoMemoryStorage(codec: Codec, file: bytes, memStore: MemoryStorage, verifyChecksum: bool)
      returns (s: Status, numEntries: nat)
    modifies memStore
    ensures var r := ReadSegment(codec, file, verifyChecksum);
            && s == r.status
            && memStore.Contents() == Replay(old(memStore.Contents()), r.applied)
            && numEntries == |Entries(r.applied)|
  {
    var seg := new ReadableLogSegment(codec, file, memStore, verifyChecksum);
    s := seg.ReadHeader();
    if s != OK {
      return s, seg.numEntries;
    }
    assert file[|MAGIC|..] == seg.buf;
    ghost var want := ReadSegment(codec, file, verifyChecksum);
    while !seg.Eof()
      invariant seg.Valid() && fresh(seg) && seg.memStore == memStore
      invariant seg.codec == codec && seg.verifyChecksum == verifyChecksum
      invariant ReadBatches(codec, seg.buf, verifyChecksum).status == want.status
      invariant Replay(memStore.Contents(), ReadBatches(codec, seg.buf, verifyChecksum).applied)
             == Replay(old(memStore.Contents()), want.applied)
      invariant seg.numEntries + |Entries(ReadBatches(codec, seg.buf, verifyChecksum).applied)|
             == |Entries(want.applied)|
      decreases |seg.buf|
    {
      BatchStep(codec, seg.buf, verifyChecksum, memStore.Contents());
      s := seg.ReadRecord();
      if s != OK {
        return s, seg.numEntries;
      }
    }
    return OK, seg.numEntries;
  }
}
