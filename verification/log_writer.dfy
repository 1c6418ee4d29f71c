/** The segment writer (src/wal/log_writer.h, src/wal/log_writer.cc). */
module LogWriting {
  import opened Coding
  import opened WalFormat

  /**
   Two choices in LogWriter::Append on which the code as compiled and its evident intent part:
   - countsHardStateLength: whether the size of a batch includes the varint that saveHardState
     writes before the hard state (line 35 leaves it out);
   - signedRemains: whether the space left is compared as a signed number (lines 40 and 43
     compare it with a size_t, so a negative one turns into a huge unsigned one).
   Everything is stated for every choice; conditions name the choice where it matters.
   */
  datatype Build = Build(countsHardStateLength: bool, signedRemains: bool)

  const AS_COMPILED := Build(false, false)

  datatype Config = Config(build: Build, codec: Codec, segmentSize: nat)

  /** What one Append puts into one batch. */
  datatype Batch = Batch(hs: Option<HardState>, entries: seq<Entry>)

  function EntryRecords(es: seq<Entry>): (rs: seq<Record>)
    ensures |rs| == |es|
  {
    seq(|es|, i requires 0 <= i < |es| => EntryRecord(es[i]))
  }

  function HardStateRecords(hs: Option<HardState>): seq<Record> {
    if hs.None? then [] else [HardStateRecord(hs.value)]
  }

  function Records(b: Batch): seq<Record> {
    HardStateRecords(b.hs) + EntryRecords(b.entries)
  }

  // ---------------------------------------------------------------------------------------
  // Sizes, as Append computes them
  // ---------------------------------------------------------------------------------------

  function EntrySize(c: Codec, e: Entry): nat {
    RECORD_HEADER_SIZE + |Varint(|c.entryWire(e)|)| + |c.entryWire(e)|
  }

  function EntriesSize(c: Codec, es: seq<Entry>): nat {
    if es == [] then 0 else EntrySize(c, es[0]) + EntriesSize(c, es[1..])
  }

  /** The bytes saveHardState writes that the size of the batch does not count. */
  function Uncounted(cfg: Config, hs: Option<HardState>): nat {
    if hs.None? || cfg.build.countsHardStateLength then 0
    else |Varint(|cfg.codec.hardStateWire(hs.value)|)|
  }

  function HardStateSize(cfg: Config, hs: Option<HardState>): nat {
    if hs.None? then 0
    else
      var size := |cfg.codec.hardStateWire(hs.value)|;
      RECORD_HEADER_SIZE + (if cfg.build.countsHardStateLength then |Varint(size)| else 0) + size
  }

  function DataSize(cfg: Config, b: Batch): nat {
    HardStateSize(cfg, b.hs) + EntriesSize(cfg.codec, b.entries)
  }

  lemma {:induction false} RecordsBytesConcat(c: Codec, a: seq<Record>, b: seq<Record>)
    ensures RecordsBytes(c, a + b) == RecordsBytes(c, a) + RecordsBytes(c, b)
  {
    if a == [] {
      assert a + b == b;
    } else {
      assert (a + b)[1..] == a[1..] + b;
      RecordsBytesConcat(c, a[1..], b);
    }
  }

  lemma {:induction false} EntriesSizeIs(c: Codec, es: seq<Entry>)
    ensures EntriesSize(c, es) == |RecordsBytes(c, EntryRecords(es))|
  {
    if es != [] {
      EntriesSizeIs(c, es[1..]);
      assert EntryRecords(es)[1..] == EntryRecords(es[1..]);
    }
  }

  lemma {:induction false} HardStateBytes(c: Codec, hs: Option<HardState>)
    ensures RecordsBytes(c, HardStateRecords(hs)) ==
            if hs.None? then [] else RecordBytes(c, HardStateRecord(hs.value))
  {
    if hs.Some? {
      var rs := HardStateRecords(hs);
      assert rs[1..] == [];
      assert RecordBytes(c, rs[0]) + [] == RecordBytes(c, rs[0]);
    }
  }

  /**
   Size accounting: the precomputed size is what the save loops produce, short of exactly the
   length prefix of the hard state when the build does not count it.
   */
  lemma {:induction false} SizeAccounting(cfg: Config, b: Batch)
    ensures |RecordsBytes(cfg.codec, Records(b))| == DataSize(cfg, b) + Uncounted(cfg, b.hs)
  {
    RecordsBytesConcat(cfg.codec, HardStateRecords(b.hs), EntryRecords(b.entries));
    EntriesSizeIs(cfg.codec, b.entries);
    HardStateBytes(cfg.codec, b.hs);
  }

  /** The data of the batch that reaches the file: the first DataSize bytes of the records. */
  function BatchData(cfg: Config, b: Batch): (d: bytes)
    ensures |d| == DataSize(cfg, b)
  {
    SizeAccounting(cfg, b);
    RecordsBytes(cfg.codec, Records(b))[..DataSize(cfg, b)]
  }

  // ---------------------------------------------------------------------------------------
  // How many entries a segment takes
  // ---------------------------------------------------------------------------------------

  /** `totalSize < remains`; as compiled a negative ssize_t is converted to size_t first. */
  predicate Fits(build: Build, total: nat, remains: int) {
    if build.signedRemains || remains >= 0 then total < remains else total < TWO_64 + remains
  }

  /** The number of entries the loop of Append accepts, starting at size `total`. */
  function Accept(cfg: Config, remains: int, total: nat, es: seq<Entry>): (n: nat)
    ensures n <= |es|
    decreases |es|
  {
    if es == [] || !Fits(cfg.build, total, remains) then 0
    else 1 + Accept(cfg, remains, total + EntrySize(cfg.codec, es[0]), es[1..])
  }

  /** The number of entries accepted when the file, magic included, has `size` bytes. */
  function Accepted(cfg: Config, size: nat, es: seq<Entry>, hs: Option<HardState>): (n: nat)
    ensures n <= |es|
  {
    Accept(cfg, cfg.segmentSize - size, BATCH_HEADER_SIZE + HardStateSize(cfg, hs), es)
  }

  function WithMagic(file: bytes, empty: bool): bytes {
    if empty then file + MAGIC else file
  }

  /** The batch written by an Append to a file, and the file after it. */
  function AppendedBatch(cfg: Config, file: bytes, empty: bool, es: seq<Entry>, hs: Option<HardState>): Batch {
    Batch(hs, es[..Accepted(cfg, |WithMagic(file, empty)|, es, hs)])
  }

  function AppendedFile(cfg: Config, file: bytes, empty: bool, es: seq<Entry>, hs: Option<HardState>): bytes {
    WithMagic(file, empty) + BatchBytes(cfg.codec, BatchData(cfg, AppendedBatch(cfg, file, empty, es, hs)))
  }

  // ---------------------------------------------------------------------------------------
  // The writer
  // ---------------------------------------------------------------------------------------

  /** s is s0 with the records of es written from offset up to end. */
  ghost predicate Saved(c: Codec, es: seq<Entry>, s0: bytes, offset: nat, s: bytes, end: nat) {
    var done := RecordsBytes(c, EntryRecords(es));
    end == offset + |done| <= |s0| && s == Overlay(s0, offset, done)
  }

  /** The directory: file names to the bytes handed to each file. */
  class Disk {
    var files: map<string, bytes>

    constructor (files: map<string, bytes>)
      ensures this.files == files
    {
      this.files := files;
    }
  }

  class LogWriter {
    const cfg: Config
    const disk: Disk
    const fname: string
    var numEntries: nat
    var empty: bool

    constructor (cfg: Config, disk: Disk, fname: string)
      ensures this.cfg == cfg && this.disk == disk && this.fname == fname
      ensures numEntries == 0 && empty
    {
      this.cfg, this.disk, this.fname := cfg, disk, fname;
      numEntries, empty := 0, true;
    }

    method AppendToFile(data: bytes)
      requires fname in disk.files
      modifies disk
      ensures disk.files == old(disk.files)[fname := old(disk.files[fname]) + data]
    {
      disk.files := disk.files[fname := disk.files[fname] + data];
    }

    method SaveHardState(h: HardState, dest: array<byte>, offset: nat) returns (end: nat)
      requires |cfg.codec.hardStateWire(h)| < TWO_32
      requires offset + |RecordBytes(cfg.codec, HardStateRecord(h))| <= dest.Length
      modifies dest
      ensures end == offset + |RecordBytes(cfg.codec, HardStateRecord(h))|
      ensures dest[..] == Overlay(old(dest[..]), offset, RecordBytes(cfg.codec, HardStateRecord(h)))
    {
      end := SaveRecord(HARD_STATE_TYPE, cfg.codec.hardStateWire(h), dest, offset);
    }

    /** One record: type, length, serialised message. */
    method SaveRecord(tag: byte, wire: bytes, dest: array<byte>, offset: nat) returns (end: nat)
      requires |wire| < TWO_32
      requires offset + 1 + |Slice(wire)| <= dest.Length
      modifies dest
      ensures end == offset + 1 + |Slice(wire)|
      ensures dest[..] == Overlay(old(dest[..]), offset, [tag] + Slice(wire))
    {
      ghost var s0, v := dest[..], Varint(|wire|);
      assert |[tag] + v + wire| == 1 + |Slice(wire)|;
      dest[offset] := tag;
      assert dest[..] == Overlay(s0, offset, [tag]) by {
        assert dest[..] == s0[offset := tag];
        OverlayStore(s0, offset, tag);
      }
      var p := EncodeVarint32(dest, offset + 1, |wire|);
      assert dest[..] == Overlay(s0, offset, [tag] + v) by { OverlayNext(s0, offset, [tag], v); }
      CopyInto(dest, p, wire);
      assert dest[..] == Overlay(s0, offset, [tag] + v + wire) by { OverlayNext(s0, offset, [tag] + v, wire); }
      assert [tag] + v + wire == [tag] + Slice(wire);
      end := p + |wire|;
    }

    /** The entry at i, after the i entries saved before it. */
    method SaveEntry(es: seq<Entry>, i: nat, dest: array<byte>, ghost s0: bytes, ghost offset: nat, at: nat)
      returns (end: nat)
      requires i < |es| && Small(cfg.codec, EntryRecords(es))
      requires offset + |RecordsBytes(cfg.codec, EntryRecords(es))| <= |s0|
      requires Saved(cfg.codec, es[..i], s0, offset, dest[..], at)
      modifies dest
      ensures Saved(cfg.codec, es[..i + 1], s0, offset, dest[..], end)
    {
      SavedPrefix(cfg.codec, es, i);
      assert EntryRecords(es)[i] == EntryRecord(es[i]);
      ghost var done, r := RecordsBytes(cfg.codec, EntryRecords(es[..i])), RecordBytes(cfg.codec, EntryRecord(es[i]));
      end := SaveRecord(LOG_ENTRY_TYPE, cfg.codec.entryWire(es[i]), dest, at);
      OverlayNext(s0, offset, done, r);
    }

    method SaveEntries(es: seq<Entry>, dest: array<byte>, offset: nat) returns (end: nat)
      requires Small(cfg.codec, EntryRecords(es))
      requires offset + EntriesSize(cfg.codec, es) <= dest.Length
      modifies dest
      ensures end == offset + EntriesSize(cfg.codec, es)
      ensures |RecordsBytes(cfg.codec, EntryRecords(es))| == EntriesSize(cfg.codec, es)
      ensures dest[..] == Overlay(old(dest[..]), offset, RecordsBytes(cfg.codec, EntryRecords(es)))
    {
      EntriesSizeIs(cfg.codec, es);
      end := offset;
      var i := 0;
      ghost var s0 := dest[..];
      OverlayNothing(s0, offset);
      while i < |es|
        invariant i <= |es| && Saved(cfg.codec, es[..i], s0, offset, dest[..], end)
      {
        end := SaveEntry(es, i, dest, s0, offset, end);
        i := i + 1;
      }
      assert es[..i] == es;
    }

    /**
     Appends as many of the entries from `begin` on as the segment takes, with the hard state
     before them, as one checksummed batch.
     */
    method Append(entries: seq<Entry>, begin: nat, hs: Option<HardState>) returns (newBegin: nat)
      requires fname in disk.files && begin <= |entries|
      requires Small(cfg.codec, Records(Batch(hs, entries)))
      modifies this, disk
      ensures var es, file := entries[begin..], old(disk.files[fname]);
              && newBegin == begin + |AppendedBatch(cfg, file, old(empty), es, hs).entries|
              && disk.files == old(disk.files)[fname := AppendedFile(cfg, file, old(empty), es, hs)]
              && numEntries == old(numEntries) + (newBegin - begin)
              && !empty
    {
      ghost var base := WithMagic(disk.files[fname], empty);
      if empty {
        AppendToFile(MAGIC);
        empty := false;
      }
      assert disk.files == old(disk.files)[fname := base];
      var n, totalSize := Fill(entries[begin..], hs, |disk.files[fname]|);
      newBegin := begin + n;
      SmallRange(cfg.codec, hs, entries, begin, newBegin);
      assert entries[begin..][..newBegin - begin] == entries[begin..newBegin];
      var scratch := Scratch(entries[begin..newBegin], hs, totalSize);
      AppendToFile(scratch);
      numEntries := numEntries + (newBegin - begin);
    }

    /** The size computation and the greedy loop over the entries. */
    method Fill(es: seq<Entry>, hs: Option<HardState>, size: nat) returns (n: nat, totalSize: nat)
      ensures n == Accepted(cfg, size, es, hs)
      ensures totalSize == BATCH_HEADER_SIZE + DataSize(cfg, Batch(hs, es[..n]))
    {
      var remains: int := cfg.segmentSize - size;
      totalSize := BATCH_HEADER_SIZE;
      if hs.Some? {
        totalSize := totalSize + HardStateSize(cfg, hs);
      }
      ghost var start := totalSize;
      n := 0;
      assert es[0..] == es;
      if Fits(cfg.build, totalSize, remains) && es != [] {
        while n != |es|
          invariant n <= |es|
          invariant totalSize == start + EntriesSize(cfg.codec, es[..n])
          invariant Accept(cfg, remains, start, es) == n + Accept(cfg, remains, totalSize, es[n..])
          decreases |es| - n
        {
          if Fits(cfg.build, totalSize, remains) {
            FillStep(cfg, remains, totalSize, es, n);
            totalSize := totalSize + EntrySize(cfg.codec, es[n]);
            n := n + 1;
          } else {
            break;
          }
        }
      }
    }

    /** The records of the batch, after room for its header. */
    method SaveRecords(es: seq<Entry>, hs: Option<HardState>, scratch: array<byte>)
      requires Small(cfg.codec, Records(Batch(hs, es)))
      requires scratch.Length == BATCH_HEADER_SIZE + |RecordsBytes(cfg.codec, Records(Batch(hs, es)))|
      modifies scratch
      ensures scratch[BATCH_HEADER_SIZE..] == RecordsBytes(cfg.codec, Records(Batch(hs, es)))
    {
      ghost var hr, er := RecordsBytes(cfg.codec, HardStateRecords(hs)), RecordsBytes(cfg.codec, EntryRecords(es));
      HardStateBytes(cfg.codec, hs);
      RecordsBytesConcat(cfg.codec, HardStateRecords(hs), EntryRecords(es));
      EntriesSizeIs(cfg.codec, es);
      SmallParts(cfg.codec, hs, es);
      ghost var s0 := scratch[..];
      var offset := BATCH_HEADER_SIZE;
      if hs.Some? {
        offset := SaveHardState(hs.value, scratch, offset);
      }
      OverlayNothing(s0, BATCH_HEADER_SIZE);
      ghost var s1 := scratch[..];
      offset := SaveEntries(es, scratch, offset);
      OverlayToEnd(s0, BATCH_HEADER_SIZE, hr, er);
    }

    /**
     The batch of totalSize bytes.  The records an uncounted length prefix pushes past
     totalSize do not reach the file.
     */
    method Scratch(es: seq<Entry>, hs: Option<HardState>, totalSize: nat) returns (batch: bytes)
      requires Small(cfg.codec, Records(Batch(hs, es)))
      requires totalSize == BATCH_HEADER_SIZE + DataSize(cfg, Batch(hs, es))
      ensures batch == BatchBytes(cfg.codec, BatchData(cfg, Batch(hs, es)))
    {
      SizeAccounting(cfg, Batch(hs, es));
      var scratch := new byte[totalSize + Uncounted(cfg, hs)];
      SaveRecords(es, hs, scratch);
      var dataLen := totalSize - BATCH_HEADER_SIZE;
      var data := scratch[BATCH_HEADER_SIZE..totalSize];
      assert data == scratch[BATCH_HEADER_SIZE..][..dataLen] == scratch[..][BATCH_HEADER_SIZE..totalSize];
      assert data == BatchData(cfg, Batch(hs, es));
      ghost var was := scratch[..];
      EncodeFixed32(scratch, 4, dataLen);
      EncodeFixed32(scratch, 0, cfg.codec.crc(data));
      Sealed(was, totalSize, Fixed32(cfg.codec.crc(data)), Fixed32(dataLen));
      batch := scratch[..totalSize];
    }
  }

  lemma {:induction false} SmallParts(c: Codec, hs: Option<HardState>, es: seq<Entry>)
    requires Small(c, Records(Batch(hs, es)))
    ensures hs.Some? ==> |c.hardStateWire(hs.value)| < TWO_32
    ensures Small(c, EntryRecords(es))
  {
    var rs := Records(Batch(hs, es));
    if hs.Some? {
      assert rs[0] == HardStateRecord(hs.value);
    }
    forall i | 0 <= i < |es| ensures |c.Wire(EntryRecords(es)[i])| < TWO_32 {
      assert rs[|HardStateRecords(hs)| + i] == EntryRecords(es)[i];
    }
  }

  lemma {:induction false} SmallWithout(c: Codec, hs: Option<HardState>, es: seq<Entry>)
    requires Small(c, Records(Batch(hs, es)))
    ensures Small(c, Records(Batch(None, es)))
  {
    SmallParts(c, hs, es);
    assert Records(Batch(None, es)) == EntryRecords(es);
  }

  lemma {:induction false} SmallRange(c: Codec, hs: Option<HardState>, es: seq<Entry>, begin: nat, end: nat)
    requires begin <= end <= |es| && Small(c, Records(Batch(hs, es)))
    ensures Small(c, Records(Batch(hs, es[begin..end])))
  {
    var all, some, h := Records(Batch(hs, es)), Records(Batch(hs, es[begin..end])), |HardStateRecords(hs)|;
    forall i | 0 <= i < |some| ensures |c.Wire(some[i])| < TWO_32 {
      if i < h {
        assert some[i] == all[i];
      } else {
        assert some[i] == all[i + begin];
      }
    }
  }

  lemma {:induction false} FillStep(cfg: Config, remains: int, total: nat, es: seq<Entry>, n: nat)
    requires n < |es| && Fits(cfg.build, total, remains)
    ensures EntriesSize(cfg.codec, es[..n + 1]) == EntriesSize(cfg.codec, es[..n]) + EntrySize(cfg.codec, es[n])
    ensures Accept(cfg, remains, total, es[n..])
         == 1 + Accept(cfg, remains, total + EntrySize(cfg.codec, es[n]), es[n + 1..])
  {
    SavedPrefix(cfg.codec, es, n);
    EntriesSizeIs(cfg.codec, es[..n + 1]);
    EntriesSizeIs(cfg.codec, es[..n]);
    assert es[n..][1..] == es[n + 1..];
  }

  lemma OverlayNothing(s: bytes, at: nat)
    requires at <= |s|
    ensures Overlay(s, at, []) == s
  {
  }

  lemma {:induction false} OverlayToEnd(s: bytes, at: nat, x: bytes, y: bytes)
    requires at + |x| + |y| == |s|
    ensures Overlay(Overlay(s, at, x), at + |x|, y)[at..] == x + y
  {
    OverlayNext(s, at, x, y);
  }

  lemma {:induction false} Sealed(s: bytes, n: nat, crc: bytes, len: bytes)
    requires |crc| == |len| == 4 && 8 <= n <= |s|
    ensures Overlay(Overlay(s, 4, len), 0, crc)[..n] == crc + len + s[8..n]
  {
    assert Overlay(s, 4, len)[4..] == len + s[8..];
    assert Overlay(Overlay(s, 4, len), 0, crc) == crc + (len + s[8..]);
    assert (crc + (len + s[8..]))[..n] == crc + len + s[8..n];
  }

  lemma {:induction false} SavedPrefix(c: Codec, es: seq<Entry>, i: nat)
    requires i < |es|
    ensures RecordsBytes(c, EntryRecords(es[..i + 1])) ==
            RecordsBytes(c, EntryRecords(es[..i])) + RecordBytes(c, EntryRecord(es[i]))
    ensures |RecordsBytes(c, EntryRecords(es[..i + 1]))| <= |RecordsBytes(c, EntryRecords(es))|
  {
    var one := [EntryRecord(es[i])];
    assert one[1..] == [] && RecordsBytes(c, one) == RecordBytes(c, one[0]) + [];
    assert EntryRecords(es[..i + 1]) == EntryRecords(es[..i]) + one;
    RecordsBytesConcat(c, EntryRecords(es[..i]), one);
    assert EntryRecords(es) == EntryRecords(es[..i + 1]) + EntryRecords(es[i + 1..]);
    RecordsBytesConcat(c, EntryRecords(es[..i + 1]), EntryRecords(es[i + 1..]));
  }
}
