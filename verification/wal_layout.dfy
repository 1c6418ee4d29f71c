/**
 What is on disk: the segments a log manager has written, batch by batch, and the invariant
 that ties them to the bytes of the directory.
 */
module WalLayout {
  import opened Coding
  import opened WalFormat
  import opened WalReader
  import opened LogWriting
  import opened LogManagement
  import opened SegmentName

  datatype Segment = Segment(start: nat, batches: seq<Batch>)

  /** The finished segments, in the order they were written, and the open one. */
  datatype Layout = Layout(closed: seq<Segment>, open: Option<Segment>)
  {
    function All(): seq<Segment> {
      if open.None? then closed else closed + [open.value]
    }
  }

  function BatchDatas(cfg: Config, bs: seq<Batch>): (ds: seq<bytes>)
    ensures |ds| == |bs|
  {
    seq(|bs|, i requires 0 <= i < |bs| => BatchData(cfg, bs[i]))
  }

  function SegmentBytes(cfg: Config, bs: seq<Batch>): bytes {
    MAGIC + BatchesBytes(cfg.codec, BatchDatas(cfg, bs))
  }

  function BatchRecords(bs: seq<Batch>): seq<Record> {
    if bs == [] then [] else Records(bs[0]) + BatchRecords(bs[1..])
  }

  /** Every record handed to the log, in order. */
  function History(segs: seq<Segment>): seq<Record> {
    if segs == [] then [] else BatchRecords(segs[0].batches) + History(segs[1..])
  }

  function Count(bs: seq<Batch>): nat {
    |Entries(BatchRecords(bs))|
  }

  /** The data of the batch is all of its records. */
  predicate IntactBatch(cfg: Config, b: Batch) {
    cfg.build.countsHardStateLength || b.hs.None?
  }

  ghost predicate Intact(cfg: Config, bs: seq<Batch>) {
    forall i :: 0 <= i < |bs| ==> IntactBatch(cfg, bs[i])
  }

  /** Records of under 2^32 bytes, in a batch of under 2^32 bytes. */
  ghost predicate Narrow(cfg: Config, b: Batch) {
    Small(cfg.codec, Records(b)) && DataSize(cfg, b) < TWO_32
  }

  ghost predicate AllNarrow(cfg: Config, bs: seq<Batch>) {
    forall i :: 0 <= i < |bs| ==> Narrow(cfg, bs[i])
  }

  // ---------------------------------------------------------------------------------------
  // The invariant
  // ---------------------------------------------------------------------------------------

  /** The file of segment `id` holds exactly the batches of s. */
  ghost predicate Stored(cfg: Config, dir: map<string, bytes>, id: nat, s: Segment) {
    var f := SegmentFileName(id, s.start);
    f in dir && dir[f] == SegmentBytes(cfg, s.batches) && Started(s) && AllNarrow(cfg, s.batches)
  }

  /** The first batch of a segment is never empty. */
  ghost predicate Started(s: Segment) {
    s.batches != [] && Records(s.batches[0]) != []
  }

  /** f is the name of one of the segments. */
  ghost predicate Named(segs: seq<Segment>, f: string) {
    exists i :: 0 <= i < |segs| && f == SegmentFileName(i + 1, segs[i].start)
  }

  ghost predicate AllStored(cfg: Config, dir: map<string, bytes>, segs: seq<Segment>) {
    forall i: nat {:trigger StoredAt(cfg, dir, segs, i)} :: StoredAt(cfg, dir, segs, i)
  }

  ghost predicate StoredAt(cfg: Config, dir: map<string, bytes>, segs: seq<Segment>, i: nat) {
    i < |segs| ==> Stored(cfg, dir, i + 1, segs[i])
  }

  ghost predicate NoOthers(dir: map<string, bytes>, segs: seq<Segment>) {
    forall f {:trigger Named(segs, f)} :: f in dir && IsWal(f) ==> Named(segs, f)
  }

  /** A count is never too high, and right where all batches are intact. */
  ghost predicate CountFits(cfg: Config, count: nat, bs: seq<Batch>) {
    count <= Count(bs) && (Intact(cfg, bs) ==> count == Count(bs))
  }

  ghost predicate Counted(cfg: Config, files: seq<Meta>, segs: seq<Segment>) {
    && |files| == |segs|
    && forall i: nat {:trigger CountedAt(cfg, files, segs, i)} :: CountedAt(cfg, files, segs, i)
  }

  ghost predicate CountedAt(cfg: Config, files: seq<Meta>, segs: seq<Segment>, i: nat) {
    i < |files| && i < |segs| ==> CountFits(cfg, files[i].numEntries, segs[i].batches)
  }

  /** The open segment is the next one, and its entries are counted. */
  ghost predicate OpenMatches(cfg: Config, w: Wal, s: Segment)
    requires w.current.Some?
  {
    && w.current.value.fname == SegmentFileName(|w.files| + 1, s.start)
    && !w.current.value.empty
    && CountFits(cfg, w.current.value.numEntries, s.batches)
  }

  ghost predicate Holds(cfg: Config, w: Wal, l: Layout) {
    && Counted(cfg, w.files, l.closed)
    && (w.current.Some? <==> l.open.Some?)
    && (l.open.Some? ==> OpenMatches(cfg, w, l.open.value))
    && AllStored(cfg, w.dir, l.All())
    && NoOthers(w.dir, l.All())
  }

  // ---------------------------------------------------------------------------------------
  // Small facts
  // ---------------------------------------------------------------------------------------

  lemma {:induction false} BatchRecordsConcat(a: seq<Batch>, b: seq<Batch>)
    ensures BatchRecords(a + b) == BatchRecords(a) + BatchRecords(b)
  {
    if a == [] {
      assert a + b == b;
    } else {
      assert (a + b)[1..] == a[1..] + b;
      BatchRecordsConcat(a[1..], b);
      Assoc(Records(a[0]), BatchRecords(a[1..]), BatchRecords(b));
    }
  }

  lemma {:induction false} HistoryConcat(a: seq<Segment>, b: seq<Segment>)
    ensures History(a + b) == History(a) + History(b)
  {
    if a == [] {
      assert a + b == b;
    } else {
      assert (a + b)[1..] == a[1..] + b;
      HistoryConcat(a[1..], b);
      Assoc(BatchRecords(a[0].batches), History(a[1..]), History(b));
    }
  }

  lemma {:induction false} HistoryOne(s: Segment)
    ensures History([s]) == BatchRecords(s.batches)
  {
    assert [s][1..] == [];
    assert BatchRecords(s.batches) + [] == BatchRecords(s.batches);
  }

  lemma {:induction false} BatchRecordsOne(b: Batch)
    ensures BatchRecords([b]) == Records(b)
  {
    assert [b][1..] == [];
    assert Records(b) + [] == Records(b);
  }

  lemma {:induction false} EntriesOfRecords(es: seq<Entry>)
    ensures Entries(EntryRecords(es)) == es
  {
    if es != [] {
      assert EntryRecords(es)[1..] == EntryRecords(es[1..]);
      EntriesOfRecords(es[1..]);
    }
  }

  lemma {:induction false} EntriesOfBatch(b: Batch)
    ensures Entries(Records(b)) == b.entries
  {
    var h := HardStateRecords(b.hs);
    EntriesConcat(h, EntryRecords(b.entries));
    EntriesOfRecords(b.entries);
    assert Entries(h) == [] by {
      if h != [] {
        assert h[1..] == [];
      }
    }
  }

  lemma {:induction false} BatchesBytesOne(c: Codec, d: bytes)
    ensures BatchesBytes(c, [d]) == BatchBytes(c, d)
  {
    var one := [d];
    assert one[1..] == [];
    assert BatchBytes(c, d) + [] == BatchBytes(c, d);
  }

  /** Adding a batch at the end of a segment. */
  lemma {:induction false} SnocBytes(cfg: Config, bs: seq<Batch>, b: Batch)
    ensures SegmentBytes(cfg, bs + [b]) == SegmentBytes(cfg, bs) + BatchBytes(cfg.codec, BatchData(cfg, b))
  {
    var c, ds, d := cfg.codec, BatchDatas(cfg, bs), BatchData(cfg, b);
    assert BatchDatas(cfg, bs + [b]) == ds + [d];
    BatchesBytesConcat(c, ds, [d]);
    BatchesBytesOne(c, d);
    Assoc(MAGIC, BatchesBytes(c, ds), BatchBytes(c, d));
  }

  lemma {:induction false} SnocRecords(bs: seq<Batch>, b: Batch)
    ensures BatchRecords(bs + [b]) == BatchRecords(bs) + Records(b)
    ensures Count(bs + [b]) == Count(bs) + |b.entries|
  {
    BatchRecordsConcat(bs, [b]);
    BatchRecordsOne(b);
    EntriesConcat(BatchRecords(bs), Records(b));
    EntriesOfBatch(b);
  }

  lemma {:induction false} SnocParts(cfg: Config, bs: seq<Batch>, b: Batch)
    ensures Intact(cfg, bs + [b]) ==> Intact(cfg, bs)
    ensures AllNarrow(cfg, bs) && Narrow(cfg, b) ==> AllNarrow(cfg, bs + [b])
  {
    assert forall i :: 0 <= i < |bs| ==> (bs + [b])[i] == bs[i];
  }

  /** Names are unique by segment id. */
  lemma {:induction false} NameDetermines(id: nat, start: nat, id': nat, start': nat)
    requires SegmentFileName(id, start) == SegmentFileName(id', start')
    ensures id == id' && start == start'
  {
    NameRoundTrip(id, start);
    NameRoundTrip(id', start');
  }

  // ---------------------------------------------------------------------------------------
  // Every operation keeps it
  // ---------------------------------------------------------------------------------------

  /** A new writer never collides with a file: LogWriter::New cannot fail. */
  lemma {:induction false} NameIsFree(cfg: Config, w: Wal, l: Layout)
    requires Holds(cfg, w, l) && w.current.None?
    ensures w.NextName() !in w.dir
  {
    assert l.All() == l.closed;
    NameIsWal(|w.files| + 1, w.lastIndex + 1);
    NotNamed(l.closed, |w.files| + 1, w.lastIndex + 1);
  }

  lemma {:induction false} NameIsWal(id: nat, start: nat)
    ensures IsWal(SegmentFileName(id, start))
  {
    NameRoundTrip(id, start);
  }

  lemma {:induction false} NotNamed(segs: seq<Segment>, id: nat, start: nat)
    requires id > |segs|
    ensures !Named(segs, SegmentFileName(id, start))
  {
    forall i | 0 <= i < |segs| ensures SegmentFileName(id, start) != SegmentFileName(i + 1, segs[i].start) {
      if SegmentFileName(id, start) == SegmentFileName(i + 1, segs[i].start) {
        NameDetermines(id, start, i + 1, segs[i].start);
      }
    }
  }

  lemma {:induction false} HoldsIsSound(cfg: Config, w: Wal, l: Layout)
    requires Holds(cfg, w, l)
    ensures w.Sound()
    ensures l.open.Some? ==> Stored(cfg, w.dir, |w.files| + 1, l.open.value)
  {
    if l.open.Some? {
      assert StoredAt(cfg, w.dir, l.All(), |l.closed|);
    }
  }

  /** Changing the file of one segment leaves the others as they are. */
  lemma {:induction false} StoreOne(cfg: Config, dir: map<string, bytes>, segs: seq<Segment>, s: Segment)
    requires AllStored(cfg, dir, segs)
    requires Started(s) && AllNarrow(cfg, s.batches)
    ensures AllStored(cfg, dir[SegmentFileName(|segs| + 1, s.start) := SegmentBytes(cfg, s.batches)], segs + [s])
  {
    var f := SegmentFileName(|segs| + 1, s.start);
    var dir', segs' := dir[f := SegmentBytes(cfg, s.batches)], segs + [s];
    forall i: nat | i < |segs'| ensures StoredAt(cfg, dir', segs', i) {
      if i < |segs| {
        assert StoredAt(cfg, dir, segs, i);
        if SegmentFileName(i + 1, segs[i].start) == f {
          NameDetermines(i + 1, segs[i].start, |segs| + 1, s.start);
        }
      }
    }
  }

  lemma {:induction false} StoredPrefix(cfg: Config, dir: map<string, bytes>, segs: seq<Segment>, s: Segment)
    requires AllStored(cfg, dir, segs + [s])
    ensures AllStored(cfg, dir, segs)
  {
    forall i: nat | i < |segs| ensures StoredAt(cfg, dir, segs, i) {
      assert StoredAt(cfg, dir, segs + [s], i);
    }
  }

  lemma {:induction false} NamedStill(segs: seq<Segment>, s: Segment, f: string)
    requires Named(segs, f)
    ensures Named(segs + [s], f)
  {
    var i :| 0 <= i < |segs| && f == SegmentFileName(i + 1, segs[i].start);
    assert (segs + [s])[i] == segs[i];
  }

  lemma {:induction false} NameNew(dir: map<string, bytes>, segs: seq<Segment>, s: Segment, data: bytes)
    requires NoOthers(dir, segs)
    ensures NoOthers(dir[SegmentFileName(|segs| + 1, s.start) := data], segs + [s])
  {
    var f0 := SegmentFileName(|segs| + 1, s.start);
    forall f | f in dir[f0 := data] && IsWal(f) ensures Named(segs + [s], f) {
      if f == f0 {
        assert (segs + [s])[|segs|] == s;
      } else {
        assert Named(segs, f);
        NamedStill(segs, s, f);
      }
    }
  }

  lemma {:induction false} NameSame(dir: map<string, bytes>, segs: seq<Segment>, t: Segment, s: Segment, data: bytes)
    requires NoOthers(dir, segs + [t]) && t.start == s.start
    ensures NoOthers(dir[SegmentFileName(|segs| + 1, s.start) := data], segs + [s])
  {
    var f0 := SegmentFileName(|segs| + 1, s.start);
    forall f | f in dir[f0 := data] && IsWal(f) ensures Named(segs + [s], f) {
      if f == f0 {
        assert (segs + [s])[|segs|] == s;
      } else {
        assert Named(segs + [t], f);
        var i :| 0 <= i < |segs + [t]| && f == SegmentFileName(i + 1, (segs + [t])[i].start);
        assert (segs + [s])[i] == segs[i] == (segs + [t])[i];
      }
    }
  }

  /** The layout after an Append to the open segment, or to a new one. */
  function AppendLayout(cfg: Config, w: Wal, l: Layout, es: seq<Entry>, hs: Option<HardState>): Layout {
    var b := NextBatch(cfg, Opened(w), es, hs);
    l.(open := Some(if l.open.Some? then Segment(l.open.value.start, l.open.value.batches + [b])
                    else Segment(w.lastIndex + 1, [b])))
  }

  /** The batches of the segment the next Append goes to. */
  function OpenBatches(l: Layout): seq<Batch> {
    if l.open.Some? then l.open.value.batches else []
  }

  lemma {:induction false} AppendedLast(cfg: Config, w: Wal, l: Layout, es: seq<Entry>, hs: Option<HardState>)
    requires w.Sound()
    ensures var l', b := AppendLayout(cfg, w, l, es, hs), NextBatch(cfg, Opened(w), es, hs);
            && l'.open.Some? && l'.closed == l.closed && l'.open.value.batches == OpenBatches(l) + [b]
            && l'.All() == l.closed + [Segment(l'.open.value.start, OpenBatches(l) + [b])]
  {
    var one := [NextBatch(cfg, Opened(w), es, hs)];
    assert [] + one == one;
  }

  lemma {:induction false} OpenedFile(cfg: Config, w: Wal, l: Layout)
    requires Holds(cfg, w, l) && w.Sound()
    ensures var w', bytes := Opened(w), SegmentBytes(cfg, OpenBatches(l));
            var file := w'.dir[w'.current.value.fname];
            WithMagic(file, w'.current.value.empty) == bytes && file == if l.open.Some? then bytes else []
  {
    HoldsIsSound(cfg, w, l);
    if l.open.None? {
      NoBatches(cfg);
      assert [] + MAGIC == MAGIC;
    }
  }

  lemma {:induction false} NoBatches(cfg: Config)
    ensures SegmentBytes(cfg, []) == MAGIC
  {
    assert MAGIC + [] == MAGIC;
  }

  /** w' is w after batch b went to the file of the writer, which then holds the batches bs. */
  ghost predicate Added(cfg: Config, w: Wal, w': Wal, writer: Writer, b: Batch, bs: seq<Batch>) {
    && w'.files == w.files && w'.current == Some(Writer(writer.fname, writer.numEntries + |b.entries|, false))
    && w'.dir == w.dir[writer.fname := SegmentBytes(cfg, bs)]
  }

  lemma {:induction false} AppendKeepsOpen(cfg: Config, w: Wal, l: Layout, es: seq<Entry>, hs: Option<HardState>)
    requires Holds(cfg, w, l) && w.current.Some? && w.Sound()
    requires Narrow(cfg, NextBatch(cfg, w, es, hs))
    ensures Holds(cfg, AfterAppend(cfg, w, es, hs), AppendLayout(cfg, w, l, es, hs))
  {
    HoldsIsSound(cfg, w, l);
    Appended(cfg, w, l.open.value, es, hs);
    GrownHolds(cfg, w, l, NextBatch(cfg, w, es, hs), AfterAppend(cfg, w, es, hs));
  }

  lemma {:induction false} GrownHolds(cfg: Config, w: Wal, l: Layout, b: Batch, w': Wal)
    requires Holds(cfg, w, l) && w.current.Some? && Narrow(cfg, b)
    requires Added(cfg, w, w', w.current.value, b, l.open.value.batches + [b])
    ensures Holds(cfg, w', l.(open := Some(Segment(l.open.value.start, l.open.value.batches + [b]))))
  {
    HoldsIsSound(cfg, w, l);
    var s := l.open.value;
    SnocRecords(s.batches, b);
    SnocParts(cfg, s.batches, b);
    GrowStored(cfg, w.dir, l.closed, s, Segment(s.start, s.batches + [b]));
  }

  lemma {:induction false} Appended(cfg: Config, w: Wal, s: Segment, es: seq<Entry>, hs: Option<HardState>)
    requires w.Sound() && w.current.Some? && !w.current.value.empty
    requires w.dir[w.current.value.fname] == SegmentBytes(cfg, s.batches)
    ensures var b := NextBatch(cfg, w, es, hs);
            Added(cfg, w, AfterAppend(cfg, w, es, hs), w.current.value, b, s.batches + [b])
  {
    SnocBytes(cfg, s.batches, NextBatch(cfg, w, es, hs));
  }

  lemma {:induction false} GrowStored(cfg: Config, dir: map<string, bytes>, closed: seq<Segment>, s: Segment, s': Segment)
    requires AllStored(cfg, dir, closed + [s]) && NoOthers(dir, closed + [s])
    requires s'.start == s.start && Started(s') && AllNarrow(cfg, s'.batches)
    ensures var dir' := dir[SegmentFileName(|closed| + 1, s'.start) := SegmentBytes(cfg, s'.batches)];
            AllStored(cfg, dir', closed + [s']) && NoOthers(dir', closed + [s'])
  {
    StoredPrefix(cfg, dir, closed, s);
    StoreOne(cfg, dir, closed, s');
    NameSame(dir, closed, s, s', SegmentBytes(cfg, s'.batches));
  }

  lemma {:induction false} FirstBatch(cfg: Config, b: Batch)
    ensures SegmentBytes(cfg, [b]) == WithMagic([], true) + BatchBytes(cfg.codec, BatchData(cfg, b))
    ensures Count([b]) == |b.entries|
    ensures Narrow(cfg, b) ==> AllNarrow(cfg, [b])
  {
    BatchesBytesOne(cfg.codec, BatchData(cfg, b));
    assert BatchDatas(cfg, [b]) == [BatchData(cfg, b)];
    BatchRecordsOne(b);
    EntriesOfBatch(b);
  }

  lemma {:induction false} AppendKeepsNew(cfg: Config, w: Wal, l: Layout, es: seq<Entry>, hs: Option<HardState>)
    requires Holds(cfg, w, l) && w.current.None?
    requires Narrow(cfg, NextBatch(cfg, Opened(w), es, hs)) && Records(NextBatch(cfg, Opened(w), es, hs)) != []
    ensures Holds(cfg, AfterAppend(cfg, Opened(w), es, hs), AppendLayout(cfg, w, l, es, hs))
  {
    OpenedThenAppended(cfg, w, es, hs);
    StartedHolds(cfg, w, l, NextBatch(cfg, Opened(w), es, hs), AfterAppend(cfg, Opened(w), es, hs));
  }

  lemma {:induction false} StartedHolds(cfg: Config, w: Wal, l: Layout, b: Batch, w': Wal)
    requires Holds(cfg, w, l) && w.current.None? && Narrow(cfg, b) && Records(b) != []
    requires Added(cfg, w, w', Writer(w.NextName(), 0, true), b, [b])
    ensures Holds(cfg, w', l.(open := Some(Segment(w.lastIndex + 1, [b]))))
  {
    FirstBatch(cfg, b);
    NewStored(cfg, w.dir, l.closed, Segment(w.lastIndex + 1, [b]));
  }

  lemma {:induction false} OpenedThenAppended(cfg: Config, w: Wal, es: seq<Entry>, hs: Option<HardState>)
    requires w.current.None?
    ensures var b := NextBatch(cfg, Opened(w), es, hs);
            Added(cfg, w, AfterAppend(cfg, Opened(w), es, hs), Writer(w.NextName(), 0, true), b, [b])
  {
    FirstBatch(cfg, NextBatch(cfg, Opened(w), es, hs));
  }

  lemma {:induction false} NewStored(cfg: Config, dir: map<string, bytes>, closed: seq<Segment>, s: Segment)
    requires AllStored(cfg, dir, closed) && NoOthers(dir, closed) && Started(s) && AllNarrow(cfg, s.batches)
    ensures var dir' := dir[SegmentFileName(|closed| + 1, s.start) := SegmentBytes(cfg, s.batches)];
            AllStored(cfg, dir', closed + [s]) && NoOthers(dir', closed + [s])
  {
    StoreOne(cfg, dir, closed, s);
    NameNew(dir, closed, s, SegmentBytes(cfg, s.batches));
  }

  function CloseLayout(l: Layout): Layout {
    Layout(l.All(), None)
  }

  lemma {:induction false} CloseKeeps(cfg: Config, w: Wal, l: Layout, lastIndex: nat)
    requires Holds(cfg, w, l)
    ensures Holds(cfg, AfterClose(w).(lastIndex := lastIndex), CloseLayout(l))
    ensures Holds(cfg, AfterClose(w), CloseLayout(l))
  {
    if l.open.Some? {
      forall i: nat | i < |l.All()| ensures CountedAt(cfg, AfterClose(w).files, l.All(), i) {
        if i < |l.closed| {
          assert l.All()[i] == l.closed[i] && CountedAt(cfg, w.files, l.closed, i);
        }
      }
    }
  }

  /** An Append adds exactly the records of its batch to the history. */
  lemma {:induction false} AppendHistory(cfg: Config, w: Wal, l: Layout, es: seq<Entry>, hs: Option<HardState>)
    requires w.Sound()
    ensures History(AppendLayout(cfg, w, l, es, hs).All())
         == History(l.All()) + Records(NextBatch(cfg, Opened(w), es, hs))
  {
    var b, l' := NextBatch(cfg, Opened(w), es, hs), AppendLayout(cfg, w, l, es, hs);
    AppendedLast(cfg, w, l, es, hs);
    OpenHistory(l);
    SnocHistory(l.closed, Segment(l'.open.value.start, OpenBatches(l) + [b]));
    SnocRecords(OpenBatches(l), b);
    Assoc(History(l.closed), BatchRecords(OpenBatches(l)), Records(b));
  }

  lemma {:induction false} OpenHistory(l: Layout)
    ensures History(l.closed) + BatchRecords(OpenBatches(l)) == History(l.All())
  {
    if l.open.Some? {
      SnocHistory(l.closed, l.open.value);
    } else {
      assert History(l.closed) + [] == History(l.closed);
    }
  }

  lemma {:induction false} SnocHistory(closed: seq<Segment>, s: Segment)
    ensures History(closed + [s]) == History(closed) + BatchRecords(s.batches)
  {
    HistoryConcat(closed, [s]);
    HistoryOne(s);
  }
}
