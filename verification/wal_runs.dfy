/** Properties of every run of writes, closes and reopens of the log. */
module WalRuns {
  import opened Coding
  import opened WalFormat
  import opened WalReader
  import opened LogWriting
  import opened LogManagement
  import opened SegmentName
  import opened WalLayout
  import opened WalRecovery

  // ---------------------------------------------------------------------------------------
  // doWrite
  // ---------------------------------------------------------------------------------------

  /** The segments after doWrite. */
  function WriteLayout(cfg: Config, w: Wal, l: Layout, es: seq<Entry>, hs: Option<HardState>): Layout
    requires Usable(cfg) && w.Sound() && es != []
    decreases |es|, w.current.Some? || hs.Some?
  {
    FreshAccepts(cfg, es);
    match Iterate(cfg, w, es, hs)
    case Failed => l
    case Done(_) => AppendLayout(cfg, w, l, es, hs)
    case More(w', rest) => WriteLayout(cfg, w', CloseLayout(AppendLayout(cfg, w, l, es, hs)), rest, None)
  }

  /** Finished segments stay as they are. */
  lemma {:induction false} WriteExtends(cfg: Config, w: Wal, l: Layout, es: seq<Entry>, hs: Option<HardState>)
    requires Usable(cfg) && w.Sound() && es != []
    ensures l.closed <= WriteLayout(cfg, w, l, es, hs).closed
    decreases |es|, w.current.Some? || hs.Some?
  {
    FreshAccepts(cfg, es);
    AppendedLast(cfg, w, l, es, hs);
    var r := Iterate(cfg, w, es, hs);
    if r.More? {
      WriteExtends(cfg, r.w, CloseLayout(AppendLayout(cfg, w, l, es, hs)), r.rest, None);
    }
  }

  /** Every batch doWrite appends has small records and data of under 2^32 bytes. */
  ghost predicate WriteNarrow(cfg: Config, w: Wal, es: seq<Entry>, hs: Option<HardState>)
    requires Usable(cfg) && w.Sound() && es != []
    decreases |es|, w.current.Some? || hs.Some?
  {
    FreshAccepts(cfg, es);
    && Narrow(cfg, NextBatch(cfg, Opened(w), es, hs))
    && match Iterate(cfg, w, es, hs)
       case More(w', rest) => WriteNarrow(cfg, w', rest, None)
       case _ => true
  }

  lemma {:induction false} EntriesSizeSplit(c: Codec, a: seq<Entry>, b: seq<Entry>)
    ensures EntriesSize(c, a + b) == EntriesSize(c, a) + EntriesSize(c, b)
  {
    EntriesSizeIs(c, a);
    EntriesSizeIs(c, b);
    EntriesSizeIs(c, a + b);
    assert EntryRecords(a + b) == EntryRecords(a) + EntryRecords(b);
    RecordsBytesConcat(c, EntryRecords(a), EntryRecords(b));
  }

  /** In particular when all it is given is that small. */
  lemma {:induction false} NarrowWrites(cfg: Config, w: Wal, es: seq<Entry>, hs: Option<HardState>)
    requires Usable(cfg) && w.Sound() && es != [] && Narrow(cfg, Batch(hs, es))
    ensures WriteNarrow(cfg, w, es, hs)
    decreases |es|, w.current.Some? || hs.Some?
  {
    FreshAccepts(cfg, es);
    NarrowSplit(cfg, hs, es, |NextBatch(cfg, Opened(w), es, hs).entries|);
    var r := Iterate(cfg, w, es, hs);
    if r.More? {
      NarrowWrites(cfg, r.w, r.rest, None);
    }
  }

  lemma {:induction false} NarrowSplit(cfg: Config, hs: Option<HardState>, es: seq<Entry>, n: nat)
    requires n <= |es| && Narrow(cfg, Batch(hs, es))
    ensures Narrow(cfg, Batch(hs, es[..n])) && Narrow(cfg, Batch(None, es[n..]))
  {
    assert es[..n] + es[n..] == es;
    EntriesSizeSplit(cfg.codec, es[..n], es[n..]);
    BatchSplit(hs, es, n);
    SmallConcat(cfg.codec, Records(Batch(hs, es[..n])), Records(Batch(None, es[n..])));
  }

  lemma {:induction false} SmallConcat(c: Codec, a: seq<Record>, b: seq<Record>)
    requires Small(c, a + b)
    ensures Small(c, a) && Small(c, b)
  {
    assert forall i :: 0 <= i < |a| ==> a[i] == (a + b)[i];
    assert forall i :: 0 <= i < |b| ==> b[i] == (a + b)[|a| + i];
  }

  lemma BatchSplit(hs: Option<HardState>, es: seq<Entry>, n: nat)
    requires n <= |es|
    ensures Records(Batch(hs, es)) == Records(Batch(hs, es[..n])) + Records(Batch(None, es[n..]))
  {
  }

  lemma {:induction false} AppendKeeps(cfg: Config, w: Wal, l: Layout, es: seq<Entry>, hs: Option<HardState>)
    requires Usable(cfg) && Holds(cfg, w, l) && w.Sound() && es != []
    requires Narrow(cfg, NextBatch(cfg, Opened(w), es, hs))
    ensures Holds(cfg, AfterAppend(cfg, Opened(w), es, hs), AppendLayout(cfg, w, l, es, hs))
    ensures !Iterate(cfg, w, es, hs).Failed?
  {
    if w.current.Some? {
      AppendKeepsOpen(cfg, w, l, es, hs);
    } else {
      NameIsFree(cfg, w, l);
      FreshAccepts(cfg, es);
      assert Records(NextBatch(cfg, Opened(w), es, hs)) != [] by {
        if hs.Some? {
          assert Records(NextBatch(cfg, Opened(w), es, hs))[0] == HardStateRecord(hs.value);
        } else {
          assert NextBatch(cfg, Opened(w), es, hs) == AppendedBatch(cfg, [], true, es, None);
        }
      }
      AppendKeepsNew(cfg, w, l, es, hs);
    }
  }

  /**
   doWrite partitions its input: whatever the rollovers, it succeeds, and the records on disk
   grow by exactly the hard state, once and first, and then all the entries in order.
   */
  lemma {:induction false} WriteKeeps(cfg: Config, w: Wal, l: Layout, es: seq<Entry>, hs: Option<HardState>)
    requires Usable(cfg) && Holds(cfg, w, l) && w.Sound() && es != [] && WriteNarrow(cfg, w, es, hs)
    ensures AfterDoWrite(cfg, w, es, hs).Some?
    ensures Holds(cfg, AfterDoWrite(cfg, w, es, hs).value, WriteLayout(cfg, w, l, es, hs))
    ensures History(WriteLayout(cfg, w, l, es, hs).All()) == History(l.All()) + Records(Batch(hs, es))
    decreases |es|, w.current.Some? || hs.Some?
  {
    FreshAccepts(cfg, es);
    AppendKeeps(cfg, w, l, es, hs);
    AppendHistory(cfg, w, l, es, hs);
    var b, l' := NextBatch(cfg, Opened(w), es, hs), AppendLayout(cfg, w, l, es, hs);
    var r := Iterate(cfg, w, es, hs);
    if r.More? {
      CloseKeeps(cfg, AfterAppend(cfg, Opened(w), es, hs), l', r.w.lastIndex);
      WriteKeeps(cfg, r.w, CloseLayout(l'), r.rest, None);
      BatchSplit(hs, es, |b.entries|);
      Assoc(History(l.All()), Records(b), Records(Batch(None, r.rest)));
    } else {
      assert b == Batch(hs, es);
    }
  }

  // ---------------------------------------------------------------------------------------
  // Runs
  // ---------------------------------------------------------------------------------------

  /** Reopen is Recover by a new process, whether or not the log was closed. */
  datatype Op = Write(entries: seq<Entry>, hs: Option<HardState>) | Close | Reopen(listing: seq<string>, verify: bool)

  function Exec(cfg: Config, w: Wal, op: Op): (r: Wal)
    requires Usable(cfg) && w.Sound()
    ensures r.Sound()
  {
    match op
    case Write(es, hs) => (match AfterWrite(cfg, w, es, hs) case Some(w') => w' case None => w)
    case Close => AfterClose(w)
    case Reopen(listing, verify) =>
      var r := AfterRecover(cfg.codec, w.dir, listing, verify);
      if r.status == OK then Wal(w.dir, r.files, None, 0) else w
  }

  function ExecLayout(cfg: Config, w: Wal, l: Layout, op: Op): Layout
    requires Usable(cfg) && w.Sound()
  {
    match op
    case Write(es, hs) => if es == [] then l else WriteLayout(cfg, w, l, es, hs)
    case Close => CloseLayout(l)
    case Reopen(listing, verify) =>
      if AfterRecover(cfg.codec, w.dir, listing, verify).status == OK then CloseLayout(l) else l
  }

  /** A directory listing names every file once or more, in any order; batches are under 2^32 bytes. */
  ghost predicate LegalOp(cfg: Config, w: Wal, op: Op)
    requires Usable(cfg) && w.Sound()
  {
    match op
    case Write(es, hs) => es != [] ==> WriteNarrow(cfg, w, es, hs)
    case Close => true
    case Reopen(listing, _) => forall f :: f in listing <==> f in w.dir
  }

  /** What an operation hands to the log; a write without entries is dropped with its hard state. */
  function Given(op: Op): seq<Record> {
    if op.Write? && op.entries != [] then Records(Batch(op.hs, op.entries)) else []
  }

  function Written(ops: seq<Op>): seq<Record> {
    if ops == [] then [] else Given(ops[0]) + Written(ops[1..])
  }

  function Run(cfg: Config, w: Wal, ops: seq<Op>): (r: Wal)
    requires Usable(cfg) && w.Sound()
    ensures r.Sound()
    decreases |ops|
  {
    if ops == [] then w else Run(cfg, Exec(cfg, w, ops[0]), ops[1..])
  }

  ghost predicate Legal(cfg: Config, w: Wal, ops: seq<Op>)
    requires Usable(cfg) && w.Sound()
    decreases |ops|
  {
    ops == [] || (LegalOp(cfg, w, ops[0]) && Legal(cfg, Exec(cfg, w, ops[0]), ops[1..]))
  }

  function RunLayout(cfg: Config, w: Wal, l: Layout, ops: seq<Op>): Layout
    requires Usable(cfg) && w.Sound()
    decreases |ops|
  {
    if ops == [] then l
    else RunLayout(cfg, Exec(cfg, w, ops[0]), ExecLayout(cfg, w, l, ops[0]), ops[1..])
  }

  /** A log directory without log files yet; other files may be there. */
  ghost predicate Fresh(dir: map<string, bytes>) {
    forall f :: f in dir ==> !IsWal(f)
  }

  function NewLog(dir: map<string, bytes>): Wal {
    Wal(dir, [], None, 0)
  }

  const NO_SEGMENTS := Layout([], None)

  lemma {:induction false} ReopenKeeps(cfg: Config, w: Wal, l: Layout, listing: seq<string>, verify: bool)
    requires cfg.codec.Lawful() && Holds(cfg, w, l) && forall f :: f in listing <==> f in w.dir
    requires AfterRecover(cfg.codec, w.dir, listing, verify).status == OK
    ensures Holds(cfg, Wal(w.dir, AfterRecover(cfg.codec, w.dir, listing, verify).files, None, 0), CloseLayout(l))
  {
    var segs, r := l.All(), AfterRecover(cfg.codec, w.dir, listing, verify);
    RecoverReadsSegments(cfg, w, l, listing, verify);
    StoredIsNarrow(cfg, w.dir, segs);
    if segs != [] {
      ReadSegmentsFiles(cfg, segs, EMPTY_STORE, []);
      assert [] + Metas(cfg, segs) == Metas(cfg, segs);
      forall i: nat | i < |segs| ensures CountedAt(cfg, r.files, segs, i) {
        AllRead(cfg, segs, EMPTY_STORE, [], i);
        MetasAt(cfg, segs, i);
      }
    }
  }

  lemma {:induction false} ExecKeeps(cfg: Config, w: Wal, l: Layout, op: Op)
    requires cfg.codec.Lawful() && Usable(cfg) && w.Sound() && Holds(cfg, w, l) && LegalOp(cfg, w, op)
    ensures Holds(cfg, Exec(cfg, w, op), ExecLayout(cfg, w, l, op))
    ensures History(ExecLayout(cfg, w, l, op).All()) == History(l.All()) + Given(op)
  {
    match op
    case Write(es, hs) =>
      if es != [] {
        WriteKeeps(cfg, w, l, es, hs);
      }
    case Close =>
      CloseKeeps(cfg, w, l, 0);
    case Reopen(listing, verify) =>
      if AfterRecover(cfg.codec, w.dir, listing, verify).status == OK {
        ReopenKeeps(cfg, w, l, listing, verify);
      }
  }

  lemma {:induction false} RunKeeps(cfg: Config, w: Wal, l: Layout, ops: seq<Op>)
    requires cfg.codec.Lawful() && Usable(cfg) && w.Sound() && Holds(cfg, w, l) && Legal(cfg, w, ops)
    ensures Holds(cfg, Run(cfg, w, ops), RunLayout(cfg, w, l, ops))
    ensures History(RunLayout(cfg, w, l, ops).All()) == History(l.All()) + Written(ops)
    decreases |ops|
  {
    if ops != [] {
      ExecKeeps(cfg, w, l, ops[0]);
      RunKeeps(cfg, Exec(cfg, w, ops[0]), ExecLayout(cfg, w, l, ops[0]), ops[1..]);
      Assoc(History(l.All()), Given(ops[0]), Written(ops[1..]));
    }
  }

  lemma NewLogHolds(cfg: Config, dir: map<string, bytes>)
    requires Fresh(dir)
    ensures Holds(cfg, NewLog(dir), NO_SEGMENTS) && History(NO_SEGMENTS.All()) == []
  {
  }

  lemma {:induction false} RunHolds(cfg: Config, dir: map<string, bytes>, ops: seq<Op>)
    requires cfg.codec.Lawful() && Usable(cfg) && Fresh(dir) && Legal(cfg, NewLog(dir), ops)
    ensures var l := RunLayout(cfg, NewLog(dir), NO_SEGMENTS, ops);
            Holds(cfg, Run(cfg, NewLog(dir), ops), l) && History(l.All()) == Written(ops)
  {
    NewLogHolds(cfg, dir);
    RunKeeps(cfg, NewLog(dir), NO_SEGMENTS, ops);
    assert [] + Written(ops) == Written(ops);
  }

  /**
   Recovery round trip.  After every run from a fresh directory, with any usable segment size,
   Recover succeeds with exactly the entries ever written, in order, and the last hard state
   written with entries, if and only if the build counts the hard state's length prefix or no
   write with entries carried a hard state.  Listing order and checksum verification do not
   matter.
   */
  lemma {:induction false} RecoveryRoundTrip(cfg: Config, dir: map<string, bytes>, ops: seq<Op>, listing: seq<string>, verify: bool)
    requires cfg.codec.Lawful() && Usable(cfg) && Fresh(dir) && Legal(cfg, NewLog(dir), ops)
    requires forall f :: f in listing <==> f in Run(cfg, NewLog(dir), ops).dir
    ensures Restores(AfterRecover(cfg.codec, Run(cfg, NewLog(dir), ops).dir, listing, verify), Written(ops))
            <==> IntactRecords(cfg, Written(ops))
  {
    var w, l := Run(cfg, NewLog(dir), ops), RunLayout(cfg, NewLog(dir), NO_SEGMENTS, ops);
    RunHolds(cfg, dir, ops);
    RecoverRestores(cfg, w, l, listing, verify);
    AllIntactIff(cfg, l.All());
  }

  /** With hard states under 128 bytes, the status of Recover says which of the two it was. */
  lemma {:induction false} RecoveryStatus(cfg: Config, dir: map<string, bytes>, ops: seq<Op>, listing: seq<string>, verify: bool)
    requires cfg.codec.Lawful() && Usable(cfg) && Fresh(dir) && Legal(cfg, NewLog(dir), ops)
    requires forall f :: f in listing <==> f in Run(cfg, NewLog(dir), ops).dir
    requires ShortHardStates(cfg.codec, Written(ops))
    ensures AfterRecover(cfg.codec, Run(cfg, NewLog(dir), ops).dir, listing, verify).status ==
            if IntactRecords(cfg, Written(ops)) then OK else Corruption(BadRecord)
  {
    var w, l := Run(cfg, NewLog(dir), ops), RunLayout(cfg, NewLog(dir), NO_SEGMENTS, ops);
    RunHolds(cfg, dir, ops);
    RecoverStatus(cfg, w, l, listing, verify);
    AllIntactIff(cfg, l.All());
  }

  /** The operation writes a hard state, with entries. */
  predicate WritesHardState(op: Op) {
    op.Write? && op.entries != [] && op.hs.Some?
  }

  /**
   As compiled, one write with a hard state, anywhere in a run, makes the log unrecoverable:
   Recover never gives back what was written, and fails where all hard states are under 128 bytes.
   */
  lemma {:induction false} CompiledLosesHardState(c: Codec, size: nat, dir: map<string, bytes>, ops: seq<Op>, i: nat,
                                                  listing: seq<string>, verify: bool)
    requires var cfg := Config(AS_COMPILED, c, size);
             && c.Lawful() && Usable(cfg) && Fresh(dir) && Legal(cfg, NewLog(dir), ops)
             && forall f :: f in listing <==> f in Run(cfg, NewLog(dir), ops).dir
    requires i < |ops| && WritesHardState(ops[i])
    ensures var cfg := Config(AS_COMPILED, c, size);
            var r := AfterRecover(c, Run(cfg, NewLog(dir), ops).dir, listing, verify);
            && !Restores(r, Written(ops))
            && (ShortHardStates(c, Written(ops)) ==> r.status == Corruption(BadRecord))
  {
    var cfg := Config(AS_COMPILED, c, size);
    HardStateWritten(ops, i);
    RecoveryRoundTrip(cfg, dir, ops, listing, verify);
    if ShortHardStates(c, Written(ops)) {
      RecoveryStatus(cfg, dir, ops, listing, verify);
    }
  }

  lemma {:induction false} HardStateWritten(ops: seq<Op>, i: nat)
    requires i < |ops| && WritesHardState(ops[i])
    ensures !NoHardState(Written(ops))
  {
    NoHardStateConcat(Given(ops[0]), Written(ops[1..]));
    if i == 0 {
      NoHardStateBatch(Batch(ops[0].hs, ops[0].entries));
    } else {
      HardStateWritten(ops[1..], i - 1);
    }
  }

  lemma {:induction false} RunSnoc(cfg: Config, w: Wal, ops: seq<Op>, op: Op)
    requires Usable(cfg) && w.Sound()
    ensures Run(cfg, w, ops + [op]) == Exec(cfg, Run(cfg, w, ops), op)
    decreases |ops|
  {
    if ops == [] {
      assert ops + [op] == [op] && [op][1..] == [];
    } else {
      assert (ops + [op])[1..] == ops[1..] + [op];
      RunSnoc(cfg, Exec(cfg, w, ops[0]), ops[1..], op);
    }
  }

  /**
   A write of a hard state without entries is dropped, although the flusher relies on it: after
   it, Recover returns that hard state exactly when it is the one last written with entries.
   */
  lemma {:induction false} HardStateAloneIsDropped(cfg: Config, dir: map<string, bytes>, ops: seq<Op>, h: HardState,
                                listing: seq<string>, verify: bool)
    requires cfg.codec.Lawful() && Usable(cfg) && Fresh(dir) && Legal(cfg, NewLog(dir), ops)
    requires IntactRecords(cfg, Written(ops))
    requires forall f :: f in listing <==> f in Run(cfg, NewLog(dir), ops + [Write([], Some(h))]).dir
    ensures var r := AfterRecover(cfg.codec, Run(cfg, NewLog(dir), ops + [Write([], Some(h))]).dir, listing, verify);
            (r.store.Some? && r.store.value.hardState == h) <==>
            (Written(ops) != [] && LastHardState(NO_HARD_STATE, Written(ops)) == h)
  {
    RunSnoc(cfg, NewLog(dir), ops, Write([], Some(h)));
    RecoveryRoundTrip(cfg, dir, ops, listing, verify);
  }

  /** The number of entries the manager counts in all its segments, the open one included. */
  function CountedEntries(files: seq<Meta>): nat {
    if files == [] then 0 else files[0].numEntries + CountedEntries(files[1..])
  }

  function AllCounted(w: Wal): nat {
    CountedEntries(w.files) + if w.current.Some? then w.current.value.numEntries else 0
  }

  /** Every count is the number of entries of its segment. */
  ghost predicate CountsRight(w: Wal, l: Layout) {
    && |w.files| == |l.closed| && (w.current.Some? <==> l.open.Some?)
    && (forall i :: 0 <= i < |l.closed| ==> w.files[i].numEntries == Count(l.closed[i].batches))
    && (l.open.Some? ==> w.current.value.numEntries == Count(l.open.value.batches))
  }

  lemma {:induction false} AppendCounts(cfg: Config, w: Wal, l: Layout, es: seq<Entry>, hs: Option<HardState>)
    requires w.Sound() && |w.files| == |l.closed| && (w.current.Some? <==> l.open.Some?)
    ensures CountsRight(AfterAppend(cfg, Opened(w), es, hs), AppendLayout(cfg, w, l, es, hs)) <==> CountsRight(w, l)
  {
    var b := NextBatch(cfg, Opened(w), es, hs);
    if l.open.Some? {
      SnocRecords(l.open.value.batches, b);
    } else {
      FirstBatch(cfg, b);
    }
  }

  lemma {:induction false} CloseCounts(w: Wal, l: Layout, lastIndex: nat)
    requires |w.files| == |l.closed| && (w.current.Some? <==> l.open.Some?)
    ensures CountsRight(AfterClose(w).(lastIndex := lastIndex), CloseLayout(l)) <==> CountsRight(w, l)
    ensures CountsRight(AfterClose(w), CloseLayout(l)) <==> CountsRight(w, l)
  {
    var w', all := AfterClose(w), l.All();
    assert forall i :: 0 <= i < |l.closed| ==> w'.files[i] == w.files[i] && all[i] == l.closed[i];
    if l.open.Some? {
      assert all[|l.closed|] == l.open.value;
    }
  }

  lemma {:induction false} WriteCounts(cfg: Config, w: Wal, l: Layout, es: seq<Entry>, hs: Option<HardState>)
    requires Usable(cfg) && Holds(cfg, w, l) && w.Sound() && es != [] && WriteNarrow(cfg, w, es, hs)
    ensures AfterDoWrite(cfg, w, es, hs).Some?
    ensures CountsRight(AfterDoWrite(cfg, w, es, hs).value, WriteLayout(cfg, w, l, es, hs)) <==> CountsRight(w, l)
    decreases |es|, w.current.Some? || hs.Some?
  {
    FreshAccepts(cfg, es);
    AppendKeeps(cfg, w, l, es, hs);
    AppendCounts(cfg, w, l, es, hs);
    var w', l' := AfterAppend(cfg, Opened(w), es, hs), AppendLayout(cfg, w, l, es, hs);
    var r := Iterate(cfg, w, es, hs);
    if r.More? {
      CloseKeeps(cfg, w', l', r.w.lastIndex);
      CloseCounts(w', l', r.w.lastIndex);
      WriteCounts(cfg, r.w, CloseLayout(l'), r.rest, None);
    }
  }

  lemma {:induction false} IntactCounts(cfg: Config, w: Wal, l: Layout)
    requires Holds(cfg, w, l) && AllIntact(cfg, l.All())
    ensures CountsRight(w, l)
  {
    forall i | 0 <= i < |l.closed| ensures w.files[i].numEntries == Count(l.closed[i].batches) {
      assert l.All()[i] == l.closed[i] && CountedAt(cfg, w.files, l.closed, i);
    }
    if l.open.Some? {
      assert l.All()[|l.closed|] == l.open.value;
    }
  }

  /** A recovered manager has the right counts exactly when it read no torn batch. */
  lemma {:induction false} ReopenCounts(cfg: Config, w: Wal, l: Layout, listing: seq<string>, verify: bool)
    requires cfg.codec.Lawful() && Holds(cfg, w, l) && forall f :: f in listing <==> f in w.dir
    requires AfterRecover(cfg.codec, w.dir, listing, verify).status == OK
    ensures CountsRight(Wal(w.dir, AfterRecover(cfg.codec, w.dir, listing, verify).files, None, 0), CloseLayout(l))
            <==> AllIntact(cfg, l.All())
  {
    var segs, r := l.All(), AfterRecover(cfg.codec, w.dir, listing, verify);
    RecoverReadsSegments(cfg, w, l, listing, verify);
    StoredIsNarrow(cfg, w.dir, segs);
    if segs != [] {
      ReadSegmentsFiles(cfg, segs, EMPTY_STORE, []);
      assert [] + Metas(cfg, segs) == Metas(cfg, segs);
      forall i | 0 <= i < |segs|
        ensures r.files[i].numEntries == Count(segs[i].batches) <==> Intact(cfg, segs[i].batches)
      {
        AllRead(cfg, segs, EMPTY_STORE, [], i);
        MetasAt(cfg, segs, i);
      }
    }
  }

  /** The operation successfully reopens a log that lost a hard state's length prefix. */
  ghost predicate TornReopen(cfg: Config, w: Wal, written: seq<Record>, op: Op) {
    && op.Reopen? && AfterRecover(cfg.codec, w.dir, op.listing, op.verify).status == OK
    && !IntactRecords(cfg, written)
  }

  ghost predicate LosesCount(cfg: Config, w: Wal, written: seq<Record>, ops: seq<Op>)
    requires Usable(cfg) && w.Sound()
    decreases |ops|
  {
    ops != [] && (TornReopen(cfg, w, written, ops[0])
                  || LosesCount(cfg, Exec(cfg, w, ops[0]), written + Given(ops[0]), ops[1..]))
  }

  lemma {:induction false} ExecCounts(cfg: Config, w: Wal, l: Layout, op: Op)
    requires cfg.codec.Lawful() && Usable(cfg) && w.Sound() && Holds(cfg, w, l) && LegalOp(cfg, w, op)
    ensures CountsRight(Exec(cfg, w, op), ExecLayout(cfg, w, l, op)) <==>
            CountsRight(w, l) && !TornReopen(cfg, w, History(l.All()), op)
  {
    match op
    case Write(es, hs) =>
      if es != [] {
        WriteCounts(cfg, w, l, es, hs);
      }
    case Close =>
      CloseCounts(w, l, 0);
    case Reopen(listing, verify) =>
      if AfterRecover(cfg.codec, w.dir, listing, verify).status == OK {
        ReopenCounts(cfg, w, l, listing, verify);
        AllIntactIff(cfg, l.All());
        if AllIntact(cfg, l.All()) {
          IntactCounts(cfg, w, l);
        }
      }
  }

  lemma {:induction false} RunCounts(cfg: Config, w: Wal, l: Layout, ops: seq<Op>)
    requires cfg.codec.Lawful() && Usable(cfg) && w.Sound() && Holds(cfg, w, l) && Legal(cfg, w, ops)
    ensures CountsRight(Run(cfg, w, ops), RunLayout(cfg, w, l, ops)) <==>
            CountsRight(w, l) && !LosesCount(cfg, w, History(l.All()), ops)
    decreases |ops|
  {
    if ops != [] {
      ExecKeeps(cfg, w, l, ops[0]);
      ExecCounts(cfg, w, l, ops[0]);
      RunCounts(cfg, Exec(cfg, w, ops[0]), ExecLayout(cfg, w, l, ops[0]), ops[1..]);
    }
  }

  lemma {:induction false} CountsOf(cfg: Config, files: seq<Meta>, segs: seq<Segment>)
    requires Counted(cfg, files, segs)
    ensures CountedEntries(files) <= |Entries(History(segs))|
    ensures CountedEntries(files) == |Entries(History(segs))| <==>
            forall i :: 0 <= i < |segs| ==> files[i].numEntries == Count(segs[i].batches)
  {
    if segs != [] {
      EntriesConcat(BatchRecords(segs[0].batches), History(segs[1..]));
      assert CountedAt(cfg, files, segs, 0);
      assert Counted(cfg, files[1..], segs[1..]) by {
        forall i: nat | i < |segs| - 1 ensures CountedAt(cfg, files[1..], segs[1..], i) {
          assert CountedAt(cfg, files, segs, i + 1);
        }
      }
      CountsOf(cfg, files[1..], segs[1..]);
      assert forall i :: 0 <= i < |segs| - 1 ==> files[1..][i] == files[i + 1] && segs[1..][i] == segs[i + 1];
      assert forall i :: 0 < i < |segs| ==> files[i] == files[1..][i - 1] && segs[i] == segs[1..][i - 1];
    }
  }

  lemma {:induction false} CountsSum(cfg: Config, w: Wal, l: Layout)
    requires Holds(cfg, w, l)
    ensures AllCounted(w) <= |Entries(History(l.All()))|
    ensures AllCounted(w) == |Entries(History(l.All()))| <==> CountsRight(w, l)
  {
    CountsOf(cfg, w.files, l.closed);
    if l.open.Some? {
      SnocHistory(l.closed, l.open.value);
      EntriesConcat(History(l.closed), BatchRecords(l.open.value.batches));
    }
  }

  /**
   Entry counts are conserved.  Over every run, in every build, the counts never exceed the
   entries written.  Every segment's count is right, and their sum is the number of entries
   written, if and only if the run never successfully reopened a log that held a hard state
   whose length was not counted.
   */
  lemma {:induction false} EntryCountsConserved(cfg: Config, dir: map<string, bytes>, ops: seq<Op>)
    requires cfg.codec.Lawful() && Usable(cfg) && Fresh(dir) && Legal(cfg, NewLog(dir), ops)
    ensures var w, l := Run(cfg, NewLog(dir), ops), RunLayout(cfg, NewLog(dir), NO_SEGMENTS, ops);
            && AllCounted(w) <= |Entries(Written(ops))|
            && (CountsRight(w, l) <==> !LosesCount(cfg, NewLog(dir), [], ops))
            && (AllCounted(w) == |Entries(Written(ops))| <==> !LosesCount(cfg, NewLog(dir), [], ops))
  {
    var w, l := Run(cfg, NewLog(dir), ops), RunLayout(cfg, NewLog(dir), NO_SEGMENTS, ops);
    RunHolds(cfg, dir, ops);
    NewLogHolds(cfg, dir);
    RunCounts(cfg, NewLog(dir), NO_SEGMENTS, ops);
    CountsSum(cfg, w, l);
  }

  /** So they are while nothing is reopened, and where all hard states are under 128 bytes. */
  lemma {:induction false} CountsKept(cfg: Config, dir: map<string, bytes>, ops: seq<Op>)
    requires cfg.codec.Lawful() && Usable(cfg) && Fresh(dir) && Legal(cfg, NewLog(dir), ops)
    requires (forall i :: 0 <= i < |ops| ==> !ops[i].Reopen?) || ShortHardStates(cfg.codec, Written(ops))
    ensures AllCounted(Run(cfg, NewLog(dir), ops)) == |Entries(Written(ops))|
  {
    NewLogHolds(cfg, dir);
    assert [] + Written(ops) == Written(ops);
    NeverTorn(cfg, NewLog(dir), NO_SEGMENTS, ops);
    EntryCountsConserved(cfg, dir, ops);
  }

  lemma {:induction false} NeverTorn(cfg: Config, w: Wal, l: Layout, ops: seq<Op>)
    requires cfg.codec.Lawful() && Usable(cfg) && w.Sound() && Holds(cfg, w, l) && Legal(cfg, w, ops)
    requires (forall i :: 0 <= i < |ops| ==> !ops[i].Reopen?)
             || ShortHardStates(cfg.codec, History(l.All()) + Written(ops))
    ensures !LosesCount(cfg, w, History(l.All()), ops)
    decreases |ops|
  {
    if ops != [] {
      var op := ops[0];
      ExecKeeps(cfg, w, l, op);
      Assoc(History(l.All()), Given(op), Written(ops[1..]));
      NeverTorn(cfg, Exec(cfg, w, op), ExecLayout(cfg, w, l, op), ops[1..]);
      if op.Reopen? {
        ShortHardStatesConcat(cfg.codec, History(l.All()), Written(ops));
        RecoverStatus(cfg, w, l, op.listing, op.verify);
        AllIntactIff(cfg, l.All());
      }
    }
  }

  ghost predicate HasId(dir: map<string, bytes>, id: nat, f: string) {
    f in dir && IsWal(f) && ParseWalName(f).Some? && ParseWalName(f).value.0 == id
  }

  ghost predicate IdOnDisk(dir: map<string, bytes>, id: nat) {
    exists f :: HasId(dir, id, f)
  }

  /** Segment ids stay dense: the log files on disk are exactly one for each of 1..SegmentNum(). */
  lemma {:induction false} SegmentIdsDense(cfg: Config, dir: map<string, bytes>, ops: seq<Op>)
    requires cfg.codec.Lawful() && Usable(cfg) && Fresh(dir) && Legal(cfg, NewLog(dir), ops)
    ensures var w := Run(cfg, NewLog(dir), ops);
            && (forall f :: f in w.dir && IsWal(f) ==> ParseWalName(f).Some?)
            && (forall id: nat :: IdOnDisk(w.dir, id) <==> 1 <= id <= w.SegmentNum())
            && (forall id: nat, f, g :: HasId(w.dir, id, f) && HasId(w.dir, id, g) ==> f == g)
  {
    var w, l := Run(cfg, NewLog(dir), ops), RunLayout(cfg, NewLog(dir), NO_SEGMENTS, ops);
    RunHolds(cfg, dir, ops);
    DenseIds(cfg, w.dir, l.All());
  }

  lemma {:induction false} NameOfId(dir: map<string, bytes>, segs: seq<Segment>, id: nat, f: string)
    requires NoOthers(dir, segs) && HasId(dir, id, f)
    ensures 1 <= id <= |segs| && f == SegmentFileName(id, segs[id - 1].start)
  {
    assert Named(segs, f);
    var i :| 0 <= i < |segs| && f == SegmentFileName(i + 1, segs[i].start);
    NameRoundTrip(i + 1, segs[i].start);
  }

  lemma {:induction false} DenseIds(cfg: Config, dir: map<string, bytes>, segs: seq<Segment>)
    requires AllStored(cfg, dir, segs) && NoOthers(dir, segs)
    ensures forall f :: f in dir && IsWal(f) ==> ParseWalName(f).Some?
    ensures forall id: nat :: IdOnDisk(dir, id) <==> 1 <= id <= |segs|
    ensures forall id: nat, f, g :: HasId(dir, id, f) && HasId(dir, id, g) ==> f == g
  {
    forall f | f in dir && IsWal(f) ensures ParseWalName(f).Some? {
      var i := NamedParses(segs, f);
    }
    forall id: nat ensures IdOnDisk(dir, id) <==> 1 <= id <= |segs| {
      if 1 <= id <= |segs| {
        assert StoredAt(cfg, dir, segs, id - 1);
        NameRoundTrip(id, segs[id - 1].start);
        assert HasId(dir, id, SegmentFileName(id, segs[id - 1].start));
      }
      if f :| HasId(dir, id, f) {
        NameOfId(dir, segs, id, f);
      }
    }
    forall id: nat, f, g | HasId(dir, id, f) && HasId(dir, id, g) ensures f == g {
      NameOfId(dir, segs, id, f);
      NameOfId(dir, segs, id, g);
    }
  }
}
