/** Recovery of a log whose last segment was cut short by a crash. */
module WalCrash {
  import opened Coding
  import opened WalFormat
  import opened WalReader
  import opened LogWriting
  import opened LogManagement
  import opened SegmentName
  import opened WalLayout
  import opened WalRecovery
  import opened WalRuns

  // ---------------------------------------------------------------------------------------
  // One segment
  // ---------------------------------------------------------------------------------------

  /** n batches of the segment are complete in the first k bytes of its file. */
  ghost predicate Survived(cfg: Config, bs: seq<Batch>, k: nat, n: nat) {
    && n <= |bs|
    && if k < |MAGIC| then n == 0 else CompleteIn(cfg.codec, BatchDatas(cfg, bs), k - |MAGIC|, n)
  }

  /** Every cut has such a number of batches. */
  lemma {:induction false} SurvivedExists(cfg: Config, bs: seq<Batch>, k: nat) returns (n: nat)
    ensures Survived(cfg, bs, k, n)
  {
    if k < |MAGIC| {
      n := 0;
    } else {
      n := CompleteExists(cfg.codec, BatchDatas(cfg, bs), k - |MAGIC|);
    }
  }

  /** What the reader says of the cut when the batches before it are good. */
  ghost function SegmentCut(cfg: Config, bs: seq<Batch>, k: nat, n: nat): Status
    requires Survived(cfg, bs, k, n)
  {
    if k < |MAGIC| then Corruption(BadMagicLength)
    else CutStatus(k - |MAGIC| - |BatchesBytes(cfg.codec, BatchDatas(cfg, bs)[..n])|)
  }

  /** A segment cut anywhere reads as its complete batches, in every build. */
  lemma {:induction false} ReadCutSegment(cfg: Config, bs: seq<Batch>, k: nat, n: nat, verify: bool)
    requires AllNarrow(cfg, bs) && k <= |SegmentBytes(cfg, bs)| && Survived(cfg, bs, k, n)
    ensures var r := ReadDatas(cfg.codec, BatchDatas(cfg, bs[..n]));
            ReadSegment(cfg.codec, SegmentBytes(cfg, bs)[..k], verify) ==
            if r.status != OK then r else Reading(r.applied, SegmentCut(cfg, bs, k, n))
  {
    var ds := BatchDatas(cfg, bs);
    NarrowIsShort(cfg, bs);
    assert ds[..n] == BatchDatas(cfg, bs[..n]);
    if k < |MAGIC| {
      ReadMagicCut(cfg.codec, BatchesBytes(cfg.codec, ds), k, verify);
    } else {
      ReadCutBody(cfg.codec, ds, k, n, verify);
    }
  }

  lemma {:induction false} ReadCutBody(c: Codec, ds: seq<bytes>, k: nat, n: nat, verify: bool)
    requires Short(ds) && |MAGIC| <= k <= |MAGIC| + |BatchesBytes(c, ds)| && CompleteIn(c, ds, k - |MAGIC|, n)
    ensures ReadSegment(c, (MAGIC + BatchesBytes(c, ds))[..k], verify) ==
            CutReading(c, ds, n, k - |MAGIC| - |BatchesBytes(c, ds[..n])|)
  {
    CutDatas(c, ds, k - |MAGIC|, n, verify);
    ReadMagicCut(c, BatchesBytes(c, ds), k, verify);
  }

  // ---------------------------------------------------------------------------------------
  // The log
  // ---------------------------------------------------------------------------------------

  /** The directory in which the last segment's file has lost all but its first k bytes. */
  function TornDir(dir: map<string, bytes>, segs: seq<Segment>, k: nat): map<string, bytes>
    requires segs != []
  {
    var f := SegmentFileName(|segs|, segs[|segs| - 1].start);
    if f in dir && k <= |dir[f]| then dir[f := dir[f][..k]] else dir
  }

  /** The segments before the last are as they were. */
  lemma {:induction false} TornStored(cfg: Config, dir: map<string, bytes>, segs: seq<Segment>, k: nat, j: nat)
    requires AllStored(cfg, dir, segs) && j < |segs| - 1
    ensures Stored(cfg, TornDir(dir, segs, k), j + 1, segs[j])
  {
    var z := |segs| - 1;
    assert StoredAt(cfg, dir, segs, j);
    if SegmentFileName(j + 1, segs[j].start) == SegmentFileName(z + 1, segs[z].start) {
      NameDetermines(j + 1, segs[j].start, z + 1, segs[z].start);
    }
  }

  /** The segments with only the first n batches of the last. */
  function Kept(segs: seq<Segment>, n: nat): (r: seq<Segment>)
    requires segs != [] && n <= |segs[|segs| - 1].batches|
    ensures |r| == |segs|
  {
    var z := |segs| - 1;
    segs[..z] + [Segment(segs[z].start, segs[z].batches[..n])]
  }

  /** r is q, except that where q is OK the status is that of the cut. */
  predicate CutOff(r: Recovery, q: Recovery, cut: Status) {
    r.store == q.store && r.status == if q.status != OK then q.status else cut
  }

  /** Reading the segments from number i on, the last of them cut. */
  lemma {:induction false} ReadTorn(cfg: Config, dir: map<string, bytes>, segs: seq<Segment>, k: nat, n: nat, i: nat,
                                    m: map<nat, nat>, verify: bool, store: Store, files: seq<Meta>)
    requires AllStored(cfg, dir, segs) && i < |segs| && Tail(m, segs, i)
    requires k <= |SegmentBytes(cfg, segs[|segs| - 1].batches)| && Survived(cfg, segs[|segs| - 1].batches, k, n)
    ensures CutOff(ReadWals(cfg.codec, TornDir(dir, segs, k), m, verify, store, files),
                   ReadSegments(cfg, Kept(segs, n)[i..], store, files),
                   SegmentCut(cfg, segs[|segs| - 1].batches, k, n))
    decreases |segs| - i
  {
    TailStep(m, segs, i);
    if i == |segs| - 1 {
      ReadTornLast(cfg, dir, segs, k, n, m, verify, store, files);
    } else {
      var kept, bs := Kept(segs, n), segs[i].batches;
      TornStored(cfg, dir, segs, k, i);
      assert AllNarrow(cfg, bs) by { assert StoredAt(cfg, dir, segs, i); }
      NarrowIsShort(cfg, bs);
      ReadWrittenSegment(cfg.codec, BatchDatas(cfg, bs), verify);
      assert kept[i..][0] == segs[i] && kept[i..][1..] == kept[i + 1..];
      var r := ReadDatas(cfg.codec, BatchDatas(cfg, bs));
      if r.status == OK {
        ReadTorn(cfg, dir, segs, k, n, i + 1, m - {i + 1}, verify, Replay(store, r.applied),
                 files + [Meta("", |Entries(r.applied)|)]);
      }
    }
  }

  lemma {:induction false} ReadTornLast(cfg: Config, dir: map<string, bytes>, segs: seq<Segment>, k: nat, n: nat,
                                        m: map<nat, nat>, verify: bool, store: Store, files: seq<Meta>)
    requires AllStored(cfg, dir, segs) && segs != [] && Tail(m, segs, |segs| - 1)
    requires k <= |SegmentBytes(cfg, segs[|segs| - 1].batches)| && Survived(cfg, segs[|segs| - 1].batches, k, n)
    ensures CutOff(ReadWals(cfg.codec, TornDir(dir, segs, k), m, verify, store, files),
                   ReadSegments(cfg, Kept(segs, n)[|segs| - 1..], store, files),
                   SegmentCut(cfg, segs[|segs| - 1].batches, k, n))
  {
    var z := |segs| - 1;
    TailStep(m, segs, z);
    assert StoredAt(cfg, dir, segs, z);
    ReadCutSegment(cfg, segs[z].batches, k, n, verify);
    assert m - {z + 1} == map[];
    var last := Kept(segs, n)[z..];
    assert last == [Segment(segs[z].start, segs[z].batches[..n])] && last[1..] == [];
  }

  /**
   Crash in the middle of a write, in every build.  When the last segment has lost all but its
   first k bytes, Recover brings back what it would from all earlier segments and the batches of
   the last that are complete, never part of a batch; and where that is OK it reports OK if and
   only if the cut is on a batch boundary at or after the magic.
   */
  lemma {:induction false} RecoverTornLog(cfg: Config, w: Wal, l: Layout, k: nat, n: nat, listing: seq<string>, verify: bool)
    requires Holds(cfg, w, l) && l.All() != [] && forall f :: f in listing <==> f in w.dir
    requires var last := l.All()[|l.All()| - 1].batches;
             k <= |SegmentBytes(cfg, last)| && Survived(cfg, last, k, n)
    ensures var segs := l.All();
            CutOff(AfterRecover(cfg.codec, TornDir(w.dir, segs, k), listing, verify),
                   ReadSegments(cfg, Kept(segs, n), EMPTY_STORE, []), SegmentCut(cfg, segs[|segs| - 1].batches, k, n))
  {
    var segs, m := l.All(), Wals(listing, map[]);
    WalsAreTheSegments(w.dir, listing, cfg, segs);
    assert 1 in m;
    ReadTorn(cfg, w.dir, segs, k, n, 0, m, verify, EMPTY_STORE, []);
    assert Kept(segs, n)[0..] == Kept(segs, n);
  }

  lemma {:induction false} DatasStatus(c: Codec, ds: seq<bytes>)
    ensures var r := ReadDatas(c, ds); r.status == OK || r.status == Corruption(BadRecord)
  {
    if ds != [] {
      RecordsFault(c, ds[0]);
      DatasStatus(c, ds[1..]);
    }
  }

  /** Segments that are all there fail only with a bad record. */
  lemma {:induction false} WholeStatus(cfg: Config, segs: seq<Segment>, store: Store, files: seq<Meta>)
    ensures var r := ReadSegments(cfg, segs, store, files); r.status == OK || r.status == Corruption(BadRecord)
    decreases |segs|
  {
    if segs != [] {
      var r := ReadDatas(cfg.codec, BatchDatas(cfg, segs[0].batches));
      DatasStatus(cfg.codec, BatchDatas(cfg, segs[0].batches));
      WholeStatus(cfg, segs[1..], Replay(store, r.applied), files + [Meta("", |Entries(r.applied)|)]);
    }
  }

  /** The store holds exactly the records rs, and the status is this one. */
  predicate Yields(r: Recovery, rs: seq<Record>, status: Status) {
    r.store == Some(Replay(EMPTY_STORE, rs)) && r.status == status
  }

  /** What is complete is recovered, with the status of the cut, exactly when all of it is intact. */
  lemma {:induction false} KeptYields(cfg: Config, segs: seq<Segment>, r: Recovery, cut: Status)
    requires cfg.codec.Lawful() && SegmentsNarrow(cfg, segs) && cut != Corruption(BadRecord)
    requires CutOff(r, ReadSegments(cfg, segs, EMPTY_STORE, []), cut)
    ensures Yields(r, History(segs), cut) <==> IntactRecords(cfg, History(segs))
  {
    AllIntactIff(cfg, segs);
    if AllIntact(cfg, segs) {
      IntactSegmentsRead(cfg, segs, EMPTY_STORE, []);
    } else {
      WholeStatus(cfg, segs, EMPTY_STORE, []);
      TornSegmentsLose(cfg, segs, EMPTY_STORE, []);
      ReplayIs(EMPTY_STORE, History(segs));
      assert [] + Entries(History(segs)) == Entries(History(segs));
    }
  }

  // ---------------------------------------------------------------------------------------
  // Over runs: a write interrupted in any iteration, at any byte
  // ---------------------------------------------------------------------------------------

  /** Where doWrite stands before an iteration: the log, and what is still to write. */
  datatype Point = Point(w: Wal, es: seq<Entry>, hs: Option<HardState>)

  /** The next batch has small records and is under 2^32 bytes. */
  ghost predicate NextNarrow(cfg: Config, p: Point) {
    p.w.Sound() && Narrow(cfg, NextBatch(cfg, Opened(p.w), p.es, p.hs))
  }

  /** One iteration, which does not end the loop, leads from p to q. */
  ghost predicate Follows(cfg: Config, p: Point, q: Point) {
    NextNarrow(cfg, p) && q.hs.None? && Iterate(cfg, p.w, p.es, p.hs) == More(q.w, q.es)
  }

  /** The points the loop goes through, from its start up to some iteration. */
  ghost predicate Trace(cfg: Config, ps: seq<Point>) {
    ps != [] && forall i, j :: 0 <= i && j == i + 1 < |ps| ==> Follows(cfg, ps[i], ps[j])
  }

  function Appending(cfg: Config, p: Point): (r: Wal)
    requires p.w.Sound()
    ensures r.current.Some? && r.Sound()
  {
    AfterAppend(cfg, Opened(p.w), p.es, p.hs)
  }

  function OpenFile(w: Wal): bytes
    requires w.Sound() && w.current.Some?
  {
    w.dir[w.current.value.fname]
  }

  /** The append of this iteration has got to byte k of the open file. */
  ghost predicate Crashes(cfg: Config, p: Point, k: nat)
    requires p.w.Sound()
  {
    |OpenFile(Opened(p.w))| <= k <= |OpenFile(Appending(cfg, p))|
  }

  ghost function CrashDir(cfg: Config, p: Point, k: nat): map<string, bytes>
    requires p.w.Sound() && Crashes(cfg, p, k)
  {
    var w := Appending(cfg, p);
    w.dir[w.current.value.fname := OpenFile(w)[..k]]
  }

  /** The records that are not on disk: those of this batch, unless it is complete, and of later ones. */
  ghost function Missing(cfg: Config, p: Point, k: nat): seq<Record>
    requires p.w.Sound()
  {
    if k < |OpenFile(Appending(cfg, p))| then Records(Batch(p.hs, p.es))
    else Records(Batch(None, p.es[|NextBatch(cfg, Opened(p.w), p.es, p.hs).entries|..]))
  }

  /** OK when nothing of the batch is on disk, or all of it. */
  ghost function CrashStatus(cfg: Config, p: Point, k: nat): Status
    requires p.w.Sound() && Crashes(cfg, p, k)
  {
    var w := Opened(p.w);
    if k < |MAGIC| then Corruption(BadMagicLength)
    else if k <= |WithMagic(OpenFile(w), w.current.value.empty)| || k == |OpenFile(Appending(cfg, p))| then OK
    else CutStatus(k - |WithMagic(OpenFile(w), w.current.value.empty)|)
  }

  /** The layout is that of the log at the point. */
  ghost predicate Stands(cfg: Config, p: Point, l: Layout) {
    p.w.Sound() && Holds(cfg, p.w, l) && p.es != []
  }

  /** What is on disk and what is still to write. */
  function Everything(p: Point, l: Layout): seq<Record> {
    History(l.All()) + Records(Batch(p.hs, p.es))
  }

  lemma {:induction false} PointStep(cfg: Config, p: Point, l: Layout, q: Point) returns (l': Layout)
    requires Usable(cfg) && Stands(cfg, p, l) && Follows(cfg, p, q)
    ensures Stands(cfg, q, l') && Everything(q, l') == Everything(p, l)
  {
    var b, next := NextBatch(cfg, Opened(p.w), p.es, p.hs), AppendLayout(cfg, p.w, l, p.es, p.hs);
    FreshAccepts(cfg, p.es);
    AppendKeeps(cfg, p.w, l, p.es, p.hs);
    AppendHistory(cfg, p.w, l, p.es, p.hs);
    CloseKeeps(cfg, AfterAppend(cfg, Opened(p.w), p.es, p.hs), next, q.w.lastIndex);
    BatchSplit(p.hs, p.es, |b.entries|);
    Assoc(History(l.All()), Records(b), Records(Batch(None, q.es)));
    l' := CloseLayout(next);
  }

  /** At this point, what is on disk and what is still to write are together these records. */
  ghost predicate Splits(cfg: Config, p: Point, all: seq<Record>) {
    exists l :: Stands(cfg, p, l) && Everything(p, l) == all
  }

  lemma {:induction false} SplitsNext(cfg: Config, p: Point, q: Point, all: seq<Record>)
    requires Usable(cfg) && Splits(cfg, p, all) && Follows(cfg, p, q)
    ensures Splits(cfg, q, all)
  {
    var l :| Stands(cfg, p, l) && Everything(p, l) == all;
    var l' := PointStep(cfg, p, l, q);
  }

  /** The loop keeps what is on disk and what is still to write, together, as they were. */
  lemma {:induction false} SplitsAlong(cfg: Config, ps: seq<Point>, all: seq<Record>)
    requires Usable(cfg) && Trace(cfg, ps) && Splits(cfg, ps[0], all)
    ensures Splits(cfg, ps[|ps| - 1], all)
    decreases |ps|
  {
    if |ps| > 1 {
      TraceNext(cfg, ps);
      SplitsNext(cfg, ps[0], ps[1], all);
      SplitsAlong(cfg, ps[1..], all);
    }
  }

  lemma {:induction false} TraceNext(cfg: Config, ps: seq<Point>)
    requires Trace(cfg, ps) && |ps| > 1
    ensures Follows(cfg, ps[0], ps[1]) && Trace(cfg, ps[1..])
  {
    forall i, j | 0 <= i && j == i + 1 < |ps[1..]| ensures Follows(cfg, ps[1..][i], ps[1..][j]) {
      assert Follows(cfg, ps[i + 1], ps[j + 1]);
    }
  }

  /** The open file before and after the append, in terms of the batches in it. */
  lemma {:induction false} FileIs(cfg: Config, p: Point, l: Layout)
    requires Usable(cfg) && p.w.Sound() && Holds(cfg, p.w, l) && p.es != []
    requires Narrow(cfg, NextBatch(cfg, Opened(p.w), p.es, p.hs))
    ensures var w, b := Opened(p.w), NextBatch(cfg, Opened(p.w), p.es, p.hs);
            && WithMagic(OpenFile(w), w.current.value.empty) == SegmentBytes(cfg, OpenBatches(l))
            && OpenFile(w) == (if l.open.Some? then SegmentBytes(cfg, OpenBatches(l)) else [])
            && OpenFile(Appending(cfg, p)) == SegmentBytes(cfg, OpenBatches(l) + [b])
  {
    OpenedFile(cfg, p.w, l);
    AppendKeeps(cfg, p.w, l, p.es, p.hs);
    HoldsIsSound(cfg, Appending(cfg, p), AppendLayout(cfg, p.w, l, p.es, p.hs));
    AppendedLast(cfg, p.w, l, p.es, p.hs);
  }

  /** A cut in the last batch, or in the magic before the first. */
  lemma {:induction false} CutPlace(cfg: Config, bs: seq<Batch>, b: Batch, k: nat) returns (n: nat)
    requires |SegmentBytes(cfg, bs)| <= k || (bs == [] && k < |MAGIC|)
    requires k <= |SegmentBytes(cfg, bs + [b])|
    ensures n == if k == |SegmentBytes(cfg, bs + [b])| then |bs| + 1 else |bs|
    ensures Survived(cfg, bs + [b], k, n)
    ensures SegmentCut(cfg, bs + [b], k, n) ==
            if k < |MAGIC| then Corruption(BadMagicLength)
            else if k == |SegmentBytes(cfg, bs + [b])| then OK
            else CutStatus(k - |SegmentBytes(cfg, bs)|)
  {
    n := if k == |SegmentBytes(cfg, bs + [b])| then |bs| + 1 else |bs|;
    SnocBytes(cfg, bs, b);
    var ds := BatchDatas(cfg, bs + [b]);
    assert ds[..|bs|] == BatchDatas(cfg, bs) && ds[..|bs| + 1] == ds;
  }

  lemma {:induction false} KeptHistory(closed: seq<Segment>, start: nat, bs: seq<Batch>, b: Batch, n: nat)
    requires n == |bs| || n == |bs| + 1
    ensures History(Kept(closed + [Segment(start, bs + [b])], n)) ==
            History(closed) + BatchRecords(bs) + if n == |bs| then [] else Records(b)
  {
    var segs, s := closed + [Segment(start, bs + [b])], Segment(start, if n == |bs| then bs else bs + [b]);
    assert (bs + [b])[..n] == s.batches && segs[..|closed|] == closed;
    assert Kept(segs, n) == closed + [s];
    SnocHistory(closed, s);
    if n == |bs| {
      Unchanged(History(closed) + BatchRecords(bs));
    } else {
      SnocRecords(bs, b);
      Assoc(History(closed), BatchRecords(bs), Records(b));
    }
  }

  lemma Unchanged<T>(a: seq<T>)
    ensures a + [] == a
  {
  }

  /** The records of everything but the batches that are not complete on disk. */
  ghost function Durable(cfg: Config, all: seq<Record>, p: Point, k: nat): seq<Record>
    requires p.w.Sound()
  {
    var missing := |Missing(cfg, p, k)|;
    if missing <= |all| then all[..|all| - missing] else []
  }

  lemma {:induction false} DurableIs(cfg: Config, p: Point, l: Layout, k: nat)
    requires p.w.Sound()
    ensures var b := NextBatch(cfg, Opened(p.w), p.es, p.hs);
            Durable(cfg, Everything(p, l), p, k) ==
            History(l.All()) + if k < |OpenFile(Appending(cfg, p))| then [] else Records(b)
  {
    var b := NextBatch(cfg, Opened(p.w), p.es, p.hs);
    BatchSplit(p.hs, p.es, |b.entries|);
    TakePrefix(History(l.All()), Records(Batch(p.hs, p.es)), Records(b), Records(Batch(None, p.es[|b.entries|..])));
    Unchanged(History(l.All()));
  }

  lemma TakePrefix<T>(a: seq<T>, bc: seq<T>, b: seq<T>, c: seq<T>)
    requires bc == b + c
    ensures (a + bc)[..|a + bc| - |bc|] == a && (a + bc)[..|a + bc| - |c|] == a + b
  {
  }

  /** The torn directory of the layout after the append is that of the crash. */
  lemma {:induction false} CrashIsTorn(cfg: Config, p: Point, l: Layout, k: nat)
    requires Usable(cfg) && Stands(cfg, p, l) && NextNarrow(cfg, p) && Crashes(cfg, p, k)
    ensures var w, l' := Appending(cfg, p), AppendLayout(cfg, p.w, l, p.es, p.hs);
            Holds(cfg, w, l') && CrashDir(cfg, p, k) == TornDir(w.dir, l'.All(), k)
  {
    AppendKeeps(cfg, p.w, l, p.es, p.hs);
    HoldsIsSound(cfg, Appending(cfg, p), AppendLayout(cfg, p.w, l, p.es, p.hs));
  }

  lemma {:induction false} KeptNarrow(cfg: Config, dir: map<string, bytes>, segs: seq<Segment>, n: nat)
    requires AllStored(cfg, dir, segs) && segs != [] && n <= |segs[|segs| - 1].batches|
    ensures SegmentsNarrow(cfg, Kept(segs, n))
  {
    forall i | 0 <= i < |segs| ensures AllNarrow(cfg, Kept(segs, n)[i].batches) {
      assert StoredAt(cfg, dir, segs, i);
    }
  }

  /** A crash in one iteration, in terms of the layout after it. */
  lemma {:induction false} CrashCut(cfg: Config, p: Point, l: Layout, k: nat, listing: seq<string>, verify: bool) returns (n: nat)
    requires Usable(cfg) && Stands(cfg, p, l) && NextNarrow(cfg, p) && Crashes(cfg, p, k)
    requires forall f :: f in listing <==> f in CrashDir(cfg, p, k)
    ensures n == |OpenBatches(l)| + if k < |OpenFile(Appending(cfg, p))| then 0 else 1
    ensures var segs := AppendLayout(cfg, p.w, l, p.es, p.hs).All();
            && n <= |segs[|segs| - 1].batches| && SegmentsNarrow(cfg, Kept(segs, n))
            && CutOff(AfterRecover(cfg.codec, CrashDir(cfg, p, k), listing, verify),
                      ReadSegments(cfg, Kept(segs, n), EMPTY_STORE, []), CrashStatus(cfg, p, k))
  {
    var w, segs := Appending(cfg, p), AppendLayout(cfg, p.w, l, p.es, p.hs).All();
    n := CrashPlace(cfg, p, l, k);
    CrashIsTorn(cfg, p, l, k);
    RecoverTornLog(cfg, w, AppendLayout(cfg, p.w, l, p.es, p.hs), k, n, listing, verify);
    KeptNarrow(cfg, w.dir, segs, n);
  }

  lemma {:induction false} CrashPlace(cfg: Config, p: Point, l: Layout, k: nat) returns (n: nat)
    requires Usable(cfg) && Stands(cfg, p, l) && NextNarrow(cfg, p) && Crashes(cfg, p, k)
    ensures n == |OpenBatches(l)| + if k < |OpenFile(Appending(cfg, p))| then 0 else 1
    ensures var segs := AppendLayout(cfg, p.w, l, p.es, p.hs).All();
            var last := segs[|segs| - 1].batches;
            && k <= |SegmentBytes(cfg, last)| && Survived(cfg, last, k, n)
            && SegmentCut(cfg, last, k, n) == CrashStatus(cfg, p, k)
  {
    FileIs(cfg, p, l);
    n := CutPlace(cfg, OpenBatches(l), NextBatch(cfg, Opened(p.w), p.es, p.hs), k);
    AppendedLast(cfg, p.w, l, p.es, p.hs);
  }

  lemma {:induction false} CrashHistory(cfg: Config, p: Point, l: Layout, k: nat, n: nat)
    requires p.w.Sound() && n == |OpenBatches(l)| + if k < |OpenFile(Appending(cfg, p))| then 0 else 1
    ensures var segs := AppendLayout(cfg, p.w, l, p.es, p.hs).All();
            && n <= |segs[|segs| - 1].batches|
            && History(Kept(segs, n)) == Durable(cfg, Everything(p, l), p, k)
  {
    AppendedLast(cfg, p.w, l, p.es, p.hs);
    var l', b := AppendLayout(cfg, p.w, l, p.es, p.hs), NextBatch(cfg, Opened(p.w), p.es, p.hs);
    KeptHistory(l.closed, l'.open.value.start, OpenBatches(l), b, n);
    OpenHistory(l);
    DurableIs(cfg, p, l, k);
  }

  lemma {:induction false} CrashAt(cfg: Config, p: Point, l: Layout, k: nat, listing: seq<string>, verify: bool)
    requires cfg.codec.Lawful() && Usable(cfg) && Stands(cfg, p, l) && NextNarrow(cfg, p) && Crashes(cfg, p, k)
    requires forall f :: f in listing <==> f in CrashDir(cfg, p, k)
    ensures Outcome(cfg, Everything(p, l), p, k, listing, verify)
  {
    var n := CrashCut(cfg, p, l, k, listing, verify);
    CrashHistory(cfg, p, l, k, n);
    KeptYields(cfg, Kept(AppendLayout(cfg, p.w, l, p.es, p.hs).All(), n),
               AfterRecover(cfg.codec, CrashDir(cfg, p, k), listing, verify), CrashStatus(cfg, p, k));
  }

  /** Recover yields what is durable, with the status of the cut, exactly when that is intact. */
  ghost predicate Outcome(cfg: Config, all: seq<Record>, p: Point, k: nat, listing: seq<string>, verify: bool)
    requires p.w.Sound() && Crashes(cfg, p, k)
  {
    var rs := Durable(cfg, all, p, k);
    Yields(AfterRecover(cfg.codec, CrashDir(cfg, p, k), listing, verify), rs, CrashStatus(cfg, p, k))
    <==> IntactRecords(cfg, rs)
  }

  /**
   Crash in any write of any run.  After any run, a further write is interrupted in any of its
   iterations and at any byte of the append.  Recover then yields exactly the records of all
   completed writes and of the complete batches of the interrupted one, and reports OK if and
   only if nothing or all of the last batch is on disk, if and only if the build counts the
   hard state's length or none of those records is a hard state.
   */
  lemma {:induction false} CrashInWrite(cfg: Config, dir: map<string, bytes>, ops: seq<Op>,
                                        es: seq<Entry>, hs: Option<HardState>, ps: seq<Point>, k: nat,
                                        listing: seq<string>, verify: bool)
    requires cfg.codec.Lawful() && Usable(cfg) && Fresh(dir) && Legal(cfg, NewLog(dir), ops)
    requires es != [] && Trace(cfg, ps) && ps[0] == Point(Run(cfg, NewLog(dir), ops), es, hs)
    requires var p := ps[|ps| - 1];
             NextNarrow(cfg, p) && Crashes(cfg, p, k) && forall f :: f in listing <==> f in CrashDir(cfg, p, k)
    ensures var p, all := ps[|ps| - 1], Written(ops) + Records(Batch(hs, es));
            Outcome(cfg, all, p, k, listing, verify) && Written(ops) <= Durable(cfg, all, p, k)
  {
    var p, all := ps[|ps| - 1], Written(ops) + Records(Batch(hs, es));
    StartSplits(cfg, dir, ops, es, hs);
    SplitsAlong(cfg, ps, all);
    CrashSplit(cfg, p, all, k, listing, verify);
    LeftShrinks(cfg, ps, |ps| - 1);
  }

  /** No iteration adds to what is still to write. */
  lemma {:induction false} LeftShrinks(cfg: Config, ps: seq<Point>, i: nat)
    requires Trace(cfg, ps) && i < |ps|
    ensures |ps[i].es| <= |ps[0].es| && (ps[i].hs.Some? ==> ps[i].hs == ps[0].hs)
    decreases i
  {
    if i > 0 {
      LeftShrinks(cfg, ps, i - 1);
      assert Follows(cfg, ps[i - 1], ps[i]);
    }
  }

  lemma {:induction false} StartSplits(cfg: Config, dir: map<string, bytes>, ops: seq<Op>, es: seq<Entry>, hs: Option<HardState>)
    requires cfg.codec.Lawful() && Usable(cfg) && Fresh(dir) && Legal(cfg, NewLog(dir), ops)
    requires es != []
    ensures Splits(cfg, Point(Run(cfg, NewLog(dir), ops), es, hs), Written(ops) + Records(Batch(hs, es)))
  {
    RunHolds(cfg, dir, ops);
    assert Stands(cfg, Point(Run(cfg, NewLog(dir), ops), es, hs), RunLayout(cfg, NewLog(dir), NO_SEGMENTS, ops));
  }

  lemma {:induction false} CrashSplit(cfg: Config, p: Point, all: seq<Record>, k: nat, listing: seq<string>, verify: bool)
    requires cfg.codec.Lawful() && Usable(cfg) && Splits(cfg, p, all) && NextNarrow(cfg, p) && Crashes(cfg, p, k)
    requires forall f :: f in listing <==> f in CrashDir(cfg, p, k)
    ensures Outcome(cfg, all, p, k, listing, verify)
  {
    var l :| Stands(cfg, p, l) && Everything(p, l) == all;
    CrashAt(cfg, p, l, k, listing, verify);
  }

  // ---------------------------------------------------------------------------------------
  // The hard state's missing length prefix
  // ---------------------------------------------------------------------------------------

  /**
   As compiled, a batch with a hard state of under 128 bytes (its length prefix is then one
   byte, left out of the size) is always rejected as a bad record, although its checksum
   matches.
   */
  lemma {:induction false} HardStateBatchRejected(cfg: Config, b: Batch, rest: bytes, verify: bool)
    requires cfg.codec.Lawful() && Narrow(cfg, b) && !cfg.build.countsHardStateLength
    requires b.hs.Some? && |cfg.codec.hardStateWire(b.hs.value)| < 128
    ensures ReadBatches(cfg.codec, BatchBytes(cfg.codec, BatchData(cfg, b)) + rest, verify).status
         == Corruption(BadRecord)
  {
    TornBatchRejected(cfg, b);
    ReadOneFrame(cfg.codec, cfg.codec.crc(BatchData(cfg, b)), BatchData(cfg, b), rest, verify);
  }
}
