/** When doWrite ends, and how large a segment gets. */
module WalLimits {
  import opened Coding
  import opened WalFormat
  import opened WalReader
  import opened LogWriting
  import opened LogManagement
  import opened SegmentName
  import opened WalLayout
  import opened WalRecovery
  import opened WalRuns

  // ---------------------------------------------------------------------------------------
  // Termination of doWrite
  // ---------------------------------------------------------------------------------------

  /** The loop of doWrite ends, with success or an error, within n iterations. */
  ghost predicate EndsWithin(cfg: Config, w: Wal, es: seq<Entry>, hs: Option<HardState>, n: nat)
    requires w.Sound()
    decreases n
  {
    && n > 0
    && match Iterate(cfg, w, es, hs)
       case More(w', rest) => EndsWithin(cfg, w', rest, None, n - 1)
       case _ => true
  }

  ghost predicate Terminates(cfg: Config, w: Wal, es: seq<Entry>, hs: Option<HardState>)
    requires w.Sound()
  {
    exists n: nat :: EndsWithin(cfg, w, es, hs, n)
  }

  lemma Terminated(cfg: Config, w: Wal, es: seq<Entry>, hs: Option<HardState>, n: nat)
    requires w.Sound() && EndsWithin(cfg, w, es, hs, n)
    ensures Terminates(cfg, w, es, hs)
  {
  }

  /** No log file has an id above the number of segments. */
  ghost predicate IdsBelow(w: Wal) {
    forall f :: f in w.dir && IsWal(f) && ParseWalName(f).Some? ==> ParseWalName(f).value.0 <= w.SegmentNum()
  }

  lemma {:induction false} HoldsIdsBelow(cfg: Config, w: Wal, l: Layout)
    requires Holds(cfg, w, l)
    ensures IdsBelow(w)
  {
    forall f | f in w.dir && IsWal(f) && ParseWalName(f).Some? ensures ParseWalName(f).value.0 <= w.SegmentNum() {
      NameOfId(w.dir, l.All(), ParseWalName(f).value.0, f);
    }
  }

  lemma {:induction false} IterateIdsBelow(cfg: Config, w: Wal, es: seq<Entry>, hs: Option<HardState>)
    requires w.Sound() && IdsBelow(w)
    ensures !Iterate(cfg, w, es, hs).Failed? && IdsBelow(Iterate(cfg, w, es, hs).w)
  {
    NameRoundTrip(|w.files| + 1, w.lastIndex + 1);
  }

  /** In a segment of unusable size no entry ever fits, and the loop makes no progress. */
  lemma {:induction false} Stuck(cfg: Config, w: Wal, es: seq<Entry>, n: nat)
    requires !Usable(cfg) && w.current.None? && es != [] && IdsBelow(w)
    ensures !EndsWithin(cfg, w, es, None, n)
    decreases n
  {
    if n > 0 {
      FreshAccepts(cfg, es);
      IterateIdsBelow(cfg, w, es, None);
      assert NextBatch(cfg, Opened(w), es, None) == AppendedBatch(cfg, [], true, es, None);
      var r := Iterate(cfg, w, es, None);
      assert r.More? && r.rest == es;
      Stuck(cfg, r.w, es, n - 1);
    }
  }

  /** After the first iteration every iteration accepts at least one entry. */
  lemma {:induction false} Ends(cfg: Config, w: Wal, es: seq<Entry>, hs: Option<HardState>) returns (n: nat)
    requires Usable(cfg) && w.Sound() && es != []
    ensures EndsWithin(cfg, w, es, hs, n) && n <= |es| + if w.current.None? && hs.None? then 0 else 1
    decreases |es|, w.current.Some? || hs.Some?
  {
    FreshAccepts(cfg, es);
    var r := Iterate(cfg, w, es, hs);
    if r.More? {
      var m := Ends(cfg, r.w, r.rest, None);
      n := m + 1;
    } else {
      n := 1;
    }
  }

  /** A segment that holds a batch has over 18 bytes. */
  lemma {:induction false} OpenFileSize(cfg: Config, w: Wal, l: Layout)
    requires Holds(cfg, w, l) && w.Sound() && w.current.Some?
    ensures |w.dir[w.current.value.fname]| > |MAGIC| + BATCH_HEADER_SIZE
  {
    HoldsIsSound(cfg, w, l);
    var b := l.open.value.batches[0];
    assert DataSize(cfg, b) > 0 by {
      if b.hs.None? {
        assert Records(b) == EntryRecords(b.entries);
      }
    }
    assert |BatchDatas(cfg, l.open.value.batches)[0]| == DataSize(cfg, b);
  }

  /** In a segment of unusable size the first iteration takes all or nothing. */
  lemma {:induction false} FirstIteration(cfg: Config, w: Wal, l: Layout, es: seq<Entry>, hs: Option<HardState>)
    requires Holds(cfg, w, l) && w.Sound() && es != [] && !Usable(cfg)
    requires w.current.Some? ==>
               |w.dir[w.current.value.fname]| + BATCH_HEADER_SIZE + DataSize(cfg, Batch(hs, es)) < TWO_64
    ensures |NextBatch(cfg, Opened(w), es, hs).entries| ==
            if w.current.Some? && !cfg.build.signedRemains then |es| else 0
  {
    if w.current.Some? {
      OpenFileSize(cfg, w, l);
      if !cfg.build.signedRemains {
        AcceptsAll(cfg, cfg.segmentSize - |w.dir[w.current.value.fname]|, BATCH_HEADER_SIZE + HardStateSize(cfg, hs), es);
      }
    } else {
      assert [] + MAGIC == MAGIC;
    }
  }

  /**
   doWrite ends exactly when the segment size is usable (over 18 bytes, or, as compiled, under
   10), or, as compiled, when a segment is open: it takes all of the entries at once.  That is
   what DoWrite asks of its caller.
   */
  lemma {:induction false} DoWriteEndsIff(cfg: Config, w: Wal, l: Layout, es: seq<Entry>, hs: Option<HardState>)
    requires Holds(cfg, w, l) && w.Sound() && es != []
    requires w.current.Some? ==>
               |w.dir[w.current.value.fname]| + BATCH_HEADER_SIZE + DataSize(cfg, Batch(hs, es)) < TWO_64
    ensures Terminates(cfg, w, es, hs) <==> Usable(cfg) || (w.current.Some? && !cfg.build.signedRemains)
    ensures Terminates(cfg, w, es, hs) <==> WriteEnds(cfg, w, es, hs)
  {
    if w.current.Some? {
      OpenFileSize(cfg, w, l);
    }
    HoldsIdsBelow(cfg, w, l);
    IterateIdsBelow(cfg, w, es, hs);
    var r := Iterate(cfg, w, es, hs);
    if Usable(cfg) {
      var n := Ends(cfg, w, es, hs);
      Terminated(cfg, w, es, hs, n);
    } else {
      FirstIteration(cfg, w, l, es, hs);
      if r.Done? {
        Terminated(cfg, w, es, hs, 1);
      } else {
        forall n: nat ensures !EndsWithin(cfg, w, es, hs, n) {
          if n > 0 {
            Stuck(cfg, r.w, r.rest, n - 1);
          }
        }
      }
    }
  }

  // ---------------------------------------------------------------------------------------
  // One Append
  // ---------------------------------------------------------------------------------------

  /** The comparison, as signed numbers, or with the space left converted to an unsigned 64-bit number. */
  lemma FitsIs(build: Build, total: nat, remains: int)
    requires total < TWO_64 && 0 <= remains + TWO_63 && remains < TWO_63
    ensures Fits(build, total, remains) <==> total < if build.signedRemains then remains else remains % TWO_64
  {
  }

  lemma {:induction false} AcceptBound(cfg: Config, remains: int, total: nat, es: seq<Entry>)
    requires cfg.build.signedRemains || remains >= 0
    ensures var n := Accept(cfg, remains, total, es);
            n > 0 ==> total + EntriesSize(cfg.codec, es[..n]) < remains + EntrySize(cfg.codec, es[n - 1])
    decreases |es|
  {
    var n := Accept(cfg, remains, total, es);
    if n > 0 {
      AcceptBound(cfg, remains, total + EntrySize(cfg.codec, es[0]), es[1..]);
      assert es[..n][1..] == es[1..][..n - 1];
    }
  }

  /** The bytes of a file after an Append that started from `size` bytes, magic included. */
  function SizeAfter(cfg: Config, size: nat, es: seq<Entry>, hs: Option<HardState>): nat {
    size + BATCH_HEADER_SIZE + DataSize(cfg, Batch(hs, es[..Accepted(cfg, size, es, hs)]))
  }

  /**
   One Append: while the file is not over the limit, or the comparison is signed, it ends
   under the limit plus the last entry record if it takes an entry, and otherwise grows only by
   a header and a hard state.
   */
  lemma {:induction false} AppendBound(cfg: Config, size: nat, es: seq<Entry>, hs: Option<HardState>)
    requires cfg.build.signedRemains || size <= cfg.segmentSize
    ensures var n := Accepted(cfg, size, es, hs);
            if n > 0 then SizeAfter(cfg, size, es, hs) < cfg.segmentSize + EntrySize(cfg.codec, es[n - 1])
            else SizeAfter(cfg, size, es, hs) == size + BATCH_HEADER_SIZE + HardStateSize(cfg, hs)
  {
    AcceptBound(cfg, cfg.segmentSize - size, BATCH_HEADER_SIZE + HardStateSize(cfg, hs), es);
  }

  lemma {:induction false} AcceptFull(cfg: Config, remains: int, total: nat, es: seq<Entry>)
    ensures var n := Accept(cfg, remains, total, es);
            n < |es| ==> total + EntriesSize(cfg.codec, es[..n]) >= remains
    decreases |es|
  {
    var n := Accept(cfg, remains, total, es);
    if 0 < n < |es| {
      AcceptFull(cfg, remains, total + EntrySize(cfg.codec, es[0]), es[1..]);
      assert es[..n][1..] == es[1..][..n - 1];
    }
  }

  /** One Append, in every build: it leaves entries over only if it has filled the segment. */
  lemma {:induction false} AppendFull(cfg: Config, size: nat, es: seq<Entry>, hs: Option<HardState>)
    ensures Accepted(cfg, size, es, hs) < |es| ==> SizeAfter(cfg, size, es, hs) >= cfg.segmentSize
  {
    AcceptFull(cfg, cfg.segmentSize - size, BATCH_HEADER_SIZE + HardStateSize(cfg, hs), es);
  }

  /** So entries that fit are all taken, in one batch. */
  lemma {:induction false} FittingIsTaken(cfg: Config, size: nat, es: seq<Entry>, hs: Option<HardState>)
    requires es != [] && size + BATCH_HEADER_SIZE + DataSize(cfg, Batch(hs, es[..|es| - 1])) < cfg.segmentSize
    ensures Accepted(cfg, size, es, hs) == |es|
  {
    var n := Accepted(cfg, size, es, hs);
    if n < |es| {
      AppendFull(cfg, size, es, hs);
      var init := es[..|es| - 1];
      assert init[..n] == es[..n] && init[..n] + init[n..] == init;
      EntriesSizeSplit(cfg.codec, init[..n], init[n..]);
    }
  }

  function Signed(cfg: Config, signed: bool): Config {
    cfg.(build := cfg.build.(signedRemains := signed))
  }

  lemma {:induction false} AcceptSame(cfg: Config, remains: nat, total: nat, es: seq<Entry>)
    ensures Accept(Signed(cfg, true), remains, total, es) == Accept(Signed(cfg, false), remains, total, es)
    decreases |es|
  {
    if es != [] {
      AcceptSame(cfg, remains, total + EntrySize(cfg.codec, es[0]), es[1..]);
    }
  }

  /** The two comparisons accept the same number of entries exactly while the file is within the limit. */
  lemma {:induction false} ComparisonsAgreeIff(cfg: Config, size: nat, es: seq<Entry>, hs: Option<HardState>)
    requires es != [] && size + BATCH_HEADER_SIZE + HardStateSize(cfg, hs) < TWO_64
    ensures Accepted(Signed(cfg, false), size, es, hs) == Accepted(Signed(cfg, true), size, es, hs)
            <==> size <= cfg.segmentSize
  {
    if size <= cfg.segmentSize {
      AcceptSame(cfg, cfg.segmentSize - size, BATCH_HEADER_SIZE + HardStateSize(cfg, hs), es);
    }
  }

  /**
   As compiled, an Append to a file already over the limit takes every entry (for sizes that a
   64-bit file system can hold), so the segment never rolls again.
   */
  lemma {:induction false} OverLimitNeverRolls(cfg: Config, w: Wal, es: seq<Entry>, hs: Option<HardState>)
    requires TakesAll(cfg, w, es, hs) && es != []
    ensures var r, f := AfterDoWrite(cfg, w, es, hs), w.current.value.fname;
            && r.Some? && r.value.files == w.files
            && r.value.current.Some? && !r.value.current.value.empty && r.value.current.value.fname == f
            && |r.value.dir[f]| == |w.dir[f]| + BATCH_HEADER_SIZE + DataSize(cfg, Batch(hs, es))
  {
    TakenAtOnce(cfg, w, es, hs);
    assert es[..|es|] == es;
    assert NextBatch(cfg, w, es, hs) == Batch(hs, es);
  }

  /** The open segment has data, is over the limit, and has `size` bytes. */
  ghost predicate OverLimit(cfg: Config, w: Wal, fname: string, size: nat) {
    && w.Sound() && w.current.Some? && !w.current.value.empty && w.current.value.fname == fname
    && |w.dir[fname]| == size && cfg.segmentSize < size
  }

  predicate WritesOnly(ops: seq<Op>) {
    forall i :: 0 <= i < |ops| ==> ops[i].Write? && ops[i].entries != []
  }

  /** The bytes all these writes hand to files. */
  function Volume(cfg: Config, ops: seq<Op>): nat
    requires WritesOnly(ops)
  {
    if ops == [] then 0
    else BATCH_HEADER_SIZE + DataSize(cfg, Batch(ops[0].hs, ops[0].entries)) + Volume(cfg, ops[1..])
  }

  lemma {:induction false} OneMore(cfg: Config, w: Wal, op: Op, fname: string, size: nat) returns (w': Wal)
    requires !cfg.build.signedRemains && Usable(cfg) && w.Sound() && OverLimit(cfg, w, fname, size)
    requires op.Write? && op.entries != []
    requires size + BATCH_HEADER_SIZE + DataSize(cfg, Batch(op.hs, op.entries)) < TWO_64
    ensures Exec(cfg, w, op) == w' && w'.files == w.files
    ensures OverLimit(cfg, w', fname, size + BATCH_HEADER_SIZE + DataSize(cfg, Batch(op.hs, op.entries)))
  {
    OverLimitNeverRolls(cfg, w, op.entries, op.hs);
    w' := Exec(cfg, w, op);
  }

  /**
   So there is no bound on a segment as compiled: once one is over the limit, all writes until
   the log is closed go into it, whatever their volume.
   */
  lemma {:induction false} GrowsForever(cfg: Config, w: Wal, ops: seq<Op>, fname: string, size: nat)
    requires !cfg.build.signedRemains && Usable(cfg) && w.Sound() && OverLimit(cfg, w, fname, size)
    requires WritesOnly(ops) && size + Volume(cfg, ops) < TWO_64
    ensures Run(cfg, w, ops).files == w.files && OverLimit(cfg, Run(cfg, w, ops), fname, size + Volume(cfg, ops))
    decreases |ops|
  {
    if ops != [] {
      var op := ops[0];
      var size' := size + BATCH_HEADER_SIZE + DataSize(cfg, Batch(op.hs, op.entries));
      var w' := OneMore(cfg, w, op, fname, size);
      GrowsForever(cfg, w', ops[1..], fname, size');
    }
  }

  /** And one is over the limit after one write of one large enough entry. */
  lemma {:induction false} OverLimitReached(c: Codec, size: nat, dir: map<string, bytes>, e: Entry)
    requires 18 < size < 18 + EntrySize(c, e) && Fresh(dir)
    ensures var cfg := Config(AS_COMPILED, c, size);
            OverLimit(cfg, Run(cfg, NewLog(dir), [Write([e], None)]), "1-1.wal", 18 + EntrySize(c, e))
  {
    var cfg, w, op := Config(AS_COMPILED, c, size), NewLog(dir), Write([e], None);
    assert [op][1..] == [] && w.NextName() == "1-1.wal";
    NameIsWal(1, 1);
    assert [] + MAGIC == MAGIC && [e][1..] == [];
    assert Accepted(cfg, |MAGIC|, [e], None) == 1 && [e][..1] == [e];
    assert EntriesSize(c, [e]) == EntrySize(c, e);
  }

  // ---------------------------------------------------------------------------------------
  // The size of a segment, over every run
  // ---------------------------------------------------------------------------------------

  /** The size of the last entry record of the batches, if there is one. */
  function LastEntrySize(c: Codec, bs: seq<Batch>): nat {
    var es := Entries(BatchRecords(bs));
    if es == [] then 0 else EntrySize(c, es[|es| - 1])
  }

  /**
   Under the limit plus the segment's own last entry record; a last batch that took no entry
   adds its header and its hard state.
   */
  ghost predicate Bounded(cfg: Config, bs: seq<Batch>) {
    && bs != []
    && var last := bs[|bs| - 1];
       |SegmentBytes(cfg, bs)| < cfg.segmentSize + LastEntrySize(cfg.codec, bs)
                                 + if last.entries != [] then 0 else BATCH_HEADER_SIZE + HardStateSize(cfg, last.hs)
  }

  ghost predicate AllBounded(cfg: Config, segs: seq<Segment>) {
    forall i {:trigger segs[i]} :: 0 <= i < |segs| ==> Bounded(cfg, segs[i].batches)
  }

  /** The last batch of the open segment took an entry: it has not been found full. */
  ghost predicate OpenHasRoom(l: Layout) {
    l.open.Some? ==> var bs := l.open.value.batches; bs != [] && bs[|bs| - 1].entries != []
  }

  /** A write that starts now starts in a file within the limit, magic included. */
  predicate StartsWithin(cfg: Config, w: Wal)
    requires w.Sound()
  {
    (if w.current.Some? then |w.dir[w.current.value.fname]| else |MAGIC|) <= cfg.segmentSize
  }

  lemma {:induction false} LastEntrySnoc(c: Codec, bs: seq<Batch>, b: Batch)
    ensures LastEntrySize(c, bs + [b]) ==
            if b.entries != [] then EntrySize(c, b.entries[|b.entries| - 1]) else LastEntrySize(c, bs)
  {
    SnocRecords(bs, b);
    EntriesConcat(BatchRecords(bs), Records(b));
    EntriesOfBatch(b);
  }

  lemma {:induction false} SnocSize(cfg: Config, bs: seq<Batch>, b: Batch)
    ensures |SegmentBytes(cfg, bs + [b])| == |SegmentBytes(cfg, bs)| + BATCH_HEADER_SIZE + DataSize(cfg, b)
  {
    SnocBytes(cfg, bs, b);
  }

  /** A batch of a segment, as an Append that starts from its bytes chooses it. */
  ghost predicate Chosen(cfg: Config, bs: seq<Batch>, es: seq<Entry>, hs: Option<HardState>, b: Batch) {
    b == Batch(hs, es[..Accepted(cfg, |SegmentBytes(cfg, bs)|, es, hs)])
  }

  lemma {:induction false} SnocIs(cfg: Config, bs: seq<Batch>, b: Batch)
    ensures Bounded(cfg, bs + [b]) <==>
            |SegmentBytes(cfg, bs)| + BATCH_HEADER_SIZE + DataSize(cfg, b) < cfg.segmentSize +
              if b.entries != [] then EntrySize(cfg.codec, b.entries[|b.entries| - 1])
              else LastEntrySize(cfg.codec, bs) + BATCH_HEADER_SIZE + HardStateSize(cfg, b.hs)
  {
    SnocSize(cfg, bs, b);
    LastEntrySnoc(cfg.codec, bs, b);
  }

  /** One batch more keeps the bound, from a file within the limit or with the signed comparison. */
  lemma {:induction false} SnocBounded(cfg: Config, bs: seq<Batch>, es: seq<Entry>, hs: Option<HardState>, b: Batch)
    requires Chosen(cfg, bs, es, hs, b) && Usable(cfg)
    requires bs == [] || (Bounded(cfg, bs) && bs[|bs| - 1].entries != [])
    requires cfg.build.signedRemains || |SegmentBytes(cfg, bs)| <= cfg.segmentSize
    ensures Bounded(cfg, bs + [b])
  {
    NoBatches(cfg);
    ChosenFits(cfg, |SegmentBytes(cfg, bs)|, LastEntrySize(cfg.codec, bs), es, hs);
    SnocIs(cfg, bs, b);
  }

  lemma {:induction false} ChosenFits(cfg: Config, size: nat, last: nat, es: seq<Entry>, hs: Option<HardState>)
    requires Usable(cfg) && (size == |MAGIC| || size < cfg.segmentSize + last)
    requires cfg.build.signedRemains || size <= cfg.segmentSize
    ensures var b := Batch(hs, es[..Accepted(cfg, size, es, hs)]);
            size + BATCH_HEADER_SIZE + DataSize(cfg, b) < cfg.segmentSize +
              if b.entries != [] then EntrySize(cfg.codec, b.entries[|b.entries| - 1])
              else last + BATCH_HEADER_SIZE + HardStateSize(cfg, b.hs)
  {
    AppendBound(cfg, size, es, hs);
  }

  /** As compiled, one batch more on a file over the limit breaks it. */
  lemma {:induction false} SnocBreaks(cfg: Config, bs: seq<Batch>, es: seq<Entry>, hs: Option<HardState>, b: Batch)
    requires Chosen(cfg, bs, es, hs, b) && es != [] && !cfg.build.signedRemains
    requires cfg.segmentSize < |SegmentBytes(cfg, bs)|
    requires |SegmentBytes(cfg, bs)| + BATCH_HEADER_SIZE + HardStateSize(cfg, hs) < TWO_64
    ensures b.entries != [] && !Bounded(cfg, bs + [b])
  {
    SnocIs(cfg, bs, b);
    LastIsPart(cfg.codec, b.entries);
  }

  lemma {:induction false} OverBoundIsOver(cfg: Config, bs: seq<Batch>)
    requires bs != [] && bs[|bs| - 1].entries != [] && !Bounded(cfg, bs)
    ensures cfg.segmentSize < |SegmentBytes(cfg, bs)|
  {
    var last := bs[|bs| - 1];
    assert bs[..|bs| - 1] + [last] == bs;
    LastEntrySnoc(cfg.codec, bs[..|bs| - 1], last);
  }

  lemma {:induction false} LastIsPart(c: Codec, es: seq<Entry>)
    requires es != []
    ensures EntrySize(c, es[|es| - 1]) <= EntriesSize(c, es)
  {
    var last := es[|es| - 1..];
    EntriesSizeSplit(c, es[..|es| - 1], last);
    assert es[..|es| - 1] + last == es && last[1..] == [];
  }

  /** The next batch of the log, in terms of its layout. */
  lemma {:induction false} NextIsChosen(cfg: Config, w: Wal, l: Layout, es: seq<Entry>, hs: Option<HardState>)
    requires Holds(cfg, w, l) && w.Sound()
    ensures Chosen(cfg, OpenBatches(l), es, hs, NextBatch(cfg, Opened(w), es, hs))
    ensures StartsWithin(cfg, w) <==> |SegmentBytes(cfg, OpenBatches(l))| <= cfg.segmentSize
  {
    OpenedFile(cfg, w, l);
    StartsIff(cfg, w, l);
  }

  lemma {:induction false} StartsIff(cfg: Config, w: Wal, l: Layout)
    requires Holds(cfg, w, l) && w.Sound()
    ensures StartsWithin(cfg, w) <==> |SegmentBytes(cfg, OpenBatches(l))| <= cfg.segmentSize
  {
    OpenedFile(cfg, w, l);
    NoBatches(cfg);
  }

  lemma {:induction false} BoundedSnoc(cfg: Config, closed: seq<Segment>, s: Segment)
    ensures AllBounded(cfg, closed + [s]) <==> AllBounded(cfg, closed) && Bounded(cfg, s.batches)
  {
    var segs := closed + [s];
    assert segs[|closed|] == s && forall i :: 0 <= i < |closed| ==> segs[i] == closed[i];
  }

  lemma {:induction false} BoundedParts(cfg: Config, l: Layout)
    ensures AllBounded(cfg, l.All()) <==>
            AllBounded(cfg, l.closed) && (l.open.Some? ==> Bounded(cfg, l.open.value.batches))
  {
    if l.open.Some? {
      BoundedSnoc(cfg, l.closed, l.open.value);
    }
  }

  /** One iteration keeps the bound if it starts within the limit or compares signed. */
  lemma {:induction false} AppendBounded(cfg: Config, w: Wal, l: Layout, es: seq<Entry>, hs: Option<HardState>)
    requires Usable(cfg) && Holds(cfg, w, l) && w.Sound() && OpenHasRoom(l) && AllBounded(cfg, l.All())
    requires cfg.build.signedRemains || StartsWithin(cfg, w)
    ensures AllBounded(cfg, AppendLayout(cfg, w, l, es, hs).All())
  {
    NextIsChosen(cfg, w, l, es, hs);
    BoundedParts(cfg, l);
    SnocBounded(cfg, OpenBatches(l), es, hs, NextBatch(cfg, Opened(w), es, hs));
    AppendedLast(cfg, w, l, es, hs);
    BoundedParts(cfg, AppendLayout(cfg, w, l, es, hs));
  }

  /** After any write the open segment has room, in every build. */
  lemma {:induction false} WriteLeavesRoom(cfg: Config, w: Wal, l: Layout, es: seq<Entry>, hs: Option<HardState>)
    requires Usable(cfg) && w.Sound() && es != [] && OpenHasRoom(l)
    ensures OpenHasRoom(WriteLayout(cfg, w, l, es, hs))
    decreases |es|, w.current.Some? || hs.Some?
  {
    FreshAccepts(cfg, es);
    AppendedLast(cfg, w, l, es, hs);
    var r, l' := Iterate(cfg, w, es, hs), AppendLayout(cfg, w, l, es, hs);
    if r.More? {
      WriteLeavesRoom(cfg, r.w, CloseLayout(l'), r.rest, None);
    }
  }

  lemma {:induction false} WriteBounded(cfg: Config, w: Wal, l: Layout, es: seq<Entry>, hs: Option<HardState>)
    requires Usable(cfg) && Holds(cfg, w, l) && w.Sound() && es != [] && WriteNarrow(cfg, w, es, hs)
    requires OpenHasRoom(l) && AllBounded(cfg, l.All()) && (cfg.build.signedRemains || StartsWithin(cfg, w))
    ensures AllBounded(cfg, WriteLayout(cfg, w, l, es, hs).All())
    decreases |es|, w.current.Some? || hs.Some?
  {
    FreshAccepts(cfg, es);
    AppendKeeps(cfg, w, l, es, hs);
    AppendBounded(cfg, w, l, es, hs);
    var r, l' := Iterate(cfg, w, es, hs), AppendLayout(cfg, w, l, es, hs);
    if r.More? {
      if w.current.Some? {
        OpenFileSize(cfg, w, l);
      }
      CloseKeeps(cfg, AfterAppend(cfg, Opened(w), es, hs), l', r.w.lastIndex);
      WriteBounded(cfg, r.w, CloseLayout(l'), r.rest, None);
    }
  }

  /** As compiled, a write that starts over the limit leaves a segment over the bound. */
  lemma {:induction false} WriteBreaks(cfg: Config, w: Wal, l: Layout, es: seq<Entry>, hs: Option<HardState>)
    requires Usable(cfg) && Holds(cfg, w, l) && w.Sound() && es != [] && WriteNarrow(cfg, w, es, hs) && OpenHasRoom(l)
    requires !cfg.build.signedRemains && !StartsWithin(cfg, w) && FileFits(w)
    ensures !AllBounded(cfg, WriteLayout(cfg, w, l, es, hs).All())
  {
    var b, r, l' := NextBatch(cfg, Opened(w), es, hs), Iterate(cfg, w, es, hs), AppendLayout(cfg, w, l, es, hs);
    AppendKeeps(cfg, w, l, es, hs);
    NextIsChosen(cfg, w, l, es, hs);
    OpenedFile(cfg, w, l);
    NoBatches(cfg);
    SnocBreaks(cfg, OpenBatches(l), es, hs, b);
    AppendedLast(cfg, w, l, es, hs);
    BoundedParts(cfg, l');
    if r.More? {
      WriteExtends(cfg, r.w, CloseLayout(l'), r.rest, None);
      PrefixBreaks(cfg, l'.All(), WriteLayout(cfg, r.w, CloseLayout(l'), r.rest, None));
    }
  }

  lemma {:induction false} PrefixBreaks(cfg: Config, segs: seq<Segment>, l: Layout)
    requires !AllBounded(cfg, segs) && segs <= l.closed
    ensures !AllBounded(cfg, l.All())
  {
    var i :| 0 <= i < |segs| && !Bounded(cfg, segs[i].batches);
    assert l.All()[i] == segs[i];
  }

  const TWO_63: nat := 0x8000_0000_0000_0000

  /** The open file is as large as a file can be. */
  predicate FileFits(w: Wal) {
    w.Sound() && (w.current.Some? ==> |w.dir[w.current.value.fname]| < TWO_63)
  }

  /** No write of the run starts on a file of 2^63 bytes. */
  ghost predicate FilesFit(cfg: Config, w: Wal, ops: seq<Op>)
    requires Usable(cfg) && w.Sound()
    decreases |ops|
  {
    FileFits(w) && (ops == [] || FilesFit(cfg, Exec(cfg, w, ops[0]), ops[1..]))
  }

  /** The operation is a write of entries that starts in a file over the limit. */
  predicate StartsOver(cfg: Config, w: Wal, op: Op)
    requires w.Sound()
  {
    op.Write? && op.entries != [] && !StartsWithin(cfg, w)
  }

  ghost predicate NeverOver(cfg: Config, w: Wal, ops: seq<Op>)
    requires Usable(cfg) && w.Sound()
    decreases |ops|
  {
    ops == [] || (!StartsOver(cfg, w, ops[0]) && NeverOver(cfg, Exec(cfg, w, ops[0]), ops[1..]))
  }

  lemma {:induction false} ExecLeavesRoom(cfg: Config, w: Wal, l: Layout, op: Op)
    requires Usable(cfg) && w.Sound() && OpenHasRoom(l)
    ensures OpenHasRoom(ExecLayout(cfg, w, l, op))
    ensures l.closed <= ExecLayout(cfg, w, l, op).closed
  {
    if op.Write? && op.entries != [] {
      WriteLeavesRoom(cfg, w, l, op.entries, op.hs);
      WriteExtends(cfg, w, l, op.entries, op.hs);
    }
  }

  /** Once over the bound, always over it: the open segment is then over the limit. */
  lemma {:induction false} ExecStaysOver(cfg: Config, w: Wal, l: Layout, op: Op)
    requires Usable(cfg) && Holds(cfg, w, l) && w.Sound() && LegalOp(cfg, w, op) && OpenHasRoom(l)
    requires !cfg.build.signedRemains && FileFits(w) && !AllBounded(cfg, l.All())
    ensures !AllBounded(cfg, ExecLayout(cfg, w, l, op).All())
  {
    if op.Write? && op.entries != [] {
      if !AllBounded(cfg, l.closed) {
        ExecLeavesRoom(cfg, w, l, op);
        PrefixBreaks(cfg, l.closed, ExecLayout(cfg, w, l, op));
      } else {
        OpenIsOver(cfg, w, l);
        WriteBreaks(cfg, w, l, op.entries, op.hs);
      }
    }
  }

  lemma {:induction false} OpenIsOver(cfg: Config, w: Wal, l: Layout)
    requires Holds(cfg, w, l) && w.Sound() && OpenHasRoom(l) && AllBounded(cfg, l.closed) && !AllBounded(cfg, l.All())
    ensures !StartsWithin(cfg, w)
  {
    BoundedParts(cfg, l);
    var bs := OpenBatches(l);
    assert bs != [] && bs[|bs| - 1].entries != [] && !Bounded(cfg, bs);
    OverBoundIsOver(cfg, bs);
    StartsIff(cfg, w, l);
  }

  lemma {:induction false} StaysOver(cfg: Config, w: Wal, l: Layout, ops: seq<Op>)
    requires cfg.codec.Lawful() && Usable(cfg) && Holds(cfg, w, l) && w.Sound() && Legal(cfg, w, ops) && OpenHasRoom(l)
    requires !cfg.build.signedRemains && FilesFit(cfg, w, ops) && !AllBounded(cfg, l.All())
    ensures !AllBounded(cfg, RunLayout(cfg, w, l, ops).All())
    decreases |ops|
  {
    if ops != [] {
      ExecKeeps(cfg, w, l, ops[0]);
      ExecLeavesRoom(cfg, w, l, ops[0]);
      ExecStaysOver(cfg, w, l, ops[0]);
      StaysOver(cfg, Exec(cfg, w, ops[0]), ExecLayout(cfg, w, l, ops[0]), ops[1..]);
    }
  }

  lemma {:induction false} RunBounded(cfg: Config, w: Wal, l: Layout, ops: seq<Op>)
    requires cfg.codec.Lawful() && Usable(cfg) && Holds(cfg, w, l) && w.Sound() && Legal(cfg, w, ops) && OpenHasRoom(l)
    requires FilesFit(cfg, w, ops) && AllBounded(cfg, l.All())
    ensures AllBounded(cfg, RunLayout(cfg, w, l, ops).All()) <==> cfg.build.signedRemains || NeverOver(cfg, w, ops)
    decreases |ops|
  {
    if ops != [] {
      var op, w', l' := ops[0], Exec(cfg, w, ops[0]), ExecLayout(cfg, w, l, ops[0]);
      ExecKeeps(cfg, w, l, op);
      ExecLeavesRoom(cfg, w, l, op);
      if !cfg.build.signedRemains && StartsOver(cfg, w, op) {
        WriteBreaks(cfg, w, l, op.entries, op.hs);
        StaysOver(cfg, w', l', ops[1..]);
      } else {
        if op.Write? && op.entries != [] {
          WriteBounded(cfg, w, l, op.entries, op.hs);
        }
        RunBounded(cfg, w', l', ops[1..]);
      }
    }
  }

  /**
   Segment size.  After every run, every segment on disk is under the limit plus its own last
   entry record (plus header and hard state of a last batch that took no entry), if and only if
   the comparison is signed or no write of the run started in a file over the limit.
   */
  lemma {:induction false} SegmentSizeBound(cfg: Config, dir: map<string, bytes>, ops: seq<Op>)
    requires cfg.codec.Lawful() && Usable(cfg) && Fresh(dir) && Legal(cfg, NewLog(dir), ops)
    requires FilesFit(cfg, NewLog(dir), ops)
    ensures var w, l := Run(cfg, NewLog(dir), ops), RunLayout(cfg, NewLog(dir), NO_SEGMENTS, ops);
            && AllStored(cfg, w.dir, l.All()) && NoOthers(w.dir, l.All())
            && (AllBounded(cfg, l.All()) <==> cfg.build.signedRemains || NeverOver(cfg, NewLog(dir), ops))
  {
    RunHolds(cfg, dir, ops);
    NewLogHolds(cfg, dir);
    RunBounded(cfg, NewLog(dir), NO_SEGMENTS, ops);
  }

  /** As compiled, writing one large enough entry twice breaks the bound. */
  lemma {:induction false} CompiledBreaksBound(c: Codec, size: nat, dir: map<string, bytes>, e: Entry)
    requires c.Lawful() && 18 < size < 18 + EntrySize(c, e) && Fresh(dir)
    requires Narrow(Config(AS_COMPILED, c, size), Batch(None, [e]))
    ensures var cfg, op := Config(AS_COMPILED, c, size), Write([e], None);
            !AllBounded(cfg, RunLayout(cfg, NewLog(dir), NO_SEGMENTS, [op, op]).All())
  {
    var cfg, op, w := Config(AS_COMPILED, c, size), Write([e], None), NewLog(dir);
    var w1 := Exec(cfg, w, op);
    assert [op][1..] == [] && [op, op][1..] == [op] && [e][1..] == [];
    assert Run(cfg, w, [op]) == w1;
    OverLimitReached(c, size, dir, e);
    assert EntriesSize(c, [e]) == EntrySize(c, e);
    var w2 := OneMore(cfg, w1, op, "1-1.wal", 18 + EntrySize(c, e));
    NarrowWrites(cfg, w, [e], None);
    NarrowWrites(cfg, w1, [e], None);
    assert LegalOp(cfg, w, op) && LegalOp(cfg, w1, op) && Legal(cfg, w2, []) && Legal(cfg, w1, [op]);
    assert FilesFit(cfg, w2, []) && FilesFit(cfg, w1, [op]);
    assert StartsOver(cfg, w1, op) && !NeverOver(cfg, w1, [op]);
    SegmentSizeBound(cfg, dir, [op, op]);
  }

  // ---------------------------------------------------------------------------------------
  // Segments that are rolled over are full
  // ---------------------------------------------------------------------------------------

  /** The segments from number i on have at least the configured size. */
  ghost predicate FullFrom(cfg: Config, segs: seq<Segment>, i: nat) {
    forall j :: i <= j < |segs| ==> cfg.segmentSize <= |SegmentBytes(cfg, segs[j].batches)|
  }

  lemma {:induction false} MoreIsFull(cfg: Config, w: Wal, l: Layout, es: seq<Entry>, hs: Option<HardState>)
    requires Holds(cfg, w, l) && w.Sound() && Iterate(cfg, w, es, hs).More?
    ensures var l' := AppendLayout(cfg, w, l, es, hs);
            l'.open.Some? && cfg.segmentSize <= |SegmentBytes(cfg, l'.open.value.batches)|
  {
    var b := NextBatch(cfg, Opened(w), es, hs);
    NextIsChosen(cfg, w, l, es, hs);
    AppendFull(cfg, |SegmentBytes(cfg, OpenBatches(l))|, es, hs);
    AppendedLast(cfg, w, l, es, hs);
    SnocSize(cfg, OpenBatches(l), b);
  }

  /**
   Rollover only when full.  In every build and state, each segment that a write finishes has
   at least the configured size.
   */
  lemma {:induction false} RolledIsFull(cfg: Config, w: Wal, l: Layout, es: seq<Entry>, hs: Option<HardState>)
    requires Usable(cfg) && Holds(cfg, w, l) && w.Sound() && es != [] && WriteNarrow(cfg, w, es, hs)
    ensures FullFrom(cfg, WriteLayout(cfg, w, l, es, hs).closed, |l.closed|)
    decreases |es|, w.current.Some? || hs.Some?
  {
    FreshAccepts(cfg, es);
    AppendKeeps(cfg, w, l, es, hs);
    AppendedLast(cfg, w, l, es, hs);
    var r, l' := Iterate(cfg, w, es, hs), AppendLayout(cfg, w, l, es, hs);
    if r.More? {
      MoreIsFull(cfg, w, l, es, hs);
      CloseKeeps(cfg, AfterAppend(cfg, Opened(w), es, hs), l', r.w.lastIndex);
      RolledIsFull(cfg, r.w, CloseLayout(l'), r.rest, None);
      WriteExtends(cfg, r.w, CloseLayout(l'), r.rest, None);
      FullNext(cfg, l.closed, l'.open.value, WriteLayout(cfg, r.w, CloseLayout(l'), r.rest, None).closed);
    }
  }

  lemma {:induction false} FullNext(cfg: Config, closed: seq<Segment>, s: Segment, segs: seq<Segment>)
    requires closed + [s] <= segs && cfg.segmentSize <= |SegmentBytes(cfg, s.batches)|
    requires FullFrom(cfg, segs, |closed| + 1)
    ensures FullFrom(cfg, segs, |closed|)
  {
    assert segs[|closed|] == (closed + [s])[|closed|] == s;
  }

  /** A write that fits the segment it starts in stays there, in one batch. */
  lemma {:induction false} FittingStays(cfg: Config, w: Wal, l: Layout, es: seq<Entry>, hs: Option<HardState>)
    requires Usable(cfg) && Holds(cfg, w, l) && w.Sound() && es != [] && WriteNarrow(cfg, w, es, hs)
    requires |SegmentBytes(cfg, OpenBatches(l))| + BATCH_HEADER_SIZE + DataSize(cfg, Batch(hs, es[..|es| - 1]))
             < cfg.segmentSize
    ensures var l' := WriteLayout(cfg, w, l, es, hs);
            l'.closed == l.closed && l'.open.Some? && l'.open.value.batches == OpenBatches(l) + [Batch(hs, es)]
  {
    AppendKeeps(cfg, w, l, es, hs);
    NextIsChosen(cfg, w, l, es, hs);
    FittingIsTaken(cfg, |SegmentBytes(cfg, OpenBatches(l))|, es, hs);
    assert es[..|es|] == es;
    AppendedLast(cfg, w, l, es, hs);
  }
}
