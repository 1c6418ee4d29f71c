/** What Recover makes of the segments on disk. */
module WalRecovery {
  import opened Coding
  import opened WalFormat
  import opened WalReader
  import opened LogWriting
  import opened LogManagement
  import opened SegmentName
  import opened WalLayout

  // ---------------------------------------------------------------------------------------
  // The directory listing gives the segments 1..n, in whatever order it comes
  // ---------------------------------------------------------------------------------------

  /** Every id in the map is one of the segments, with its start. */
  ghost predicate Agrees(m: map<nat, nat>, segs: seq<Segment>) {
    forall id :: id in m ==> 1 <= id <= |segs| && m[id] == segs[id - 1].start
  }

  /** The listing holds only names of segments, and files that are not logs. */
  ghost predicate Listed(listing: seq<string>, segs: seq<Segment>) {
    forall k :: 0 <= k < |listing| && IsWal(listing[k]) ==> Named(segs, listing[k])
  }

  lemma {:induction false} NamedParses(segs: seq<Segment>, f: string) returns (i: nat)
    requires Named(segs, f)
    ensures i < |segs| && ParseWalName(f) == Some((i + 1, segs[i].start)) && IsWal(f)
  {
    i :| 0 <= i < |segs| && f == SegmentFileName(i + 1, segs[i].start);
    NameRoundTrip(i + 1, segs[i].start);
  }

  lemma {:induction false} WalsAgree(listing: seq<string>, acc: map<nat, nat>, segs: seq<Segment>)
    requires Agrees(acc, segs) && Listed(listing, segs)
    ensures Agrees(Wals(listing, acc), segs)
    ensures acc.Keys <= Wals(listing, acc).Keys
    decreases |listing|
  {
    if listing != [] {
      var f := listing[0];
      assert Listed(listing[1..], segs);
      var acc' := acc;
      if IsWal(f) {
        var i := NamedParses(segs, f);
        acc' := acc[i + 1 := segs[i].start];
      }
      WalsAgree(listing[1..], acc', segs);
    }
  }

  lemma {:induction false} WalsCover(listing: seq<string>, acc: map<nat, nat>, segs: seq<Segment>, i: nat)
    requires Agrees(acc, segs) && Listed(listing, segs)
    requires i < |segs| && SegmentFileName(i + 1, segs[i].start) in listing
    ensures i + 1 in Wals(listing, acc)
    decreases |listing|
  {
    var f := listing[0];
    assert Listed(listing[1..], segs);
    var acc' := acc;
    if IsWal(f) {
      var j := NamedParses(segs, f);
      acc' := acc[j + 1 := segs[j].start];
    }
    NameRoundTrip(i + 1, segs[i].start);
    if f == SegmentFileName(i + 1, segs[i].start) {
      WalsAgree(listing[1..], acc', segs);
    } else {
      WalsCover(listing[1..], acc', segs, i);
    }
  }

  /** The segments from number i on. */
  ghost predicate Tail(m: map<nat, nat>, segs: seq<Segment>, i: nat) {
    Agrees(m, segs) && forall id :: id in m <==> i < id <= |segs|
  }

  lemma {:induction false} WalsAreTheSegments(dir: map<string, bytes>, listing: seq<string>, cfg: Config, segs: seq<Segment>)
    requires AllStored(cfg, dir, segs) && NoOthers(dir, segs)
    requires forall f :: f in listing <==> f in dir
    ensures Tail(Wals(listing, map[]), segs, 0)
  {
    WalsAgree(listing, map[], segs);
    forall id | 0 < id <= |segs| ensures id in Wals(listing, map[]) {
      assert StoredAt(cfg, dir, segs, id - 1);
      WalsCover(listing, map[], segs, id - 1);
    }
  }

  // ---------------------------------------------------------------------------------------
  // Reading them in id order is reading them in the order they were written
  // ---------------------------------------------------------------------------------------

  function ReadSegments(cfg: Config, segs: seq<Segment>, store: Store, files: seq<Meta>): Recovery
    decreases |segs|
  {
    if segs == [] then Recovery(OK, Some(store), files)
    else
      var r := ReadDatas(cfg.codec, BatchDatas(cfg, segs[0].batches));
      var store' := Replay(store, r.applied);
      if r.status != OK then Recovery(r.status, Some(store'), files)
      else ReadSegments(cfg, segs[1..], store', files + [Meta("", |Entries(r.applied)|)])
  }

  lemma {:induction false} NarrowIsShort(cfg: Config, bs: seq<Batch>)
    requires AllNarrow(cfg, bs)
    ensures Short(BatchDatas(cfg, bs))
  {
    forall i | 0 <= i < |bs| ensures |BatchDatas(cfg, bs)[i]| < TWO_32 {
      assert Narrow(cfg, bs[i]);
    }
  }

  lemma {:induction false} TailStep(m: map<nat, nat>, segs: seq<Segment>, i: nat)
    requires Tail(m, segs, i) && i < |segs|
    ensures m != map[] && Least(m.Keys) == i + 1 && m[i + 1] == segs[i].start
    ensures Tail(m - {i + 1}, segs, i + 1)
  {
    assert i + 1 in m;
    assert Least(m.Keys) in m;
  }

  lemma {:induction false} ReadTail(cfg: Config, dir: map<string, bytes>, segs: seq<Segment>, i: nat,
                                    m: map<nat, nat>, verify: bool, store: Store, files: seq<Meta>)
    requires AllStored(cfg, dir, segs) && i <= |segs| && Tail(m, segs, i)
    ensures ReadWals(cfg.codec, dir, m, verify, store, files) == ReadSegments(cfg, segs[i..], store, files)
    decreases |segs| - i
  {
    if i < |segs| {
      TailStep(m, segs, i);
      assert StoredAt(cfg, dir, segs, i);
      NarrowIsShort(cfg, segs[i].batches);
      ReadWrittenSegment(cfg.codec, BatchDatas(cfg, segs[i].batches), verify);
      assert segs[i..][1..] == segs[i + 1..];
      var r := ReadDatas(cfg.codec, BatchDatas(cfg, segs[i].batches));
      if r.status == OK {
        ReadTail(cfg, dir, segs, i + 1, m - {i + 1}, verify, Replay(store, r.applied),
                 files + [Meta("", |Entries(r.applied)|)]);
      }
    } else {
      assert m == map[];
    }
  }

  /** Whatever the order of the listing, and with or without checksum verification. */
  lemma {:induction false} RecoverReadsSegments(cfg: Config, w: Wal, l: Layout, listing: seq<string>, verify: bool)
    requires Holds(cfg, w, l) && forall f :: f in listing <==> f in w.dir
    ensures AfterRecover(cfg.codec, w.dir, listing, verify) ==
            if l.All() == [] then Recovery(OK, None, []) else ReadSegments(cfg, l.All(), EMPTY_STORE, [])
  {
    var segs, m := l.All(), Wals(listing, map[]);
    WalsAreTheSegments(w.dir, listing, cfg, segs);
    if segs == [] {
      assert m == map[];
    } else {
      assert 1 in m;
      ReadTail(cfg, w.dir, segs, 0, m, verify, EMPTY_STORE, []);
      assert segs[0..] == segs;
    }
  }

  // ---------------------------------------------------------------------------------------
  // Intact batches give everything back
  // ---------------------------------------------------------------------------------------

  lemma {:induction false} IntactBatchReads(cfg: Config, b: Batch)
    requires cfg.codec.Lawful() && Narrow(cfg, b) && IntactBatch(cfg, b)
    ensures ReadRecords(cfg.codec, BatchData(cfg, b)) == Reading(Records(b), OK)
  {
    SizeAccounting(cfg, b);
    RecordsRoundTrip(cfg.codec, Records(b));
    var all := RecordsBytes(cfg.codec, Records(b));
    assert all[..|all|] == all;
  }

  lemma {:induction false} IntactBatchesRead(cfg: Config, bs: seq<Batch>)
    requires cfg.codec.Lawful() && AllNarrow(cfg, bs) && Intact(cfg, bs)
    ensures ReadDatas(cfg.codec, BatchDatas(cfg, bs)) == Reading(BatchRecords(bs), OK)
  {
    if bs != [] {
      IntactBatchReads(cfg, bs[0]);
      assert BatchDatas(cfg, bs)[1..] == BatchDatas(cfg, bs[1..]);
      IntactBatchesRead(cfg, bs[1..]);
    }
  }

  ghost predicate AllIntact(cfg: Config, segs: seq<Segment>) {
    forall i :: 0 <= i < |segs| ==> Intact(cfg, segs[i].batches)
  }

  ghost predicate SegmentsNarrow(cfg: Config, segs: seq<Segment>) {
    forall i :: 0 <= i < |segs| ==> AllNarrow(cfg, segs[i].batches)
  }

  lemma {:induction false} IntactSegmentsRead(cfg: Config, segs: seq<Segment>, store: Store, files: seq<Meta>)
    requires cfg.codec.Lawful() && SegmentsNarrow(cfg, segs) && AllIntact(cfg, segs)
    ensures var r := ReadSegments(cfg, segs, store, files);
            r.status == OK && r.store == Some(Replay(store, History(segs)))
    decreases |segs|
  {
    if segs != [] {
      var s := segs[0];
      IntactBatchesRead(cfg, s.batches);
      ReplayConcat(store, BatchRecords(s.batches), History(segs[1..]));
      IntactSegmentsRead(cfg, segs[1..], Replay(store, BatchRecords(s.batches)), files + [Meta("", Count(s.batches))]);
    }
  }

  /** The metadata rebuilt by the reader: the number of entries it found in each segment. */
  function Metas(cfg: Config, segs: seq<Segment>): (ms: seq<Meta>)
    ensures |ms| == |segs|
  {
    if segs == [] then []
    else [Meta("", |Entries(ReadDatas(cfg.codec, BatchDatas(cfg, segs[0].batches)).applied)|)] + Metas(cfg, segs[1..])
  }

  lemma {:induction false} ReadSegmentsFiles(cfg: Config, segs: seq<Segment>, store: Store, files: seq<Meta>)
    requires ReadSegments(cfg, segs, store, files).status == OK
    ensures ReadSegments(cfg, segs, store, files).files == files + Metas(cfg, segs)
    decreases |segs|
  {
    if segs == [] {
      assert files + Metas(cfg, segs) == files;
    } else {
      var r := ReadDatas(cfg.codec, BatchDatas(cfg, segs[0].batches));
      var meta := [Meta("", |Entries(r.applied)|)];
      ReadSegmentsFiles(cfg, segs[1..], Replay(store, r.applied), files + meta);
      Assoc(files, meta, Metas(cfg, segs[1..]));
    }
  }

  // ---------------------------------------------------------------------------------------
  // A batch that lost bytes is rejected, or loses an entry
  // ---------------------------------------------------------------------------------------

  /** Reading either fails or yields at most `most` entries. */
  ghost predicate AtMost(r: Reading, most: int) {
    r.status == OK ==> |Entries(r.applied)| <= most
  }

  lemma {:induction false} EntriesLess(b: Batch, n: nat)
    requires 0 < n < |Records(b)|
    ensures |Entries(Records(b)[..n])| < |b.entries|
  {
    var h := HardStateRecords(b.hs);
    if n >= |h| {
      var b' := Batch(b.hs, b.entries[..n - |h|]);
      assert Records(b)[..n] == Records(b');
      EntriesOfBatch(b');
    }
  }

  lemma {:induction false} TornBatchLoses(cfg: Config, b: Batch)
    requires cfg.codec.Lawful() && Narrow(cfg, b) && !IntactBatch(cfg, b)
    ensures AtMost(ReadRecords(cfg.codec, BatchData(cfg, b)), |b.entries| - 1)
  {
    SizeAccounting(cfg, b);
    var k := DataSize(cfg, b);
    CutRecords(cfg.codec, Records(b), k);
    var r := ReadRecords(cfg.codec, BatchData(cfg, b));
    if r.status == OK {
      assert r.applied != [] by { assert k > 0 && RecordsBytes(cfg.codec, []) == []; }
      EntriesLess(b, |r.applied|);
    }
  }

  lemma {:induction false} BatchesAtMost(cfg: Config, bs: seq<Batch>)
    requires cfg.codec.Lawful() && AllNarrow(cfg, bs)
    ensures AtMost(ReadDatas(cfg.codec, BatchDatas(cfg, bs)), Count(bs) - if Intact(cfg, bs) then 0 else 1)
  {
    if bs != [] {
      assert Narrow(cfg, bs[0]);
      BatchAtMost(cfg, bs[0]);
      assert BatchDatas(cfg, bs)[1..] == BatchDatas(cfg, bs[1..]);
      BatchesAtMost(cfg, bs[1..]);
      var r, rest := ReadRecords(cfg.codec, BatchData(cfg, bs[0])), ReadDatas(cfg.codec, BatchDatas(cfg, bs[1..]));
      EntriesConcat(r.applied, rest.applied);
      CountCons(bs);
      IntactCons(cfg, bs);
    }
  }

  lemma {:induction false} BatchAtMost(cfg: Config, b: Batch)
    requires cfg.codec.Lawful() && Narrow(cfg, b)
    ensures AtMost(ReadRecords(cfg.codec, BatchData(cfg, b)), |b.entries| - if IntactBatch(cfg, b) then 0 else 1)
  {
    if IntactBatch(cfg, b) {
      IntactBatchReads(cfg, b);
      EntriesOfBatch(b);
    } else {
      TornBatchLoses(cfg, b);
    }
  }

  lemma {:induction false} CountCons(bs: seq<Batch>)
    requires bs != []
    ensures Count(bs) == |bs[0].entries| + Count(bs[1..])
  {
    EntriesOfBatch(bs[0]);
    EntriesConcat(Records(bs[0]), BatchRecords(bs[1..]));
  }

  lemma {:induction false} IntactCons(cfg: Config, bs: seq<Batch>)
    requires bs != []
    ensures Intact(cfg, bs) <==> IntactBatch(cfg, bs[0]) && Intact(cfg, bs[1..])
  {
    if IntactBatch(cfg, bs[0]) && Intact(cfg, bs[1..]) {
      forall i | 0 <= i < |bs| ensures IntactBatch(cfg, bs[i]) {
        assert i > 0 ==> bs[i] == bs[1..][i - 1];
      }
    }
  }

  lemma {:induction false} TornSegmentsLose(cfg: Config, segs: seq<Segment>, store: Store, files: seq<Meta>)
    requires cfg.codec.Lawful() && SegmentsNarrow(cfg, segs)
    ensures var r := ReadSegments(cfg, segs, store, files);
            r.store.Some? && (r.status == OK ==>
              |r.store.value.entries| <= |store.entries| + |Entries(History(segs))| - if AllIntact(cfg, segs) then 0 else 1)
    decreases |segs|
  {
    if segs != [] {
      var s, r := segs[0], ReadDatas(cfg.codec, BatchDatas(cfg, segs[0].batches));
      BatchesAtMost(cfg, s.batches);
      ReplayIs(store, r.applied);
      EntriesConcat(BatchRecords(s.batches), History(segs[1..]));
      if r.status == OK {
        TornSegmentsLose(cfg, segs[1..], Replay(store, r.applied), files + [Meta("", |Entries(r.applied)|)]);
      }
      AllIntactCons(cfg, segs);
    }
  }

  lemma {:induction false} AllIntactCons(cfg: Config, segs: seq<Segment>)
    requires segs != []
    ensures AllIntact(cfg, segs) <==> Intact(cfg, segs[0].batches) && AllIntact(cfg, segs[1..])
  {
    if Intact(cfg, segs[0].batches) && AllIntact(cfg, segs[1..]) {
      forall i | 0 <= i < |segs| ensures Intact(cfg, segs[i].batches) {
        assert i > 0 ==> segs[i] == segs[1..][i - 1];
      }
    }
  }

  /** The count rebuilt for a segment that was read is the writer's exactly when no batch is torn. */
  lemma {:induction false} MetasAt(cfg: Config, segs: seq<Segment>, i: nat)
    requires cfg.codec.Lawful() && SegmentsNarrow(cfg, segs) && i < |segs|
    requires ReadDatas(cfg.codec, BatchDatas(cfg, segs[i].batches)).status == OK
    ensures Metas(cfg, segs)[i].numEntries <= Count(segs[i].batches)
    ensures Metas(cfg, segs)[i].numEntries == Count(segs[i].batches) <==> Intact(cfg, segs[i].batches)
  {
    if i > 0 {
      MetasAt(cfg, segs[1..], i - 1);
    } else {
      BatchesAtMost(cfg, segs[0].batches);
      if Intact(cfg, segs[0].batches) {
        IntactBatchesRead(cfg, segs[0].batches);
      }
    }
  }

  /** Recovery reports OK only if every segment was read to its end. */
  lemma {:induction false} AllRead(cfg: Config, segs: seq<Segment>, store: Store, files: seq<Meta>, i: nat)
    requires ReadSegments(cfg, segs, store, files).status == OK && i < |segs|
    ensures ReadDatas(cfg.codec, BatchDatas(cfg, segs[i].batches)).status == OK
    decreases |segs|
  {
    if i > 0 {
      var r := ReadDatas(cfg.codec, BatchDatas(cfg, segs[0].batches));
      AllRead(cfg, segs[1..], Replay(store, r.applied), files + [Meta("", |Entries(r.applied)|)], i - 1);
    }
  }

  // ---------------------------------------------------------------------------------------
  // The status of recovery
  // ---------------------------------------------------------------------------------------

  /** Every hard state is under 128 bytes: its length prefix is one byte. */
  ghost predicate ShortHardStates(c: Codec, rs: seq<Record>) {
    forall i :: 0 <= i < |rs| && rs[i].HardStateRecord? ==> |c.hardStateWire(rs[i].hs)| < 128
  }

  lemma {:induction false} ShortHardStatesConcat(c: Codec, a: seq<Record>, b: seq<Record>)
    requires ShortHardStates(c, a + b)
    ensures ShortHardStates(c, a) && ShortHardStates(c, b)
  {
    assert forall i :: 0 <= i < |a| ==> a[i] == (a + b)[i];
    assert forall i :: 0 <= i < |b| ==> b[i] == (a + b)[|a| + i];
  }

  lemma {:induction false} TwoBytesEach(c: Codec, rs: seq<Record>, n: nat)
    requires n < |rs|
    ensures |RecordsBytes(c, rs[..n])| + 2 <= |RecordsBytes(c, rs)|
  {
    if n > 0 {
      TwoBytesEach(c, rs[1..], n - 1);
      assert rs[..n][1..] == rs[1..][..n - 1];
    }
  }

  /** A batch that lost the one byte of a short hard state's length prefix is a bad record. */
  lemma {:induction false} TornBatchRejected(cfg: Config, b: Batch)
    requires cfg.codec.Lawful() && Narrow(cfg, b) && !IntactBatch(cfg, b) && ShortHardStates(cfg.codec, Records(b))
    ensures ReadRecords(cfg.codec, BatchData(cfg, b)).status == Corruption(BadRecord)
  {
    assert Records(b)[0] == HardStateRecord(b.hs.value);
    SizeAccounting(cfg, b);
    CutRecords(cfg.codec, Records(b), DataSize(cfg, b));
    var r := ReadRecords(cfg.codec, BatchData(cfg, b));
    if r.status == OK {
      TwoBytesEach(cfg.codec, Records(b), |r.applied|);
    }
  }

  lemma {:induction false} BatchesStatus(cfg: Config, bs: seq<Batch>)
    requires cfg.codec.Lawful() && AllNarrow(cfg, bs) && ShortHardStates(cfg.codec, BatchRecords(bs))
    ensures ReadDatas(cfg.codec, BatchDatas(cfg, bs)).status == if Intact(cfg, bs) then OK else Corruption(BadRecord)
  {
    if bs != [] {
      assert Narrow(cfg, bs[0]);
      ShortHardStatesConcat(cfg.codec, Records(bs[0]), BatchRecords(bs[1..]));
      if IntactBatch(cfg, bs[0]) {
        IntactBatchReads(cfg, bs[0]);
      } else {
        TornBatchRejected(cfg, bs[0]);
      }
      assert BatchDatas(cfg, bs)[1..] == BatchDatas(cfg, bs[1..]);
      BatchesStatus(cfg, bs[1..]);
      IntactCons(cfg, bs);
    }
  }

  /** With short hard states a torn batch anywhere makes recovery fail, as a bad record. */
  lemma {:induction false} SegmentsStatus(cfg: Config, segs: seq<Segment>, store: Store, files: seq<Meta>)
    requires cfg.codec.Lawful() && SegmentsNarrow(cfg, segs) && ShortHardStates(cfg.codec, History(segs))
    ensures ReadSegments(cfg, segs, store, files).status == if AllIntact(cfg, segs) then OK else Corruption(BadRecord)
    decreases |segs|
  {
    if segs != [] {
      var r := ReadDatas(cfg.codec, BatchDatas(cfg, segs[0].batches));
      ShortHardStatesConcat(cfg.codec, BatchRecords(segs[0].batches), History(segs[1..]));
      BatchesStatus(cfg, segs[0].batches);
      SegmentsStatus(cfg, segs[1..], Replay(store, r.applied), files + [Meta("", |Entries(r.applied)|)]);
      AllIntactCons(cfg, segs);
    }
  }

  // ---------------------------------------------------------------------------------------
  // Exactly when recovery gives back what was written
  // ---------------------------------------------------------------------------------------

  /** Recovery succeeds with exactly the records rs: their entries in order, the last hard state. */
  predicate Restores(r: Recovery, rs: seq<Record>) {
    && r.status == OK
    && r.store == if rs == [] then None else Some(Store(Entries(rs), LastHardState(NO_HARD_STATE, rs)))
  }

  lemma {:induction false} StoredIsNarrow(cfg: Config, dir: map<string, bytes>, segs: seq<Segment>)
    requires AllStored(cfg, dir, segs)
    ensures SegmentsNarrow(cfg, segs)
    ensures History(segs) == [] <==> segs == []
  {
    forall i | 0 <= i < |segs| ensures AllNarrow(cfg, segs[i].batches) {
      assert StoredAt(cfg, dir, segs, i);
    }
    if segs != [] {
      assert StoredAt(cfg, dir, segs, 0) && Started(segs[0]);
      assert BatchRecords(segs[0].batches) != [];
    }
  }

  /** Recovery restores the history exactly when every batch is intact. */
  lemma {:induction false} RecoverRestores(cfg: Config, w: Wal, l: Layout, listing: seq<string>, verify: bool)
    requires cfg.codec.Lawful() && Holds(cfg, w, l) && forall f :: f in listing <==> f in w.dir
    ensures var r := AfterRecover(cfg.codec, w.dir, listing, verify);
            Restores(r, History(l.All())) <==> AllIntact(cfg, l.All())
  {
    var segs := l.All();
    StoredIsNarrow(cfg, w.dir, segs);
    RecoverReadsSegments(cfg, w, l, listing, verify);
    ReplayIs(EMPTY_STORE, History(segs));
    if AllIntact(cfg, segs) {
      IntactSegmentsRead(cfg, segs, EMPTY_STORE, []);
      assert [] + Entries(History(segs)) == Entries(History(segs));
    } else {
      TornSegmentsLose(cfg, segs, EMPTY_STORE, []);
    }
  }

  /** With hard states under 128 bytes the status of recovery says which it is. */
  lemma {:induction false} RecoverStatus(cfg: Config, w: Wal, l: Layout, listing: seq<string>, verify: bool)
    requires cfg.codec.Lawful() && Holds(cfg, w, l) && forall f :: f in listing <==> f in w.dir
    requires ShortHardStates(cfg.codec, History(l.All()))
    ensures AfterRecover(cfg.codec, w.dir, listing, verify).status ==
            if AllIntact(cfg, l.All()) then OK else Corruption(BadRecord)
  {
    StoredIsNarrow(cfg, w.dir, l.All());
    RecoverReadsSegments(cfg, w, l, listing, verify);
    SegmentsStatus(cfg, l.All(), EMPTY_STORE, []);
  }

  // ---------------------------------------------------------------------------------------
  // Intactness, from the records alone
  // ---------------------------------------------------------------------------------------

  /** No hard state among the records. */
  ghost predicate NoHardState(rs: seq<Record>) {
    forall i :: 0 <= i < |rs| ==> rs[i].EntryRecord?
  }

  /** The batches of these records lost no bytes. */
  ghost predicate IntactRecords(cfg: Config, rs: seq<Record>) {
    cfg.build.countsHardStateLength || NoHardState(rs)
  }

  lemma {:induction false} NoHardStateConcat(a: seq<Record>, b: seq<Record>)
    ensures NoHardState(a + b) <==> NoHardState(a) && NoHardState(b)
  {
    if NoHardState(a + b) {
      assert forall i :: 0 <= i < |a| ==> a[i] == (a + b)[i];
      assert forall i :: 0 <= i < |b| ==> b[i] == (a + b)[|a| + i];
    }
  }

  lemma {:induction false} NoHardStateBatch(b: Batch)
    ensures NoHardState(Records(b)) <==> b.hs.None?
  {
    if b.hs.Some? {
      assert Records(b)[0] == HardStateRecord(b.hs.value);
    }
  }

  lemma {:induction false} IntactIff(cfg: Config, bs: seq<Batch>)
    ensures Intact(cfg, bs) <==> IntactRecords(cfg, BatchRecords(bs))
  {
    if bs != [] {
      IntactIff(cfg, bs[1..]);
      IntactCons(cfg, bs);
      NoHardStateBatch(bs[0]);
      NoHardStateConcat(Records(bs[0]), BatchRecords(bs[1..]));
    }
  }

  lemma {:induction false} AllIntactIff(cfg: Config, segs: seq<Segment>)
    ensures AllIntact(cfg, segs) <==> IntactRecords(cfg, History(segs))
  {
    if segs != [] {
      IntactIff(cfg, segs[0].batches);
      AllIntactIff(cfg, segs[1..]);
      AllIntactCons(cfg, segs);
      NoHardStateConcat(BatchRecords(segs[0].batches), History(segs[1..]));
    }
  }
}
