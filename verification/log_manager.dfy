/**
 The log manager: writing with segment rollover, and recovery (src/wal/log_manager.h,
 src/wal/log_manager.cc, `LogWriter::New` and `Finish` in src/wal/log_writer.h).

 The functions give the value of the manager after each operation; the class below refines
 them.  File names are relative to the log directory.
 */
module LogManagement {
  import opened Coding
  import opened WalFormat
  import opened WalReader
  import opened LogWriting
  import opened SegmentName

  /** SegmentMetaData */
  datatype Meta = Meta(fileName: string, numEntries: nat)

  /** The open segment. */
  datatype Writer = Writer(fname: string, numEntries: nat, empty: bool)

  datatype Wal = Wal(dir: map<string, bytes>, files: seq<Meta>, current: Option<Writer>, lastIndex: nat)
  {
    function SegmentNum(): nat {
      |files| + (if current.Some? then 1 else 0)
    }

    /** The open segment's file exists. */
    predicate Sound() {
      current.Some? ==> current.value.fname in dir
    }

    /** The name LogWriter::New gives to the next segment. */
    function NextName(): string {
      SegmentFileName(|files| + 1, lastIndex + 1)
    }
  }

  // ---------------------------------------------------------------------------------------
  // Writing
  // ---------------------------------------------------------------------------------------

  /** LogWriter::New: a new, empty file for the next segment. */
  function Opened(w: Wal): (r: Wal)
    ensures r.current.Some? && r.Sound()
  {
    if w.current.Some? && w.Sound() then w
    else w.(dir := w.dir[w.NextName() := []], current := Some(Writer(w.NextName(), 0, true)))
  }

  /** The batch LogWriter::Append adds to the open segment. */
  function NextBatch(cfg: Config, w: Wal, es: seq<Entry>, hs: Option<HardState>): Batch
    requires w.Sound() && w.current.Some?
  {
    AppendedBatch(cfg, w.dir[w.current.value.fname], w.current.value.empty, es, hs)
  }

  function AfterAppend(cfg: Config, w: Wal, es: seq<Entry>, hs: Option<HardState>): (r: Wal)
    requires w.Sound() && w.current.Some?
    ensures r.current.Some? && r.Sound()
  {
    var Writer(fname, count, empty) := w.current.value;
    w.(dir := w.dir[fname := AppendedFile(cfg, w.dir[fname], empty, es, hs)],
       current := Some(Writer(fname, count + |NextBatch(cfg, w, es, hs).entries|, false)))
  }

  function AfterClose(w: Wal): Wal {
    if w.current.None? then w
    else w.(files := w.files + [Meta(w.current.value.fname, w.current.value.numEntries)], current := None)
  }

  datatype Iteration = Failed | Done(w: Wal) | More(w: Wal, rest: seq<Entry>)

  function LastIndexAfter(lastIndex: nat, accepted: seq<Entry>): nat {
    if accepted == [] then lastIndex else accepted[|accepted| - 1].index
  }

  /** One iteration of the loop of doWrite: open a segment if none is, append, finish if full. */
  function Iterate(cfg: Config, w: Wal, es: seq<Entry>, hs: Option<HardState>): (r: Iteration)
    requires w.Sound()
    ensures r.Done? ==> r.w.Sound()
    ensures r.More? ==> r.w.current.None? && r.rest == es[|NextBatch(cfg, Opened(w), es, hs).entries|..]
  {
    if w.current.None? && w.NextName() in w.dir then Failed
    else
      var accepted := NextBatch(cfg, Opened(w), es, hs).entries;
      var w' := AfterAppend(cfg, Opened(w), es, hs);
      if |accepted| == |es| then Done(w')
      else More(AfterClose(w').(lastIndex := LastIndexAfter(w.lastIndex, accepted)), es[|accepted|..])
  }

  /** The segment sizes with which a fresh segment takes at least one entry. */
  predicate Usable(cfg: Config) {
    || cfg.segmentSize > |MAGIC| + BATCH_HEADER_SIZE
    || (cfg.segmentSize < |MAGIC| && !cfg.build.signedRemains)
  }

  lemma {:induction false} FreshAccepts(cfg: Config, es: seq<Entry>)
    requires es != []
    ensures Usable(cfg) <==> |AppendedBatch(cfg, [], true, es, None).entries| > 0
  {
    assert [] + MAGIC == MAGIC;
  }

  lemma {:induction false} AcceptsAll(cfg: Config, remains: int, total: nat, es: seq<Entry>)
    requires !cfg.build.signedRemains && remains < 0
    requires total + EntriesSize(cfg.codec, es) < TWO_64 + remains
    ensures Accept(cfg, remains, total, es) == |es|
    decreases |es|
  {
    if es != [] {
      AcceptsAll(cfg, remains, total + EntrySize(cfg.codec, es[0]), es[1..]);
    }
  }

  /** As compiled, an open file over the limit takes all entries (for sizes a 64-bit number holds). */
  predicate TakesAll(cfg: Config, w: Wal, es: seq<Entry>, hs: Option<HardState>) {
    && !cfg.build.signedRemains && w.Sound() && w.current.Some? && !w.current.value.empty
    && var size := |w.dir[w.current.value.fname]|;
       cfg.segmentSize < size && size + BATCH_HEADER_SIZE + DataSize(cfg, Batch(hs, es)) < TWO_64
  }

  lemma {:induction false} TakenAtOnce(cfg: Config, w: Wal, es: seq<Entry>, hs: Option<HardState>)
    ensures TakesAll(cfg, w, es, hs) ==> Iterate(cfg, w, es, hs) == Done(AfterAppend(cfg, w, es, hs))
  {
    if TakesAll(cfg, w, es, hs) {
      var size := |w.dir[w.current.value.fname]|;
      AcceptsAll(cfg, cfg.segmentSize - size, BATCH_HEADER_SIZE + HardStateSize(cfg, hs), es);
    }
  }

  /** The loop of doWrite ends. */
  predicate WriteEnds(cfg: Config, w: Wal, es: seq<Entry>, hs: Option<HardState>) {
    Usable(cfg) || TakesAll(cfg, w, es, hs)
  }

  /** doWrite; None is the error of a segment file that exists already. */
  function AfterDoWrite(cfg: Config, w: Wal, es: seq<Entry>, hs: Option<HardState>): (r: Option<Wal>)
    requires WriteEnds(cfg, w, es, hs) && w.Sound() && es != []
    ensures r.Some? ==> r.value.Sound()
    decreases |es|, w.current.Some? || hs.Some?
  {
    FreshAccepts(cfg, es);
    TakenAtOnce(cfg, w, es, hs);
    match Iterate(cfg, w, es, hs)
    case Failed => None
    case Done(w') => Some(w')
    case More(w', rest) => AfterDoWrite(cfg, w', rest, None)
  }

  /** Without an open segment, a file of the next name makes the write fail. */
  lemma CollisionFails(cfg: Config, w: Wal, es: seq<Entry>, hs: Option<HardState>)
    requires Usable(cfg) && es != [] && w.current.None? && SegmentFileName(|w.files| + 1, w.lastIndex + 1) in w.dir
    ensures AfterDoWrite(cfg, w, es, hs).None?
  {
  }

  function AfterWrite(cfg: Config, w: Wal, es: seq<Entry>, hs: Option<HardState>): (r: Option<Wal>)
    requires w.Sound() && (es != [] ==> WriteEnds(cfg, w, es, hs))
    ensures r.Some? ==> r.value.Sound()
  {
    if es == [] then Some(w) else AfterDoWrite(cfg, w, es, hs)
  }

  // ---------------------------------------------------------------------------------------
  // Recovery
  // ---------------------------------------------------------------------------------------

  datatype Recovery = Recovery(status: Status, store: Option<Store>, files: seq<Meta>)

  /** The map from segment id to start built from the directory listing. */
  function Wals(listing: seq<string>, acc: map<nat, nat>): map<nat, nat>
    decreases |listing|
  {
    if listing == [] then acc
    else
      var f := listing[0];
      var parsed := ParseWalName(f);
      Wals(listing[1..], if IsWal(f) && parsed.Some? then acc[parsed.value.0 := parsed.value.1] else acc)
  }

  lemma {:induction false} LeastExists(s: set<nat>, b: nat)
    requires b in s
    ensures exists k :: k in s && forall j :: j in s ==> k <= j
    decreases b
  {
    if j :| j in s && j < b {
      LeastExists(s, j);
    }
  }

  /** std::map iterates in key order. */
  function Least(s: set<nat>): (k: nat)
    requires s != {}
    ensures k in s && forall j :: j in s ==> k <= j
  {
    assert exists k :: k in s && forall j :: j in s ==> k <= j by {
      var b :| b in s;
      LeastExists(s, b);
    }
    var k :| k in s && forall j :: j in s ==> k <= j;
    k
  }

  /** Reads the segments of `wals` in ascending id order. */
  function ReadWals(c: Codec, dir: map<string, bytes>, wals: map<nat, nat>, verify: bool,
                    store: Store, files: seq<Meta>): Recovery
    decreases |wals|
  {
    if wals == map[] then Recovery(OK, Some(store), files)
    else
      var id := Least(wals.Keys);
      var fname := SegmentFileName(id, wals[id]);
      if fname !in dir then Recovery(IOError, Some(store), files)
      else
        var r := ReadSegment(c, dir[fname], verify);
        var store' := Replay(store, r.applied);
        if r.status != OK then Recovery(r.status, Some(store'), files)
        else
          assert wals.Keys - {id} < wals.Keys;
          ReadWals(c, dir, wals - {id}, verify, store', files + [Meta("", |Entries(r.applied)|)])
  }

  function AfterRecover(c: Codec, dir: map<string, bytes>, listing: seq<string>, verify: bool): Recovery {
    var wals := Wals(listing, map[]);
    if wals == map[] then Recovery(OK, None, []) else ReadWals(c, dir, wals, verify, EMPTY_STORE, [])
  }

  /** A listed segment whose file is not there is an error, and nothing is read. */
  lemma MissingFile(c: Codec, dir: map<string, bytes>, id: nat, start: nat, verify: bool)
    requires SegmentFileName(id, start) !in dir
    ensures AfterRecover(c, dir, [SegmentFileName(id, start)], verify) == Recovery(IOError, Some(EMPTY_STORE), [])
  {
    var f := SegmentFileName(id, start);
    NameRoundTrip(id, start);
    var wals: map<nat, nat> := map[id := start];
    assert [f][1..] == [] && Wals([f], map[]) == wals;
    assert id in wals.Keys && Least(wals.Keys) in wals.Keys;
  }

  // ---------------------------------------------------------------------------------------
  // The manager
  // ---------------------------------------------------------------------------------------

  class LogManager {
    const cfg: Config
    const disk: Disk
    var current: LogWriter?
    var files: seq<Meta>
    var lastIndex: nat

    constructor (cfg: Config, disk: Disk)
      ensures this.cfg == cfg && this.disk == disk && Valid()
      ensures Value() == Wal(disk.files, [], None, 0)
    {
      this.cfg, this.disk := cfg, disk;
      current, files, lastIndex := null, [], 0;
    }

    ghost predicate Valid()
      reads this, disk, current
    {
      current != null ==> Linked() && !current.empty
    }

    /** There is an open segment, of this manager. */
    ghost predicate Linked()
      reads this, disk, current
    {
      current != null && current.cfg == cfg && current.disk == disk && current.fname in disk.files
    }

    function Value(): (w: Wal)
      reads this, disk, current
    {
      Wal(disk.files, files,
          if current == null then None else Some(Writer(current.fname, current.numEntries, current.empty)), lastIndex)
    }

    function SegmentNum(): (n: nat)
      reads this, disk, current
      ensures n == Value().SegmentNum()
    {
      |files| + (if current == null then 0 else 1)
    }

    method FinishCurrentWriter()
      requires Valid() && current != null
      modifies this`files, this`current
      ensures Valid() && Value() == AfterClose(old(Value()))
      ensures current == null && files == old(files) + [Meta(old(current.fname), old(current.numEntries))]
    {
      files := files + [Meta(current.fname, current.numEntries)];
      current := null;
    }

    method Close()
      requires Valid()
      modifies this`files, this`current
      ensures Valid() && Value() == AfterClose(old(Value()))
    {
      if current != null {
        FinishCurrentWriter();
      }
    }

    /** LogWriter::New: fails when the file exists. */
    method NewWriter() returns (ok: bool)
      requires Valid() && current == null
      modifies this`current, disk
      ensures ok <==> old(Value().NextName() !in disk.files)
      ensures !ok ==> Valid() && Value() == old(Value())
      ensures ok ==> Linked() && fresh(current) && Value() == Opened(old(Value()))
      ensures ok ==> current.fname == SegmentFileName(|files| + 1, lastIndex + 1)
                     && disk.files == old(disk.files)[current.fname := []] && current.numEntries == 0 && current.empty
    {
      var fname := SegmentFileName(|files| + 1, lastIndex + 1);
      if fname in disk.files {
        return false;
      }
      disk.files := disk.files[fname := []];
      current := new LogWriter(cfg, disk, fname);
      return true;
    }

    method AppendToCurrent(entries: seq<Entry>, begin: nat, hs: Option<HardState>) returns (it: nat)
      requires Linked() && begin <= |entries|
      requires Small(cfg.codec, Records(Batch(hs, entries)))
      modifies current, disk
      ensures Valid() && Value() == AfterAppend(cfg, old(Value()), entries[begin..], hs)
      ensures it == begin + |NextBatch(cfg, old(Value()), entries[begin..], hs).entries|
    {
      it := current.Append(entries, begin, hs);
    }

    /** One iteration of doWrite, from the entry at `begin` on. */
    method WriteOnce(entries: seq<Entry>, begin: nat, hs: Option<HardState>) returns (ok: bool, it: nat)
      requires Valid() && begin < |entries|
      requires Small(cfg.codec, Records(Batch(hs, entries)))
      modifies this, disk, current
      ensures Valid() && (current == null || current == old(current) || fresh(current))
      ensures begin <= it <= |entries|
      ensures var r := old(Iterate(cfg, Value(), entries[begin..], hs));
              && ok == !r.Failed?
              && (ok ==> Value() == r.w && (it == |entries| <==> r.Done?))
              && (r.More? ==> entries[it..] == r.rest)
      ensures old(current == null && SegmentFileName(|files| + 1, lastIndex + 1) in disk.files) ==>
                !ok && Value() == old(Value())
    {
      ghost var w, es := Value(), entries[begin..];
      it := begin;
      if current == null {
        ok := NewWriter();
        if !ok {
          return;
        }
      }
      ok := true;
      assert Linked() && Value() == Opened(w);
      it := AppendToCurrent(entries, begin, hs);
      ghost var accepted := NextBatch(cfg, Opened(w), es, hs).entries;
      assert it == begin + |accepted| && Value() == AfterAppend(cfg, Opened(w), es, hs);
      if it == |entries| {
        return;
      }
      assert entries[it..] == es[|accepted|..] && entries[begin..it] == accepted;
      RollOver(entries, begin, it);
    }

    /** The segment is full: it ends with the last entry it took, if any. */
    method RollOver(entries: seq<Entry>, begin: nat, it: nat)
      requires Valid() && current != null && begin <= it <= |entries|
      modifies this`files, this`current, this`lastIndex
      ensures Valid() && current == null
      ensures lastIndex == if it > begin then entries[it - 1].index else old(lastIndex)
      ensures Value() == AfterClose(old(Value())).(lastIndex := LastIndexAfter(old(lastIndex), entries[begin..it]))
    {
      if it > begin {
        lastIndex := entries[it - 1].index;
        assert entries[it - 1] == entries[begin..it][it - begin - 1];
      }
      FinishCurrentWriter();
    }

    method DoWrite(entries: seq<Entry>, hs: Option<HardState>) returns (ok: bool)
      requires Valid() && entries != [] && WriteEnds(cfg, Value(), entries, hs)
      requires Small(cfg.codec, Records(Batch(hs, entries)))
      modifies this, disk, current
      ensures Valid()
      ensures var r := old(AfterDoWrite(cfg, Value(), entries, hs));
              ok == r.Some? && (ok ==> Value() == r.value)
    {
      var segStart, state := 0, hs;
      ghost var want := AfterDoWrite(cfg, Value(), entries, hs);
      assert entries[0..] == entries;
      while true
        invariant Valid() && (current == null || current == old(current) || fresh(current))
        invariant segStart < |entries|
        invariant Small(cfg.codec, Records(Batch(state, entries)))
        invariant WriteEnds(cfg, Value(), entries[segStart..], state)
        invariant AfterDoWrite(cfg, Value(), entries[segStart..], state) == want
        decreases |entries| - segStart, Value().current.Some? || state.Some?
      {
        FreshAccepts(cfg, entries[segStart..]);
        TakenAtOnce(cfg, Value(), entries[segStart..], state);
        var it: nat;
        ok, it := WriteOnce(entries, segStart, state);
        if !ok || it == |entries| {
          return;
        }
        SmallWithout(cfg.codec, state, entries);
        state := None;
        segStart := it;
      }
    }

    method Write(entries: seq<Entry>, hs: Option<HardState>) returns (ok: bool)
      requires Valid() && (entries != [] ==> WriteEnds(cfg, Value(), entries, hs))
      requires Small(cfg.codec, Records(Batch(hs, entries)))
      modifies this, disk, current
      ensures Valid()
      ensures var r := old(AfterWrite(cfg, Value(), entries, hs));
              ok == r.Some? && (ok ==> Value() == r.value)
    {
      if entries == [] {
        return true;
      }
      ok := DoWrite(entries, hs);
    }

    /** Opens the log directory: reads every segment into a new memory store, in id order. */
    static method Recover(cfg: Config, disk: Disk, listing: seq<string>, verify: bool)
        returns (s: Status, memstore: MemoryStorage?, m: LogManager)
      ensures fresh(m) && m.Valid() && m.cfg == cfg && m.disk == disk
      ensures memstore != null ==> fresh(memstore)
      ensures var r := AfterRecover(cfg.codec, disk.files, listing, verify);
              && s == r.status
              && r.store == (if memstore == null then None else Some(memstore.Contents()))
              && m.Value() == Wal(disk.files, r.files, None, 0)
    {
      var wals := ListWals(listing);
      m := new LogManager(cfg, disk);
      memstore := null;
      if wals == map[] {
        return OK, memstore, m;
      }
      var store := new MemoryStorage();
      memstore := store;
      while wals != map[]
        invariant fresh(m) && m.Valid() && m.cfg == cfg && m.disk == disk && fresh(store)
        invariant m.current == null && m.lastIndex == 0
        invariant ReadWals(cfg.codec, disk.files, wals, verify, store.Contents(), m.files)
               == AfterRecover(cfg.codec, disk.files, listing, verify)
        decreases |wals|
      {
        var id := Least(wals.Keys);
        var fname := SegmentFileName(id, wals[id]);
        if fname !in disk.files {
          return IOError, memstore, m;
        }
        var numEntries: nat;
        s, numEntries := ReadSegmentIntoMemoryStorage(cfg.codec, disk.files[fname], store, verify);
        if s != OK {
          return s, memstore, m;
        }
        m.files := m.files + [Meta("", numEntries)];
        assert wals.Keys - {id} < wals.Keys;
        wals := wals - {id};
      }
      return OK, memstore, m;
    }

    /** Finds all files with suffix ".wal". */
    static method ListWals(listing: seq<string>) returns (wals: map<nat, nat>)
      ensures wals == Wals(listing, map[])
    {
      wals := map[];
      var i := 0;
      assert listing[0..] == listing;
      while i < |listing|
        invariant i <= |listing|
        invariant Wals(listing[i..], wals) == Wals(listing, map[])
      {
        var f := listing[i];
        assert listing[i..][1..] == listing[i + 1..];
        if IsWal(f) {
          var parsed := ParseWalName(f);
          if parsed.Some? {
            wals := wals[parsed.value.0 := parsed.value.1];
          }
        }
        i := i + 1;
      }
    }
  }
}
