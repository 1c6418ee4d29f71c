/**
 Every interleaving of AsyncWrite, the node's own steps, and the stages of flushReady
 (src/replicated_log_impl.h, src/ready_flusher.cc, src/wal_commit_observer.cc).

 The Raft node is abstract: its log grows, its commit index never passes its last index, and a
 Ready carries what is new since the last one.  Executor tasks and flush stages are atomic
 steps, and a flush completes before the next Ready is taken.  A crash keeps the directory and
 nothing else, so a property of every state is a property of every crash point.
 */
module Replica {
  import opened Coding
  import opened WalFormat
  import opened WalReader
  import opened LogWriting
  import opened LogManagement
  import opened WalLayout
  import opened WalRecovery
  import opened WalRuns
  import opened CommitObserver
  import opened ReadyFlusher

  /** `taken` entries and the commit index `reported` have been handed out in a Ready. */
  datatype Node = Node(log: seq<Entry>, commit: nat, leads: bool, taken: nat, reported: nat)

  datatype Flight = Flight(rd: Ready, stage: nat)

  datatype State = State(
    node: Node,
    obs: Registry,
    wal: Wal,
    flight: Option<Flight>,
    // History: channels in use, those answered with an error, and the entry each writer waits for.
    used: set<Channel>, refused: multiset<Channel>, waits: map<Channel, Entry>,
    // History: records handed to the log, flushes completed, Readys whose messages were passed,
    // and the last commit index that waiters were told.
    written: seq<Record>, done: seq<Ready>, passed: seq<Ready>, told: nat)

  datatype Event =
    | AsyncWrite(ch: Channel, data: bytes, term: nat, proposed: bool, commitTo: nat)
    | Peer(more: seq<Entry>, commitTo: nat, leads: bool)
    | TakeReady(rd: Ready)
    | Flush

  /** The two choices on which the code as compiled and its intent part. */
  datatype Setup = Setup(cfg: Config, form: NotifyForm)

  function Initial(dir: map<string, bytes>): State {
    State(Node([], 0, false, 0, 0), Registry(map[], multiset{}), NewLog(dir), None,
          {}, multiset{}, map[], [], [], [], 0)
  }

  // ---------------------------------------------------------------------------------------
  // Steps
  // ---------------------------------------------------------------------------------------

  /** The task AsyncWrite submits: refuse, or propose and register for the new last index. */
  function Submit(s: State, ch: Channel, data: bytes, term: nat, proposed: bool, commitTo: nat): State {
    if !s.node.leads || !proposed then s.(used := s.used + {ch}, refused := s.refused + multiset{ch})
    else
      var index := |s.node.log| + 1;
      var e := Entry(index, term, data);
      s.(node := s.node.(log := s.node.log + [e], commit := commitTo),
         obs := AfterRegister(s.obs, (index, index), ch),
         used := s.used + {ch}, waits := s.waits[ch := e])
  }

  /** One stage of the flush in flight. */
  ghost function Stage(setup: Setup, s: State, rd: Ready, stage: nat): State
    requires Usable(setup.cfg) && s.wal.Sound()
  {
    match stage
    case 0 => if Sends(rd, true) == [] then s else s.(passed := s.passed + [rd])
    case 1 =>
      var op := Write(rd.entries, rd.hardState);
      s.(wal := Exec(setup.cfg, s.wal, op), written := s.written + Given(op))
    case 2 =>
      if rd.Commit().None? then s
      else s.(obs := AfterNotify(setup.form, s.obs, rd.Commit().value), told := rd.Commit().value)
    case 4 => if Sends(rd, false) == [] then s else s.(passed := s.passed + [rd])
    case _ => s
  }

  ghost function Next(setup: Setup, s: State, e: Event): (s': State)
    requires Usable(setup.cfg) && s.wal.Sound()
    ensures s'.wal.Sound()
  {
    match e
    case AsyncWrite(ch, data, term, proposed, commitTo) => Submit(s, ch, data, term, proposed, commitTo)
    case Peer(more, commitTo, leads) =>
      s.(node := s.node.(log := s.node.log + more, commit := commitTo, leads := leads))
    case TakeReady(rd) =>
      s.(flight := Some(Flight(rd, 0)),
         node := s.node.(taken := |s.node.log|,
                         reported := if rd.Commit().Some? then rd.Commit().value else s.node.reported))
    case Flush =>
      if s.flight.None? then s
      else
        var Flight(rd, stage) := s.flight.value;
        var s' := Stage(setup, s, rd, stage);
        if stage + 1 < STAGES then s'.(flight := Some(Flight(rd, stage + 1)))
        else s'.(flight := None, done := s.done + [rd])
  }

  /** What any flush needs: one at a time, on batches of under 2^32 bytes. */
  ghost predicate Possible(setup: Setup, s: State, e: Event)
    requires Usable(setup.cfg) && s.wal.Sound()
  {
    match e
    case TakeReady(_) => s.flight.None?
    case Flush =>
      s.flight.Some? && (s.flight.value.stage == 1 ==>
        LegalOp(setup.cfg, s.wal, Write(s.flight.value.rd.entries, s.flight.value.rd.hardState)))
    case _ => true
  }

  /** The entries follow on from the log. */
  ghost predicate Follows(log: seq<Entry>, more: seq<Entry>) {
    forall i :: 0 <= i < |more| ==> more[i].index == |log| + i + 1
  }

  /** What the node guarantees: a fresh channel, a monotone commit within the log, an exact Ready. */
  ghost predicate FromNode(s: State, e: Event) {
    match e
    case AsyncWrite(ch, _, _, _, commitTo) =>
      ch !in s.used && s.node.commit <= commitTo <= |s.node.log| + 1
    case Peer(more, commitTo, _) =>
      Follows(s.node.log, more) && s.node.commit <= commitTo <= |s.node.log| + |more|
    case TakeReady(rd) =>
      && s.node.taken <= |s.node.log| && rd.entries == s.node.log[s.node.taken..]
      && rd.leads == s.node.leads
      && (rd.hardState.Some? ==> rd.hardState.value.commit == Some(s.node.commit))
      && (s.node.reported < s.node.commit ==> rd.hardState.Some?)
    case Flush => true
  }

  ghost function StateAfter(setup: Setup, s: State, es: seq<Event>): (s': State)
    requires Usable(setup.cfg) && s.wal.Sound()
    ensures s'.wal.Sound()
    decreases |es|
  {
    if es == [] then s else StateAfter(setup, Next(setup, s, es[0]), es[1..])
  }

  ghost predicate AllPossible(setup: Setup, s: State, es: seq<Event>)
    requires Usable(setup.cfg) && s.wal.Sound()
    decreases |es|
  {
    es == [] || (Possible(setup, s, es[0]) && AllPossible(setup, Next(setup, s, es[0]), es[1..]))
  }

  ghost predicate AllFromNode(setup: Setup, s: State, es: seq<Event>)
    requires Usable(setup.cfg) && s.wal.Sound()
    decreases |es|
  {
    es == [] || (FromNode(s, es[0]) && AllFromNode(setup, Next(setup, s, es[0]), es[1..]))
  }

  /** The node as the executor's tasks see it. */
  class RawNode {
    var log: seq<Entry>
    var commit: nat
    var leads: bool

    constructor ()
      ensures log == [] && commit == 0 && !leads
    {
      log, commit, leads := [], 0, false;
    }

    /** Propose: appends at the last index; `ok` and `commitTo` are the node's own doing. */
    method Propose(data: bytes, term: nat, ok: bool, commitTo: nat) returns (newIndex: nat)
      modifies this
      ensures leads == old(leads) && newIndex == |log|
      ensures if ok then log == old(log) + [Entry(|old(log)| + 1, term, data)] && commit == commitTo
              else log == old(log) && commit == old(commit)
    {
      if ok {
        log, commit := log + [Entry(|log| + 1, term, data)], commitTo;
      }
      newIndex := |log|;
    }
  }

  /** The state has this node and this registry. */
  ghost predicate Sees(s: State, node: RawNode, observer: WalCommitObserver)
    reads node, observer
  {
    s.node.log == node.log && s.node.commit == node.commit && s.node.leads == node.leads && s.obs == observer.Value()
  }

  /** The task of AsyncWrite takes every state that sees its objects to the state after Submit. */
  method AsyncWriteTask(node: RawNode, observer: WalCommitObserver, ch: Channel, data: bytes, term: nat,
                        proposed: bool, commitTo: nat)
      returns (refused: bool)
    modifies node, observer
    ensures forall s: State :: old(Sees(s, node, observer)) ==>
              var s' := Submit(s, ch, data, term, proposed, commitTo);
              Sees(s', node, observer) && (refused ==> s'.refused == s.refused + multiset{ch})
              && (!refused ==> s'.refused == s.refused && ch in s'.waits)
    ensures refused <==> !old(node.leads) || !proposed
    ensures refused ==>
              node.log == old(node.log) && node.commit == old(node.commit) && observer.Value() == old(observer.Value())
    ensures !refused ==>
              && node.log == old(node.log) + [Entry(|old(node.log)| + 1, term, data)] && node.commit == commitTo
              && observer.signalled == old(observer.signalled)
              && var range := (|node.log|, |node.log|);
                 range !in old(observer.writes) ==> observer.writes == old(observer.writes)[range := ch]
  {
    if !node.leads {
      return true;
    }
    var newIndex := node.Propose(data, term, proposed, commitTo);
    if !proposed {
      return true;
    }
    observer.Register((newIndex, newIndex), ch);
    return false;
  }

  /** The five stages in a row are what one flushReady does. */
  lemma {:induction false} FiveStages(setup: Setup, s: State, rd: Ready)
    requires Usable(setup.cfg) && s.wal.Sound() && s.flight == Some(Flight(rd, 0))
    ensures StateAfter(setup, s, [Flush, Flush, Flush, Flush, Flush]) ==
            s.(wal := Exec(setup.cfg, s.wal, Write(rd.entries, rd.hardState)),
               written := s.written + Given(Write(rd.entries, rd.hardState)),
               obs := if rd.Commit().None? then s.obs else AfterNotify(setup.form, s.obs, rd.Commit().value),
               told := if rd.Commit().None? then s.told else rd.Commit().value,
               passed := if rd.messages == [] then s.passed else s.passed + [rd],
               done := s.done + [rd], flight := None)
  {
    var s1 := Next(setup, s, Flush);
    var s2 := Next(setup, s1, Flush);
    var s3 := Next(setup, s2, Flush);
    var s4 := Next(setup, s3, Flush);
    assert s1.flight == Some(Flight(rd, 1)) && s2.flight == Some(Flight(rd, 2));
    assert s3.flight == Some(Flight(rd, 3)) && s4.flight == Some(Flight(rd, 4));
    StateAfterSteps(setup, s, 5);
    StateAfterSteps(setup, s1, 4);
    StateAfterSteps(setup, s2, 3);
    StateAfterSteps(setup, s3, 2);
    StateAfterSteps(setup, s4, 1);
    assert Flushes(5) == [Flush, Flush, Flush, Flush, Flush];
  }

  function Flushes(n: nat): seq<Event> {
    seq(n, i => Flush)
  }

  lemma {:induction false} StateAfterSteps(setup: Setup, s: State, n: nat)
    requires Usable(setup.cfg) && s.wal.Sound() && n > 0
    ensures StateAfter(setup, s, Flushes(n)) == StateAfter(setup, Next(setup, s, Flush), Flushes(n - 1))
  {
    assert Flushes(n)[0] == Flush && Flushes(n)[1..] == Flushes(n - 1);
  }

  // ---------------------------------------------------------------------------------------
  // Persist before respond, for any Readys at all
  // ---------------------------------------------------------------------------------------

  /** The log on disk holds exactly the records rs. */
  ghost predicate OnDisk(cfg: Config, w: Wal, rs: seq<Record>) {
    exists l :: Holds(cfg, w, l) && History(l.All()) == rs
  }

  lemma {:induction false} OnDiskNext(cfg: Config, w: Wal, rs: seq<Record>, op: Op)
    requires cfg.codec.Lawful() && Usable(cfg) && w.Sound() && OnDisk(cfg, w, rs) && LegalOp(cfg, w, op)
    ensures OnDisk(cfg, Exec(cfg, w, op), rs + Given(op))
  {
    var l :| Holds(cfg, w, l) && History(l.All()) == rs;
    ExecKeeps(cfg, w, l, op);
    assert Holds(cfg, Exec(cfg, w, op), ExecLayout(cfg, w, l, op));
  }

  lemma {:induction false} OnDiskRestores(cfg: Config, w: Wal, rs: seq<Record>, listing: seq<string>, verify: bool)
    requires cfg.codec.Lawful() && OnDisk(cfg, w, rs) && forall f :: f in listing <==> f in w.dir
    ensures Restores(AfterRecover(cfg.codec, w.dir, listing, verify), rs)
            <==> IntactRecords(cfg, rs)
    ensures ShortHardStates(cfg.codec, rs) ==>
              AfterRecover(cfg.codec, w.dir, listing, verify).status ==
              if IntactRecords(cfg, rs) then OK else Corruption(BadRecord)
  {
    var l :| Holds(cfg, w, l) && History(l.All()) == rs;
    RecoverRestores(cfg, w, l, listing, verify);
    AllIntactIff(cfg, l.All());
    if ShortHardStates(cfg.codec, rs) {
      RecoverStatus(cfg, w, l, listing, verify);
    }
  }

  function ReadyRecords(rds: seq<Ready>): seq<Record> {
    if rds == [] then [] else Given(Write(rds[0].entries, rds[0].hardState)) + ReadyRecords(rds[1..])
  }

  function WithMessages(rds: seq<Ready>): seq<Ready> {
    if rds == [] then [] else (if rds[0].messages == [] then [] else [rds[0]]) + WithMessages(rds[1..])
  }

  /** The Readys whose log write is complete. */
  function Persisted(s: State): seq<Ready> {
    if s.flight.Some? && s.flight.value.stage > 1 then s.done + [s.flight.value.rd] else s.done
  }

  /** The Readys whose messages should have gone out: completed ones, and a leader's at once. */
  function Departed(s: State): seq<Ready> {
    if s.flight.Some? && s.flight.value.rd.leads && s.flight.value.stage > 0 then s.done + [s.flight.value.rd]
    else s.done
  }

  /** The flusher's invariant. */
  ghost predicate FlushInv(setup: Setup, s: State) {
    && OnDisk(setup.cfg, s.wal, s.written)
    && (s.flight.Some? ==> s.flight.value.stage < STAGES)
    && s.written == ReadyRecords(Persisted(s))
    && s.passed == WithMessages(Departed(s))
  }

  lemma {:induction false} ReadyRecordsSnoc(rds: seq<Ready>, rd: Ready)
    ensures ReadyRecords(rds + [rd]) == ReadyRecords(rds) + Given(Write(rd.entries, rd.hardState))
  {
    var g := Given(Write(rd.entries, rd.hardState));
    if rds == [] {
      assert rds + [rd] == [rd] && [rd][1..] == [];
      assert g + [] == [] + g;
    } else {
      assert (rds + [rd])[1..] == rds[1..] + [rd];
      ReadyRecordsSnoc(rds[1..], rd);
      Assoc(Given(Write(rds[0].entries, rds[0].hardState)), ReadyRecords(rds[1..]), g);
    }
  }

  lemma {:induction false} WithMessagesSnoc(rds: seq<Ready>, rd: Ready)
    ensures WithMessages(rds + [rd]) == WithMessages(rds) + if rd.messages == [] then [] else [rd]
  {
    if rds == [] {
      assert rds + [rd] == [rd] && [rd][1..] == [];
    } else {
      assert (rds + [rd])[1..] == rds[1..] + [rd];
      WithMessagesSnoc(rds[1..], rd);
      Assoc(if rds[0].messages == [] then [] else [rds[0]], WithMessages(rds[1..]),
            if rd.messages == [] then [] else [rd]);
    }
  }

  /** What a stage adds to the log and to the messages passed. */
  lemma StageAdds(setup: Setup, s: State, rd: Ready, stage: nat)
    requires Usable(setup.cfg) && s.wal.Sound() && s.flight == Some(Flight(rd, stage)) && stage < STAGES
    ensures var s' := Next(setup, s, Flush);
            && Persisted(s') == Persisted(s) + (if stage == 1 then [rd] else [])
            && Departed(s') == Departed(s) + (if stage == if rd.leads then 0 else 4 then [rd] else [])
            && s'.written == s.written + (if stage == 1 then Given(Write(rd.entries, rd.hardState)) else [])
            && s'.passed == s.passed + (if stage == (if rd.leads then 0 else 4) && rd.messages != [] then [rd] else [])
            && s'.wal == if stage == 1 then Exec(setup.cfg, s.wal, Write(rd.entries, rd.hardState)) else s.wal
  {
  }

  lemma {:induction false} StageWrites(setup: Setup, s: State, rd: Ready, stage: nat)
    requires setup.cfg.codec.Lawful() && Usable(setup.cfg) && s.wal.Sound() && FlushInv(setup, s)
    requires s.flight == Some(Flight(rd, stage)) && Possible(setup, s, Flush)
    ensures var s' := Next(setup, s, Flush);
            OnDisk(setup.cfg, s'.wal, s'.written) && s'.written == ReadyRecords(Persisted(s'))
  {
    StageAdds(setup, s, rd, stage);
    Unchanged(Persisted(s), s.written);
    if stage == 1 {
      OnDiskNext(setup.cfg, s.wal, s.written, Write(rd.entries, rd.hardState));
      ReadyRecordsSnoc(Persisted(s), rd);
    }
  }

  lemma {:induction false} StagePasses(setup: Setup, s: State, rd: Ready, stage: nat)
    requires Usable(setup.cfg) && s.wal.Sound() && FlushInv(setup, s) && s.flight == Some(Flight(rd, stage))
    ensures var s' := Next(setup, s, Flush);
            s'.passed == WithMessages(Departed(s')) && (s'.flight.Some? ==> s'.flight.value.stage < STAGES)
  {
    StageAdds(setup, s, rd, stage);
    Unchanged(Departed(s), s.passed);
    WithMessagesSnoc(Departed(s), rd);
  }

  lemma {:induction false} FlushKeeps(setup: Setup, s: State, e: Event)
    requires setup.cfg.codec.Lawful() && Usable(setup.cfg) && s.wal.Sound()
    requires FlushInv(setup, s) && Possible(setup, s, e)
    ensures FlushInv(setup, Next(setup, s, e))
  {
    if e.Flush? {
      StageWrites(setup, s, s.flight.value.rd, s.flight.value.stage);
      StagePasses(setup, s, s.flight.value.rd, s.flight.value.stage);
    } else {
      OtherKeeps(setup, s, e);
    }
  }

  lemma {:induction false} FlushSame(setup: Setup, s: State, s': State)
    requires FlushInv(setup, s)
    requires s'.wal == s.wal && s'.written == s.written && s'.passed == s.passed && s'.done == s.done
    requires s'.flight == s.flight || (s.flight.None? && s'.flight.Some? && s'.flight.value.stage == 0)
    ensures FlushInv(setup, s')
  {
    assert Persisted(s') == Persisted(s) && Departed(s') == Departed(s);
  }

  lemma {:induction false} OtherKeeps(setup: Setup, s: State, e: Event)
    requires Usable(setup.cfg) && s.wal.Sound() && FlushInv(setup, s) && Possible(setup, s, e) && !e.Flush?
    ensures FlushInv(setup, Next(setup, s, e))
  {
    FlushSame(setup, s, Next(setup, s, e));
  }

  lemma Unchanged<T, U>(a: seq<T>, b: seq<U>)
    ensures a + [] == a && b + [] == b
  {
  }

  lemma {:induction false} InitialFlushInv(setup: Setup, dir: map<string, bytes>)
    requires Fresh(dir)
    ensures FlushInv(setup, Initial(dir))
  {
    NewLogHolds(setup.cfg, dir);
    assert Holds(setup.cfg, NewLog(dir), NO_SEGMENTS);
  }

  lemma {:induction false} FlushRun(setup: Setup, s: State, es: seq<Event>)
    requires setup.cfg.codec.Lawful() && Usable(setup.cfg) && s.wal.Sound()
    requires FlushInv(setup, s) && AllPossible(setup, s, es)
    ensures FlushInv(setup, StateAfter(setup, s, es))
    decreases |es|
  {
    if es != [] {
      FlushKeeps(setup, s, es[0]);
      FlushRun(setup, Next(setup, s, es[0]), es[1..]);
    }
  }

  ghost predicate Contains(all: seq<Entry>, part: seq<Entry>) {
    exists before, after :: all == before + part + after
  }

  lemma {:induction false} ContainsMore(more: seq<Entry>, all: seq<Entry>, part: seq<Entry>)
    requires Contains(all, part)
    ensures Contains(more + all, part)
  {
    var before, after :| all == before + part + after;
    assert more + all == (more + before) + part + after;
  }

  lemma {:induction false} ContainsFirst(part: seq<Entry>, rest: seq<Entry>)
    ensures Contains(part + rest, part)
  {
    assert part + rest == [] + part + rest;
  }

  lemma {:induction false} PersistedContains(rds: seq<Ready>, rd: Ready)
    requires rd in rds
    ensures Contains(Entries(ReadyRecords(rds)), rd.entries)
  {
    FirstEntries(rds);
    if rd == rds[0] {
      ContainsFirst(rd.entries, Entries(ReadyRecords(rds[1..])));
    } else {
      PersistedContains(rds[1..], rd);
      ContainsMore(rds[0].entries, Entries(ReadyRecords(rds[1..])), rd.entries);
    }
  }

  lemma {:induction false} FirstEntries(rds: seq<Ready>)
    requires rds != []
    ensures Entries(ReadyRecords(rds)) == rds[0].entries + Entries(ReadyRecords(rds[1..]))
  {
    EntriesConcat(Given(Write(rds[0].entries, rds[0].hardState)), ReadyRecords(rds[1..]));
    EntriesOfBatch(Batch(rds[0].hardState, rds[0].entries));
  }

  lemma {:induction false} WithMessagesIn(rds: seq<Ready>, rd: Ready)
    requires rd in WithMessages(rds)
    ensures rd in rds
  {
    if rds != [] && rd != rds[0] {
      assert rd in WithMessages(rds[1..]);
      WithMessagesIn(rds[1..], rd);
    }
  }

  /**
   Persist before respond.  At every crash point of every run over any Readys whatever: the
   directory recovers exactly what has been handed to the log (if and only if the build counts
   the hard state's length or no hard state was written; otherwise recovery fails, where all
   hard states are under 128 bytes), and that includes all entries of every non-leader Ready
   whose messages have gone out.
   */
  lemma {:induction false} PersistBeforeRespond(setup: Setup, dir: map<string, bytes>, es: seq<Event>, listing: seq<string>, verify: bool)
    requires setup.cfg.codec.Lawful() && Usable(setup.cfg) && Fresh(dir) && AllPossible(setup, Initial(dir), es)
    requires forall f :: f in listing <==> f in StateAfter(setup, Initial(dir), es).wal.dir
    ensures var s := StateAfter(setup, Initial(dir), es);
            var r := AfterRecover(setup.cfg.codec, s.wal.dir, listing, verify);
            && s.written == ReadyRecords(Persisted(s))
            && (Restores(r, s.written) <==> IntactRecords(setup.cfg, s.written))
            && (ShortHardStates(setup.cfg.codec, s.written) ==>
                  r.status == if IntactRecords(setup.cfg, s.written) then OK else Corruption(BadRecord))
            && (forall rd :: rd in s.passed && !rd.leads ==> Contains(Entries(s.written), rd.entries))
  {
    var s := StateAfter(setup, Initial(dir), es);
    InitialFlushInv(setup, dir);
    FlushRun(setup, Initial(dir), es);
    OnDiskRestores(setup.cfg, s.wal, s.written, listing, verify);
    forall rd | rd in s.passed && !rd.leads ensures Contains(Entries(s.written), rd.entries) {
      WithMessagesIn(Departed(s), rd);
      assert rd in s.done && rd in Persisted(s);
      PersistedContains(Persisted(s), rd);
    }
  }

  /** Each Ready's messages are passed at most once, and exactly once by a flush that completes. */
  lemma {:induction false} MessagesSentOnce(setup: Setup, dir: map<string, bytes>, es: seq<Event>)
    requires setup.cfg.codec.Lawful() && Usable(setup.cfg) && Fresh(dir) && AllPossible(setup, Initial(dir), es)
    ensures var s := StateAfter(setup, Initial(dir), es);
            && s.passed == WithMessages(Departed(s))
            && (s.flight.None? ==> s.passed == WithMessages(s.done))
  {
    var s := StateAfter(setup, Initial(dir), es);
    InitialFlushInv(setup, dir);
    FlushRun(setup, Initial(dir), es);
    assert s.done + [] == s.done;
  }
}
