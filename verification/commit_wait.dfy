/**
 Commit-wait: over every interleaving, a writer is told at most once, only when its entry is on
 this replica's disk, and is otherwise still registered.
 */
module CommitWait {
  import opened Coding
  import opened WalFormat
  import opened WalReader
  import opened LogWriting
  import opened LogManagement
  import opened WalLayout
  import opened WalRecovery
  import opened WalRuns
  import opened CommitObserver
  import opened ReadyFlusher
  import opened Replica

  // ---------------------------------------------------------------------------------------
  // Invariants
  // ---------------------------------------------------------------------------------------

  ghost predicate NodeInv(s: State) {
    && Follows([], s.node.log)
    && s.told <= s.node.reported <= s.node.commit <= |s.node.log|
    && s.node.reported <= s.node.taken <= |s.node.log|
  }

  /** The Ready in flight has not been written yet. */
  predicate Unwritten(s: State) {
    s.flight.Some? && s.flight.value.stage <= 1
  }

  /** The Ready in flight has a commit index that waiters have not been told yet. */
  predicate Untold(s: State) {
    s.flight.Some? && s.flight.value.stage <= 2 && s.flight.value.rd.Commit().Some?
  }

  /** The log on disk is the node's log, short of what the Ready in flight will add. */
  ghost predicate FlowInv(s: State) {
    && s.node.taken <= |s.node.log| && s.told <= |Entries(s.written)|
    && Entries(s.written) + (if Unwritten(s) then s.flight.value.rd.entries else []) == s.node.log[..s.node.taken]
    && (if Untold(s) then s.flight.value.rd.Commit().value == s.node.reported else s.told == s.node.reported)
  }

  /** Every waiter waits for an entry of the log, and no two for the same one. */
  ghost predicate WaitsInv(s: State) {
    && (forall ch :: ch in s.waits ==>
          && ch in s.used && 1 <= s.waits[ch].index <= |s.node.log|
          && s.node.log[s.waits[ch].index - 1] == s.waits[ch])
    && (forall a, b :: a in s.waits && b in s.waits && s.waits[a].index == s.waits[b].index ==> a == b)
  }

  /** Registered are only waiters for indices after the last one told. */
  ghost predicate RegisteredInv(s: State) {
    forall r :: r in s.obs.writes ==> RegisteredFor(s, r)
  }

  ghost predicate RegisteredFor(s: State, r: Range)
    requires r in s.obs.writes
  {
    var ch := s.obs.writes[r];
    ch in s.waits && r == (s.waits[ch].index, s.waits[ch].index) && s.told < r.1
  }

  /** Told, once, are only waiters for indices up to the last one told; refused are others. */
  ghost predicate ToldInv(s: State) {
    && (forall ch :: ch in s.obs.signalled ==>
          s.obs.signalled[ch] == 1 && ch in s.waits && s.waits[ch].index <= s.told)
    && (forall ch :: ch in s.refused ==> s.refused[ch] == 1 && ch in s.used && ch !in s.waits)
  }

  ghost predicate Inv(s: State) {
    NodeInv(s) && FlowInv(s) && WaitsInv(s) && RegisteredInv(s) && ToldInv(s)
  }

  // ---------------------------------------------------------------------------------------
  // Every step keeps them
  // ---------------------------------------------------------------------------------------

  /** What is said of waiters depends only on the log, the registry and the histories. */
  lemma WaitersSame(s: State, s': State)
    requires WaitsInv(s) && RegisteredInv(s) && ToldInv(s)
    requires s'.node.log == s.node.log && s'.obs == s.obs && s'.told == s.told
    requires s'.waits == s.waits && s'.used == s.used && s'.refused == s.refused
    ensures WaitsInv(s') && RegisteredInv(s') && ToldInv(s')
  {
  }

  /** A longer log keeps every waiter's entry in its place. */
  lemma WaitersGrown(s: State, s': State, more: seq<Entry>)
    requires WaitsInv(s) && RegisteredInv(s) && ToldInv(s)
    requires s'.node.log == s.node.log + more && s'.obs == s.obs && s'.told == s.told
    requires s'.waits == s.waits && s'.used == s.used && s'.refused == s.refused
    ensures WaitsInv(s') && RegisteredInv(s') && ToldInv(s')
  {
  }

  /** A proposal that is accepted, with the entry the writer then waits for. */
  ghost predicate Proposes(s: State, ch: Channel, e: Entry, commitTo: nat) {
    s.node.leads && ch !in s.used && e.index == |s.node.log| + 1 && s.node.commit <= commitTo <= |s.node.log| + 1
  }

  lemma {:induction false} ProposedNode(s: State, ch: Channel, e: Entry, commitTo: nat)
    requires Inv(s) && Proposes(s, ch, e, commitTo)
    ensures var s' := Submit(s, ch, e.data, e.term, true, commitTo); NodeInv(s') && FlowInv(s')
  {
    var s' := Submit(s, ch, e.data, e.term, true, commitTo);
    assert s'.node.log[..s.node.taken] == s.node.log[..s.node.taken];
  }

  lemma {:induction false} ProposedWaits(s: State, ch: Channel, e: Entry, commitTo: nat)
    requires Inv(s) && Proposes(s, ch, e, commitTo)
    ensures WaitsInv(Submit(s, ch, e.data, e.term, true, commitTo))
  {
    var s' := Submit(s, ch, e.data, e.term, true, commitTo);
    assert s'.waits == s.waits[ch := e] && s'.node.log == s.node.log + [e];
    forall c | c in s'.waits
      ensures c in s'.used && 1 <= s'.waits[c].index <= |s'.node.log| && s'.node.log[s'.waits[c].index - 1] == s'.waits[c]
    {
      assert c != ch ==> c in s.waits;
    }
    forall a, b | a in s'.waits && b in s'.waits && s'.waits[a].index == s'.waits[b].index ensures a == b {
      assert (a != ch ==> a in s.waits) && (b != ch ==> b in s.waits);
    }
  }

  lemma {:induction false} NewIndexFree(s: State, index: nat)
    requires WaitsInv(s) && RegisteredInv(s) && index == |s.node.log| + 1
    ensures (index, index) !in s.obs.writes
  {
    forall r | r in s.obs.writes ensures r.1 < index {
      assert RegisteredFor(s, r);
    }
  }

  lemma {:induction false} ProposedRegistered(s: State, ch: Channel, e: Entry, commitTo: nat)
    requires Inv(s) && Proposes(s, ch, e, commitTo)
    ensures var s' := Submit(s, ch, e.data, e.term, true, commitTo);
            && s'.obs.writes == s.obs.writes[(e.index, e.index) := ch]
            && RegisteredInv(s') && ToldInv(s')
  {
    var s' := Submit(s, ch, e.data, e.term, true, commitTo);
    NewIndexFree(s, e.index);
    assert s'.waits == s.waits[ch := e] && ch !in s.waits && s'.told == s.told;
    assert s'.obs.writes == s.obs.writes[(e.index, e.index) := ch];
    forall r | r in s'.obs.writes ensures RegisteredFor(s', r) {
      if r != (e.index, e.index) {
        assert RegisteredFor(s, r);
      }
    }
  }

  lemma {:induction false} SubmitKeeps(s: State, ch: Channel, data: bytes, term: nat, proposed: bool, commitTo: nat)
    requires Inv(s) && ch !in s.used && s.node.commit <= commitTo <= |s.node.log| + 1
    ensures Inv(Submit(s, ch, data, term, proposed, commitTo))
  {
    if s.node.leads && proposed {
      var e := Entry(|s.node.log| + 1, term, data);
      ProposedNode(s, ch, e, commitTo);
      ProposedWaits(s, ch, e, commitTo);
      ProposedRegistered(s, ch, e, commitTo);
    }
  }

  lemma {:induction false} PeerKeeps(setup: Setup, s: State, more: seq<Entry>, commitTo: nat, leads: bool)
    requires Usable(setup.cfg) && s.wal.Sound() && Inv(s) && FromNode(s, Peer(more, commitTo, leads))
    ensures Inv(Next(setup, s, Peer(more, commitTo, leads)))
  {
    var s' := Next(setup, s, Peer(more, commitTo, leads));
    assert s'.node.log[..s.node.taken] == s.node.log[..s.node.taken];
    WaitersGrown(s, s', more);
  }

  lemma TakenWhole(log: seq<Entry>, t: nat)
    requires t <= |log|
    ensures log[..t] + log[t..] == log[..|log|]
  {
  }

  lemma {:induction false} TakeReadyKeeps(setup: Setup, s: State, rd: Ready)
    requires Usable(setup.cfg) && s.wal.Sound() && Inv(s)
    requires FromNode(s, TakeReady(rd)) && Possible(setup, s, TakeReady(rd))
    ensures Inv(Next(setup, s, TakeReady(rd)))
  {
    var s' := Next(setup, s, TakeReady(rd));
    WaitersSame(s, s');
    TakenWhole(s.node.log, s.node.taken);
    Unchanged(Entries(s.written), s.written);
  }

  /** Stages other than the log write and the notification change none of it. */
  lemma {:induction false} QuietStageKeeps(setup: Setup, s: State, rd: Ready, stage: nat)
    requires Usable(setup.cfg) && s.wal.Sound() && Inv(s)
    requires s.flight == Some(Flight(rd, stage)) && stage < STAGES && stage != 1 && stage != 2
    ensures Inv(Next(setup, s, Flush))
  {
    var s' := Next(setup, s, Flush);
    Unmoved(s, s');
  }

  lemma {:induction false} Unmoved(s: State, s': State)
    requires Inv(s) && s'.node == s.node && s'.written == s.written && s'.obs == s.obs && s'.told == s.told
    requires s'.waits == s.waits && s'.used == s.used && s'.refused == s.refused
    requires Unwritten(s') == Unwritten(s) && Untold(s') == Untold(s)
    requires s.flight.Some? && s'.flight.Some? ==> s'.flight.value.rd == s.flight.value.rd
    requires Unwritten(s) || Untold(s) ==> s'.flight.Some?
    ensures Inv(s')
  {
    WaitersSame(s, s');
  }

  lemma {:induction false} PersistStageKeeps(setup: Setup, s: State, rd: Ready)
    requires Usable(setup.cfg) && s.wal.Sound() && Inv(s) && s.flight == Some(Flight(rd, 1))
    ensures Inv(Next(setup, s, Flush))
  {
    var s' := Next(setup, s, Flush);
    var g := Given(Write(rd.entries, rd.hardState));
    GivenEntries(rd);
    EntriesConcat(s.written, g);
    WaitersSame(s, s');
    assert s'.written == s.written + g;
    Unchanged(Entries(s'.written), s.written);
    assert !Unwritten(s') && Untold(s') == Untold(s);
  }

  lemma {:induction false} GivenEntries(rd: Ready)
    ensures Entries(Given(Write(rd.entries, rd.hardState))) == rd.entries
  {
    EntriesOfBatch(Batch(rd.hardState, rd.entries));
  }

  lemma {:induction false} TellStageKeeps(setup: Setup, s: State, rd: Ready)
    requires Usable(setup.cfg) && s.wal.Sound() && Inv(s) && s.flight == Some(Flight(rd, 2))
    ensures Inv(Next(setup, s, Flush))
  {
    var s' := Next(setup, s, Flush);
    if rd.Commit().Some? {
      var commit := rd.Commit().value;
      assert commit == s.node.reported && s.told <= commit;
      TellWaiters(setup.form, s, s', commit);
      Unchanged(Entries(s.written), s.written);
    } else {
      WaitersSame(s, s');
    }
  }

  /** Telling up to `commit` leaves registered only later waiters, and tells no one twice. */
  lemma {:induction false} TellWaiters(form: NotifyForm, s: State, s': State, commit: nat)
    requires WaitsInv(s) && RegisteredInv(s) && ToldInv(s) && s.told <= commit
    requires s'.node == s.node && s'.obs == AfterNotify(form, s.obs, commit) && s'.told == commit
    requires s'.waits == s.waits && s'.used == s.used && s'.refused == s.refused
    ensures WaitsInv(s') && RegisteredInv(s') && ToldInv(s')
  {
    WaitsSame(s, s');
    TellRegistered(form, s, s', commit);
    TellTold(form, s, s', commit);
  }

  lemma WaitsSame(s: State, s': State)
    requires WaitsInv(s) && s'.node.log == s.node.log && s'.waits == s.waits && s'.used == s.used
    ensures WaitsInv(s')
  {
  }

  lemma {:induction false} TellTold(form: NotifyForm, s: State, s': State, commit: nat)
    requires RegisteredInv(s) && ToldInv(s) && s.told <= commit
    requires s'.obs == AfterNotify(form, s.obs, commit) && s'.told == commit
    requires s'.waits == s.waits && s'.used == s.used && s'.refused == s.refused
    ensures ToldInv(s')
  {
    forall ch | ch in s'.obs.signalled
      ensures s'.obs.signalled[ch] == 1 && ch in s.waits && s.waits[ch].index <= commit
    {
      TellOnce(form, s, ch, commit);
    }
  }

  lemma {:induction false} TellRegistered(form: NotifyForm, s: State, s': State, commit: nat)
    requires RegisteredInv(s) && s'.waits == s.waits
    requires s'.obs == AfterNotify(form, s.obs, commit) && s'.told == commit
    ensures RegisteredInv(s')
  {
    forall r | r in s'.obs.writes ensures RegisteredFor(s', r) {
      assert r in s.obs.writes && RegisteredFor(s, r) && !Due(r, commit);
    }
  }

  lemma {:induction false} TellOnce(form: NotifyForm, s: State, ch: Channel, commit: nat)
    requires RegisteredInv(s) && ToldInv(s) && s.told <= commit
    requires ch in AfterNotify(form, s.obs, commit).signalled
    ensures AfterNotify(form, s.obs, commit).signalled[ch] == 1 && ch in s.waits && s.waits[ch].index <= commit
  {
    ToldTimes(s.obs.writes, commit, ch);
    if DueFor(s.obs.writes, commit, ch) != {} {
      DueIsWaiting(s, ch, commit);
    }
  }

  lemma {:induction false} DueIsWaiting(s: State, ch: Channel, commit: nat)
    requires RegisteredInv(s) && ToldInv(s) && DueFor(s.obs.writes, commit, ch) != {}
    ensures ch in s.waits && s.waits[ch].index <= commit && ch !in s.obs.signalled
    ensures |DueFor(s.obs.writes, commit, ch)| == 1
  {
    var r :| r in DueFor(s.obs.writes, commit, ch);
    assert RegisteredFor(s, r);
    forall q | q in DueFor(s.obs.writes, commit, ch) ensures q == r {
      assert RegisteredFor(s, q);
    }
    assert DueFor(s.obs.writes, commit, ch) == {r};
  }

  lemma {:induction false} StepKeeps(setup: Setup, s: State, e: Event)
    requires Usable(setup.cfg) && s.wal.Sound() && Inv(s)
    requires (s.flight.Some? ==> s.flight.value.stage < STAGES)
    requires Possible(setup, s, e) && FromNode(s, e)
    ensures Inv(Next(setup, s, e))
  {
    match e
    case AsyncWrite(ch, data, term, proposed, commitTo) => SubmitKeeps(s, ch, data, term, proposed, commitTo);
    case Peer(more, commitTo, leads) => PeerKeeps(setup, s, more, commitTo, leads);
    case TakeReady(rd) => TakeReadyKeeps(setup, s, rd);
    case Flush =>
      var Flight(rd, stage) := s.flight.value;
      if stage == 1 {
        PersistStageKeeps(setup, s, rd);
      } else if stage == 2 {
        TellStageKeeps(setup, s, rd);
      } else {
        QuietStageKeeps(setup, s, rd, stage);
      }
  }

  lemma {:induction false} InvRun(setup: Setup, s: State, es: seq<Event>)
    requires setup.cfg.codec.Lawful() && Usable(setup.cfg) && s.wal.Sound()
    requires FlushInv(setup, s) && Inv(s) && AllPossible(setup, s, es) && AllFromNode(setup, s, es)
    ensures FlushInv(setup, StateAfter(setup, s, es)) && Inv(StateAfter(setup, s, es))
    decreases |es|
  {
    if es != [] {
      FlushKeeps(setup, s, es[0]);
      StepKeeps(setup, s, es[0]);
      InvRun(setup, Next(setup, s, es[0]), es[1..]);
    }
  }

  /** A run of a replica that starts in an empty directory. */
  ghost predicate RunOf(setup: Setup, dir: map<string, bytes>, es: seq<Event>) {
    && setup.cfg.codec.Lawful() && Usable(setup.cfg) && Fresh(dir)
    && AllPossible(setup, Initial(dir), es) && AllFromNode(setup, Initial(dir), es)
  }

  lemma {:induction false} Reached(setup: Setup, dir: map<string, bytes>, es: seq<Event>)
    requires RunOf(setup, dir, es)
    ensures FlushInv(setup, StateAfter(setup, Initial(dir), es)) && Inv(StateAfter(setup, Initial(dir), es))
  {
    InitialFlushInv(setup, dir);
    InvRun(setup, Initial(dir), es);
  }

  // ---------------------------------------------------------------------------------------
  // Safety
  // ---------------------------------------------------------------------------------------

  /** The entry is recovered at its place in the log. */
  predicate RecoveredAt(r: Recovery, e: Entry) {
    && r.status == OK && r.store.Some?
    && 1 <= e.index <= |r.store.value.entries| && r.store.value.entries[e.index - 1] == e
  }

  /** The entry the channel waits for is recovered if the log is intact, and only if hard states are short. */
  ghost predicate RecoveredIff(setup: Setup, s: State, ch: Channel, r: Recovery)
    requires ch in s.waits
  {
    var intact := IntactRecords(setup.cfg, s.written);
    && (intact ==> RecoveredAt(r, s.waits[ch]))
    && (ShortHardStates(setup.cfg.codec, s.written) ==> (RecoveredAt(r, s.waits[ch]) <==> intact))
  }

  /**
   Commit-wait safety.  In every state of every run: no channel is answered twice, and a writer
   has been told only if its very entry has been handed to the log on this replica.  Recover
   returns it at its index if the build counts the hard state's length or no hard state was
   written; where all hard states are under 128 bytes, if and only if.
   */
  lemma {:induction false} AcknowledgedIsRecovered(setup: Setup, dir: map<string, bytes>, es: seq<Event>,
                                ch: Channel, listing: seq<string>, verify: bool)
    requires RunOf(setup, dir, es)
    requires forall f :: f in listing <==> f in StateAfter(setup, Initial(dir), es).wal.dir
    ensures var s := StateAfter(setup, Initial(dir), es);
            && s.obs.signalled[ch] + s.refused[ch] <= 1
            && (ch in s.obs.signalled ==>
                  && ch in s.waits && s.waits[ch].index <= s.told <= |Entries(s.written)|
                  && RecoveredIff(setup, s, ch, AfterRecover(setup.cfg.codec, s.wal.dir, listing, verify)))
  {
    Reached(setup, dir, es);
    Acknowledged(setup, StateAfter(setup, Initial(dir), es), ch, listing, verify);
  }

  lemma {:induction false} Acknowledged(setup: Setup, s: State, ch: Channel, listing: seq<string>, verify: bool)
    requires setup.cfg.codec.Lawful() && FlushInv(setup, s) && Inv(s)
    requires forall f :: f in listing <==> f in s.wal.dir
    ensures s.obs.signalled[ch] + s.refused[ch] <= 1
    ensures ch in s.obs.signalled ==> ch in s.waits && s.waits[ch].index <= s.told <= |Entries(s.written)|
    ensures ch in s.obs.signalled ==> RecoveredIff(setup, s, ch, AfterRecover(setup.cfg.codec, s.wal.dir, listing, verify))
  {
    OnDiskRestores(setup.cfg, s.wal, s.written, listing, verify);
    if ch in s.obs.signalled {
      ToldIsWritten(s, ch);
      Recovered(setup, s, ch, AfterRecover(setup.cfg.codec, s.wal.dir, listing, verify));
    }
  }

  lemma Recovered(setup: Setup, s: State, ch: Channel, r: Recovery)
    requires ch in s.waits && 1 <= s.waits[ch].index <= |Entries(s.written)|
    requires Entries(s.written)[s.waits[ch].index - 1] == s.waits[ch]
    requires Restores(r, s.written) <==> IntactRecords(setup.cfg, s.written)
    requires ShortHardStates(setup.cfg.codec, s.written) && !IntactRecords(setup.cfg, s.written) ==> r.status != OK
    ensures RecoveredIff(setup, s, ch, r)
  {
  }

  lemma ToldIsWritten(s: State, ch: Channel)
    requires Inv(s) && ch in s.obs.signalled
    ensures ch in s.waits && 1 <= s.waits[ch].index <= s.told <= |Entries(s.written)|
    ensures Entries(s.written)[s.waits[ch].index - 1] == s.waits[ch]
  {
  }

  // ---------------------------------------------------------------------------------------
  // Who waits, and who is refused
  // ---------------------------------------------------------------------------------------

  /** A write submitted to a node that does not lead is answered once, and changes nothing else. */
  lemma NonLeaderRefuses(s: State, ch: Channel, data: bytes, term: nat, proposed: bool, commitTo: nat)
    requires !s.node.leads
    ensures var s' := Submit(s, ch, data, term, proposed, commitTo);
            && s'.node == s.node && s'.obs == s.obs && s'.wal == s.wal && s'.waits == s.waits
            && s'.refused == s.refused + multiset{ch}
  {
  }

  /** The run submits a write on the channel, to a node that leads and accepts the proposal. */
  ghost predicate Accepted(setup: Setup, s: State, es: seq<Event>, ch: Channel)
    requires Usable(setup.cfg) && s.wal.Sound()
    decreases |es|
  {
    es != [] && ((es[0].AsyncWrite? && es[0].ch == ch && es[0].proposed && s.node.leads)
                 || Accepted(setup, Next(setup, s, es[0]), es[1..], ch))
  }

  /** The run submits a write on the channel, to a node that does not lead or refuses it. */
  ghost predicate Refused(setup: Setup, s: State, es: seq<Event>, ch: Channel)
    requires Usable(setup.cfg) && s.wal.Sound()
    decreases |es|
  {
    es != [] && ((es[0].AsyncWrite? && es[0].ch == ch && !(es[0].proposed && s.node.leads))
                 || Refused(setup, Next(setup, s, es[0]), es[1..], ch))
  }

  lemma {:induction false} AnsweredRun(setup: Setup, s: State, es: seq<Event>, ch: Channel)
    requires Usable(setup.cfg) && s.wal.Sound()
    ensures ch in StateAfter(setup, s, es).waits <==> ch in s.waits || Accepted(setup, s, es, ch)
    ensures ch in StateAfter(setup, s, es).refused <==> ch in s.refused || Refused(setup, s, es, ch)
    decreases |es|
  {
    if es != [] {
      AnsweredRun(setup, Next(setup, s, es[0]), es[1..], ch);
    }
  }

  /**
   Over every run, the writers that wait are exactly those whose write was submitted to a
   leading node that accepted the proposal, and those answered with an error, once, are exactly
   the others.
   */
  lemma {:induction false} OnlyLeadersAccept(setup: Setup, dir: map<string, bytes>, es: seq<Event>, ch: Channel)
    requires RunOf(setup, dir, es)
    ensures var s := StateAfter(setup, Initial(dir), es);
            && (ch in s.waits <==> Accepted(setup, Initial(dir), es, ch))
            && (ch in s.refused <==> Refused(setup, Initial(dir), es, ch))
            && s.refused[ch] <= 1 && !(ch in s.waits && ch in s.refused)
  {
    Reached(setup, dir, es);
    AnsweredRun(setup, Initial(dir), es, ch);
  }

  // ---------------------------------------------------------------------------------------
  // No lost waiter
  // ---------------------------------------------------------------------------------------

  function RangeOf(s: State, ch: Channel): Range
    requires ch in s.waits
  {
    (s.waits[ch].index, s.waits[ch].index)
  }

  ghost predicate Registered(s: State, ch: Channel)
    requires ch in s.waits
  {
    RangeOf(s, ch) in s.obs.writes && s.obs.writes[RangeOf(s, ch)] == ch
  }

  /** The notification of this commit index erases the writer without telling it. */
  ghost predicate Abandons(setup: Setup, s: State, commit: nat, ch: Channel)
    requires ch in s.waits
  {
    Registered(s, ch) && Stranded(setup.form, s.obs, commit, RangeOf(s, ch))
  }

  /** A writer that waits for ever: neither told nor registered. */
  ghost predicate Lost(s: State, ch: Channel) {
    ch in s.waits && ch !in s.obs.signalled && !Registered(s, ch)
  }

  ghost predicate NoneLost(s: State) {
    forall ch :: ch in s.waits ==> !Lost(s, ch)
  }

  /** The step is a notification that erases all waiters while one waits for a later index. */
  ghost predicate Strands(setup: Setup, s: State, e: Event) {
    && setup.form.ErasesAll?
    && e.Flush? && s.flight.Some? && s.flight.value.stage == 2 && s.flight.value.rd.Commit().Some?
    && WaitsLater(s.obs, s.flight.value.rd.Commit().value)
  }

  ghost predicate NeverStrands(setup: Setup, s: State, es: seq<Event>)
    requires Usable(setup.cfg) && s.wal.Sound()
    decreases |es|
  {
    es == [] || (!Strands(setup, s, es[0]) && NeverStrands(setup, Next(setup, s, es[0]), es[1..]))
  }

  lemma {:induction false} ProposalLosesNone(s: State, ch: Channel, e: Entry, commitTo: nat, c: Channel)
    requires Inv(s) && Proposes(s, ch, e, commitTo)
    ensures var s' := Submit(s, ch, e.data, e.term, true, commitTo);
            && (c in s.waits ==> c in s'.waits && (Lost(s', c) <==> Lost(s, c)))
            && !Lost(s', ch)
  {
    ProposedRegistered(s, ch, e, commitTo);
    var s' := Submit(s, ch, e.data, e.term, true, commitTo);
    assert s'.waits == s.waits[ch := e] && s'.obs.signalled == s.obs.signalled;
  }

  lemma {:induction false} NotificationLoses(setup: Setup, s: State, rd: Ready, ch: Channel)
    requires Usable(setup.cfg) && s.wal.Sound() && Inv(s)
    requires s.flight == Some(Flight(rd, 2)) && rd.Commit().Some? && ch in s.waits
    ensures var s' := Next(setup, s, Flush);
            && s'.waits == s.waits
            && (Lost(s', ch) <==> Lost(s, ch) || Abandons(setup, s, rd.Commit().value, ch))
  {
    LostAfter(setup, s, Next(setup, s, Flush), rd.Commit().value, ch);
  }

  lemma {:induction false} LostAfter(setup: Setup, s: State, s': State, commit: nat, ch: Channel)
    requires RegisteredInv(s) && ToldInv(s) && ch in s.waits
    requires s'.obs == AfterNotify(setup.form, s.obs, commit) && s'.waits == s.waits
    ensures Lost(s', ch) <==> Lost(s, ch) || Abandons(setup, s, commit, ch)
  {
    ToldIff(s, commit, ch);
  }

  /** A notification tells exactly the registered writers whose index it reaches. */
  lemma {:induction false} ToldIff(s: State, commit: nat, ch: Channel)
    requires RegisteredInv(s) && ch in s.waits
    ensures ch in Tally(s.obs.writes, DueRanges(s.obs.writes, commit)) <==> Registered(s, ch) && Due(RangeOf(s, ch), commit)
  {
    var due := DueFor(s.obs.writes, commit, ch);
    ToldTimes(s.obs.writes, commit, ch);
    if due != {} {
      var q :| q in due;
      assert RegisteredFor(s, q) && q == RangeOf(s, ch);
    }
    if Registered(s, ch) && Due(RangeOf(s, ch), commit) {
      assert RangeOf(s, ch) in due;
    }
  }

  /** Lost writers stay lost; others are lost only by a step that strands. */
  lemma {:induction false} LossStep(setup: Setup, s: State, e: Event)
    requires Usable(setup.cfg) && s.wal.Sound() && Inv(s) && Possible(setup, s, e) && FromNode(s, e)
    ensures var s' := Next(setup, s, e); NoneLost(s') <==> NoneLost(s) && !Strands(setup, s, e)
  {
    if e.AsyncWrite? {
      if s.node.leads && e.proposed {
        ProposalLoss(s, e.ch, Entry(|s.node.log| + 1, e.term, e.data), e.commitTo);
      } else {
        SameLoss(s, Next(setup, s, e));
      }
    } else if e.Flush? && s.flight.value.stage == 2 && s.flight.value.rd.Commit().Some? {
      TellLoss(setup, s, s.flight.value.rd);
    } else {
      QuietLoss(setup, s, e);
    }
  }

  lemma {:induction false} ProposalLoss(s: State, ch: Channel, e: Entry, commitTo: nat)
    requires Inv(s) && Proposes(s, ch, e, commitTo)
    ensures NoneLost(Submit(s, ch, e.data, e.term, true, commitTo)) <==> NoneLost(s)
  {
    var s' := Submit(s, ch, e.data, e.term, true, commitTo);
    assert s'.waits == s.waits[ch := e] && ch !in s.waits;
    ProposalLosesNone(s, ch, e, commitTo, ch);
    forall c | c in s.waits ensures Lost(s', c) <==> Lost(s, c) {
      ProposalLosesNone(s, ch, e, commitTo, c);
    }
  }

  lemma {:induction false} SameLoss(s: State, s': State)
    requires s'.obs == s.obs && s'.waits == s.waits
    ensures NoneLost(s') <==> NoneLost(s)
  {
    assert forall ch :: Lost(s', ch) <==> Lost(s, ch);
  }

  lemma {:induction false} QuietLoss(setup: Setup, s: State, e: Event)
    requires Usable(setup.cfg) && s.wal.Sound() && !e.AsyncWrite?
    requires !(e.Flush? && s.flight.Some? && s.flight.value.stage == 2 && s.flight.value.rd.Commit().Some?)
    ensures var s' := Next(setup, s, e); NoneLost(s') <==> NoneLost(s)
  {
    SameLoss(s, Next(setup, s, e));
  }

  lemma {:induction false} TellLoss(setup: Setup, s: State, rd: Ready)
    requires Usable(setup.cfg) && s.wal.Sound() && Inv(s)
    requires s.flight == Some(Flight(rd, 2)) && rd.Commit().Some?
    ensures var s' := Next(setup, s, Flush); NoneLost(s') <==> NoneLost(s) && !Strands(setup, s, Flush)
  {
    var s' := Next(setup, s, Flush);
    forall ch | ch in s.waits
      ensures Lost(s', ch) <==> Lost(s, ch) || Abandons(setup, s, rd.Commit().value, ch)
    {
      NotificationLoses(setup, s, rd, ch);
    }
    assert s'.waits == s.waits;
    StrandsIff(setup.form, s.obs, rd.Commit().value);
    if Strands(setup, s, Flush) {
      var r :| Stranded(setup.form, s.obs, rd.Commit().value, r);
      var ch := s.obs.writes[r];
      assert ch in s.waits && Abandons(setup, s, rd.Commit().value, ch) && Lost(s', ch);
    }
  }

  lemma {:induction false} LossRun(setup: Setup, s: State, es: seq<Event>)
    requires setup.cfg.codec.Lawful() && Usable(setup.cfg) && s.wal.Sound()
    requires FlushInv(setup, s) && Inv(s) && AllPossible(setup, s, es) && AllFromNode(setup, s, es)
    ensures NoneLost(StateAfter(setup, s, es)) <==> NoneLost(s) && NeverStrands(setup, s, es)
    decreases |es|
  {
    if es != [] {
      FlushKeeps(setup, s, es[0]);
      StepKeeps(setup, s, es[0]);
      LossStep(setup, s, es[0]);
      LossRun(setup, Next(setup, s, es[0]), es[1..]);
    }
  }

  /**
   No lost waiter.  After every run, every writer whose proposal was accepted has been told or
   is still registered, if and only if Notify never erased all waiters while one of them waited
   for an index after the commit index it was given.  Where Notify erases only what it signals,
   that is every run.
   */
  lemma {:induction false} NoLostWaiter(setup: Setup, dir: map<string, bytes>, es: seq<Event>)
    requires RunOf(setup, dir, es)
    ensures NoneLost(StateAfter(setup, Initial(dir), es)) <==> NeverStrands(setup, Initial(dir), es)
    ensures setup.form.ErasesSignalled? ==> NeverStrands(setup, Initial(dir), es)
  {
    InitialFlushInv(setup, dir);
    LossRun(setup, Initial(dir), es);
    if setup.form.ErasesSignalled? {
      MeantNeverStrands(setup, Initial(dir), es);
    }
  }

  lemma {:induction false} MeantNeverStrands(setup: Setup, s: State, es: seq<Event>)
    requires Usable(setup.cfg) && s.wal.Sound() && setup.form.ErasesSignalled?
    ensures NeverStrands(setup, s, es)
    decreases |es|
  {
    if es != [] {
      MeantNeverStrands(setup, Next(setup, s, es[0]), es[1..]);
    }
  }

  /**
   No lost wake-up.  Whenever no flush is in flight and the node has no newer commit index to
   report, every writer that is not lost and whose index is committed has been told.
   */
  lemma {:induction false} CommittedIsTold(setup: Setup, dir: map<string, bytes>, es: seq<Event>, ch: Channel)
    requires RunOf(setup, dir, es)
    requires var s := StateAfter(setup, Initial(dir), es);
             s.flight.None? && s.node.reported == s.node.commit && ch in s.waits && !Lost(s, ch)
    ensures var s := StateAfter(setup, Initial(dir), es);
            ch in s.obs.signalled <==> s.waits[ch].index <= s.node.commit
  {
    Reached(setup, dir, es);
  }
}
