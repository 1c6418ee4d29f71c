/** The registry of writers waiting for a commit (src/wal_commit_observer.h, src/wal_commit_observer.cc). */
module CommitObserver {

  /** A range of log indices [first, second]; a waiter is told when `second` is committed. */
  type Range = (nat, nat)
  type Channel = nat

  /**
   Whether Notify erases only the waiters it signals (what its callers rely on), or, as line 47
   of the source has it, every waiter.  As compiled the loop then advances an erased iterator;
   the reading modelled is that it goes on to the next waiter.
   */
  datatype NotifyForm = ErasesSignalled | ErasesAll

  /** The waiters, and how often each channel has been sent OK. */
  datatype Registry = Registry(writes: map<Range, Channel>, signalled: multiset<Channel>)

  predicate Due(r: Range, commit: nat) {
    commit >= r.1
  }

  function AfterRegister(o: Registry, range: Range, ch: Channel): Registry {
    if range in o.writes then o else o.(writes := o.writes[range := ch])
  }

  /** The ranges that are due. */
  function DueRanges(writes: map<Range, Channel>, commit: nat): (rs: set<Range>)
    ensures rs <= writes.Keys
  {
    set r | r in writes && Due(r, commit)
  }

  ghost function Pick(rs: set<Range>): (r: Range)
    requires rs != {}
    ensures r in rs
  {
    var r :| r in rs; r
  }

  /** The channels of the ranges rs, each as often as it occurs. */
  ghost function Tally(writes: map<Range, Channel>, rs: set<Range>): multiset<Channel>
    requires rs <= writes.Keys
    decreases |rs|
  {
    if rs == {} then multiset{} else Tally(writes, rs - {Pick(rs)}) + multiset{writes[Pick(rs)]}
  }

  ghost function AfterNotify(form: NotifyForm, o: Registry, commit: nat): Registry {
    Registry(if form.ErasesAll? then map[] else map r | r in o.writes && !Due(r, commit) :: o.writes[r],
             o.signalled + Tally(o.writes, DueRanges(o.writes, commit)))
  }

  /** The due ranges registered with the channel. */
  function DueFor(writes: map<Range, Channel>, commit: nat, ch: Channel): set<Range> {
    set r | r in writes && Due(r, commit) && writes[r] == ch
  }

  class WalCommitObserver {
    const form: NotifyForm
    var writes: map<Range, Channel>
    var signalled: multiset<Channel>

    constructor (form: NotifyForm)
      ensures this.form == form && Value() == Registry(map[], multiset{})
    {
      this.form := form;
      writes, signalled := map[], multiset{};
    }

    function Value(): Registry
      reads this
    {
      Registry(writes, signalled)
    }

    /** A second registration of a range is logged and dropped. */
    method Register(range: Range, ch: Channel)
      modifies this
      ensures Value() == AfterRegister(old(Value()), range, ch)
      ensures signalled == old(signalled)
      ensures writes == if range in old(writes) then old(writes) else old(writes)[range := ch]
    {
      if range in writes {
        return;
      }
      writes := writes[range := ch];
    }

    method Notify(commit: nat)
      modifies this
      ensures Value() == AfterNotify(form, old(Value()), commit)
    {
      ghost var was, before := writes, signalled;
      var todo := writes.Keys;
      NotifyLoop(form, Value(), commit);
      while todo != {}
        invariant todo <= was.Keys
        invariant writes == Left(form, was, todo, commit)
        invariant signalled == before + Tally(was, Told(was, todo, commit))
        decreases todo
      {
        var it :| it in todo;
        VisitOne(form, was, todo, it, commit);
        if commit >= it.1 {
          signalled := signalled + multiset{writes[it]};
          writes := writes - {it};
        } else if form.ErasesAll? {
          writes := writes - {it};
        }
        todo := todo - {it};
      }
    }
  }

  /** What the loop of Notify has left registered when the ranges of `todo` are still to visit. */
  function Left(form: NotifyForm, was: map<Range, Channel>, todo: set<Range>, commit: nat): map<Range, Channel> {
    map r | r in was && (r in todo || (form.ErasesSignalled? && !Due(r, commit))) :: was[r]
  }

  /** The ranges it has told by then. */
  function Told(was: map<Range, Channel>, todo: set<Range>, commit: nat): (rs: set<Range>)
    ensures rs <= was.Keys
  {
    set r | r in was && r !in todo && Due(r, commit)
  }

  /** The tally does not depend on the order in which ranges are picked. */
  lemma {:induction false} TallyWithout(writes: map<Range, Channel>, rs: set<Range>, r: Range)
    requires rs <= writes.Keys && r in rs
    ensures Tally(writes, rs) == Tally(writes, rs - {r}) + multiset{writes[r]}
    decreases |rs|
  {
    var p := Pick(rs);
    if p != r {
      TallyWithout(writes, rs - {p}, r);
      TallyWithout(writes, rs - {r}, p);
      assert rs - {p} - {r} == rs - {r} - {p};
    }
  }

  lemma {:induction false} TallyTimes(writes: map<Range, Channel>, rs: set<Range>, ch: Channel)
    requires rs <= writes.Keys
    ensures Tally(writes, rs)[ch] == |set r | r in rs && writes[r] == ch|
    decreases |rs|
  {
    var with := set r | r in rs && writes[r] == ch;
    if rs == {} {
      assert with == {};
    } else {
      var p := Pick(rs);
      TallyTimes(writes, rs - {p}, ch);
      var without := set r | r in rs - {p} && writes[r] == ch;
      assert without == with - {p};
    }
  }

  /** A notification tells a channel once for each of its due ranges. */
  lemma ToldTimes(writes: map<Range, Channel>, commit: nat, ch: Channel)
    ensures Tally(writes, DueRanges(writes, commit))[ch] == |DueFor(writes, commit, ch)|
  {
    TallyTimes(writes, DueRanges(writes, commit), ch);
    assert DueFor(writes, commit, ch) == set r | r in DueRanges(writes, commit) && writes[r] == ch;
  }

  /** A notification keeps exactly the waiters for later indices, or no waiter at all. */
  lemma NotifyKeeps(form: NotifyForm, o: Registry, commit: nat, r: Range)
    ensures var o' := AfterNotify(form, o, commit);
            && (r in o'.writes <==> form.ErasesSignalled? && r in o.writes && commit < r.1)
            && (r in o'.writes ==> o'.writes[r] == o.writes[r])
  {
  }

  /** The loop starts from the registry and ends in AfterNotify. */
  lemma {:induction false} NotifyLoop(form: NotifyForm, o: Registry, commit: nat)
    ensures Left(form, o.writes, o.writes.Keys, commit) == o.writes
    ensures Tally(o.writes, Told(o.writes, o.writes.Keys, commit)) == multiset{}
    ensures AfterNotify(form, o, commit) ==
            Registry(Left(form, o.writes, {}, commit), o.signalled + Tally(o.writes, Told(o.writes, {}, commit)))
  {
    assert Told(o.writes, o.writes.Keys, commit) == {};
    assert Told(o.writes, {}, commit) == DueRanges(o.writes, commit);
  }

  lemma {:induction false} VisitOne(form: NotifyForm, was: map<Range, Channel>, todo: set<Range>, it: Range, commit: nat)
    requires it in todo && todo <= was.Keys
    ensures var left, left' := Left(form, was, todo, commit), Left(form, was, todo - {it}, commit);
            && it in left && left[it] == was[it]
            && left' == if Due(it, commit) || form.ErasesAll? then left - {it} else left
    ensures Tally(was, Told(was, todo - {it}, commit)) ==
            Tally(was, Told(was, todo, commit)) + if Due(it, commit) then multiset{was[it]} else multiset{}
  {
    var told, told' := Told(was, todo, commit), Told(was, todo - {it}, commit);
    if Due(it, commit) {
      assert told' - {it} == told;
      TallyWithout(was, told', it);
    } else {
      assert told' == told;
    }
  }

  // ---------------------------------------------------------------------------------------
  // Exactly when Notify strands a waiter
  // ---------------------------------------------------------------------------------------

  /** A waiter that Notify neither signals nor keeps. */
  ghost predicate Stranded(form: NotifyForm, o: Registry, commit: nat, r: Range) {
    r in o.writes && !Due(r, commit) && r !in AfterNotify(form, o, commit).writes
  }

  /** Some waiter waits for an index after this commit index. */
  ghost predicate WaitsLater(o: Registry, commit: nat) {
    exists r :: r in o.writes && commit < r.1
  }

  /** Some waiter is stranded if and only if all are erased while one waits for a later index. */
  lemma StrandsIff(form: NotifyForm, o: Registry, commit: nat)
    ensures (exists r :: Stranded(form, o, commit, r)) <==> form.ErasesAll? && WaitsLater(o, commit)
  {
    if form.ErasesAll? && WaitsLater(o, commit) {
      var r :| r in o.writes && commit < r.1;
      assert Stranded(form, o, commit, r);
    }
  }

  /** Two writers, the first committed: as the code is written the second is never told. */
  lemma SecondWriterLost()
    ensures var o := AfterRegister(AfterRegister(Registry(map[], multiset{}), (1, 1), 7), (2, 2), 8);
            var first := AfterNotify(ErasesAll, o, 1);
            var second := AfterNotify(ErasesAll, first, 2);
            first.signalled == multiset{7} && second == first && 8 !in second.signalled
  {
    var o := AfterRegister(AfterRegister(Registry(map[], multiset{}), (1, 1), 7), (2, 2), 8);
    assert DueRanges(o.writes, 1) == {(1, 1)};
    TallyWithout(o.writes, {(1, 1)}, (1, 1));
    assert {(1, 1)} - {(1, 1)} == {};
    assert DueRanges(map[], 2) == {};
  }
}
