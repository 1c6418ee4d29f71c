/** Log overwrite on append (`AppendToMemStore` in src/wal/log_manager.cc and src/wal/log_manager.h). */
module LogOverwrite {
  import opened WalFormat
  import opened WalReader

  /** A new entry may not have a lower term than the last entry. */
  predicate Accepts(log: seq<Entry>, e: Entry) {
    log == [] || log[|log| - 1].term <= e.term
  }

  /** log without its longest suffix of entries at or above the index. */
  function CutAt(log: seq<Entry>, index: nat): seq<Entry> {
    if log == [] || log[|log| - 1].index < index then log else CutAt(log[..|log| - 1], index)
  }

  /** The log after an entry is offered to it. */
  function Offer(log: seq<Entry>, e: Entry): seq<Entry> {
    if Accepts(log, e) then CutAt(log, e.index) + [e] else log
  }

  /** The entries are all accepted, one after another. */
  predicate AcceptsAll(log: seq<Entry>, es: seq<Entry>)
    decreases |es|
  {
    es == [] || (Accepts(log, es[0]) && AcceptsAll(Offer(log, es[0]), es[1..]))
  }

  /** The vector form: offers entries until one is rejected. */
  function OfferAll(log: seq<Entry>, es: seq<Entry>): seq<Entry>
    decreases |es|
  {
    if es == [] || !Accepts(log, es[0]) then log else OfferAll(Offer(log, es[0]), es[1..])
  }

  // ---------------------------------------------------------------------------------------
  // The code
  // ---------------------------------------------------------------------------------------

  lemma {:induction false} CutAtKeeps(log: seq<Entry>, index: nat, n: nat)
    requires n <= |log| && (n > 0 ==> log[n - 1].index < index)
    requires forall i :: n <= i < |log| ==> log[i].index >= index
    ensures CutAt(log, index) == log[..n]
  {
    if n < |log| {
      CutAtKeeps(log[..|log| - 1], index, n);
      assert log[..|log| - 1][..n] == log[..n];
    } else {
      assert log[..n] == log;
    }
  }

  /** OK exactly when the term is not lower; a rejected entry changes nothing. */
  method AppendToMemStore(e: Entry, memstore: MemoryStorage) returns (ok: bool)
    modifies memstore
    ensures var log := old(memstore.entries); ok <==> log == [] || log[|log| - 1].term <= e.term
    ensures !ok ==> memstore.Contents() == old(memstore.Contents())
    ensures ok ==> memstore.entries != [] && memstore.entries[|memstore.entries| - 1] == e
    ensures memstore.Contents() == old(memstore.Contents()).(entries := Offer(old(memstore.entries), e))
  {
    ghost var log := memstore.entries;
    if memstore.entries != [] {
      if e.term < memstore.entries[|memstore.entries| - 1].term {
        return false;
      }
      var del := |memstore.entries| - 1;
      while del >= 0
        invariant -1 <= del < |log|
        invariant forall i :: del < i < |log| ==> log[i].index >= e.index
        invariant memstore.entries == log && memstore.hardState == old(memstore.hardState)
      {
        if memstore.entries[del].index < e.index {
          break;
        }
        del := del - 1;
      }
      CutAtKeeps(log, e.index, del + 1);
      var sz := |memstore.entries|;
      var i := del + 1;
      while i < sz
        invariant del + 1 <= i <= sz == |log|
        invariant memstore.entries == log[..sz - (i - (del + 1))] && memstore.hardState == old(memstore.hardState)
      {
        memstore.entries := memstore.entries[..|memstore.entries| - 1];
        i := i + 1;
      }
    }
    memstore.Append(e);
    return true;
  }

  method AppendAllToMemStore(es: seq<Entry>, memstore: MemoryStorage) returns (ok: bool)
    modifies memstore
    ensures ok == AcceptsAll(old(memstore.entries), es)
    ensures memstore.Contents() == old(memstore.Contents()).(entries := OfferAll(old(memstore.entries), es))
  {
    var i := 0;
    assert es[0..] == es;
    while i < |es|
      invariant i <= |es|
      invariant AcceptsAll(memstore.entries, es[i..]) == AcceptsAll(old(memstore.entries), es)
      invariant OfferAll(memstore.entries, es[i..]) == OfferAll(old(memstore.entries), es)
      invariant memstore.hardState == old(memstore.hardState)
    {
      assert es[i..][0] == es[i] && es[i..][1..] == es[i + 1..];
      ok := AppendToMemStore(es[i], memstore);
      if !ok {
        return;
      }
      i := i + 1;
    }
    return true;
  }

  // ---------------------------------------------------------------------------------------
  // The survival law
  // ---------------------------------------------------------------------------------------

  ghost predicate IndicesIncrease(log: seq<Entry>) {
    forall i, j :: 0 <= i < j < |log| ==> log[i].index < log[j].index
  }

  ghost predicate TermsGrow(log: seq<Entry>) {
    forall i, j :: 0 <= i < j < |log| ==> log[i].term <= log[j].term
  }

  /** Entry i of a sequence of entries survives when no later one is at or below its index. */
  predicate Survives(all: seq<Entry>, i: nat)
    requires i < |all|
  {
    forall j :: i < j < |all| ==> all[i].index < all[j].index
  }

  /** The entries that survive, in order. */
  function Survivors(all: seq<Entry>): seq<Entry> {
    if all == [] then []
    else (if Survives(all, 0) then [all[0]] else []) + Survivors(all[1..])
  }

  lemma {:induction false} SurvivorsOfSorted(log: seq<Entry>)
    requires IndicesIncrease(log)
    ensures Survivors(log) == log
  {
    if log != [] {
      SurvivorsOfSorted(log[1..]);
      assert [log[0]] + log[1..] == log;
    }
  }

  ghost predicate Above(log: seq<Entry>, low: nat) {
    forall i :: 0 <= i < |log| ==> low < log[i].index
  }

  lemma {:induction false} SurvivorsAbove(all: seq<Entry>, low: nat)
    requires Above(all, low)
    ensures Above(Survivors(all), low)
  {
    if all != [] {
      SurvivorsAbove(all[1..], low);
    }
  }

  lemma {:induction false} SurvivorsIncrease(all: seq<Entry>)
    ensures IndicesIncrease(Survivors(all))
  {
    if all != [] {
      SurvivorsIncrease(all[1..]);
      if Survives(all, 0) {
        assert Above(all[1..], all[0].index);
        SurvivorsAbove(all[1..], all[0].index);
      }
    }
  }

  /** Cutting distributes over a first entry that stays below the rest. */
  lemma {:induction false} CutAtCons(e: Entry, s: seq<Entry>, index: nat)
    requires IndicesIncrease([e] + s)
    ensures CutAt([e] + s, index) == if e.index < index then [e] + CutAt(s, index) else []
  {
    var es := [e] + s;
    if s == [] {
      assert es == [e] && CutAt([], index) == [];
      assert es[..|es| - 1] == [];
    } else {
      assert es[|es| - 1] == s[|s| - 1] && es[..|es| - 1] == [e] + s[..|s| - 1];
      assert es[0].index < es[|es| - 1].index;
      if s[|s| - 1].index >= index {
        CutAtCons(e, s[..|s| - 1], index);
      }
    }
  }

  /** One more entry: the survivors are those of before below its index, and itself. */
  lemma {:induction false} SurvivorsSnoc(all: seq<Entry>, e: Entry)
    ensures Survivors(all + [e]) == CutAt(Survivors(all), e.index) + [e]
  {
    if all == [] {
      assert all + [e] == [e] && [e][1..] == [];
      assert CutAt([], e.index) == [];
    } else {
      var first, rest := all[0], all[1..];
      assert (all + [e])[0] == first && (all + [e])[1..] == rest + [e];
      SurvivorsSnoc(rest, e);
      SurvivesSnoc(all, e);
      if Survives(all, 0) {
        SurvivorsIncrease(all);
        CutFirst(first, Survivors(rest), e);
      } else {
        assert Survivors(all) == Survivors(rest);
      }
    }
  }

  lemma CutFirst(first: Entry, rest: seq<Entry>, e: Entry)
    requires IndicesIncrease([first] + rest)
    ensures CutAt([first] + rest, e.index) + [e] ==
            (if first.index < e.index then [first] else []) + (CutAt(rest, e.index) + [e])
  {
    CutAtCons(first, rest, e.index);
    if first.index >= e.index {
      forall i | 0 <= i < |rest| ensures e.index <= rest[i].index {
        assert ([first] + rest)[i + 1] == rest[i] && ([first] + rest)[0] == first;
      }
      EmptyCut(rest, e.index);
    }
  }

  lemma SurvivesSnoc(all: seq<Entry>, e: Entry)
    requires all != []
    ensures Survives(all + [e], 0) <==> Survives(all, 0) && all[0].index < e.index
  {
    var more := all + [e];
    assert more[0] == all[0] && more[|all|] == e;
    if Survives(more, 0) {
      assert forall j :: 0 < j < |all| ==> more[j] == all[j];
    }
  }

  lemma {:induction false} EmptyCut(s: seq<Entry>, index: nat)
    requires forall i :: 0 <= i < |s| ==> index <= s[i].index
    ensures CutAt(s, index) == []
  {
    if s != [] {
      EmptyCut(s[..|s| - 1], index);
    }
  }

  /** The number of entries offered before the first one that is rejected. */
  function AcceptedCount(log: seq<Entry>, es: seq<Entry>): (n: nat)
    ensures n <= |es|
    decreases |es|
  {
    if es == [] || !Accepts(log, es[0]) then 0 else 1 + AcceptedCount(Offer(log, es[0]), es[1..])
  }

  lemma {:induction false} AcceptedPrefix(log: seq<Entry>, es: seq<Entry>)
    ensures var n := AcceptedCount(log, es);
            && AcceptsAll(log, es[..n]) && OfferAll(log, es) == OfferAll(log, es[..n])
            && (n == |es| <==> AcceptsAll(log, es))
            && (n < |es| ==> !Accepts(OfferAll(log, es), es[n]))
    decreases |es|
  {
    var n := AcceptedCount(log, es);
    if n > 0 {
      AcceptedPrefix(Offer(log, es[0]), es[1..]);
      assert es[..n][1..] == es[1..][..n - 1] && es[..n][0] == es[0];
    }
  }

  /** The last entry's term is above this one. */
  predicate EndsAbove(log: seq<Entry>, term: nat) {
    log != [] && term < log[|log| - 1].term
  }

  /**
   The survival law: offering any entries to an index-sorted log leaves exactly those of the
   log and the accepted entries that no later accepted entry is at or below, in order.  The
   first entry that is not accepted has a lower term than the last one then in the log.
   */
  lemma {:induction false} SurvivalLaw(log: seq<Entry>, es: seq<Entry>)
    requires IndicesIncrease(log)
    ensures var n := AcceptedCount(log, es);
            && OfferAll(log, es) == Survivors(log + es[..n])
            && (n == |es| <==> AcceptsAll(log, es))
            && (n < |es| ==> EndsAbove(OfferAll(log, es), es[n].term))
    ensures IndicesIncrease(OfferAll(log, es))
    ensures TermsGrow(log) ==> TermsGrow(OfferAll(log, es))
  {
    var n := AcceptedCount(log, es);
    AcceptedPrefix(log, es);
    SurvivorsOfSorted(log);
    Offered(log, log, es[..n]);
    SurvivorsIncrease(log + es[..n]);
    if TermsGrow(log) {
      OfferAllTerms(log, es);
    }
  }

  /** On a log of growing terms all entries are accepted exactly when the terms go on growing. */
  lemma {:induction false} AcceptanceLaw(log: seq<Entry>, es: seq<Entry>)
    requires TermsGrow(log)
    ensures AcceptsAll(log, es) <==> TermsGrow(log + es)
    ensures IndicesIncrease(log) && TermsGrow(log + es) ==> OfferAll(log, es) == Survivors(log + es)
  {
    AcceptsAllIff(log, log, es);
    if IndicesIncrease(log) && TermsGrow(log + es) {
      SurvivorsOfSorted(log);
      Offered(log, log, es);
    }
  }

  /** The entries offered so far have growing terms, and the log ends with the last of them. */
  ghost predicate Traces(all: seq<Entry>, log: seq<Entry>) {
    && TermsGrow(all)
    && (all == [] <==> log == [])
    && (all != [] ==> all[|all| - 1] == log[|log| - 1])
  }

  lemma {:induction false} AcceptsAllIff(all: seq<Entry>, log: seq<Entry>, es: seq<Entry>)
    requires Traces(all, log)
    ensures AcceptsAll(log, es) <==> TermsGrow(all + es)
    decreases |es|
  {
    if es == [] {
      assert all + es == all;
    } else {
      var all', log' := all + [es[0]], Offer(log, es[0]);
      assert all' + es[1..] == all + es;
      if Accepts(log, es[0]) {
        assert TermsGrow(all');
        AcceptsAllIff(all', log', es[1..]);
      } else {
        assert (all + es)[|all| - 1] == all[|all| - 1] && (all + es)[|all|] == es[0];
      }
    }
  }

  lemma {:induction false} Offered(all: seq<Entry>, log: seq<Entry>, es: seq<Entry>)
    requires log == Survivors(all) && AcceptsAll(log, es)
    ensures OfferAll(log, es) == Survivors(all + es)
    decreases |es|
  {
    if es == [] {
      assert all + es == all;
    } else {
      var all' := all + [es[0]];
      SurvivorsSnoc(all, es[0]);
      assert Offer(log, es[0]) == Survivors(all');
      Offered(all', Offer(log, es[0]), es[1..]);
      assert all' + es[1..] == all + es;
    }
  }

  lemma {:induction false} CutAtPrefix(s: seq<Entry>, index: nat)
    ensures CutAt(s, index) <= s
  {
    if s != [] && s[|s| - 1].index >= index {
      CutAtPrefix(s[..|s| - 1], index);
    }
  }

  lemma {:induction false} OfferAllTerms(log: seq<Entry>, es: seq<Entry>)
    requires TermsGrow(log)
    ensures TermsGrow(OfferAll(log, es))
    decreases |es|
  {
    if es != [] && Accepts(log, es[0]) {
      CutAtPrefix(log, es[0].index);
      OfferAllTerms(Offer(log, es[0]), es[1..]);
    }
  }
}
