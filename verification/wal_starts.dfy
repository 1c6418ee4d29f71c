/** Where a segment starts: the number in its file name after the id. */
module WalStarts {
  import opened Coding
  import opened WalFormat
  import opened WalReader
  import opened LogWriting
  import opened LogManagement
  import opened WalLayout
  import opened WalRuns

  /** The index of the last entry, if there is one. */
  function LastIndexOf(es: seq<Entry>, otherwise: nat): nat {
    if es == [] then otherwise else es[|es| - 1].index
  }

  function EntriesOf(segs: seq<Segment>): seq<Entry> {
    Entries(History(segs))
  }

  /**
   Segment i, which a write added to the layout l, starts right after the last entry that the
   write put into the segments before it; if it put none there, after `last`.
   */
  ghost predicate StartsAfter(l: Layout, segs: seq<Segment>, i: nat, last: nat) {
    i < |segs| ==>
      && EntriesOf(l.All()) <= EntriesOf(segs[..i])
      && segs[i].start == 1 + LastIndexOf(EntriesOf(segs[..i])[|EntriesOf(l.All())|..], last)
  }

  ghost predicate NewStarts(l: Layout, segs: seq<Segment>, last: nat) {
    forall i: nat {:trigger StartsAfter(l, segs, i, last)} :: |l.All()| <= i ==> StartsAfter(l, segs, i, last)
  }

  /** The entries of an Append come after those of the log. */
  lemma {:induction false} AppendEntries(cfg: Config, w: Wal, l: Layout, es: seq<Entry>, hs: Option<HardState>)
    requires w.Sound() && (l.open.Some? <==> w.current.Some?)
    ensures EntriesOf(AppendLayout(cfg, w, l, es, hs).All()) ==
            EntriesOf(l.All()) + NextBatch(cfg, Opened(w), es, hs).entries
  {
    var b := NextBatch(cfg, Opened(w), es, hs);
    AppendHistory(cfg, w, l, es, hs);
    EntriesConcat(History(l.All()), Records(b));
    EntriesOfBatch(b);
  }

  /** What later iterations add starts where the first one left off. */
  lemma {:induction false} StartsShift(l: Layout, l': Layout, taken: seq<Entry>, segs: seq<Segment>, i: nat, last: nat)
    requires EntriesOf(l'.All()) == EntriesOf(l.All()) + taken
    requires StartsAfter(l', segs, i, LastIndexOf(taken, last))
    ensures StartsAfter(l, segs, i, last)
  {
    if i < |segs| {
      LastIndexShift(EntriesOf(l.All()), taken, EntriesOf(segs[..i]), last);
    }
  }

  lemma LastIndexShift(had: seq<Entry>, taken: seq<Entry>, all: seq<Entry>, last: nat)
    requires had + taken <= all
    ensures had <= all
    ensures LastIndexOf(all[|had|..], last) == LastIndexOf(all[|had + taken|..], LastIndexOf(taken, last))
  {
    assert all[..|had|] == had;
    assert all[|had|..] == taken + all[|had + taken|..];
  }

  lemma {:induction false} FirstStarts(l: Layout, s: Segment, last: nat)
    requires l.open.None? && s.start == last + 1
    ensures NewStarts(l, l.closed + [s], last)
  {
    var segs := l.closed + [s];
    assert segs[..|l.closed|] == l.closed;
    forall i: nat | |l.All()| <= i ensures StartsAfter(l, segs, i, last) {
    }
  }

  /**
   Segment starts.  Every segment that a write adds starts one after the last entry which that
   write put into the segments before it, or, if it put none there, one after the last index
   the manager had.
   */
  lemma {:induction false} WriteStarts(cfg: Config, w: Wal, l: Layout, es: seq<Entry>, hs: Option<HardState>)
    requires Usable(cfg) && Holds(cfg, w, l) && w.Sound() && es != [] && WriteNarrow(cfg, w, es, hs)
    ensures NewStarts(l, WriteLayout(cfg, w, l, es, hs).All(), w.lastIndex)
    decreases |es|, w.current.Some? || hs.Some?
  {
    FreshAccepts(cfg, es);
    AppendKeeps(cfg, w, l, es, hs);
    AppendedLast(cfg, w, l, es, hs);
    AppendEntries(cfg, w, l, es, hs);
    var r, b, l' := Iterate(cfg, w, es, hs), NextBatch(cfg, Opened(w), es, hs), AppendLayout(cfg, w, l, es, hs);
    if l.open.None? {
      FirstStarts(l, l'.open.value, w.lastIndex);
    }
    assert NewStarts(l, l'.All(), w.lastIndex);
    if r.More? {
      CloseKeeps(cfg, AfterAppend(cfg, Opened(w), es, hs), l', r.w.lastIndex);
      WriteStarts(cfg, r.w, CloseLayout(l'), r.rest, None);
      WriteExtends(cfg, r.w, CloseLayout(l'), r.rest, None);
      LaterStarts(l, l', b.entries, WriteLayout(cfg, r.w, CloseLayout(l'), r.rest, None).All(), w.lastIndex);
    }
  }

  lemma {:induction false} LaterStarts(l: Layout, l': Layout, taken: seq<Entry>, segs: seq<Segment>, last: nat)
    requires EntriesOf(l'.All()) == EntriesOf(l.All()) + taken && NewStarts(l, l'.All(), last) && l'.All() <= segs
    requires NewStarts(CloseLayout(l'), segs, LastIndexOf(taken, last))
    ensures NewStarts(l, segs, last)
  {
    forall i: nat | |l.All()| <= i ensures StartsAfter(l, segs, i, last) {
      if i < |l'.All()| {
        assert StartsAfter(l, l'.All(), i, last) && segs[..i] == l'.All()[..i];
      } else {
        assert StartsAfter(CloseLayout(l'), segs, i, LastIndexOf(taken, last));
        StartsShift(l, CloseLayout(l'), taken, segs, i, last);
      }
    }
  }
}
