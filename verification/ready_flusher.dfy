/**
 The write path of a replica: AsyncWrite on the executor (src/replicated_log_impl.h), and the
 flusher that takes each Ready, persists it, notifies waiters and sends messages
 (src/ready_flusher.cc), as interleaved atomic steps.

 The Raft node is abstract: its log grows, its commit index never passes its last index, and a
 Ready carries what is new since the last one.  A flush completes before the next is taken.
 */
module ReadyFlusher {
  import opened Coding
  import opened WalFormat
  import opened WalReader
  import opened LogWriting
  import opened LogManagement
  import opened CommitObserver

  type Message = nat

  /** `leads` is the comparison rd->currentLeader == rl->Id(). */
  datatype Ready = Ready(entries: seq<Entry>, hardState: Option<HardState>, messages: seq<Message>, leads: bool)
  {
    function Commit(): Option<nat> {
      if hardState.None? then None else hardState.value.commit
    }
  }

  datatype Action = Pass(messages: seq<Message>) | Persist(entries: seq<Entry>, hs: Option<HardState>)
                  | Tell(commit: nat) | Advance

  /** The messages go out before the log is written on the leader, after it elsewhere. */
  function Sends(rd: Ready, first: bool): seq<Action> {
    if rd.leads == first && rd.messages != [] then [Pass(rd.messages)] else []
  }

  function Tells(rd: Ready): seq<Action> {
    if rd.Commit().Some? then [Tell(rd.Commit().value)] else []
  }

  const STAGES: nat := 5

  /** What flushReady does at each of its stages, in the order of the code. */
  function ActionsAt(rd: Ready, stage: nat): seq<Action>
    requires stage < STAGES
  {
    match stage
    case 0 => Sends(rd, true)
    case 1 => [Persist(rd.entries, rd.hardState)]
    case 2 => Tells(rd)
    case 3 => [Advance]
    case 4 => Sends(rd, false)
  }

  function Actions(rd: Ready): seq<Action> {
    ActionsAt(rd, 0) + ActionsAt(rd, 1) + ActionsAt(rd, 2) + ActionsAt(rd, 3) + ActionsAt(rd, 4)
  }

  /** The peers, and everything the flusher did, in order. */
  class Cluster {
    ghost var trace: seq<Action>
    var passed: seq<seq<Message>>

    constructor ()
      ensures trace == [] && passed == []
    {
      trace, passed := [], [];
    }

    ghost method Record(a: Action)
      modifies this`trace
      ensures trace == old(trace) + [a]
    {
      trace := trace + [a];
    }

    /** cluster_->Pass(rd->messages) if this is the side that sends now. */
    method PassMessages(rd: Ready, first: bool)
      modifies this
      ensures trace == old(trace) + Sends(rd, first)
      ensures passed == old(passed) + if rd.leads == first && rd.messages != [] then [rd.messages] else []
    {
      if rd.leads == first {
        if rd.messages != [] {
          passed := passed + [rd.messages];
          trace := trace + [Pass(rd.messages)];
        }
      }
    }

    /** committedIndex has changed */
    method NotifyCommit(rd: Ready, observer: WalCommitObserver)
      modifies this`trace, observer
      ensures trace == old(trace) + Tells(rd)
      ensures observer.Value() == if rd.Commit().None? then old(observer.Value())
                                  else AfterNotify(observer.form, old(observer.Value()), rd.Commit().value)
    {
      if rd.hardState.Some? && rd.hardState.value.commit.Some? {
        observer.Notify(rd.hardState.value.commit.value);
        trace := trace + [Tell(rd.hardState.value.commit.value)];
      }
    }
  }

  /** flushReady: the stages in order, on the log, the observer and the cluster. */
  method FlushReady(rd: Ready, wal: LogManager, observer: WalCommitObserver, cluster: Cluster) returns (ok: bool)
    requires wal.Valid() && (rd.entries != [] ==> WriteEnds(wal.cfg, wal.Value(), rd.entries, rd.hardState))
    requires Small(wal.cfg.codec, Records(Batch(rd.hardState, rd.entries)))
    modifies wal, wal.disk, wal.current, observer, cluster
    ensures var r := old(AfterWrite(wal.cfg, wal.Value(), rd.entries, rd.hardState));
            ok == r.Some? && (ok ==> wal.Value() == r.value)
    ensures ok ==> cluster.trace == old(cluster.trace) + Actions(rd)
    ensures ok ==> cluster.passed == old(cluster.passed) + if rd.messages == [] then [] else [rd.messages]
    ensures ok && rd.hardState.Some? && rd.hardState.value.commit.Some? ==>
              observer.Value() == AfterNotify(observer.form, old(observer.Value()), rd.hardState.value.commit.value)
    ensures rd.hardState.None? || rd.hardState.value.commit.None? ==> observer.Value() == old(observer.Value())
    ensures !ok ==> observer.Value() == old(observer.Value()) && cluster.trace == old(cluster.trace) + Sends(rd, true)
    ensures !ok ==> cluster.passed == old(cluster.passed) + if rd.leads && rd.messages != [] then [rd.messages] else []
  {
    ghost var o := observer.Value();
    cluster.PassMessages(rd, true);
    ok := wal.Write(rd.entries, rd.hardState);
    if !ok {
      return;
    }
    assert observer.Value() == o;
    cluster.Record(Persist(rd.entries, rd.hardState));
    cluster.NotifyCommit(rd, observer);
    cluster.Record(Advance);
    cluster.PassMessages(rd, false);
    InOrder(old(cluster.trace), rd);
  }

  lemma InOrder(t: seq<Action>, rd: Ready)
    ensures t + Sends(rd, true) + [Persist(rd.entries, rd.hardState)] + Tells(rd) + [Advance] + Sends(rd, false)
         == t + Actions(rd)
  {
  }

  /**
   The order of a flush.  The log is written once, with what the Ready carries; waiters are told
   its commit index, if it has one, and the node advances, only after that; messages go out
   once, if there are any, before the log is written on the leader and last of all elsewhere.
   */
  lemma FlushOrder(rd: Ready) returns (p: nat)
    ensures var a := Actions(rd);
            && p < |a| && a[p] == Persist(rd.entries, rd.hardState)
            && (forall j :: 0 <= j < |a| && a[j].Persist? ==> j == p)
            && (forall j :: 0 <= j < |a| && (a[j].Tell? || a[j].Advance?) ==> p < j)
            && (forall j :: 0 <= j < |a| && a[j].Tell? ==>
                  rd.hardState.Some? && rd.hardState.value.commit == Some(a[j].commit))
            && (forall j :: 0 <= j < |a| && a[j].Pass? ==> a[j].messages == rd.messages != [])
            && (forall j :: 0 <= j < |a| && a[j].Pass? ==> if rd.leads then j < p else j == |a| - 1 && p < j)
            && |a| == 2 + (if rd.hardState.Some? && rd.hardState.value.commit.Some? then 1 else 0)
                        + (if rd.messages != [] then 1 else 0)
            && (rd.hardState.Some? && rd.hardState.value.commit.Some? ==> Tell(rd.hardState.value.commit.value) in a)
            && Advance in a && (rd.messages != [] ==> Pass(rd.messages) in a)
  {
    var a := Actions(rd);
    p := |Sends(rd, true)|;
    assert a[|a| - 1 - |Sends(rd, false)|] == Advance;
    if rd.Commit().Some? {
      assert a[p + 1] == Tell(rd.Commit().value);
    }
    if rd.messages != [] {
      assert a[if rd.leads then 0 else |a| - 1] == Pass(rd.messages);
    }
  }
}
