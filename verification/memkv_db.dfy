/** The database on top of the replicated log (apps/memkv/src/db.cc). */
module MemKvDb {
  import opened Coding
  import opened PathMap
  import opened MemKv

  const WRITE_TYPE: byte := 1
  const DELETE_TYPE: byte := 2

  datatype LogOp = LogWrite(path: bytes, value: bytes) | LogDelete(path: bytes)

  /** The bytes of a slice as the characters the store works on. */
  function Text(x: bytes): (s: string)
    ensures |s| == |x| && forall i :: 0 <= i < |x| ==> s[i] as nat == x[i]
  {
    seq(|x|, i requires 0 <= i < |x| => x[i] as char)
  }

  function StoreOpOf(op: LogOp): StoreOp {
    match op
    case LogWrite(path, value) => WriteOp(Text(path), Text(value))
    case LogDelete(path) => DeleteOp(Text(path))
  }

  ghost predicate Short(op: LogOp) {
    |op.path| < TWO_32 && (op.LogWrite? ==> |op.value| < TWO_32)
  }

  // ---------------------------------------------------------------------------------------
  // The operation log
  // ---------------------------------------------------------------------------------------

  /** WRITE: type path value; DELETE: type path. */
  function Encoded(op: LogOp): bytes {
    match op
    case LogWrite(path, value) => [WRITE_TYPE] + Narrowed(path) + Narrowed(value)
    case LogDelete(path) => [DELETE_TYPE] + Narrowed(path)
  }

  method LogEncode(op: LogOp) returns (result: bytes)
    ensures result == Encoded(op)
  {
    result := [if op.LogWrite? then WRITE_TYPE else DELETE_TYPE];
    result := PutLengthPrefixedSlice(result, op.path);
    if op.LogWrite? {
      result := PutLengthPrefixedSlice(result, op.value);
    }
  }

  /** A write of "b" to "a", and a delete of "a". */
  lemma EncodedExample()
    ensures Encoded(LogWrite([97], [98])) == [1, 1, 97, 1, 98]
    ensures Encoded(LogDelete([97])) == [2, 1, 97]
  {
    assert Varint(1) == [1];
  }

  /** Reads an operation back; nothing may be left over. */
  function Decode(log: bytes): Option<LogOp> {
    if log == [] then None
    else
      match GetSlice(log[1..])
      case Malformed => None
      case Decoded(path, rest) =>
        if log[0] == DELETE_TYPE then if rest == [] then Some(LogDelete(path)) else None
        else if log[0] == WRITE_TYPE then
          match GetSlice(rest)
          case Malformed => None
          case Decoded(value, rest') => if rest' == [] then Some(LogWrite(path, value)) else None
        else None
  }

  /** An operation is read back exactly when its path and value are under 2^32 bytes. */
  lemma DecodeInverts(op: LogOp)
    ensures Decode(Encoded(op)) == Some(op) <==> Short(op)
  {
    match op
    case LogWrite(path, value) =>
      ReadsPath(WRITE_TYPE, path, Narrowed(value));
      ReadsLast(value);
    case LogDelete(path) =>
      ReadsPath(DELETE_TYPE, path, []);
      assert [DELETE_TYPE] + Narrowed(path) + [] == Encoded(op);
  }

  lemma ReadsPath(tag: byte, path: bytes, more: bytes)
    ensures var r := GetSlice(([tag] + Narrowed(path) + more)[1..]);
            r.Decoded? && if |path| < TWO_32 then r == Decoded(path, more) else |r.value| < TWO_32
  {
    assert ([tag] + Narrowed(path) + more)[1..] == Narrowed(path) + more;
    NarrowedRead(path, more);
    assert path[..|path|] == path && path[|path|..] + more == more;
  }

  lemma ReadsLast(value: bytes)
    ensures var r := GetSlice(Narrowed(value));
            r.Decoded? && if |value| < TWO_32 then r == Decoded(value, []) else |r.value| < TWO_32
  {
    NarrowedRead(value, []);
    assert Narrowed(value) + [] == Narrowed(value);
    assert value[..|value|] == value && value[|value|..] + [] == [];
  }

  lemma EncodedInjective(a: LogOp, b: LogOp)
    requires Short(a) && Short(b) && Encoded(a) == Encoded(b)
    ensures a == b
  {
    DecodeInverts(a);
    DecodeInverts(b);
  }

  /** A log entry cut short is not taken for another operation. */
  lemma {:induction false} TruncatedNotDecoded(op: LogOp, k: nat)
    requires Short(op) && k < |Encoded(op)|
    ensures Decode(Encoded(op)[..k]).None?
  {
    match op
    case LogDelete(path) =>
      assert Encoded(op) + [] == Encoded(op);
      CutInPath(DELETE_TYPE, path, [], k);
    case LogWrite(path, value) =>
      CutWrite(path, value, k);
  }

  lemma {:induction false} CutWrite(path: bytes, value: bytes, k: nat)
    requires |path| < TWO_32 && |value| < TWO_32 && k <= |Slice(path)| + |Slice(value)|
    ensures Decode(([WRITE_TYPE] + Slice(path) + Slice(value))[..k]).None?
  {
    if k <= |Slice(path)| {
      CutInPath(WRITE_TYPE, path, Slice(value), k);
    } else {
      var rest := k - 1 - |Slice(path)|;
      CutThird([WRITE_TYPE], Slice(path), Slice(value), k, rest);
      CutInValue(path, value, rest);
    }
  }

  lemma {:induction false} CutThird(a: bytes, b: bytes, c: bytes, k: nat, rest: nat)
    requires k == |a| + |b| + rest && rest <= |c|
    ensures (a + b + c)[..k] == a + b + c[..rest]
  {
  }

  lemma {:induction false} CutInPath(tag: byte, path: bytes, more: bytes, k: nat)
    requires |path| < TWO_32 && k <= |Slice(path)|
    ensures Decode(([tag] + Slice(path) + more)[..k]).None?
  {
    if k > 0 {
      CutFirst(tag, Slice(path), more, k);
      SliceTruncated(path, k - 1);
      NoSlice(([tag] + Slice(path) + more)[..k]);
    }
  }

  lemma {:induction false} CutFirst(tag: byte, b: bytes, c: bytes, k: nat)
    requires 0 < k <= 1 + |b|
    ensures ([tag] + b + c)[..k][1..] == b[..k - 1]
  {
  }

  lemma {:induction false} NoSlice(log: bytes)
    requires log != [] && GetSlice(log[1..]).Malformed?
    ensures Decode(log).None?
  {
  }

  lemma {:induction false} CutInValue(path: bytes, value: bytes, k: nat)
    requires |path| < TWO_32 && |value| < TWO_32 && k < |Slice(value)|
    ensures Decode([WRITE_TYPE] + Slice(path) + Slice(value)[..k]).None?
  {
    var log := [WRITE_TYPE] + Slice(path) + Slice(value)[..k];
    assert log[1..] == Slice(path) + Slice(value)[..k];
    SliceRoundTrip(path, Slice(value)[..k]);
    SliceTruncated(value, k);
  }

  // ---------------------------------------------------------------------------------------
  // Replay
  // ---------------------------------------------------------------------------------------

  function Decodes(logs: seq<bytes>): seq<StoreOp> {
    if logs == [] then [] else Decoding(logs[0]) + Decodes(logs[1..])
  }

  function Decoding(log: bytes): seq<StoreOp> {
    match Decode(log)
    case Some(op) => [StoreOpOf(op)]
    case None => []
  }

  /** The store a replica gets by applying the log to an empty one. */
  function ReplayLog(logs: seq<bytes>): Tree {
    PerformAll(EMPTY_TREE, Decodes(logs))
  }

  lemma {:induction false} DecodesConcat(a: seq<bytes>, b: seq<bytes>)
    ensures Decodes(a + b) == Decodes(a) + Decodes(b)
  {
    if a == [] {
      assert a + b == b;
    } else {
      assert (a + b)[1..] == a[1..] + b;
      DecodesConcat(a[1..], b);
      assert Decoding(a[0]) + (Decodes(a[1..]) + Decodes(b)) == Decoding(a[0]) + Decodes(a[1..]) + Decodes(b);
    }
  }

  lemma DecodesSnoc(logs: seq<bytes>, op: LogOp)
    requires Short(op)
    ensures Decodes(logs + [Encoded(op)]) == Decodes(logs) + [StoreOpOf(op)]
  {
    DecodeInverts(op);
    DecodesConcat(logs, [Encoded(op)]);
    assert [Encoded(op)][1..] == [];
    assert Decodes([Encoded(op)]) == Decoding(Encoded(op)) + [];
  }

  /** The store is what the log replays to. */
  ghost predicate Replays(t: Tree, logs: seq<bytes>) {
    t == ReplayLog(logs)
  }

  lemma ReplayNext(t: Tree, logs: seq<bytes>, op: LogOp)
    requires Short(op) && Replays(t, logs)
    ensures Replays(Perform(t, StoreOpOf(op)), logs + [Encoded(op)])
  {
    DecodesSnoc(logs, op);
    PerformAllSnoc(EMPTY_TREE, Decodes(logs), StoreOpOf(op));
  }

  lemma ReplayWrite(t: Tree, logs: seq<bytes>, path: bytes, value: bytes)
    requires Short(LogWrite(path, value)) && Replays(t, logs)
    ensures Replays(AfterWrite(t, Text(path), Text(value)).0, logs + [Encoded(LogWrite(path, value))])
  {
    ReplayNext(t, logs, LogWrite(path, value));
  }

  lemma ReplayDelete(t: Tree, logs: seq<bytes>, path: bytes)
    requires Short(LogDelete(path)) && Replays(t, logs)
    ensures Replays(AfterDelete(t, Text(path)).0, logs + [Encoded(LogDelete(path))])
  {
    ReplayNext(t, logs, LogDelete(path));
  }

  datatype DbStatus = Done(status: Status) | ConsensusError

  /** Requests one at a time; `committed` is the outcome of the replicated log's Write. */
  class DB {
    const kv: MemKvStore
    var log: seq<bytes>

    /** Replaying the log into an empty store gives the current store. */
    ghost predicate Valid()
      reads this, kv, kv.region
    {
      kv.Valid() && Replays(kv.Contents(), log)
    }

    constructor ()
      ensures Valid() && log == [] && fresh(kv) && fresh(kv.region)
    {
      kv := new MemKvStore();
      log := [];
    }

    method Write(path: bytes, value: bytes, committed: bool) returns (s: DbStatus)
      requires Valid() && Short(LogWrite(path, value))
      modifies this, kv, kv.region
      ensures Valid() && fresh(kv.region - old(kv.region))
      ensures !committed ==> s == ConsensusError && log == old(log) && kv.Contents() == old(kv.Contents())
      ensures committed ==> log == old(log) + [Encoded(LogWrite(path, value))]
      ensures committed ==>
                var r := AfterWrite(old(kv.Contents()), Text(path), Text(value));
                kv.Contents() == r.0 && s == Done(r.1)
    {
      var record := LogEncode(LogWrite(path, value));
      if !committed {
        return ConsensusError;
      }
      ReplayWrite(kv.Contents(), log, path, value);
      Append(record);
      var r := kv.Write(Text(path), Text(value));
      return Done(r);
    }

    /** The record is committed; the store does not follow it yet. */
    method Append(record: bytes)
      requires kv.Valid()
      modifies this
      ensures log == old(log) + [record] && kv.Valid() && kv.Contents() == old(kv.Contents())
    {
      log := log + [record];
    }

    method Delete(path: bytes, committed: bool) returns (s: DbStatus)
      requires Valid() && Short(LogDelete(path))
      modifies this, kv, kv.region
      ensures Valid()
      ensures !committed ==> s == ConsensusError && log == old(log) && kv.Contents() == old(kv.Contents())
      ensures committed ==> log == old(log) + [Encoded(LogDelete(path))]
      ensures committed ==>
                var r := AfterDelete(old(kv.Contents()), Text(path));
                kv.Contents() == r.0 && s == Done(r.1)
    {
      var record := LogEncode(LogDelete(path));
      if !committed {
        return ConsensusError;
      }
      ReplayDelete(kv.Contents(), log, path);
      Append(record);
      var r := kv.Delete(Text(path));
      return Done(r);
    }

    /** A read is refused unless this replica leads or a stale read is allowed. */
    method Get(path: bytes, leads: bool, stale: bool) returns (s: DbStatus, data: string)
      requires Valid()
      ensures if !leads && !stale then s == ConsensusError
              else (s, data) == var r := PathMap.Get(ReplayLog(log), Text(path)); (Done(r.0), r.1)
    {
      if !leads && !stale {
        return ConsensusError, "";
      }
      var status;
      status, data := kv.Get(Text(path));
      return Done(status), data;
    }
  }
}
