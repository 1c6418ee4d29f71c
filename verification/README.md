# consensus-yaraft: a verified model

consensus-yaraft wraps a Raft core with a write-ahead log, a flush loop that persists what the
core reports and wakes waiting writers, and a small key-value application on top. This project
models the parts of it that are hard to get right and proves properties of them over all inputs
and all runs:

- **The write-ahead log.** `LogWriter` packs records into checksummed, length-prefixed batches
  and stops greedily at the segment limit; `LogManager` rolls to a new segment and resumes;
  `Recover` reads the segments back in id order. The main result is the recovery round trip over
  every run of writes, closes and reopens (`WalRuns.RecoveryRoundTrip`), with its crash form: a
  write of any run interrupted in any iteration at any byte (`WalCrash.CrashInWrite`).
- **The byte coding underneath** (`Coding`): varints, fixed integers and length-prefixed slices.
- **Log overwrite** (`LogOverwrite`): a new entry cuts off everything at or above its index.
- **The write path of a replica** (`CommitObserver`, `ReadyFlusher`, `Replica`, `CommitWait`):
  `AsyncWrite`, the stages of `flushReady` and the commit observer as interleaved atomic steps.
- **The key-value store** (`PathMap`, `MemKv`, `MemKvDb`): a heap tree that behaves like a flat
  map over normalised paths, and an operation log that replays to it.

Code that updates objects in place is modelled by classes and loops (`LogWriter`, `LogManager`,
`ReadableLogSegment`, `WalCommitObserver`, `MemKvStore`, `DB`, the coding routines); each method is
proved equal to a function on values, and the theorems are about those functions. Every induction
is written out; lemmas over the log and the replica carry `{:induction false}` so that none rests
on an automatic one.

Library code is a parameter: a `Codec` holds the CRC and the protobuf serialisers as arbitrary
functions, of which only "parsing inverts serialising" is assumed. The directory is a map from
file name to the bytes handed to the file, so durability means bytes handed to the file, not
fsync. The memory store's `Append` adds at the end. The Raft node is abstract: its log grows, its
commit index is monotone and within its log, and a Ready carries what is new since the last one.

## Where the code and its intent part

The code is modelled as it is. Where one line decides between what the code does and what its
surroundings rely on, that line is a parameter (`Build`, `NotifyForm`), every theorem is stated
for every value of it, and the theorem says for which values, or exactly when, it holds.

- `src/wal/log_writer.cc:35` leaves the length prefix of the hard state out of the batch size.
  Recovery then fails exactly when a write with entries carried a hard state
  (`RecoveryRoundTrip`, `CompiledLosesHardState`); for hard states under 128 bytes the status is
  exactly a bad record (`RecoveryStatus`), although the checksum matches
  (`HardStateBatchRejected`). Entry counts stay right unless such a log is nevertheless reopened
  (`EntryCountsConserved`). The bytes written past the end of the scratch string are modelled as
  not reaching the file.
- `src/wal/log_writer.cc:40,43` compare a signed with an unsigned size. The two comparisons agree
  exactly while the file is within the limit (`ComparisonsAgreeIff`). Once a segment is over the
  limit it never rolls again (`OverLimitNeverRolls`, `GrowsForever`), and one large enough entry
  gets it there (`OverLimitReached`). The size bound holds exactly for runs in which no write
  starts over the limit (`SegmentSizeBound`, `CompiledBreaksBound`).
- `src/wal/log_manager.cc:130-159` does not end for some segment sizes; `DoWriteEndsIff` says in
  which states.
- `src/wal/log_manager.cc:116-118` drops a hard state written without entries, on which
  `src/ready_flusher.cc:82` relies (`HardStateAloneIsDropped`).
- `src/wal/log_manager.cc:152` steps before the first entry when none was accepted; modelled as
  leaving `lastIndex_` unchanged. `empty_` is always false and its branch is not modelled.
- `src/wal_commit_observer.cc:47` erases every waiter. A waiter is lost exactly when that happens
  while one waits for a later index (`NoLostWaiter`); `SecondWriterLost` gives an example. The
  loop's use of an erased iterator is read as going on with the next waiter.
- `apps/memkv/src/memkv_store.cc:96` makes `Delete` of a path ending in `/` delete nothing
  (`DeleteThenGet`, `TrailingSlashDeletesNothing`).
- Any torn tail makes `Recover` fail as a whole, although all complete batches were read
  (`RecoverTornLog`, `CrashInWrite`).

## Model

| member | source | states |
|---|---|---|
| Coding.VarintLength | src/base/coding.cc:103-110 | the loop returns the length of the varint's encoding, at most 10 |
| Coding.VarintWidths | src/base/coding.cc:75-96 | a varint has at most 5 bytes for a 32-bit value and at most 10 for a 64-bit value |
| Coding.EncodeVarint64 | src/base/coding.cc:81-90 | the loop writes exactly the varint of the value at the given place and nothing else |
| Coding.EncodeVarint32 | src/base/coding.cc:47-73 | the five-branch encoder writes the same bytes as the looping encoder for every 32-bit value |
| Coding.PutVarint32 | src/base/coding.cc:75-79 | appends exactly the varint of the value |
| Coding.PutLengthPrefixedSlice | src/base/coding.cc:98-101 | appends the length narrowed to 32 bits and the bytes, for slices of any size |
| Coding.EncodeFixed32 | src/base/coding.cc:9-18 | writes the low 32 bits, low byte first, and nothing else |
| Coding.GetVarint32PtrFallback | src/base/coding.cc:112-127 | the loop decodes what the reference decoder does, on every input, and never reads past the limit |
| Coding.GetVarint32Ptr | include/consensus/base/coding.h:87-96 | the one-byte fast path equals the fallback on every input |
| Coding.GetVarint64Ptr | src/base/coding.cc:141-156 | the 64-bit loop decodes what the reference decoder does, on every input |
| Coding.GetLengthPrefixedSlice | src/base/coding.cc:181-190 | decodes a length-prefixed slice or fails, on every input, and leaves the input as the source does: past a good length even on failure |
| Coding.Varint32RoundTrip | src/base/coding.cc:47-139 | decoding inverts encoding and leaves whatever follows |
| Coding.Varint64RoundTrip | src/base/coding.cc:81-168 | the same for 64-bit values |
| Coding.VarintTruncated | src/base/coding.cc:112-156 | no varint is a proper prefix of another: every truncation fails to decode |
| Coding.VarintOverflow | src/base/coding.cc:112-156 | a varint within the allowed bytes decodes modulo 2^32 or 2^64, and one that has not ended after 5 or 10 bytes is malformed |
| Coding.VarintsRoundTrip | src/base/coding.cc:47-168 | any list of 32-bit or 64-bit varints followed by any suffix decodes to the list and the suffix |
| Coding.SliceRoundTrip | src/base/coding.cc:98-190 | a slice under 2^32 bytes decodes to itself and leaves whatever follows |
| Coding.SliceTruncated | src/base/coding.cc:181-190 | every truncation of an encoded slice fails to decode |
| Coding.NarrowedRead | src/base/coding.cc:98-190 | a slice of any size is read back up to its length modulo 2^32, and the rest is left |
| Coding.SlicesRoundTrip | src/base/coding.cc:98-190 | any list of slices followed by any suffix decodes to the list and the suffix |
| Coding.Fixed32RoundTrip | include/consensus/base/coding.h:58-70 | decoding a fixed 32-bit integer inverts encoding it |
| Coding.CodingExamples | src/base/coding.cc:9-96 | bytes written out: 300 is AC 02, 0x04030201 is 01 02 03 04 |
| WalFormat.FormatIs | src/wal/format.h:21-45 | the bytes of the format written out: magic, record types 1 and 2, checksum, length and data of a batch |
| WalFormat.RecordsRoundTrip | src/wal/readable_log_segment.cc:72-91 | the records of a batch are read back, all and in order |
| WalFormat.RecordsReadExactly | src/wal/readable_log_segment.cc:72-91 | over all byte sequences, batch data is read without error to given records if and only if it is a series of type, varint length and data, of which type 2 is an entry, type 1 a hard state and any other is skipped |
| WalFormat.CutRecords | src/wal/readable_log_segment.cc:72-80 | any byte cut off a batch's data is a bad record or loses whole records from the end, with the cut on a record boundary |
| WalFormat.ReadOneFrame | src/wal/readable_log_segment.cc:55-96 | a frame at the head of the input: a wrong checksum is an error only if verified, and then nothing is applied; otherwise its records, then the rest |
| WalFormat.ReadWrittenSegment | src/wal/readable_log_segment.cc:55-96 | checksums written by the writer match: verification makes no difference |
| WalFormat.CutDatas | src/wal/readable_log_segment.cc:55-112 | any batches cut at any byte, whatever their data: the complete ones are read as they are, then the status names the part that was cut |
| WalFormat.CrashAtomicity | src/wal/readable_log_segment.cc:43-112 | for every prefix of a written segment exactly the records of the complete batches are applied; the status is OK only on a batch boundary at or after the magic, and otherwise the exact corruption |
| WalFormat.CompleteExists | src/wal/readable_log_segment.cc:43-112 | every cut has such a number of complete batches |
| WalFormat.ReaderAcceptsExactly | src/wal/readable_log_segment.cc:26-112 | over all byte sequences, the reader returns OK with given records if and only if all of the input is the magic followed by frames with good length, checksum and records, which are these; without the magic it says so |
| WalReader.ReplayIs | src/wal/readable_log_segment.cc:82-90 | applying records is appending their entries in order and keeping the last hard state |
| WalReader.LastHardStateIs | src/wal/readable_log_segment.cc:87-90 | the hard state kept is the one after which only entries follow, or the one before all |
| WalReader.ReadableLogSegment.ReadHeader | src/wal/readable_log_segment.cc:43-53 | consumes exactly the magic, or fails as the segment does |
| WalReader.ReadableLogSegment.ApplyRecords | src/wal/readable_log_segment.cc:72-91 | applies the records before the first bad one and counts the entries |
| WalReader.ReadableLogSegment.ReadRecord | src/wal/readable_log_segment.cc:55-96 | reads one batch: status, records applied, entries counted, input left |
| WalReader.ReadSegmentIntoMemoryStorage | src/wal/readable_log_segment.cc:26-41 | ends on every byte sequence; store, status and count are those of the reference reader |
| SegmentName.NameRoundTrip | src/wal/log_manager.cc:23-31 | a printed segment name (src/wal/segment_meta.cc:22-24) passes isWal and parses back to its two numbers |
| SegmentName.NameExample | src/wal/segment_meta.cc:22-24 | segment 2 from index 14 is 2-14.wal |
| LogWriting.SizeAccounting | src/wal/log_writer.cc:32-49 | the precomputed size is what the save loops produce, short of exactly the hard state's length prefix where that is not counted |
| LogWriting.LogWriter.SaveHardState | src/wal/log_writer.cc:78-86 | writes the hard state record at the offset and nothing else |
| LogWriting.LogWriter.SaveEntry | src/wal/log_writer.cc:93-98 | one more record after those already saved |
| LogWriting.LogWriter.SaveEntries | src/wal/log_writer.cc:88-100 | writes the records of all entries in order at the offset and nothing else |
| LogWriting.LogWriter.Fill | src/wal/log_writer.cc:31-49 | accepts the greedy number of entries and computes the batch size |
| LogWriting.LogWriter.Scratch | src/wal/log_writer.cc:51-72 | the batch is checksum, length and data of hard state and accepted entries |
| LogWriting.LogWriter.Append | src/wal/log_writer.cc:23-76 | the file grows by the magic if empty and exactly one batch; the new position and the entry count follow |
| LogManagement.FreshAccepts | src/wal/log_writer.cc:40-49 | a fresh segment takes an entry if and only if the segment size is over 18 bytes, or under 10 with the unsigned comparison |
| LogManagement.TakenAtOnce | src/wal/log_writer.cc:40-49 | as compiled, an open file over the limit takes all entries in one iteration |
| LogManagement.MissingFile | src/wal/log_manager.cc:105-112 | a listed segment whose file is missing is an I/O error, and nothing is read |
| LogManagement.CollisionFails | src/wal/log_writer.h:39 | without an open segment, an existing file of the next name makes the write fail |
| LogManagement.LogManager.NewWriter | src/wal/log_writer.h:32-42 | opens an empty file named by the next id and one past the last index, and fails only if it exists |
| LogManagement.LogManager.FinishCurrentWriter | src/wal/log_manager.cc:179-184 | the open segment becomes the last finished one, with its file name and its count |
| LogManagement.LogManager.Close | src/wal/log_manager.cc:168-173 | finishes the open segment, if any |
| LogManagement.LogManager.WriteOnce | src/wal/log_manager.cc:135-157 | one iteration: open, append, and finish if entries are left |
| LogManagement.LogManager.RollOver | src/wal/log_manager.cc:152-154 | the last index becomes that of the last accepted entry, and the segment is finished |
| LogManagement.LogManager.DoWrite | src/wal/log_manager.cc:130-159 | in every state in which the loop ends, it leaves the manager as the recursive definition of the rollover does |
| LogManagement.LogManager.Write | src/wal/log_manager.cc:115-128 | nothing without entries, with any segment size; otherwise doWrite |
| LogManagement.LogManager.ListWals | src/wal/log_manager.cc:82-90 | the map from id to start built from the listing |
| LogManagement.LogManager.Recover | src/wal/log_manager.cc:73-113 | status, memory store and manager are those of reading the listed segments in ascending id order |
| WalLayout.NameIsFree | src/wal/log_writer.h:32-42 | in every state the layout describes, a new writer never collides with a file |
| WalLayout.AppendKeepsOpen | src/wal/log_writer.cc:23-76 | appending to the open segment keeps bytes, names and counts of all segments right |
| WalLayout.AppendKeepsNew | src/wal/log_writer.h:32-42 | so does appending to a new segment |
| WalLayout.AppendHistory | src/wal/log_writer.cc:51-76 | an Append adds exactly the records of its batch to the history on disk |
| WalRecovery.WalsAreTheSegments | src/wal/log_manager.cc:82-90 | whatever the order of the listing, the map holds exactly segments 1..n with their starts |
| WalRecovery.RecoverReadsSegments | src/wal/log_manager.cc:105-112 | numeric id order is the order of writing, with or without checksum verification |
| WalRecovery.MetasAt | src/wal/readable_log_segment.cc:82-86 | the entry count rebuilt for a segment that was read is at most the one its writer had, and equal exactly when no batch of it is torn |
| WalRecovery.TornBatchLoses | src/wal/log_writer.cc:32-36 | a batch whose hard state length was not counted is rejected or loses an entry |
| WalRecovery.TornBatchRejected | src/wal/log_writer.cc:32-36 | with a hard state under 128 bytes it is always a bad record |
| WalRecovery.RecoverRestores | src/wal/log_manager.cc:73-113 | recovery gives back the history if and only if every batch is intact |
| WalRecovery.RecoverStatus | src/wal/log_manager.cc:73-113 | where all hard states are under 128 bytes the status is OK if every batch is intact and a bad record otherwise |
| WalRuns.WriteKeeps | src/wal/log_manager.cc:130-159 | doWrite succeeds and partitions its input: the history grows by the hard state, once and first, and all entries in order, wherever the rollovers fall |
| WalRuns.NarrowWrites | src/wal/log_writer.cc:62-65 | a write of under 2^32 bytes in all has only batches of under 2^32 bytes |
| WalRuns.ReopenKeeps | src/wal/log_manager.cc:92-112 | a recovered manager describes the same segments as the one that wrote them |
| WalRuns.RunKeeps | src/wal/log_manager.cc:73-184 | every run keeps the layout invariant, and the history is exactly what was written |
| WalRuns.RecoveryRoundTrip | src/wal/log_manager.cc:73-159 | after every run, Recover yields exactly all entries ever written, in order, and the last hard state written with entries, if and only if the hard state's length is counted or none was written |
| WalRuns.RecoveryStatus | src/wal/log_manager.cc:73-159 | after every run with hard states under 128 bytes, the status of Recover is OK if their length is counted or there is none, and otherwise a bad record |
| WalRuns.CompiledLosesHardState | src/wal/log_writer.cc:34-36 | as compiled, one write with a hard state anywhere in a run makes the log unrecoverable: what was written never comes back, and with hard states under 128 bytes Recover fails with a bad record |
| WalRuns.HardStateAloneIsDropped | src/wal/log_manager.cc:115-118 | after a hard state written without entries, Recover returns it exactly when it was already the last one written with entries |
| WalRuns.EntryCountsConserved | src/wal/log_writer.cc:74 | in every build and run: the counts never exceed the entries written; every segment has its count, and they sum to the entries written, if and only if no log with a torn batch was successfully reopened |
| WalRuns.CountsKept | src/wal/log_manager.cc:179-184 | so counts are conserved in every run without a reopen, and in every run with hard states under 128 bytes |
| WalRuns.SegmentIdsDense | src/wal/log_manager.h:60-62 | after every run the log files on disk are exactly one for each id of 1..SegmentNum() |
| WalLimits.DoWriteEndsIff | src/wal/log_manager.cc:130-159 | doWrite ends if and only if the segment size is usable or, as compiled, a segment is open (for sizes under 2^64) |
| WalLimits.Ends | src/wal/log_manager.cc:134-157 | with a usable size every iteration after the first accepts an entry, which bounds the iterations |
| WalLimits.FitsIs | src/wal/log_writer.cc:40-43 | the comparison is one of signed numbers, or of the space left taken modulo 2^64 |
| WalLimits.AppendBound | src/wal/log_writer.cc:31-49 | an Append ends under the limit plus the last entry record it took, or adds only a header and a hard state |
| WalLimits.AppendFull | src/wal/log_writer.cc:40-49 | the converse, in every build: an Append leaves entries over only if the file has then reached the segment size |
| WalLimits.ComparisonsAgreeIff | src/wal/log_writer.cc:40-43 | the unsigned and the signed comparison accept the same entries if and only if the file is within the limit |
| WalLimits.SegmentSizeBound | src/wal/log_writer.cc:31-49 | after every run, every segment is under the limit plus its own last entry record (plus header and hard state of a last batch without entries), if and only if the comparison is signed or no write started in a file over the limit |
| WalLimits.OverLimitNeverRolls | src/wal/log_writer.cc:40-43 | as compiled, a write to a segment over the limit goes into it whole |
| WalLimits.GrowsForever | src/wal/log_writer.cc:40-43 | as compiled, so do all later writes, whatever their volume |
| WalLimits.OverLimitReached | src/wal/log_writer.cc:40-43 | as compiled, one write of one entry that does not fit the segment leaves 1-1.wal open and over the limit |
| WalLimits.CompiledBreaksBound | src/wal/log_writer.cc:40-43 | as compiled, writing it twice breaks the size bound |
| WalLimits.RolledIsFull | src/wal/log_manager.cc:130-159 | in every build and state, each segment a write finishes has at least the segment size |
| WalLimits.FittingStays | src/wal/log_writer.cc:31-49 | a write that fits the segment it starts in goes there, in one batch |
| WalStarts.WriteStarts | src/wal/log_manager.cc:152 | each segment a write adds starts one after the last entry that write put into the segments before it, or, if none, one after the manager's last index |
| WalCrash.ReadCutSegment | src/wal/readable_log_segment.cc:43-112 | in every build, a segment cut anywhere reads as its complete batches, and then the exact status of the cut |
| WalCrash.SurvivedExists | src/wal/readable_log_segment.cc:43-112 | every cut has such a number of complete batches |
| WalCrash.RecoverTornLog | src/wal/log_manager.cc:73-113 | in every build, with the last segment cut at any byte, Recover brings back what it would from the earlier segments and the complete batches; where that is OK the status is that of the cut |
| WalCrash.CrashInWrite | src/wal/log_manager.cc:130-159 | after every run, a write interrupted in any iteration at any byte: Recover yields exactly all completed writes and the complete batches of this one, with the exact status, if and only if the hard state length is counted or none of these records is one |
| WalCrash.HardStateBatchRejected | src/wal/log_writer.cc:34-65 | as compiled, a batch with a hard state under 128 bytes is always a bad record, although its checksum matches |
| LogOverwrite.AppendToMemStore | src/wal/log_manager.cc:34-61 | accepts if and only if the log is empty or the term is not below the last one; then cuts the entries at or above the index and appends; a rejected entry changes nothing |
| LogOverwrite.AppendAllToMemStore | src/wal/log_manager.h:89-96 | offers entries until one is rejected; the hard state is not touched |
| LogOverwrite.SurvivalLaw | src/wal/log_manager.cc:34-61 | an entry survives exactly when no later accepted entry is at or below its index; indices stay increasing and terms non-decreasing; the first entry not accepted has a term below the last one then in the log |
| LogOverwrite.AcceptanceLaw | src/wal/log_manager.cc:37-43 | on a log of growing terms all entries are accepted if and only if the terms go on growing |
| CommitObserver.WalCommitObserver.Register | src/wal_commit_observer.cc:26-37 | adds the waiter, on any channel; where its range is taken nothing changes |
| CommitObserver.WalCommitObserver.Notify | src/wal_commit_observer.cc:39-49 | sends OK for every range the commit index has reached and erases these ranges (or all) |
| CommitObserver.ToldTimes | src/wal_commit_observer.cc:42-48 | a channel is told exactly once for each of its ranges that is due |
| CommitObserver.NotifyKeeps | src/wal_commit_observer.cc:42-48 | what stays registered is exactly the waiters for later indices, or nothing |
| CommitObserver.StrandsIff | src/wal_commit_observer.cc:42-48 | a waiter is neither told nor kept if and only if all are erased while one waits for a later index |
| CommitObserver.SecondWriterLost | src/wal_commit_observer.cc:47 | an example: the second of two writers is never told |
| ReadyFlusher.FlushReady | src/ready_flusher.cc:61-100 | the effects happen in the order of the code, and the log, the registry and the peers end as specified; if the log write fails, only a leader's messages have gone out |
| ReadyFlusher.FlushOrder | src/ready_flusher.cc:61-100 | the log is written once, with what the Ready carries; telling and advancing come after it; messages go out once, before it on the leader and last of all elsewhere |
| Replica.AsyncWriteTask | src/replicated_log_impl.h:98-116 | refuses if and only if the node does not lead or does not accept the proposal, and then nothing changes; otherwise the entry is the log's last and the writer is registered for it |
| Replica.FiveStages | src/ready_flusher.cc:61-100 | the stages of the step model add up to one flushReady |
| Replica.PersistBeforeRespond | src/ready_flusher.cc:61-100 | at every crash point of every run over any Readys, the log recovers exactly what was persisted if and only if the hard state length is counted or there was none (else, with hard states under 128 bytes, it fails), and what was persisted contains all entries of each non-leader Ready whose messages went out |
| Replica.MessagesSentOnce | src/ready_flusher.cc:68-99 | the messages passed are those of completed flushes, each once and in order, and of a leader's flush in flight |
| CommitWait.NonLeaderRefuses | src/replicated_log_impl.h:100-105 | a write submitted to a node that does not lead is answered once and changes neither log nor registry |
| CommitWait.OnlyLeadersAccept | src/replicated_log_impl.h:98-116 | over every run, the writers that wait are exactly those submitted to a leading node that accepted; exactly the others are answered with an error, once |
| CommitWait.AcknowledgedIsRecovered | src/replicated_log_impl.h:95-119 | over every interleaving no channel is answered twice, and a writer told OK has its very entry handed to this replica's log; Recover returns it at its index if the hard state length is counted or no hard state was written, and with hard states under 128 bytes only then |
| CommitWait.NoLostWaiter | src/wal_commit_observer.cc:39-49 | after every run no writer is lost if and only if Notify never erased all waiters while one waited for an index after the commit index; never, where only signalled waiters are erased |
| CommitWait.CommittedIsTold | src/ready_flusher.cc:85-88 | when nothing is in flight and nothing newer is to be reported, a writer that is not lost has been told if and only if its index is committed |
| PathMap.SplitJoin | apps/memkv/src/memkv_store.cc:145-147 | splitting cuts at exactly the slashes |
| PathMap.TrimLaw | apps/memkv/src/memkv_store.cc:132-134 | trimming takes spaces off both ends and no more |
| PathMap.ValidIff | apps/memkv/src/memkv_store.cc:132-148 | a path is valid if and only if it has a character other than spaces and no NUL |
| PathMap.KeyOfSlash | apps/memkv/src/memkv_store.cc:145-147 | a slash separates: the key of two strings with one between them is the key of the one, then of the other, and a string without slashes is its own segment |
| PathMap.SlashesIgnored | apps/memkv/src/memkv_store.cc:54-58 | a slash before or behind a path does not change its key |
| PathMap.EndsInSlashIff | apps/memkv/src/memkv_store.cc:132-148 | the last segment is empty exactly when the trimmed path ends in a slash |
| PathMap.Answers | apps/memkv/src/memkv_store.cc:47-148 | the status of every operation on every string: which paths are taken, when Delete and Get succeed, and that a refused operation changes nothing |
| PathMap.ReadsBack | apps/memkv/src/memkv_store.cc:47-129 | what is written to a path is read there with slashes put in front |
| PathMap.WriteThenGet | apps/memkv/src/memkv_store.cc:47-73 | after a Write all paths with the same key read the value, missing ancestors read as empty, all others read as before |
| PathMap.DeleteThenGet | apps/memkv/src/memkv_store.cc:75-105 | Delete removes exactly the key and its descendants if and only if the path does not end in a slash |
| PathMap.TrailingSlashDeletesNothing | apps/memkv/src/memkv_store.cc:96-99 | an example: Delete("/a/") is refused and the node stays |
| PathMap.AlwaysPrefixClosed | apps/memkv/src/memkv_store.cc:47-105 | after any operations the root is there and no node is without its parent |
| MemKv.MemKvStore.Write | apps/memkv/src/memkv_store.cc:47-73 | the heap tree stays a tree and stands for the map after the write; OK exactly on paths with a character other than spaces and no NUL |
| MemKv.MemKvStore.Delete | apps/memkv/src/memkv_store.cc:75-105 | the same for delete, with the status of every case |
| MemKv.MemKvStore.Get | apps/memkv/src/memkv_store.cc:107-129 | the descent returns what the map has at the key, or the error |
| MemKvDb.LogEncode | apps/memkv/src/db.cc:36-48 | type, path and, for writes, value, with lengths narrowed to 32 bits |
| MemKvDb.EncodedExample | apps/memkv/src/db.cc:25-48 | bytes written out: a write of b to a is 1 1 97 1 98, a delete of a is 2 1 97 |
| MemKvDb.DecodeInverts | apps/memkv/src/db.cc:30-48 | an operation is read back from its encoding if and only if its path and value are under 2^32 bytes |
| MemKvDb.EncodedInjective | apps/memkv/src/db.cc:36-48 | different operations have different encodings |
| MemKvDb.TruncatedNotDecoded | apps/memkv/src/db.cc:36-48 | an encoding cut short is never taken for another operation |
| MemKvDb.DB.Write | apps/memkv/src/db.cc:88-98 | the log grows by the record and the store by the operation, which keeps the store equal to the replayed log |
| MemKvDb.DB.Delete | apps/memkv/src/db.cc:76-86 | the same for delete |
| MemKvDb.DB.Get | apps/memkv/src/db.cc:55-74 | refused unless leading or stale reads are allowed, otherwise what the replayed log has |

## Left out

- The Raft core (`RawNode`, `Ready`, `MemoryStorage`): its source is not part of the repository. Leader changes that overwrite log entries are not modelled in `CommitWait`; `Replica.PersistBeforeRespond` and `Replica.MessagesSentOnce` hold for any Readys.
- `flushRound` and the threads, timers and queues around it: a flush completes before the next Ready is taken, and executor tasks run one at a time.
- `Advance(memstore)` in `flushReady` is a stage without effect on the modelled state.
- The 64-bit fixed integers and the pointer form of `GetLengthPrefixedSlice`: they would only repeat the 32-bit and slice forms.
- Files with the suffix `.wal` whose names do not parse leave uninitialised numbers in the source; the model ignores them, and no run from a fresh directory has any.
- `sscanf` overflow for numbers over 64 bits, and file sizes over 2^63.
- Batches of 2^32 bytes and more: their length field is truncated, and what a reader then finds depends on the checksum. The theorems over runs ask for smaller batches (`WalRuns.WriteNarrow`).
- `Sync`, `GC`, logging, status texts, the network services and the generated protobuf code.
- `TrimSpace` is taken to trim blanks and the control characters from tab to carriage return; its source is not part of the repository.
- Memory not freed by `MemKvStore::Delete`, and the lifetime of the channel in `AsyncWrite`.
