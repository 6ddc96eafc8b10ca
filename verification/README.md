# Verified model of a replicated cache

A Dafny model of the cinder distributed cache: how a write reaches its replicas and survives their absence, how a
quorum read finds it, how a crash is recovered from, and the data structures this rests on. Protocols are state machines
whose runs are arbitrary sequences of enabled steps; data structures are classes with the original's fields, each
method proved to do what a specification over plain values says; the promises are lemmas about those values and runs.

`dafny verify dfyconfig.toml` checks everything. The main results, by module:

- `Replication`: over every interleaving of writes, deliveries, repeats, acknowledgements, failures, hint replays,
  repairs and reads, no committed write is forgotten (`NothingForgotten`), and a read that hears from more than N - W
  members sees every write that had succeeded before it (`QuorumReadSeesWrite`, `OverlappingQuorums`).
- `QuorumBound`: that bound cannot be lowered for any write sent to two replicas or more, whatever quorum the read asks
  for: a read can decide on exactly N - W answers and miss the write, and with one answer more it cannot
  (`TooFewAnswersCanMiss`, `OneMoreAnswerIsEnough`). With fewer replicas N - W is 0, and a read always has one answer,
  its own; with a quorum of one it asks for no other.
- `ReplicationRuns`, `ReplicationValues`: the same over the steps of a run alone: every write step is accounted for, a
  read step after a successful write sees it, two successful writes meet, no hint is given up without a cause, and
  whatever is stored or returned was written (`EveryWriteIsAccountedFor`, `ReadAfterWriteSees`, `StoredIsWritten`).
- `Persistence`: with a crash possible between any two file operations, recovery brings back everything drained to the
  log, and nothing that was not written (`NothingDrainedIsLost`, `DrainedWriteSurvives`).
- `LogFiles`: the same with the log files as bytes, a crash cutting an append, a repair or a header anywhere; recovery
  refuses the files exactly when the active log ends inside its header (`FilesLoseNothing`, `DrainedBytesSurvive`),
  and then no run brings the node up again (`HeaderCutIsFinal`).
- `Wal`, `WalFile`: a log cut anywhere past its header reads back its whole records; healed and appended to, it reads
  back those and the new ones.
- `HintQueueSpec`, `HintQueueImpl`: the slot array with its free list and generations is a bounded sequence with one
  hint per target and key; a stale handle never deletes another hint.
- `HintJournalSpec`, `HintJournalImpl`: replaying the journal rebuilds the queue, and exactly when a removal by version
  agrees with the removal by handle that it records.
- `FanOut`, `ReadQuorum`, `Lww`: deciding early means the same as deciding late; reduction does not depend on the order
  of answers; the highest version wins, and replicas that received the same writes agree.
- `HashRingSpec`, `HashRingImpl`: the ring depends on the members only, exactly when no two of them collide: with a
  collision, two histories that end with the same members build different rings (`CollisionRemembersHistory`); a
  member that leaves or joins moves no key between the others; bounded load always finds a node.
- `TtlWheelSpec`, `TtlWheelImpl`: doubly linked slots and an indexed heap agree with a map of due ticks; each tick fires
  exactly what is due.
- `Lfu`: swap-and-pop buckets agree with a map of frequencies; eviction takes a least-used entry that is no delete marker.
- `Wire`, `WireIo`: which requests and responses survive the wire unchanged, and that every accepted frame is a fixed
  point of decoding and encoding.
- `DetectorSpec`, `FailureDetectorImpl`: exactly when a peer is given up on (`GivenUpIff`), a suspect that stays silent
  dies (`SilentPeerDies`), every peer gets its turn, and a node never believes its own death.

Hash functions (xxHash for checksums, virtual nodes and keys) and clocks are parameters. Integers are unbounded except
where a width matters: bytes, 32- and 64-bit fields, the 62-bit version (`PackedEntry`).

Where comments and code differ, the model follows the code:

- The store rejects a write only when its stamp is strictly older; an equal stamp is applied again
  (include/cinder/store/detail/eviction_store_base.hpp:171).
- A hint with a stamp equal to the queued one replaces it (include/cinder/node/hint_queue.hpp:287-292), although the
  comment at line 87 says it is ignored.
- A log that ends inside its header is meant to yield nothing (src/store/wal.cpp:429), but its first byte is then
  read as an unknown operation and recovery reports corruption: `Wal.CorruptIffHeaderCut`.
- A log without a header is read as one of the legacy format (src/store/wal.cpp:437-438), yet opening it for append
  leaves none of its records (src/store/wal.cpp:257-267): `Wal.ReopenedKeepsRecords`, and for every legacy log
  `Wal.LegacyLogIsEmptied`.
- A suspect that persists past the timeout is meant to be marked dead (include/cinder/cluster/failure_detector.hpp:20-22),
  but a suspect whose pings merely go unanswered is not: `DetectorSpec.SuspectForever` shows one, and
  `DetectorSpec.GivenUpIff` says when it is.
- A node past its cap is one whose load is at least ceil(average times factor) (src/hashing/consistent_hash_ring.cpp:364),
  not above it.

## Model

| member | source | states |
|---|---|---|
| `Lww.CompareIsTotalOrder` | include/cinder/common/types.hpp:118-145 | stamps are totally ordered by version, writer and tombstone, and wins-over and covers are its strict and weak forms |
| `Lww.CoversInFields` | include/cinder/common/types.hpp:118-131 | a higher version wins, at one version a higher writer, and at one version and writer a delete marker |
| `Lww.PutHolds` | include/cinder/store/detail/eviction_store_base.hpp:144-172 | an apply makes the store answer for the key with at least that stamp and never makes any key older |
| `Lww.PutStoresUnlessOlder` | include/cinder/store/detail/eviction_store_base.hpp:144-172 | a write replaces the stored entry unless that is later in version, writer or delete marker, and touches no other key |
| `Lww.PutAllIsMaximum` | include/cinder/store/detail/eviction_store_base.hpp:144-172 | after any sequence of applies a key holds one of the entries offered for it, and one covering all of them |
| `Lww.LastWriterWins` | include/cinder/common/types.hpp:99-131 | of everything offered for a key the store keeps the highest version, then the highest writer, then a delete marker |
| `Lww.Convergence` | include/cinder/common/types.hpp:99-131 | two stores that received the same writes in any order and any number of times are equal, when a stamp determines its entry |
| `Lww.PutCommutesIff` | include/cinder/store/detail/eviction_store_base.hpp:167-172 | two writes to a key commute if and only if they are equal, differ in stamp, or something newer is stored |
| `PackedEntry.VersionedEntry.SetVersion` | include/cinder/common/types.hpp:80-82 | the version reads back exactly when it is below 2^62, and the deadline and delete bits are kept |
| `PackedEntry.VersionedEntry.SetHasTtl` | include/cinder/common/types.hpp:84-86 | sets the deadline bit, keeping version and delete bit |
| `PackedEntry.VersionedEntry.SetTombstone` | include/cinder/common/types.hpp:92-94 | sets the delete bit, keeping version and deadline bit |
| `PackedEntry.VersionedEntry.SetVersionAndTtl` | include/cinder/common/types.hpp:88-90 | sets version (exactly when below 2^62) and deadline bit and clears the delete bit |
| `HintQueueSpec.DropCount` | include/cinder/node/hint_queue.hpp:117-120 | the fewest oldest hints whose removal leaves room for the new one in count and bytes |
| `HintQueueSpec.PushKeeps` | include/cinder/node/hint_queue.hpp:91-132 | a push keeps at most one hint per target and key, distinct handles, and each handle naming its hint |
| `HintQueueSpec.PushSplits` | include/cinder/node/hint_queue.hpp:91-132 | an accepted push loses nothing but the coalesced hint and an oldest prefix, and keeps the order of the rest |
| `HintQueueSpec.PushFits` | include/cinder/node/hint_queue.hpp:91-132 | after an accepted push both bounds hold and the drop counter grew by what was evicted |
| `HintQueueSpec.BytesOfOne` | include/cinder/node/hint_queue.hpp:278-281 | a hint is charged 184 bytes and the lengths of its target, key and value |
| `HintQueueSpec.AcceptedIffWelcome` | include/cinder/node/hint_queue.hpp:91-116 | a push is accepted if and only if the hint fits the whole budget and nothing later is queued for its target and key |
| `HintQueueSpec.PushQueuesWelcome` | include/cinder/node/hint_queue.hpp:91-132 | an accepted hint is queued last behind the longest suffix of the other hints that leaves it room, and a refused one changes nothing but the drop counter |
| `HintQueueSpec.ScanKeeps` | include/cinder/node/hint_queue.hpp:143-168 | a bounded snapshot copies a live prefix in order and removes only expired hints |
| `HintQueueSpec.ScanIsPrefix` | include/cinder/node/hint_queue.hpp:143-168 | a snapshot copies the oldest hints that have not expired, as many as asked for, and removes exactly the expired ones it passes |
| `HintQueueSpec.RunKeeps` | include/cinder/node/hint_queue.hpp:91-223 | over every run the queue stays well formed and no handle ever comes to name another hint |
| `HintQueueSpec.StaleHandleIsHarmless` | include/cinder/node/hint_queue.hpp:143-201 | after a snapshot and any further operations, removing by its handle deletes exactly the copied hint or nothing |
| `HintQueueImpl.SlotsArePartitioned` | include/cinder/node/hint_queue.hpp:319-361 | every slot is live, free or never used, and only one of these |
| `HintQueueImpl.HintQueue.constructor` | include/cinder/node/hint_queue.hpp:62-63 | starts as the empty queue with the default byte budget |
| `HintQueueImpl.HintQueue.AcquireSlot` | include/cinder/node/hint_queue.hpp:319-327 | takes a slot off the free list or the unused suffix |
| `HintQueueImpl.HintQueue.LinkAtTail` | include/cinder/node/hint_queue.hpp:329-339 | links a slot at the end of the live list |
| `HintQueueImpl.HintQueue.UnlinkAndRelease` | include/cinder/node/hint_queue.hpp:341-361 | takes one slot out of the live list, frees it and gives its bytes back |
| `HintQueueImpl.HintQueue.Push` | include/cinder/node/hint_queue.hpp:91-132 | refines the bounded sequence's push, succeeding exactly when the hint is welcome, the handle never having been issued before |
| `HintQueueImpl.HintQueue.Snapshot` | include/cinder/node/hint_queue.hpp:143-168 | copies and expires exactly what the bounded scan of the sequence does |
| `HintQueueImpl.HintQueue.Remove` | include/cinder/node/hint_queue.hpp:188-201 | removes exactly the hint whose current handle is given |
| `HintQueueImpl.HintQueue.RemoveVersion` | include/cinder/node/hint_queue.hpp:205-223 | removes the first hint with that target, key and version |
| `HintQueueImpl.HintQueue.SetMaxBytes` | include/cinder/node/hint_queue.hpp:251-255 | changes the budget and nothing else |
| `FanOut.AdmittedOnce` | include/cinder/node/fanout.hpp:91-121 | whatever is reported, each target is reduced at most once, with its first result |
| `FanOut.DecidesAtMostOnce` | include/cinder/node/fanout.hpp:106-149 | the decision runs at most once, at a state where the policy asks for it |
| `FanOut.Drain.Report` | include/cinder/node/fanout.hpp:94-103 | a repeated or out-of-range report changes nothing but the history |
| `FanOut.Drain.DrainChannel` | include/cinder/node/fanout.hpp:106-149 | reduces every admitted completion, in order, also after the decision |
| `FanOut.WriteAccounting` | src/node/replication_manager.cpp:239-346 | over any prefix of completions the counters are right and the decision is there exactly when the outcome is settled |
| `FanOut.EarlyDecisionIsFinal` | src/node/replication_manager.cpp:261-360 | once all replicas completed there was one decision, it succeeded if and only if 1 plus the successes reach W, and each failed replica was hinted once |
| `FanOut.QuorumIsMajority` | src/node/replication_manager.cpp:224-225 | W is a majority of the replicas and the coordinator, and the smallest one |
| `FanOut.DecidesAsSoonAsSettled` | src/node/replication_manager.cpp:297-328 | the decision has been taken if and only if no outcome still to come can change it |
| `ReadQuorum.ReadReducer.constructor` | include/cinder/node/read_quorum.hpp:137-149 | the local entry counts as the first answer |
| `ReadQuorum.ReadReducer.NoteRemote` | include/cinder/node/read_quorum.hpp:158-202 | folds one vote as the value-level reducer does, and ignores it after the decision |
| `ReadQuorum.NoteAllIsMaximum` | include/cinder/node/read_quorum.hpp:137-222 | the winner is a maximal candidate, acknowledgements count the versioned answers, and repair is flagged exactly on divergence |
| `ReadQuorum.ReadPicksNewest` | include/cinder/node/read_quorum.hpp:158-202 | the winner has the highest version among the candidates, then the highest writer, then a delete marker |
| `ReadQuorum.ReductionIsOrderFree` | include/cinder/node/read_quorum.hpp:137-222 | the same votes in any order give the same winner, flag and counters, when a stamp determines its entry |
| `ReadQuorum.LateVotesChangeNothing` | include/cinder/node/read_quorum.hpp:158-206 | run through the fan-out, the read decides on the shortest prefix of votes with enough acknowledgements or with everyone heard, and later votes change nothing |
| `ReadQuorum.DecidesAtQuorum` | include/cinder/node/read_quorum.hpp:204-206 | the read decides exactly at the first vote that brings R versioned answers, the local one included, or is the last of all |
| `ReadQuorum.AllVotesDecide` | include/cinder/node/read_quorum.hpp:204-206 | once every replica has completed the read has decided |
| `Replication.NextKeeps` | src/node/replication_manager.cpp:157-360 | every step of every node keeps the protocol's invariant: queues well formed, calls backed, promises accounted for, holders holding, answers genuine |
| `Replication.RunsKeep` | src/node/replication_manager.cpp:157-707 | so does every run |
| `Replication.PushCovers` | src/node/replication_manager.cpp:531-554 | after a failed send the write is covered by a queued hint for its target and key, or recorded as given up |
| `Replication.NothingForgotten` | src/node/replication_manager.cpp:170-197 | after any run each committed write is, for each replica, in flight, covered by the replica's store, covered by a queued hint, or covered by a hint its coordinator's bounded queue gave up since the write |
| `Replication.QuorumReadSeesWrite` | src/node/replication_manager.cpp:425-505 | after any run a read begun after a write had its quorum, and answered by more than N - W of its members, returns a stamp covering the write's |
| `Replication.OverlappingQuorums` | src/node/replication_manager.cpp:425-505 | after any run a read begun after a write had its quorum W, with R acknowledgements and R + W > N, returns a stamp covering the write's |
| `ReplicationRuns.EveryWriteIsAccountedFor` | src/node/replication_manager.cpp:170-197 | for every write step of every run the coordinator holds the write, and each replica is being sent it, holds it, has a queued hint for it, or lost one to the bounded queue since |
| `ReplicationRuns.ReadAfterWriteSees` | src/node/replication_manager.cpp:425-505 | a read step made when a write had its quorum, once more than N - W members answered, returns a version at least the write's |
| `ReplicationRuns.MajoritySees` | src/node/replication_manager.cpp:425-505 | so does one that a majority of the members answered |
| `ReplicationRuns.SuccessfulWritesMeet` | src/node/replication_manager.cpp:224-225 | any two successful writes to the same members are both held by some member |
| `ReplicationRuns.LossHasCause` | include/cinder/node/hint_queue.hpp:91-168 | in every run a hint is given up only at a step where it has expired, exceeds the budget, or sits in a full queue that another hint needs room in |
| `ReplicationRuns.HintReachesTarget` | src/node/replication_manager.cpp:588-707 | a replayed hint, delivered and acknowledged, is held by its target and queued no longer |
| `ReplicationRuns.RepairReachesTargets` | src/node/replication_manager.cpp:474-586 | a repair heals the reader's store at once and each target's on delivery |
| `ReplicationValues.StoredIsWritten` | src/node/replication_manager.cpp:157-707 | in every run whatever a node stores is, value and deadline included, what some write or repair said for that key |
| `ReplicationValues.ReadReturnsWritten` | src/node/replication_manager.cpp:425-505 | in every run so is whatever a read returns, a delete marker without its value |
| `QuorumBound.TooFewAnswersCanMiss` | src/node/replication_manager.cpp:425-505 | for every write sent to two replicas or more and every read quorum, a run exists in which a read begun after the write succeeded decides, at that vote and no earlier, on exactly N - W answers (on its own alone for a quorum of one) and returns nothing |
| `QuorumBound.OneMoreAnswerIsEnough` | src/node/replication_manager.cpp:425-505 | in the same situation, for a quorum of two or more, one answer more from any holder of the write makes the read decide on a stamp covering the write's |
| `Persistence.RecoveredHolds` | src/store/persistence.cpp:155-255 | loading a permitted snapshot and replaying the logs restores every record that is in a log or covered by the published snapshot |
| `Persistence.RecoveredGenuine` | src/store/persistence.cpp:155-255 | recovery restores nothing that was not written |
| `Persistence.CaptureKeeps` | src/store/persistence.cpp:488-513 | a snapshot copied shard by shard while writes go on covers every record drained before it began |
| `Persistence.NextKeeps` | src/store/persistence.cpp:271-734 | every accept, drain, torn drain, seal step, compaction step, crash, half-done and completed recovery keeps the durability invariant |
| `Persistence.RunsKeep` | src/store/persistence.cpp:155-734 | so does every run |
| `Persistence.NothingDrainedIsLost` | src/store/persistence.cpp:155-734 | after any run, recovery from the disk as it stands gives for every drained record an entry at least as new, and no entry that was not written |
| `Persistence.DrainWrites` | src/store/persistence.cpp:271-303 | a drain leaves the queue empty and every queued write in the active log |
| `Persistence.StaysQueued` | src/store/persistence.cpp:257-303 | while the process is up an accepted write is queued or drained |
| `Persistence.DrainedWriteSurvives` | src/store/persistence.cpp:155-734 | a write accepted over nothing later, with a drain before the process goes down, is in every later recovery, as itself or at a version at least as high |
| `Persistence.CrashRoundTrip` | src/store/persistence.cpp:155-303 | recover, write, drain, crash, recover is a run, and the store is the one write |
| `Persistence.CompactionReplacesLog` | src/store/persistence.cpp:351-398 | a compaction left alone leaves no log and a current snapshot that recovers to the whole store |
| `LogFiles.HealReads` | src/store/persistence.cpp:216-229 | truncating any cut log to its valid size keeps the writes it decodes to, and reopening it then makes it whole |
| `LogFiles.AppendReads` | src/store/persistence.cpp:271-303 | a drained batch appended to a whole log decodes as the old writes followed by the batch |
| `LogFiles.TornReads` | src/store/persistence.cpp:271-303 | a drain cut at any byte adds to the decoded writes exactly the records that lie wholly before the cut |
| `LogFiles.StepSimulates` | src/store/persistence.cpp:155-734 | every step over files, a crash at any byte of an append, a repair or a header included, is a step over records or none |
| `LogFiles.RunSimulates` | src/store/persistence.cpp:155-734 | so every run over files is a run over records |
| `LogFiles.RefusedIffHeaderCut` | src/store/persistence.cpp:202-213 | recovery reports corruption if and only if the active log is not empty and shorter than a header |
| `LogFiles.HeaderCutIsFinal` | src/store/persistence.cpp:202-213 | once the active log of a node that is down ends inside its header, every run leaves the node down and those bytes as they are |
| `LogFiles.RecoversUnlessStuck` | src/store/persistence.cpp:155-255 | in every other state of a node that is down recovery is enabled and brings it up |
| `LogFiles.FilesLoseNothing` | src/store/persistence.cpp:155-734 | after any run over files their bytes decode to a store with an entry at least as new for every drained record and none that was not written |
| `LogFiles.DrainReachesFile` | src/store/persistence.cpp:271-303 | a drain that goes through has every queued write in what the active file's bytes decode to |
| `LogFiles.DrainedBytesSurvive` | src/store/persistence.cpp:155-734 | a write accepted over nothing later and drained is in what the files decode to ever after, with crashes at any byte |
| `LogFiles.RecoveryHeals` | src/store/persistence.cpp:216-246 | after a recovery the active log is whole and every sealed one whole or empty |
| `Codec.LeRoundTrip` | include/cinder/store/detail/io_utils.hpp:130-136 | a value in range reads back from its little-endian bytes |
| `Codec.LeInverse` | include/cinder/store/detail/io_utils.hpp:181-191 | any bytes are the little-endian bytes of the value read from them |
| `Codec.BeRoundTrip` | include/cinder/net/byte_writer.hpp:24-33 | a value in range reads back from its big-endian bytes |
| `Codec.BeInverse` | include/cinder/net/byte_reader.hpp:26-40 | any bytes are the big-endian bytes of the value read from them |
| `Buffers.BufferWriter.WriteBytes` | include/cinder/store/detail/io_utils.hpp:138-148 | appends the bytes to what is written and nothing else |
| `Buffers.BufferWriter.WriteLe` | include/cinder/store/detail/io_utils.hpp:130-136 | appends the little-endian bytes |
| `Buffers.BufferWriter.WriteBe` | include/cinder/net/byte_writer.hpp:24-33 | appends the big-endian bytes |
| `Buffers.BufferReader.ReadBytes` | include/cinder/store/detail/io_utils.hpp:193-201 | yields the next bytes and moves past them, or fails without moving when too few are left |
| `Buffers.BufferReader.ReadLe` | include/cinder/store/detail/io_utils.hpp:181-191 | the same for a little-endian integer |
| `Buffers.BufferReader.ReadBe` | include/cinder/net/byte_reader.hpp:26-40 | the same for a big-endian integer |
| `Wal.CutFields` | src/store/wal.cpp:38-116 | a record body cut anywhere reads back in full or runs short; it is never taken for garbage |
| `Wal.FieldsAreRead` | src/store/wal.cpp:38-139 | whatever fields are read, in any format, encoding them again gives the very bytes read |
| `Wal.AcceptedIsChecksummed` | src/store/wal.cpp:442-478 | a record is accepted only if the stored checksum is that of the bytes before it |
| `Wal.UnknownOpIsCorrupt` | src/store/wal.cpp:46-50 | a record that starts with no known operation is corruption, not a torn tail |
| `Wal.BadChecksumIsCorrupt` | src/store/wal.cpp:442-478 | so is a whole record with any other checksum than its own |
| `Wal.BadMarkerIsCorrupt` | src/store/wal.cpp:92-103 | so is one whose delete marker is neither 0 nor 1 |
| `Wal.CutRecord` | src/store/wal.cpp:442-478 | one record cut anywhere is decoded if whole and torn otherwise, never corrupt |
| `Wal.Whole` | src/store/wal.cpp:158-170 | the number of leading records that lie wholly before a position |
| `Wal.CutReadsWholeRecords` | src/store/wal.cpp:401-482 | a log cut at or past its header yields exactly the records wholly before the cut, uncorrupted, with their end as valid size (0 when none) |
| `Wal.CorruptIffHeaderCut` | src/store/wal.cpp:421-440 | a cut log is reported corrupt if and only if the cut falls inside the header |
| `Wal.HealedIsImage` | src/store/persistence.cpp:216-229 | truncating a cut log to its valid size and reopening it leaves precisely the log of the surviving records |
| `Wal.HealedLogKeepsAppending` | src/store/wal.cpp:241-279 | crash, heal, reopen, append: the next recovery reads the survivors followed by everything appended since |
| `Wal.RecordsConcat` | src/store/wal.cpp:342-372 | a batch has the same bytes as its entries appended one by one |
| `WalFile.EncodeRecord` | src/store/wal.cpp:177-192 | writes exactly the record's bytes, checksum included, filling exactly its computed size |
| `Wal.ReopenedHasHeaderIff` | src/store/wal.cpp:241-279 | a log opened for append starts with a header a reader accepts if and only if it was empty or had at least eight bytes |
| `Wal.ReopenedKeepsRecords` | src/store/wal.cpp:241-279 | opening for append keeps every record of a log with a header and leaves none of one without |
| `Wal.LegacyLogIsEmptied` | src/store/wal.cpp:38-116 | a log of any entries in the format without header and checksums replays to them, and to nothing once opened for append |
| `Wal.V1LogIsRead` | src/store/wal.cpp:38-139 | a log of any entries in the format without the delete marker byte replays to them |
| `WalFile.Probe` | src/store/wal.cpp:246-254 | tells a header a reader accepts from one it does not, and both from a file too short to hold one |
| `WalFile.FreshHeader` | src/store/wal.cpp:270-273 | writes exactly the eight header bytes |
| `WalFile.WalWriter.constructor` | src/store/wal.cpp:235-281 | truncated, the file is a bare header; for append, a log with a header replays as before, any other replays to nothing, and the file starts with a header unless it had one to seven bytes |
| `WalFile.WalWriter.Append` | src/store/wal.cpp:321-340 | appends the record, or fails without writing when closed or too large |
| `WalFile.WalWriter.AppendBatch` | src/store/wal.cpp:342-372 | appends all the records and returns their size, or writes nothing at all |
| `WalFile.TotalSize` | src/store/wal.cpp:359-362 | adds up the encoded sizes of the batch |
| `WalFile.EncodeBatch` | src/store/wal.cpp:364-368 | fills the buffer with the batch's records and nothing else |
| `WalFile.ReadEntryFields` | src/store/wal.cpp:38-116 | moves the cursor and tells short from invalid exactly as the byte-level reading does |
| `WalFile.ReadHeader` | src/store/wal.cpp:421-440 | finds the format and the end of the header as the byte-level reading does |
| `WalFile.WalReader.constructor` | src/store/wal.cpp:401-440 | finds the format and where records start |
| `WalFile.WalReader.Next` | src/store/wal.cpp:442-478 | decodes one record, moving the commit position only past a good one and flagging corruption only on bad bytes |
| `WalFile.ReplayLog` | src/store/persistence.cpp:524-565 | returns all entries and the valid size, or nothing when the log is corrupt |
| `TtlWheelSpec.RunsStayPending` | include/cinder/store/ttl_wheel.hpp:61-92 | in every run nothing scheduled is ever overdue |
| `TtlWheelSpec.FiresExactlyWhenDue` | include/cinder/store/ttl_wheel.hpp:61-92 | in every run an entry inserted for t ticks and left alone fires at the t-th tick (the 256th for t = 0) and at no earlier one |
| `TtlWheelSpec.RemovedNeverFires` | include/cinder/store/ttl_wheel.hpp:77-82 | in every run an entry taken out and not put back never fires |
| `TtlWheelSpec.TickLeaves` | include/cinder/store/ttl_wheel.hpp:86-92 | a tick takes out what it fires, except what the callback schedules again, and leaves everything else due when it was |
| `TtlWheelImpl.SiftedUp` | include/cinder/store/ttl_wheel.hpp:135-145 | one upward swap moves the only possible disorder to the parent, and stopping means order |
| `TtlWheelImpl.SiftedDown` | include/cinder/store/ttl_wheel.hpp:147-166 | one downward swap moves the only possible disorder to the earliest child, and stopping means order |
| `TtlWheelImpl.HoleFilled` | include/cinder/store/ttl_wheel.hpp:168-185 | filling any position with the last entry leaves disorder in one direction only, the one the code then sifts in |
| `TtlWheelImpl.RootIsEarliest` | include/cinder/store/ttl_wheel.hpp:219-227 | the root of an ordered heap is its earliest entry |
| `TtlWheelImpl.UnlinkKeepsRings` | include/cinder/store/ttl_wheel.hpp:106-116 | unlinking any node keeps all 256 circular lists intact |
| `TtlWheelImpl.LinkKeepsRings` | include/cinder/store/ttl_wheel.hpp:118-123 | linking before a sentinel keeps all 256 circular lists intact |
| `TtlWheelImpl.TtlWheel.constructor` | include/cinder/store/ttl_wheel.hpp:51-57 | starts empty at tick 0 with self-linked sentinels |
| `TtlWheelImpl.TtlWheel.Unlink` | include/cinder/store/ttl_wheel.hpp:106-116 | takes exactly the node out of exactly its slot's list, and changes nothing for a node in no slot |
| `TtlWheelImpl.TtlWheel.LinkBefore` | include/cinder/store/ttl_wheel.hpp:118-123 | appends the node to exactly one slot's list |
| `TtlWheelImpl.TtlWheel.SwapHeap` | include/cinder/store/ttl_wheel.hpp:129-133 | swaps two entries and keeps every back-index right |
| `TtlWheelImpl.TtlWheel.SiftUp` | include/cinder/store/ttl_wheel.hpp:135-145 | restores the order, keeping the entries and the back-indices |
| `TtlWheelImpl.TtlWheel.SiftDown` | include/cinder/store/ttl_wheel.hpp:147-166 | restores the order, keeping the entries and the back-indices |
| `TtlWheelImpl.TtlWheel.RemoveHeapAt` | include/cinder/store/ttl_wheel.hpp:168-185 | removes exactly the entry at the given position, wherever it is, keeping order and back-indices |
| `TtlWheelImpl.TtlWheel.Insert` | include/cinder/store/ttl_wheel.hpp:61-73 | schedules or re-schedules the node so many ticks ahead, 256 for 0, and leaves every other due tick alone |
| `TtlWheelImpl.TtlWheel.Remove` | include/cinder/store/ttl_wheel.hpp:77-82 | unschedules the node from wherever it is |
| `TtlWheelImpl.TtlWheel.ExpireSlot` | include/cinder/store/ttl_wheel.hpp:187-217 | drains the slot under the cursor, all of it due now, then calls back each node once |
| `TtlWheelImpl.TtlWheel.ExpireHeap` | include/cinder/store/ttl_wheel.hpp:219-227 | pops and calls back everything due at the top of the heap, and terminates although callbacks re-insert |
| `TtlWheelImpl.TtlWheel.Tick` | include/cinder/store/ttl_wheel.hpp:86-92 | fires exactly the nodes due at this tick, each once, and re-schedules those the callback asks for |
| `HashRingSpec.RingIsUnique` | src/hashing/consistent_hash_ring.cpp:32-260 | without colliding hashes between members the ring is determined by the members |
| `HashRingSpec.RingIsVirtualNodes` | src/hashing/consistent_hash_ring.cpp:62-87 | a ring holds, for each member and each of its virtual node numbers, the pair of hash and member, and nothing else |
| `HashRingSpec.CollisionLeavesOrderOpen` | src/hashing/consistent_hash_ring.cpp:71-87 | with a collision between two members the sorted order does not decide the ring: another sequence is a ring of the same members as well |
| `HashRingImpl.OrderTellsHistory` | src/hashing/consistent_hash_ring.cpp:179-209 | no ring has the survivors of both histories first when each of two colliding members is new in one of them |
| `HashRingImpl.CollisionRemembersHistory` | src/hashing/consistent_hash_ring.cpp:95-213 | for any two colliding members of any membership, letting the one or the other join last builds different rings |
| `HashRingSpec.RemovalIsRing` | src/hashing/consistent_hash_ring.cpp:216-260 | dropping a member's virtual nodes leaves the ring of the others |
| `HashRingSpec.RemovalKeepsPreference` | src/hashing/consistent_hash_ring.cpp:216-260 | removing a member only takes it out of every key's clockwise order |
| `HashRingSpec.RemovalKeepsReplicas` | src/hashing/consistent_hash_ring.cpp:216-323 | the replicas of a key that survive a removal are a prefix of its new replicas |
| `HashRingSpec.JoinKeepsPreference` | src/hashing/consistent_hash_ring.cpp:32-93 | a joining member leaves the others' order unchanged for every key and takes ownership only for itself |
| `HashRingSpec.ReplicasAreDistinctMembers` | src/hashing/consistent_hash_ring.cpp:276-323 | min(k, members) distinct members, the owner first, nested as k grows |
| `HashRingSpec.WalkIsClockwise` | src/hashing/consistent_hash_ring.cpp:262-274 | the walk for a key starts at the first virtual node at or after its hash, wrapping to the first of all, and so does ownership |
| `HashRingSpec.PreferenceIsClockwise` | src/hashing/consistent_hash_ring.cpp:276-323 | members are preferred in the order in which that walk first meets them |
| `HashRingSpec.CapIsLeast` | src/hashing/consistent_hash_ring.cpp:355-356 | the cap is the least whole number not below the average load times the factor |
| `HashRingSpec.SomeoneIsBelowCap` | src/hashing/consistent_hash_ring.cpp:344-356 | for a factor above 1 and positive total load some node is below ceil(average times factor) |
| `HashRingImpl.SortTogether` | src/hashing/consistent_hash_ring.cpp:71-87 | sorts hashes and indices in lock step, keeping the pairs |
| `HashRingImpl.JoinIsRing` | src/hashing/consistent_hash_ring.cpp:62-87 | the old ring and the new virtual nodes, in any sorted arrangement, are the ring with the new member |
| `HashRingImpl.MergeIsRing` | src/hashing/consistent_hash_ring.cpp:169-209 | the filtered old ring merged with the sorted additions is the ring of the new membership |
| `HashRingImpl.HashRing.AddNode` | src/hashing/consistent_hash_ring.cpp:32-93 | adds the member, or refuses beyond 65536, keeping every other node's counter |
| `HashRingImpl.HashRing.RemoveNode` | src/hashing/consistent_hash_ring.cpp:216-260 | removes the member's virtual nodes and nothing else, keeping the other counters |
| `HashRingImpl.HashRing.SetNodes` | src/hashing/consistent_hash_ring.cpp:95-213 | makes the given ids the membership, or refuses beyond 65536: survivors first and in order, then newcomers as given, counters kept, and on equal hashes old members before new |
| `HashRingImpl.HashRing.Merge` | src/hashing/consistent_hash_ring.cpp:179-209 | the two-way merge with re-mapped indices is sorted, holds the surviving and the added pairs, and puts survivors first on equal hashes |
| `HashRingImpl.HashRing.Retain` | src/hashing/consistent_hash_ring.cpp:138-150 | the survivors are the old members still wanted, in their old order, with their counters, and the re-mapping takes each old index to the same node |
| `HashRingImpl.HashRing.AppendNew` | src/hashing/consistent_hash_ring.cpp:151-164 | newcomers go to the end in the order given, once each, with all their virtual nodes and a fresh counter |
| `HashRingImpl.SameMembersSameRing` | src/hashing/consistent_hash_ring.cpp:32-260 | two rings with the same collision-free members are equal, whatever histories built them |
| `HashRingImpl.HashRing.LowerBound` | src/hashing/consistent_hash_ring.cpp:269 | bisection finds the first position at or after the hash |
| `HashRingImpl.HashRing.GetNode` | src/hashing/consistent_hash_ring.cpp:262-274 | returns the owner, or the empty name on an empty ring |
| `HashRingImpl.HashRing.GetNodes` | src/hashing/consistent_hash_ring.cpp:276-323 | returns the first k distinct nodes clockwise, or refuses a count outside 1 to 32 |
| `HashRingImpl.HashRing.TotalLoad` | src/hashing/consistent_hash_ring.cpp:400-407 | adds up the counters |
| `HashRingImpl.HashRing.GetNodeBounded` | src/hashing/consistent_hash_ring.cpp:325-374 | returns the first node clockwise below the cap, and the owner when there is none or the bound does not apply |
| `HashRingImpl.HashRing.BoundedSearchSucceeds` | src/hashing/consistent_hash_ring.cpp:344-374 | for a factor above 1 and positive load the walk meets a node below the cap |
| `Lfu.RemoveKeepsFiled` | src/store/lfu_store.cpp:144-165 | swapping a node out keeps every other node at its recorded position and leaves no bucket empty |
| `Lfu.PushKeepsFiled` | src/store/lfu_store.cpp:130-138 | adding a node at the end of a bucket keeps every position right |
| `Lfu.LfuShard.InsertNew` | src/store/lfu_store.cpp:25-35 | a new key starts at frequency 1 |
| `Lfu.LfuShard.ApplyExisting` | src/store/lfu_store.cpp:20-23 | a write to a known key replaces its entry and counts as a use |
| `Lfu.LfuShard.OnAccess` | src/store/lfu_store.cpp:37-39 | an access adds one to the key's frequency and touches nothing else |
| `Lfu.LfuShard.RestoreFreq` | src/store/lfu_store.cpp:51-67 | raises a frequency to the restored one, never lowers it |
| `Lfu.LfuShard.RemoveFromBucket` | src/store/lfu_store.cpp:144-165 | takes the node out by its recorded position, and only the node that fills the gap gets a new one |
| `Lfu.LfuShard.Erase` | include/cinder/store/detail/eviction_store_base.hpp:603-620 | the key leaves its bucket and the index, and nothing else changes |
| `Lfu.LfuShard.Scan` | src/store/lfu_store.cpp:89-103 | finds the lowest bucket with a live entry and the first live one there, everything before it being a delete marker |
| `Lfu.LfuShard.EvictOne` | src/store/lfu_store.cpp:73-128 | removes a least-used entry that is no delete marker and returns its size, or nothing when only delete markers remain |
| `Wire.FrameIsParsed` | src/net/protocol.cpp:62-89 | a frame's opcode and payload are cut out exactly, whatever follows in the buffer |
| `Wire.FrameAcceptedIff` | src/net/protocol.cpp:62-89 | a frame is accepted if and only if it has the magic, the protocol version, and a size that is allowed and all there |
| `Wire.TimesAreCut` | src/net/protocol.cpp:126-222 | a deadline loses what it has beyond a whole millisecond, a duration what it has beyond 32 bits |
| `Wire.RequestBodySize` | src/net/protocol.cpp:126-222 | the computed payload size is the number of bytes written |
| `Wire.RequestRoundTrip` | src/net/protocol.cpp:126-328 | an encoded request with trailing bytes decodes to its canonical form with its token, or is refused for an expiry beyond the clock |
| `Wire.RequestSurvivesIff` | src/net/protocol.cpp:126-328 | a request comes back unchanged if and only if its ttl fits 32 bits, its expiry is whole milliseconds within range, and no span comes without a trace |
| `Wire.RequestFixedPoint` | src/net/protocol.cpp:224-328 | every accepted request frame re-encodes, and decoding that gives the same request and token |
| `Wire.ResponseBodySize` | src/net/protocol.cpp:339-418 | the computed payload size is the number of bytes written |
| `Wire.ResponseRoundTrip` | src/net/protocol.cpp:339-504 | an encoded response with trailing bytes decodes to its canonical form, or is refused for an expiry beyond the clock |
| `Wire.ResponseSurvivesIff` | src/net/protocol.cpp:339-504 | a response comes back unchanged if and only if its expiry is whole milliseconds within range and no span comes without a trace |
| `Wire.ResponseFixedPoint` | src/net/protocol.cpp:420-504 | every accepted response frame re-encodes, and decoding that gives the same response |
| `WireIo.AddPayloadSize` | src/net/protocol.cpp:104-111 | adds a field unless the message budget would be exceeded |
| `WireIo.RequestPayload` | src/net/protocol.cpp:126-150 | the running size check refuses exactly the requests over the budget |
| `WireIo.WriteRequest` | src/net/protocol.cpp:168-221 | fills the buffer, sized from the computed payload, with exactly the frame |
| `WireIo.EncodeRequestInto` | src/net/protocol.cpp:126-222 | is the encoder, error cases and their order included |
| `WireIo.DecodeRequestFrom` | src/net/protocol.cpp:224-328 | is the decoder, error cases included |
| `WireIo.WriteResponse` | src/net/protocol.cpp:382-417 | fills the buffer, sized from the computed payload, with exactly the frame |
| `WireIo.EncodeResponseInto` | src/net/protocol.cpp:339-418 | is the encoder, error cases included |
| `WireIo.DecodeResponseFrom` | src/net/protocol.cpp:420-504 | is the decoder, error cases included |
| `HintJournalSpec.SimilarPush` | src/node/hint_journal.cpp:104-107 | queues holding the same hints do so after the same push, whatever handles they use |
| `HintJournalSpec.CompletionAgreesIff` | src/node/replication_manager.cpp:678-684 | removal by version does what removal by handle did if and only if no other queued hint has that target, key and version |
| `HintJournalSpec.JournalRebuildsQueue` | src/node/hint_journal.cpp:47-127 | after any run of enqueues and completions through live or stale handles, replaying the journal rebuilds the queue hint by hint in order |
| `HintJournalSpec.ExpiredAreSkipped` | src/node/hint_journal.cpp:104-107 | a journal recovers to what it would without its expired intents |
| `HintJournalSpec.OnlyIntendedComesBack` | src/node/hint_journal.cpp:104-107 | every recovered hint is that of an intent that has not expired, under the new deadline |
| `HintJournalImpl.AddIsRead` | src/node/hint_journal.cpp:231-355 | an intent record reads back as written |
| `HintJournalImpl.DelIsRead` | src/node/hint_journal.cpp:267-379 | a completion record reads back as written |
| `HintJournalImpl.CleanJournalIsRead` | src/node/hint_journal.cpp:69-114 | a clean journal file reads back every record in order |
| `HintJournalImpl.ReadIsChecksummed` | src/node/hint_journal.cpp:69-102 | a record is read only from a payload that is all there and whose checksum is the stored one |
| `HintJournalImpl.OldIntentIsRead` | src/node/hint_journal.cpp:319-349 | an intent without deadline and delete marker reads back as having neither |
| `HintJournalImpl.EncodeAdd` | src/node/hint_journal.cpp:231-265 | writes exactly the intent's bytes into an over-sized buffer cut back to them |
| `HintJournalImpl.EncodeDel` | src/node/hint_journal.cpp:267-281 | writes exactly the completion's bytes |
| `HintJournalImpl.HintJournal.AppendAdd` | src/node/hint_journal.cpp:129-138 | the file is the image of the records so far and this intent |
| `HintJournalImpl.HintJournal.AppendDel` | src/node/hint_journal.cpp:140-149 | the file is the image of the records so far and this completion |
| `HintJournalImpl.ReadRecord` | src/node/hint_journal.cpp:69-102 | reads one record, or stops at a short, impossible or damaged one |
| `HintJournalImpl.Recover` | src/node/hint_journal.cpp:47-127 | feeds the slot-array queue every readable record, leaving it with the replayed hints |
| `HintJournalImpl.FileRebuildsQueue` | src/node/hint_journal.cpp:47-127 | the file of any allowed run rebuilds the queue |
| `DetectorSpec.GivenUpIff` | src/cluster/failure_detector.cpp:147-233 | in every run a tick gives up on a peer exactly when the table has it as a suspect and its first failure since it last answered, or was last given up on, was reported more than the timeout ago |
| `DetectorSpec.OnlyFailuresKill` | src/cluster/failure_detector.cpp:66-76 | in every run a peer none of whose pings was reported failed is never given up on, however long they go unanswered |
| `DetectorSpec.SuspectForever` | src/cluster/failure_detector.cpp:66-76 | a run makes a peer a suspect by an unanswered ping, and every continuation without a result of a ping to it never gives up on it and, without a rumour about it, leaves it a suspect |
| `DetectorSpec.SuspectedOnSecondFailure` | src/cluster/failure_detector.cpp:185-201 | in every run a failed ping makes an alive peer a suspect if and only if an earlier failure stands |
| `DetectorSpec.SilentPeerDies` | src/cluster/failure_detector.cpp:55-233 | whatever else a run does, a suspect from whom and about whom nothing is heard is dead after the first tick past the timeout since its first failure |
| `DetectorSpec.GivenUpOnlyUnanswered` | src/cluster/failure_detector.cpp:147-233 | in every run a tick gives up on a peer only if a ping to it failed more than the timeout ago and nothing was heard from it since |
| `DetectorSpec.TickMarks` | src/cluster/failure_detector.cpp:110-122 | a tick makes exactly the given-up peers dead and the alive peers with an overdue ping suspect, and changes no incarnation |
| `DetectorSpec.DeathHasACause` | src/cluster/failure_detector.cpp:55-233 | in every run a member becomes dead only by a rumour saying so, or at a tick when a ping to it failed more than the timeout ago with nothing heard since |
| `DetectorSpec.TickAdvances` | src/cluster/failure_detector.cpp:78-103 | a tick pings a ready peer or brings it closer in the round |
| `DetectorSpec.EveryoneGetsATurn` | src/cluster/failure_detector.cpp:55-108 | with a fixed peer list a peer that stays ready is pinged within as many ticks as there are peers |
| `DetectorSpec.ReadyIff` | src/cluster/failure_detector.cpp:82-98 | a peer may be pinged if and only if it is another node, not known dead, and not waited for within the timeout |
| `DetectorSpec.AnswerRevives` | src/cluster/failure_detector.cpp:160-184 | an answer makes a known member alive whatever it was taken for and clears its record |
| `DetectorSpec.OverduePingSuspects` | src/cluster/failure_detector.cpp:66-122 | an unanswered ping makes an alive peer a suspect at a tick more than the timeout after it, and at no earlier one |
| `DetectorSpec.RumorTakenOverIff` | src/cluster/membership.cpp:47-97 | a rumour about another node is taken over unless its incarnation is earlier, a stranger learnt of only when alive, and nobody else touched |
| `DetectorSpec.RunsAdvance` | src/cluster/membership.cpp:47-168 | in every run members stay, incarnations never fall and the node itself is alive |
| `DetectorSpec.RumorOfSelfIsRefuted` | src/cluster/membership.cpp:269-296 | a rumour that would bury the node leaves it alive under a later incarnation than the rumour's |
| `FailureDetectorImpl.MembershipTable.MarkSuspect` | src/cluster/membership.cpp:99-119 | only an alive member becomes suspect |
| `FailureDetectorImpl.MembershipTable.MarkDead` | src/cluster/membership.cpp:121-138 | any member not yet dead becomes dead |
| `FailureDetectorImpl.MembershipTable.MarkAlive` | src/cluster/membership.cpp:140-168 | a member becomes alive under the given incarnation unless it already is at a later one |
| `FailureDetectorImpl.MembershipTable.ApplyRumor` | src/cluster/membership.cpp:47-97 | takes over a rumour that is not stale, learns of alive strangers, refutes its own death |
| `FailureDetectorImpl.FailureDetector.Sweep` | src/cluster/failure_detector.cpp:67-76 | clears and returns exactly the pings past the timeout |
| `FailureDetectorImpl.FailureDetector.Escalate` | src/cluster/failure_detector.cpp:207-233 | returns exactly the suspects past the timeout and clears their record |
| `FailureDetectorImpl.FailureDetector.Choose` | src/cluster/failure_detector.cpp:79-103 | finds the first eligible peer from the cursor, once around at most, and leaves the cursor after it |
| `FailureDetectorImpl.FailureDetector.Tick` | src/cluster/failure_detector.cpp:55-145 | is one tick step of the detector |
| `FailureDetectorImpl.FailureDetector.OnProbeResult` | src/cluster/failure_detector.cpp:147-205 | is one result step of the detector, suspicion after two failures in a row included |

## Left out

- Sockets, TLS, HTTP, tracing, metrics, configuration, command-line tools: plumbing around the modelled logic.
- Anti-entropy, sketches and shard migration: not modelled.
- LRU store, slab allocator, snapshot byte layout: simpler than the LFU store and the log that are modelled.
- Capacity eviction, entry expiry and hard deletes are excluded from `Replication` and `Persistence`; each store there is the map of what it accepted.
- Publishing CURRENT and syncing directories succeed in `Persistence`; the branches that carry on after such a failure are not modelled.
- When CURRENT is missing or dangling, recovery may start from any snapshot present, which includes the newest by name.
- Read flights shared by several waiters: a waiter may join a read that began before the write, so the quorum result is about the read's leader.
- A failing transport call surfaces as a completion; exceptions thrown inside callbacks are not modelled.
- Versions are taken to fit 62 bits wherever a store is involved; `PackedEntry` says what happens otherwise.
- Windows code paths of the log, partial writes of a failing disk and fsync errors: not modelled.
- Appending V2 records to a log that carries a V1 header: not covered by the healing results, which are about logs written in V2.
- Snapshots and the CURRENT file stay values in `LogFiles`, replaced atomically; deadlines there are the milliseconds that the log stores.
- Hint journal compaction and the truncation of its torn tail: not modelled; recovery of a clean file is.
- HintJournalImpl.ReadRecord: does not say where the cursor stops at a refused record, and a payload is parsed as a value, where the original moves a second cursor over it.
- HashRingImpl.HashRing.GetNodeBounded: averages and the cap are real numbers, because rounding of doubles is not the point.
- HashRingImpl.HashRing.AddNode: the compare-and-swap retry of concurrent mutators is not modelled, since each attempt rebuilds from the snapshot it read.
- TtlWheelImpl.TtlWheel.Tick: a callback may re-schedule the node it was called for, as the stores do, but not touch other nodes.
- Lfu.LfuShard.EvictOne: the timing wheel, the byte counters and the mutation feed told of the eviction are separate components.
- FailureDetectorImpl.FailureDetector.Tick: calls are sequential; reading the table and marking a peer alive is one step.
