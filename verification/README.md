# Verified model of the any2heliosdb CDC and load protocols

This project models the change-data-capture spine of any2heliosdb - capture, trail, replicat - and its
resumable chunked loader, together with the two self-contained algorithms next to them (the
`test_decoding` field parser and the checksum merge-compare), and proves what the code promises about
them.  `dafny verify dfyconfig.toml` checks everything.

## What is modelled

* **Records and meaning** (`records.dfy`, `store.dfy`): change records, table metadata, and a database as
  a map from (table, key) to the non-key columns of a row.  `Fold` applies records one at a time and is
  the reference meaning of a log.
* **Apply side** (`target.dfy`, `replicat.dfy`, `apply_lemmas.dfy`, `replay.dfy`, `rejection.dfy`, `poison.dfy`,
  `spelling.dfy`): the target
  driver is an object whose calls are atomic and may be rejected, lose the target before or after they took
  effect, or never return because the process died before or after.  The replicat's batches, runs, primary-key
  moves, poison isolation and per-transaction apply are methods on it, merging and replacing upserts alike.
* **Trail** (`trail.dfy`, `trail_bytes.dfy`): segment files with rotation, purge meta, cached line counts and
  a torn tail, seen from outside as one sequence of lines; below that, the bytes of a segment file, the
  backward chunked scans, and what a byte-wise crashed append leaves.
* **Replicat runs** (`engine.dfy`, `live.dfy`, `run.dfy`): transaction-aligned chunks, their segments, and the loop that
  reads, applies and persists the cursor, while extracts append to the same trail.  The lock and the cursor
  read are one step.
* **Extract cycles** (`extract.dfy`): heal, deduplication, append, snapshot of new tables and the position
  write, in the MySQL and in the PostgreSQL order.
* **Captures** (`capture.dfy`, `pg_capture.dfy`, `source_history.dfy`): the binlog event loop with its
  transaction buffer, the peeked decoding lines with their per-LSN ordinals, and the source history whose
  records they are.
* **Loader** (`chunks.dfy`, `manifest.dfy`, `loader.dfy`, `load.dfy`): chunk planning, the ledger, planning
  sessions with replay and salvage, and workers in any interleaving.
* **All together** (`pipeline.dfy`): captures, extract cycles, replicat runs and purges on one trail.
* **Parser and compare** (`field_parser.dfy`, `compare.dfy`).

`process.dfy` says what may happen to a running process: it may be killed, or lose the target.
`counting.dfy` holds the shared facts about how often a value occurs.

A crash is a step that a process may take if it is mortal: it loses everything except the committed target,
the trail files, the cursor, the source position and the ledger.

## The main results

* Any number of replicat runs and purges that may die at any step converge to the clean one-pass result
  (`Runs.ReplicatRun.History`).  With the poison policy on, the clean pass leaves out the transactions that
  the target rejects as a whole and, behind a barrier, the records it refuses; each of them is in the dead
  letter, or a later image of its row replaced it.  Whole move-free transactions land all-or-nothing.
* Any number of extract cycles that may die at any step leave every source record in the trail exactly
  once and in order (`Extracting.Extract.Cycles`), for a source whose positions increase in the order it
  emits them.  Those of MySQL do, as binlog coordinates advance (`MySqlCapture.KeysAdvance`); those of
  PostgreSQL do exactly when LSNs never step back (`PgCapture.KeysUpExactly`), which interleaved
  transactions make them do.
* Both sides together, from the binlog events to the target: whatever dies where and wherever captures
  stop, a target that has caught up is in the state of one clean pass over the source's stream; if it
  refuses nothing that is the source's state, and with whole move-free transactions it only ever committed
  states of the source in between (`Pipeline.Replication.Replicate`).
* Nothing fails without a reason: a run, a cycle or a session that nothing disturbs gets through, and two that
  follow any history of crashes complete it (`Runs.ReplicatRun.RunReplicat`, `Extracting.Extract.MySqlCycle`,
  `Loading.Load.Session`, `Pipeline.Replication.Complete`).
* Any number of load sessions that may die at any write never trust a partial plan and never lose or repeat
  a row (`Planning.Planner.Plan`, `Loading.Load.Sessions`).

## Where the code falls short of its promise

Each of these is stated as the exact condition under which the code does what it says.

* Buckets are formed on the raw table spelling: sound exactly for one spelling per table
  (`Spelling.SpellingExactly`).
* PostgreSQL transactions that interleave lose records without any crash.  A peek returns changes in commit
  order under the LSN of each change, so one that was made early and committed late lies below the trail
  tail and is dropped as already trailed (`PgCapture.InterleavedLost`); deduplication is right exactly when
  what orders behind the tail is what the trail lacks (`Dedup.DedupExactly`).
* Extract-start deduplication needs a readable tail: when a purge has left only an empty or torn active file
  while a crash window is open, records are repeated (`Dedup.KeptExactly`); a torn append to a new file
  followed by a purge and a heal leads there (`TrailLog.HiddenTail`, `Extracting.HiddenTailRepeats`).
* A retry that captures less than the crashed cycle and then snapshots new tables puts rows below the tail,
  after which deduplication repeats records (`Dedup.SnapshotOrder`, `Dedup.SnapshotBehindTail`).
* A binlog stream that drains inside a transaction splits it (`MySqlCapture.SplitTransaction`), and rows
  without a commit event are released under the id of the next commit, although the comment at
  `src/any2heliosdb/cdc/sources/mysql_binlog.py:309-311` says such rows are never grouped
  (`MySqlCapture.OwnTagsExactly`, `MySqlCapture.ForeignTag`).
* A delete decoded under a replica identity that misses a primary-key column is lost
  (`PgCapture.DeleteSaysExactly`).
* Ordinals start over in every peek, so peeks that share an LSN repeat positions (`PgCapture.PeeksCompose`),
  and the dead letter, which records a position once, would then lose refused records
  (`Poison.LostExactly`, `PgCapture.PeeksShareLost`).  Transactions do not share a change LSN and a peek does
  not split one, so this takes a source that repeats an LSN; the code relies on it not to.
* A transaction with a move is applied record by record, but what a crash behind its last move leaves of it
  is taken up as one atomic group (`TxnChunks.RegroupedTail`), so the poison policy may then park all of it,
  accepted records included (`LiveLog.InterruptionMatters`); it makes no difference exactly under the
  conditions of `Poison.ResumedTail`.
* The new configuration hash is stored before the old rows are cleared: a crash between the two leaves the
  old plan trusted under the new configuration (`Planning.Planner.BeginRun`).
* An error limit of zero or less makes the merge-compare pass differing lists (`Compare.MergeCompare`).

## Model

| member | source | states |
|---|---|---|
| `Replay.FoldCell` | src/any2heliosdb/cdc/replicat.py:348-382 | a keymove-free slice acts on every cell (table, key) on its own: the final cell is the composition of the operations the slice holds for that cell, whatever lies between them |
| `Replay.ReplayConverges` | src/any2heliosdb/cdc/replicat.py:218-224 | for full, partial and delete records: from any state in which each key has got through its own prefix of the slice, applying the whole slice gives what applying it once gives; this is what makes re-applying a batch or a transaction safe |
| `Replay.ReplayPrefix` | src/any2heliosdb/cdc/replicat.py:158-196 | a slice that stopped after any prefix and is started over ends as if it had run once |
| `Replay.TableReorder` | src/any2heliosdb/cdc/replicat.py:348-382 | two orders of the same records with the same order inside each table have the same meaning, moves included |
| `Replay.TablePrefixIsKeyPrefix` | src/any2heliosdb/cdc/replicat.py:348-382 | having got through a prefix of each table is having got through a prefix of each key |
| `Replay.MoveIdempotent` | src/any2heliosdb/cdc/replicat.py:535-593 | a primary-key move applied twice is the move applied once, from any state |
| `Replay.MoveKeepsOmitted` | src/any2heliosdb/cdc/replicat.py:535-593 | a move leaves no old-key row, touches no third key, and keeps every column the after-image omits |
| `Target.TargetDriver.Upsert` | src/any2heliosdb/target/psycopg_driver.py:247-298 | one atomic call: the last image of each key wins, merging or replacing; rejected exactly for a refused image; when the reply is lost or the process dies, either nothing or all of it is there |
| `Target.TargetDriver.UpdateColumns` | src/any2heliosdb/target/base.py:262-292 | sets only the given columns of the row at the key and tells whether there was one; an update of no row is never rejected, a conflict means that it would land on another row, and after a lost reply it did all or nothing |
| `Target.TargetDriver.DeleteKeys` | src/any2heliosdb/target/psycopg_driver.py:340-360 | removes exactly the rows at the given keys; after a lost reply all of them or none are gone |
| `Target.TargetDriver.Ping` | src/any2heliosdb/target/base.py:178-186 | answers exactly when the target is reachable |
| `Target.TargetDriver.Commit` | src/any2heliosdb/target/base.py:216-217 | makes the open work durable as a whole; with a lost acknowledgement it may have landed |
| `Target.TargetDriver.Rollback` | src/any2heliosdb/target/base.py:219-220 | what was not committed is gone |
| `ApplyLemmas.FullRun` | src/any2heliosdb/cdc/replicat.py:443-467 | one batched upsert of full images equals their one-by-one application, under merging and replacing targets alike |
| `ApplyLemmas.DeleteRun` | src/any2heliosdb/cdc/replicat.py:443-467 | one batched delete equals its one-by-one application |
| `ApplyLemmas.MoveStages` | src/any2heliosdb/cdc/replicat.py:535-593 | wherever a move stops between its driver calls, running the whole move from there gives the moved state |
| `ApplyLemmas.GatherAll` | src/any2heliosdb/cdc/replicat.py:348-382 | applying table bucket after table bucket gives what applying in trail order gives |
| `ApplyLemmas.GatherPrefix` | src/any2heliosdb/cdc/replicat.py:348-382 | a bucketed apply that stopped anywhere has got every key through a prefix of its records |
| `ApplyLemmas.KnownFold` | src/any2heliosdb/cdc/replicat.py:356-366 | records of unknown or key-less tables are skipped without effect |
| `ApplyLemmas.RedoMove` | src/any2heliosdb/cdc/replicat.py:176-196 | a move stopped half-way and replayed alone leads to the clean state of the rest |
| `ApplyLemmas.BatchReplay` | src/any2heliosdb/cdc/replicat.py:158-196 | a batch stopped half-way and replayed leads to the clean state of the rest |
| `ApplyLemmas.WholeTwice` | src/any2heliosdb/cdc/replicat.py:218-224 | re-applying a whole keymove-free transaction changes nothing |
| `Rejection.RejectsFull` | src/any2heliosdb/cdc/replicat.py:443-467 | a batched upsert is rejected exactly when it holds a refused image that no later image of the same row replaces inside the call |
| `Rejection.RejectsDelete` | src/any2heliosdb/cdc/replicat.py:443-467 | a batched delete is rejected exactly when one of its keys is refused |
| `Rejection.RejectsJoin` | src/any2heliosdb/cdc/replicat.py:384-441 | a slice is rejected exactly when one of its parts is, wherever no upsert spans the cut |
| `Rejection.RejectsRuns` | src/any2heliosdb/cdc/replicat.py:69-89 | a table bucket is rejected exactly when one of its maximal runs is |
| `Rejection.BatchRejectsRejects` | src/any2heliosdb/cdc/replicat.py:384-441 | a batch that is rejected bucket by bucket is also rejected when coalesced in trail order |
| `Poison.ParkAllNotes` | src/any2heliosdb/cdc/engine.py:765-789 | everything handed to the dead letter is there or shares its position with a record there, nothing else is added, and no position is recorded twice |
| `Poison.LostExactly` | src/any2heliosdb/cdc/engine.py:769-773 | the filter by source position loses no record handed to the dead letter if and only if different records have different positions |
| `PgCapture.PeeksShareLost` | src/any2heliosdb/cdc/sources/postgres_logical.py:364-410 | two peeks that both return a first record at one LSN give both records the same position, so that of two refused ones the dead letter keeps only the first |
| `Poison.Survivor` | src/any2heliosdb/cdc/replicat.py:443-467 | in a slice the target accepts, a later accepted image of the same row replaces each refused record |
| `Poison.BatchAccounted` | src/any2heliosdb/cdc/replicat.py:164-178 | a batch that returned has each refused record in the dead letter or replaced by a later image of its row |
| `Poison.GroupAccounted` | src/any2heliosdb/cdc/replicat.py:236-280 | so has a transaction; a rejected one is in the dead letter as a whole |
| `Poison.FoldIdentity` | src/any2heliosdb/cdc/replicat.py:348-382 | a move-free slice leaves every database as it is if and only if none of its records does anything |
| `Poison.ResumedTail` | src/any2heliosdb/cdc/engine.py:680-707 | the move-free rest of a transaction with a move, applied by the barrier or taken up again as one group: both park the same records if and only if the group is accepted or all of it is refused, and both leave the same state of every database if and only if it is accepted or none of its records does anything |
| `LiveLog.InterruptionMatters` | src/any2heliosdb/cdc/engine.py:680-707 | a concrete log where that fails: behind a move, one accepted and one refused insert; uninterrupted the refused one is parked and the other lands, while a run that dies behind the move makes the next one park both |
| `Poison.ResumedTailAmong` | src/any2heliosdb/cdc/engine.py:680-707 | the same condition where the barrier's batch goes on behind the transaction |
| `Apply.Replicat.ApplyPartial` | src/any2heliosdb/cdc/replicat.py:469-502 | a partial record is applied as its meaning says or not at all; it returns only for an accepted record and fails only for a refused one or a target that is down |
| `Apply.Replicat.RefreshOrProbe` | src/any2heliosdb/cdc/replicat.py:504-533 | refreshes the row at a key, or finds out without a change whether one is there; rejected exactly for a row that is there and an image that is refused |
| `Apply.Replicat.MoveOver` | src/any2heliosdb/cdc/replicat.py:560-580 | moves the old-key row over the new key; the new key is free when the row lands, and any stop between the calls can be redone |
| `Apply.Replicat.ApplyKeymove` | src/any2heliosdb/cdc/replicat.py:535-593 | a move that returns did its step and met no refused image; it fails only for an image that this state of the target makes it present and the target refuses, or a target that is down; one that stopped between any two driver calls leads to the same step when redone |
| `Apply.Replicat.RunsByKind` | src/any2heliosdb/cdc/replicat.py:69-89 | splits records, in order, into maximal runs of one kind |
| `Apply.Replicat.ApplyRun` | src/any2heliosdb/cdc/replicat.py:443-467 | a run is applied through the call of its kind; when it stops, a prefix was applied; it fails only for a record that cannot be applied, or a target that is down |
| `Apply.Replicat.ApplyBucket` | src/any2heliosdb/cdc/replicat.py:348-382 | one table bucket, run by run, is the fold of its records; it fails only for one of them that cannot be applied, or a target that is down |
| `Apply.Replicat.Apply` | src/any2heliosdb/cdc/replicat.py:348-382 | a batch that returns is the fold of its records in trail order; one that stopped converges when replayed; without moves it fails exactly when one of its buckets is rejected or the target is down |
| `Apply.Replicat.Buckets` | src/any2heliosdb/cdc/replicat.py:350-354 | the buckets of a batch by raw table spelling, their names in the order in which the batch brings them up |
| `Apply.Replicat.ApplyOrdered` | src/any2heliosdb/cdc/replicat.py:384-441 | the runs handed to the driver concatenate to exactly the records of known tables in trail order, so foreign-key order is kept; a move is refused; it returns only for accepted records, with their fold, and fails only for rejected ones |
| `Apply.Replicat.ApplyBarriered` | src/any2heliosdb/cdc/replicat.py:110-196 | when it returns, the state is the fold and the cursor is at the end; however it ends, the records behind the persisted cursor still lead to the clean state, every refused record before it is in the dead letter or replaced by a later image of its row, and only refused records are parked, never a move; it fails only if the target is down, the circuit breaker has tripped, a move meets a refused image in the state it finds, or a record is refused with the poison policy off |
| `Apply.Replicat.PassKeymove` | src/any2heliosdb/cdc/replicat.py:180-189 | a move is applied alone, and the cursor moves past it only when it is done |
| `Apply.Replicat.FlushBatch` | src/any2heliosdb/cdc/replicat.py:164-178 | a batch is applied, the cursor moves behind it only then, and replaying it converges |
| `Apply.Replicat.ApplyBatch` | src/any2heliosdb/cdc/replicat.py:164-178 | a batch that returns has handed nothing to the dead letter if the target accepts it, and otherwise exactly its refused records, in order; it fails only if the target is down, the breaker has tripped, or a record is refused with the policy off |
| `Apply.Replicat.ApplyIsolatingPoison` | src/any2heliosdb/cdc/replicat.py:282-346 | record by record after a failed batch: when it returns, exactly the records the target refuses were handed to the dead letter, in order, and the state is the fold of all others; it fails only if the target is down or the breaker has tripped |
| `Apply.Replicat.ApplyTxn` | src/any2heliosdb/cdc/replicat.py:198-280 | a transaction lands as a whole or not at all in every committed state; when it returns, an accepted one is durable with nothing parked, and a rejected one has left nothing durable and was handed to the dead letter as a whole by a target that answers; it fails only if the target is down, the breaker has tripped, or the target rejects it with the policy off |
| `Apply.Replicat.ParkGroup` | src/any2heliosdb/cdc/replicat.py:270-279 | hands every record of a group to the dead letter, in order, until the circuit breaker trips |
| `Apply.Registry.SetApplyCursor` | src/any2heliosdb/cdc/registry.py:117-119 | the cursor write is atomic: old or new value, the new one if the call returns |
| `Apply.DeadLetter.Park` | src/any2heliosdb/cdc/engine.py:765-789 | a record is recorded unless its position is on file, so no position comes twice; the circuit breaker trips exactly when a run has recorded more than its limit |
| `Apply.DeadLetter.Reopen` | src/any2heliosdb/cdc/deadletter.py:53-72 | a new run knows exactly the positions on file and counts from zero |
| `Spelling.TwoSpellingsDiffer` | src/any2heliosdb/cdc/replicat.py:350-358 | with two spellings of one table, insert, delete (spelled differently) and insert of one row with a full, non-NULL key ends without the row when bucketed and with it in trail order |
| `Spelling.SpellingExactly` | src/any2heliosdb/cdc/replicat.py:350-358 | bucketing by spelling keeps the meaning of every log over a set of spellings exactly when no two of them name one known table; the same for logs whose records all have non-NULL keys |
| `TrailLog.Trail.Append` | src/any2heliosdb/cdc/trail.py:207-223 | appends a line per record, all to the active file, or to a new one exactly if that has reached the size cap, so that no file exceeds the cap by more than its last batch; a crash leaves a prefix of the records and perhaps a torn fragment |
| `TrailLog.Trail.HealTornTail` | src/any2heliosdb/cdc/trail.py:365-394 | removes the torn tail and nothing else |
| `TrailLog.Trail.ReconcilePurged` | src/any2heliosdb/cdc/trail.py:183-204 | removes a file that a crashed purge had counted, so that every surviving line is back at its original global index |
| `TrailLog.Trail.ClosedSegLineCount` | src/any2heliosdb/cdc/trail.py:308-315 | the cached count of a closed segment is its number of lines |
| `TrailLog.Trail.PurgeApplied` | src/any2heliosdb/cdc/trail.py:317-358 | interleaved with appends and stopped anywhere between the meta write and the file removal: no line above the cursor is gone, at most one counted file is left over, and a full pass purges all it may |
| `TrailLog.DropFirst` | src/any2heliosdb/cdc/trail.py:183-204 | removing the counted leftover restores the layout of the surviving lines |
| `TrailLog.CountFirst` | src/any2heliosdb/cdc/trail.py:317-358 | writing the meta first makes exactly one counted leftover |
| `TrailLog.Trail.LineCount` | src/any2heliosdb/cdc/trail.py:225-230 | the number of lines ever appended, purged ones included; an unreconciled leftover counts twice and a torn tail as one more |
| `TrailLog.Trail.LastSourcePos` | src/any2heliosdb/cdc/trail.py:430-462 | the position on the last complete line, passing over files that end in a blank line; a line that does not parse has none |
| `TrailLog.TailOfRecords` | src/any2heliosdb/cdc/trail.py:430-462 | where every line is a record, that is the position of the last record on disk, in whichever file |
| `TrailLog.HiddenTail` | src/any2heliosdb/cdc/trail.py:183-462 | the layouts through which a full file, a torn append behind it, a purge and a heal lead to a trail without a readable tail |
| `TrailLog.Trail.Read` | src/any2heliosdb/cdc/trail.py:233-305 | returns exactly the slice of the logical log behind the cursor, up to the limit, never the torn line; fails exactly at the first unreadable line it reaches |
| `TrailLog.ReadsCompose` | src/any2heliosdb/cdc/trail.py:233-305 | limited reads that follow each other concatenate to one longer read |
| `TrailBytes.RoundTrip` | src/any2heliosdb/cdc/trail.py:207-223 | lines written and read back are the same lines |
| `TrailBytes.TornAppend` | src/any2heliosdb/cdc/trail.py:365-378 | whatever byte prefix of an append reached the disk, it is whole lines and then a fragment of the next |
| `TrailBytes.HealParse` | src/any2heliosdb/cdc/trail.py:365-394 | the newline-terminated prefix holds exactly the complete lines of the file |
| `TrailBytes.HealLongest` | src/any2heliosdb/cdc/trail.py:365-394 | it is the longest such prefix, and healing twice is healing once |
| `TrailBytes.ByteFile.LastNewlineOffset` | src/any2heliosdb/cdc/trail.py:397-409 | the backward scan in 4096-byte chunks finds the offset behind the last newline, for every content |
| `TrailBytes.ByteFile.HealTornTail` | src/any2heliosdb/cdc/trail.py:365-394 | leaves exactly the longest newline-terminated prefix, and tells whether it cut anything |
| `TrailBytes.ByteFile.LastCompleteLineIn` | src/any2heliosdb/cdc/trail.py:412-436 | the backward chunked scan returns the last complete line, or none if there is none or it is blank |
| `TrailBytes.LastLineAt` | src/any2heliosdb/cdc/trail.py:412-436 | the bytes between the last two newlines are the last complete line |
| `TrailBytes.HealKeepsTail` | src/any2heliosdb/cdc/trail.py:438-462 | the tail of the trail across segments is the same before and after healing, also when healing empties the active file |
| `TrailBytes.HealSeen` | src/any2heliosdb/cdc/trail.py:365-394 | healing the bytes of a file is the segment model's heal: the torn tail goes, every complete line stays |
| `TrailBytes.CrashedAppend` | src/any2heliosdb/cdc/trail.py:207-223 | on the byte level a crashed append is what the segment model says: a prefix of the records and a torn tail, none when complete |
| `TrailBytes.UnhealedAppend` | src/any2heliosdb/cdc/trail.py:365-378 | without the heal the next record would share a line with the fragment |
| `TxnChunks.SegmentForApply` | src/any2heliosdb/cdc/engine.py:667-707 | splits a chunk in order into atomic groups, each a whole move-free tagged run, and barrier runs; no segment ends inside a transaction; a barrier holds only untagged records and records of transactions with a move |
| `TxnChunks.RegroupedTail` | src/any2heliosdb/cdc/engine.py:680-707 | a transaction with a move is one barrier segment, but its move-free rest, read again from behind the move, is one atomic group |
| `TxnChunks.RunEnd` | src/any2heliosdb/cdc/engine.py:686-690 | the end of the maximal run of one transaction |
| `LiveLog.SegmentAgrees` | src/any2heliosdb/cdc/engine.py:834-861 | from a cursor between transactions or next to a move, each segment is left out, kept or refused as a clean pass over the whole log does: a whole transaction without a move goes exactly when it is rejected, a barrier keeps everything |
| `LiveLog.SettledSegment` | src/any2heliosdb/cdc/engine.py:765-789 | passing a segment keeps every record behind the cursor accounted for |
| `LiveLog.AllParked` | src/any2heliosdb/cdc/engine.py:765-789 | where left-out records have positions of their own, every record behind the cursor that was neither applied nor replaced is itself in the dead letter |
| `Engine.TrailReader.ReadTxnAligned` | src/any2heliosdb/cdc/engine.py:572-627 | returns exactly the log slice between the cursors, certified as ending between transactions; empty only at the end of the trail or before an uncertified transaction; past the limit only to finish a transaction |
| `Engine.TrailReader.Overshoot` | src/any2heliosdb/cdc/engine.py:600-623 | extends a bounded read to the end of its last transaction, across any number of reads |
| `Engine.TrailReader.HoldIncompleteTxnTail` | src/any2heliosdb/cdc/engine.py:630-664 | takes back only the last tagged run, and only when nothing certifies it |
| `RunLemmas.ConvergingCompose` | src/any2heliosdb/cdc/engine.py:822-868 | convergence of one run composes with the history before it |
| `RunLemmas.SegmentConverges` | src/any2heliosdb/cdc/engine.py:834-861 | a segment stopped with the cursor inside it still leads to the clean result |
| `RunLemmas.GroupLeftOut` | src/any2heliosdb/cdc/replicat.py:236-280 | a rejected transaction that the cursor passes changes neither the target nor the clean result |
| `RunLemmas.StreamIsStable` | src/any2heliosdb/cdc/engine.py:572-707 | in a stream of whole transactions without moves, no interruption changes what is parked |
| `RunLemmas.ExactAfterReplay` | src/any2heliosdb/cdc/replicat.py:218-224 | starting over one committed transaction behind the target changes nothing beyond that transaction |
| `RunLemmas.CertifiedBoundary` | src/any2heliosdb/cdc/engine.py:638-650 | in a stream of whole transactions a certified end is a transaction boundary |
| `RunLemmas.SegmentBoundary` | src/any2heliosdb/cdc/engine.py:680-707 | in such a stream without moves every atomic segment ends at a boundary |
| `RunLemmas.StatesCompose` | src/any2heliosdb/cdc/engine.py:822-868 | committed states at boundaries as seen by one run are so for the whole history |
| `Runs.ReplicatRun.ApplySegment` | src/any2heliosdb/cdc/engine.py:834-861 | one segment applied and its cursor persisted, convergent wherever it stops, with every record behind the cursor accounted for; an atomic one leaves the target before it or behind it |
| `Runs.ReplicatRun.ApplyChunk` | src/any2heliosdb/cdc/engine.py:834-861 | all segments of a chunk, in trail order, under any poison policy |
| `Runs.ReplicatRun.RunReplicat` | src/any2heliosdb/cdc/engine.py:822-868 | one run: however it ends, folding the log from the persisted cursor over the committed target gives the clean one-pass result, which leaves out every transaction the target rejects; if it returns, the target is exactly at the cursor and nothing appliable is left; with whole move-free transactions every committed state and cursor is at a transaction boundary, parked groups included; it fails only if the target is down, the breaker has tripped, or a record behind the cursor cannot be applied, and ends early only if it may be killed: undisturbed, it returns |
| `Runs.ReplicatRun.Purge` | src/any2heliosdb/cdc/engine.py:954-976 | purging up to the apply cursor keeps all that runs rely on, and a purge that is not killed leaves no closed file whose lines are all below the cursor in front |
| `Runs.ReplicatRun.History` | src/any2heliosdb/cdc/engine.py:711-868 | any number of runs, each with its own batch size and poison policy, and purges between them, all possibly dying at any step: the persisted cursor and the target still lead to the clean result, reached exactly at the end of the log; everything behind the cursor is applied, in the dead letter, replaced or key-less, and nothing else is parked |
| `Dedup.DropAlreadyTrailed` | src/any2heliosdb/cdc/engine.py:137-148 | keeps what orders behind the trail tail, and everything when there is no resume coordinate, no tail, a tail below it, or no key |
| `Dedup.RemainingExact` | src/any2heliosdb/cdc/engine.py:106-148 | against a trail whose tail lies between the trailed and the missing part of a capture, exactly the missing part remains |
| `Dedup.DedupExactly` | src/any2heliosdb/cdc/engine.py:106-148 | for a capture in any order against a readable tail: deduplication keeps exactly the records the trail lacks if and only if just those order behind the tail, or none of them is trailed where the tail lies below the resume coordinate |
| `Dedup.KeptExactly` | src/any2heliosdb/cdc/engine.py:106-148 | a cycle keeps exactly the records missing from the trail if and only if the trail tail is readable, nothing beyond the durable position was trailed, or nothing was captured; otherwise it repeats records |
| `Extracting.HiddenTailRepeats` | src/any2heliosdb/cdc/engine.py:106-148 | in that state, with the records behind the durable position already trailed, the next cycle keeps all of them a second time |
| `Dedup.AppendCaptured` | src/any2heliosdb/cdc/engine.py:320-382 | appending the next source records keeps the trail a gap-free, duplicate-free run of the source with strictly increasing keys |
| `Dedup.SnapshotStartSeq` | src/any2heliosdb/cdc/engine.py:204-234 | the lowest ordinal at the coordinate above every captured record and the trail tail |
| `Dedup.SnapshotOrder` | src/any2heliosdb/cdc/engine.py:237-277 | snapshot rows keep the trail in key order if and only if their coordinate is not below the tail |
| `Dedup.AppendSnapshotRows` | src/any2heliosdb/cdc/engine.py:237-277 | snapshot rows behind the tail keep the exactly-once invariant and leave room for more |
| `Dedup.SnapshotBehindTail` | src/any2heliosdb/cdc/engine.py:462-488 | a retry that captured less than the crashed cycle and then snapshots makes the next cycle repeat every trailed record it captures beyond that coordinate |
| `Dedup.CutOrder` | src/any2heliosdb/core/change_record.py:43-62 | a coordinate cuts the source stream in one place, and larger ones further on |
| `Dedup.MovePos` | src/any2heliosdb/cdc/engine.py:379-382 | the position write keeps the invariant once the trail holds everything up to it |
| `Extracting.Extract.TailKey` | src/any2heliosdb/cdc/engine.py:137-139 | the order key of the last complete line on disk, present exactly if there is such a line |
| `Extracting.Extract.SameEpoch` | src/any2heliosdb/cdc/engine.py:151-181 | refuses exactly when the trail tail lies at a coordinate beyond the stream end |
| `Extracting.Extract.DedupAndAppend` | src/any2heliosdb/cdc/engine.py:340-362 | appends exactly the source records the trail lacks; a crash keeps a prefix of them |
| `Extracting.Extract.SnapshotTables` | src/any2heliosdb/cdc/engine.py:237-277 | snapshot rows appended in chunks with increasing ordinals; a crash keeps a prefix |
| `Extracting.Extract.SnapshotAndAdopt` | src/any2heliosdb/cdc/engine.py:462-488 | the snapshot lies behind everything trailed, above the durable tail even when deduplication dropped every captured record, if the tail is not beyond its coordinate; a tail that is breaks the order of the trail; the tables are adopted behind its last row |
| `Extracting.Extract.WritePosition` | src/any2heliosdb/cdc/engine.py:379-382 | the position is replaced in one step |
| `Extracting.Extract.MySqlCycle` | src/any2heliosdb/cdc/engine.py:320-385 | a MySQL cycle that dies anywhere keeps the exactly-once invariant, unless it snapshots at a coordinate below the tail, which breaks the order of the trail; a completed one has trailed everything up to its coordinate; it refuses exactly a fresh anchor with the tail beyond it, with nothing changed; behind that come exactly the rows of the snapshot, if it asked for one, and new tables are adopted only when all of them are there; only a process that may be killed ends early |
| `Extracting.Extract.PgCycle` | src/any2heliosdb/cdc/engine.py:387-439 | the same for a PostgreSQL cycle over a stream of increasing positions, whose slot advances before the snapshot; it refuses exactly when the tail lies beyond the peeked end; the same for the snapshot rows and the adoption |
| `Extracting.Extract.Cycles` | src/any2heliosdb/cdc/engine.py:280-459 | any number of cycles, each dying anywhere, with purges between them, over a stream of increasing positions: the trail holds source records once, in order and without a gap, under strictly increasing keys, and the position is never ahead of it |
| `TxnTags.AddTxn` | src/any2heliosdb/cdc/sources/mysql_binlog.py:226-237 | appending one tagged transaction keeps a stream of whole transactions exactly when its id differs from its predecessor's |
| `MySqlCapture.PosIntOrder` | src/any2heliosdb/cdc/sources/mysql_binlog.py:39-64 | the integer coordinate orders as file and offset do, while offsets are below 2^48 |
| `MySqlCapture.AcceptedRow` | src/any2heliosdb/cdc/sources/mysql_binlog.py:267-309 | an accepted row yields a record with its whole key, never a partial update, and a move exactly when the key changed |
| `MySqlCapture.AcceptsFull` | src/any2heliosdb/cdc/sources/mysql_binlog.py:91-112 | a row is accepted exactly if it is a full one: every expected column is there, none is a placeholder of the server, and an update of a keyed table has its before-image |
| `MySqlCapture.Flush` | src/any2heliosdb/cdc/sources/mysql_binlog.py:226-237 | a commit tags the buffered rows and marks the last one; the tail stays untagged |
| `MySqlCapture.Capture` | src/any2heliosdb/cdc/sources/mysql_binlog.py:176-316 | returns the emission of exactly the consumed events, stopping at the first commit that reaches the limit; a partial row image is refused with nothing returned, and only an event that holds a row that is not full is refused: a capture of full images succeeds |
| `MySqlCapture.WholeTransactions` | src/any2heliosdb/cdc/sources/mysql_binlog.py:224-252 | the released records form a stream of whole transactions exactly when neighbouring commits have different ids |
| `MySqlCapture.CaptureSplits` | src/any2heliosdb/cdc/sources/mysql_binlog.py:240-252 | two captures that meet at a commit return what one returns |
| `MySqlCapture.SplitTransaction` | src/any2heliosdb/cdc/sources/mysql_binlog.py:309-313 | two captures that meet inside a run of rows return what one returns if and only if nothing was buffered there or the next commit has no id; otherwise they split a transaction |
| `MySqlCapture.OwnTagsExactly` | src/any2heliosdb/cdc/sources/mysql_binlog.py:224-252 | every row comes out under the id of its own transaction, and untagged without one, if and only if no transaction without a commit event is followed by a commit event with an id |
| `MySqlCapture.ForeignTag` | src/any2heliosdb/cdc/sources/mysql_binlog.py:309-313 | a row of an engine without commit events, followed by another transaction, is released under that transaction's id |
| `MySqlCapture.KeysAdvance` | src/any2heliosdb/cdc/sources/mysql_binlog.py:253-276 | with advancing event coordinates the emitted positions strictly increase, several rows of one event included |
| `MySqlCapture.CutAnywhere` | src/any2heliosdb/cdc/sources/mysql_binlog.py:176-316 | however captures tag the rows, positions increase, and the coordinate behind any event, inside a transaction or not, cuts the stream behind its rows |
| `MySqlCapture.AnyCapture` | src/any2heliosdb/cdc/sources/mysql_binlog.py:309-313 | what a capture between any two events returns can take the place of the stream's rows there: the same rows under other tags |
| `MySqlCapture.CaptureIsSlice` | src/any2heliosdb/cdc/sources/mysql_binlog.py:176-316 | a capture between commits is a slice of the source stream, cut by its returned coordinate |
| `PgCapture.FillPkFromOld` | src/any2heliosdb/cdc/sources/postgres_logical.py:286-299 | backfills omitted key columns from the pre-image, and fails exactly when one is in neither image |
| `PgCapture.AcceptedChange` | src/any2heliosdb/cdc/sources/postgres_logical.py:222-268 | an accepted insert or update carries its whole key, is a move exactly when a provided key column changed, and keeps the key columns it omits |
| `PgCapture.DeleteSaysExactly` | src/any2heliosdb/cdc/sources/postgres_logical.py:226-227 | a captured delete deletes its row on an equal target if and only if the replica identity covers the primary key; otherwise it addresses a NULL key and changes nothing |
| `PgCapture.Capture` | src/any2heliosdb/cdc/sources/postgres_logical.py:331-415 | tags, numbers and terminates the records of the peeked lines, and returns the last LSN |
| `PgCapture.WholeTransactions` | src/any2heliosdb/cdc/sources/postgres_logical.py:372-415 | between transaction bounds: finished records form a stream of whole transactions exactly when neighbouring ids differ, and the open one is unterminated |
| `PgCapture.KeysUpExactly` | src/any2heliosdb/cdc/sources/postgres_logical.py:378-410 | positions strictly increase if and only if the LSNs of the captured lines never step back |
| `PgCapture.InterleavedLost` | src/any2heliosdb/cdc/sources/postgres_logical.py:364-410 | of two interleaved transactions, the one that changes its row first and commits last is captured with an LSN below the trail tail and dropped, though the trail lacks it |
| `PgCapture.PeeksCompose` | src/any2heliosdb/cdc/sources/postgres_logical.py:364-371 | two peeks that meet between transactions return what one would if and only if they share no LSN |
| `SourceHistory.SameStep` | src/any2heliosdb/cdc/replicat.py:469-593 | applying the record of a source change to an equal target makes the same change; omitted columns keep their values and a move takes the row along |
| `SourceHistory.BinlogSays` | src/any2heliosdb/cdc/sources/mysql_binlog.py:267-309 | the MySQL capture's record of a change says that change |
| `SourceHistory.BinlogAccepted` | src/any2heliosdb/cdc/sources/mysql_binlog.py:91-112 | the row of any change under full images and metadata is accepted |
| `SourceHistory.LogAccepted` | src/any2heliosdb/cdc/sources/mysql_binlog.py:264-308 | so nothing in the binlog of a history written that way is refused |
| `SourceHistory.LogSays` | src/any2heliosdb/cdc/sources/mysql_binlog.py:176-316 | whatever captures make of a binlog that holds a row image for each change says the history, however they tag it |
| `SourceHistory.DecodedSays` | src/any2heliosdb/cdc/sources/postgres_logical.py:224-268 | so does the PostgreSQL capture's, key columns omitted from a move included |
| `SourceHistory.FoldIsHistory` | src/any2heliosdb/cdc/replicat.py:348-382 | folding the records of a source history over an equal target gives the source's own final state |
| `SourceHistory.EndIsSource` | src/any2heliosdb/cdc/engine.py:822-868 | a history of runs that reached the end of the stream leaves the target in the source's state |
| `SourceHistory.EndToEnd` | src/any2heliosdb/cdc/engine.py:822-868 | the same for a trail known to hold the source stream exactly once |
| `SourceHistory.CommittedStates` | src/any2heliosdb/cdc/replicat.py:236-253 | every target state committed at a boundary is the state the source had at the end of that transaction |
| `Pipeline.Replication.ExtractStep` | src/any2heliosdb/cdc/engine.py:320-385 | an extract cycle on the shared trail keeps both sides in agreement, wherever it dies, and undisturbed moves the durable position behind the captured event |
| `Pipeline.WholeFits` | src/any2heliosdb/cdc/sources/mysql_binlog.py:240-316 | captures between commits are pieces of the stream one capture of everything would give |
| `Pipeline.Replication.CaptureStep` | src/any2heliosdb/cdc/sources/mysql_binlog.py:176-316 | a capture, up to a commit or to where the stream drains, followed by the extract cycle that appends it, keeps both sides in agreement; undisturbed and under full images it gets to the last shown event |
| `Pipeline.Replication.ApplyStep` | src/any2heliosdb/cdc/engine.py:822-868 | a replicat run or purge keeps them in agreement while extracts go on appending |
| `Pipeline.Replication.Replicate` | src/any2heliosdb/cdc/engine.py:280-868 | captures, extract cycles, replicat runs and purges in any order, each dying anywhere: when everything is applied the target is in the state of one clean pass, which is the source's own state if nothing is refused; nothing but what that pass leaves out or refuses is parked; with whole move-free transactions every state it ever committed is at a transaction boundary, and one the source had there if nothing is refused |
| `Pipeline.Replication.CatchUp` | src/any2heliosdb/cdc/engine.py:280-868 | from any state a history leaves, one capture of the whole binlog and one replicat run that nothing disturbs bring the apply cursor to the end of the stream |
| `Pipeline.Replication.Complete` | src/any2heliosdb/cdc/engine.py:280-868 | and with it the target to the state of the clean pass; where nothing is refused, to the source's own |
| `Chunks.ComputeChunks` | src/any2heliosdb/chunking/pk_range.py:80-100 | terminates, for all bounds and every target, with an even split of the bounds, or with the one whole-table chunk if there are none or one piece is asked for |
| `Chunks.PlanPartitions` | src/any2heliosdb/chunking/pk_range.py:86-99 | between 1 and the smaller of target and span non-empty ranges that join up from lo to hi+1; all but the last have one width, which is the ceiling of the span over that number, and the last is no wider |
| `Chunks.OneEvenSplit` | src/any2heliosdb/chunking/pk_range.py:86-99 | bounds and target have only one such split |
| `Chunks.ExactlyOneTile` | src/any2heliosdb/chunking/pk_range.py:86-99 | every real key between the bounds lies in exactly one range |
| `Chunks.PlanCoversRows` | src/any2heliosdb/sources/oracle/adapter.py:521-536 | with bounds rounded down, or wider ones, every row of the table, fractional keys included, is in exactly one chunk |
| `Chunks.RerenderedIffSameColumn` | src/any2heliosdb/chunking/pk_range.py:36-49 | re-rendering recorded bounds reproduces the recorded predicate exactly when the key column is the recorded one, whatever quotes its name holds |
| `Ledger.PartialKeepsTrust` | src/any2heliosdb/core/manifest.py:350-362 | a partly recorded table has no progress, so it is never trusted |
| `Ledger.StatesKeepTrust` | src/any2heliosdb/core/manifest.py:409-418 | loading changes states only: complete plans stay complete |
| `Ledger.DropKeepsTrust` | src/any2heliosdb/core/manifest.py:364-373 | dropping a table's rows forgets that table and leaves every other as it was; the ledger stays trustworthy |
| `Planning.Planner.PlanTable` | src/any2heliosdb/core/loader.py:171-195 | records one table row by row, possibly dying behind any row, and touches no other table |
| `Planning.Planner.PlanFresh` | src/any2heliosdb/core/loader.py:171-195 | plans every listed table completely, memory mirroring the ledger |
| `Planning.Planner.ReplayTable` | src/any2heliosdb/core/loader.py:233-272 | rebuilds a table's chunks from its rows, and refuses exactly when a chunk would delete another range than it reads |
| `Planning.Planner.ReplayPlan` | src/any2heliosdb/core/loader.py:197-278 | trusts every recorded table, or in salvage only those with progress, which stay as they are; plans the rest; fails on a vanished table with nothing changed, and otherwise only on a trusted table that has a chunk which would delete another range than it reads |
| `Planning.Planner.BeginRun` | src/any2heliosdb/core/loader.py:109-139 | stores the configuration, clears a run that starts over, unsets the marker; dying between the first two leaves rows of another configuration under the new one, exactly when there are rows and the configuration changed |
| `Planning.Planner.Plan` | src/any2heliosdb/core/loader.py:95-169 | wherever it stops, a table with progress is completely recorded; when it returns, every table is, the marker is set and memory equals the ledger; when it does not, no in-memory plan remains; the snapshot decision of a resumed run is reused; only a resumed run fails, and only for a vanished table or a trusted one whose chunks drifted |
| `Loading.ReloadRange` | src/any2heliosdb/core/loader.py:399-409 | deleting a range and loading it from the source is right whatever was there, idempotent, and leaves disjoint ranges alone |
| `Loading.LivePlanFits` | src/any2heliosdb/core/loader.py:187-189 | what the planner makes of a source's rounded-down bounds puts each of its rows into one chunk |
| `Loading.EveryBounds` | src/any2heliosdb/core/loader.py:187-189 | the plans from whatever rounded-down or wider bounds a session reads are among those that put each row into one chunk |
| `Loading.WriteRange` | src/any2heliosdb/core/loader.py:378-412 | one worker's load keeps every other chunk that was right |
| `Loading.AllLoaded` | src/any2heliosdb/core/loader.py:315-351 | with all chunks of a table loaded, the target holds exactly the rows of the source, each as often |
| `Loading.Load.Step` | src/any2heliosdb/core/loader.py:378-412 | one step of one worker keeps the load invariant, failing before, during or after its commit, and fails only in a faulty try |
| `Loading.Load.LoadPending` | src/any2heliosdb/core/loader.py:353-376 | recovers, then runs all pending and failed chunks in any interleaving; a pass that ended has tried each chunk that was not loaded exactly once and left it loaded unless that try was faulty, and has touched no loaded one; a crash at any step keeps the invariant |
| `Loading.Load.Run` | src/any2heliosdb/core/loader.py:315-351 | the parallel pass and the serial mop-up: a chunk is left unloaded only by a faulty try in each |
| `Loading.Load.Session` | src/any2heliosdb/core/loader.py:95-412 | one session that plans or resumes and loads: if it completes, every table of the source whose chunks each met one good try equals the source table; it refuses only a vanished or drifted table, and is interrupted only if it may be killed |
| `Loading.Load.Sessions` | src/any2heliosdb/core/loader.py:95-412 | any number of sessions that plan or resume and load, each with the key bounds it reads and each dying at any write: a table whose recorded chunks are all loaded equals the source table, no row missing or repeated |
| `FieldParser.ParseFields` | src/any2heliosdb/cdc/sources/postgres_logical.py:111-184 | ends on every string, with the result of the recursive reading |
| `FieldParser.FieldBack` | src/any2heliosdb/cdc/sources/postgres_logical.py:111-184 | a printed column is read back, and the reader stops right behind it |
| `FieldParser.ExpectedExactly` | src/any2heliosdb/cdc/sources/postgres_logical.py:174-183 | of distinct columns each is kept with its coerced value, except exactly the bare unchanged-TOAST ones |
| `FieldParser.RoundTrip` | src/any2heliosdb/cdc/sources/postgres_logical.py:111-184 | parsing a printed list of distinct columns gives every column with its coerced value, leaves out exactly the unchanged-TOAST ones and invents none; names and values may hold any characters, doubled quotes included |
| `Compare.FrameInjective` | src/any2heliosdb/validate/data.py:123-140 | different rows never produce the same framed bytes |
| `Compare.ChecksumIdentifies` | src/any2heliosdb/validate/data.py:123-140 | with an injective hash, equal checksums mean equal rendered rows |
| `Compare.MergeCompare` | src/any2heliosdb/validate/data.py:345-400 | with a positive error limit it passes exactly when both lists are equal, and without an early stop mismatches and leftovers are all the differences; with a limit of zero or less it passes exactly when the lengths and the first rows agree |
| `Compare.DifferencesCount` | src/any2heliosdb/validate/data.py:356-400 | the differences counted are the symmetric difference of the keys plus the changed rows |
| `Compare.KeylessCompare` | src/any2heliosdb/validate/data.py:325-343 | without a key it passes exactly when both sides hold the same checksums, each as often |

## Left out

- Runs.ReplicatRun.RunReplicat: parking whole transactions is claimed for extracts whose runs all apply by transaction (`grouped`), on logs whose terminators are followed by another transaction and where the rest of a transaction behind its last move, if rejected, is refused record by record; otherwise what is parked depends on where runs stopped (LiveLog.InterruptionMatters, Poison.ResumedTail), so there is no one clean result.  Where a move stops it, the images of that move are named, not the state that made it present them; Apply.Replicat.ApplyBarriered names that too.
- Runs.ReplicatRun.History: the same; where runs change their mode and something is refused, those that apply by transaction run without the poison policy.
- Engine.TrailReader.ReadTxnAligned: stated for a trail whose lines are all records; the blank-line branch of the run loop is not reached.
- Runs.ReplicatRun.Purge: the appends of a concurrent extract are modelled in TrailLog.Trail.PurgeApplied, not again here.
- TrailLog.Trail.Append: stated for a healed active file, as the MySQL and PostgreSQL branches leave it; TrailBytes.UnhealedAppend says what the Oracle branch risks.
- Extracting.Extract.Cycles: the positions of the stream increase, which PostgreSQL's do exactly as PgCapture.KeysUpExactly says; without that records are lost (PgCapture.InterleavedLost).  A cycle starts where the trail shows its tail or was never purged, and asks for a snapshot where the tail is not beyond its coordinate; what happens otherwise is Dedup.KeptExactly, Dedup.SnapshotOrder and Dedup.SnapshotBehindTail.
- Extracting.Extract.PgCycle: the positions of the stream increase, as for Extracting.Extract.Cycles; a peek that returns no LSN is left out; snapshot rows then carry no position.
- PgCapture.KeysUpExactly: that LSNs do not step back across interleaved transactions is a condition, not a result.
- MySqlCapture.PosIntOrder: parsing the file number out of a binlog file name is left out.
- Loading.Load.Sessions: the source rows and the configuration are fixed; where rows come and go between sessions only the planning results are claimed.
- SourceHistory.EndToEnd: stated for a trail without snapshot rows.
- Pipeline.Replication.Replicate: the MySQL side, without snapshots of new tables.  The stream carries the tags its captures gave it; a capture that crashed, was repeated and then ended inside another transaction, so that it tags the same rows otherwise, is left out.  Parking whole transactions needs the conditions of Runs.ReplicatRun.History.
- SourceHistory.CommittedStates: stated for move-free streams of whole transactions that the target refuses nothing of.
- Planning.Planner.Plan: the tables of one run have different bare names, as one introspection of one namespace returns them.
- FieldParser.ParseFields: what `_coerce` makes of a value is a parameter.
- Compare.MergeCompare: the rendering of values, the sampling of rows and the total order of their keys are taken as given, and the hash as injective; keys stand for themselves as integers.
- Pipeline.Replication.CatchUp: stated for runs that do not apply by transaction, whose last transaction needs no certificate, and for a circuit breaker that is off.
- Target: an unreachable target stays unreachable for the rest of the process, whether or not the call that found it so had landed, and a row image is refused always or never; a target that recovers within a process is not modelled.
- Upper-casing of table names is ASCII; strings have no encoding.
- The JSON codec of a record is a parameter: an encoded record is one line without a newline and reads back.
- Files: `flock` exclusion, fsync and atomic replace are taken as given; the meta file is read and written whole.
- Applied counts, warnings, statistics and the per-table estimates of the ledger.
- The Oracle branch of the extract appends without healing and has no positions; nothing is claimed for it.  `reconcile_deletes`, lag reports, slot handling and epoch identity files are left out.
- `parse_change` beyond its key handling: the line pattern and the split at `new-tuple:` are string heuristics.
- SQL text, drivers, type maps, DDL, the command line, the server and the monitor.
