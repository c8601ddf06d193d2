# my-manager: a verified model

my-manager is a small high-availability manager. One process at a time is the active one: with raft it is the
raft leader, without raft it is the process that holds the single row of the `active_node` table. This project
models the parts of the program in which that can go wrong and proves what they keep:

- **Election** (`ActiveNode`, `ElectionProtocol`, `HealthTick`, `TickOverlap`). The three statements of an election
  attempt run against one shared row under a database clock in whole seconds. `ActiveNode` holds the statements, the
  history of changes to the row and the attempt as a method; `ElectionProtocol` interleaves any number of attempts of
  any number of processes, statement by statement, with failures and with answers stored arbitrarily late;
  `TickOverlap` interleaves the health ticks of one process and counts its registrations.
- **Snapshots** (`SnapshotNames`, `SnapshotOrder`, `Crc64`, `SnapshotStore`). Names, their order, the directory
  with its published and temporary snapshots, the buffered and checksummed sink, and the two-phase reap.
- **Log and stable store** (`RelStore`). Tables and transactions as a dictionary and as a contiguous log.
- **Requests and queries** (`Template`, `Dispatch`, `Peers`, `Sql`, `AvailabilityQuery`). Placeholder expansion,
  the request loop, the normalization of peers, and the text of the availability query, whose meaning is
  recovered with a lexer and a parser.
- **Replicated commands and caches** (`Encoding`, `Commands`, `HealthReports`, `Registration`, `NodeReads`,
  `HandleCache`).

Code that changes state in place is modelled by classes and methods that are proved against functions; what the
program promises is proved about those functions, mostly over whole runs. Failures of the environment (a lost
connection, a failing rename, a removal that does not work, a server that does not answer a ping) are inputs.

## What turned out to be different from what one would expect

For each of these the model states exactly when the code does what one would expect.

- A second attempt by the holder within one second affects no row, because the connection counts changed rows, so
  it answers false (`ActiveNode.UndisturbedWins`, with `ActiveNode.OwnRowMayAnswerFalse` as an instance).
- Two processes can believe to be elected at the same time, exactly when their last successes lie more than five
  seconds apart (`ElectionProtocol.FlagsTogetherExactly`); so never both on the strength of a success of the last
  five seconds (`ElectionProtocol.AtMostOneFreshLeader`).
- A snapshot just closed may be removed by its own reap: it survives exactly when fewer than `retain` others share
  its term and index under a greater name (`SnapshotOrder.ClosedSurvives`, with `SnapshotStore.ClosedMayVanish` as
  an instance on an empty disk).
- At equal term and index the name order of two snapshots is their order in time exactly when their timestamps have
  equally many digits or the shorter one is at most the leading digits of the longer
  (`SnapshotNames.NameOrderIsTimeOrder`): 1 comes before 20, but 10 before 9.
- Closing a snapshot may report a failure although the snapshot has been published: exactly when it has come past the
  rename and a scan of the directory for the reap then fails (`SnapshotStore.FileSnapshotSink.Close`, with
  `SnapshotStore.FailedCloseMayPublish` as an instance on an empty disk). Raft takes such a snapshot for not taken
  (vendor/github.com/hashicorp/raft/raft.go:1842-1845), yet it is listed and can be opened.
- When the last flush of the metadata file fails, closing a snapshot reports success and leaves a directory that
  cannot be read and is not listed (`SnapshotStore.FileSnapshotSink.Close`).
- A filled-in value may itself be expanded. For templates whose text opens no brace and listed names without braces,
  order and repetition of the parameter list are irrelevant exactly when no value can open the placeholder of a listed
  name (`Template.OrderIrrelevantExactly`).
- The availability query is malformed exactly when the first or the last peer has no port; peers in between may
  lack one (`AvailabilityQuery.QueryWellFormed`).
- A purge can change what readers see later: exactly when a purged process registers before its old row would have
  been purged anyway, survives the later purges and is recent at the end (`Registration.PurgeInvisible`); it then has a
  new first registration.
- The last response of the request endpoint, which would report an unexecuted script, is unreachable
  (`Dispatch.CommonRequest`).
- The log may have gaps. It never has one exactly when every batch overlaps or touches what is stored and no deletion
  cuts out the middle (`RelStore.LogStaysContiguous`). A follower that is sent a snapshot far beyond its last entry
  keeps its old entries when these are few (vendor/github.com/hashicorp/raft/raft.go:1870-1874), and its next batch
  then leaves a gap (`RelStore.GapAfterSnapshot`).
- Reading a number stored in one to seven bytes goes out of bounds (`RelStore.RelationalStore.GetUint64`).
- When the first statement of a transaction cannot be prepared, the transaction stays open and holds the only
  connection: from then on everything blocks (`RelStore.RelationalStore.Set`, `RelStore.RunCalls`).
- Opening the database may report no error and yet return no handle, because the outcome of the second failover
  loop is dropped at `db/db.go:74`; `HandleCache.Connections.OpenDb` says exactly when.
- The comments promise that a node does not yield to itself. The raw JSON text is taken for the peer or the hint
  (`raft/fsm.go:24` and `raft/fsm.go:31`), so a peer or hint published as a string is never recognized, and has the
  intended effect exactly on the nodes it does not mean (`Commands.PeerMeetsItsPurpose`,
  `Commands.HintMeetsItsPurpose`). No caller publishes either command at present: only leader-uri, heartbeat and
  request-health-report are published (raft/raft.go:169, 327, 333).
- With raft a follower in the quorum registers on every health tick, although the comment speaks of having just
  turned leader (`HealthTick.TickTwice`). Without raft, overlapping ticks may register once each for every rise of
  the flag, and no more than that (`TickOverlap.RegistrationsPerRise`,
  `TickOverlap.OverlappingTicksMayAllRegister`).

## Model

| member | source | states |
|---|---|---|
| ActiveNode.ApplyKeepsLedger | process/election_dao.go:14-84 | no statement, failing or not, and no passing of time breaks the ledger: the row is never deleted, shows the latest grant and the start of its holder's tenure, and each grant lawfully follows the one before |
| ActiveNode.ApplyAllKeepsLedger | process/election_dao.go:12-86 | the same over any sequence of statements of any processes |
| ActiveNode.HandoverGap | process/election_dao.go:36-59 | a grant to one process and any later grant to another lie more than the expiry interval apart |
| ActiveNode.GrantsStrictlyLater | process/election_dao.go:61-84 | no two changes of the row fall into the same second |
| ActiveNode.InsertWinsAtMostOnce | process/election_dao.go:13-34 | the insert succeeds at most once in the life of the table, and only as the first grant |
| ActiveNode.StableLeader | process/election_dao.go:36-84 | while grants follow each other within the expiry interval, the lease does not change hands |
| ActiveNode.NoSuccessorWhileFresh | process/election_dao.go:36-59 | no number of contenders takes over a lease that has not expired |
| ActiveNode.SingleSuccessor | process/election_dao.go:36-59 | of any number of contenders in one second exactly the first takes an expired lease over, and holds it afterwards |
| ActiveNode.ActiveNodeTable.Exec | process/election_dao.go:14-29 | one statement on the shared row: its effect, and that an affected row means a changed row |
| ActiveNode.ActiveNodeTable.Interfere | logic/continuous_operation.go:213-217 | what other processes do to the table between two statements keeps the ledger |
| ActiveNode.ActiveNodeTable.AttemptElection | process/election_dao.go:12-86 | with arbitrary interference and faults: when the attempt answers true, the exact table it leaves, and that true means holding the row through a grant stamped now |
| ActiveNode.ActiveNodeTable.ElectedNode | process/election_dao.go:89-112 | returns the owner of the row, when it was first seen, when it was last seen unless the server heads that column as it was typed, and whether it is this process; blank without a row or when the query fails |
| ActiveNode.UndisturbedWins | process/election_dao.go:12-86 | undisturbed, an attempt answers true if and only if there is no row, it has expired, or it is the process's own and not yet stamped in this second |
| ActiveNode.OwnRowMayAnswerFalse | process/election_dao.go:61-85 | holding the row is not enough for a true answer |
| ElectionProtocol.StepKeepsInv | logic/continuous_operation.go:256-267 | every step of the interleaved protocol keeps the ledger lawful and every pending or stored true answer justified by a grant |
| ElectionProtocol.RunKeepsInv | logic/continuous_operation.go:213-217 | so does every run |
| ElectionProtocol.HandoverGapInEveryRun | process/election_dao.go:36-59 | in every run, changes of the row by different processes lie more than five seconds apart |
| ElectionProtocol.BeliefsApart | logic/continuous_operation.go:256-267 | in every reachable state two raised flags stem from successes more than five seconds apart, however late they were stored |
| ElectionProtocol.FlagsTogetherExactly | logic/continuous_operation.go:256-267 | two flags with given times of success can be up together in some reachable state if and only if these lie more than five seconds apart |
| ElectionProtocol.AtMostOneFreshLeader | logic/continuous_operation.go:22-27 | in every reachable state at most one process is leader through a success no more than five seconds old |
| ElectionProtocol.FreshHolderCannotBeOvertaken | process/election_dao.go:12-86 | over any run, with ticks of any process beginning, failing and storing their flags: until five seconds have passed since the holder was last seen, no other process is granted anything and no attempt of another comes to answer true |
| ElectionProtocol.StableLeaderInEveryRun | process/election_dao.go:36-84 | in every run, from a grant on, no other process is granted anything while the gaps stay within five seconds |
| ElectionProtocol.RunIsEvents | process/election_dao.go:12-86 | a run of the interleaved protocol does to the table exactly what the statements executed in it do, in their order |
| ElectionProtocol.TickRefinesAttempt | process/election_dao.go:12-86 | a tick interleaved with any actions of any other ticks refines the sequential attempt: same answer, and the statement that answers leaves the same table |
| ElectionProtocol.StoreSetsFlag | logic/continuous_operation.go:262-266 | storing an answer makes the process leader if and only if the answer is true, whatever its flag was before, and leaves the flag of every other process alone |
| ElectionProtocol.WholeTickSetsFlag | logic/continuous_operation.go:256-267 | after a tick interleaved with any other actions has stored its answer, the process is leader if and only if the sequential attempt among what happened in between wins, and no other flag has changed by it |
| ElectionProtocol.FlagIsLastStored | logic/continuous_operation.go:256-267 | in every run a process is leader if and only if the answer its ticks stored last was true |
| ElectionProtocol.UndisturbedTickAnswers | process/election_dao.go:12-86 | undisturbed, a tick of the protocol answers true if and only if there is no row, it has expired, or it is its own and not yet stamped in this second |
| ElectionProtocol.TwoNodesMayBelieve | logic/continuous_operation.go:256-267 | for any two processes and any two seconds more than five apart there is a run after which both flags are up from these seconds |
| HealthTick.Ticker.OnHealthTick | logic/continuous_operation.go:238-285 | one tick: the flag becomes the answer of the attempt or the raft state, the table is that after the attempt, leadership is yielded exactly after more than five seconds of ill health, registration happens exactly on becoming active |
| HealthTick.TickTwice | logic/continuous_operation.go:277-284 | one tick after the other: without raft they never both register; with raft, whatever it says during each, both register exactly when the process is in the quorum at the end of both and leader at the start of neither |
| TickOverlap.RegistrationsPerRise | logic/continuous_operation.go:215-216 | in every run in which at most so many ticks overlap, the process registers at most that often for each rise of its flag |
| TickOverlap.OverlappingTicksMayAllRegister | logic/continuous_operation.go:277-284 | the bound is attained for every number of overlapping ticks and every number of rises |
| SnapshotNames.NameInjective | raft/file_snapshot.go:130-134 | different triples of term, index and milliseconds never share a name |
| SnapshotNames.SplitName | raft/file_snapshot.go:130-134 | cutting a name at its dashes gives the decimals of term, index and milliseconds, in that order |
| SnapshotNames.NoLeadingZero | raft/file_snapshot.go:133 | a decimal starts with a zero only if it is that of zero |
| SnapshotNames.NameIsPermanent | raft/file_snapshot.go:226-231 | no snapshot name looks temporary; with the suffix it does, and trimming restores it |
| SnapshotNames.StringLessTotal | raft/file_snapshot.go:491 | the order of names is total and strict |
| SnapshotNames.StringLessMeans | raft/file_snapshot.go:491 | a name comes before another if and only if it is a proper prefix of it or has the smaller character where they first differ |
| SnapshotNames.StringLessTransitive | raft/file_snapshot.go:491 | the order of names is transitive |
| SnapshotNames.DecimalOrder | raft/file_snapshot.go:133 | for equally many digits the order of names is numeric |
| SnapshotNames.ShorterDecimal | raft/file_snapshot.go:133 | a decimal with fewer digits comes first exactly when it is at most the leading digits of the longer one |
| SnapshotNames.NameOrderIsTimeOrder | raft/file_snapshot.go:130-134 | at equal term and index, names are ordered by time if and only if the timestamps have equally many digits or the shorter is at most the leading digits of the longer |
| SnapshotNames.NameOrderMayDiffer | raft/file_snapshot.go:130-134 | of two timestamps the later one has the smaller name if and only if that condition fails |
| SnapshotOrder.LessTotal | raft/file_snapshot.go:484-492 | the order is strict and total on snapshots with different names |
| SnapshotOrder.LessTransitive | raft/file_snapshot.go:484-492 | the order is transitive |
| SnapshotOrder.LessIsAge | raft/file_snapshot.go:484-492 | within one term and index the order is by age if and only if the timestamps meet the same condition |
| SnapshotOrder.ListingTop | raft/file_snapshot.go:199-205 | the first n of a newest-first listing are the n snapshots with the fewest others after them |
| SnapshotOrder.ListingUnique | raft/file_snapshot.go:244-247 | there is only one newest-first listing of a set of snapshots, so the sort determines its result |
| SnapshotOrder.Insert | raft/file_snapshot.go:244-245 | putting a snapshot into its place keeps the listing sorted and adds exactly it |
| SnapshotOrder.ReapExact | raft/file_snapshot.go:326-364 | with all removals working, exactly the top `retain` of the snapshots not newer than the current one remain |
| SnapshotOrder.ReapByFields | raft/file_snapshot.go:326-364 | whatever cannot be removed: left after a reap is, of the snapshots up to term and index of the current one or stuck, each that is stuck or followed by fewer than `retain` of these in the order of term, index and name |
| SnapshotOrder.OlderIsKept | raft/file_snapshot.go:343-350 | a snapshot with an earlier term, or the same term and an earlier index, is kept beside the current one by any store that retains two or more |
| SnapshotOrder.ClosedSurvives | raft/file_snapshot.go:326-364 | the snapshot just closed survives if and only if fewer than `retain` others share its term and index under a greater name |
| Crc64.FeedConcat | raft/file_snapshot.go:179-184 | hashing in pieces is hashing the whole, for every way of cutting |
| Crc64.FeedIsDivision | raft/file_snapshot.go:289-293 | one more byte adds it to the register and divides by the ECMA polynomial bit by bit, eight times, without a table |
| Crc64.OneByteNoticed | raft/file_snapshot.go:301-307 | contents that differ in exactly one byte have different checksums |
| Crc64.CheckValue | raft/file_snapshot.go:289 | the checksum of the digits from one to nine is the published check value of CRC-64/XZ, which fixes start and complement |
| SnapshotStore.NewFileSnapshotStore | raft/file_snapshot.go:77-99 | a store is opened if and only if it retains at least one snapshot and its path can be made and written to, whatever is on the disk |
| SnapshotStore.FileSnapshotStore.GetSnapshots | raft/file_snapshot.go:210-248 | fails exactly when the directory cannot be scanned; otherwise lists exactly the readable published snapshots newest first, whatever the order of the scan and whatever unreadable directories there are |
| SnapshotStore.FileSnapshotStore.List | raft/file_snapshot.go:191-207 | the newest `retain` published snapshots, in order, or a failure exactly when the directory cannot be scanned |
| SnapshotStore.FileSnapshotStore.Open | raft/file_snapshot.go:273-323 | a complete snapshot opens with its contents; a mismatch is reported exactly when the contents have another checksum than the metadata name, and missing metadata or contents each have their error |
| SnapshotStore.FileSnapshotStore.OpenAltered | raft/file_snapshot.go:285-307 | a complete snapshot in which any one byte of the state has been altered is refused with a checksum mismatch |
| SnapshotStore.FileSnapshotStore.Create | raft/file_snapshot.go:137-188 | failing at any step or not, the published snapshots stay the same; on success a fresh sink on an empty temporary directory, without metadata when their last flush is lost |
| SnapshotStore.FileSnapshotStore.Remove | raft/file_snapshot.go:328-336 | removes one directory or, when that fails, nothing |
| SnapshotStore.FileSnapshotStore.DropNewer | raft/file_snapshot.go:343-350 | removes exactly the listed snapshots newer than the current one |
| SnapshotStore.FileSnapshotStore.Trim | raft/file_snapshot.go:360-362 | removes exactly the listed snapshots from position `retain` on |
| SnapshotStore.FileSnapshotStore.ReapSnapshots | raft/file_snapshot.go:326-364 | fails exactly when the first scan does, or the second one that follows after newer snapshots were found; the published snapshots become the reaped ones, all of them, or those not newer accordingly, also when some removals fail, and nothing else is removed |
| SnapshotStore.FileSnapshotSink.constructor | raft/file_snapshot.go:149-184 | a sink starts open and empty on its temporary directory |
| SnapshotStore.FileSnapshotSink.Emit | raft/file_snapshot.go:182-184 | the state file and the digest receive the same data |
| SnapshotStore.FileSnapshotSink.Flush | raft/file_snapshot.go:433-436 | after flushing the state file holds all that was written |
| SnapshotStore.FileSnapshotSink.Drain | raft/file_snapshot.go:374-376 | the rounds of a write that does not fit the buffer hand over a prefix of the chunk, losing and repeating nothing |
| SnapshotStore.FileSnapshotSink.Write | raft/file_snapshot.go:374-376 | what has been written grows by the chunk, buffered or past the buffer, and only the state file of this snapshot changes; after the end nothing reaches the disk any more, the buffer takes what fits into 4096 bytes, and writes fail from the first overflow on |
| SnapshotStore.FileSnapshotSink.Finalize | raft/file_snapshot.go:432-455 | completes size and checksum of all that was written |
| SnapshotStore.FileSnapshotSink.Publish | raft/file_snapshot.go:392-403 | the rename makes the finished directory appear under its name in one step, with unreadable metadata when their last flush is lost unnoticed; a reported failure leaves the published snapshots alone |
| SnapshotStore.FileSnapshotSink.Close | raft/file_snapshot.go:379-411 | a failure up to the rename leaves the published snapshots alone; past it the snapshot joins, unless its metadata was lost, the reap applies as far as it comes, and a failure is reported exactly when a scan of the reap fails; so with readable metadata a reported failure has published nothing if and only if it came before the rename; a second call, or one after Cancel, does nothing |
| SnapshotStore.FailedReapKeeps | raft/file_snapshot.go:326-364 | a reap that fails has not removed the current snapshot |
| SnapshotStore.FailedSecondScan | raft/file_snapshot.go:352-359 | when the second scan fails, exactly the snapshots with a later term, or the same term and a later index, are gone but for the stuck ones, and none has been trimmed |
| SnapshotStore.FailedCloseMayPublish | raft/file_snapshot.go:405-408 | on an empty disk, with the first scan of the reap failing, closing reports a failure and the snapshot is listed and opens with its contents |
| SnapshotStore.RearrangedKeepsIntact | raft/file_snapshot.go:379-411 | closing damages no other snapshot |
| SnapshotStore.FileSnapshotSink.Cancel | raft/file_snapshot.go:414-429 | the published snapshots stay the same; after Close it does nothing |
| SnapshotStore.PublishedDistinct | raft/file_snapshot.go:329 | published snapshots have different names and are found under them, which removal by name relies on |
| SnapshotStore.TouchTmp | raft/file_snapshot.go:226-231 | no change to a temporary directory changes what is published |
| SnapshotStore.RemovalPublished | raft/file_snapshot.go:328-336 | removing directories by name removes exactly the snapshots with these names |
| SnapshotStore.DroppedAreNewer | raft/file_snapshot.go:343-350 | the first phase of the reap leaves exactly the snapshots that are not newer, and those that resist removal |
| SnapshotStore.TrimmedBeyondTop | raft/file_snapshot.go:360-362 | the second phase leaves exactly the top `retain`, and those that resist removal |
| SnapshotStore.MovePublishes | raft/file_snapshot.go:398-403 | moving a finished directory into place publishes exactly its snapshot, if it can be read |
| SnapshotStore.WriteAll | raft/file_snapshot.go:374-376 | any chunks are written as their concatenation |
| SnapshotStore.TakeSnapshot | raft/file_snapshot.go:137-411 | Create, Write and Close without faults fail if and only if the name is taken, and otherwise leave the disk as a close does |
| SnapshotStore.RoundTrip | raft/file_snapshot.go:137-323 | opening what has been taken gives back the concatenation of the chunks if and only if the snapshot survives its own reap, never a checksum error |
| SnapshotStore.ClosedMayVanish | raft/file_snapshot.go:326-364 | on an empty disk that keeps one snapshot, a second one at the same term and index under a smaller name closes without an error and is gone |
| RelStore.Uint64RoundTrip | raft/rel_store.go:122-141 | eight little-endian bytes give back every 64-bit number |
| RelStore.LittleEndian | raft/rel_store.go:122-127 | the lowest eight bits come first, followed by the bytes of the rest of the number |
| RelStore.MinValueIsContents | raft/rel_store.go:113-120 | with unique keys the aggregate query reads the value of the key |
| RelStore.SetRowsContents | raft/rel_store.go:79-110 | delete and insert keep keys unique and update the dictionary |
| RelStore.ReplaceLastWins | raft/rel_store.go:194-209 | per index the last entry of a batch wins over earlier ones and over what was stored |
| RelStore.RelationalStore.Set | raft/rel_store.go:79-110 | the dictionary is updated or the rows are as before; the transaction stays open exactly when the first statement cannot be prepared, and blocks exactly when one is open already |
| RelStore.RelationalStore.Get | raft/rel_store.go:113-120 | the value in the dictionary, nothing for a missing key; blocked exactly while a transaction is open |
| RelStore.RelationalStore.SetUint64 | raft/rel_store.go:122-127 | stores the little-endian bytes as Set does, or nothing |
| RelStore.RelationalStore.GetUint64 | raft/rel_store.go:130-141 | the number stored, zero for a missing or empty value, out of bounds exactly for one to seven bytes |
| RelStore.RelationalStore.FirstIndex | raft/rel_store.go:143-150 | the least stored index, zero for an empty log |
| RelStore.RelationalStore.LastIndex | raft/rel_store.go:153-160 | the greatest stored index, zero for an empty log |
| RelStore.RelationalStore.GetLog | raft/rel_store.go:163-177 | finds exactly the stored indices and returns the entry with that index |
| RelStore.RelationalStore.StoreLogs | raft/rel_store.go:185-211 | the whole batch or nothing, with the same open transaction when the statement cannot be prepared |
| RelStore.RelationalStore.DeleteRange | raft/rel_store.go:214-221 | deletes exactly the entries between both bounds, both included, or nothing when the statement fails |
| RelStore.RelationalStore.DeleteAll | raft/rel_store.go:223-233 | empties the log when undisturbed; with others changing the log between its statements exactly what goes and what stays, and with any of the three failing nothing goes |
| RelStore.LastCommittedIsRead | raft/rel_store.go:79-120 | after any run of sets, some rolled back, each key has at most one row and reads as the last value committed |
| RelStore.NothingCommitsWhilePending | raft/rel_store.go:88-91 | in every run nothing commits after a transaction has been left open |
| RelStore.RunCalls | raft/rel_store.go:79-110 | over any series of sets with any faults each key reads as the last value that committed, and the store is stuck if and only if some first statement could not be prepared |
| RelStore.AppendKeepsContiguous | raft/rel_store.go:185-211 | a batch of consecutive entries leaves no gap if and only if it overlaps or touches what is stored |
| RelStore.DeleteKeepsContiguous | raft/rel_store.go:214-221 | a deletion leaves no gap if and only if it takes nothing, a prefix or a suffix |
| RelStore.StepKeepsContiguous | raft/rel_store.go:185-221 | the same for one operation on any log without gaps, an empty one included |
| RelStore.LogStaysContiguous | raft/rel_store.go:143-233 | over any run that stores consecutive batches the log never has a gap if and only if each operation meets its condition |
| RelStore.FoundBetweenFirstAndLast | raft/rel_store.go:143-177 | a log has no gap if and only if exactly the indices from the first to the last are found |
| RelStore.GapAfterSnapshot | raft/rel_store.go:185-211 | entries from one on, followed by a batch that starts beyond the next index, leave all indices in between missing |
| Template.Expand | http/api.go:184-188 | the sequential replacement loop computes the specified expansion |
| Template.ReplaceIsFill | http/api.go:186 | one replacement fills exactly the holes of that name |
| Template.ExpandIsFill | http/api.go:184-188 | the loop equals one simultaneous substitution when no value can open the placeholder of a listed name |
| Template.SubstitutionExactly | http/api.go:184-188 | over all templates whose text opens no brace and all lists of these brace-free names that is so if and only if no value can |
| Template.ExpansionOrderIrrelevant | http/api.go:184-188 | then neither order nor repetition of the listed names matters |
| Template.OrderIrrelevantExactly | http/api.go:184-188 | over all templates whose text opens no brace and all lists of these brace-free names they do not matter if and only if no value can open the placeholder of a listed name |
| Template.BracesInValuesMakeOrderMatter | http/api.go:184-188 | for all values that can, there are a template and two lists of the same names that expand it differently |
| Dispatch.FindProcess | http/api.go:164-178 | the inner loop finds the first process with the key, reports a missing key, and overwrites the carried variables only on a match |
| Dispatch.RunScript | http/api.go:193-209 | one execution, captured as configured, and the response for its outcome |
| Dispatch.ServeSegments | http/api.go:157-217 | the loop over the segments answers as the first one that asks for anything on its own, and runs nothing else |
| Dispatch.JudgeMeans | http/api.go:157-190 | what a segment asks for, in terms of the configuration and its data alone: an error exactly when it is malformed or has no key, nothing exactly when no process has its key or the first that has it expands to nothing |
| Dispatch.CommonRequest | http/api.go:133-218 | although variables are carried across segments: the first segment that does not parse, has no key, or whose first matching process expands to a script decides, with the error or that script run and answered; all others run nothing, without one no script is found, at most one script runs and it has such a segment, and the last response is unreachable |
| Dispatch.RunsTheFilledTemplate | http/api.go:184-191 | what a matching process runs is its template with all listed holes filled at once |
| Peers.NormalizedHasPort | raft/raft.go:201-215 | with a default port every normalized node has a port, and host and port read back exactly when the host contains no colon |
| Peers.NormalizeByParts | raft/raft.go:201-215 | a host with a port keeps the port behind the looked-up host, one without gets the default, and a failing lookup is reported |
| Peers.HasPortIsColon | process/health_dao.go:170-173 | the loop's test for a port is the presence of a colon |
| Peers.TrimKeepsColon | raft/store.go:67 | trimming white space does not take the port away |
| Peers.TrimSpaceMeans | raft/store.go:67 | trimming takes nothing but white space off both ends, and all of it |
| Peers.NormalizeAll | raft/raft.go:143-150 | the normalized nodes, or the error of the first that cannot be normalized |
| Peers.AddUniquePeers | raft/store.go:65-69 | the trimmed nodes, each once, in the order in which they first occur |
| Peers.BuildPeers | raft/raft.go:143-158 | the peers are none for a single node that is this process, and otherwise exactly the normalized, trimmed nodes once each and in order, all with a port when there is a default; the first failure ends the setup |
| Sql.LexSpell | process/health_dao.go:191-201 | reading the characters of a spelled token list gives the tokens back |
| Sql.Precedence | process/health_dao.go:191-201 | for any three comparisons AND binds tighter than OR on either side of it |
| AvailabilityQuery.BuildCondition | process/health_dao.go:162-189 | the loop builds the condition text |
| AvailabilityQuery.ConditionSpelled | process/health_dao.go:162-189 | the text spells a token list |
| AvailabilityQuery.CompleteListParses | process/health_dao.go:162-201 | with a port on the first and last peer the query denotes fresh and mode and the disjunction of all peers' addresses, AND binding tighter than OR |
| AvailabilityQuery.IncompleteListFails | process/health_dao.go:170-187 | otherwise it denotes nothing |
| AvailabilityQuery.QueryLexes | process/health_dao.go:191-201 | the characters of the whole query are the prefix, the condition and the ordering |
| AvailabilityQuery.QueryWellFormed | process/health_dao.go:162-201 | the query text is well formed if and only if the first and the last peer have a port |
| AvailabilityQuery.QuerySelectsAvailable | process/health_dao.go:162-201 | a well-formed query selects a row if and only if it is recent, of the requested mode, and carries the address of some peer |
| AvailabilityQuery.QuerySelectsPairs | process/health_dao.go:162-201 | for peers given as hosts and ports the query selects a row if and only if it is recent, of the requested mode, and for some pair it has that port and that host, or the local address, if known, for the loopback host |
| AvailabilityQuery.QueryReads | process/health_dao.go:201-213 | reading a whole table returns exactly the available rows in order |
| AvailabilityQuery.QueryRows | process/health_dao.go:202-213 | the callback collects the selected rows in order |
| AvailabilityQuery.QueryAnswers | process/health_dao.go:201-213 | the database answers the built query with exactly the available rows, or with a syntax error exactly when the first or the last peer has no port |
| AvailabilityQuery.ReadAvailableNodes | process/health_dao.go:148-215 | error without raft or peers, syntax error exactly for the malformed condition, otherwise exactly the available rows |
| AvailabilityQuery.ReadAtPairs | process/health_dao.go:148-215 | reading for peers given as hosts and ports returns exactly those rows, in order |
| AvailabilityQuery.ReadFromConfiguration | raft/raft.go:143-158 | with a default port, whenever the configured nodes result in at least one peer and none contains a quote or a backslash, the query over them is well formed and returns exactly the available rows |
| Encoding.Utf8RoundTrip | raft/raft.go:222-226 | UTF-8 gives every text back |
| Encoding.Base64RoundTrip | raft/store.go:27-30 | base64 gives all bytes back |
| Encoding.JsonStringRoundTrip | raft/raft.go:222-226 | a JSON string as the encoder writes it reads back, whatever follows it |
| Commands.EnvelopeRoundTrip | raft/store.go:151 | every command decodes to the operation and value it was encoded from |
| Commands.EnvelopeText | raft/store.go:27-30 | the exact text of the envelope: `op` first, then `value` in base64, either left out when empty |
| Commands.MarshalRoundTrip | raft/raft.go:222-226 | a published string value reads back |
| Commands.PublishCommand | raft/raft.go:218-227 | error without raft or as follower, otherwise the entry handed to raft carries the operation and the value, and there is no error exactly when it has been applied without one |
| Commands.Fsm.Apply | raft/fsm.go:17-36 | the effect of an entry, and the leader URI after it |
| Commands.Fsm.Replay | raft/fsm.go:17-36 | replaying a log is the fold of its entries |
| Commands.UriIsLastAnnounced | logic/command_applier.go:32-39 | after any log on any node the leader URI is that of the last well-formed announcement |
| Commands.RestoredAgrees | logic/snapshot_data.go:16-22 | a node that replays only a suffix agrees with a full replay if and only if the suffix announces a leader or the prefix left nothing |
| Commands.Restart | raft/fsm.go:67-78 | restoring a snapshot and replaying the entries after it leads to the URI of a full replay if and only if these entries announce a leader or those before left nothing behind |
| Commands.PublishedIsAnnounced | raft/raft.go:166-172 | publishing a leader URI announces exactly it |
| Commands.NullIsEmpty | logic/command_applier.go:32-39 | JSON null is announced as the empty URI |
| Commands.TrailingIsRefused | logic/command_applier.go:32-39 | a value with anything but white space after the string is not read |
| Commands.PublishedHasItsEffect | logic/command_applier.go:20-48 | on every node a published request makes it report with the published token, a URI becomes that of the leader, a heartbeat does nothing, and an unknown operation is refused |
| Commands.MalformedIsRefused | raft/fsm.go:17-36 | an entry that does not decode is refused as a command without operation |
| Commands.RawHintYields | raft/fsm.go:53-65 | an unquoted hint makes exactly the hosts yield whose name does not contain it, and an empty one none |
| Commands.AsciiHintYields | raft/fsm.go:30-33 | in terms of the characters of an ASCII hint instead of raw bytes |
| Commands.RawPeerYields | raft/fsm.go:23-50 | an unquoted peer makes exactly the nodes yield whose bound address is not that of the looked-up host and the port |
| Commands.AsciiPeerYields | raft/fsm.go:23-50 | in terms of the characters of an ASCII peer instead of raw bytes |
| Commands.PublishedHintAlwaysYields | raft/fsm.go:30-33 | a published hint makes every host yield whose name contains no quote, also the hinted one |
| Commands.HintMeetsItsPurpose | raft/fsm.go:52-65 | it has its intended effect on a host if and only if it is not empty and does not match that host |
| Commands.PublishedPeerAlwaysYields | raft/fsm.go:23-29 | every published peer, with or without a port, makes every node yield, also that peer, when the lookup leaves hosts it cannot find alone |
| Commands.PublishedHostPortAlwaysYields | raft/fsm.go:23-29 | for a peer published as host and port whatever the lookup does |
| Commands.PeerMeetsItsPurpose | raft/fsm.go:38-50 | it has its intended effect on a node if and only if it can be normalized and is not that node |
| HealthReports.StepKeepsInv | raft/raft.go:293-307 | every step keeps cached tokens and reports tied to when they were issued and accepted |
| HealthReports.RunKeepsInv | raft/raft.go:293-333 | so does every run |
| HealthReports.HealthyIffReportedRecently | raft/raft.go:301-307 | in every run the healthy members are exactly those with a report accepted in the last twenty seconds |
| HealthReports.HealthyRestsOnRecentToken | raft/raft.go:293-333 | and each rests on a token this node issued as leader within the last forty seconds |
| HealthReports.HealthyByReports | raft/raft.go:293-307 | in terms of what happened alone: a member is healthy if and only if in the last twenty seconds a report advertised its address with a token issued, as leader, in the twenty seconds before the report |
| HealthReports.OneReport | raft/raft.go:293-334 | a token, a wait, a report and another wait: the advertised address, not the bound one, is healthy exactly when neither wait exceeds twenty seconds |
| HealthReports.ReportsAreSpaced | raft/raft.go:230-238 | in every run successive reports to the leader are more than a second apart |
| HealthReports.RequestIsAnswered | raft/raft.go:230-238 | after any run a request is answered by a report if and only if the last one lies more than a second back |
| HealthReports.Caches.FollowerHealthTick | raft/raft.go:329-334 | a leader issues a token that lives for twenty seconds |
| HealthReports.Caches.OnHealthReport | raft/raft.go:293-299 | a report is accepted exactly under a live token, and lives for twenty seconds |
| HealthReports.Caches.HealthyMembers | raft/raft.go:301-307 | lists each member with a live report once |
| HealthReports.Caches.ReportToRaftLeader | raft/raft.go:230-238 | reports unless it did so within the last second |
| Registration.UpdateChangesIffPresent | process/health_dao.go:39-63 | the update affects a row exactly when there is one, the insert exactly when there is none |
| Registration.WholeSecondsMeans | process/health_dao.go:19-21 | the age of a report in seconds is cut off toward zero, also for a time in the future |
| Registration.NodeHealthTable.Exec | process/health_dao.go:38-64 | one statement: its effect and its count of affected rows, with failures before or after the server acted |
| Registration.NodeHealthTable.WriteRegisterNode | process/health_dao.go:18-116 | exactly when the answer is false without an error, the whole row after a true answer, new or refreshed, column by column, and the exact table left behind, with faults and interference |
| Registration.NodeHealthTable.ExpireAvailableNodes | process/health_dao.go:120-132 | deletes exactly the rows last seen more than five seconds ago, and alters no other |
| Registration.UndisturbedRegisters | process/health_dao.go:18-116 | undisturbed, only an old report is answered false without an error, and the row is there afterwards |
| Registration.MakeAllKeepsPlausible | process/health_dao.go:18-132 | in every run no process was first seen later than two seconds after it was last seen |
| Registration.PurgeInvisible | process/health_dao.go:120-132 | whatever is called after a purge, all readers see what they would have seen without it if and only if, by the calls alone, no purged process registers before its old row would have been purged anyway, survives the later purges and is recent at the end |
| Registration.CameBackByCalls | process/health_dao.go:18-132 | whether a purged process has come back like this can be read off the calls |
| Registration.PurgeInvisibleToOthers | process/health_dao.go:120-132 | also with registrations interleaved statement by statement, as long as no purged process writes again |
| Registration.ReturningProcessStartsOver | process/health_dao.go:38-113 | every purged process that comes back like this is read with a later first registration and the same last one |
| NodeReads.AvailableIsRead | process/health_dao.go:191-213 | a row of the table is available to the query if and only if a reader for the addresses of the peers sees it |
| NodeReads.SelectsRead | process/health_dao.go:191-213 | of a whole table the query selects exactly the rows such a reader sees, in their order |
| NodeReads.SeenAtPairs | process/health_dao.go:162-201 | for peers given as hosts and ports a reader sees a process if and only if it was seen less than two seconds ago, in the requested mode, and is registered with host and port of some pair, the local address standing for the loopback host |
| NodeReads.ReadNodes | process/health_dao.go:148-215 | reading the available nodes of a table through the query text gives exactly these rows, or a syntax error exactly when the first or last peer has no port |
| HandleCache.OneHandlePerUri | db/db.go:102-131 | there are exactly as many cached handles as cached URIs |
| HandleCache.OpeningConserves | db/db.go:115-121 | opening a handle for an uncached URI keeps the open handles and the cached ones the same |
| HandleCache.ClosingConserves | db/db.go:122-129 | closing and forgetting a handle keeps the open handles and the cached ones the same |
| HandleCache.Connections.GetGenericDB | db/db.go:108-131 | the open handles remain exactly the cached ones; when a handle is returned, and what is cached then |
| HandleCache.Connections.OpenFirst | db/db.go:149-167 | the handle of the first host in the order of the list whose attempt succeeds, or none if none does, and exactly what is cached then |
| HandleCache.OutcomeIsFirst | db/db.go:149-167 | the attempts alone decide whether there is a handle and which host it belongs to |
| HandleCache.Connections.OpenDb | db/db.go:27-75 | an error if and only if no host answers without a schema or it has to be created and cannot be; no handle without an error if and only if that works and no host answers with the schema, all in terms of the cache before the call |
| HandleCache.AllFailedNoneCached | db/db.go:149-167 | when all hosts fail, none of the tried URIs stays cached |
| HandleCache.NoErrorNoHandle | db/db.go:74 | the first opening returns neither error nor handle if and only if a host answers without a schema that is there or can be created, and none answers with it |

## Left out

- Elections, replication and leadership transfer of the raft library; its log and leader state are inputs.
- MySQL and SQLite themselves, connection strings and the deployment of the schema; each statement is one atomic operation, and a transaction takes effect as a whole or not at all.
- The list of database hosts: the election is proved for one shared table, while each process connects to the first host of its list that answers (db/db.go:150-165), so processes that reach different, unreplicated hosts hold different elections.
- Log indices from 2^63 on, which the SQLite driver refuses.
- Durability of the file system, partial removals and torn state files; renaming and removing a directory are single steps. Metadata that is lost reads as unreadable.
- Two open snapshots with the same term, index and millisecond, which would share one temporary directory.
- SnapshotStore.Meta: the encoding of metadata as JSON is taken to be faithful, and the eight checksum bytes are one 64-bit number.
- SnapshotStore.Sound: readable metadata in a directory of another name is excluded, because the store never writes it and removal by name would hit the wrong directory.
- Dispatch.CommonRequest: the JSON decoder of the standard library and the shell are parameters; HTTP serving, authentication and TLS are not part of this model.
- AvailabilityQuery.QueryText: white space is collapsed, the first two conditions are recognized as fixed token patterns, and the rows are given in the order of their host names.
- AvailabilityQuery.ReadAvailableNodes: says nothing about peers that contain a quote or a backslash, which would end or escape the literal they are inserted into.
- Commands.DecodeCommand: reads objects with string values and without white space, as the encoder writes them, and matches member names exactly; escapes of surrogate pairs and malformed UTF-8 are not read.
- Commands.PublishCommand: publishes strings, the only values the program publishes.
- HealthReports: the HTTP call to the leader; a report counts as sent when the throttle lets it pass.
- Registration: the wrap-around of the indicator column, the table node_health_history, and address lookups, whose results are parameters.
- Registration.PurgeInvisible: exact for whole registrations one after the other; when a registration is cut between its two statements, PurgeInvisibleToOthers gives a sufficient condition only.
- Peers: address lookups, which are a parameter.
- HealthTest with its cache, which on a hit returns no error even for an unhealthy status (process/health.go:90-92).
- HealthTick: the message logged when ill health lasts, and the goroutine in which registration runs.
- Configuration, logging, token randomness, domain checks, alerts and the ticker loops, which would add only easy members.
