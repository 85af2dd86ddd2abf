# spkdfs in Dafny

A model of spkdfs, a small distributed file system, and proofs about it. The C++ sources are cited by path and line.
`dafny verify dfyconfig.toml` checks everything. Automatic induction is off on every lemma, so an induction is where its body says so.

The model has four parts.

**The namenode's metadata.** `Metadata` says on values how a request is checked against a store and becomes a log entry,
and how an entry changes a store; an assertion that aborts the process is the result `None`. `RocksDb` is the database object and the
request handlers statement by statement, each method tied to those functions. `Requests` says, over every run and by the history of requests
alone, which request is accepted, with which error it is refused, what an accepted one does, and which storage type a file has. On top of
them there are two machines.

* `Replication` is pipelined: any replica prepares a request from whatever it has applied so far, entries commit later and in any
  order, every replica applies at its own pace, takes backups and restarts. A restart without a backup replays the log over the
  old contents. In every interleaving no replica aborts, and a replica that has caught up holds what one application of the log to
  an empty database gives, up to the order of the root's listing. `RootOrder` and `ReplayOrder` say what a replay does to that
  order: names that the log never removes come first, the others follow as the log alone orders them. So every replica that ever
  catches up with a log holds exactly the same database if and only if, in the listing that the log alone gives, no name that the log
  removes precedes one that it never removes (`CaughtUpIsExactIff`); `RootOrderCanChange` is an execution in which the order differs.
  `PutThenPutOkIff` shows that the one assumption on requests (a put's parent key is there) is needed and exact.
* `Namespace` is serial. The tree invariant and the completeness of listings are each kept by an accepted request if and only if
  the request meets a guard (`TreeKeptIff`, `CompleteKeptIff`), hence over whole runs. `Tearing` settles what a removal can harm: rm
  does not look whether a directory is empty, and its tombstone goes on collecting and losing entries of live children. A file can later
  show blocks it never published if and only if the removed directory still had a live child (`RemovalTearsIff`). `Lease` is about the
  deadlines that keep writers apart.

**The client's blocks.** `OpenFile` is the open file as an object: the cached inode, the block files, and the marks of written
blocks, with the C++ `int` arithmetic proved to stay in range. Reading through the cache is a slice of one flat string
(`FlatFile`). `WriteSession` writes any number of consecutive strings to a new file, closes and reads again. `PutGet` handles whole files
and the bytes a reused buffer leaves behind. `AppendSession`, with `AppendedFile` and `AppendReads`, is about a file opened a second time and
written to at its end: the longer file is published if and only if the write finds the tail of the last block, and nothing else, in the
cache; for a file that was put this is so only on a block boundary, since its last block carries leftover bytes. `ReopenedFile` is about
block files that outlive the inode they were read for. `Placement` and `Fragments` cover the upload loop and the download loop for an erasure code
of which any k fragments decode; the replication type is proved to be such a code. `EndToEnd` puts it together, from the
strings written, over failing uploads and lost or altered fragments, to the strings read.

**Election and reconfiguration.** `Election` proves the chunked selection loop, with its sort and binary search, equal to a simple
choice, and an invariant over any run of elections. `Reconfig` is the server's reaction and its effect on quorums. `HealthScan` is the
timer's loop with its unsigned index that wraps.

**Text.** `StorageText`, `NodeText` and `FragmentText` hold the printers and parsers and say when they undo each other: exactly when, for storage types
and single nodes.

Where the code does not do what one would expect, the model follows the code, shows a case, and gives the condition under which all is
well, as an equivalence: `RmDirLeavesEntry` with `TreeKeptIff`, `OrphanFileTears` and `OrphanDirTears` with `RemovalTearsIff`,
`PutWithoutParentAborts` with `PutThenPutOkIff`, `RootOrderCanChange` with `CaughtUpIsExactIff`, `AppendToPutFile` with `AppendIff` and
`AppendReadsIff`, `StaleAfterReopen` with `ReopenedIsCoherentIff`, and `PortIsInherited` with `TokensStandAloneIff`.

## Model

| member | source | states |
|---|---|---|
| `RocksDb.RocksDB.OnSnapshotSave` | src/node/raft_nn.cpp:122-125 | an object that represents a replica represents it after the machine's backup step |
| `RocksDb.Reopen` | src/node/rocksdb.cpp:21-51 | opened on what the disk holds, the database is the latest backup, or what was found if there is none: the machine's restart step |
| `RocksDb.RocksDB.Exists` | src/node/rocksdb.cpp:73-88 | the root always exists, any other path if its key is there and valid |
| `RocksDb.RocksDB.TryToRm` | src/node/rocksdb.cpp:90-94 | removal is refused exactly for paths that do not exist |
| `RocksDb.RocksDB.TryToAdd` | src/node/rocksdb.cpp:96-106 | which of the two errors is given, and that there is none exactly when the parent exists and the path does not |
| `RocksDb.RocksDB.Ls` | src/node/rocksdb.cpp:123-128 | the inode, or an error exactly when it is not valid |
| `RocksDb.RocksDB.Fetch` | src/node/rocksdb.cpp:146-167 | a missing key gives a blank inode, except that the root is a default directory |
| `RocksDb.RocksDB.FetchParent` | src/node/rocksdb.cpp:216-232 | the parent's inode, or an abort exactly when the key is missing and is not the root |
| `RocksDb.RocksDB.InternalMkdir` | src/node/rocksdb.cpp:271-289 | the whole new database is the specified effect of a MKDIR entry |
| `RocksDb.RocksDB.InternalPut` | src/node/rocksdb.cpp:262-269 | the same for PUT |
| `RocksDb.RocksDB.InternalPutOk` | src/node/rocksdb.cpp:234-260 | the same for PUTOK |
| `RocksDb.RocksDB.InternalRm` | src/node/rocksdb.cpp:198-214 | the same for RM |
| `RocksDb.RocksDB.OnApply` | src/node/raft_nn.cpp:76-120 | a batch of entries has the effect of folding them one by one, and aborts exactly when the fold does |
| `RocksDb.NamenodeService.Mkdir` | src/node/namenode.cpp:66-101 | the handler proposes exactly the specified entry, or gives its error; `Requests.MkdirAcceptedIff` and `Requests.MkdirDoes` say what that is |
| `RocksDb.NamenodeService.Rm` | src/node/namenode.cpp:103-135 | the same for rm |
| `RocksDb.NamenodeService.Put` | src/node/namenode.cpp:137-164 | the same for put, with the lease check and the storage type; see `Requests.PutAcceptedByHistory`, `Requests.PutDoes` and `Requests.StorageIsLatestPut` |
| `RocksDb.NamenodeService.PutOk` | src/node/namenode.cpp:166-196 | the same for put_ok |
| `RocksDb.NamenodeService.UpdateLock` | src/node/namenode.cpp:217-249 | one renewal per path up to the first path that is missing; the earlier ones stay proposed |
| `Requests.KindIsMade` | src/node/rocksdb.cpp:141-196 | in every run a path is a directory exactly if it was made one and not removed since (the root from the start), and a file exactly if it was put and not removed since |
| `Requests.LiveIsMade` | src/node/rocksdb.cpp:73-88 | so a path exists for mkdir and rm exactly if it is the root or was made and not removed since |
| `Requests.MkdirAcceptedIff` | src/node/rocksdb.cpp:96-106 | in every run mkdir is accepted if and only if the parent exists and the path does not, by the history of requests alone, and which error is given otherwise |
| `Requests.RmAcceptedIff` | src/node/rocksdb.cpp:90-94 | rm is accepted if and only if the path exists, with the error otherwise |
| `Requests.PutAcceptedByHistory` | src/node/rocksdb.cpp:169-179 | put is refused on a directory, accepted on an absent path at every time over 0 with a storage type that parses, and on a file if and only if, besides, its leases are over |
| `Requests.PutOkAcceptedIff` | src/node/rocksdb.cpp:181-191 | put_ok is accepted if and only if the path is a file, and which error is given otherwise |
| `Requests.UpdateLockAcceptedIff` | src/node/namenode.cpp:217-249 | a lock is renewed if and only if the path is a directory or a file, with the error otherwise |
| `Requests.StorageStep` | src/node/namenode.cpp:137-196 | an accepted put records the type its text parses to, and no other request, on this path or another, changes the storage type of a file |
| `Requests.StorageIsLatestPut` | src/node/namenode.cpp:137-164 | in every run a file has the storage type that the text of its latest accepted put parses to |
| `Requests.MkdirDoes` | src/node/rocksdb.cpp:271-289 | an accepted mkdir leaves an empty directory, its name with a slash at the end of the parent's listing, and everything else as it was |
| `Requests.RmDoes` | src/node/rocksdb.cpp:198-214 | an accepted rm leaves nothing of the inode, takes the bare name out of the listing, and leaves everything else as it was |
| `Requests.PutDoes` | src/node/namenode.cpp:137-164 | an accepted put leaves a file with the given storage type, leased for 60 seconds, with the blocks and size it had, and nothing else changed |
| `Requests.PutOkDoes` | src/node/rocksdb.cpp:234-260 | an accepted put_ok gives the file the published blocks and size, ends its lease, keeps its storage type, and adds its name at the end of the listing unless it is there |
| `Requests.UpdateLockDoes` | src/node/namenode.cpp:228-242 | a renewal moves the deadline to 60 seconds from now and changes nothing else |
| `Projection.ApplyProjects` | src/node/rocksdb.cpp:198-289 | an entry acts on every key separately, as a function of that key's old value alone |
| `Projection.LogProjects` | src/node/raft_nn.cpp:76-120 | so does a whole log |
| `Projection.WholeWriteForgets` | src/node/rocksdb.cpp:262-289 | after a log that writes a key as a whole, what the key held first does not matter |
| `Projection.AbortsIff` | src/node/rocksdb.cpp:216-232 | applying an entry aborts if and only if it needs the parent's inode and that key is missing and is not the root |
| `Projection.TargetAfter` | src/node/rocksdb.cpp:198-289 | what an entry leaves under its own path: the inode it carries, or for PUTOK the stored one unlocked with the new blocks and size |
| `Projection.ParentAfter` | src/node/rocksdb.cpp:198-289 | of the parent only the listing changes: the name is added at the end if absent, or taken out |
| `Projection.OthersAfter` | src/node/rocksdb.cpp:198-289 | every other key keeps its value |
| `Replication.InvNext` | src/node/raft_nn.cpp:76-132 | every step of the pipelined system keeps its invariant: pending and committed entries are justified, stores and backups track the log |
| `Replication.InvReachable` | src/node/raft_nn.cpp:76-132 | so it holds in every state of every execution |
| `Replication.NoReplicaAborts` | src/node/rocksdb.cpp:216-232 | in every execution the next entry never trips the parent assertion, at any replica, also while it replays over newer contents |
| `Replication.CaughtUpReplicaIsCanonical` | src/node/raft_nn.cpp:76-132 | a replica at the end of the log holds what applying the log to an empty database gives, exactly off the root and up to order on it |
| `Replication.SamePositionAgrees` | src/node/raft_nn.cpp:76-132 | replicas at the same position agree on every key written so far, whatever restarts they went through |
| `Replication.ReplayConvergence` | src/node/rocksdb.cpp:45-51 | the log replayed over what any sequence of partial replays left gives what it gives on an empty database |
| `Replication.SavedIsRestored` | src/node/rocksdb.cpp:31-51 | a restart right after a backup gives back the contents and the position of the backup |
| `RootOrder.ReplayFormula` | src/node/rocksdb.cpp:198-289 | a log applied to any root listing keeps the names it never removes in front, in their old order; the others follow as the log alone orders them |
| `RootOrder.OwnReplayIff` | src/node/rocksdb.cpp:198-289 | replaying a log over its own result keeps the root's listing if and only if no name it removes precedes, in that listing, one it never removes |
| `ReplayOrder.ReplayIsExactIff` | src/node/rocksdb.cpp:45-51 | the whole database comes out exactly, over its own result or over what any partial replays left, if and only if that is so or an entry replaced the root |
| `ReplayOrder.AllReplayNext` | src/node/raft_nn.cpp:76-132 | in every execution each replica's database is the result of some sequence of replays of prefixes of the log |
| `ReplayOrder.CaughtUpIsExactIff` | src/node/raft_nn.cpp:76-132 | of all replicas that catch up with a reachable log, in any execution, every one holds exactly the canonical database if and only if the order is safe in that sense |
| `ReplayOrder.RootOrderCanChange` | src/node/rocksdb.cpp:198-289 | two reachable systems with one concrete log in which the same replica has caught up and lists the root's two entries in different orders |
| `Replication.PutThenPutOkIff` | src/node/rocksdb.cpp:169-179 | an accepted put can be followed by its put_ok without an abort if and only if the parent's key was there |
| `Replication.PutWithoutParentAborts` | src/node/rocksdb.cpp:169-179 | a concrete put below a directory that was never made, whose put_ok aborts |
| `Namespace.CompleteKeptIff` | src/node/rocksdb.cpp:198-289 | an accepted request keeps listings complete and metadata whole if and only if it goes below a live directory or removes a file or an empty directory |
| `Namespace.TreeKeptIff` | src/node/rocksdb.cpp:198-289 | an accepted request keeps the whole tree invariant if and only if, besides, it removes files only |
| `Namespace.RunKeepsComplete` | src/node/rocksdb.cpp:193-289 | completeness in every state of every run of such requests, which never aborts |
| `Namespace.RunKeepsTree` | src/node/rocksdb.cpp:193-289 | the tree invariant in every state of every run of the stricter kind |
| `Namespace.NamespaceIsATree` | src/node/rocksdb.cpp:198-289 | "n/" is listed once exactly for a live directory, "n" once exactly for a file with a put_ok since its last rm, nothing else is listed, and an unlisted live file is empty |
| `Namespace.ListingsAreComplete` | src/node/rocksdb.cpp:234-289 | live directories and published files are listed exactly once below a live parent, across removals and new creations |
| `Namespace.RmDirLeavesEntry` | src/node/namenode.cpp:115-118 | removing a directory always leaves its "name/" in the live parent's listing although the path is gone, so the listing is no longer exact |
| `Namespace.MetadataIsNeverTorn` | src/node/namenode.cpp:166-190 | a live file's blocks and size are those of its latest put_ok since its last rm, or nothing |
| `Namespace.KindKeptUntilRm` | src/node/rocksdb.cpp:141-196 | a valid path stays valid and of its kind under every request except an accepted rm of it |
| `Namespace.KindChangesOnlyThroughRm` | src/node/rocksdb.cpp:141-196 | the same over whole runs, without any guard on the requests |
| `Tearing.RemovalTearsIff` | src/node/rocksdb.cpp:193-214 | after removing a directory from a sound namespace, proper requests can give some file blocks or a size it did not publish if and only if the directory had a live child |
| `Tearing.OrphanFileTears` | src/node/rocksdb.cpp:234-260 | it can be done when the child is a file, by its put_ok and a put on the directory's path |
| `Tearing.OrphanDirTears` | src/node/rocksdb.cpp:198-214 | it can be done when the child is an empty directory |
| `Tearing.EmptyThenTear` | src/node/rocksdb.cpp:198-214 | and when it is any directory, by emptying it from the bottom with proper removals first |
| `Lease.PutAcceptedIff` | src/common/inode.cpp:139-151 | a put on a file is accepted if and only if the deadline has passed and the storage type parses |
| `Lease.DeadlinesAreBounded` | src/node/rocksdb.cpp:169-179 | in every run no stored deadline is more than 60 seconds ahead of the clock |
| `Lease.DeadlineNeverShortens` | src/node/namenode.cpp:228-242 | until a put_ok or rm is applied, a file's deadline never moves back |
| `Lease.LeaseExcludes` | src/node/rocksdb.cpp:169-179 | after put or update_lock at t, no put succeeds up to t + 60 unless a put_ok or rm was applied |
| `Lease.RenewalsHoldTheLease` | src/node/namenode.cpp:228-242 | renewals at gaps of at most 60 seconds keep every other put out for the whole run |
| `Lease.LeaseDecides` | src/common/inode.cpp:139-151 | in every run a put on a file is accepted if and only if every accepted put or update_lock on that path is more than 60 seconds old or was followed by a put_ok or rm, and the storage type parses |
| `Lease.AbandonedLeaseExpires` | src/common/inode.cpp:139-151 | if every accepted put and update_lock on the path is more than 60 seconds old, a put goes through, whatever else the namenode was asked |
| `Placement.Place` | src/client/sdk.cpp:388-422 | the upload loop gives up if and only if a whole last round failed with fragments left and at most k stored (none for replication), at the first such round; it finishes when all are stored, and records exactly the stored fragments |
| `Placement.StopsIff` | src/common/inode.cpp:109 | the test to give up, on numbers: a whole number of rounds, the last one without a success, and at most k stored (none for replication) |
| `Placement.EndIsFirst` | src/client/sdk.cpp:411-419 | up to that attempt the loop was still going at every attempt, and there it is not |
| `Placement.TurnIsRemainder` | src/client/sdk.cpp:411 | attempt a goes to node a mod n |
| `Placement.StoredInOrder` | src/client/sdk.cpp:388-422 | fragments 0, 1, 2, ... are recorded in order, each once, with the node of the attempt that stored it |
| `Placement.SafeWithinRounds` | src/common/inode.cpp:109 | a loop that did not give up is safe after k + 1 rounds (one round for replication) |
| `Placement.NeverStopsOnceSafe` | src/client/sdk.cpp:411-419 | once safe it never gives up |
| `Placement.OneSuccessPerRoundFinishes` | src/client/sdk.cpp:397-420 | with one success per round as many fragments as rounds are stored |
| `Placement.FinishesWithinRounds` | src/client/sdk.cpp:397-420 | then the loop never gives up and ends within that many rounds with everything stored |
| `Placement.PlaceAll` | src/client/sdk.cpp:388-422 | the same for the loop itself |
| `Placement.LoadIsEven` | src/client/sdk.cpp:411 | a node gets a / n of the first a attempts, and one more if its turn has come in the last round |
| `Fragments.ReplicateLoop` | src/common/inode.cpp:111-118 | the encoder of the replication type gives the stated number of copies |
| `Fragments.ReplicationDecodes` | src/common/inode.cpp:129 | replication is a code with as many fragments as replications, of which any one decodes, as getBlocks and getDecodeBlocks say |
| `Fragments.DecodeOne` | src/client/sdk.cpp:424-446 | the download loop decodes the first k replies that arrive with the right hash, or gives the empty string |
| `Fragments.FirstKAreDecoded` | src/client/sdk.cpp:424-446 | what is decoded is a choice of k replies in list order, each with the hash recorded for it, that skips none with the right hash |
| `Fragments.DecodedIsTheBlock` | src/client/sdk.cpp:356-370 | the result is the block if at least k listed fragments come back intact and empty otherwise, whatever else is lost or altered |
| `Fragments.BlockSurvives` | src/client/sdk.cpp:388-446 | the same from upload to download through the text kept in the inode |
| `FlatFile.ReadSlice` | src/client/sdk.cpp:568-583 | the slice cut out of the gathered blocks is the slice of the flat file |
| `FlatFile.ReadPastBlocks` | src/client/sdk.cpp:531-566 | a read that starts right past the last block, inside the file's size, gives zero bytes |
| `FlatFile.CutAllIsWellCut` | src/client/sdk.cpp:585-622 | a string cut into blocks, with an empty last one on a block boundary, is that string again when joined |
| `OpenFile.AlignIndexDown` | include/common/utils.h:45 | the block a position falls into, within int |
| `OpenFile.AlignIndexUp` | include/common/utils.h:44 | one past it, within int |
| `OpenFile.GetIndexes` | src/client/sdk.cpp:505-508 | the first block of a range and one past the block its end falls into |
| `OpenFile.File.ReadBlocks` | src/client/sdk.cpp:531-566 | the blocks as cached or decoded, zeros past the last one, and the cache filled with exactly the blocks read |
| `OpenFile.File.ReadData` | src/client/sdk.cpp:568-583 | what any blocks and cache give, or iterators out of range; of a well cut file through a coherent cache, the slice of the flat file up to its size; in int range, and the cache stays coherent |
| `OpenFile.FilledIsCoherent` | src/client/sdk.cpp:537-564 | reading keeps a coherent cache coherent |
| `OpenFile.PieceLength` | src/client/sdk.cpp:600-606 | the pieces of a write tile it: each starts where the one before it ended, and the last ends with the string |
| `OpenFile.File.WritePieces` | src/client/sdk.cpp:600-621 | every touched block file gets exactly its piece appended and is marked |
| `OpenFile.File.Prefetch` | src/client/sdk.cpp:591-598 | which blocks are read before a write into the middle of a file |
| `OpenFile.PrefetchBrings` | src/client/sdk.cpp:591-598 | exactly the partial first block and, when it is another one, the partial last block inside the file are brought in, decoded unless cached; every other block file stays |
| `OpenFile.File.WriteData` | src/client/sdk.cpp:585-622 | the block files and marks after a write |
| `OpenFile.File.UpdateInode` | src/client/sdk.cpp:215-231 | a block file is removed if and only if the local inode has its block and the remote one does not or has another text there, every one left has its old bytes, and a cache coherent with the local inode becomes coherent with the remote one |
| `OpenFile.File.Close` | src/client/sdk.cpp:299-305 | publishes what fsync publishes, drops the cached inode and keeps the block files |
| `ReopenedFile.ReopenedIsCoherentIff` | src/client/sdk.cpp:215-231 | block files that fit the inode published at close fit the one found at the next open if and only if each is there in it too, and every one that is not empty decodes to the same bytes |
| `ReopenedFile.Reopen` | src/client/sdk.cpp:215-231 | the same for the calls: no block file is removed |
| `ReopenedFile.StaleRead` | src/client/sdk.cpp:531-566 | where a block file stayed, a read gives the bytes published at close, whatever the remote inode says |
| `ReopenedFile.StaleAfterReopen` | src/client/sdk.cpp:215-231 | a concrete file that holds "y" and is read as "x" after close and open |
| `OpenFile.File.SortedMarks` | src/client/sdk.cpp:640-645 | the marked blocks, each once, in ascending order |
| `OpenFile.File.Fsync` | src/client/sdk.cpp:632-672 | the published list has the new text at every marked block and the old one elsewhere, the size reaches the end of the last marked block, the marks are gone, and nothing is published if there were none |
| `WriteSession.CutExtends` | src/client/sdk.cpp:600-621 | a block of the longer string is the old block followed by the piece of the addition |
| `WriteSession.WriteExtends` | src/client/sdk.cpp:585-622 | a write at the end of what was written turns files holding the data into files holding the data with the string added |
| `WriteSession.WriteAll` | src/client/sdk.cpp:585-622 | after any number of consecutive writes the files are the blocks of their concatenation |
| `WriteSession.SessionPublishes` | src/client/sdk.cpp:632-672 | closing publishes an inode whose content is exactly the data, on block boundaries too, and leaves a cache that fits it |
| `WriteSession.WriteAndClose` | src/client/sdk.cpp:299-305 | the same for the whole session; nothing is published if nothing was written |
| `WriteSession.WriteCloseRead` | src/client/sdk.cpp:568-672 | every later read, with the writer's block files or without, is the slice of the concatenated writes |
| `AppendedFile.RightIff` | src/client/sdk.cpp:585-672 | the blocks and size that a write at the end leaves are those of the longer file if and only if the write found just the tail |
| `AppendSession.AppendIff` | src/client/sdk.cpp:585-672 | for every inode whose blocks hold the content: one write at the end publishes the longer file if and only if the write finds the tail of the last block and nothing else in the cache, and no block lies beyond it |
| `AppendSession.TailAtHandIff` | src/client/sdk.cpp:592-610 | when no block lies past the end that is: the file ends on a block boundary with nothing cached there, or its last block is cached and decodes to just the bytes up to the end |
| `AppendSession.SessionAppendIff` | src/client/sdk.cpp:585-672 | after a write session: on a block boundary, or with the last block cached |
| `AppendSession.PutAppendIff` | src/client/sdk.cpp:329-345 | after put: only on a block boundary |
| `AppendReads.AppendReadsIff` | src/client/sdk.cpp:568-672 | every later read gives the longer file if and only if the write found just the tail, or found more that happens to repeat what it wrote |
| `AppendReads.AppendShows` | src/client/sdk.cpp:568-672 | in every other case a read that gives something else, or runs out of bytes |
| `AppendReads.AppendToPutFile` | src/client/sdk.cpp:329-345 | for every block size over one: "a" is put and cached, "b" is written at its end, and reading two bytes gives "a" and a zero byte |
| `AppendSession.AppendAndClose` | src/client/sdk.cpp:585-672 | the calls do what these results speak of: what was there, what was written, what is published |
| `PutGet.ReadInto` | src/client/sdk.cpp:337 | a read fills the front of the buffer and leaves the rest as it was |
| `PutGet.PutBlocks` | src/client/sdk.cpp:329-345 | as many blocks as it takes, each the buffer after that read |
| `PutGet.PutHolds` | src/client/sdk.cpp:329-345 | the blocks are the file followed by exactly the leftover of the block before (or zeros), less than one block |
| `PutGet.LeftoverByte` | src/client/sdk.cpp:329-345 | each byte after the end of the file: the one a block earlier, or zero when there is one block |
| `PutGet.ResizeRemovesLeftover` | src/client/sdk.cpp:448-461 | cutting to the file's size removes exactly that |
| `PutGet.ResizedByte` | src/client/sdk.cpp:448-461 | each byte after a resize: the old one, or zero past the old end |
| `PutGet.PutIsWellCut` | src/client/sdk.cpp:329-345 | a file that was put also reads as a flat file |
| `PutGet.Get` | src/client/sdk.cpp:448-461 | get joins the decoded blocks and cuts or fills to the size |
| `PutGet.PutThenGet` | src/client/sdk.cpp:307-461 | put then get is the identity for every length |
| `PutGet.PutThenRead` | src/client/sdk.cpp:307-583 | and a slice read from it is a slice of the file |
| `EndToEnd.TripReturns` | src/client/sdk.cpp:388-446 | a block whose stored fragments come back k strong decodes to itself |
| `EndToEnd.WrittenIsRead` | src/client/sdk.cpp:388-672 | whatever the writes, the failed uploads, and the fragments lost or altered later, reads give the bytes written as long as each block keeps k good fragments |
| `EndToEnd.PutIsGot` | src/client/sdk.cpp:307-461 | the same for put and get |
| `StorageText.RoundTripIff` | src/common/inode.cpp:12-28 | parsing undoes printing if and only if no field is negative |
| `StorageText.ParsedPrintsBack` | src/common/inode.cpp:12-28 | whatever text is accepted, printing and parsing again gives the same type |
| `StorageText.FormIsParsed` | src/common/inode.cpp:12-28 | a tag, two or three digit fields with commas, and the closing bracket give the type with those numbers, or an error if one does not fit an int |
| `StorageText.OtherTextIsRefused` | src/common/inode.cpp:12-28 | text of neither form is refused |
| `NodeText.ParseOfPrintIff` | src/common/node.cpp:113-123 | parsing a printed node gives back address and port if and only if the address has no colon |
| `NodeText.PrintList` | src/common/node.cpp:67-75 | the nodes' texts joined by commas |
| `NodeText.ParseNodes` | src/common/node.cpp:77-87 | the tokens parsed in turn into one variable, up to the first error |
| `NodeText.ListRoundTrip` | src/common/node.cpp:67-87 | the list parser undoes the list printer on address and port |
| `NodeText.PortIsInherited` | src/common/node.cpp:77-87 | a token without a port takes the port of the token before it |
| `NodeText.TokensStandAloneIff` | src/common/node.cpp:77-87 | parse_nodes reads every token as if it stood alone if and only if it fails, or no token without a port follows one that was read with a port other than 0 |
| `FragmentText.EncodeFragments` | src/common/inode.cpp:181-190 | the entries joined by commas, or the first error of a node text |
| `FragmentText.DecodeFragments` | src/common/inode.cpp:192-206 | one entry per comma-separated token, cut at the bar |
| `FragmentText.EntryRoundTrip` | src/common/inode.cpp:181-206 | one entry with a canonical node and a delimiter-free hash comes back |
| `FragmentText.FragmentListRoundTrip` | src/common/inode.cpp:181-206 | so does every non-empty list of such entries |
| `FragmentText.FragmentListText` | src/common/inode.cpp:181-190 | what is printed for such a list: node, bar and hash of each entry, with commas between |
| `FragmentText.MissingPortIsZero` | src/common/inode.cpp:181-190 | an entry whose node text has no port is printed with port 0 |
| `FragmentText.RestIsDropped` | src/common/inode.cpp:192-206 | what follows a second bar is dropped, and without a bar the hash is empty |
| `FragmentText.FinalCommaIsIgnored` | src/common/inode.cpp:192-206 | a comma at the end adds no entry |
| `Election.BinarySearch` | src/node/raft_dn.cpp:133-137 | on a sorted list the search finds an address if and only if it is there |
| `Election.SortIsDetermined` | src/node/raft_dn.cpp:117 | without duplicate addresses any sorted permutation is the one used here |
| `Election.FindSurvivors` | src/node/raft_dn.cpp:116-124 | the present namenodes that answer, sorted by address |
| `Election.EraseChosen` | src/node/raft_dn.cpp:127-137 | the datanodes whose address is not among them, in the order of the datanode list (`Election.RecruitsAt`) |
| `Election.RecruitChunk` | src/node/raft_dn.cpp:142-155 | one chunk adds its answering nodes in order until there are enough |
| `Election.Recruit` | src/node/raft_dn.cpp:139-156 | the loop over chunks adds the first answering datanodes, exactly as many as are missing or as there are |
| `Election.OnLeaderStart` | src/node/raft_dn.cpp:114-162 | the proposal is the sorted survivors followed by the first answering others, or an error exactly when that is empty; `Election.ElectedInOrder` says which these are |
| `Election.RecruitsAt` | src/node/raft_dn.cpp:127-156 | the candidates are exactly the datanodes that answer and are no survivors, in the order of the datanode list, with the namenode port |
| `Election.ElectedInOrder` | src/node/raft_dn.cpp:127-156 | the recruits stand after the survivors in the order of the datanode list, and no answering datanode before one of them is passed over |
| `Election.RaftDN.OnApply` | src/node/raft_dn.cpp:60-72 | the last list of the batch replaces the namenode list |
| `Election.RaftDN.Round` | src/node/raft_dn.cpp:114-174 | an election that proposes replaces the list by the addresses and ports proposed, one that throws leaves it, and either keeps it fit |
| `Election.ElectedFit` | src/node/raft_dn.cpp:114-156 | an election keeps the list free of duplicate addresses, within the datanodes, at most as long as expected, with the namenode port |
| `Election.ElectedKeeps` | src/node/raft_dn.cpp:116-124 | a namenode that answers stays one |
| `Election.ShortIsComplete` | src/node/raft_dn.cpp:139-156 | a list shorter than expected leaves out no datanode that answers |
| `Election.EveryElectionFits` | src/node/raft_dn.cpp:60-162 | the invariant over any number of elections, whoever answers in each |
| `Reconfig.Server.ChangeNamenodesList` | src/node/server.cpp:78-94 | which of change_peers and reset_peers is taken, and that the peers become the new list |
| `Reconfig.Server.OnNamenodesChange` | src/node/server.cpp:38-76 | afterwards a namenode runs here if and only if this server is listed, with the whole list as peers; what was done |
| `Reconfig.StayingIsCommon` | src/node/server.cpp:79-85 | the counting loop gives the size of the intersection of the two groups |
| `Reconfig.MajoritiesMeetIff` | src/node/server.cpp:89-93 | every majority of the new group has an old member if and only if at least half of it are old members |
| `Reconfig.ChangeMeansMajority` | src/node/server.cpp:89-93 | change_peers is taken if and only if old members are a strict majority of the new group |
| `Reconfig.ChangeKeepsQuorums` | src/node/server.cpp:89-93 | then every new quorum has an old member; reset_peers is taken exactly when some quorum has none or on a tie |
| `Reconfig.ElectionKeepsQuorums` | src/node/raft_dn.cpp:114-156 | while more than half of the expected number of namenodes answer, the election leads to change_peers |
| `Reconfig.EveryElectionKeepsQuorums` | src/node/raft_dn.cpp:60-162 | the same after any run of elections |
| `Reconfig.Follow` | src/node/server.cpp:38-94 | a server that follows a run of elections from the start runs a namenode exactly while it is listed, with the whole list as peers, and reacts with change_peers in every round in which it stays listed and more than half of the expected number answer |
| `HealthScan.ScanAll` | src/node/raft_dn.cpp:84-99 | at most 4n scans; normal end if and only if every node answers in time, each one's last scan answered; otherwise it throws for the first node that does not, after its fourth scan |
| `HealthScan.BeginBound` | src/node/raft_dn.cpp:84-99 | nodes that answer in time take four scans each at most |
| `HealthScan.LateIsOffline` | src/node/raft_dn.cpp:90-93 | a node that is thrown for was offline in four consecutive scans |

## Left out

- braft, brpc, JSON and RocksDB: the log is committed and totally ordered, a batch of two writes is atomic and ordered, an inode's text gives the inode back, and the database is always open.
- A follower that gets its state from another replica's snapshot, and a crash between the backup and the raft snapshot's own record.
- Paths are already normalised sequences of names; `simplify_path` and `std::filesystem` are not modelled.
- Wrap-around of 64-bit deadlines and sizes; the model's are unbounded. The `int` arithmetic of the client's block indexes is bounded and checked.
- Namespace.MetadataIsNeverTorn: assumes that a directory is empty when it is removed, because without it the property fails; `Tearing.RemovalTearsIff` is the exact condition.
- Replication.NoReplicaAborts: assumes that the parent's key is there when a put is prepared, because prepare_put does not look; `Replication.PutThenPutOkIff` is the exact condition.
- Replication.CaughtUpReplicaIsCanonical: up to the order of the root's listing, because the order can change; `ReplayOrder.CaughtUpIsExactIff` is the exact condition.
- Exact listings after the removal of a directory: the entry stays behind (`Namespace.RmDirLeavesEntry`), so only completeness is claimed.
- Leases and update_lock in the pipelined machine: two requests can be prepared from the same old state, so the claims are serial.
- Block files that outlive their inode are not claimed to be fresh; `ReopenedFile.ReopenedIsCoherentIff` is the exact condition.
- AppendReads.AppendReadsIff: for block lists that end with the block the file's end falls into, as put, write sessions and kept appends leave them; with blocks past the end, what a read finds depends on what they happen to hold. `AppendSession.AppendIff` has no such condition.
- Overwrites inside a block, several fsyncs in one session and sparse files; a second session is covered only as one write at the end.
- Galois-field arithmetic and hash functions: a code is a parameter of which any k fragments decode, and no altered fragment has the hash of the original.
- Placement.Place: runs over finite sequences of upload outcomes, because the loop need not end once it is safe; the list of nodes is not empty.
- OpenFile.File.WriteData: the inode's blocks have room for its size; otherwise the block iterator of the read before the write would start past the end.
- HealthScan.ScanAll: takes a list of scan outcomes at least as long as the loop can read, four per node.
- List printers on empty lists, which take the last character off an empty string in C++.
- The scan answers in `Election` do not change during one election; node discovery threads are sequential.
- Path locks, the FUSE callbacks, the command-line client, the datanode's file handling, timers, threads and service start-up.
