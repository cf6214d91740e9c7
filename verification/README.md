# SquidStorage: a model of its protocols

SquidStorage keeps files on datanodes behind a primary server.  Clients mount it through FUSE, standby servers follow
the primary.  All of them speak one framed binary protocol.  This project models the parts that have to be right for a
file to come back as it was written, and proves what they keep over whole runs.

- **Wire** (`Bytes`, `Frames`, `Channels`, `FileTransfer`, `Delivery`, `Protocol`): frames, files and the reorder
  buffer of a connection, over a channel that may cut reads and writes anywhere and break anywhere.
- **Disk** (`Disks`): resolved paths, the tree of files and directories, and the version file among them.
- **Exchange** (`Exchange`, `Strays`, `FileMaps`, `ServedCalls`): a caller and a dispatcher as a state machine of
  single actions over two byte streams and a disk, under every schedule; calls that the disk does not let through; and
  where all this is just a map of files.
- **Replication** (`Stores`, `Keys`, `Replication`, `ReplicationRuns`, `Sweep`, `ReplicationManager`): quorum writes,
  reads, registration, dead-node sweeps and rebalancing.  What each datanode does with a call (not called, refuses,
  ACKs, stores but its ACK is lost, loses the file) is an input.
- **Standby** (`Snapshot`, `Standby`): snapshots, deltas, epochs, promotion, crashes.
- **State on disk** (`Text`, `StateFiles`, `VersionFile`): the text formats, down to stream extraction.
- **Mounted file system** (`FuseCache`, `DirectoryTree`): the write-back cache with handle and lock counts, where
  pushes may arrive in every window in which the cache lock is dropped around a call to the server, and the computed
  directory tree.
- **Locks and sync** (`Locks`, `SyncPlanner`).

C++ strings and buffers are byte sequences.  Integers are unbounded except where the code casts them to 16, 32 or 64
bits or reads them with `stoi` or `>>`.  Code that updates fields or loops is a class or method, proved against a
function; the theorems about runs are about those functions.  Answers of remote peers, the clock and what arrives
meanwhile are parameters; where the code walks a map, the model takes any order, unless the order matters.

`dafny verify dfyconfig.toml` checks everything.

## What does not hold

Some promises fail for the code as it is.  Each has a lemma with the exact condition, and most a concrete failing
input.

- A call that the dispatcher's disk does not let through leaves the connection out of step: a missing file, a path
  that cannot be opened such as the empty one, a directory in use (`Strays.CallInStepIff`, `Strays.UnservedStrays`);
  the next call ends it (`Strays.NextRequestKills`, `Strays.NextAnswerCutsOff`).
- Which calls those are depends on the tree: paths that lead through one another exclude each other
  (`ServedCalls.SecondOpensIff`), and a failed create can leave a directory behind (`ServedCalls.SlashBlocksFile`).
- Two spellings of one path are two files to the protocol and one on disk (`FileMaps.OtherCreateKeepsIff`,
  `FileMaps.AliasOverwrites`).
- A path with whitespace loses its version (`FileMaps.ReadBackIff`), so a committed file with such a path can never be
  read through the server (`ReplicationRuns.ReadAfterCommit`).
- Such a path can also make its datanode report another file at a wrong version (`VersionFiles.ReportedIff`,
  `VersionFiles.SpacedPathMisreports`); if that is above the committed one, the other file is not served until the
  next commit (`ReplicationRuns.RegisterIsHarmlessIff`, `ReplicationRuns.CommitHealsMisreport`).
- The server prints its version file in one format and reads it in another, so a path with whitespace in it, such as a
  leading space, can shadow another one (`StateFiles.ToldIff`), whose rebalanced copies then carry a wrong version
  (`ReplicationRuns.RebalanceIsHarmlessIff`, `ReplicationRuns.LeadingSpaceRelabels`).
- A rejected update is not rolled back, and its bytes can be read (`ReplicationRuns.RejectedUpdateIsHarmlessIff`),
  even after a later commit (`ReplicationRuns.LaterCommitHealsIff`).
- A sweep restores a file only from its first holder; if that one is silent, other survivors do not help
  (`Sweep.OneDeadHolderIff`, `Sweep.SilentFirstHolderLeavesGap`).
- A rebalance copies from the first holder in the map, however old its copy is, and labels the copy as current
  (`ReplicationRuns.OwnLabelIsHarmlessIff`).
- A negative version is no baseline: reads accept every copy (`ReplicationRuns.NegativeCommitIsReadIff`).
- The delta of a create that is not fresh loses earlier holders (`Standby.CreateDeltaExactIff`), and standbys are not
  told of registrations, drops and rebalances (`Standby.SilenceKeepsExactIff`).
- An epoch that was only observed is forgotten in a crash (`Standby.CrashForgetsEpochIff`).
- A snapshot of more than 254 files cannot be sent, and one with whitespace in a path arrives wrong
  (`Snapshot.StateSnapFormat`); a delta of more than 251 names cannot be sent either (`Snapshot.StateDeltaFormat`).
- Limits of the files on disk are in `VersionFiles.SetIsMapUpdateIff`, `StateFiles.SavedLoadsIff` and
  `StateFiles.SaveReplicationMap`.
- A read of an empty dirty buffer throws the pending truncation away (`FuseCache.ReadKeepsUnsavedIff`).
- A delete of an open file drops its counts (`FuseCache.DeleteKeepsBalanceIff`) and its unsaved contents
  (`FuseCache.PushKeepsUnsavedIff`); one that arrives while the file is being opened leaks the lock
  (`FuseCache.OpenKeepsBalanceIff`).
- A lock can be released by a client that does not hold it (`Locks.ReleaseKeepsHeldIff`), and a sweep can free a lock
  that was granted again since it was found expired (`Locks.LateFreeIsExpiryIff`).

Where the repository's README.md and its code differ, the model follows the code.  The README has 4-byte field lengths
(the code: 2), a payload length that covers the fields (the code: only what follows them), concurrent fan-out and
concurrent reads of all holders (one after the other), rollback of updates (only of creates), release of locks when a
connection closes (not done), rebalancing below the replication factor with a round-robin cursor (below the quorum, in
map order) and demotion (never triggered).

## Model

| member | source | states |
|---|---|---|
| Bytes.BigEndianDecodes | common/src/squidprotocol/squidProtocolFormatter.cpp:5-34 | n big-endian bytes of a number that fits decode to that number, for every width |
| Bytes.BigEndianEncodes | common/src/squidprotocol/squidProtocolFormatter.cpp:5-34 | the converse: every byte string is the encoding of the number it decodes to, which fits its width |
| Frames.BuildFrame | common/src/squidprotocol/squidProtocolFormatter.cpp:123-149 | a frame is built exactly if there are at most 255 fields of at most 65535 bytes; it is the printed form of the message with sequence number 0 |
| Frames.StampSeq | common/src/squidprotocol/squidProtocolFormatter.cpp:153-161 | the in-place patch of bytes 5 to 8, nothing for a frame too short to have them |
| Frames.StampedIs | common/src/squidprotocol/squidProtocolFormatter.cpp:153-161 | a frame shorter than 13 bytes is left alone; any other keeps all bytes but four, which then read as the number |
| Frames.StampedFrame | common/src/squidprotocol/squidProtocolFormatter.cpp:153-161 | patching a built frame gives the frame of the same message with that number |
| Frames.ParseMessage | common/src/squidprotocol/squidProtocolFormatter.cpp:407-448 | the cursor loop computes the recursive parser on every input, malformed ones included |
| Frames.ParsePrinted | common/src/squidprotocol/squidProtocolFormatter.cpp:123-149 | parsing inverts building for every well-formed message, whatever payload follows |
| Frames.PrintParsed | common/src/squidprotocol/squidProtocolFormatter.cpp:407-448 | whatever parses is the printed form of a well-formed message, followed by a remainder |
| Frames.TakeFieldsPrinted | common/src/squidprotocol/squidProtocolFormatter.cpp:407-448 | fields printed before any bytes are read back and exactly those bytes are left |
| Frames.TakeFieldsExact | common/src/squidprotocol/squidProtocolFormatter.cpp:407-448 | the converse: the fields that are read, printed, are the bytes that were consumed |
| Frames.FindField | common/src/squidprotocol/squidProtocolFormatter.cpp:466-471 | the value of the first field with the identifier; none only if no field has it |
| Frames.GettersRead | common/src/squidprotocol/squidProtocolFormatter.cpp:466-501 | a message is an ACK exactly if its response flag is set and the first ACK field begins with a byte other than 0; a number is the first four bytes of its first field, or the default if that is missing or shorter |
| Frames.Uint32FieldReads | common/src/squidprotocol/squidProtocolFormatter.cpp:89-99 | a number put into a 32-bit field reads back modulo 2^32 |
| Channels.ReadFully | common/src/squidprotocol/squidprotocol.cpp:36-47 | under any cutting into single reads: exactly the next n bytes, or failure exactly if fewer will ever come |
| Channels.WriteFully | common/src/squidprotocol/squidprotocol.cpp:64-82 | under any cutting into single writes: all bytes in order, or exactly the prefix the connection still took |
| Delivery.TakenFrameParses | common/src/squidprotocol/squidprotocol.cpp:84-136 | every frame that the reader returns parses, so the parse-error branch of receiveAndParse is unreachable |
| Delivery.TakePrintedIs | common/src/squidprotocol/squidprotocol.cpp:84-136 | any built frame and what follows: a payload above 16 MiB is refused with the rest unread, one that does not come in full swallows everything, and otherwise frame and payload are cut off exactly |
| Delivery.TakeCut | common/src/squidprotocol/squidprotocol.cpp:84-136 | a frame that breaks off anywhere is no frame, and nothing of it is left |
| Delivery.CutIsNotDoomed | common/src/squidprotocol/squidprotocol.cpp:36-47 | a frame that has come in part is waited for |
| Delivery.OversizedDooms | common/src/squidprotocol/squidprotocol.cpp:122-127 | an oversized one is given up at once |
| Delivery.ReorderKeepsBuffer | common/src/squidprotocol/squidprotocol.cpp:157-194 | buffered numbers never fall below the expected one, and the delivered frame carries the number that was due, across the wrap of the counter too |
| Delivery.ReorderIsFirstArrival | common/src/squidprotocol/squidprotocol.cpp:157-194 | one call delivers the first arrival of the number that is due as soon as it has arrived, and fails exactly if it never does |
| Delivery.DeliveriesAreFirstArrivals | common/src/squidprotocol/squidprotocol.cpp:138-194 | reordering refines a FIFO: for every arrival order with gaps and duplicates the deliveries are 0, 1, 2, ..., each the first copy that arrived, stopping exactly at the first number that never arrives |
| Delivery.ReceiveInOrder | common/src/squidprotocol/squidprotocol.cpp:157-194 | an in-order frame at the front of a stream is delivered and nothing after it is touched |
| Delivery.SentIsDelivered | common/src/squidprotocol/squidprotocol.cpp:64-194 | end to end: any sequence of messages, built, stamped and sent, is delivered in order with the same opcode, flags and fields, consecutively numbered modulo 2^32, leaving no byte over |
| Protocol.SquidProtocol.SendFrame | common/src/squidprotocol/squidprotocol.cpp:64-82 | the stamped frame goes out, or the prefix that fitted and the connection is dead; the counter advances modulo 2^32 either way |
| Protocol.SquidProtocol.ReceiveFrame | common/src/squidprotocol/squidprotocol.cpp:84-136 | the incremental reader takes the same frame off the stream as the whole-stream specification, and fails with the same bytes consumed |
| Protocol.SquidProtocol.PopNextBuffered | common/src/squidprotocol/squidprotocol.cpp:138-145 | takes the frame that is due out of the buffer, if and only if it is there |
| Protocol.SquidProtocol.ReceiveAndParse | common/src/squidprotocol/squidprotocol.cpp:157-194 | message, expected number, buffer and remaining stream are those of the specification for which the FIFO theorem is proved; liveness is lost exactly if nothing was delivered |
| Protocol.ReceiveUnfolds | common/src/squidprotocol/squidprotocol.cpp:157-194 | the specification by arrivals and the loop by frames agree step by step |
| Protocol.SyncStatusDrains | common/src/squidprotocol/squidprotocol.cpp:278-314 | after any script of pushes with file bytes, delete pushes and heartbeats, syncStatus returns the response behind it, leaves the stream just after it, and owes one ACK per heartbeat |
| Protocol.SquidProtocol.SyncStatus | common/src/squidprotocol/squidprotocol.cpp:278-314 | the loop terminates on every stream, returns what the drain specification returns, and writes the request and exactly the owed ACKs, cut off where the connection breaks; it is alive exactly if all went through |
| Protocol.SquidProtocol.Respond | common/src/squidprotocol/squidprotocol.cpp:493-496 | one stamped ACK or NACK frame, or the prefix that the connection still takes, which is then dead |
| FileTransfer.SendFile | common/src/filesystem/filetransfer.cpp:100-132 | chunking is invisible: length and bytes, or the prefix that fitted; an oversized file writes nothing |
| FileTransfer.ReceiveFile | common/src/filesystem/filetransfer.cpp:196-236 | reads exactly one file off the stream, or fails having consumed what the specification says |
| FileTransfer.TakeFileSent | common/src/filesystem/filetransfer.cpp:196-236 | every file of up to 2^30 bytes comes back as it was and nothing after it is touched |
| FileTransfer.TakeFileFails | common/src/filesystem/filetransfer.cpp:196-236 | a file that breaks off is lost with all that came of it; a length above 2^30 is refused with the rest unread |
| FileTransfer.TakeFileExact | common/src/filesystem/filetransfer.cpp:196-236 | a file is received only if its wire form is the front of the stream |
| Disks.PlainApart | common/src/filesystem/filemanager.hpp:37-43 | plain paths (no empty, dot or dot-dot piece) resolve to different places |
| Disks.DotIsSamePlace | common/src/filesystem/filemanager.hpp:37-43 | another spelling of a plain path resolves to the same place |
| Disks.DotDotGoesBack | common/src/filesystem/filemanager.hpp:37-43 | so does a step into a directory and back |
| Disks.RootHasNoParent | common/src/filesystem/filemanager.hpp:37-43 | absolute paths are resolved from the root of the file system, above which there is nothing |
| Disks.SlashIsDirectory | common/src/filesystem/filemanager.hpp:37-43 | a path that ends in a slash is a directory in the same place |
| Disks.EmptyPathCannotOpen | common/src/filesystem/filetransfer.cpp:134-143 | the empty path resolves to the storage root and cannot be opened for writing, whatever is on the disk |
| Disks.OpensIff | common/src/filesystem/filetransfer.cpp:134-143 | a path can be opened for writing if and only if it does not end like a directory, no directory is there, and no file is anywhere above it; whether there is a file already does not matter |
| Disks.RemoveIs | common/src/filesystem/filemanager.cpp:129-129 | a removal takes away the file or the empty directory that is there, and throws exactly if a file is above it, a file is named as a directory, or the directory is not empty |
| Disks.LandIs | common/src/filesystem/filetransfer.cpp:134-194 | after a transfer into a path: the file that was received, nothing if it broke, what was there if it could not be opened; versions and files elsewhere are as before |
| Disks.PutIs | common/src/filesystem/filemanager.cpp:224-257 | a file that was stored is there with its bytes, and its version is on record exactly if its path is a word |
| Disks.PutKeeps | common/src/filesystem/filemanager.cpp:224-257 | storing a file keeps the bytes and the recorded version of every file in another place, whatever the two paths are |
| Disks.ReceiveToPath | common/src/filesystem/filetransfer.cpp:134-194 | the loop takes off the stream, and leaves on the disk, what Disks.LandIs describes |
| Disks.SendFromPath | common/src/filesystem/filetransfer.cpp:41-98 | sends the file there, and nothing if it is missing or too large |
| Exchange.RequestReads | common/src/squidprotocol/squidProtocolFormatter.cpp:183-224 | the dispatcher reads from a request the path and version that the caller put in |
| Exchange.ReplyReads | common/src/squidprotocol/squidprotocol.cpp:493-502 | the caller reads from a response the outcome and version that the dispatcher put in |
| Exchange.RequestsOnTheWire | common/src/squidprotocol/squidProtocolFormatter.cpp:123-149 | the five requests and an ACK, byte by byte |
| Exchange.ClientKeeps | common/src/squidprotocol/squidprotocol.cpp:346-411 | one step of the calling side keeps a call on track, or returns the reference answer with both streams empty |
| Exchange.ServerKeeps | common/src/squidprotocol/squidprotocol.cpp:536-593 | one step of the dispatcher, working on its disk, keeps a served call on track and uses up one action |
| Exchange.StepKeepsInStep | common/src/squidprotocol/squidprotocol.cpp:536-593 | the invariant of the exchange holds after every step of either side |
| Exchange.ExchangeStaysInStep | common/src/squidprotocol/squidprotocol.cpp:346-593 | for every list of calls that the disk lets through and every schedule: between calls both streams are empty, each side expects the number the other sends next, answers and disk are those of one call after the other, and a run is never stuck |
| Strays.NackReadsAsHugeFile | common/src/squidprotocol/squidprotocol.cpp:362-374 | a NACK frame read as a file announces a length that is always refused |
| Strays.FileReadsAsNoFrame | common/src/squidprotocol/squidprotocol.cpp:84-136 | the bytes of a file, whatever follows, read as a frame have the wrong magic: once there are 13 of them the reader takes those and gives up |
| Strays.NackTailReadsAsNoFrame | common/src/squidprotocol/squidprotocol.cpp:84-136 | so has what a refused file leaves of a NACK |
| Strays.StepStrays | common/src/squidprotocol/squidprotocol.cpp:536-593 | what every step of either side keeps of a call that the disk does not let through |
| Strays.UnservedStrays | common/src/squidprotocol/squidprotocol.cpp:346-593 | under every schedule such a call never returns, or fails with nine bytes of the NACK on their way back, or with the whole file left on its way to the dispatcher, or with the dispatcher dead and what follows the first 13 of those bytes left; and the next step of the dispatcher kills it exactly if the file has at least 5 bytes |
| Strays.StrayFileKillsIff | common/src/squidprotocol/squidprotocol.cpp:84-96 | the last part: after a failed write the dispatcher dies at its next step if and only if the file has at least 5 bytes |
| Strays.NextRequestKills | common/src/squidprotocol/squidprotocol.cpp:84-96 | the next request after such a write, of any kind, kills the dispatcher unread |
| Strays.NextAnswerCutsOff | common/src/squidprotocol/squidprotocol.cpp:84-96 | the next answer after a failed read, of any kind, cuts the caller off: its call fails unheard |
| Strays.RefusesAtOnce | common/src/filesystem/filetransfer.cpp:134-143 | a write whose path cannot be opened is refused before any byte of the file has come |
| Strays.RefusedCallFails | common/src/squidprotocol/squidprotocol.cpp:196-204 | a call that is refused at once, or whose file is too large, fails and leaves nothing behind |
| Strays.AnswerKillsDispatcher | common/src/squidprotocol/squidprotocol.cpp:621-629 | an answer that reaches the dispatcher kills it |
| Strays.CallInStepIff | common/src/squidprotocol/squidprotocol.cpp:536-574 | the exact condition: a call can come back to a quiet connection if and only if what it writes can be opened, what it reads is a file of at most 2^30 bytes, and what it deletes is not a directory in use |
| Strays.EmptyPathStrays | common/src/squidprotocol/squidprotocol.cpp:541-551 | the concrete failure: creating or updating the empty path |
| FileMaps.PlainPathsAreOwn | common/src/filesystem/filemanager.hpp:37-43 | plain words other than the version file name places of their own |
| FileMaps.CallShows | common/src/squidprotocol/squidprotocol.cpp:536-574 | on paths of their own, one call on the disk is one call on a map of files |
| FileMaps.ExchangeActsAsMap | common/src/squidprotocol/squidprotocol.cpp:346-593 | over every list of served calls on paths of their own and every schedule: an ACKed create or update means exactly that path, version and bytes are stored, and a read returns exactly what is stored |
| ServedCalls.ServedIff | common/src/squidprotocol/squidprotocol.cpp:536-574 | on paths that do not nest, with room on the disk, every admissible create, update and delete is let through, and a read exactly if its file is there; the room stays |
| ServedCalls.AllServedIff | common/src/squidprotocol/squidprotocol.cpp:346-593 | a list of calls on such paths is let through if and only if every read is of a file that is there by then |
| ServedCalls.NewDiskHasRoom | common/src/filesystem/filemanager.cpp:18-29 | a new disk has room for all plain paths that keep clear of the version file |
| ServedCalls.NewDiskActsAsMap | common/src/squidprotocol/squidprotocol.cpp:346-593 | from a new disk on, every list of calls on plain words that do not nest, with reads of files that are there, is answered as by a map of files under every schedule |
| ServedCalls.SecondOpensIff | common/src/filesystem/filetransfer.cpp:134-143 | after a file was stored, another path can still be opened if and only if neither leads through the other |
| ServedCalls.DeleteLeavesRoom | common/src/filesystem/filemanager.cpp:129-159 | a path that could be opened can be deleted, whether or not there is a file, and opened again |
| ServedCalls.HomeStays | common/src/filesystem/filemanager.cpp:224-227 | no call takes the version file's directory away or puts a file in its place, so a version can always be recorded |
| ServedCalls.SlashBlocksFile | common/src/filesystem/filetransfer.cpp:134-143 | a create of a path that ends in a slash fails but leaves a directory that blocks the file of that name |
| FileMaps.ReadBackIff | common/src/squidprotocol/squidprotocol.cpp:553-560 | what was created reads back with its version if and only if its path is a word (or the version is -1) |
| FileMaps.SpacedPathLosesVersion | common/src/filesystem/filemanager.cpp:206-222 | the concrete failure: "a b" at version 7 is read back as 2^32 - 1 |
| FileMaps.AliasOverwrites | common/src/filesystem/filemanager.hpp:37-43 | after a create under another spelling a file has the other bytes under its old version |
| FileMaps.OtherCreateKeepsIff | common/src/filesystem/filemanager.hpp:37-43 | a create of another path, with other bytes, leaves what a read of a file answers alone if and only if it resolves to another place |
| ReplicationManagers.ReplicationManager.PropagateCreateFile | server/src/replication_manager.cpp:148-219 | commits only with rf/2+1 endpoints holding these bytes, and this version on record if the path is a word; a rejected create leaves both maps alone and its rollback removes the file from every node that ACKed and carries it out |
| ReplicationManagers.ReplicationManager.PropagateUpdateFile | server/src/replication_manager.cpp:221-302 | commits exactly with min(rf/2+1, holders) ACKs, each from a node with the new bytes and, for a word, the new version; versions go up; a rejected update leaves the version map alone |
| ReplicationManagers.ReplicationManager.PropagateDeleteFile | server/src/replication_manager.cpp:304-361 | forgets the file exactly with min(rf/2+1, callable holders) ACKs, otherwise both maps stay; a holder that ACKed has it no more |
| ReplicationManagers.ReplicationManager.GetFileFromDataNode | server/src/replication_manager.cpp:90-144 | returns bytes exactly if some answering holder has a copy whose version file does not put it behind the server, and then such a copy |
| ReplicationManagers.ReplicationManager.RegisterDataNodeFiles | server/src/replication_manager.cpp:62-86 | the node becomes a holder of what it reports and versions rise to what it reports; the version file follows |
| ReplicationManagers.ReplicationManager.GetFileVersionMap | server/src/replication_manager.cpp:448-480 | exactly the paths known to the server or reported, each with the maximum of the versions known and reported |
| ReplicationManagers.ReplicationManager.RebalanceFileReplication | server/src/replication_manager.cpp:394-438 | one rebalance step from the first holder in name order, under the version that getFileVersion reads from the printed version file, for every order of candidates; an under-replicated file gets what a sweep of nobody allows, and with willing endpoints is replicated again exactly if it was before or its first holder answers with the file |
| Keys.First | server/src/replication_manager.cpp:400-400 | the least key, byte by byte |
| ReplicationManagers.ReplicationManager.PersistState | server/src/replication_manager.cpp:55-58 | the server's version file is the printed version map, after every operation that changes the map |
| ReplicationManagers.ReplicationManager.EraseFromReplicationMap | server/src/replication_manager.cpp:365-392 | every file is swept of the dead node; one that keeps a quorum keeps exactly its other holders; with willing endpoints each of the others is replicated again exactly if enough holders are left or the first one left answers with the file |
| ReplicationManagers.ReplicationManager.SendHeartbeats | server/src/heartbeat_manager.cpp:21-47 | for any set of dead nodes and any behaviour of the others: every file is swept of all of them, one of which a quorum survives keeps exactly its survivors, and otherwise the drop of its last dead holder decides about its replication |
| ReplicationRuns.VersionsIncrease | server/src/replication_manager.cpp:221-302 | along every run in which the path is not deleted or created anew, successive committed updates return strictly increasing versions |
| ReplicationRuns.SafeReads | server/src/replication_manager.cpp:90-144 | in a safe state every copy that a read accepts is the committed one, and one is accepted if a current node is an answering holder |
| ReplicationRuns.FreshCreateIsSafe | server/src/replication_manager.cpp:148-219 | a committed fresh create establishes the safe state |
| ReplicationRuns.CommitMakesSafe | server/src/replication_manager.cpp:221-302 | a committed update establishes the safe state wherever no copy is newer than the server's version |
| ReplicationRuns.RebalanceIs | server/src/replication_manager.cpp:394-438 | exactly the candidates that store it get the source's bytes under the label of the server's version file; holders keep their copies; new holders are among them |
| ReplicationRuns.AllowedKeepsSafe | server/src/replication_manager.cpp:62-438 | every allowed step keeps the safe state of p: commits, registrations that report no version above the committed one, drops, rebalances whose label is older or that copy what was committed, and anything on paths that name other places |
| ReplicationRuns.RunKeepsSafe | server/src/replication_manager.cpp:62-438 | the same for every run |
| ReplicationRuns.ReadAfterCommit | server/src/replication_manager.cpp:62-438 | over a file's whole life a successful read returns exactly the bytes of the last committed write; and whenever one node that ACKed it, and has not lost it in a broken transfer or been given a copy with an older label since, is still an answering holder, a read succeeds if and only if the path is a word |
| ReplicationRuns.NeverServed | server/src/replication_manager.cpp:119-136 | a path that is not a word is on record nowhere, so no copy of it is ever served |
| ReplicationRuns.OtherFileUntouched | server/src/replication_manager.cpp:148-438 | operations on paths that name other places leave version, holders and copies of p alone, on every node |
| ReplicationRuns.DropIs | server/src/replication_manager.cpp:376-383 | a dropped node leaves the endpoints and every holder set, and nothing else changes |
| ReplicationRuns.EraseOne | common/src/filesystem/filemanager.cpp:131-159 | a datanode that deletes a file has neither its bytes nor its version |
| ReplicationRuns.RejectedUpdateIsHarmlessIff | server/src/replication_manager.cpp:248-271 | a rejected update leaves the committed write in force if and only if no holder stored it |
| ReplicationRuns.RejectedUpdateIsReadable | server/src/replication_manager.cpp:248-271 | otherwise the rejected bytes are served by a read |
| ReplicationRuns.LaterCommitHealsIff | server/src/replication_manager.cpp:221-302 | the next commit, which reuses the version, heals a rejected update if and only if it overwrites or erases every copy of the rejected bytes or carries the same bytes |
| ReplicationRuns.RejectedBytesOutliveCommit | server/src/replication_manager.cpp:221-302 | a node that it leaves out serves the rejected bytes as the committed version |
| ReplicationRuns.RebalanceIsHarmlessIff | server/src/replication_manager.cpp:394-438 | a rebalance leaves the committed write in force if and only if nobody stores its copy, or the label is older than the committed version, or version and bytes are the committed ones |
| ReplicationRuns.OwnLabelIsHarmlessIff | server/src/replication_manager.cpp:394-438 | for a path that is not shadowed: if and only if it copies the committed bytes or nobody stores them; a stale source is relabelled as current |
| ReplicationRuns.RelabelledIsServed | server/src/replication_manager.cpp:419-427 | every candidate that ACKs a rebalance has the source's bytes under the label, and serves them if and only if the label is no older than the server's version |
| ReplicationRuns.OverlabelledOutlivesCommit | server/src/replication_manager.cpp:419-427 | a label above the server's version makes a node that misses the next commit serve the old bytes after it |
| ReplicationRuns.LeadingSpaceRelabels | server/src/replication_manager.cpp:419-421 | the concrete failure: with " p" at 5 and "p" at 0 every stored rebalance of "p", labelled 5, puts the committed write out of force |
| ReplicationRuns.RegisterIsHarmlessIff | server/src/replication_manager.cpp:62-86 | a report leaves the committed write in force if and only if it does not put the file above the committed version; otherwise no read of the file is served |
| ReplicationRuns.CommitHealsMisreport | server/src/replication_manager.cpp:221-302 | after such a report the next committed update establishes the safe state again |
| ReplicationRuns.MisreportStopsReads | server/src/replication_manager.cpp:62-86 | the concrete failure: a node with "a" at 0 and "a 3" at 5 reports "a" at 3, and no read of "a" is served |
| ReplicationRuns.SpacedPathReportsZero | common/src/filesystem/filemanager.cpp:98-107 | a path that is not a word is reported at 0 and so stops no reads |
| ReplicationRuns.ReportedIsServedIff | server/src/replication_manager.cpp:90-126 | a file that the server did not know is served from the node that reports it if and only if that node answers and the report is not positive or not above its record |
| ReplicationRuns.NegativeCommitIsReadIff | server/src/replication_manager.cpp:121-126 | after a commit at a negative version, where every copy is accepted, all reads return what was committed if and only if every holder with a copy stored it, lost it or had the same bytes |
| Sweep.RebalanceEffect | server/src/replication_manager.cpp:394-438 | one rebalance touches only its file, keeps holders and their copies, adds live endpoints with a holder's bytes and the label that the server's version file gives, never passes max(holders, rf), and with willing endpoints restores min(quorum, live) exactly if the first holder answers with the file or there were enough |
| Sweep.SilentFirstHolderLeavesGap | server/src/replication_manager.cpp:400-407 | the concrete failure: with rf 5 and a silent first survivor the file stays at two holders, although the second answers and two endpoints are willing |
| Sweep.SweptTwice | server/src/replication_manager.cpp:365-392 | sweeps compose: first a set, then one more node, sweeps both |
| Sweep.SweepRestoresStep | server/src/replication_manager.cpp:365-392 | one more dropped node: the drop of the last dead holder still decides about the file |
| Sweep.Dropped | server/src/replication_manager.cpp:365-392 | dropping a node and rebalancing the files that fell below the quorum sweeps every file, added copies carrying the label of the version file, and decides its replication as stated |
| Sweep.SweepingStep | server/src/heartbeat_manager.cpp:21-47 | the loop over dead nodes keeps the sweep theorem for the nodes done so far |
| Sweep.OneDeadHolderIff | server/src/heartbeat_manager.cpp:21-47 | if one of its holders died and the endpoints are willing, a file is replicated again if and only if enough holders survive or the first survivor answers with the file |
| Sweep.AnsweringFirstRestores | server/src/heartbeat_manager.cpp:21-47 | however many died, it is if the first survivor answers with the file and the endpoints that sort before it answer |
| Snapshot.SnapEntry | common/src/squidprotocol/squidProtocolFormatter.cpp:271-285 | the entry of a file parses back to path, version and holder set, and has the stated size |
| Snapshot.StateSnapFormat | common/src/squidprotocol/squidProtocolFormatter.cpp:264-288 | built exactly if there are at most 254 files and each entry fits; then building, parsing and applying gives back the version map and the holder map on its paths (missing holders as the empty set) if and only if all paths are words and all names are non-empty without whitespace and commas |
| Snapshot.ParsePrintedEntry | common/src/squidprotocol/squidProtocolFormatter.cpp:325-343 | parseSnapEntry inverts the printed entry |
| Snapshot.StateDeltaFormat | common/src/squidprotocol/squidProtocolFormatter.cpp:290-309 | built exactly if there are at most 251 names and path and names fit their fields; then building, parsing and applying is exactly the map update that the delta stands for |
| Snapshot.DeltaIsPatch | common/src/squidprotocol/squidProtocolFormatter.cpp:290-309 | a delta message, however stamped, is that map update, negative versions included |
| Standby.ReplicaWatcher.ReceiveFrame | server/src/replica_watcher.cpp:205-257 | the observed epoch becomes the maximum with that of every snapshot, delta and heartbeat, and a frame with a lower epoch changes nothing |
| Standby.ReplicaWatcher.ApplySnap | server/src/replica_watcher.cpp:261-290 | the loop over the fields builds the specified maps and swaps them in |
| Standby.ReplicaWatcher.ApplyDeltaFrame | server/src/replica_watcher.cpp:292-325 | the update or removal of one path |
| Standby.ReplicaWatcher.Promote | server/src/replica_watcher.cpp:356-374 | the next epoch is saved, then the node is active under it |
| Standby.EpochStep | server/src/replica_watcher.cpp:205-257 | what every frame, promotion and restart does to the epochs in memory and on disk, and that once active only a restart changes anything |
| Standby.PromotionOutbidsHeard | server/src/replica_watcher.cpp:205-374 | over every run: a promotion takes an epoch above that of every snapshot, delta and heartbeat received since the last restart, and has it on disk |
| Standby.PromotionEpochsIncrease | server/src/replica_watcher.cpp:356-374 | across any number of crashes and restarts a node's promotion epochs strictly increase |
| Standby.CrashForgetsEpochIff | server/src/replica_watcher.cpp:14-24 | after a crash a promotion outbids an epoch that was only observed if and only if that epoch was not above the saved one |
| Standby.SnapshotMirrors | server/src/standby_replica_manager.cpp:18-42 | a snapshot taken at any moment mirrors the primary |
| Standby.DeltaTellsStep | server/src/replication_manager.cpp:192-209 | the delta of a committed create, update or delete says what happened to the primary's maps |
| Standby.DeltaKeepsMirror | server/src/replication_manager.cpp:273-292 | a committed step and its delta keep the mirror and, unless a create missed an earlier holder, make the path exact |
| Standby.SilenceKeepsMirror | server/src/replication_manager.cpp:62-86 | a step that sends no delta, registrations, drops and rebalances included, keeps the mirror but for the paths it affects |
| Standby.SilenceKeepsExactIff | server/src/replication_manager.cpp:365-438 | a registration, a dropped node or a rebalance leaves a path exact if and only if it neither raises its version nor changes its holders |
| Standby.StandbyMirrorsPrimary | server/src/standby_replica_manager.cpp:18-66 | after a snapshot and any run of any steps whose deltas fit a frame: every path of the primary is on the standby at no lower version unless a registration raised it since its last delta, and exactly, or absent on both, every path whose last delta was complete and that nothing affected since |
| Standby.PlainRunTouches | server/src/standby_replica_manager.cpp:44-66 | over fresh creates, updates and deletes these are exactly the touched paths, and none is raised |
| Standby.CreateDeltaExactIff | server/src/replication_manager.cpp:192-209 | the delta of a create that is not fresh is exact if and only if every earlier holder ACKed |
| Text.ReadPairOf | common/src/filesystem/filemanager.cpp:206-222 | a printed path and number, read by stream extraction, come back for every word and every 32-bit number |
| Text.ReadPairIsWord | common/src/filesystem/filemanager.cpp:206-222 | extraction never yields a path with whitespace in it |
| Text.LinesOfUnlines | server/src/state_manager.hpp:36-54 | getline inverts writing lines |
| StateFiles.LoadVersionMap | server/src/state_manager.hpp:36-54 | the line loop computes the specified map, comments and malformed lines skipped |
| StateFiles.LoadReplicationMap | server/src/state_manager.hpp:66-94 | the same for the replication file |
| StateFiles.ParseNames | server/src/state_manager.hpp:79-91 | the character loop yields the comma-separated non-empty names |
| StateFiles.SaveVersionMap | server/src/state_manager.hpp:56-61 | one line per entry, in key order |
| StateFiles.SavedLoadsIff | server/src/state_manager.hpp:36-61 | loading what was saved gives the map back if and only if every path is newline-free and does not start with # |
| StateFiles.FirstEntryDecides | common/src/filesystem/filemanager.cpp:206-222 | read as getFileVersion reads it, the saved file says of a path what the first entry in key order says whose text reads as that path |
| StateFiles.ToldIff | common/src/filesystem/filemanager.cpp:206-222 | so it says a path's own version if and only if the path is a word (or the version is -1) and no earlier key's entry reads first as it, with another version |
| StateFiles.WordsAreTold | common/src/filesystem/filemanager.cpp:206-222 | if all paths are words, it says of each its own version |
| StateFiles.LeadingSpaceShadows | common/src/filesystem/filemanager.cpp:206-222 | the concrete failure: with " p" at 5 and "p" at 0 it says 5 of "p" |
| StateFiles.SaveReplicationMap | server/src/state_manager.hpp:97-111 | loading what was saved gives the map back, empty holder sets included, if and only if every path is as above and every name is non-empty without space, comma and newline |
| StateFiles.LoadedFromText | server/src/state_manager.hpp:66-94 | whatever a file contains, the paths and names loaded from it are of the kind that survives a save |
| VersionFiles.SetIsMapUpdateIff | common/src/filesystem/filemanager.cpp:224-257 | setting a version updates the recorded map for all paths if and only if the path is a non-empty word |
| VersionFiles.SpaceInPathMixesUp | common/src/filesystem/filemanager.cpp:224-257 | the concrete failure: setting a path with a space records a version for another file |
| VersionFiles.SetTextLookup | common/src/filesystem/filemanager.cpp:224-257 | on the whole file and for every path: a word is recorded, any other path is not, and what was recorded for other paths stays |
| VersionFiles.ReportedIff | common/src/filesystem/filemanager.cpp:84-110 | after a word was set last and whatever was then set or deleted for other paths, it is on record as set, and reported so if and only if the last line written since that reads as it, if any, carries the same version |
| VersionFiles.LastEdited | common/src/filesystem/filemanager.cpp:84-110 | what one setFileVersion or deletion for another path does to the version that is reported of a path |
| VersionFiles.SpacedPathMisreports | common/src/filesystem/filemanager.cpp:84-110 | the concrete failure: after "a" at 0 and "a 3" at 5, "a" is recorded at 0 and reported at 3 |
| VersionFiles.LookupReplaced | common/src/filesystem/filemanager.cpp:224-257 | rewriting the lines of a path changes what is read for that path only |
| VersionFiles.LookupWithout | common/src/filesystem/filemanager.cpp:131-159 | discarding the lines of a path forgets exactly that path |
| VersionFiles.FindVersion | common/src/filesystem/filemanager.cpp:206-222 | the version in the first line that reads as the path, or -1 |
| VersionFiles.VersionFile.GetFileVersion | common/src/filesystem/filemanager.cpp:206-222 | the recorded version, or -1 |
| VersionFiles.VersionFile.SetFileVersion | common/src/filesystem/filemanager.cpp:224-257 | a map update of what the file records |
| VersionFiles.VersionFile.DeleteFileAndVersion | common/src/filesystem/filemanager.cpp:131-159 | removes the record of that path exactly if the file itself was removed |
| FuseCache.SquidFS.ReceivePush | client/src/squidfs.cpp:18-47 | the push handler: contents replaced unless dirty, entry dropped on delete |
| FuseCache.CleanFollowsPushes | client/src/squidfs.cpp:18-47 | without unsaved contents the cache has, after any window of pushes, what was pushed last for the path, or nothing after a delete |
| FuseCache.SquidFS.FetchIntoCache | client/src/squidfs.cpp:189-208 | fetch with pushes arriving while the lock is dropped; what it caches is stated in FuseCache.ReadIs and FuseCache.OpenIs |
| FuseCache.SquidFS.OpOpen | client/src/squidfs.cpp:306-368 | how an open ends in every case, what it leaves of the file (as in FuseCache.OpenIs), and that it keeps the balance of handles and locks exactly if it does not leak its lock |
| FuseCache.OpenIs | client/src/squidfs.cpp:306-368 | the code in every case; with success a file that was not open has the fetched bytes and version and is clean, one that was open what it had, and O_TRUNC empties either; on failure a file that was not open leaves nothing in the cache |
| FuseCache.CreateIs | client/src/squidfs.cpp:370-415 | with both ACKs an empty, clean file under the given version with a writable handle and the lock; otherwise the code says why and nothing is kept |
| FuseCache.ReadIs | client/src/squidfs.cpp:417-442 | the cached bytes if there are any, otherwise the fetched ones, which are then cached as clean; it fails exactly without either |
| FuseCache.EditIs | client/src/squidfs.cpp:444-461 | a write or truncate succeeds exactly if the file is cached, as every open file is, and changes contents and dirty flag only |
| FuseCache.ReleaseIs | client/src/squidfs.cpp:463-537 | the last close leaves nothing; the last writable one a clean buffer with what was written, under the version in the answer, or what was pushed since; any other what was there |
| FuseCache.OthersUntouched | client/src/squidfs.cpp:306-566 | operations and pushes on other paths leave a file's buffer, counts and lock alone |
| FuseCache.SquidFS.OpCreate | client/src/squidfs.cpp:370-415 | create, lock, and an entry with one writable handle, or nothing; a path that the client knows of is opened instead |
| FuseCache.SquidFS.OpRead | client/src/squidfs.cpp:417-442 | the requested portion of the cached contents, or of the fetched ones if those were missing or empty; fails exactly without either |
| FuseCache.SquidFS.OpWrite | client/src/squidfs.cpp:444-461 | growing with zeros and copying gives contents with the bytes at the offset, the rest as before and zeros in a gap; the entry is dirty |
| FuseCache.SquidFS.OpTruncate | client/src/squidfs.cpp:554-566 | the contents are cut off or filled up with zeros; the entry is dirty |
| FuseCache.SquidFS.OpRelease | client/src/squidfs.cpp:463-537 | flush and unlock at the last writable close, evict at the last close; keeps the balance and leaves of the file what FuseCache.ReleaseIs states |
| FuseCache.SquidFS.OpUnlink | client/src/squidfs.cpp:539-552 | the file leaves the cache exactly if the server deleted it; the balance is kept exactly if it was not deleted or not open |
| FuseCache.OpenKeepsBalanceIff | client/src/squidfs.cpp:316-333 | an open keeps the balance if and only if the file is not deleted between its lock being granted and the lookup after it, in which case the lock is never given back |
| FuseCache.DeleteKeepsBalanceIff | client/src/squidfs.cpp:36-40 | a pushed delete keeps the balance if and only if the file is not open |
| FuseCache.UnlinkKeepsBalanceIff | client/src/squidfs.cpp:539-552 | an unlink takes the file out of the cache exactly if the server deleted it, touches nothing else, and keeps the balance if and only if the file was not open |
| FuseCache.ReleaseKeepsBalance | client/src/squidfs.cpp:463-537 | a release keeps the balance, and its clamps never fire |
| FuseCache.ReleaseSends | client/src/squidfs.cpp:487-498 | whatever is pushed meanwhile, a release sends the dirty contents exactly at the last writable close |
| FuseCache.StepKeepsBalance | client/src/squidfs.cpp:306-566 | every operation, with any answers and any pushes that delete no open file, keeps the balance unless it leaks a lock |
| FuseCache.RunKeepsBalance | client/src/squidfs.cpp:306-537 | in every such run the counts are the numbers of open and of writable handles, no open file is evicted, and the server lock is held exactly while a writable handle exists |
| FuseCache.StepKeepsUnsaved | client/src/squidfs.cpp:18-47 | every undisturbing operation and every interleaved push leaves unsaved contents as edited |
| FuseCache.EditMakesUnsaved | client/src/squidfs.cpp:444-461 | a write or truncate of a file that is open for writing, or an open with O_TRUNC, makes its buffer unsaved, whether it was clean or dirty |
| FuseCache.DirtyBufferWins | client/src/squidfs.cpp:444-526 | from the first edit of a clean or dirty buffer on, the last writable close sends exactly the contents before it with that and all later writes and truncates applied in order |
| FuseCache.SessionSends | client/src/squidfs.cpp:306-526 | so what is begun, edited and closed by one handle arrives as it was fetched with the edits applied |
| FuseCache.CreatedSends | client/src/squidfs.cpp:370-526 | and what is created, edited and closed arrives as the edits made it |
| FuseCache.ReaderFollowsAfterClose | client/src/squidfs.cpp:506-526 | once the last writer has closed, readers see the next push |
| FuseCache.PushKeepsUnsavedIff | client/src/squidfs.cpp:24-40 | unsaved contents survive a push if and only if it does not delete the file |
| FuseCache.DeleteLosesUnsaved | client/src/squidfs.cpp:475-485 | after a delete the close of the handle sends nothing and gives the lock back |
| FuseCache.ReadKeepsUnsavedIff | client/src/squidfs.cpp:424-432 | unsaved contents survive a read if and only if they are not empty |
| FuseCache.TruncateThenReadIsLost | client/src/squidfs.cpp:354-363 | the concrete failure: begun with O_TRUNC, read, closed: nothing is sent |
| DirectoryTree.ListChildren | client/src/squidfs.cpp:133-168 | the two loops compute the specified listing |
| DirectoryTree.IsKnownDir | client/src/squidfs.cpp:170-184 | created, or a proper ancestor of some file |
| DirectoryTree.FileListedIff | client/src/squidfs.cpp:133-168 | a name is listed if and only if it is a file of that directory |
| DirectoryTree.DirListedIff | client/src/squidfs.cpp:133-184 | a name with a slash is listed if and only if it is a known directory |
| DirectoryTree.OnlyNamesListed | client/src/squidfs.cpp:133-168 | nothing else is listed |
| DirectoryTree.RootIsNoChild | client/src/squidfs.cpp:139-184 | the root is in no listing, and a path that ends in a slash makes no directory |
| DirectoryTree.TreeIsExact | client/src/squidfs.cpp:133-184 | walking from the root through listings and known directories finds exactly the files, and every proper prefix of a file is a known directory with a non-empty listing |
| Locks.LockManager.BuildFileLockMap | server/src/lock_manager.cpp:19-46 | exactly the reported files without an entry get an unlocked one; existing entries stay |
| Locks.LockManager.AcquireLock | server/src/lock_manager.cpp:48-67 | granted exactly if the file has an entry that is not locked, or has none and is reported; then held by this client for five minutes |
| Locks.LockManager.ReleaseLock | server/src/lock_manager.cpp:69-82 | unlocks a known file; fails for an unknown one even if the rebuild finds it |
| Locks.LockManager.CheckFileLockExpiration | server/src/lock_manager.cpp:84-108 | frees exactly the held locks whose deadline has passed |
| Locks.LockManager.InsertLock | server/src/lock_manager.cpp:110-113 | an existing entry stays as it is |
| Locks.LockManager.EraseLock | server/src/lock_manager.cpp:115-118 | the entry is gone |
| Locks.HeldStays | server/src/lock_manager.cpp:19-118 | no step but a release, the deletion or a sweep past the deadline changes a held lock, and it is granted to nobody |
| Locks.BetweenTwoGrants | server/src/lock_manager.cpp:19-118 | timed mutual exclusion over every run |
| Locks.GrantedIff | server/src/lock_manager.cpp:19-118 | the exact rule over every run since the server started: an acquire is granted if and only if the file is known or reported now and no earlier grant of it is still in force |
| Locks.KnownIff | server/src/lock_manager.cpp:19-118 | a file has an entry if and only if it was created or reported and not deleted since |
| Locks.HeldByGrant | server/src/lock_manager.cpp:19-118 | every held lock goes back to a grant that is still in force, by its holder and with its deadline |
| Locks.SweepFreesIff | server/src/lock_manager.cpp:84-108 | a sweep frees a lock exactly if it comes more than 300 seconds after the grant |
| Locks.ReleaseKeepsHeldIff | server/src/lock_manager.cpp:69-82 | whoever releases, a held lock stays if and only if the release is of another path; otherwise it is granted to the next |
| Locks.OwnReleasesExclude | server/src/lock_manager.cpp:48-82 | if releases come only from holders, a second grant before the deadline and without a deletion means that the first client gave the lock back |
| Locks.LateFreeIsExpiryIff | server/src/lock_manager.cpp:84-108 | the lock that an interrupted sweep frees had expired if and only if the path was not granted again in between |
| SyncPlanner.PlanSync | common/src/filesystem/syncplanner.hpp:21-50 | each differing path is named once, with the operation it calls for, and no other path |
| SyncPlanner.OpIffDiffering | common/src/filesystem/syncplanner.hpp:21-50 | a path calls for an operation exactly if the two sides differ on it |
| SyncPlanner.ActionFits | common/src/filesystem/syncplanner.hpp:21-50 | an upload exactly if the server has an older version, a remote creation exactly if it has none, a download exactly if it has a newer one or the only one |
| SyncPlanner.PlanConverges | common/src/filesystem/syncplanner.hpp:21-50 | executing a plan makes both maps their pointwise maximum |
| SyncPlanner.PlanInAnyOrder | common/src/filesystem/syncplanner.hpp:21-50 | and so does executing it in any other order |
| SyncPlanner.ConvergedNeedsNothing | common/src/filesystem/syncplanner.hpp:21-50 | planning again gives no operations |

## Left out

- Sockets, select, timeouts and listeners: a channel of bytes stands for a connection.
- Threads, mutexes, ConnectionSession and the thread pool: their effect is the atomicity of the steps; interleaving is modelled where a lock is dropped around a call.
- Single leadership, probing of higher priorities and demotion: no code decides uniqueness; only per-node epoch facts are stated.
- Disk failure, fsync and rename: what is saved is saved.
- FUSE trampolines, getattr, readdir, mkdir, rmdir, kernel invalidation and the health monitor: plumbing around the modelled operations.
- FuseCache.SquidFS.OpCreate: excludes a path that is already cached; there the source calls op_open while it holds the mutex that op_open locks, and does not come back.
- Create and update calls that send a file from the caller's disk: the calls with a buffer are modelled.
- What a disk refuses for other reasons than its tree (permissions, space, lengths of names, links), zero bytes in paths, and the truncation of a file before its new bytes arrive. One storage root, left open, stands for that of every node.
- Replication leaves the directories of the datanodes out: that a write is not let through is one of the outcomes it takes as inputs.
- The server's version file between persistState calls: setFileVersion on it (also in buildFileLockMap) is overwritten by the next persistState, which comes before every rebalance.
- pickDataNodes, configuration and command lines, ports, logging, scripts: they would only add easy members.
- FuseCache.RunKeepsBalance: excludes exactly the steps that break the balance (see FuseCache.DeleteKeepsBalanceIff and FuseCache.OpenKeepsBalanceIff).
- FuseCache.DirtyBufferWins: excludes exactly deletes of that file, and reads of an empty buffer, which refetch (see FuseCache.PushKeepsUnsavedIff and FuseCache.ReadKeepsUnsavedIff).
- ReplicationRuns.ReadAfterCommit: ends at the next create or delete of a path that names the same place (see FileMaps.OtherCreateKeepsIff), and excludes exactly rejected updates that a node stored, rebalances whose label is not older and that do not copy what was committed, and reports above the committed version (see ReplicationRuns.RejectedUpdateIsHarmlessIff, ReplicationRuns.RebalanceIsHarmlessIff, ReplicationRuns.RegisterIsHarmlessIff); and creation at a negative version, where reads accept every copy (see ReplicationRuns.NegativeCommitIsReadIff).
- Delivery.DeliveriesAreFirstArrivals: stops before the 32-bit counter wraps, because past and future are told apart by plain comparison; in-order traffic is covered across the wrap.
- Standby.StandbyMirrorsPrimary: takes registration and snapshot as one step; a change committed between them can be lost to that standby. Its runs end where a delta does not fit a frame (see Snapshot.StateDeltaFormat); there the source throws in the session's worker thread.
- Standby.PromotionEpochsIncrease: assumes that the epoch does not pass 2^32.
- Exchange.ExchangeStaysInStep: admits paths of at most 65535 bytes, versions that fit 32 bits and files of at most 2^30 bytes, which is what one frame and one transfer can carry; both ends are modelled as one state machine on values, not as two objects.
- Strays.UnservedStrays: one call; of what a caller does next on a connection that is out of step only the first step is stated (see Strays.NextRequestKills and Strays.NextAnswerCutsOff), and that a dead end closes the connection is not modelled.
- Requests other than create, read, update, delete and heartbeat at the dispatcher: they would only add easy members.
- Locks.LockManager.BuildFileLockMap: does not model the local version numbers that it raises alongside.
- Locks.LockManager.CheckFileLockExpiration: one step; the notice to the former holder is not modelled, and the window inside the sweep only in Locks.LateFreeIsExpiryIff.
- ReplicationManagers.ReplicationManager.PropagateUpdateFile: versions are unbounded, 32-bit overflow is not modelled.
