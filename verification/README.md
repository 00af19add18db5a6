# A verified model of the storage core of the shop and its Redis server

The repository is a Rails shop with a vendored Redis 7.0 source tree. This project models
the parts where a mistake loses data, lets a command through or books a room twice, and proves
what those parts promise. `dafny verify dfyconfig.toml` covers all of it.

* **Append only file** (`Resp`, `AofLoad`, `AofFlush`, `AofFeed`, `AofManifest`, `AofDisk`,
  `AofInvariant`, `AofRuns`, `AofProtocol`, `AofLeftover`, `AofHarmless`). Files are byte sequences, the
  disk is a map of files plus the manifest's lines, the dataset is a fold over commands. `AofServer` is
  the server with its buffer, open file, manifest and rewrite child. Its ghost field `crashes` records
  every disk state that an operation passes through, with the dataset that must come back from it: the
  record ends with the disk as it is, only grows, and goes from one disk to the next by one change (one
  file, or the manifest). Every recorded disk is proved to load to the dataset noted with it.
  `AofRuns` states crash safety for every sequence of protocol steps, without the class; its steps touch
  the file names that the code computes. `AofLeftover` and `AofHarmless` say what a rewrite start costs
  that leaves bytes in the buffer. Answers of the operating system (short writes, failed renames,
  failed forks) are parameters of each step.
* **ACL command rules** (`AclRules`, `AclRoundTrip`, `AclSelector`). Rules are text, as users write
  them; the printer that describes a selector and the interpreter that applies rules are proved to
  undo each other for every selector that rules can build.
* **Blocked clients** (`BlockedState`, `BlockedServer`). The two sided index of clients and keys, the
  counters and the queues are one value with an invariant; the class does what the C code does, step
  by step, and keeps it.
* **Bit operations** (`Bits`, `BitRange`, `Popcount`, `BitCount`, `Bitpos`, `BitSearch`, `Bitfield`,
  `BitfieldOverflow`, `BitfieldCommand`, `Bitop`). Machine words are bit vectors, bytes are `bv8`, and
  every fast form is proved equal to a definition bit by bit or byte by byte.
* **Timers and the linked list** (`Timers`, `AdList`). Heap structures with real `prev` and `next`
  links and a ghost sequence of nodes.
* **CRC16** (`Crc16`). The table loop against schoolbook division over GF(2).
* **Room booking** (`Booking`). The controller as a class, its runs as a function of the requests.

What became a parameter: clocks, and the results of write, fsync, rename and fork. Addresses of buffers are parameters where the code looks at their alignment. Callbacks
of timers are arbitrary finite sequences of creations, deletions and nested passes. The dataset and
the effect of a command on it are parameters of the AOF modules (`Sem`).

Results about the code that differ from what its comments or its purpose say; each has a lemma with
a concrete input or an exact condition:

* The INCR file that a rewrite start opens has no `O_APPEND` (aof.c:809). A short write that is undone
  by `ftruncate` leaves the file offset behind the end, the next write leaves a hole, and the file no
  longer loads: `AofFlush.AofFile.Flush` (exact condition, from the answers to write and ftruncate),
  `AofFlush.UndoneThenWritten` (the two flushes), `AofFlush.HoleInFreshFile` (an input).
* If the forced flush at a rewrite start leaves bytes in the buffer, they go to the new INCR file although
  the child's snapshot has them.
  While the rewrite runs, the directory loads if and only if the old file ends behind a command outside
  a transaction: `AofLeftover.SwitchLoads`; `AofProtocol.ShortKeptRewrite` is an input for which it does
  not. After the rewrite, the directory gives back the live dataset, whatever is fed later, if and only
  if the loader reads all of the bytes left, executes none of them and is in no transaction then:
  `AofHarmless.ExactlyHarmless`. An empty buffer is harmless; so are left MULTI, EXEC and SELECT commands
  (`AofLeftover.WholeLeftover`) and the end of a command that reads as an annotation
  (`AofLeftover.HashIsHarmless`).
* A file that was cut inside a command of an open MULTI is truncated but still does not load cleanly:
  `AofLoad.ReloadTruncated` (exact condition), `AofLoad.CutInsideMultiStaysDirty`.
* After a restart with no INCR line in the manifest the first INCR name is used again, even if it is
  listed as history: `AofManifest.RestartNameIsFresh` (exact condition),
  `AofManifest.RestartReusesHistoryName`.
* The comment above the bit field checks says that underflow returns -1; with WRAP it returns 1:
  `BitfieldOverflow.UnsignedCode` and `BitfieldOverflow.SignedCode` (exact condition),
  `BitfieldOverflow.WrappedUnderflow` (the inputs). The
  comment inside the signed check says that a wrapped `maxincr` is never used; a SET far below the
  minimum uses it and saturates to the maximum: `BitfieldOverflow.SignedSet`. A negative SET of an
  unsigned field saturates to the maximum too: `BitfieldOverflow.UnsignedSet`. Both have the exact
  condition; `BitfieldOverflow.SaturatesTheWrongWay` is the input.
* A failing SET or INCRBY on a missing or short string creates or pads it and counts no change:
  `BitfieldCommand.Perform` (exact condition), `BitfieldCommand.FailedSetCreatesKey`.
* BITCOUNT treats two negative indexes in the wrong order as an empty range. BITPOS clamps them, which
  gives the first byte or bit when both lie in front of the string and an empty range otherwise:
  `BitCount.BackwardsRange`, `BitCount.BackwardsMisses` (exact condition), `BitSearch.CountAndFind` (an
  input).
* Booking counts some stays in other rooms (`Booking.CountedSplits`), which is safe; negative
  quantities are not: `Booking.SafeExactly`.

## Model

| member | source | states |
|---|---|---|
| `Resp.ReadDigits` | redis-stable/src/aof.c:1265-1288 | a printed number that is followed by anything but a digit is read back by strtol, and by atoi while it fits an int |
| `Resp.DigitsFitLine` | redis-stable/src/aof.c:1266-1272 | every printed length fits the line buffers |
| `Resp.EncodeAllAppend` | redis-stable/src/aof.c:1265-1288 | the encoding of a log is the concatenation of the encodings of its parts |
| `Resp.CatCommand` | redis-stable/src/aof.c:1265-1288 | the buffer grows by exactly the RESP array of bulk strings of the command |
| `AofLoad.ReadArgsLoop` | redis-stable/src/aof.c:1492-1521 | the argument loop over the stream is the recursive reader, with its short reads and format errors |
| `AofLoad.ReadNext` | redis-stable/src/aof.c:1471-1521 | one line and its arguments are the specified command, annotation, end, short read or error |
| `AofLoad.LoadSingle` | redis-stable/src/aof.c:1384-1631 | the load loop computes status, executed commands and resulting file length of the specification |
| `AofLoad.CommandReadBack` | redis-stable/src/aof.c:1463-1521 | a printed command is read back whole, whatever bytes follow it |
| `AofLoad.CommandCut` | redis-stable/src/aof.c:1463-1521 | every proper part of a printed command is a short read, never a format error and never another command |
| `AofLoad.WholeIsLargest` | redis-stable/src/aof.c:1455-1573 | the number of commands wholly in front of a cut is the largest whose encoding fits |
| `AofLoad.LoadCutLog` | redis-stable/src/aof.c:1455-1612 | for every log and every cut: exactly the whole commands are executed, the status is OK iff the cut is a boundary outside MULTI, and the file is cut to those commands or back to before the open MULTI |
| `AofLoad.LoadCutLogStrict` | redis-stable/src/aof.c:1587-1612 | without aof-load-truncated the same cut fails and leaves the file alone |
| `AofLoad.LoadFullLog` | redis-stable/src/aof.c:1455-1573 | a complete log executes completely and is clean iff no transaction is open |
| `AofLoad.BackToMulti` | redis-stable/src/aof.c:1533-1573 | cutting back to the open MULTI does not change what was executed |
| `AofLoad.ReloadTruncated` | redis-stable/src/aof.c:1587-1612 | the truncated file executes the same commands again; it loads cleanly iff no transaction was open, or the cut was a boundary and the part before that MULTI is clean |
| `AofLoad.CutInsideMultiStaysDirty` | redis-stable/src/aof.c:1587-1612 | a concrete log: cut inside a command of an open MULTI, truncated, and again not clean |
| `AofFlush.WriteAppends` | redis-stable/src/aof.c:1024-1041 | a write at an offset appends iff the offset is the end of the file |
| `AofFlush.LoadThrough` | redis-stable/src/aof.c:1455-1573 | loading a log with more bytes behind it first executes the log and goes on from there |
| `AofFlush.HoleRefusesToLoad` | redis-stable/src/aof.c:1455-1573 | a file with a hole behind whole commands fails to load under every configuration |
| `AofFlush.UndoneThenWritten` | redis-stable/src/aof.c:1127-1219 | on a file without O_APPEND, a flush that is short and undone and then one that writes everything leave the buffer behind a hole as long as the undone part, and if the file held whole commands it no longer loads |
| `AofFlush.HoleInFreshFile` | redis-stable/src/aof.c:805-812 | an input: a newly opened file, one byte written and removed, then all of the buffer |
| `AofFlush.AofFile.constructor` | redis-stable/src/aof.c:836-845 | a newly opened file starts with size, offset and sync position in agreement |
| `AofFlush.AofFile.AofWrite` | redis-stable/src/aof.c:1024-1041 | for every sequence of answers, exactly as many bytes as they take in are at the write position, a prefix of the data, or nothing with -1 |
| `AofFlush.AofFile.WriteChunk` | redis-stable/src/aof.c:1028-1036 | one write lands at the end with O_APPEND and at the offset without it |
| `AofFlush.AofFile.WriteBuffer` | redis-stable/src/aof.c:1127-1219 | the outcome (full, short and undone, short and kept, failed, exit), the bytes left in the file and in the buffer, and where the next write lands, as they follow from the answers, ftruncate and the policy |
| `AofFlush.AofFile.Flush` | redis-stable/src/aof.c:1062-1263 | the outcome follows from the state and the answers; on a file in step nothing fed is lost or reordered and the next write appends, except exactly after an undone short write without O_APPEND; under fsync always a normal return means an empty buffer and everything synced, except with no-fsync-on-rewrite and a child |
| `AofFlush.AofFile.TryFsync` | redis-stable/src/aof.c:1232-1262 | under fsync always it syncs everything, is excused by a running child, or exits exactly when fsync fails |
| `AofFeed.FeedBytes` | redis-stable/src/aof.c:1309-1348 | the bytes fed are an optional SELECT and the command, and the selected database becomes the command's |
| `AofFeed.SeenAll` | redis-stable/src/aof.c:1533-1547 | a replaying client sees the log without its MULTI and EXEC brackets, in order |
| `AofFeed.FeedTargets` | redis-stable/src/aof.c:1309-1348 | every command of a fed log reaches the database it was fed for |
| `AofFeed.TargetsSplit` | redis-stable/src/aof.c:1309-1348 | replaying two logs one behind the other carries the selected database over |
| `AofFeed.ReplayFedLog` | redis-stable/src/aof.c:1309-1348 | a file fed from selected database -1 replays, from database 0, to exactly the fed items |
| `AofFeed.StaleSelectedDbMisroutes` | redis-stable/src/aof.c:2443-2450 | without resetting the selected database at a rewrite start the first command of the new file goes to database 0 |
| `AofManifest.MarkRewritten` | redis-stable/src/aof.c:492-522 | all INCR files but the open one move to the history, in order |
| `AofManifest.FinishRewrite` | redis-stable/src/aof.c:2590-2652 | a finished rewrite leaves the new BASE, the open INCR file and everything else as history |
| `AofManifest.NewIncrWellFormed` | redis-stable/src/aof.c:455-464 | a new INCR entry keeps the manifest well formed and the older entries in place |
| `AofManifest.AfterRewriteWellFormed` | redis-stable/src/aof.c:427-446 | so does a finished rewrite: one INCR file, the next BASE number, and no history name that is in use |
| `AofManifest.LiveIsNotRetired` | redis-stable/src/aof.c:668-692 | a name that history may hold is never one that a load reads |
| `AofManifest.NewNamesAreFresh` | redis-stable/src/aof.c:427-464 | new and temporary names never collide with a file that a load reads |
| `AofManifest.ParseManifestFile` | redis-stable/src/aof.c:256-382 | the line loop is the specified parser, with its duplicate, order and kind errors |
| `AofManifest.ParsePrinted` | redis-stable/src/aof.c:192-220 | parsing a printed manifest gives it back except that the INCR counter restarts from the listed INCR files |
| `AofManifest.RoundTrip` | redis-stable/src/aof.c:192-220 | with AOF on, printing and parsing are inverse |
| `AofManifest.RestartNameIsFresh` | redis-stable/src/aof.c:473-485 | the file opened after a restart is none of the history files iff an INCR file is listed or the first INCR name is not in the history |
| `AofManifest.RestartReusesHistoryName` | redis-stable/src/aof.c:713-768 | a concrete manifest whose restart appends to a history file |
| `AofDisk.LoadAppendOnlyFiles` | redis-stable/src/aof.c:1634-1757 | the load of BASE and INCR files in manifest order is the specified recovery, with its tolerance for the last file only |
| `AofDisk.HeldDiskLoads` | redis-stable/src/aof.c:1634-1757 | a disk that holds a snapshot and logs recovers to the snapshot plus the commands wholly in the files |
| `AofDisk.OtherFiles` | redis-stable/src/aof.c:668-692 | files that the manifest does not list as BASE or INCR do not matter |
| `AofDisk.PersistNewIncr` | redis-stable/src/aof.c:790-853 | listing a new empty INCR file changes nothing that a load gives |
| `AofDisk.PersistRewrite` | redis-stable/src/aof.c:2572-2724 | after the manifest swap the disk holds the child's snapshot and the open file only |
| `AofDisk.SnapshotStandsFor` | redis-stable/src/aof.c:2431-2483 | the snapshot taken behind the complete logs stands for them, whatever follows |
| `AofDisk.PersistSameFiles` | redis-stable/src/aof.c:598-608 | history lines do not matter to a load |
| `AofDisk.KeptLog` | redis-stable/src/aof.c:1587-1612 | the log that survives crash and load executes the same commands, and is one the server could have written iff no command inside an open transaction was cut |
| `AofDisk.AppendedBehindOpenMulti` | redis-stable/src/aof.c:1533-1547 | commands appended behind an open MULTI are not executed on reload until an EXEC |
| `AofDisk.ReloadedDiskHolds` | redis-stable/src/aof.c:1634-1757 | the disk after a recovery holds exactly what was recovered |
| `AofDisk.ExtendLastLog` | redis-stable/src/aof.c:1309-1348 | a file may hold any part of a log that grew since |
| `AofDisk.FeedExtendsLog` | redis-stable/src/aof.c:1309-1348 | appending a fed batch executes, on reload, exactly its data commands on their own databases after everything before |
| `AofDisk.FeedExtendsDisk` | redis-stable/src/aof.c:1309-1348 | the same for the logs on disk behind a base |
| `AofInvariant.InitialInv` | redis-stable/src/aof.c:713-768 | the empty server satisfies the invariant |
| `AofInvariant.CrashLoads` | redis-stable/src/aof.c:1634-1757 | a crash at any moment with any part of the fed bytes in the open file loads, to the dataset of the commands wholly in the file |
| `AofInvariant.AllFlushed` | redis-stable/src/aof.c:1062-1263 | with everything written that dataset is the live one |
| `AofInvariant.FeedKeeps` | redis-stable/src/aof.c:1309-1376 | feeding keeps the invariant with the dataset advanced by the batch |
| `AofInvariant.FlushKeeps` | redis-stable/src/aof.c:1062-1263 | moving bytes from the buffer to the file keeps it |
| `AofInvariant.SwitchKeeps` | redis-stable/src/aof.c:790-853 | switching to a new INCR file keeps it, given an empty buffer |
| `AofInvariant.SwapKeeps` | redis-stable/src/aof.c:2572-2724 | swapping in the child's snapshot keeps it |
| `AofInvariant.HistoryKeeps` | redis-stable/src/aof.c:668-692 | dropping the history keeps it |
| `AofInvariant.FilesKeep` | redis-stable/src/aof.c:668-692 | so does any change to files that no load reads |
| `AofInvariant.RestartKeeps` | redis-stable/src/server.c:7129-7132 | a crash and restart leads back into the invariant when the cut was clean |
| `AofInvariant.LoadedFiles` | redis-stable/src/aof.c:1587-1612 | a load cuts the last file to the log it keeps and leaves every other file |
| `AofLeftover.SwitchLoads` | redis-stable/src/aof.c:790-853 | whatever is left in the buffer, the disk after the switch loads iff the old file ends behind a command outside a transaction, and then to the commands in it |
| `AofLeftover.LoadIncrsStops` | redis-stable/src/aof.c:1701-1745 | a file cut inside a command or a transaction stops the load when another one is listed behind it |
| `AofLeftover.SwappedLoads` | redis-stable/src/aof.c:1634-1757 | after the rewrite the directory loads iff the new INCR file does, to its commands on top of the snapshot |
| `AofLeftover.ReadCommandExtends` | redis-stable/src/aof.c:1463-1521 | reading a command that is whole, an annotation or a format error does not depend on what follows |
| `AofLeftover.LeftoverIsExecutedAgain` | redis-stable/src/aof.c:2443-2450 | for every command semantics: bytes left that the loader passes without an open transaction are executed once more on the snapshot that has them, and then what was fed later |
| `AofLeftover.AfterTheSwap` | redis-stable/src/aof.c:2443-2450 | with semantics that remember every command: bytes left that are refused make the directory unloadable; bytes that pass give the live dataset iff they execute nothing; bytes that end inside a command or a transaction are cut off as long as nothing follows |
| `AofLeftover.WholeLeftover` | redis-stable/src/aof.c:2443-2450 | when the old file ends behind a command outside a transaction, the rewritten directory gives the live dataset iff only MULTI, EXEC and SELECT were left |
| `AofLeftover.HashIsHarmless` | redis-stable/src/aof.c:1478-1482 | the end of a printed command whose last argument is a hash mark passes as an annotation |
| `AofHarmless.Crossing` | redis-stable/src/aof.c:1492-1521 | when an argument reaches over the start of what was fed behind a cut command, it holds the star of the next command |
| `AofHarmless.HangingLoad` | redis-stable/src/aof.c:1455-1573 | behind a cut command, a SELECT and one more command load to a failure, to nothing new, or to a command with a star in an argument |
| `AofHarmless.Witness` | redis-stable/src/aof.c:2443-2450 | for all bytes left that are not harmless there is something to feed, at most one command, after which the directory is lost or gives another dataset |
| `AofHarmless.ExactlyHarmless` | redis-stable/src/aof.c:2443-2450 | the rewritten directory gives back the live dataset, whatever is fed later, iff the loader reads all of the bytes left, executes none of them and is in no transaction then |
| `AofHarmless.WordsAreProbes` | redis-stable/src/aof.c:2443-2450 | the data commands that this needs exist: every plain word |
| `AofProtocol.AofServer.constructor` | redis-stable/src/aof.c:713-768 | the first start passes through exactly four disks (empty, BASE, BASE and INCR, with manifest), and each loads to the empty dataset |
| `AofProtocol.AofServer.SetDisk` | redis-stable/src/aof.c:598-608 | the disk changes only by one file or the manifest at a time, and each change joins the record |
| `AofProtocol.AofServer.Feed` | redis-stable/src/aof.c:1309-1376 | the dataset advances by the batch, the buffer by its bytes, nothing else changes |
| `AofProtocol.AofServer.Flush` | redis-stable/src/aof.c:1062-1263 | in every outcome, also an exit, the disk is a crash state of the fed log, it is recorded, and so would be every disk that a crash during the write leaves; a normal outcome keeps the server valid |
| `AofProtocol.AofServer.PutFile` | redis-stable/src/aof.c:790-853 | creating, truncating or replacing a file that no load reads leaves what comes back as it is |
| `AofProtocol.AofServer.Unlink` | redis-stable/src/aof.c:668-692 | so does removing one |
| `AofProtocol.AofServer.OpenNewIncr` | redis-stable/src/aof.c:790-853 | a failure changes nothing that a load gives; success passes through two more disks, of which the first recovers, and the second iff the old file ends behind a command outside a transaction; with an empty buffer the server stays valid |
| `AofProtocol.AofServer.RewriteStart` | redis-stable/src/aof.c:2431-2483 | which of the five results it is, from the answers; the flush is recorded first and every later disk stands for the same dataset; all of them recover, except that with bytes left the last one does iff the old file ends behind a command outside a transaction |
| `AofProtocol.ShortKeptRewrite` | redis-stable/src/aof.c:2443-2450 | an input: one command fed, one byte of it written and not removed at a rewrite start, and the directory does not load |
| `AofProtocol.AofServer.SwapManifest` | redis-stable/src/aof.c:2590-2652 | the manifest swap makes the child's dataset the base, and what comes back stays the same |
| `AofProtocol.AofServer.RewriteDone` | redis-stable/src/aof.c:2572-2724 | a complete rewrite leaves the snapshot and the open file, an incomplete one leaves the manifest as it was; every disk on the way is recorded and recovers to the dataset that came back before |
| `AofProtocol.AofServer.DelHistory` | redis-stable/src/aof.c:668-692 | history collection never touches a file that a load reads, leaves BASE and INCR lists alone, and every disk on the way recovers to the same dataset |
| `AofProtocol.AofServer.Persist` | redis-stable/src/aof.c:598-608 | writing a manifest with the same BASE and INCR files changes nothing that a load gives |
| `AofProtocol.AofServer.Restart` | redis-stable/src/server.c:7129-7132 | after a crash at any byte the next process has the dataset of the commands wholly on disk, can go on iff the cut was clean, and every disk from the crash on recovers to that dataset |
| `AofProtocol.AofServer.Run` | redis-stable/src/aof.c:2431-2724 | for every run of feeds, flushes, rewrites, swaps, collections and restarts, with any answers of the system, the record of disks grows one change at a time up to the disk as it is, and every disk in it recovers to the dataset noted with it, except perhaps the last one when a rewrite start left bytes in the buffer; without a restart the dataset is the fold of what was fed; a run stops early only at a flush, a rewrite start or a restart |
| `AofProtocol.RestartFile` | redis-stable/src/aof.c:1634-1757 | what the restarted server finds in the file it appends to, exactly when that file is clean, and that a crash right after the cut recovers the same dataset again |
| `AofRuns.TouchedIsNotLive` | redis-stable/src/aof.c:427-464 | none of the names that the steps create, replace or remove is one that a load reads |
| `AofRuns.NextKeeps` | redis-stable/src/aof.c:2431-2724 | every step under the code's own guards keeps the invariant, given an empty buffer at a switch and a clean cut at a restart |
| `AofRuns.RunKeeps` | redis-stable/src/aof.c:2431-2724 | so does every sequence of steps from the first start, crashes and restarts included |
| `AofRuns.CrashAnywhere` | redis-stable/src/aof.c:1634-1757 | after any run, a crash with any part of the fed bytes in the open file leaves a disk that loads to the commands wholly in it, and to the live dataset when all bytes are there |
| `AofRuns.StepGrows` | redis-stable/src/aof.c:668-692 | one step leaves every file that the manifest on disk lists, with at least its bytes; a crash leaves a part of what was fed to the open file |
| `AofRuns.LiveFilesOnlyGrow` | redis-stable/src/aof.c:668-692 | between any two moments of any run, a file that the manifest on disk lists as BASE or INCR all the while is there and only grows, unless a crash cuts the file being written |
| `AofRuns.LeftoverSteps` | redis-stable/src/aof.c:2431-2724 | a rewrite that starts with bytes left in the buffer runs through the protocol's steps to the disk and the live dataset that `AofLeftover` and `AofHarmless` speak of |
| `AofRuns.LiveData` | redis-stable/src/aof.c:1309-1376 | before the first crash the live dataset is the fold of all data commands fed |
| `AofRuns.CutReplays` | redis-stable/src/aof.c:1455-1573 | a cut log replays to a first part of what the whole log replays to |
| `AofRuns.RecoveredIsPrefix` | redis-stable/src/aof.c:1634-1757 | with semantics that remember every command, what a crash leaves is a prefix of what was executed: nothing twice, nothing out of order |
| `AofRuns.CrashRecoversPrefix` | redis-stable/src/aof.c:1634-1757 | for every run and every byte to crash at, the commands recovered are a prefix of the commands executed, each on its own database |
| `AclRoundTrip.SetSelectorOk` | redis-stable/src/acl.c:997-1163 | any rule text, accepted or refused, keeps the selector invariant: bits outside the table equal the future commands bit, ALLCOMMANDS means all bits, first-args only where allowed; a refused rule changes nothing |
| `AclRoundTrip.ReachableOk` | redis-stable/src/acl.c:997-1163 | so does every sequence of rules, key and channel patterns among them |
| `AclRoundTrip.SetBitsAt` | redis-stable/src/acl.c:541-554 | a permission change sets exactly the bits of the commands named |
| `AclRoundTrip.ChangePermAt` | redis-stable/src/acl.c:541-554 | it reaches the command and its direct subcommands and clears its first-args |
| `AclRoundTrip.SetCategoryWithin` | redis-stable/src/acl.c:556-570 | a category changes only bits of table commands |
| `AclRoundTrip.TopRule` | redis-stable/src/acl.c:1082-1151 | the printed rule of a command does what the printer assumed |
| `AclRoundTrip.ChildRule` | redis-stable/src/acl.c:1082-1151 | likewise for a subcommand written with its parent |
| `AclRoundTrip.FirstArgRule` | redis-stable/src/acl.c:1090-1144 | a rule with a bar behind a plain command adds that first-arg |
| `AclRoundTrip.CategoryRuleMeans` | redis-stable/src/acl.c:1152-1157 | the printed category rule sets that category |
| `AclRoundTrip.ReplayFirstArgs` | redis-stable/src/acl.c:905-931 | adding listed first-args one by one rebuilds the list |
| `AclRoundTrip.ReplayTable` | redis-stable/src/acl.c:618-651 | replaying the single command rules settles every command of the table to the user's permission |
| `AclRoundTrip.DescriptionRoundTrip` | redis-stable/src/acl.c:660-773 | whatever categories are chosen, replaying a description on any selector succeeds and gives the same bitmap, the same first-args of denied commands and the same permission for every command and first argument |
| `AclSelector.Selector.SetCommandBit` | redis-stable/src/acl.c:528-537 | sets the bit; clearing one ends ALLCOMMANDS |
| `AclSelector.Selector.ChangeSelectorPerm` | redis-stable/src/acl.c:541-554 | refines the specified permission change |
| `AclSelector.Selector.SetCommandsOfCategory` | redis-stable/src/acl.c:556-570 | refines the recursive category setting over subcommands |
| `AclSelector.Selector.CountCategory` | redis-stable/src/acl.c:585-601 | counts the allowed and denied commands of a category, subcommands included |
| `AclSelector.Selector.AddAllowedFirstArg` | redis-stable/src/acl.c:905-931 | a first-arg is added once, compared without case |
| `AclSelector.Selector.Set` | redis-stable/src/acl.c:997-1163 | refines the interpreter, with its error codes |
| `AclSelector.EmitFirstArgs` | redis-stable/src/acl.c:636-646 | one rule for each first-arg, in order |
| `AclSelector.DescribeCommand` | redis-stable/src/acl.c:618-651 | own rule, subcommands, first-args, with the fake selector kept in step |
| `AclSelector.DescribeSingleCommands` | redis-stable/src/acl.c:618-651 | refines the specified list of rules and the fake selector it leaves |
| `AclSelector.BestCategory` | redis-stable/src/acl.c:707-735 | no unapplied eligible category is better than the one chosen; -1 only when there is none |
| `AclSelector.Describe` | redis-stable/src/acl.c:660-773 | the category loop ends, the panic at the end is unreachable, and the rules rebuild bitmap, first-args and permissions |
| `AclSelector.CommandIds.GetCommandID` | redis-stable/src/acl.c:1456-1481 | the same name always gets the same id, a new name a new one, and never the reserved one |
| `BlockedState.UnblockKeeps` | redis-stable/src/blocked.c:179-215 | unblocking keeps the invariant: waiter lists and key tables agree, each waiter once, no empty list, counters equal the blocked clients, the flag holds iff queued once |
| `BlockedState.BlockForKeysKeeps` | redis-stable/src/blocked.c:729-773 | so does blocking on any list of keys, with repeats |
| `BlockedState.BlockKeeps` | redis-stable/src/blocked.c:89-106 | so does blocking for WAIT, a pause or a shutdown |
| `BlockedState.DequeueKeeps` | redis-stable/src/blocked.c:127-150 | so does taking a client off the unblocked queue |
| `BlockedState.ConnectKeeps` | redis-stable/src/blocked.c:89-106 | so does a new client |
| `BlockedState.UnblockedAllIs` | redis-stable/src/blocked.c:179-215 | unblocking several clients removes exactly them from every waiter list, in place |
| `BlockedServer.Server.BlockClient` | redis-stable/src/blocked.c:89-106 | flags, counters and the postponed list change together |
| `BlockedServer.Server.BlockForKeys` | redis-stable/src/blocked.c:729-773 | the loop over the keys refines the specified blocking and keeps the invariant |
| `BlockedServer.Server.UnblockWaitingData` | redis-stable/src/blocked.c:777-811 | the client leaves every waiter list, emptied lists go, its key table is cleared |
| `BlockedServer.Server.QueueForReprocessing` | redis-stable/src/blocked.c:168-175 | a client is queued at most once |
| `BlockedServer.Server.UnblockClient` | redis-stable/src/blocked.c:179-215 | refines the specified unblocking for every type and keeps the invariant |
| `BlockedServer.Server.NextUnblocked` | redis-stable/src/blocked.c:127-150 | the queue is served in order and the flag cleared |
| `BlockedServer.Server.SignalKeyAsReady` | redis-stable/src/blocked.c:830-866 | exactly when a key is queued; a key with a waiter of the matching type or a module's is always ready afterwards, and no key is queued twice |
| `BlockedServer.Server.ServeOne` | redis-stable/src/blocked.c:285-333 | serving a receiver unblocks exactly that client; keys it makes ready keep the ready sets exact |
| `BlockedServer.Server.ServeUntilDeleted` | redis-stable/src/blocked.c:285-397 | the served clients are a prefix of the waiters of that type in blocking order, all of them unless the key went away |
| `BlockedServer.Server.ServeStream` | redis-stable/src/blocked.c:402-511 | the served clients are a subsequence of the stream waiters in blocking order; for a deleted stream exactly the group readers, in that order |
| `BlockedServer.Server.ServeKey` | redis-stable/src/blocked.c:637-683 | one ready key: exactly the served clients are unblocked, waiters of the key's type in blocking order and then the group readers; nothing becomes ready when nobody was served, no client of the key's type is left waiting unless the key ran out, and no group reader unless it holds a stream |
| `BlockedServer.Server.ServedListKey` | redis-stable/src/blocked.c:285-333 | waiters of other types stay in place and every list keeps its order |
| `BlockedServer.Server.HandleClientsBlockedOnKeys` | redis-stable/src/blocked.c:621-697 | the nested drain ends with no ready key left; every key that was ready has been handled, first and in order; the clients are those that serving these keys in turn unblocks; nobody is left waiting for what a handled key holds |
| `BlockedServer.Server.ServeList` | redis-stable/src/blocked.c:637-691 | the keys of the local list are served front to back, while its rest and the newly queued keys are exactly the ready sets |
| `BlockedServer.ServedHadWaited` | redis-stable/src/blocked.c:621-697 | serving any keys in turn keeps the invariant, changes only clients that waited for one of these keys, and adds nobody to a waiter list |
| `BlockedServer.StaysSettled` | redis-stable/src/blocked.c:621-697 | unblocking further clients never brings a waiter back |
| `BlockedServer.Server.Run` | redis-stable/src/blocked.c:89-866 | every sequence of connections, blocking commands, timeouts, written keys and event loop rounds passes through valid states only; each follows from the one before as the event says, with the ready keys: a written key is queued when announced, and a round serves the queued keys in turn and leaves none |
| `Popcount.TableIsCount` | redis-stable/src/bitops.c:44-44 | every entry of the byte table is the number of set bits of its index |
| `Popcount.CountsWord` | redis-stable/src/bitops.c:66-86 | the folding steps turn each byte of a word into its own bit count |
| `Popcount.TopOfWord` | redis-stable/src/bitops.c:80-86 | the multiplication leaves the sum of the four bytes in the top byte |
| `Popcount.SumIsPacked` | redis-stable/src/bitops.c:80-86 | up to seven packed words add without a carry between bytes, to the count of their bits |
| `Popcount.BlockCounts` | redis-stable/src/bitops.c:53-87 | a 28 byte block counts its 224 bits |
| `Popcount.Popcount` | redis-stable/src/bitops.c:40-92 | for every buffer, length and address the result is the number of set bits |
| `BitRange.FirstMaskBit` | redis-stable/src/bitops.c:838-845 | the first edge mask holds exactly the bits in front of the start bit |
| `BitRange.LastMaskBit` | redis-stable/src/bitops.c:838-845 | the last edge mask holds exactly the bits behind the end bit |
| `BitCount.BitCount` | redis-stable/src/bitops.c:796-874 | BITCOUNT is the number of set bits of the clamped byte or bit range |
| `BitCount.BackwardsRange` | redis-stable/src/bitops.c:811-833 | for negative indexes in the wrong order the clamped range is not empty iff both lie in front of the string, and then it is the first byte or bit |
| `BitCount.BackwardsMisses` | redis-stable/src/bitops.c:811-833 | exactly when the 0 returned for such indexes is not the count of the clamped range |
| `BitCount.CountBetween` | redis-stable/src/bitops.c:858-873 | whole bytes less the bits under the masks are the bits between the edges |
| `Bitpos.LoadedSkips` | redis-stable/src/bitops.c:132-142 | a word equals the skip value iff all its eight bytes do |
| `Bitpos.BuiltByte` | redis-stable/src/bitops.c:144-159 | the word built byte by byte has the first byte on top |
| `Bitpos.BuildWord` | redis-stable/src/bitops.c:144-159 | the loading loop builds the next eight bytes padded with zeros |
| `Bitpos.Scan` | redis-stable/src/bitops.c:162-185 | the bit scan finds the first bit and never reaches the panic |
| `Bitpos.Bitpos` | redis-stable/src/bitops.c:101-186 | the first such bit of the zero padded string, -1 only for a set bit that is not there, for every alignment |
| `BitSearch.SearchByte` | redis-stable/src/bitops.c:961-987 | a byte with covered bits is searched only between its edges |
| `BitSearch.Find` | redis-stable/src/bitops.c:957-987 | the three part search finds the first bit between the edges or reports that there is none |
| `BitSearch.BitPos` | redis-stable/src/bitops.c:877-1003 | BITPOS is the first such bit of the clamped range or -1; the bit behind the string counts as clear only when no end was given |
| `BitSearch.CountAndFind` | redis-stable/src/bitops.c:929-934 | an input on which BITCOUNT counts nothing and BITPOS finds the first bit |
| `Bitfield.ReadBack` | redis-stable/src/bitops.c:209-241 | the leading bits of a written field read as the leading bits of the value |
| `Bitfield.OtherField` | redis-stable/src/bitops.c:209-222 | fields that do not overlap the written one read as before |
| `Bitfield.WriteSame` | redis-stable/src/bitops.c:209-222 | writing what a field holds changes no bit |
| `Bitfield.SetUnsigned` | redis-stable/src/bitops.c:209-222 | the in place loop stores the low bits of the value and leaves every other bit |
| `Bitfield.GetUnsigned` | redis-stable/src/bitops.c:229-241 | the loop reads the field, most significant bit first |
| `BitfieldOverflow.ReducedIsUnique` | redis-stable/src/bitops.c:265-284 | the wrapped value is the only value of the type congruent to the sum |
| `BitfieldOverflow.ExtendedIsReduced` | redis-stable/src/bitops.c:357-376 | sign extension of the low bits is that reduction |
| `BitfieldOverflow.UnsignedIncr` | redis-stable/src/bitops.c:288-323 | on values of the type, overflow iff the exact sum does not fit, and the limit is the wrapped or clamped sum, in 64 bit arithmetic |
| `BitfieldOverflow.SignedIncr` | redis-stable/src/bitops.c:325-378 | likewise for signed types of up to 64 bits |
| `BitfieldOverflow.UnsignedCode` | redis-stable/src/bitops.c:265-323 | the code is 0 iff the sum fits, -1 iff it lies below the type and the policy is not WRAP, else 1 |
| `BitfieldOverflow.SignedCode` | redis-stable/src/bitops.c:325-378 | likewise for signed types |
| `BitfieldOverflow.WrappedUnderflow` | redis-stable/src/bitops.c:265-284 | inputs: an underflow with WRAP returns 1, with FAIL -1 |
| `BitfieldOverflow.UnsignedSet` | redis-stable/src/bitops.c:288-323 | for SET, overflow iff the value does not fit; WRAP and FAIL are right; SAT is right iff the value is not negative |
| `BitfieldOverflow.SignedSet` | redis-stable/src/bitops.c:325-378 | for SET, SAT is right iff the distance to the maximum fits an int64_t |
| `BitfieldOverflow.SaturatesTheWrongWay` | redis-stable/src/bitops.c:328-340 | the two inputs that saturate to the maximum |
| `BitfieldCommand.GetSigned` | redis-stable/src/bitops.c:243-263 | the two's complement value of the field |
| `BitfieldCommand.Put` | redis-stable/src/bitops.c:224-227 | a signed or unsigned value is stored modulo the width |
| `BitfieldCommand.StoredReads` | redis-stable/src/bitops.c:209-263 | a field read after a write is the value reduced to the width, and the value itself when it fits |
| `BitfieldCommand.StoreSame` | redis-stable/src/bitops.c:1172-1182 | storing the value that is there changes no bit |
| `BitfieldCommand.IncrByMeans` | redis-stable/src/bitops.c:1139-1214 | INCRBY leaves and replies the exact sum when it fits, else the wrapped or clamped one; FAIL leaves the bitmap and replies nothing |
| `BitfieldCommand.SetMeans` | redis-stable/src/bitops.c:1139-1214 | SET replies the old value and stores the new one, with the exact condition under which SAT clamps the right way |
| `BitfieldCommand.StepFrame` | redis-stable/src/bitops.c:1139-1249 | no subcommand changes a bit outside its field |
| `BitfieldCommand.GetCopied` | redis-stable/src/bitops.c:1215-1248 | GET through the nine byte copy reads the zero padded string |
| `BitfieldCommand.ExecuteOne` | redis-stable/src/bitops.c:1139-1249 | one subcommand refines the step function; a change is counted unless nothing changed |
| `BitfieldCommand.Execute` | redis-stable/src/bitops.c:1135-1249 | the subcommands in order give the specified bitmap, replies and number of changes; no counted change means no changed bit |
| `BitfieldCommand.Perform` | redis-stable/src/bitops.c:1030-1257 | replies and new value are those of the zero padded string; with no counted change the value is as before iff the string was there and long enough |
| `BitfieldCommand.FailedSetCreatesKey` | redis-stable/src/bitops.c:481-498 | a failing SET on a missing key creates it without counting a change |
| `Bitop.JoinedByte` | redis-stable/src/bitops.c:691-741 | a word operation acts on each of its bytes alone |
| `Bitop.UpdateWord` | redis-stable/src/bitops.c:691-741 | one word of the result is combined in place, the rest is untouched |
| `Bitop.FastPath` | redis-stable/src/bitops.c:683-743 | the blocks of 32 bytes done by words equal the byte by byte operation |
| `Bitop.Absorbed` | redis-stable/src/bitops.c:750-769 | an early exit on zero or on a full byte leaves what the remaining strings would leave |
| `Bitop.SlowByte` | redis-stable/src/bitops.c:747-771 | one byte of the rest, with early exits, is the operation on all strings |
| `Bitop.Lengths` | redis-stable/src/bitops.c:639-670 | the collected lengths are the longest and the shortest, with missing keys as empty strings |
| `Bitop.Bitop` | redis-stable/src/bitops.c:607-793 | BITOP is the byte by byte operation on all strings padded with zeros to the longest one; NOT of several keys is refused |
| `AdList.List.constructor` | redis-stable/src/adlist.c:42-54 | an empty list |
| `AdList.List.AddHead` | redis-stable/src/adlist.c:89-107 | the value goes in front of the contents, the links stay consistent in both directions |
| `AdList.List.AddTail` | redis-stable/src/adlist.c:115-133 | the value goes behind the contents |
| `AdList.List.Insert` | redis-stable/src/adlist.c:135-162 | the value goes directly before or after the given node |
| `AdList.List.Delete` | redis-stable/src/adlist.c:168-181 | exactly the given node leaves the list |
| `AdList.List.RotateTailToHead` | redis-stable/src/adlist.c:336-348 | the last node becomes the first |
| `AdList.List.RotateHeadToTail` | redis-stable/src/adlist.c:351-363 | the first node becomes the last |
| `AdList.List.Join` | redis-stable/src/adlist.c:367-383 | the other list's nodes go behind this list's, and the other list is empty |
| `AdList.List.Index` | redis-stable/src/adlist.c:321-333 | the node at an index from either end, null outside |
| `AdList.List.Empty` | redis-stable/src/adlist.c:57-72 | every node is freed once, in order, and the list is empty |
| `AdList.List.Search` | redis-stable/src/adlist.c:296-314 | the first matching node, null when there is none |
| `AdList.Iter.Next` | redis-stable/src/adlist.c:230-241 | the cursor moves on before the node is handed out |
| `AdList.Dup` | redis-stable/src/adlist.c:251-285 | a fresh list with the copied values in order, or null iff a value cannot be copied |
| `AdList.WalkForward` | redis-stable/src/adlist.c:216-241 | a walk that deletes nodes it is given visits every node once in order and leaves exactly the others |
| `AdList.WalkBackward` | redis-stable/src/adlist.c:216-241 | the same from the tail: the k-th node visited is the k-th from the end |
| `Timers.EventLoop.Create` | redis-stable/src/ae.c:215-236 | a new timer with the next id becomes the head of a well linked list |
| `Timers.EventLoop.Delete` | redis-stable/src/ae.c:238-249 | exactly the timer with that id is marked, nothing is unlinked |
| `Timers.EventLoop.Unlink` | redis-stable/src/ae.c:287-311 | only a timer without a running callback leaves the list; all others stay linked |
| `Timers.EventLoop.Reap` | redis-stable/src/ae.c:287-311 | a deleted timer goes exactly when no callback of it is running, whatever its finalizer creates or deletes |
| `Timers.EventLoop.Fire` | redis-stable/src/ae.c:322-336 | only a live and due timer is fired; whatever the callback does, also nested passes, the timer is still on the list afterwards and the reference counts equal the running callbacks |
| `Timers.EventLoop.Reschedule` | redis-stable/src/ae.c:329-335 | for every value a callback returns: the timer becomes due that many milliseconds after a fresh reading of the clock, or is marked deleted |
| `Timers.EventLoop.Round` | redis-stable/src/ae.c:283-338 | one round frees, fires or skips the timer under the cursor and moves the cursor to the next older timer that is still on the list |
| `Timers.EventLoop.Process` | redis-stable/src/ae.c:276-340 | the cursor stays on the list, no timer fires twice in a pass, none that was created after it began; every older timer still on the list was reached, and none of them is live and due from before the pass unless its callback asked for a time in the past; the check against newer ids never applies |
| `Crc16.TableIsRemainder` | redis-stable/src/crc16.c:47-80 | every table entry is its index shifted through the polynomial register |
| `Crc16.TableStepFeeds` | redis-stable/src/crc16.c:82-88 | one round of the loop feeds the eight bits of a byte |
| `Crc16.FeedBitsDivides` | redis-stable/src/crc16.c:32-46 | the shift register computes the remainder of long division |
| `Crc16.Crc` | redis-stable/src/crc16.c:82-88 | for every message the result is the remainder of the message times x^16 modulo x^16 + x^12 + x^5 + 1 |
| `Booking.OverlapIsCounted` | app/models/booking.rb:5-6 | a stay that covers one of the wanted days in the room is counted |
| `Booking.BookedIsCounted` | app/models/booking.rb:5-6 | what is booked in a room on any wanted day is at most what is counted |
| `Booking.CountedSplits` | app/controllers/bookings_controller.rb:10-10 | what is counted is what overlaps in the room plus certain stays of other rooms |
| `Booking.CreateKeeps` | app/controllers/bookings_controller.rb:6-27 | a booking of a non-negative quantity keeps every room within its capacity on every day |
| `Booking.DestroyKeeps` | app/controllers/bookings_controller.rb:29-33 | a cancellation keeps it too |
| `Booking.RunKeeps` | app/controllers/bookings_controller.rb:6-33 | so does every sequence of requests |
| `Booking.NegativeQuantityOverbooks` | app/controllers/bookings_controller.rb:11-11 | a negative quantity hides a later booking: one place is booked in a room with none |
| `Booking.SafeExactly` | app/controllers/bookings_controller.rb:6-33 | all runs with quantities of at least m stay within capacity iff m is not negative |
| `Booking.Hotel.CreateStay` | app/controllers/bookings_controller.rb:6-27 | the first room that fits is booked, and a room is found iff some room fits |
| `Booking.Hotel.SumCounted` | app/controllers/bookings_controller.rb:10-10 | the sum of the quantities that the query selects |
| `Booking.Hotel.DestroyStay` | app/controllers/bookings_controller.rb:29-33 | the stay with that id goes; an unknown id changes nothing |

## Left out

- AOF states other than on: turning AOF on or off at run time and waiting for the first rewrite are not modelled.
- AOF timestamps: annotation lines are read and skipped, but no feed writes them.
- RDB files: a snapshot is an opaque value of the dataset; the RDB preamble of an AOF file is not modelled.
- Manifest text: lines are records; quoting and escaping of file names are not modelled.
- Persisting the manifest: it replaces the file or fails before it; an error reported after the rename is not modelled.
- AofLoad.ReadArgsLoop: a negative bulk length is a format error here; the code would pass it to the allocator.
- AofProtocol.AofServer.Run: stops at the first event outside the protocol's guarantee, that is an exit, an undone short write without O_APPEND, a rewrite start with a non-empty buffer, or an unclean cut; the lemmas listed above say what these cost.
- AofProtocol.AofServer.RewriteStart: says that the server is valid afterwards only when the forced flush emptied the buffer; `AofLeftover`, `AofHarmless` and `AofRuns.LeftoverSteps` say what follows otherwise.
- AofHarmless.ExactlyHarmless: needs two data commands that the server knows and may run on the databases 0, 1 and 2; with fewer databases or commands there may be nothing to feed that shows a loss.
- ACL: passwords, key and channel patterns, selectors in parentheses, loading of ACL files, and command tables that change between rules.
- ACL bitmap: a sequence of 1024 booleans; the packing into 64 bit words is not modelled.
- Blocked clients: module clients' own callbacks, the replies to WAIT, statistics, and what the pop and push commands do to the values.
- BlockedServer.Server.ServeOne: whether a pop deletes the key is an arbitrary answer.
- BitCount.BitCount: a missing key is an empty string, which gives the same reply.
- BITCOUNT, BITPOS, BITFIELD and BITOP argument parsing and type errors; SETBIT and GETBIT.
- Bitop.Bitop: the source's four loops, one for each operation, are one loop with a choice inside.
- BitfieldOverflow.UnsignedIncr: widths up to 63, as the type argument admits; the branch for 64 unsigned bits is unreachable from the command.
- Timers.EventLoop.Callback: passes nest at most `depth` deep, for any depth; a finalizer that starts a pass itself is left out, because the saved successor may then be gone.
- Timers.EventLoop.Reschedule: the delay in microseconds is not cut to 32 bits.
- Timers: the conversion of a new timer's delay to a due time, the search for the nearest timer, and file events.
- AdList: allocation failure, and the free method applied to values.
- Booking.Hotel.CreateStay: times of day, concurrent requests, and changes to rooms are left out; ids count requests.
- Booking.RunKeeps: room capacities are taken to be non-negative.
- Everything else in the Rails application and in Redis (networking, replication, cluster, scripting, data types, configuration): it would only add easier members, or it is socket and parser plumbing.
