# Fossilize, modelled and proved in Dafny

Fossilize records the Vulkan objects an application creates, stores them in archives and replays
them later, in parallel and across crashes. This project models the parts of it that carry
invariants, in the form the C++ has (classes whose methods update fields, loops, in-place array
work, state machines for what runs concurrently), and proves properties of whole runs.
`dafny verify dfyconfig.toml` checks everything.

## What is modelled

- **Stream archive** (`ArchiveFormat`, `ArchiveRecovery`, `ArchivePayload`, `StreamArchive`,
  `ArchiveSession`, `ArchiveDamage`). The `.foz` file is a byte sequence with a cursor; `fwrite` overwrites at the
  cursor. The log grammar, the rescan, the cut tail, appending to a cut file, framing, reading, and
  sessions from a fresh file to the two-call read. Deflate and CRC are a `Codec` with one law,
  `Sound`: inflating undoes deflating.
- **Merge and concurrent database** (`ArchiveMerge`, `ConcurrentDatabase`, `DatabaseSession`).
- **Replay scheduler** (`Schedule`, `Scheduler`, `SchedulerSafety`, `ReplayOrder`,
  `DeferredPipelines`). The passes, their order, the shared queue with any number of workers, the four
  memory contexts, arena resets. What the dispatcher knows from its synchronisation calls is an abstract interpretation of its
  operation list; it is proved sound for every interleaving.
- **Futex lock and shared ring** (`Futex`, `Ring`). Any number of threads; one step per atomic operation
  or system call. The ring has 32-bit counters that wrap.
- **Object cache** (`IntrusiveList`, `ObjectCache`, `CacheRecency`). The linked list, the map, the size
  total and the pool of entries on the heap refine one recency-ordered sequence.
- **Recorder and replayer** (`Recorder`, `RecorderIntegrity`, `Derivatives`, `ScratchArena`, `Base64`,
  `ShaderBlob`, `Varint`).
- **Prune** (`Prune`, `PruneReachability`) and **master process** (`Master`).

`Words` and `Wrappers` hold fixed-width arithmetic, bit masks and small datatypes.

## Where the code does not do what one would expect

Each of these is stated as an exact condition, in the member named.

- A write that fails after its name was written (a raw blob shorter than a header, a failed
  compression) leaves a dangling name. A later rescan takes the next name for a header that announces
  0x30303030 bytes and, if fewer follow, finds nothing behind it, although later writes reported success
  (`ArchiveSession.NothingBehindDanglingName`, `ArchiveSession.RescanFindsSurvivors`). README.md:62
  promises robustness to cut writes; this is not a cut write.
- An archive that was cut exactly behind the header of its last record is not rewound, so the next
  record is swallowed as the payload of the cut one
  (`ArchiveRecovery.AppendFoundIffNotCutAtHeader`, and `ArchiveRecovery.CutAtHeaderLoses` for an instance).
- A checksum of 0 is stored as if none had been asked for, so a payload whose checksum is 0 is not
  protected (`ArchivePayload.DamageIsNoticed`, `ArchiveDamage.ReadDamaged`).
- Opening an empty file read-only fails, because the magic is written to it
  (`StreamArchives.StreamArchive.Prepare`).
- The capacity comparison of the ring compares two wrapped sums; it is right exactly if both wrapped
  or neither did (`Ring.AcceptanceIsExact`, and `Ring.AcceptsTooMuch` for an instance).
- The comment at cli/fossilize_replay.cpp:1943-1944 says all work that needs shader modules is drained
  when the module cache is pruned. A run in which it is not exists exactly if a trailing group of one
  chunk runs right behind a group of two (`SchedulerSafety.PruneSeesNoCreation`,
  `SchedulerSafety.StragglerPrunesUnderCreation`).
- Sorting the deferred pipelines loses the split when no slot holds a plain pipeline
  (`DeferredPipelines.SortDeferredDerivedPipelines`).
- Whether a document parses can depend on the order of its pipelines. It parses in every order exactly
  if each of them resolves by itself (`Derivatives.EveryOrderExactly`); a base that is only in the
  database, and whose own base is only in the document, does not (`Derivatives.OrderCanMatter`).
- Immutable samplers on a binding that takes none are stored as raw handles, and a handle is known even
  if its write was lost (`RecorderIntegrity.StepExactly`, with `RecorderIntegrity.RawHandleDangles` and
  `RecorderIntegrity.LostWriteDangles` for instances).
- If the first archive of a concurrent database that has a key cannot decode its blob, another archive is
  asked for a blob of the size the first one announced (`ConcurrentDatabases.ConcurrentDatabase.TwoCallRead`).
- The ranges of the master process tile the pipelines exactly if processes times pipelines does not
  overflow 32 bits (`Master.RangesTileExactly`).

## Model

| member | source | states |
|---|---|---|
| Futex.InvStep | platform/futex_wrapper_linux.hpp:42-73 | every atomic step of any thread keeps mutual exclusion (including the window between the decrement and the store of 0), "word is 0 iff nobody holds", and the cover of sleepers |
| Futex.HoldersStep | platform/futex_wrapper_linux.hpp:61-72 | at most one thread is in the critical section or in the unlock window, and the word is 0 exactly when there is none |
| Futex.CoverStep | platform/futex_wrapper_linux.hpp:47-57 | no wake-up is lost: if a thread sleeps, the word is 2, or an unlocker is still to wake one, or an awake contender can only leave by making or seeing the word 2 |
| Futex.SafetyFromInit | platform/futex_wrapper_linux.hpp:42-73 | the invariant holds after every run of any number of threads from the unlocked state |
| Futex.FinishingDecreases | platform/futex_wrapper_linux.hpp:42-73 | once no thread newly asks for the lock, every step lowers a well-founded measure |
| Futex.FinishingEnabled | platform/futex_wrapper_linux.hpp:42-73 | while a thread is not done, some such step is possible: no deadlock, nobody sleeps forever |
| Futex.EveryDrainCompletes | platform/futex_wrapper_linux.hpp:42-73 | so from every reachable state every drain ends with all threads idle |
| Futex.UncontendedIsFast | platform/futex_wrapper_linux.hpp:42-73 | without contention, locking and unlocking is one atomic operation each and no system call |
| Ring.SharedControlBlock.constructor | fossilize_external_replayer_control_block.hpp:69-75 | a ring of a size that passes the power-of-two test starts empty and in step |
| Ring.SharedControlBlock.ReadAvail | fossilize_external_replayer_control_block.hpp:78-82 | the wrapped difference of the counters is the number of bytes in the FIFO |
| Ring.SharedControlBlock.WriteAvail | fossilize_external_replayer_control_block.hpp:84-93 | the free room if the wrapped counters are on the same lap, and 0 if they are not |
| Ring.SharedControlBlock.Read | fossilize_external_replayer_control_block.hpp:95-122 | succeeds iff enough bytes are there; takes exactly the oldest bytes of the FIFO, across the wrap; a failed read changes nothing |
| Ring.SharedControlBlock.Write | fossilize_external_replayer_control_block.hpp:124-149 | accepted iff the wrapped comparison says so; an accepted write that fits appends its bytes to the FIFO; a refused one changes nothing |
| Ring.SharedControlBlock.AdvanceOffset | fossilize_external_replayer_control_block.hpp:119-120 | the mask form advances an offset modulo the ring size and keeps it equal to the masked counter, also when the counter wraps |
| Ring.SharedControlBlock.PollMessages | fossilize_external_replayer_linux.hpp:136-144 | the poll loop returns exactly the whole messages in the FIFO, in order, and leaves less than one message |
| Ring.MessagesAreAll | fossilize_external_replayer_linux.hpp:136-144 | the messages, one after the other, and what is left are all the bytes, and every message has the message size |
| Ring.WindowSplit | fossilize_external_replayer_control_block.hpp:108-117 | a window of the ring is the concatenation of its two parts at any split |
| Ring.StoreExtends | fossilize_external_replayer_control_block.hpp:135-144 | storing behind the used window extends it by the data, also across the wrap |
| Ring.OffsetAdvances | fossilize_external_replayer_control_block.hpp:119-120 | masked offsets follow masked counters modulo the power-of-two size |
| Ring.AcceptanceIsExact | fossilize_external_replayer_control_block.hpp:133-135 | the acceptance test means "it fits" if and only if both sums of the comparison are on the same lap |
| Ring.AcceptsTooMuch | fossilize_external_replayer_control_block.hpp:133-135 | an instance of the other case: a full ring just below the wrap accepts another message |
| Ring.DeliveredInOrder | fossilize_external_replayer_linux.hpp:136-144 | over any run of sends and polls in which the test is exact, what was polled and what is still in the ring are exactly the accepted messages in order |
| Ring.BoundedRunIsExact | fossilize_external_replayer_control_block.hpp:133-135 | it does not happen while at most 2^32 - 1 - size bytes pass through the ring |
| Ring.Drive | fossilize_external_replayer_linux.hpp:136-144 | the control block itself, driven through such a run of `Write` and `PollMessages`, delivers what it accepted, in order, except what is still in the ring |
| Words.MaskIsRemainder | fossilize_external_replayer_control_block.hpp:119 | masking with size - 1, bit by bit, is reduction modulo a power of two |
| Words.PowerOfTwoTest | cli/fossilize_replay_linux.hpp:427 | the test (n & (n - 1)) == 0 accepts exactly the powers of two among positive numbers |
| Words.OrDisjoint | varint.cpp:98 | or-ing a multiple of a power of two into something smaller is adding it |
| ArchiveFormat.Le32RoundTrip | fossilize_db.cpp:817-850 | little-endian conversion is a bijection between words and four bytes |
| ArchiveFormat.HeaderRoundTrip | fossilize_db.cpp:832-859 | header encoding and parsing are inverse in both directions |
| ArchiveFormat.HeaderLayout | fossilize_db.cpp:832-859 | a header is four little-endian words in the order payload size, format, checksum, uncompressed size |
| ArchiveFormat.NameRoundTrip | fossilize_db.cpp:721-735 | the hexadecimal name of every tag and hash parses back to them |
| ArchiveFormat.NameOfDigits | fossilize_db.cpp:887-889 | a name is the 24 hexadecimal digits of the tag and the 16 of the hash, most significant first, in lower case |
| ArchiveFormat.ReadsLikeStrtoull | fossilize_db.cpp:721-731 | other names are read as strtoull does: leading space, sign, 0x prefix, end at the first other character, saturation |
| ArchiveFormat.NameAsHeader | fossilize_db.cpp:892-897 | a name read in place of a header announces 0x30303030 payload bytes |
| ArchiveFormat.FirstOfEncode | fossilize_db.cpp:692-741 | in front of anything, an encoded record scans as that record and leaves the rest |
| ArchiveFormat.EncodeOfFirst | fossilize_db.cpp:692-741 | what the scan takes off, encoded again, is what was there |
| ArchiveFormat.ScanOfEncode | fossilize_db.cpp:692-741 | scanning an encoded log followed by anything yields its records and then those of the rest |
| ArchiveFormat.EncodeOfScan | fossilize_db.cpp:692-741 | every byte string is the encoding of the records scanned from it, followed by its tail |
| ArchiveFormat.ScanOfWhole | fossilize_db.cpp:692-741 | a whole log scans back to its records without a tail |
| ArchiveFormat.WholeIsEncoding | fossilize_db.cpp:692-741 | conversely, a log without a tail is the encoding of its records |
| ArchiveFormat.AppendOne | fossilize_db.cpp:887-943 | appending an encoded record to a whole log adds exactly that record |
| ArchiveRecovery.ViewIsFirst | fossilize_db.cpp:733-738 | a key is known exactly if a record stands for it, and means what the first such record holds |
| ArchiveRecovery.IndexDenotesView | fossilize_db.cpp:721-740 | the offsets and headers the rescan stores denote exactly the first record of each key |
| ArchiveRecovery.ScanIndexDenotesView | fossilize_db.cpp:721-740 | the same for a whole file behind its magic |
| ArchiveRecovery.IndexOffsets | fossilize_db.cpp:721-740 | every stored offset lies inside the log, behind a name and a header |
| ArchiveRecovery.WholeIsMaximal | fossilize_db.cpp:714-719 | the number of records wholly inside a prefix is the largest that fits |
| ArchiveRecovery.CrashPrefix | fossilize_db.cpp:692-741 | every prefix of a well-formed log rescans to exactly the records wholly inside it |
| ArchiveRecovery.CutLog | fossilize_db.cpp:692-741 | the same for any log, well-formed or already cut |
| ArchiveRecovery.CrashAnywhere | fossilize_db.cpp:677-741 | cutting any archive anywhere: 16 bytes or more open and hold exactly the records wholly inside; shorter ones are refused |
| ArchiveRecovery.AppendAfterCut | fossilize_db.cpp:743-747 | appending to a cut archive leaves the old records, the new ones, and then what is left of the cut tail; if the new bytes cover the tail, exactly old plus new |
| ArchiveRecovery.AppendKeepsOldAndNew | fossilize_db.cpp:733-747 | no stale tail byte shadows an old or a new record: the first insertion wins |
| ArchiveRecovery.AppendFoundIffNotCutAtHeader | fossilize_db.cpp:743-747 | the first new record is found at its own offset if and only if the cut tail is not exactly a name and a header long |
| ArchiveRecovery.SwallowedByHeader | fossilize_db.cpp:743 | cut exactly behind a header, whatever is appended, no new key is found at the place where it was written |
| ArchiveRecovery.CutAtHeaderLoses | fossilize_db.cpp:743-747 | instances: any archive of one record with a payload, cut behind the header, loses the first record appended |
| ArchiveRecovery.OldIsKept | fossilize_db.cpp:677-747 | whatever is appended to whatever archive, cut anywhere, no entry that was there is lost or changed |
| ArchivePayload.EncodeRecordFor | fossilize_db.cpp:887-943 | a name followed by a proper frame is one record |
| ArchivePayload.FrameExists | fossilize_db.cpp:877-930 | a write fails exactly if a raw blob is shorter than a header or the compression fails; a raw blob is stored as it is |
| ArchivePayload.FrameHeader | fossilize_db.cpp:912-943 | what is stored is the blob or its compression, with the format word that says which, both sizes, and the checksum of the stored payload exactly if it was asked for |
| ArchivePayload.FramedDecodes | fossilize_db.cpp:899-943 | for any compression and checksum flags a framed blob decodes to itself, if and only if its size fits 32 bits |
| ArchivePayload.DecodeExactly | fossilize_db.cpp:987-1086 | a payload decodes exactly if it matches its checksum, if it has one, its format is known, and what comes out has the announced size |
| ArchivePayload.DamageIsNoticed | fossilize_db.cpp:1002-1062 | a checksummed payload that no longer matches is not decoded, unless its checksum is 0 |
| ArchivePayload.TwoCallRead | fossilize_db.cpp:779-811 | querying the size and reading with it decodes the stored blob |
| ArchiveDamage.DamagedFile | fossilize_db.cpp:692-741 | overwriting the payload of a record in the file changes that record and no other |
| ArchiveDamage.ReadDamaged | fossilize_db.cpp:861-1086 | write with a checksum, damage the stored bytes, reopen, read: nothing is returned; but if the checksum was 0 a plain blob is read back damaged |
| StreamArchives.StreamArchive.constructor | fossilize_db.cpp:573-610 | a new archive is not open and knows no key |
| StreamArchives.StreamArchive.Prepare | fossilize_db.cpp:618-768 | which files open in which mode, what is then known of them, and where the cursor stands |
| StreamArchives.StreamArchive.ScanRecord | fossilize_db.cpp:694-740 | one turn of the scan takes one record, or stops at the incomplete one and says where appending begins |
| StreamArchives.StreamArchive.ScanRecords | fossilize_db.cpp:689-741 | the scan loop stores exactly the first-wins index and stops where the tail begins |
| StreamArchives.StreamArchive.Scan | fossilize_db.cpp:677-747 | after the scan the cursor is where the model of appending puts it |
| StreamArchives.StreamArchive.WriteEntry | fossilize_db.cpp:861-949 | a known key writes nothing; a new one is appended and known afterwards; a failed one leaves its name behind |
| StreamArchives.StreamArchive.WriteFrame | fossilize_db.cpp:887-949 | exactly the bytes of name, header and payload are written at the cursor |
| StreamArchives.StreamArchive.QuerySize | fossilize_db.cpp:779-797 | the size a read of the key will return, raw or decoded |
| StreamArchives.StreamArchive.ReadEntry | fossilize_db.cpp:770-815 | the stored blob, decoded or raw, exactly if the size passed is the size queried |
| StreamArchives.StreamArchive.ReadRaw | fossilize_db.cpp:800-806 | header and payload as stored |
| StreamArchives.StreamArchive.DecodePayload | fossilize_db.cpp:987-1086 | the decoded payload, or nothing if the format, the checksum or the size is wrong |
| StreamArchives.StreamArchive.HasEntry | fossilize_db.cpp:951-956 | in a file being read, exactly the keys that some record of it stands for and the filter allows; in one being written, exactly those of the log written so far; a closed one has none |
| StreamArchives.StreamArchive.HashList | fossilize_db.cpp:958-985 | strictly increasing, and exactly the known hashes of the tag |
| StreamArchives.InsertedIsIndex | fossilize_db.cpp:733-738 | inserting record after record where no entry is yet gives the first-wins index |
| StreamArchives.FilteredView | fossilize_db.cpp:131-142 | a filter leaves of a log what is no shader module or pipeline, and of these what is on the whitelist and not on the blacklist |
| ArchiveSession.NothingBehindDanglingName | fossilize_db.cpp:887-930 | a rescan finds nothing of what is written from a failed write on, if and only if it is shorter than the 0x30303030 bytes that the dangling name announces |
| ArchiveSession.RescanFindsSurvivors | fossilize_db.cpp:861-949 | a rescan of a session of any length finds the first write of each key before the first failed write, and nothing else if and only if what dangles is contained |
| ArchiveSession.SessionSplits | fossilize_db.cpp:861-949 | a session is the log of its writes up to the first that fails, and what dangles behind it |
| ArchiveSession.SurvivorsDecode | fossilize_db.cpp:861-1086 | each of them decodes to the blob passed, for any mix of flags |
| ArchiveSession.WriteAll | fossilize_db.cpp:861-949 | a session writes exactly the names and frames of its writes at the cursor, wherever that is |
| ArchiveSession.RecordSession | fossilize_db.cpp:618-949 | a fresh file holds the magic and then the session |
| ArchiveSession.ReadBack | fossilize_db.cpp:618-815 | reopened read-only, the two-call read returns the decoded first record of the key |
| ArchiveSession.SessionRoundTrip | fossilize_db.cpp:618-1086 | writing, reopening and reading returns exactly the first blob written per key, or nothing |
| ArchiveSession.SessionView | fossilize_db.cpp:618-1086 | the same as a statement about the bytes |
| ArchiveSession.AppendSession | fossilize_db.cpp:618-949 | a session on an archive found on disk, cut or not, overwrites it from the append cursor on |
| ArchiveSession.AppendedRecords | fossilize_db.cpp:692-747 | the records of such a file: the old ones, those of the session, and what is read behind them |
| ArchiveSession.AppendedSession | fossilize_db.cpp:618-949 | reopened after a crash and written to, any archive keeps every old entry, and unless it was cut right behind a header it has the first blob of every new key |
| ArchiveSession.AppendRoundTrip | fossilize_db.cpp:618-1086 | the same through the two-call read: crash, reopen, write, reopen, read |
| ArchiveMerge.UnionIsFirstWins | fossilize_db.cpp:1352-1392 | the union has exactly the keys of its parts, and for each key the entry of the base, else of the earliest source |
| ArchiveMerge.MergeConcurrentDatabases | fossilize_db.cpp:1352-1392 | for any archive on disk, cut or not: merging succeeds iff it and every source open and can be transferred, and the result means the first-wins union; only records hidden in a cut tail that is not covered can add to it; an archive cut right behind a header keeps what it had |
| ArchiveMerge.MergeSources | fossilize_db.cpp:1357-1390 | the sources are added in order, so earlier ones win |
| ArchiveMerge.MergeSource | fossilize_db.cpp:1359-1389 | one source adds exactly its entries, keys already there win |
| ArchiveMerge.CopyAll | fossilize_db.cpp:1365-1389 | all tags of a source are transferred |
| ArchiveMerge.CopyTag | fossilize_db.cpp:1367-1388 | all entries of a tag are transferred, with their meaning |
| ArchiveMerge.CopyEntry | fossilize_db.cpp:1377-1387 | a raw read followed by a raw write keeps header and payload |
| ArchiveMerge.Transfer | fossilize_db.cpp:877-897 | a raw write stores the frame as it is, unless the key is there already |
| ConcurrentDatabases.ConcurrentDatabase.constructor | fossilize_db.cpp:1090-1136 | nothing is prepared, and no two archives are the same |
| ConcurrentDatabases.ConcurrentDatabase.Prepare | fossilize_db.cpp:1163-1195 | every archive holds what is on disk, or is closed if that does not open; the primed hashes are exactly those found there that the filter allows; append mode lets the archives go |
| ConcurrentDatabases.ConcurrentDatabase.PrimeReadOnlyHashes | fossilize_db.cpp:1145-1161 | opens one archive and adds exactly its allowed hashes |
| ConcurrentDatabases.ConcurrentDatabase.HasEntry | fossilize_db.cpp:1252-1265 | answers exactly for what is primed, in an archive or written |
| ConcurrentDatabases.ConcurrentDatabase.WriteEntry | fossilize_db.cpp:1214-1250 | keeps primed and written hashes disjoint; a key that is there already is not written; a new one puts its name and the frame of the blob passed at the end of the file being written, and nothing else |
| ConcurrentDatabases.ConcurrentDatabase.WriteNew | fossilize_db.cpp:1246-1247 | the file grows by exactly name and frame, its log by that record, and its keys by that key |
| ConcurrentDatabases.ConcurrentDatabase.CreateWriteOnly | fossilize_db.cpp:1230-1245 | at most one write-only archive is ever made, and its name is the least free one |
| ConcurrentDatabases.ConcurrentDatabase.QuerySize | fossilize_db.cpp:1197-1212 | the size query: the first archive that has the key answers, base before extras |
| ConcurrentDatabases.ConcurrentDatabase.ReadEntry | fossilize_db.cpp:1197-1212 | the read: the first archive that has a blob of the size asked for returns it |
| ConcurrentDatabases.ConcurrentDatabase.TwoCallRead | fossilize_db.cpp:1197-1212 | both calls: for a listed key, what the first archive that has it decodes it to; if it does not decode there, a blob of the announced size from an archive behind it |
| ConcurrentDatabases.ConcurrentDatabase.HashList | fossilize_db.cpp:1267-1299 | strictly increasing and exactly the hashes that has_entry answers for |
| ConcurrentDatabases.ListedIsReadable | fossilize_db.cpp:1197-1212 | in read-only mode every listed hash has a first archive that holds it; that one announces the size, and the read with it gives what was said |
| ConcurrentDatabases.FirstReadIs | fossilize_db.cpp:1197-1212 | a read returns the decoded blob of the first archive that has one of that size |
| ConcurrentDatabases.FirstReadNone | fossilize_db.cpp:1197-1212 | and nothing if there is none |
| DatabaseSessions.WriteThrough | fossilize_db.cpp:1214-1250 | a session through the database leaves a file of the magic and the session's bytes, without what the database had |
| DatabaseSessions.Open | fossilize_db.cpp:1163-1195 | a database over archives on disk has exactly the keys that one of them has |
| DatabaseSessions.OpenAndRead | fossilize_db.cpp:1163-1212 | it answers what the first archive that has the key decodes it to |
| DatabaseSessions.RecordAndRead | fossilize_db.cpp:1163-1250 | recording through a database over any archives, then opening all of them and the new file: old keys read as before, each new key reads the first blob passed for it, others nothing |
| Schedule.OrderIsLexicographic | cli/fossilize_replay.cpp:1883-1887 | the order index orders by group, then pass, then context: every pass of a group before the next pass, every group before the next |
| Schedule.EnqueueDeferredPipelines | cli/fossilize_replay.cpp:1889-2144 | exactly the passes a number of hashes needs are queued, each once, with their order index |
| Schedule.ScheduleIsSorted | cli/fossilize_replay.cpp:2935-2940 | the schedule is strictly sorted and holds exactly the queued passes |
| Schedule.SortedIsUnique | cli/fossilize_replay.cpp:2935-2940 | two sorted lists of the same passes are equal, so the sort has one result |
| Schedule.SortedWorkIsSchedule | cli/fossilize_replay.cpp:2935-2945 | sorting what was queued gives the schedule |
| Scheduler.InvStep | cli/fossilize_replay.cpp:1017-1027 | what the dispatcher knows from its calls stays true under every step of every thread |
| Scheduler.CountStep | cli/fossilize_replay.cpp:2195-2201 | queued minus completed stays the number of queued and running items, for every context |
| Scheduler.OutstandingCounts | cli/fossilize_replay.cpp:421-457 | a synchronisation that passes leaves nothing outstanding in its context |
| Scheduler.Safety | cli/fossilize_replay.cpp:960-1027 | both hold over every run, for any number of workers and any list of calls, and what will be known at its end does not change |
| Scheduler.WorkIsTakenInOrder | cli/fossilize_replay.cpp:960-1027 | over any run, workers take the items in the order in which they were enqueued |
| SchedulerSafety.ReplayIsSafe | cli/fossilize_replay.cpp:1899-2143 | the calls of every replay recycle an arena only when its context is drained, create only when the context and the shader modules are, and are quiet at every cache maintenance if and only if no straggler follows a pair |
| SchedulerSafety.ArenasAreSafe | cli/fossilize_replay.cpp:1898-1905 | in every run, an arena is reset only when no queued or running item carries its context, every outstanding item belongs to the current owner of its arena, and once the calls are over nothing is outstanding |
| SchedulerSafety.CreationsWait | cli/fossilize_replay.cpp:1984-2075 | in every run, while pipelines are being enqueued for creation no shader module is outstanding, and of their context only creations of the same chunk are |
| ReplayOrder.ChunkIsReplayed | cli/fossilize_replay.cpp:1894-2143 | every chunk is parsed once; its context is drained, shader modules are loaded and waited for, it is created; then the parents of its group are created, both contexts and the parents are waited for, and its derived pipelines are created; nowhere else is it parsed or created |
| ReplayOrder.ParentsAreReplayed | cli/fossilize_replay.cpp:2003-2073 | the parents of every group are created once, after they were parsed and their shader modules loaded |
| ReplayOrder.EveryItemIsOfAChunk | cli/fossilize_replay.cpp:1894-2143 | nothing else is parsed or created |
| ReplayOrder.CreationsArePrepared | cli/fossilize_replay.cpp:1964-2073 | wherever a replay creates, it has parsed the same items, drained their context, loaded modules and waited for them, in this order |
| SchedulerSafety.PruneSeesNoCreation | cli/fossilize_replay.cpp:1939-1960 | without a straggler the module cache is pruned only when no creation and no module work is outstanding |
| SchedulerSafety.StragglerPrunesUnderCreation | cli/fossilize_replay.cpp:1939-1960 | with one, there is a run in which it is pruned while a creation is outstanding |
| SchedulerSafety.NeverStuck | cli/fossilize_replay.cpp:421-457 | while the dispatcher has calls left and there is a worker, some step is possible |
| DeferredPipelines.Sort | cli/fossilize_replay.cpp:1817-1824 | plain pipelines first, each part by increasing index, nothing lost |
| DeferredPipelines.SortDeferredDerivedPipelines | cli/fossilize_replay.cpp:1815-1843 | both parts are by increasing index; the split leaves exactly the plain pipelines and exactly the non-empty derived ones if and only if there is no slot or some slot is plain |
| DeferredPipelines.SplitIsExact | cli/fossilize_replay.cpp:1826-1842 | splitting a sorted list behind its last plain slot separates the kinds exactly |
| DeferredPipelines.UnstableRemoveIf | cli/fossilize_replay.cpp:157-171 | terminates, permutes and partitions by the predicate |
| DeferredPipelines.EnqueueDerived | cli/fossilize_replay.cpp:2089-2139 | exactly those whose parent is known are enqueued, and enqueued plus skipped is all of them |
| IntrusiveLists.IntrusiveList.Erase | util/intrusive_list.hpp:131-148 | unlinks exactly one node of a well-formed list and returns the next |
| IntrusiveLists.IntrusiveList.InsertFront | util/intrusive_list.hpp:150-162 | links a node in front of a well-formed list |
| IntrusiveLists.IntrusiveList.MoveToFront | util/intrusive_list.hpp:164-168 | moves one node, keeps the others in order |
| IntrusiveLists.LinkedEverywhere | util/intrusive_list.hpp:131-168 | the chain is well linked exactly if its nodes are distinct and each points to both neighbours |
| IntrusiveLists.ObjectPool.Allocate | util/object_pool.hpp:38-57 | an entry that was vacant or is new, and is vacant no more |
| IntrusiveLists.ObjectPool.Free | util/object_pool.hpp:59-63 | the entry is vacant again |
| ObjectCaches.ObjectCache.constructor | util/object_cache.hpp:35-48 | empty |
| ObjectCaches.ObjectCache.FindObject | util/object_cache.hpp:51-59 | finds exactly the cached hashes and moves what it finds to the front of the recency order |
| ObjectCaches.ObjectCache.InsertObject | util/object_cache.hpp:97-109 | the new object comes first; list, map, total and pool agree again |
| ObjectCaches.ObjectCache.TakeEntry | util/object_pool.hpp:38-57 | the pool never hands out an entry that is still listed |
| ObjectCaches.ObjectCache.EvictLast | util/object_cache.hpp:66-76 | takes the least recently used entry out of list, map and total and back to the pool |
| ObjectCaches.ObjectCache.PruneCache | util/object_cache.hpp:61-77 | terminates and removes exactly the shortest least recently used suffix that brings the total to the target, in that order; nothing if all fits, and what goes last did not fit |
| ObjectCaches.KeptIsUnique | util/object_cache.hpp:61-77 | there is only one longest part of the contents that meets the target, so the result of a pruning is determined |
| ObjectCaches.ObjectCache.DeleteCache | util/object_cache.hpp:79-95 | everything is deleted once, most recently used first, and the total is 0 |
| ObjectCaches.TotalWithout | util/object_cache.hpp:67-68 | taking an item out takes its size and its hash out of the sums |
| ObjectCaches.FindsEvicted | util/object_cache.hpp:72-73 | erasing the evicted hash from the map leaves exactly the other entries |
| CacheRecency.ContentsAreInOrderOfLastUse | util/object_cache.hpp:51-109 | over any run of insertions, look-ups, prunings and deletions the contents are in the order of last use |
| CacheRecency.Drive | util/object_cache.hpp:51-109 | the cache itself, driven through any such run, holds exactly what the run leaves, in that order |
| ScratchArena.AlignUpIsNext | fossilize.cpp:3161 | the mask form gives the first multiple of a power of two not below the offset |
| ScratchArena.ScratchAllocator.AddBlock | fossilize.cpp:3139-3144 | adds an empty block of at least 64 KiB and keeps every piece |
| ScratchArena.ScratchAllocator.TakeFromLast | fossilize.cpp:3159-3168 | a piece is taken exactly if it fits the last block |
| ScratchArena.ScratchAllocator.AllocateRaw | fossilize.cpp:3154-3172 | all pieces since the last reset stay in bounds, aligned in their block and disjoint; the retry succeeds at depth one |
| ScratchArena.ScratchAllocator.Reset | fossilize.cpp:3174-3189 | frees all pieces, keeps the first block and the reported peak |
| ScratchArena.ScratchAllocator.GetPeakMemoryConsumption | fossilize.cpp:3191-3202 | reports exactly the largest footprint there has ever been |
| ScratchArena.FootprintAdds | fossilize.cpp:3191-3202 | the footprint is the sum of the block sizes |
| ScratchArena.PieceFits | fossilize.cpp:3161-3167 | a piece behind everything in the last block is clear of all others |
| Base64.LetterRoundTrip | fossilize.cpp:4495-4507 | the alphabet and its inverse agree, and no letter is padding or NUL |
| Base64.LetterIsAscii | fossilize.cpp:4495-4507 | the alphabet of section 4 of RFC 4648 |
| Base64.SextetsInverse | fossilize.cpp:4525-4528 | the six-bit digits of a group determine it |
| Base64.GroupLayout | fossilize.cpp:4509-4545 | a group holds the 24 bits of its bytes six at a time from the top, with padding for missing bytes |
| Base64.BytesLayout | fossilize.cpp:1217-1238 | four characters give the bytes of their 24 bits from the top, one less for each padding character |
| Base64.GroupRoundTrip | fossilize.cpp:1217-1238 | one to three bytes, padded, encoded and decoded, are themselves |
| Base64.RoundTrip | fossilize.cpp:1179-1243 | decoding undoes encoding and writes exactly the length of the data (section 4 of RFC 4648), whatever follows the encoding |
| Base64.EncodeBase64 | fossilize.cpp:4509-4545 | the loop computes the encoding |
| Base64.DecodeBase64 | fossilize.cpp:1179-1243 | the loop writes what the decoding function says |
| Varint.WordRoundTrip | varint.cpp:49-81 | every 32-bit word is read back from its group |
| Varint.GroupLayout | varint.cpp:49-81 | seven bits a byte, lowest first, the top bit on all bytes but the last, and no byte more than needed |
| Varint.RoundTrip | varint.cpp:49-104 | decoding undoes encoding and consumes all of it |
| Varint.OneLengthOnly | varint.cpp:83-104 | no strict prefix and no strict extension of an accepted buffer is accepted for that word count |
| Varint.AcceptedExactly | varint.cpp:83-104 | accepted are exactly the buffers of n groups of at most five bytes with nothing behind them |
| Varint.EncodingIsShortest | varint.cpp:49-104 | re-encoding what an accepted buffer decodes to is never longer |
| Varint.ComputeSizeVarint | varint.cpp:27-47 | the computed size is the length of the encoding |
| Varint.EncodeVarint | varint.cpp:49-81 | writes the encoding at the front of the buffer and nothing else |
| Varint.DecodeOne | varint.cpp:88-100 | reads one group, or fails at the end of the buffer or behind five bytes |
| Varint.PartsDoNotOverlap | varint.cpp:98 | the seven bits of a byte do not overlap what was read before, so or-ing them in adds them |
| Varint.DecodeVarint | varint.cpp:83-104 | succeeds exactly on accepted buffers and stores the decoded words |
| ShaderBlob.SplitExactly | fossilize.cpp:2848-2858 | document and payload come apart at the first NUL exactly if the document has none, whatever the payload holds |
| ShaderBlob.Split | fossilize.cpp:2848-2858 | the search for the NUL computes that split |
| ShaderBlob.ModuleRoundTrip | fossilize.cpp:5605-5639 | a serialised shader module parses to its header and its words |
| ShaderBlob.LoadsAtOffset | fossilize.cpp:1387-1404 | the code is found at whatever offset the document says |
| ShaderBlob.CutModuleFails | fossilize.cpp:1387-1404 | a blob cut behind its document loads only if the module has no code |
| Derivatives.OrderedAt | fossilize.cpp:2353-2491 | call by call: no pipeline is created twice, and each one after its base, with the handle of that base |
| Derivatives.StateReplayer.EnqueueCreate | fossilize.cpp:2489-2493 | a creation that follows the rules keeps them |
| Derivatives.StateReplayer.ParseFromDatabase | fossilize.cpp:2366-2397 | the blob of a base is parsed; it succeeds exactly if the base is in the database and resolvable there |
| Derivatives.StateReplayer.ResolveBase | fossilize.cpp:2353-2401 | succeeds exactly if the base is resolvable, and then it is replayed |
| Derivatives.StateReplayer.ParsePipeline | fossilize.cpp:2338-2496 | terminates on any acyclic relation, creates exactly the missing part of the chain of bases, base first |
| Derivatives.StateReplayer.ParsePipelines | fossilize.cpp:2498-2505 | creates exactly the chains of the document, each pipeline once, and succeeds exactly if they resolve in turn |
| Derivatives.ChainReplayed | fossilize.cpp:1823-1824 | the bases below a replayed pipeline are replayed too |
| Derivatives.ReplayedParses | fossilize.cpp:2403-2490 | nothing is created whose create info does not parse |
| Derivatives.ClosedDocumentResolves | fossilize.cpp:2353-2365 | in a document that has the bases of all its pipelines everything resolves, whatever the database has |
| Derivatives.AloneExactly | fossilize.cpp:2366-2397 | a pipeline alone in its document resolves exactly if the database has all the bases below it |
| Derivatives.EveryOrderWorks | fossilize.cpp:1966-1973 | one direction of that, whatever was replayed before |
| Derivatives.EveryOrderExactly | fossilize.cpp:1966-1973 | a document parses in every order of its pipelines if and only if each of them resolves by itself |
| Derivatives.OrderCanMatter | fossilize.cpp:1838-1866 | a base in the database whose base is only in the document is found in one order and not in the other |
| Recorder.StateRecorder.RemapHandles | fossilize.cpp:4016-4023 | the hash of each handle in its place, or nothing if one is unknown |
| Recorder.StateRecorder.RemapBindings | fossilize.cpp:3997-4014 | binding by binding, immutable samplers are remapped in place where the binding takes samplers; nothing if one is unknown |
| Recorder.StateRecorder.RemapInfo | fossilize.cpp:3997-4077 | every hash is in the field and at the place of its handle, and nothing else changes; or nothing |
| Recorder.StateRecorder.RecordItem | fossilize.cpp:4171-4482 | the effect of one item on handles and database |
| Recorder.StateRecorder.RecordTask | fossilize.cpp:4116-4484 | the loop records the queue up to the first null item |
| RecorderIntegrity.RemappedExactly | fossilize.cpp:3997-4065 | an item is remapped exactly if everything it depends on was recorded |
| RecorderIntegrity.TakenExactly | fossilize.cpp:4171-4482 | an item is taken exactly if a hash is known for it, all it depends on was recorded, and it could be copied; the caller's hash goes first |
| RecorderIntegrity.NextExactly | fossilize.cpp:4297-4341 | what a taken item changes: its handle is known by its hash, and its info is stored if it is to be written, is new and is kept |
| RecorderIntegrity.RunInOrder | fossilize.cpp:4116-4168 | items are recorded one after the other in the order of the queue |
| RecorderIntegrity.RemappedRefers | fossilize.cpp:3997-4065 | what a remapped create info names is the hash of a recorded handle, or a raw handle |
| RecorderIntegrity.StepExactly | fossilize.cpp:4297-4341 | for any database: recording an item keeps "stored infos name stored hashes" and "every handle's hash is stored" if and only if the item is not taken, its hash is stored already, or it is written and kept and names no raw handle |
| RecorderIntegrity.RecordingKeepsIntegrity | fossilize.cpp:4116-4484 | both hold after every recording, whatever is recorded in whatever order |
| RecorderIntegrity.UnknownIsDropped | fossilize.cpp:4305-4309 | an item with an unknown dependency leaves no trace |
| RecorderIntegrity.StoredStays | fossilize.cpp:4318-4328 | what is stored is never overwritten or lost |
| RecorderIntegrity.LostWriteDangles | fossilize.cpp:4189-4198 | an instance: the write of a sampler is lost, and the set layout that names it dangles |
| RecorderIntegrity.RawHandleDangles | fossilize.cpp:3997-4014 | an instance: an immutable sampler on a binding that takes none dangles |
| Prune.Replayer.constructor | cli/fossilize_prune.cpp:60-87 | nothing is marked |
| Prune.Replayer.SetCurrentApplicationInfo | cli/fossilize_prune.cpp:103-108 | a blob belongs if its application is the chosen one, or none is chosen |
| Prune.Replayer.NotifyApplicationInfoLink | cli/fossilize_prune.cpp:110-122 | which blobs and links a link lets through |
| Prune.Replayer.FilterObject | cli/fossilize_prune.cpp:197-216 | decides what the selection says |
| Prune.Replayer.AllowGraphics | cli/fossilize_prune.cpp:252-270 | no banned stage, and one stage asked for |
| Prune.Replayer.AccessDescriptorSet | cli/fossilize_prune.cpp:135-155 | marks a set layout and its samplers; the early exit loses nothing |
| Prune.Replayer.AccessPipelineLayout | cli/fossilize_prune.cpp:157-169 | marks a layout and everything below it; the early exit loses nothing |
| Prune.InSetLayoutsIn | cli/fossilize_prune.cpp:165-168 | all set layouts of a pipeline layout count, whatever their place |
| Prune.InSamplersIn | cli/fossilize_prune.cpp:143-154 | all immutable samplers of a set layout count but the null handle |
| Prune.RetainsExactly | cli/fossilize_prune.cpp:197-282 | in terms of the command line: not banned, asked for if any is, no banned module, a module asked for if any is, of the chosen application or linked to it |
| Prune.Replayer.EnqueueCreateComputePipeline | cli/fossilize_prune.cpp:228-244 | a pipeline is retained exactly if filters and modules let it through, and then everything it names is marked |
| Prune.Replayer.EnqueueCreateGraphicsPipeline | cli/fossilize_prune.cpp:246-282 | the same for graphics pipelines |
| Prune.Replayer.EnqueueCreateDescriptorSetLayout | cli/fossilize_prune.cpp:171-176 | loading a set layout late keeps the marks complete exactly if it is not marked or its samplers are |
| Prune.Replayer.EnqueueCreatePipelineLayout | cli/fossilize_prune.cpp:178-183 | the same for pipeline layouts |
| PruneReachability.MarkedIsReachable | cli/fossilize_prune.cpp:130-282 | marked is exactly what a path of references between create infos reaches from a retained pipeline |
| PruneReachability.RetainedAreMarked | cli/fossilize_prune.cpp:228-282 | the pipelines that are marked are the retained ones |
| PruneReachability.ReachableStep | cli/fossilize_prune.cpp:130-169 | reachability by paths, one step at a time |
| PruneReachability.NoBannedModule | cli/fossilize_prune.cpp:262-270 | no marked module is banned |
| PruneReachability.InLinks | cli/fossilize_prune.cpp:110-122 | a pipeline is linked exactly if links count, an application is chosen, and one of its links names the pipeline |
| PruneReachability.InRetained | cli/fossilize_prune.cpp:228-282 | a pipeline is retained exactly if one of its callbacks passes the selection |
| PruneReachability.Playback | cli/fossilize_prune.cpp:440-531 | in the order of playback, exactly the pipelines the command line selects are retained and the marks are complete |
| Master.Requested | cli/fossilize_replay_linux.hpp:449-485 | in every case, how many pipelines are split and from where, also if the end of the request is before its start |
| Master.BoundDivides | cli/fossilize_replay_linux.hpp:550-553 | the bounds are the wrapped quotients of the source |
| Master.RangesTile | cli/fossilize_replay_linux.hpp:547-553 | without overflow the ranges start at the offset, follow one another, end at its end, and differ in size by at most one |
| Master.LastEndsRightExactly | cli/fossilize_replay_linux.hpp:551 | from any offset, the last range ends right exactly if the product does not overflow |
| Master.RangesTileExactly | cli/fossilize_replay_linux.hpp:547-553 | the ranges start right, follow one another and end right exactly then |
| Master.EveryIndexHasOneChild | cli/fossilize_replay_linux.hpp:547-553 | every requested pipeline is in the range of exactly one child |
| Master.NothingIsLost | cli/fossilize_replay_linux.hpp:547-553 | the sizes of the ranges add up to what was requested |
| Master.SplitRanges | cli/fossilize_replay_linux.hpp:547-560 | each child gets its range of graphics and of compute pipelines |
| Master.ProcessProgress.StartChildProcess | cli/fossilize_replay_linux.hpp:292-302 | a child is started exactly if something is left |
| Master.ProcessProgress.Parse | cli/fossilize_replay_linux.hpp:98-190 | what each message changes, and what is passed on through the shared ring |
| Master.ProcessProgress.ProcessMessages | cli/fossilize_replay_linux.hpp:192-205 | of the messages a child left, the last progress of each kind counts, and all are passed on in order |
| Master.LastCounts | cli/fossilize_replay_linux.hpp:98-190 | the progress that counts is that of the last message of its kind |
| Master.ForwardedInOrder | cli/fossilize_replay_linux.hpp:98-205 | what is passed on keeps the order of the messages |
| Master.ProcessProgress.ProcessShutdown | cli/fossilize_replay_linux.hpp:207-278 | a retry happens exactly if the child crashed cleanly, told both indices and has something left, and goes on where it said |
| Master.RestartShrinksExactly | cli/fossilize_replay_linux.hpp:264-277 | a restart leaves less to do exactly if a creation had begun, and never more |
| Master.RestartsAreBounded | cli/fossilize_replay_linux.hpp:252-277 | if every crash follows a begun creation, there are at most as many restarts as there were pipelines |

## Left out

- Vulkan itself, device setup, layers, the JSON fields of create infos and their hashes: the JSON of a
  shader module is an abstract writer and reader (`ShaderBlob.Json`), hashing is an arbitrary function.
- Deflate and CRC: a codec with the one law that inflating undoes deflating.
- Files: a failing `fopen`, short reads and writes, flushing, and the fallback that truncates when
  "r+b" fails. The filter lists (whitelist, blacklist) are given as sets of keys.
- ArchiveMerge.MergeConcurrentDatabases: of an archive cut right behind a header nothing is promised for the merged
  entries, only that the old ones stay. "Succeeds iff" holds as long as no payload is within 16 bytes of
  4 GiB; there the raw size wraps in 32 bits and the original reads past its buffer.
- StreamArchives.StreamArchive.ReadRaw: payloads within 16 bytes of 4 GiB are answered with nothing, for the same reason.
- ArchiveSession.SessionRoundTrip: if a write of the session fails and 0x30303030 bytes or more follow it, what is
  found of the keys behind it is not said, only that it is not nothing (`ArchiveSession.RescanFindsSurvivors`).
- ArchiveSession.AppendedSession: records that a rescan finds in stale bytes behind the session may add keys that
  neither the archive nor the session had; they never shadow one that is there.
- Repeated crashes during the same recovered append: mixed old and new payload bytes are told apart
  only by the optional checksum.
- Futex, Scheduler: time-outs, spurious wake-ups of condition variables and the memory model are not
  modelled; a wait is a step that is enabled when its condition holds. The counters of the scheduler are
  unbounded.
- Scheduler: what is in an arena is an owner tag. The module context, which workers recycle item by item,
  has no owner.
- SchedulerSafety.StragglerPrunesUnderCreation: the run it gives lets the pass in question emit a creation, that
  is, the chunk has derived pipelines whose parents are known.
- Failing reads in a parse work item, which leave a stale slot behind.
- DeferredPipelines.Sort: the library sort is an insertion sort on values.
- IntrusiveLists.ObjectPool.Allocate: a failing `malloc`; the doubling of the block size is unbounded.
- IntrusiveLists.Entry: hash, object and size are one field of the entry.
- ScratchArena.ScratchAllocator.AllocateRaw: sizes are unbounded, so `size + alignment` does not overflow; where a
  block lies in memory is not modelled, alignment is within the block.
- Base64.DecodeBase64: writing past the buffer when length and padding of a foreign string disagree.
- ShaderBlob.Parse: offset and size do not overflow 64 bits.
- Varint.DecodeVarint: what the output holds after a failure.
- Derivatives.StateReplayer.ParsePipeline: one kind of pipeline at a time; whatever else can fail in a create info is
  an arbitrary predicate. Graphics and compute differ only in the check for a null handle.
- Recorder.StateRecorder.RecordItem: the seven handle maps are one map keyed by kind; application links, flushing and
  the variant without a database are left out.
- Prune: copying the marked entries, which is a raw transfer as in merging, and the inverted mode. Base
  pipelines are not part of the relation.
- Master: pipes, signals and polling; messages are parsed values, and the shared ring is the list of what was
  passed on. That a replay reaches every pipeline
  across crashes is not claimed: work is reordered within chunks.
- `path.cpp`, progress accounting, the ZIP and folder archives, command-line parsing, logging.
