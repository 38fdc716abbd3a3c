# Models of WCDB's database engine

WCDB bundles SQLCipher (a build of SQLite) and a repair kit that reads damaged database files.  The
files here are Dafny models of the parts of that C code with the most state and the most branching,
and proofs about them.  `dafny verify dfyconfig.toml` checks them all.

| files | modelled code |
|---|---|
| BtMutex, BtMutexThread | the recursive mutexes on shared B-trees: all threads as one state machine, and one thread's code as a class |
| BitvecHash, Bitvec | sets of page numbers as a bitmap, a hash table or a tree of smaller sets |
| BackupImage, Backup, BackupRuns, BackupRetry | the online backup: byte offsets, the backup object, whole runs beside a changing source, and runs that have to wait for it |
| PrefixGroups, ChangeColumns, Stat4Samples, Stat4Counts, Stat4Choice, Stat4Picks, Stat4Accum, AnalyzeIndex, StatText | ANALYZE: finding the changed columns, counting prefixes in one pass, keeping a bounded list of samples (the STAT4 build) that is the one a description by groups determines, and the texts that hold the result |
| DropTable, WithoutRowid, Affinity | three algorithms of the schema code |
| Complete, CompleteText, CompleteGrammar | the scanner and automaton that decide whether an SQL text is complete, how its text is cut into tokens, and the form of the texts they accept |
| RepairBytes, RepairRecord, RepairCell, RepairPages, RepairTrees, RepairRuns, RepairFormat, RepairIndex, RepairGuard, RepairKit | the repair kit: numbers, records, cells with overflow chains, pages, the guarded walk over a damaged tree, what it finds of a tree and of the bytes that the format writes, what it misses of an index, and where its guard fails |
| Arith, Common, SqlText | division and multiples, and shared definitions |

Where the C code changes things step by step, the model is a class or a method with loops.  Such a
method is proved against a function or predicate on values, and the lemmas are about that.

## What the model assumes

* Allocation succeeds, and pointers to objects are valid.
* Calls into the pager, the file system and other threads are parameters: each may give any result
  that the calling code allows for.
* Btree mutexes: every thread holds the mutex of its own connection, and the sharable Btrees of a
  connection are listed by increasing address.  An idle thread that still holds mutexes may leave.
  `sqlite3_mutex_try` may fail at any time.
* Bitvec: the sizes of a 64-bit build.  Where `iSize + BITVEC_NPTR - 1` wraps, a bitvec must not come to
  subdivide itself; `DivisorZeroIffWraps` says that this is exactly what subdividing needs.
* Backup: the page sizes are powers of two that divide the pending byte; the source is not empty.
  The new page-1 header that the commit writes comes from outside.
* ANALYZE: rows are compared by an order on integers in place of collations, no two rows are equal
  (the rowid or primary key is among the columns), and there are fewer rows than 2^32 and no more
  than were announced to `stat_init`.  The numbers are right for indices whose emitted comparisons tell
  all rows apart; `ReportedExactly` says that this is exactly what they have to do.
* Repair kit: the size of the pages is given, up to 65536 bytes.  A read outside of a buffer, which C
  leaves undefined, ends the parse with FAULT.  The walk over a damaged file relies on the overflow
  chains it comes to ending, and leading to no interior page of the walk (`Tame`).  A tree written by
  the format always meets this; `LoopEndsExactly` and `GuardFails` show what happens otherwise.

## Where the code and its comments differ

* `sqlite3BtreeEnterAll` does not enter in ascending order of addresses, as its comment says, but in
  the order of `aDb[]`.  `NoDeadlock` holds all the same.
* `sqlite3_backup_step` moves to the next page also when reading or copying a page reports BUSY or
  LOCKED.  The page is then not copied, and the backup may still be DONE (`BusyPageIsSkipped`).
  `BusyReadStays` says when such a page matches all the same: if and only if the destination had the
  right bytes already.
* A backup is attached to its source only by a step that returns OK.  If the first step copies
  everything and its commit reports BUSY, later writes to the source are not reported, and the next
  step may be DONE with old content (`BusyCommitGoesStale`, `UnreportedWriteStays`).  `RunFrom` says
  that in all other runs a finished backup is complete.
* `analyzeOneTable` takes all rows of an index of one UNIQUE column to be distinct after the first value
  that is not NULL.  In a descending index NULLs come last, and two of them are then counted as distinct
  (`DescendingNulls`); `UniqueTellsApart` gives the exact condition.
* `sqliterkParseVarint64` gives seven bits to a ninth byte, where the format gives it eight
  (`VarintRoundTrip`, `LongVarintIsMisread`).
* `sqliterkBtreeParsePage` reads the right-most child of page 1 from the file header
  (`PageOneLosesLast`).
* It takes the header of an interior index page to be as short as that of a leaf and to have no
  right-most child.  The format gives both kinds of interior pages 12 bytes and that child
  (`btreeInt.h:113` and `:134`).  No interior index page is found with its children
  (`IndexInteriorDecodes`), and the pages below are left out of the walk from the root
  (`IndexChildrenAreMissed`); an index of one leaf is treated as meant (`IndexLeafOnItsOwn`).
* It takes a leaf without a cell for damage, although the format allows it and every empty table has one
  (`LeafDecodes`, `IndexLeafDecodes`).
* It reads cell pointers as signed numbers, so that those from 32768 on, which pages of 65536 bytes can
  have, lead before the page (`PointerRead`, `InteriorDecodes`).
* Its guard against cycles is undone by an overflow chain that leads to a page being parsed
  (`GuardFails`).

## Model

| member | source | states |
|---|---|---|
| `BtMutex.StepKeepsInv` | Example/Pods/WCDB/sqlcipher/src/btmutex.c:27-152 | Whatever one atomic step of one thread does (a call begins, a try-lock that succeeds or fails, one release, one blocking enter, one re-lock), every handle is flagged locked exactly when its thread holds the mutex, BtShared.db is then that thread's connection, and the flags are those its counts and its place in the call demand |
| `BtMutex.RunKeepsInv` | Example/Pods/WCDB/sqlcipher/src/btmutex.c:27-203 | The same in every state of every run of any number of connections |
| `BtMutex.BlockedHoldsSmaller` | Example/Pods/WCDB/sqlcipher/src/btmutex.c:99-137 | A thread that waits for a mutex holds only mutexes of smaller address |
| `BtMutex.WaitAddrIncreases` | Example/Pods/WCDB/sqlcipher/src/btmutex.c:63-69 | Along the wait-for relation the awaited addresses strictly increase |
| `BtMutex.NoWaitCycle` | Example/Pods/WCDB/sqlcipher/src/btmutex.c:63-69 | The wait-for graph has no cycle |
| `BtMutex.NotWaitingRuns` | Example/Pods/WCDB/sqlcipher/src/btmutex.c:71-152 | A thread inside a call can take its next step exactly if it does not wait for a taken mutex |
| `BtMutex.BlockedReachesMover` | Example/Pods/WCDB/sqlcipher/src/btmutex.c:63-69 | From a blocked thread the chain of owners ends in a thread that is not blocked and can move |
| `BtMutex.NoDeadlock` | Example/Pods/WCDB/sqlcipher/src/btmutex.c:181-194 | No reachable state is a deadlock, although EnterAll visits the Btrees in the order of aDb[] and not of their addresses |
| `BtMutex.CallTakesEffect` | Example/Pods/WCDB/sqlcipher/src/btmutex.c:71-203 | When a call returns, under any interleaving: Enter has added one to the count of its Btree and Leave has taken one away, EnterAll and LeaveAll have done so for each Btree of aDb[], all other counts are as they were, and every Btree is locked, owned and marked with its connection exactly when its count is positive |
| `BtMutex.AllEffect` | Example/Pods/WCDB/sqlcipher/src/btmutex.c:186-203 | EnterAll adds one to the count of every Btree in aDb[] and LeaveAll takes one away; all the calls are legal |
| `BtMutex.EnterAllHoldsAll` | Example/Pods/WCDB/sqlcipher/src/btmutex.c:186-226 | When EnterAll returns, HoldsAllMutexes is true |
| `BtMutex.LeaveUndoesEnter` | Example/Pods/WCDB/sqlcipher/src/btmutex.c:71-203 | LeaveAll undoes EnterAll, and Leave undoes Enter, from any counts |
| `BtMutexThread.Connection.LockBtreeMutex` | Example/Pods/WCDB/sqlcipher/src/btmutex.c:27-35 | The blocking lock: the handle becomes locked, nothing else changes, and the mutex is above all that are held |
| `BtMutexThread.Connection.UnlockBtreeMutex` | Example/Pods/WCDB/sqlcipher/src/btmutex.c:41-50 | The handle, and no other, becomes unlocked and its mutex is given back |
| `BtMutexThread.Connection.BtreeLockCarefully` | Example/Pods/WCDB/sqlcipher/src/btmutex.c:105-137 | Whether the try succeeds or not, at the end exactly the wanted handles are locked, and every blocking lock on the way was for an address above all that were held |
| `BtMutexThread.Connection.BtreeEnter` | Example/Pods/WCDB/sqlcipher/src/btmutex.c:71-97 | One count rises by one and the handles are locked exactly where counts are positive |
| `BtMutexThread.Connection.BtreeLeave` | Example/Pods/WCDB/sqlcipher/src/btmutex.c:143-152 | One count falls by one and the handles are locked exactly where counts are positive |
| `BtMutexThread.Connection.BtreeEnterAll` | Example/Pods/WCDB/sqlcipher/src/btmutex.c:186-194 | Every Btree of aDb[] is entered once, and all their mutexes are held |
| `BtMutexThread.Connection.BtreeLeaveAll` | Example/Pods/WCDB/sqlcipher/src/btmutex.c:195-203 | Every Btree of aDb[] is left once |
| `BtMutexThread.Connection.HoldsAllMutexes` | Example/Pods/WCDB/sqlcipher/src/btmutex.c:212-226 | True exactly if every sharable Btree of aDb[] is wanted and its mutex is held |
| `BitvecHash.ProbeMiss` | Example/Pods/WCDB/sqlcipher/src/bitvec.c:144-151 | A probe that meets only other values and then a free slot shows that the value is not in the table |
| `BitvecHash.InsertKeepsTable` | Example/Pods/WCDB/sqlcipher/src/bitvec.c:201-231 | Storing an absent value in the first free slot of its probe sequence keeps every value reachable from its home slot and adds exactly this value |
| `BitvecHash.UsedIsSize` | Example/Pods/WCDB/sqlcipher/src/bitvec.c:96-98 | The number of used slots is the number of distinct values |
| `BitvecHash.FreeSlot` | Example/Pods/WCDB/sqlcipher/src/bitvec.c:192-205 | A table that is not full has a free slot, so that every probe loop stops |
| `BitvecModule.DivisorZeroIffWraps` | Example/Pods/WCDB/sqlcipher/src/bitvec.c:219 | The 32-bit sum wraps exactly if the divisor becomes zero; exactly then subdividing is not possible |
| `BitvecModule.DivisorCovers` | Example/Pods/WCDB/sqlcipher/src/bitvec.c:219 | Otherwise the bins together cover the whole range and each is smaller than it, so that the recursion ends |
| `BitvecModule.Bitvec.constructor` | Example/Pods/WCDB/sqlcipher/src/bitvec.c:115-123 | A new bitvec is the empty set |
| `BitvecModule.Bitvec.TestNotNull` | Example/Pods/WCDB/sqlcipher/src/bitvec.c:130-152 | True exactly for the members of the set, and false for 0 and for numbers above iSize |
| `BitvecModule.Bitvec.Set` | Example/Pods/WCDB/sqlcipher/src/bitvec.c:169-232 | The set gains exactly i, in the bitmap, hash and recursive forms, also when the form changes in the middle of the insertion |
| `BitvecModule.Bitvec.Subdivide` | Example/Pods/WCDB/sqlcipher/src/bitvec.c:209-227 | Becoming an array of sub-bitvecs keeps every old entry and adds the new one |
| `BitvecModule.Bitvec.Store` | Example/Pods/WCDB/sqlcipher/src/bitvec.c:228-231 | The new entry goes to a free slot and the count of entries stays right and below BITVEC_NINT |
| `BitvecModule.Bitvec.Clear` | Example/Pods/WCDB/sqlcipher/src/bitvec.c:240-272 | The set loses exactly i, and no object is added to or dropped from the structure |
| `BitvecModule.Bitvec.ClearInHash` | Example/Pods/WCDB/sqlcipher/src/bitvec.c:255-270 | Emptying the table and inserting all other values again removes exactly i |
| `BitvecModule.Bitvec.HashCount` | Example/Pods/WCDB/sqlcipher/src/bitvec.c:96-98 | nSet is the number of distinct entries and at most BITVEC_NINT-1 |
| `BitvecModule.ReplayMeaning` | Example/Pods/WCDB/sqlcipher/src/bitvec.c:337-400 | After a program of Set and Clear operations a number is in the set exactly if it was set and not cleared since |
| `BitvecModule.RunProgram` | Example/Pods/WCDB/sqlcipher/src/bitvec.c:337-400 | For any program of operations on a new bitvec and any number, sqlite3BitvecTest gives that answer, and false for 0 and for numbers above the size |
| `BackupModule.Locate` | Example/Pods/WCDB/sqlcipher/src/backup.c:288-297 | The destination page and the offsets in both pages for one turn of the loop; together they are the same absolute offset |
| `BackupModule.TruncateCovers` | Example/Pods/WCDB/sqlcipher/src/backup.c:483-516 | nDestTruncate is positive, and when the destination's pages are the larger ones the truncated image covers the source or ends just before the pending-byte page, as the code asserts |
| `BackupModule.Backup.BackupOnePage` | Example/Pods/WCDB/sqlcipher/src/backup.c:227-316 | On success every byte of the page is at its own file offset in the destination, but for the page-count field and the destination's pending-byte page; a failure leaves the pieces before the one that failed, and no byte outside of the page changes with any outcome |
| `BackupModule.Backup.PutPiece` | Example/Pods/WCDB/sqlcipher/src/backup.c:295-310 | One piece is put in place, with the page-count field if it is the first of the file |
| `BackupModule.Backup.CopyPages` | Example/Pods/WCDB/sqlcipher/src/backup.c:424-435 | Without an error it copies nPage pages or all that are left, and then every page below iNext is in the destination; a BUSY or LOCKED ends it with the page whose read or copy reported it, and only that, added to the missed ones; that page has its new bytes up to the piece that failed and its old ones from there on, and pages missed before keep their bytes |
| `BackupModule.Backup.Finish` | Example/Pods/WCDB/sqlcipher/src/backup.c:451-575 | If it reports DONE the destination matches the source outside of the header, the source's pending-byte page and the missed pages, and its length is exact: that of the source, or, if the source has the smaller pages, that of the file so far with the pages written behind the pending byte, cut to the source's; the missed pages keep their bytes whatever is reported |
| `BackupModule.Backup.WriteExtra` | Example/Pods/WCDB/sqlcipher/src/backup.c:539-554 | The source pages that lie in the destination's pending-byte page are written at their own offsets |
| `BackupModule.Backup.Step` | Example/Pods/WCDB/sqlcipher/src/backup.c:351-600 | After anything but OK, BUSY and LOCKED it returns the same again and changes nothing.  Otherwise: BUSY during a write transaction on the source, else the result of the read transaction, NOMEM from the page size, the result of the destination's transaction, or READONLY for a WAL destination of another page size, whichever is first, and then nothing but the lock and the page size can have changed; else nPage pages or all that are left are copied, the counts are set, and it is DONE exactly when nothing is left and the destination matches; no page becomes missed but the one whose read or copy reports BUSY or LOCKED, missed pages keep their bytes, and the result is that of the first page that fails or of the commit |
| `BackupModule.Backup.BackupUpdate` | Example/Pods/WCDB/sqlcipher/src/backup.c:693-717 | A page already copied is copied again with its new content; if that fails the backup fails for good and cannot be DONE |
| `BackupModule.Backup.SourceWrite` | Example/Pods/WCDB/sqlcipher/src/backup.c:693-720 | A write to the source keeps every copied page current: with the backup attached the page is no longer missed, otherwise exactly this page becomes missed if it was copied |
| `BackupModule.Backup.ExternalChange` | Example/Pods/WCDB/sqlcipher/src/backup.c:733-739 | An attached backup starts again at page 1 with nothing missed; for another one all copied pages become missed |
| `BackupRuns.RunFrom` | Example/Pods/WCDB/sqlcipher/src/backup.c:351-739 | From any state of a backup, any interleaving of steps, source writes, growth, truncation, restarts and failures: a DONE step leaves a destination that matches the source of that moment but for the missed pages, and nothing later changes it; a failed update makes DONE unreachable; every missed page was missed before or is lost by one of the events (a BUSY or LOCKED page, or a change not reported because the backup is not attached); nothing is missed if no page reports BUSY or LOCKED and no commit does before the backup is attached; a missed page that no event touches keeps the bytes the destination had |
| `BackupRuns.Run` | Example/Pods/WCDB/sqlcipher/src/backup.c:351-739 | The same from the start of a backup; the image at DONE is the final destination |
| `BackupRuns.BusyReadStays` | Example/Pods/WCDB/sqlcipher/src/backup.c:424-435 | For any backup, page sizes, step and page: if the read of the page reports BUSY or LOCKED and no later event touches it, then after DONE it holds the bytes that the destination had before, and so matches exactly if they were the right ones already |
| `BackupRuns.BusyCopyStays` | Example/Pods/WCDB/sqlcipher/src/backup.c:227-316 | For any step that loses a page, in its read or between two pieces of its copy: after DONE it holds the pieces copied and otherwise what the destination had, and so matches exactly if that was right from the piece that failed on |
| `BackupRuns.UnreportedChangeStays` | Example/Pods/WCDB/sqlcipher/src/backup.c:733-739 | For any backup that is not attached: after a change by another process a copied page that is not touched later matches exactly if the change left it as it was |
| `BackupRuns.UnreportedWriteStays` | Example/Pods/WCDB/sqlcipher/src/backup.c:441-443 | For any backup that is not attached: a copied page that is written then, and not touched later, matches after DONE exactly if the write did not change it |
| `BackupRuns.BusyPageIsSkipped` | Example/Pods/WCDB/sqlcipher/src/backup.c:424-435 | A run in which a page read reports BUSY once: the page counter moves on all the same, and the backup ends DONE with zeros in place of that page |
| `BackupRuns.BusyCommitGoesStale` | Example/Pods/WCDB/sqlcipher/src/backup.c:436-443 | A run in which the first step copies everything and its commit reports BUSY: the backup is not attached, a write goes unreported, and the next step is DONE with the old content |
| `BackupRuns.Change` | Example/Pods/WCDB/sqlcipher/src/backup.c:693-739 | What a write, growth, truncation, restart or transaction does to a backup: the source, the next page and the missed pages afterwards, exactly, and an update that can fail only where a page copy fails |
| `BackupRetry.BlockedStep` | Example/Pods/WCDB/sqlcipher/src/backup.c:374-380 | A step that meets an open write transaction on the source reports BUSY and changes nothing at all |
| `BackupRetry.StepsAlike` | Example/Pods/WCDB/sqlcipher/src/backup.c:351-600 | One step of each of two backups that have come equally far, with the same answers of the pager, has the same result and leaves them equally far; if that is DONE both images match the source but for the same pages |
| `BackupRetry.Retry` | Example/Pods/WCDB/sqlcipher/src/backup.c:351-739 | The retry law: of two backups of one source the first tries every step and the second none that would meet an open transaction, with any writes, truncations and restarts in between; both end at the same event with the same result, and if that is DONE both images match the source but for the same pages |
| `BackupImage.PowersOfTwoFit` | Example/Pods/WCDB/sqlcipher/src/backup.c:234-237 | The conditions on the page sizes hold for any two powers of two from 512 to 65536 |
| `PrefixGroups.CompareRows` | Example/Pods/WCDB/sqlcipher/src/analyze.c:1112-1164 | In a sorted run, knowing only the leftmost changed columns decides which rows share a prefix and which come before |
| `PrefixGroups.GroupCounts` | Example/Pods/WCDB/sqlcipher/src/analyze.c:722-742 | The bounds of a row's group are the number of rows with its prefix, the number of rows with a smaller prefix and the number of distinct smaller prefixes |
| `PrefixGroups.PrefixCount` | Example/Pods/WCDB/sqlcipher/src/analyze.c:857-858 | One more than the number of smaller prefixes of the last row is the number of distinct prefixes |
| `ChangeColumns.NextChange` | Example/Pods/WCDB/sqlcipher/src/analyze.c:1119-1163 | For one row: skipped after a first value in an index of one UNIQUE column; otherwise the leftmost column in which it differs from the saved columns, or nColTest, and the saved columns become its own |
| `ChangeColumns.RegistersFollow` | Example/Pods/WCDB/sqlcipher/src/analyze.c:1119-1163 | The registers hold the columns of the row before, or a first value once there was one, so that the reported column is the one specified for the whole index |
| `ChangeColumns.ReportedExactly` | Example/Pods/WCDB/sqlcipher/src/analyze.c:1119-1163 | The reported columns are the leftmost changed ones if and only if the compared columns tell every row from the one before |
| `ChangeColumns.AllColumnsTellApart` | Example/Pods/WCDB/sqlcipher/src/analyze.c:1025-1029 | Comparing all columns but the last does, no two rows being equal |
| `ChangeColumns.KeyTellsApart` | Example/Pods/WCDB/sqlcipher/src/analyze.c:1029 | Comparing the key columns but the last does in a UNIQUE NOT NULL index, where equal keys would need a NULL |
| `ChangeColumns.UniqueTellsApart` | Example/Pods/WCDB/sqlcipher/src/analyze.c:1130-1136 | The shortcut for one UNIQUE column does exactly if not two NULLs follow a value: always when NULLs come first |
| `ChangeColumns.DescendingNulls` | Example/Pods/WCDB/sqlcipher/src/analyze.c:1130-1136 | In a descending UNIQUE index with a value and two NULLs the shortcut counts three distinct values of two |
| `Stat4Samples.SampleIsBetterPost` | Example/Pods/WCDB/sqlcipher/src/analyze.c:499-513 | The first difference in the counts after the sample's column decides, then the hash |
| `Stat4Samples.SampleIsBetter` | Example/Pods/WCDB/sqlcipher/src/analyze.c:523-544 | More rows, then the shorter prefix, then SampleIsBetterPost, for samples whose counts from their column on are filled in, as its comment assumes |
| `Stat4Samples.BetterOrder` | Example/Pods/WCDB/sqlcipher/src/analyze.c:499-544 | Preference is a strict order, and ties are interchangeable, so that picking a best or least sample one by one is well defined |
| `Stat4Samples.FindMin` | Example/Pods/WCDB/sqlcipher/src/analyze.c:618-630 | The first of the least desirable non-periodic samples, by all the criteria of sampleIsBetter; there is one while not all samples are periodic |
| `Stat4Samples.FindUpgrade` | Example/Pods/WCDB/sqlcipher/src/analyze.c:557-583 | Blocked exactly if a periodic sample has the ending prefix; otherwise the last of the best samples that have it, if there is one |
| `Stat4Samples.SampleInsert` | Example/Pods/WCDB/sqlcipher/src/analyze.c:550-631 | The new list in every case: unchanged, the best sample of the ending prefix upgraded, or the new one appended after the least desirable was evicted; it stays within mxSample, keeps all periodic samples, and leaves the right iMin |
| `Stat4Samples.InsertKeepsCover` | Example/Pods/WCDB/sqlcipher/src/analyze.c:550-631 | Inserting a candidate that is no worse than the least sample does not lose any frequent prefix |
| `Stat4Samples.InsertRepresents` | Example/Pods/WCDB/sqlcipher/src/analyze.c:561-565 | After an insertion some sample has the candidate's prefix |
| `Stat4Counts.BestBecomesCandidate` | Example/Pods/WCDB/sqlcipher/src/analyze.c:646-650 | The counts of an aBest[] row from its column on are final when its group ends, although they were taken when the row was pushed |
| `Stat4Counts.WhoShares` | Example/Pods/WCDB/sqlcipher/src/analyze.c:566-575 | A zero count marks exactly the samples in the group that is ending; all the others come before the candidate |
| `Stat4Counts.CandidateIsBetter` | Example/Pods/WCDB/sqlcipher/src/analyze.c:568-571 | The two assertions on a sample with the ending prefix: it was included for a longer prefix, and the candidate is better |
| `Stat4Counts.SettledIsReady` | Example/Pods/WCDB/sqlcipher/src/analyze.c:519-521 | Between two rows, and at the end, every sample has the counts from its own column on |
| `Stat4Counts.UpgradeIsReady` | Example/Pods/WCDB/sqlcipher/src/analyze.c:566-580 | The sample that is upgraded has them, too, for its new column: were one missing, another sample of the group would have been better |
| `Stat4Counts.InsertIsReady` | Example/Pods/WCDB/sqlcipher/src/analyze.c:646-652 | So in every turn of the loop over aBest[] all the samples that are compared have the counts that decide, as the comments of sampleIsBetter and sampleIsBetterPost assume |
| `Stat4Counts.ReadyIsExact` | Example/Pods/WCDB/sqlcipher/src/analyze.c:496-497 | And these counts are the final ones of their groups |
| `Stat4Counts.InsertKeepsCounts` | Example/Pods/WCDB/sqlcipher/src/analyze.c:585-615 | An insertion keeps the counts right and the samples in strictly increasing order of their rows |
| `Stat4Counts.FillSettles` | Example/Pods/WCDB/sqlcipher/src/analyze.c:654-660 | Filling the zero counts makes the counts of all groups that end now exact |
| `Stat4Counts.AppendSettles` | Example/Pods/WCDB/sqlcipher/src/analyze.c:722-742 | Counts that were final stay so when the next row is pushed |
| `Stat4Accum.PushBest` | Example/Pods/WCDB/sqlcipher/src/analyze.c:646-652 | One turn of the loop over aBest[]: the first best row of the ending group is offered to the list, and the group is covered afterwards, whether that row is pushed, upgrades another or is rejected |
| `Stat4Accum.FillCounts` | Example/Pods/WCDB/sqlcipher/src/analyze.c:654-660 | Every zero count from the changed column on becomes the current one, and nothing else changes |
| `Stat4Accum.NextCounts` | Example/Pods/WCDB/sqlcipher/src/analyze.c:731-740 | The counts of the next row from those of the current one |
| `Stat4Accum.BestIsKeepable` | Example/Pods/WCDB/sqlcipher/src/analyze.c:765-771 | Of a best row of a group that goes on and the current row, the one that sampleIsBetterPost prefers is the first best row of the group with the current one in it |
| `Stat4Accum.UpdateBest` | Example/Pods/WCDB/sqlcipher/src/analyze.c:765-771 | After the loop aBest[i] is the first best row of the current i-group: no row of it has, counting up to itself, a greater first different count after column i or, with equal counts, a greater hash; and it has the counts its later use needs |
| `Stat4Accum.PeriodicBound` | Example/Pods/WCDB/sqlcipher/src/analyze.c:449 | With nPSample chosen from the row count, at most mxSample/3 of the rows become periodic samples |
| `Stat4Accum.AddPeriodic` | Example/Pods/WCDB/sqlcipher/src/analyze.c:753-763 | The current row enters the list exactly when the quotient by nPSample changes, in place of the least sample if the list is full, so that the number of periodic samples is always the quotient of the rows pushed by nPSample |
| `Stat4Accum.Accum.constructor` | Example/Pods/WCDB/sqlcipher/src/analyze.c:394-476 | The empty accumulator satisfies the invariant |
| `Stat4Accum.Accum.SamplePushPrevious` | Example/Pods/WCDB/sqlcipher/src/analyze.c:640-661 | The best rows of the ending groups have been offered, the longest prefix first; the counts of all samples are exact for every group that ends, and the untouched part of aBest[] is unchanged |
| `Stat4Accum.Accum.StatPush` | Example/Pods/WCDB/sqlcipher/src/analyze.c:706-774 | Pushing a row keeps the invariant: aBest[] holds the first best row of every group, the list is the one that the groups so far determine (ListAfter), the counts of the current row are exact, at most mxSample samples are in strictly increasing order, one periodic for every nPSample rows, with a valid iMin and every frequent prefix covered; iPrn is the next number of its sequence, and the row gets it as its hash |
| `Stat4Accum.Accum.StatGetStat1` | Example/Pods/WCDB/sqlcipher/src/analyze.c:848-866 | The text of the row count and the rounded-up averages |
| `Stat4Accum.Accum.StatGetRowid` | Example/Pods/WCDB/sqlcipher/src/analyze.c:868-881 | The first call completes the counts; then one rowid after the other, and none after the last |
| `Stat4Accum.Accum.StatGetNEq` | Example/Pods/WCDB/sqlcipher/src/analyze.c:883-914 | The text of the nEq counts of the current sample |
| `Stat4Accum.Accum.StatGetNLt` | Example/Pods/WCDB/sqlcipher/src/analyze.c:883-914 | The text of the nLt counts of the current sample |
| `Stat4Accum.Accum.StatGetNDLt` | Example/Pods/WCDB/sqlcipher/src/analyze.c:883-914 | The text of the nDLt counts, and the next call of the group is for the next sample |
| `AnalyzeIndex.SamplesAreExact` | Example/Pods/WCDB/sqlcipher/src/analyze.c:640-661 | At the end nEq, nLt and nDLt of every kept sample are the exact counts for its row in the whole index |
| `AnalyzeIndex.FrequentPrefixesAreKept` | Example/Pods/WCDB/sqlcipher/src/analyze.c:561-565 | Every prefix that occurs in the index has a sample, unless mxSample samples are kept and every non-periodic one stands for a prefix that occurs at least as often |
| `AnalyzeIndex.CurrentIsExact` | Example/Pods/WCDB/sqlcipher/src/analyze.c:722-742 | After any sorted run of pushes anEq, anLt and anDLt of the current row are, for each column, the numbers of rows with its prefix, of rows with a smaller one and of distinct smaller ones, and anLt + anEq is the number of rows |
| `AnalyzeIndex.Scan` | Example/Pods/WCDB/sqlcipher/src/analyze.c:1107-1195 | Scanning a sorted index pushes its rows with the columns that the emitted comparisons report; they are the leftmost changed columns exactly if the comparisons tell all rows apart, and then the counts of the last row are exact |
| `AnalyzeIndex.ReportSamples` | Example/Pods/WCDB/sqlcipher/src/analyze.c:1221-1244 | The loop over stat_get returns every kept sample once, in order |
| `AnalyzeIndex.AnalyzeOneIndex` | Example/Pods/WCDB/sqlcipher/src/analyze.c:1107-1249 | From the rows of any sorted index to its stat1 text and stat4 entries: the stat1 numbers are those of the reported columns, and the entries are about the rows of the one list that the groups determine, in row order, with the due number of periodic ones, at most mxSample/3; if the comparisons tell all rows apart, all counts are exact, frequent prefixes are kept, and every other entry is about the first best row of its prefix or of a longer one that it has stood for |
| `AnalyzeIndex.TopIsBestRow` | Example/Pods/WCDB/sqlcipher/src/analyze.c:765-771 | The first best row of a group in terms of the rows: it outranks those before it with the same prefix, and none after it outranks it, by how many rows up to it share each longer prefix and then by its pseudo-random number |
| `AnalyzeIndex.SampleIsBest` | Example/Pods/WCDB/sqlcipher/src/analyze.c:646-652 | A sample kept to the end that is not periodic is about such a row, for its prefix or for a longer one |
| `Stat4Choice.FinalListIsOne` | Example/Pods/WCDB/sqlcipher/src/analyze.c:550-774 | The sizes of the groups, their best rows and the hashes determine the samples: only one list can come of offering the best row of every group as it ends, upgrading a sample of that group, or evicting the least one, with every nPSample-th row as a periodic sample |
| `Stat4Choice.GroupsEndIsOne` | Example/Pods/WCDB/sqlcipher/src/analyze.c:640-652 | So they do for the groups that end with one row |
| `Stat4Picks.BetterIsOutdoes` | Example/Pods/WCDB/sqlcipher/src/analyze.c:499-544 | sampleIsBetter compares two samples as the final sizes of their groups and their hashes do |
| `Stat4Picks.InsertIsOffered` | Example/Pods/WCDB/sqlcipher/src/analyze.c:550-631 | sampleInsert makes of the list what an offer of the best row of the ending group makes of it |
| `Stat4Picks.RejectIsOffered` | Example/Pods/WCDB/sqlcipher/src/analyze.c:648-651 | And so does not calling it |
| `AnalyzeIndex.Stat1Shape` | Example/Pods/WCDB/sqlcipher/src/analyze.c:848-863 | The stat1 integers are the row count over the number of distinct prefixes, rounded up; they are at least 1 and never increase, their text fits the buffer and is read back unchanged |
| `StatText.EstimateIsCeiling` | Example/Pods/WCDB/sqlcipher/src/analyze.c:838-843 | The estimate is the quotient rounded up |
| `StatText.SpacedFits` | Example/Pods/WCDB/sqlcipher/src/analyze.c:848-863 | A list printed with its terminator fits 25 bytes for every number |
| `StatText.Stat1` | Example/Pods/WCDB/sqlcipher/src/analyze.c:848-863 | The loop that prints the stat1 list |
| `StatText.Stat4` | Example/Pods/WCDB/sqlcipher/src/analyze.c:899-911 | The loop that prints a list and drops the last space |
| `StatText.ReadNumber` | Example/Pods/WCDB/sqlcipher/src/analyze.c:1436-1440 | The digits from a position on are read in unsigned 32-bit arithmetic |
| `StatText.DecodeIntArray` | Example/Pods/WCDB/sqlcipher/src/analyze.c:1418-1451 | The first nOut integers of any text, as the specification function takes them |
| `StatText.DecodeSpaced` | Example/Pods/WCDB/sqlcipher/src/analyze.c:1418-1451 | Reading back a printed list of 32-bit integers gives the list |
| `DropTable.DestroyTable` | Example/Pods/WCDB/sqlcipher/src/build.c:2340-2392 | The emitted root pages are exactly those of the table and its indices, in strictly decreasing order |
| `DropTable.DestroyLargestPending` | Example/Pods/WCDB/sqlcipher/src/build.c:2349-2364 | Destroying the largest doomed root leaves the other doomed objects where the remaining opcodes expect them |
| `DropTable.DropRemovesExactlyDoomed` | Example/Pods/WCDB/sqlcipher/src/build.c:2311-2392 | Executing the opcodes, each of which moves the largest root of the database into the freed slot, removes exactly the doomed objects and keeps all others findable |
| `DropTable.DropCanExecute` | Example/Pods/WCDB/sqlcipher/src/build.c:2349-2364 | No OP_Destroy of the list hits a page that is no longer a root |
| `DropTable.DropTable` | Example/Pods/WCDB/sqlcipher/src/build.c:2340-2392 | From the table and its indices in the catalogue to the end: the emitted opcodes can be executed, and however they are, exactly these objects disappear and all others stay findable |
| `DropTable.OnlyDecreasingExecutes` | Example/Pods/WCDB/sqlcipher/src/build.c:2349-2364 | The order is forced: in a database that has nothing else, root pages can be destroyed in a given order if and only if it is decreasing |
| `DropTable.AscendingOrderFails` | Example/Pods/WCDB/sqlcipher/src/build.c:2353-2363 | The example of the comment: the first opcode can be executed, and then no object has the root page that the second one is to destroy |
| `WithoutRowid.DistinctMeaning` | Example/Pods/WCDB/sqlcipher/src/build.c:1730-1742 | The compacted key has the same columns, none of them twice |
| `WithoutRowid.LackingMeaning` | Example/Pods/WCDB/sqlcipher/src/build.c:1758-1773 | The appended columns are exactly those the index lacks |
| `WithoutRowid.LackingCount` | Example/Pods/WCDB/sqlcipher/src/build.c:1778-1791 | The key columns and the columns it lacks are together as many as the table has |
| `WithoutRowid.DistinctByFirst` | Example/Pods/WCDB/sqlcipher/src/build.c:1730-1742 | And they are placed by their first occurrences |
| `WithoutRowid.Index.Resize` | Example/Pods/WCDB/sqlcipher/src/build.c:1588-1607 | The index has room for N columns and keeps its entries |
| `WithoutRowid.HasColumn` | Example/Pods/WCDB/sqlcipher/src/build.c:1640-1643 | Is x among the first nCol entries |
| `WithoutRowid.DedupeKey` | Example/Pods/WCDB/sqlcipher/src/build.c:1735-1742 | In place, the key columns become their first occurrences in order, and nColumn follows |
| `WithoutRowid.CountLacking` | Example/Pods/WCDB/sqlcipher/src/build.c:1758-1760 | The number of key columns the index lacks |
| `WithoutRowid.AppendLacking` | Example/Pods/WCDB/sqlcipher/src/build.c:1767-1773 | The lacking key columns are appended in key order, within nColumn |
| `WithoutRowid.AppendKey` | Example/Pods/WCDB/sqlcipher/src/build.c:1755-1776 | The columns of one unique index after the conversion |
| `WithoutRowid.CoverTable` | Example/Pods/WCDB/sqlcipher/src/build.c:1780-1794 | The columns of the primary-key index after the conversion |
| `WithoutRowid.Convert` | Example/Pods/WCDB/sqlcipher/src/build.c:1670-1795 | After the conversion the primary-key index lists every table column exactly once: for an INTEGER PRIMARY KEY that column first, as its whole key; else the declared columns without repeats, placed by their first occurrences, as many as nKeyCol; then the other columns in ascending order.  Every other index keeps its key columns and nKeyCol, and then has exactly the columns of that key which it lacked, in key order |
| `WithoutRowid.ConversionMeaning` | Example/Pods/WCDB/sqlcipher/src/build.c:1645-1669 | The column lists that the loops build are laid out like this, for any declared key and any index |
| `Affinity.WindowIsWord` | Example/Pods/WCDB/sqlcipher/src/build.c:1137-1157 | The 32-bit window equals the code of a word exactly if the word, in any case, ends here |
| `Affinity.AffinityStep` | Example/Pods/WCDB/sqlcipher/src/build.c:1139-1164 | One turn of the if-chain keeps aff the affinity of the table for what has been read |
| `Affinity.AffinityType` | Example/Pods/WCDB/sqlcipher/src/build.c:1130-1165 | The affinity is the one that the documented table gives for the substrings of the type name |
| `Complete.NextToken` | Example/Pods/WCDB/sqlcipher/src/complete.c:145-256 | The token at a position and where the next one starts, or how the string ends inside it |
| `Complete.SqlComplete` | Example/Pods/WCDB/sqlcipher/src/complete.c:104-261 | True exactly if the tokens lead the automaton to START and the string does not end inside a comment block or a quoted word |
| `Complete.ScanConcat` | Example/Pods/WCDB/sqlcipher/src/complete.c:144-259 | If a string leaves the automaton in START outside of any comment, the tokens of its concatenation with another are those of both |
| `Complete.AcceptsConcat` | Example/Pods/WCDB/sqlcipher/src/complete.c:104-261 | If a is complete and does not end in an open line comment, then a followed by b is complete exactly if b is complete or only white space and comments |
| `Complete.AcceptsConcatOpen` | Example/Pods/WCDB/sqlcipher/src/complete.c:170-179 | If a is complete and ends in an open line comment, then a followed by b is complete exactly if what b has after its first end of line is complete or only white space and comments |
| `Complete.CompleteConcatExactly` | Example/Pods/WCDB/sqlcipher/src/complete.c:104-261 | For a complete a: a followed by b is complete for every complete b, if and only if a does not end in an open line comment |
| `Complete.OpenCommentSwallows` | Example/Pods/WCDB/sqlcipher/src/complete.c:170-179 | An instance: two complete strings whose concatenation is not complete |
| `Complete.SpaceIsIgnored` | Example/Pods/WCDB/sqlcipher/src/complete.c:97-98 | White space never changes where the automaton goes |
| `Complete.TriggerEndsAtFirstEnd` | Example/Pods/WCDB/sqlcipher/src/complete.c:120-122 | Inside a trigger the automaton returns to START exactly with the first SEMI END SEMI among the tokens that are not white space |
| `CompleteGrammar.StateMeaning` | Example/Pods/WCDB/sqlcipher/src/complete.c:60-83 | Within a statement the state says which words it has begun with: nothing, EXPLAIN, CREATE, or the head of a trigger definition |
| `CompleteGrammar.TriggerReturns` | Example/Pods/WCDB/sqlcipher/src/complete.c:51-56 | After the head of a trigger definition the automaton is back in START for the first time exactly with the first SEMI END SEMI |
| `CompleteGrammar.ReturnsAtStatement` | Example/Pods/WCDB/sqlcipher/src/complete.c:58-83 | The automaton returns to START for the first time exactly with the end of one whole statement |
| `CompleteText.PieceIsLexed` | Example/Pods/WCDB/sqlcipher/src/complete.c:145-256 | A blank, a closed comment, a closed quoted word, a longest run of word characters, a semicolon or another single character at the start of a text is read as the token of its spelling, with the keywords in small or capital letters |
| `CompleteText.LexedIsPiece` | Example/Pods/WCDB/sqlcipher/src/complete.c:145-256 | And whatever is read as a token is such a piece |
| `CompleteText.ScanIsCut` | Example/Pods/WCDB/sqlcipher/src/complete.c:144-259 | A text that does not end inside a comment block or a quoted word can be cut into such pieces, perhaps before an open line comment |
| `CompleteText.CutIsScanned` | Example/Pods/WCDB/sqlcipher/src/complete.c:144-259 | However it is cut, the scanner finds the tokens of the pieces, so that there is only one way |
| `CompleteText.IdCharMeaning` | Example/Pods/WCDB/sqlcipher/src/complete.c:20-28 | The characters of words are letters, digits, underscore, dollar and everything beyond ASCII |
| `CompleteGrammar.AcceptsStatements` | Example/Pods/WCDB/sqlcipher/src/complete.c:51-103 | A string is accepted exactly if it can be cut into pieces, perhaps before an open line comment, whose tokens, but for white space, are one or more whole statements |
| `RepairBytes.SignedOfEncodeInt` | Example/Pods/WCDB/repair/sqliterk_util.c:44-88 | An integer written in k bytes is read back by its two's-complement value |
| `RepairBytes.BigEndianOfUnsigned` | Example/Pods/WCDB/repair/sqliterk_util.c:44-88 | And the bytes can be had back from the value |
| `RepairBytes.ParseInt64` | Example/Pods/WCDB/repair/sqliterk_util.c:44-88 | The expression for each length is the big-endian two's-complement value of the bytes; other lengths are refused |
| `RepairBytes.ParseVarint64` | Example/Pods/WCDB/repair/sqliterk_util.c:109-132 | The loop finds what the specification function says, within a signed 64-bit integer, and never reads more than nine bytes |
| `RepairBytes.VarintRoundTrip` | Example/Pods/WCDB/repair/sqliterk_util.c:109-132 | A varint of a number below 2^64 is read back exactly if the number is below 2^56 |
| `RepairBytes.LongVarintIsMisread` | Example/Pods/WCDB/repair/sqliterk_util.c:120-128 | 2^56 is read as 2^55, and 2^56 + 128 is taken for damage |
| `RepairRecord.ReadField` | Example/Pods/WCDB/repair/sqliterk_btree.c:431-468 | One turn of the loop: the serial type, the value and both lengths, or the error; a reserved serial type is damage |
| `RepairRecord.ParseRecord` | Example/Pods/WCDB/repair/sqliterk_btree.c:413-473 | The values of a payload, or the error, for every payload |
| `RepairRecord.RecordRoundTrip` | Example/Pods/WCDB/repair/sqliterk_btree.c:413-473 | Every valid record is read back field by field |
| `RepairRecord.RowRoundTrip` | Example/Pods/WCDB/repair/sqliterk_btree.c:413-473 | Every row of storable values has a record, and it is read back |
| `RepairRecord.FieldOfMeaning` | Example/Pods/WCDB/repair/sqliterk_btree.c:644-656 | Every storable value has a serial type and bytes that mean it |
| `RepairRecord.SerialLengths` | Example/Pods/WCDB/repair/sqliterk_btree.c:644-656 | The length table agrees with the sizes of section 2.1 of the file format for every valid serial type |
| `RepairRecord.AcceptedExactly` | Example/Pods/WCDB/repair/sqliterk_btree.c:425-473 | A payload is accepted if and only if its fields can be read, their serial types fill the header exactly and their values fill the rest of the payload exactly |
| `RepairCell.LocalBounds` | Example/Pods/WCDB/repair/sqliterk_btree.c:346-362 | A payload of more than usable - 35 bytes spills and leaves between M = (usable - 12) * 32 / 255 - 23 and usable - 35 bytes on the page: the fewest with which the overflow pages are full, if there are such, and M if not; others are local in full |
| `RepairCell.ReadOverflow` | Example/Pods/WCDB/repair/sqliterk_btree.c:374-411 | The pieces of the chain in order, and the pages that were visited |
| `RepairCell.LoopEndsExactly` | Example/Pods/WCDB/repair/sqliterk_btree.c:379-410 | The loop over the overflow pages ends if and only if it comes to no page twice, if and only if it ends within as many turns as the file has pages |
| `RepairCell.ReadPayload` | Example/Pods/WCDB/repair/sqliterk_btree.c:330-411 | The payload from its local part and its chain, or the error: a size of zero or less is refused, and a local part that does not fit the page is damage |
| `RepairCell.PayloadParts` | Example/Pods/WCDB/repair/sqliterk_btree.c:333-411 | Every payload has its full size: the local bytes of the page, what the chain adds, in order, and zeros if the chain is too short |
| `RepairCell.ParseCell` | Example/Pods/WCDB/repair/sqliterk_btree.c:289-316 | What one cell gives: the row, the overflow pages, or the error |
| `RepairCell.ChainRoundTrip` | Example/Pods/WCDB/repair/sqliterk_btree.c:379-410 | A written chain that ends in page 0 is put together in order |
| `RepairCell.HeadRoundTrip` | Example/Pods/WCDB/repair/sqliterk_btree.c:292-309 | The two varints at the start of a written cell are read |
| `RepairCell.PayloadRoundTrip` | Example/Pods/WCDB/repair/sqliterk_btree.c:346-411 | The payload of a written cell is put together |
| `RepairCell.CellRoundTrip` | Example/Pods/WCDB/repair/sqliterk_btree.c:289-316 | A written cell gives back the rowid, the values and its overflow pages, for rowids below 2^56 |
| `RepairCell.WrittenCellEnds` | Example/Pods/WCDB/repair/sqliterk_btree.c:374-411 | The overflow chain of a written cell ends |
| `RepairPages.ReadPage` | Example/Pods/WCDB/repair/sqliterk_btree.c:165-226 | The type, the cell pointers and the children of a page, or the error |
| `RepairFormat.PointerRead` | Example/Pods/WCDB/repair/sqliterk_btree.c:200-208 | A written cell pointer is read back if and only if it is below 32768 |
| `RepairFormat.LeafDecodes` | Example/Pods/WCDB/repair/sqliterk_btree.c:182-208 | A written table leaf is found with all its cells in order if and only if it has one and its cell pointers are below 32768; an empty one is taken for damage |
| `RepairFormat.InteriorDecodes` | Example/Pods/WCDB/repair/sqliterk_btree.c:182-236 | A written interior page other than page 1 is found with all its children in order if its cell pointers are below 32768, and otherwise ends the whole walk |
| `RepairFormat.PageOneLosesLast` | Example/Pods/WCDB/repair/sqliterk_btree.c:224-226 | On page 1 the right-most child is read from the file header, so that this child is never visited |
| `RepairFormat.IndexLeafDecodes` | Example/Pods/WCDB/repair/sqliterk_btree.c:247-249 | A written index leaf with a cell is skipped; one without is taken for damage |
| `RepairFormat.IndexInteriorDecodes` | Example/Pods/WCDB/repair/sqliterk_btree.c:184-236 | An interior index page written by the format is never found with its children: the two halves of its right-most child's page number are taken for cell pointers, the last two cells are not read, and if a half leads out of the page the whole walk ends |
| `RepairIndex.IndexChildrenAreMissed` | Example/Pods/WCDB/repair/sqliterk_btree.c:184-236 | An index of three pages of which the walk from the root visits only the root |
| `RepairIndex.IndexLeafOnItsOwn` | Example/Pods/WCDB/repair/sqliterk_btree.c:247-249 | An index leaf with a cell is marked as checked, whatever its cells hold; nothing is delivered and no other page changes |
| `RepairIndex.IndexHasNoRows` | Example/Pods/WCDB/repair/sqliterk_btree.c:247-249 | Of an index nothing is delivered, at any depth, as long as nothing of it is lost |
| `RepairFormat.DamagedDecodes` | Example/Pods/WCDB/repair/sqliterk_btree.c:167-195 | Exactly the pages with another type byte, without a cell, or with more cells than have room are taken for damage before their cells are looked at |
| `RepairFormat.NoTreePageRun` | Example/Pods/WCDB/repair/sqliterk_btree.c:167-195 | Such a page is marked as damaged; nothing is delivered and no other page changes |
| `RepairPages.Parse` | Example/Pods/WCDB/repair/sqliterk_btree.c:145-268 | The walk over damaged pages ends, and leaves exactly the interior pages being checked that were so before; only the pages it can come to have a condition to meet |
| `RepairGuard.AcceptedAgain` | Example/Pods/WCDB/repair/sqliterk_btree.c:145-161 | That condition is needed: a page whose own subtree has an overflow chain through it is marked as checked, so that the call for it is accepted while it is being parsed |
| `RepairGuard.GuardFails` | Example/Pods/WCDB/repair/sqliterk_btree.c:231-236 | And so is every call nested in that one, to any depth, each with one more row |
| `RepairGuard.TrapExists` | Example/Pods/WCDB/repair/sqliterk_btree.c:145-411 | A file of three pages on which this happens |
| `RepairRuns.TreeRun` | Example/Pods/WCDB/repair/sqliterk_btree.c:145-268 | Parsing a stored tree of distinct pages delivers every row of its leaves exactly once, from left to right, or none if it is a system table; it marks its pages as checked, or damaged if they have no cell, and touches no others but overflow pages and the zones of lost children |
| `RepairRuns.ForestRun` | Example/Pods/WCDB/repair/sqliterk_btree.c:231-236 | The same for the loop over the children, whose results are not looked at: damage to one takes nothing from the others |
| `RepairRuns.ZoneRun` | Example/Pods/WCDB/repair/sqliterk_btree.c:145-268 | From a page number inside a zone that nothing leads out of, the walk ends, changes no status outside of the zone, and takes no row back |
| `RepairRuns.CellsRun` | Example/Pods/WCDB/repair/sqliterk_btree.c:288-316 | The cells of a leaf deliver their rows in order |
| `RepairRuns.SkipDeliversNone` | Example/Pods/WCDB/repair/sqliterk_btree.c:238-243 | Of a system table other than the master table no row is delivered, whatever its pages hold |
| `RepairRuns.StatusTellsResult` | Example/Pods/WCDB/repair/sqliterk.c:275-297 | Once a page has been accepted its status tells the result: checked, damaged, or invalid for any other error |
| `RepairRuns.RefusedLeavesNoTrace` | Example/Pods/WCDB/repair/sqliterk_btree.c:149-161 | A page number outside of the file and a page that is being parsed are refused, and nothing changes |
| `RepairRuns.StoredIsTame` | Example/Pods/WCDB/repair/sqliterk_btree.c:210-236 | The pages of a stored tree are closed under children, and its overflow chains end and stay off them, so that the walk over it needs nothing of the other pages of the file |
| `RepairTrees.YieldsKeep` | Example/Pods/WCDB/repair/sqliterk_btree.c:231-236 | Whatever is lost, the rows of the intact leaves all come, in their order |
| `RepairTrees.WholeYields` | Example/Pods/WCDB/repair/sqliterk_btree.c:231-236 | And if nothing is lost they are all that comes |
| `RepairFormat.WrittenIsStored` | Example/Pods/WCDB/repair/sqliterk_btree.c:145-325 | A table or index tree whose pages are laid out by the file format, at any depth and with overflow chains, is found page by page and row by row, with its empty leaves taken for damage and of an interior index page the children that IndexInteriorDecodes says |
| `RepairFormat.WrittenRun` | Example/Pods/WCDB/repair/sqliterk_btree.c:124-325 | From bytes to rows: of a tree written by the format every row found is delivered once and in order, whatever the other pages of the file hold and whatever is at lost children; of a system table none is |
| `RepairFormat.FoundRows` | Example/Pods/WCDB/repair/sqliterk_btree.c:224-226 | The rows found are all of them, but for those under the right-most child of an interior root on page 1 |
| `RepairKit.PushStack` | Example/Pods/WCDB/repair/sqliterk.c:264-273 | A page that is not being checked can be pushed: no page is on the recursion stack twice, and fewer pages are left to descend into |
| `RepairKit.Repair.GetStatus` | Example/Pods/WCDB/repair/sqliterk_pager.c:568-575 | The status of a page, or invalid for a page number outside of the file |
| `RepairKit.Repair.SetStatus` | Example/Pods/WCDB/repair/sqliterk_pager.c:554-566 | The status of one page changes; nothing happens for a page number outside of the file |
| `RepairKit.Repair.OnBeginParsePage` | Example/Pods/WCDB/repair/sqliterk.c:264-273 | Refused exactly if the page is being checked; otherwise it is now |
| `RepairKit.Repair.OnEndParsePage` | Example/Pods/WCDB/repair/sqliterk.c:275-297 | The status becomes checked, damaged, or invalid, as the result says |
| `RepairKit.Repair.ParseCells` | Example/Pods/WCDB/repair/sqliterk_btree.c:272-325 | The rows, the status changes and the result are those of the specification function |
| `RepairKit.Repair.ParsePage` | Example/Pods/WCDB/repair/sqliterk_btree.c:145-268 | The recursion ends for any children, cycles included, with the result, the rows and the status of the specification function; nothing is asked of pages that it cannot come to |
| `RepairKit.Repair.ParseChildren` | Example/Pods/WCDB/repair/sqliterk_btree.c:231-236 | The loop over the children |
| `RepairKit.Repair.ParseBtree` | Example/Pods/WCDB/repair/sqliterk_btree.c:124-138 | The same for the repair kit at work on a tree written by the format, as a whole or with lost children: every row found is handed over once and in order, none of a system table; every page found gets its status, and no other page changes but overflow pages and the zones of lost children; an empty table is reported as damage |

## Left out

- RepairCell.CellRoundTrip: not for rowids from 2^56 on or negative ones, whose varints are misread.
- Bitvec: the descent through sub-bitvecs in Set and Clear is recursion and not a loop, the union is three arrays, and sqlite3BitvecDestroy is not modelled.
- Backup: journals, WAL and commit internals, schema cookies, an empty source, codecs, and the connection mutexes.
- Btree mutexes: Btrees that are not sharable appear only as entries of aDb[] that need no mutex; schema mutexes and cursors do not appear.
- ANALYZE: the STAT3 build, the emitted opcodes, collations, the start value of the pseudo-random sequence, and the words after the integers that decodeIntArray also reads.
- Schema code: parsing, authorization, the hash tables, the OP_CreateTable changes, collation and sort-order arrays of an index, and the size estimate of sqlite3AffinityType.
- DropTable: the auto-vacuum move of the largest root is the rule that btree.c implements; its page-level work is not modelled.
- Complete: the UTF-16 entry point, and builds without triggers or EXPLAIN.
- Repair kit: the recursion from the master table into the tables it lists, rows that the callback rejects, the header of the file, encryption, logging, and the growing value list.
- RepairKit.Repair.ParseCells: the status changes of a cell's overflow pages are made after its payload has been read and not in between, which no one can see.
- RepairCell.ReadOverflow: not for a chain that comes back to a page, on which exactly the loop does not end (LoopEndsExactly).
- RepairCell.ReadPayload: likewise.
- RepairCell.ParseCell: likewise.
- RepairPages.Parse: not for a damaged file in which an overflow chain of a visited leaf never ends or leads to an interior page of the walk, for which the guard against cycles is no proof of an end (GuardFails).
- RepairKit.Repair.ParsePage: likewise.
- RepairKit.Repair.ParseChildren: likewise.
- RepairFormat.TreeWritten: rowids from 2^56 on and cell pointers from 32768 on are excluded, because the code misreads them, and the children of an interior index page are those that it finds.
- BackupRetry.Retry: with copies into destination pages that succeed and a commit that succeeds or is stopped by its first phase, since of other failures the contract of a step leaves the exact result open; page reads may fail in any way.
- BitvecModule.Bitvec.Set: for sizes above 2^32 - 62 only as long as no subdividing is due.
- BitvecModule.RunProgram: for sizes above 2^32 - 62, whose divisor wraps to zero, only programs of at most 62 operations, which cannot come to subdivide; no database has as many pages.
