# Verification of the per-process half of /proc and of the hook modules

This project models, in Dafny, the parts of the repository with the most state: the
resumable directory listings of `fs/proc/base.c`, its reference counts, its chunked
copies of another process's memory, and the hook protocol of the modules `home_hack`,
`syscall` and `proc_hack`. It proves what a reader of /proc, or the loader of a module,
may rely on over whole runs.

## How the system is modelled

- **Listings.** One call of a readdir routine fills a `DirBuffer` with room for an
  arbitrary number of entries. Every routine ends a call at the first refusal of
  `filldir` (nothing may be offered after one), so an arbitrary room is an arbitrary
  refusal. An entry carries its name, its offset and the object it was instantiated from;
  `Names.Text` spells a name out as `snprintf` does.
- **Change.** The pid table, the thread ring and the descriptor table are timelines:
  arbitrary sequences of snapshots, of which the code sees one at each look. Everything that
  happens between two looks, within a call or between calls, is part of the timeline.
  Modules named `...Runs` hold the theorems over runs of calls.
- **Unchanging directories.** All four readdir routines refine one abstract resumable
  listing (`Listing.Delivers`): its state is what is left to deliver, a call delivers what
  fits, and what is refused comes first next time.
- **Threads.** A thread carries the stamp with which it joined, which identifies it, and
  its tid, which may be reused. New threads join the ring at the tail; the leader stays.
- **Reference counts** of tasks are `Listing.TaskRefs`; `Put` demands a reference that is
  held. The counts of files, dentries, namespaces and paths are part of the state of
  their modules, and the laws are statements about every run of operations.
- **Hook modules.** The theorems on chains hold for any modules that follow the protocol,
  with any slots each; `Hooks.REPOSITORY_HOOKS` are those of the three in the repository.
- **Methods and specifications.** Each routine that changes state is a method, tied to a
  function of the old state; the laws are lemmas about that function.

## Functions that are not in the repository

`find_ge_pid`, `pid_task`, `has_group_leader_pid`, `next_thread`, `find_task_by_pid_ns`,
`access_process_vm`, `copy_to_user`, `d_lookup`, `d_alloc`, `d_add`, `d_drop`, `dput`,
`get_file`, `fput`, `seq_open`, `seq_release` and `task_io_accounting_add` are modelled by
small contracts: the least pid number in use, the next member of the ring, between none and
all of the bytes wanted, a map with counts. `PID_MAX_LIMIT`, `TASK_SIZE` and `PAGE_SIZE` are
those of a 64-bit x86 kernel.

## Findings

- `proc_task_readdir` can miss a thread that is there all the time, if the thread it is
  parked on exits (`ProcTaskRuns.SteadyThreadIsMissed`). A resumed listing misses nobody
  exactly if the thread that the call starts with is not behind any thread still to be
  listed (`ProcTaskRuns.NobodyMissedIff`).
- It can also list a thread twice, if the thread it is parked on exits and the remembered
  tid is given to a newcomer (`ProcTaskRuns.ReusedTidIsListedTwice`). A resumed listing
  lists nobody twice exactly if the holder of the remembered tid, if any, is at an ordinal
  up to f_pos - 2 (`ProcTaskRuns.NothingTwiceIff`).
- `environ_read` can read beyond the environment, because it keeps the length in an int: at
  an offset of 4 GiB a whole page comes from outside (`Transfer.ReadOutside`). It stays
  within exactly where the length does not come out positive at or behind the end
  (`Transfer.WithinIff`); and a reader gets all that is left exactly if, besides, not more
  than INT_MAX bytes are left (`Transfer.ReassemblesIff`).
- `environ_read` can return 0 after it has delivered bytes and moved the offset
  (`Transfer.CountLost`), and both it and `mem_read` return -EFAULT for a fault in a later
  turn. The conditions on what the turns meet are exact (`Transfer.EnvFacts`,
  `Transfer.MemFacts`).
- `proc_fill_cache` would leak a reference on a hashed dentry without an inode
  (`DentryCache.FillBalancesIff`). Nothing in the model hashes one: from a directory
  without such a dentry, references balance over every run, and only from there
  (`DentryCache.RunsAccountedIff`). The leak needs a dentry hashed by code that is not part
  of this model.
- `dup_mm_exe_file` conserves file references exactly if the new map holds none
  (`ExeFile.DupConservesIff`).
- Removing a hook module restores the state of the others exactly if the module is on top
  of all its slots, which its own test checks slot by slot (`Hooks.UnloadRepresentsIff`).
  Where another module covers it, a call still ends in the wrapper of the removed module
  and no longer reaches the kernel's own entry (`Hooks.CoveredStaysInChain`).
- The directory to which `home_hack` moves a path names the node exactly for nodes 0 to
  99999 (`PathRewrite.DirectoryNamesNodeIff`).
- The comment at `fs/proc/base.c:3129` speaks of a cached tgid; the code caches a tid,
  and the model follows the code.

## Model

| member | source | states |
|---|---|---|
| Names.NameToInt | fs/proc/base.c:1599-1619 | in wrapping 32-bit arithmetic, a canonical numeral up to 4294967279 gives its exact value and every other non-empty name gives ~0U; so no step wraps |
| Names.NameNumberExact | fs/proc/base.c:1599-1619 | a name is accepted as v if and only if it is the decimal numeral of v and v is at most 4294967279 |
| Names.PrintedIntParses | fs/proc/base.c:1827 | parsing inverts printing with "%d" for every int that is not negative, and refuses the negative ones |
| Names.NumeralExamples | fs/proc/base.c:1599-1619 | some numerals spelt out, and names that are refused |
| Names.AcceptedNamesInjective | fs/proc/base.c:1599-1619 | no two different names are accepted as the same number |
| ProcRoot.NextTgid | fs/proc/base.c:2730-2763 | the retry loop terminates although the table changes, finds what the search specification finds, drops the old iterator's reference and takes one on the new |
| ProcRootRuns.NextLeaderContract | fs/proc/base.c:2730-2763 | what is found leads at that instant, and no number that a leader has during the whole search is passed over, even if exec changes the task behind it |
| ProcRootRuns.NextLeaderFrozen | fs/proc/base.c:2725-2763 | on a table at rest: what is found is attached to a task with a leader's pid at or above the requested number, and every such number is at or above it |
| ProcRoot.ProcPidFillCache | fs/proc/base.c:2767-2774 | offers the entry of the iterator's process under its number |
| ProcRoot.FillProcesses | fs/proc/base.c:2811-2845 | the process loop delivers what the scan specification delivers, with exactly the iterator's task held at each loop head |
| ProcRoot.ProcPidReaddir | fs/proc/base.c:2795-2850 | one call on the root directory equals its specification, also when the directory's own process is gone, and every exit restores every reference count |
| ProcRootRuns.CallCovers | fs/proc/base.c:2795-2850 | one call lists genuine leaders in order between its two cursors, misses no number that leads throughout, and ends with a full buffer or at the end position |
| ProcRootRuns.RunOrder | fs/proc/base.c:2795-2850 | over any run from the start, "self" comes first and once, and the listed numbers strictly increase and belong to leaders |
| ProcRootRuns.RunExactlyOnce | fs/proc/base.c:2744-2850 | when the cursor has reached PID_MAX_LIMIT + TGID_OFFSET, every number that a group leader had throughout was listed exactly once, for a task that led under it, also if exec handed the number to another thread meanwhile |
| ProcRootRuns.RunFinishes | fs/proc/base.c:2811-2845 | whatever happens to processes meanwhile, the cursor reaches its end once the buffers have had more room than there are positions |
| ProcRootRuns.CallDelivers | fs/proc/base.c:2795-2850 | at rest, a call is a call of the abstract resumable listing |
| ProcRootRuns.RunDelivers | fs/proc/base.c:2795-2850 | at rest, the output of a run depends only on the total room, not on where the buffers cut it |
| ProcTask.WalkFromLeader | fs/proc/base.c:3043-3049 | the walk of nr steps round the ring finds the thread at ordinal nr, and nobody if that is not below the length of the ring |
| ProcTask.FirstTid | fs/proc/base.c:3022-3055 | the cached tid is used if it is still in the group, else the ordinal; a reference is taken on the result |
| ProcTask.NextTid | fs/proc/base.c:3063-3077 | the thread behind, unless it is the leader or the start has exited; the start's reference is given back |
| ProcTaskRuns.StartThreadExactly | fs/proc/base.c:3028-3049 | a call starts with the holder of the remembered tid wherever it stands, and otherwise with the thread at the ordinal |
| ProcTaskRuns.ThreadAfterExactly | fs/proc/base.c:3063-3077 | behind a thread of the ring comes the next one; behind the last, and behind one that has exited, nobody |
| ProcTask.FillThreads | fs/proc/base.c:3132-3146 | the thread loop delivers what the scan specification delivers, parks the refused thread's tid in f_version, and holds exactly the thread at the cursor at each loop head |
| ProcTask.ProcTaskReaddir | fs/proc/base.c:3089-3151 | one call on a task directory equals its specification, fails with -ENOENT for a missing or dead process, and every exit restores every reference count |
| ProcTaskRuns.OrdinalFalls | fs/proc/base.c:3057-3077 | a surviving thread never moves to a higher ordinal of the ring |
| ProcTaskRuns.ScanOrder | fs/proc/base.c:3132-3146 | the threads delivered by a scan rise in the order they joined, and the parked state it leaves lies above all of them |
| ProcTaskRuns.RunListsNothingTwice | fs/proc/base.c:3089-3151 | over any run nothing is listed twice and offsets are consecutive, even if parked threads exit and their tids are reused, provided that at each resumption the holder of the remembered tid is not beyond the cursor's ordinal |
| ProcTaskRuns.NothingTwiceIff | fs/proc/base.c:3022-3055 | exactly then: in the group as a resumed call finds it, no buffers make a thread appear twice if and only if the holder of the remembered tid, if any, is at an ordinal up to f_pos - 2 |
| ProcTaskRuns.ReusedTidIsListedTwice | fs/proc/base.c:3029-3033 | with a reused tid a thread is listed twice: a concrete history |
| ProcTaskRuns.KeptResumesInPlace | fs/proc/base.c:3129-3146 | if the cursor never stands on an exited thread, every call resumes with the holder of the remembered tid not beyond the cursor |
| ProcTaskRuns.ScanCovers | fs/proc/base.c:3132-3146 | a thread alive throughout at or behind the cursor is listed, or still lies at or behind the parked thread |
| ProcTaskRuns.RunExactlyOnce | fs/proc/base.c:3089-3151 | if the cursor never stands on an exited thread, a finished run has listed every thread alive throughout exactly once |
| ProcTaskRuns.NobodyMissedIff | fs/proc/base.c:3022-3055 | in the group as a resumed call finds it, every run of calls that ends with nothing remembered lists all threads still to be listed, if and only if the call starts with or in front of each of them |
| ProcTaskRuns.SteadyThreadIsMissed | fs/proc/base.c:3036-3049 | a thread that was there all the time is never listed: a concrete history |
| ProcTaskRuns.CachedTidAgreesWithWalk | fs/proc/base.c:3022-3055 | on an unchanged ring the cached tid leads to the same thread as the walk, and the walk finds nobody exactly from the length of the ring on |
| ProcTaskRuns.CallDelivers | fs/proc/base.c:3089-3151 | at rest, a call is a call of the abstract resumable listing |
| ProcTaskRuns.RunDelivers | fs/proc/base.c:3089-3151 | at rest, the output of a run depends only on the total room |
| ProcFd.FillFds | fs/proc/base.c:1817-1835 | the descriptor loop delivers what the scan specification delivers and keeps f_pos at fd + 2 across free slots |
| ProcFd.ProcReadfdCommon | fs/proc/base.c:1786-1843 | one call on a descriptor directory equals its specification, with the cases of a missing process and of no descriptor table, and restores every reference count |
| Listing.DotsExactly | fs/proc/base.c:1800-1811 | "." at offset 0 and ".." at offset 1, as far as the cursor has not passed them |
| Lookup.ListsExactlyOpen | fs/proc/base.c:1817-1835 | a descriptor is listed, under its numeral and at offset fd + 2, if and only if it is in use and below the size of the table |
| ProcFdRuns.CallCovers | fs/proc/base.c:1786-1843 | one call lists genuine descriptors in order and misses none that is open throughout; unrefused, it has passed them all |
| ProcFdRuns.RunExactlyOnce | fs/proc/base.c:1786-1843 | a run up to an unrefused call lists every descriptor open throughout exactly once, at offset fd + 2 |
| ProcFdRuns.CallDelivers | fs/proc/base.c:1786-1843 | at rest, a call is a call of the abstract resumable listing |
| ProcFdRuns.RunDelivers | fs/proc/base.c:1786-1843 | at rest, the output of a run depends only on the total room |
| ProcPident.ProcPidentReaddir | fs/proc/base.c:2025-2079 | one call on a table directory delivers what is left at the cursor as far as it fits, moves f_pos by as much, and returns 1 exactly if nothing was refused |
| ProcPident.CallDelivers | fs/proc/base.c:2025-2079 | what the cursor has left after a call is what the call did not deliver |
| ProcPident.RunDelivers | fs/proc/base.c:2025-2079 | the output of a run depends only on the total room |
| ProcPident.ProcPidentLookup | fs/proc/base.c:1983-2016 | the first table entry with the name, and none exactly if the name is not in the table or the process is gone |
| Lookup.ProcPidLookup | fs/proc/base.c:2692-2720 | the table first, then any attached pid number; references balance |
| Lookup.RootListedIsFound | fs/proc/base.c:2692-2720 | everything listed in /proc is found under its name as the same object |
| Lookup.RootFindsExactly | fs/proc/base.c:2692-2720 | /proc accepts exactly "self" and the numerals of attached tasks, each for its own task |
| Lookup.RootFoundIsListed | fs/proc/base.c:2692-2850 | a name is listed if and only if it is "self" or the numeral of a group leader's pid |
| Lookup.ProcTaskLookup | fs/proc/base.c:2975-3008 | the thread of this group with that tid, also for a stranger's tid with balanced references |
| Lookup.TaskListedIffFound | fs/proc/base.c:2975-3008 | a name leads to a thread if and only if it is listed for that thread |
| Lookup.TaskFindsExactly | fs/proc/base.c:2975-3008 | a name leads to a thread if and only if it is the numeral of that thread's tid |
| Lookup.ProcLookupfdCommon | fs/proc/base.c:1766-1784 | an open descriptor under its numeral, and nothing else |
| Lookup.FdListedIffFound | fs/proc/base.c:1766-1843 | a name leads to a descriptor if and only if it is listed for that descriptor |
| Lookup.FdFindsExactly | fs/proc/base.c:1766-1784 | a name leads to a descriptor if and only if it is the numeral of one in use |
| Lookup.TableListedIsFound | fs/proc/base.c:1983-2079 | every listed table name is found as its own entry exactly if no name occurs twice |
| Lookup.AttrListedIsFound | fs/proc/base.c:2147-2154 | everything listed in attr is found under its name as its own entry |
| DentryCache.Directory.ProcFillCache | fs/proc/base.c:1557-1597 | the number and type reported and the cache left behind equal their specification on the hit, create, failed-instantiate and out-of-memory paths |
| DentryCache.ReportExactly | fs/proc/base.c:1584-1596 | the inode's number and its mode without the lowest twelve bits are reported, or 1 and 0 if there is no inode |
| DentryCache.FilledExactly | fs/proc/base.c:1572-1589 | other entries stay as they are, the entry found stays unless dead and unused, a missing one is there afterwards exactly if created for good |
| DentryCache.RunsAccountedIff | fs/proc/base.c:1557-1597 | over every run of listings, lookups, releases and drops each dentry carries exactly the references its users hold, if and only if no dentry was hashed without an inode to begin with |
| DentryCache.SameReportUntilDropped | fs/proc/base.c:1549-1597 | over any run without a drop of the entry, every listing reports the same inode number and type |
| DentryCache.LaterReportsAgree | fs/proc/base.c:1549-1597 | what one listing reports and leaves in the cache, every later listing reports, over any run until the entry is dropped |
| ExeFile.Kernel.SetMmExeFile | fs/proc/base.c:1274-1282 | takes the new file before it drops the old one, so that no freed file is ever taken |
| ExeFile.Kernel.AddedExeFileVma | fs/proc/base.c:1259-1262 | counts up one area of the map, wrapping as an unsigned long does |
| ExeFile.Kernel.RemovedExeFileVma | fs/proc/base.c:1264-1272 | counts down and drops the file with the last area |
| ExeFile.Kernel.GetMmExeFile | fs/proc/base.c:1284-1296 | hands out a counted reference |
| ExeFile.Kernel.Return | fs/proc/base.c:1319-1322 | gives back a reference that was handed out and not yet returned |
| ExeFile.Kernel.DupMmExeFile | fs/proc/base.c:1298-1303 | the new map points to the old map's file with a reference of its own |
| ExeFile.SetExactly | fs/proc/base.c:1274-1282 | the map points to the new file with no area counted, which gains a reference, and the old one loses one |
| ExeFile.DupExactly | fs/proc/base.c:1298-1303 | the new map points to the old one's file, which gains a reference; nothing else changes |
| ExeFile.GetExactly | fs/proc/base.c:1284-1296 | the file gains a reference, to be given back; no map changes |
| ExeFile.GiveBackExactly | fs/proc/base.c:1322 | the file loses the reference that was handed out |
| ExeFile.VmasExactly | fs/proc/base.c:1259-1272 | the area count goes up or down by one modulo 2^64, and the map loses its file exactly when it reaches zero |
| ExeFile.RunConserves | fs/proc/base.c:1259-1303 | over any run, in which files are opened, others take and drop references and maps come and go, each file's count is its base references plus pointing maps plus unreturned references, and no map points to a freed file |
| ExeFile.DupConservesIff | fs/proc/base.c:1298-1303 | duplicating conserves the account if and only if the new map holds no reference |
| ExeFile.LastRemovalDropsOnce | fs/proc/base.c:1264-1272 | removing the counted areas drops the map's reference exactly once, with the last |
| ExeFile.ResettingSameFile | fs/proc/base.c:1274-1282 | setting the file already set changes no count, even if it is the only reference |
| ExeFile.ExeLinkBalances | fs/proc/base.c:1305-1327 | taking the file and giving it back changes no count and no map |
| Mounts.Kernel.MountsOpenCommon | fs/proc/base.c:586-640 | on success one namespace reference, one path reference and one block more; on each failure exit the state as before and the right error |
| Mounts.Kernel.MountsRelease | fs/proc/base.c:642-648 | gives back what the open took |
| Mounts.Kernel.MountsPoll | fs/proc/base.c:650-666 | flags an error exactly if the namespace's counter differs from the one kept, and keeps the new one |
| Mounts.RunConserves | fs/proc/base.c:586-666 | over any run, beyond what others hold, every open file holds one reference of each kind and one block, and nothing else is held |
| Mounts.AllReleased | fs/proc/base.c:586-648 | when all files are closed, exactly the others' references and blocks are left |
| Mounts.EventIsLastSeen | fs/proc/base.c:622-666 | the counter kept is the one seen at open or the last poll, so a poll flags exactly a change since then |
| Transfer.BytesAreSlice | fs/proc/base.c:824-831 | the bytes delivered from an address are the part of the target's memory that starts there |
| Transfer.MemRead | fs/proc/base.c:787-851 | the offset moves by exactly the bytes delivered on every path, and these are the target's bytes, a slice of its memory; exactly when all that can be is delivered; the result is their number, or -EIO exactly if the first turn reads nothing, or -EFAULT exactly if a turn faults; all references and the page are given back |
| Transfer.MemLoop | fs/proc/base.c:820-841 | the copy loop: a prefix of the wanted bytes is delivered, up to the first turn that reads nothing or cannot be copied |
| Transfer.MemFacts | fs/proc/base.c:820-841 | what the loop delivers and returns, decided by what the turns meet |
| Transfer.EnvironRead | fs/proc/base.c:929-993 | as for mem_read, at every offset: at most what the 32-bit length admits is delivered, within the environment unless the length wraps; exactly when all of that is delivered, when the result is the number of bytes, and when it is -EFAULT |
| Transfer.EnvironLoop | fs/proc/base.c:955-984 | the copy loop, with the length computed in a 32-bit int |
| Transfer.ToIntIsModulo | fs/proc/base.c:956-958 | the length as an int differs from the exact one by a multiple of 2^32 |
| Transfer.EnvIsCopying | fs/proc/base.c:955-984 | although the length is computed anew in an int in each turn, the loop copies as if it had wanted a fixed number of bytes from the beginning |
| Transfer.EnvFacts | fs/proc/base.c:955-984 | what the loop delivers, when its result is that number and when it is -EFAULT, decided by what the turns meet |
| Transfer.WithinIff | fs/proc/base.c:958-964 | nothing outside the environment can be read if and only if the length does not wrap at the offset |
| Transfer.ReadOutside | fs/proc/base.c:958 | a page from outside is delivered at an offset of 4 GiB: a concrete call |
| Transfer.CountLost | fs/proc/base.c:969-972 | a result of 0 after a delivered page: a concrete call |
| Transfer.ReadsReassembleEnviron | fs/proc/base.c:929-993 | a reader makes any calls, also refused and faulting ones; it receives what lies between its offsets, and if the length is accurate where it starts and its reads have ended, the environment from there to the end |
| Transfer.ReassemblesIff | fs/proc/base.c:929-993 | reads that end always get all that is left if and only if at most INT_MAX bytes are left and the length does not wrap |
| Cmdline.ProcPidCmdline | fs/proc/base.c:256-291 | at most a page; the nested branches equal one specification, for all lengths in 32-bit arithmetic, and the text is right for the target's memory |
| Cmdline.ShownIsCommandLine | fs/proc/base.c:266-286 | said of the memory: the arguments, or, if their last byte is not NUL and they are shorter than a page, arguments and environment up to the first NUL |
| Cmdline.ShownIsLongestPrefix | fs/proc/base.c:274-286 | after an overwrite, the longest NUL-free prefix of arguments followed by the environment that fits |
| IoAccounting.TotalOfRotation | fs/proc/base.c:2422-2430 | the wrapping sum of the counters is the same from whichever thread the ring is read |
| IoAccounting.TotalIsSum | fs/proc/base.c:2422-2430 | each of the seven totals is the exact sum of the counters modulo 2^64 |
| IoAccounting.DoIoAccounting | fs/proc/base.c:2417-2430 | with the lock, the signal's counters plus every thread's exactly once, modulo 2^64, whichever thread is asked; else the thread's own |
| Hooks.HomeHackModule.InitModule | home_hack/home_hack.c:229-252 | all seven system calls saved and replaced, or nothing changed when the arguments are refused |
| Hooks.HomeHackModule.CleanupModule | home_hack/home_hack.c:259-271 | each slot that still holds the wrapper gets back what was saved, and no other slot changes |
| Hooks.OneSlotModule.InitModule | syscall/syscall.c:132-141 | the slot saved and replaced |
| Hooks.OneSlotModule.CleanupModule | proc_hack/proc_hack.c:121-131 | the saved entry is put back if the slot still holds the wrapper |
| Hooks.CallVisitsLoadedModules | home_hack/home_hack.c:68-99 | at every moment of a run, calling a slot visits the loaded wrappers in reverse load order and ends at the kernel's own entry |
| Hooks.UnhookedSlotsUnchanged | home_hack/home_hack.c:68-99 | slots that no module hooks never change |
| Hooks.AllUnloadedRestores | syscall/syscall.c:166-173 | when all modules are gone every slot is as it was |
| Hooks.UnloadRepresentsIff | home_hack/home_hack.c:88-99 | removal, in whatever order, leads to the state of the remaining modules if and only if the module is on top of all its slots |
| Hooks.LastIsOnTop | home_hack/home_hack.c:88-99 | the module loaded last is on top, so properly nested removal is always right |
| Hooks.CoveredStaysInChain | home_hack/home_hack.c:88-99 | after a covered module has been removed, a call visits the wrappers loaded after it and then its own, and stops there |
| PathRewrite.ReplacePathIfNecessary | home_hack/home_hack.c:161-189 | a path below /home/ gets the node's prefix in the eight bytes in front of it, which are saved; nothing else changes, and other paths change nothing |
| PathRewrite.RestorePath | home_hack/home_hack.c:192-199 | the eight saved bytes are put back and nothing else changes |
| PathRewrite.RestoreUndoes | home_hack/home_hack.c:161-199 | restoring undoes the replacement for every node, whatever happened to the bytes from the path on |
| PathRewrite.RewrittenPath | home_hack/home_hack.c:182-188 | the string that the system call sees is the node's prefix followed by the whole original path |
| PathRewrite.DirectoryNamesNodeIff | home_hack/home_hack.c:182-185 | the five characters name the node if and only if it is from 0 to 99999 |
| PathRewrite.PrefixOfLarge | home_hack/home_hack.c:182-185 | for a node above 99999 the prefix ends with its first five digits |
| PathRewrite.PrefixOfLongNegative | home_hack/home_hack.c:182-185 | for a node below -9999 it ends with the sign and the first four digits |
| PathRewrite.PrefixOfShortNegative | home_hack/home_hack.c:182-185 | for the other negative nodes it ends with the sign and four digits of that value |

## Left out

- The skip flag of the honeypot hook on the root listing: the call in `fs/proc/base.c:2826` passes no argument and ignores any result, so the hook has no effect on the modelled listing.
- Locks, RCU and memory ordering: each protected region is one look at a timeline.
- `lseek`, and cursors beyond the end of a directory: runs start at the first position; for root, `proc_root_readdir`, which calls it with positions from FIRST_PROCESS_ENTRY on, is not part of this model.
- A group whose leader is replaced by exec or reaped during a listing of its threads.
- The tables `tgid_base_stuff` and `tid_base_stuff`: the laws of table directories hold for every table without a repeated name, and only that of attr is written out.
- The inode numbers and types in the entries of a listing: DentryCache models them for one directory, the listings carry names, offsets and objects.
- Inode contents other than number and mode, and permissions, credentials, ptrace rules and security hooks, which appear as yes-or-no inputs.
- Reads of more than INT_MAX bytes: the read system call, which is not part of this model, limits `count` to less.
- Failures of instantiation in the lookups: their agreement with the listings is about successful ones.
- The coredump filter: it is printed as eight hexadecimal digits without a prefix and parsed by `simple_strtoul` with base 0, which takes the leading zero for octal; that parser is not part of the repository, and no round trip is stated.
- `mark_process`, `check_args` and the check for a missing system call table: no state of the hook protocol depends on them except that refused arguments end `init_module` early.
- The wrappers' bodies, faults while user memory is rewritten, and `proc_flush_task`, which promises nothing.
- `kmap`, `mmap`, `chardev`, `list`, `process`, `secfs`, `security_ops_hack` and the small module examples: each demonstrates one kernel interface, and nothing modelled here depends on them.
