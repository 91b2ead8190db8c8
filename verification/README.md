# Verified models of the OSADA server, the swap process and the memory unit

Three components of two operating-system course projects, modelled in Dafny 4.11 and proved:

- **OSADA file system** (`pokedex-server.c`): inodes, the mapping table of next pointers, the
  free-block bitmap and the 64-byte data blocks. `OsadaDisk`, `OsadaChains` and `OsadaContent`
  hold the volume as a value, its invariant and the effect of every critical section;
  `OsadaServer` is the server's operations in place on arrays; `OsadaThreads` is one client thread
  step by step and `OsadaRuns` any number of them interleaved; `OsadaPaths` is path resolution with
  its locks over a table that changes meanwhile, `OsadaLocks` any number of searches at once;
  `OsadaDirectories` and `OsadaDirectoryWrites` operations that took a directory for a file;
  `OsadaLayout` the section arithmetic; `OsadaWitnesses` small runs that fail.
- **Swap** (`Swap.c`): contiguous allocation with compaction. `SwapTable` and `SwapRequests`
  relate the slot table to a plain map from process to pages, `SwapHistory` that map to what was
  last written; `SwapServer` is the process itself.
- **Memory unit** (`umc/funciones.c`): clock and enhanced clock, TLB and page tables. `UmcClock`
  holds both victim loops, `UmcTables` every operation as a function, `UmcSafety` what holds over
  every run, `UmcEffects` what each request does to frames, bits and TLB, `UmcRounds` in which order
  successive replacements take a process's frames, `UmcLru` when the TLB's victim is the least
  recently used entry, `UmcSharing` what stale frame numbers lead to, `UmcServer` the operations in
  place.

A class proves each of its methods equal to a function or predicate on values; the results about
those functions are lemmas. `View()` is the value of an object; `Wf`, `Sized`, `Ok` and `Inv` are
the invariants. `dafny verify dfyconfig.toml` checks the whole project.

## How the pieces fit

The OSADA book-keeping (`Book`) names the chain of every file and the owner of every block. It is
determined by the disk (`WalkUnique`), and the bitmap is determined by it (`UsedFromBook`), so an
operation that keeps the book keeps chains and bitmap. In `OsadaRuns` nothing is ghost: the
disk, the names, the threads still looking for their file and the running threads are the whole
state; one step is one `m_lock` critical section, one pointer hop, one copied chunk or one update of
the thread's own inode, and `start` is a history value no step reads. Two things are assumed and
not proved: that `m_lock` and the per-file write locks exclude each other's holders, and that no
write, truncate or unlink starts on a directory (`FilesOnly`). The code does not see to the second:
it searches twice, and a mkdir of the same name may come between. `UnlinkDirectoryIff`,
`TruncateDirectoryIff` and `WriteDirectoryIff` say exactly when an operation that met a directory does
no harm to anyone else, `MkdirMeetsUnlinkBreaks` is a run that does.

Where code and promise part, the code is kept and the exact condition proved:

- A read starting at the last byte of a file returns nothing, and a read of an empty file follows
  END_OF_FILE out of the mapping table, because the guard subtracts one in unsigned arithmetic
  (`ReadIsSliceIff`; `LastByteUnread` is such a read).
- Taking the last data block ends a scan as if it had failed (`FitsBounds`, `EnospcIff`;
  `LastBlockRefused` is a write refused for it).
- A path to a directory leaves write, truncate and unlink with that directory locked and no file:
  every other exit of every operation releases all it took (`Session.Write`, `StrayIff`; `StrayDirectory`).
- Between the two searches of write, truncate and unlink a directory of the same name may appear,
  and is then taken for the file (`DirectoryAsFile`, `UnlinkDirectoryIff`, `TruncateDirectoryIff`,
  `WriteDirectoryIff`).
- Two searches for writing, each coming by the directory the other holds, wait for each other for
  ever (`DeadlockIff`, `TwoWritesCross`).
- The swap's read search stops at the page size instead of the page count: right on every run
  exactly when there is at most one slot more than a page has bytes (`PageSizeBoundIff`).
- A swap write stores only up to the NUL, so a read within reach of the search returns the string
  last written exactly when no string written to the page before was longer (`ReadsLastWriteIff`,
  `ReadsLastWriteInReach`; `ShorterWriteShowsThrough`).
- The memory unit charges a process for a frame when the quota allows one and none is free; the
  page then stays out (`LoadKeeps`; `ChargedForNothing`).
- Eviction in the memory unit finds its page by frame number alone, and pages that left keep
  theirs, so all pages of a process can count as resident in one frame (`EvictAloneIff`,
  `SharedFrame`).
- The TLB gives up the entry with the least recorded stamp, which need not be the least recently
  used one: a hit stamps the first entry with the process and frame found, stamps are 16 bits wide,
  and a write miss stamps its entry before its access is counted. Stamps stay in the order of use
  over a request exactly when `Fair` holds (`FairIff`, in closed form `HitFairIff` and
  `LoadFairIff`); over a run of such requests the victim is the least recently used (`VictimIsLru`),
  and `VictimUsedLast` is a run of seven requests whose victim is the page used last.

## Model

| member | source | states |
|---|---|---|
| OsadaDisk.ChainsDisjointAndBitmapExact | tp-2016-2c-Stranger-Code/pokedex-server/pokedex-server.c:1009-1093 | in a well-formed volume no block is twice in chains, and the set bits are the chain blocks and the reserved ones |
| OsadaDisk.WalkUnique | tp-2016-2c-Stranger-Code/pokedex-server/pokedex-server.c:1043-1048 | the chain of a file is the only walk of the mapping table that ends in END_OF_FILE |
| OsadaDisk.MountedBook | tp-2016-2c-Stranger-Code/pokedex-server/pokedex-server.c:197-198 | any image whose files have disjoint terminated chains of used blocks is well formed as mounted, the used blocks without an owner being the reserved ones |
| OsadaChains.TakeWf | tp-2016-2c-Stranger-Code/pokedex-server/pokedex-server.c:1058-1065 | setting a free bit, linking it at the tail and terminating it keeps the volume well formed and every other file as it was |
| OsadaChains.GrowSpec | tp-2016-2c-Stranger-Code/pokedex-server/pokedex-server.c:1052-1069 | the allocation scan appends only free blocks to one file, as many as needed when it stops early, and touches no other file |
| OsadaChains.GrowStop | tp-2016-2c-Stranger-Code/pokedex-server/pokedex-server.c:1054-1070 | the scan counts as successful exactly when the bits before the last one hold enough free blocks |
| OsadaChains.FitsBounds | tp-2016-2c-Stranger-Code/pokedex-server/pokedex-server.c:1417-1434 | success implies enough free blocks; one more than needed always succeeds; a wrong rejection means the last block was the last one needed |
| OsadaChains.FitsAfterFirst | tp-2016-2c-Stranger-Code/pokedex-server/pokedex-server.c:1004-1052 | how taking the first block of an empty file enters the space bound |
| OsadaChains.DropSpec | tp-2016-2c-Stranger-Code/pokedex-server/pokedex-server.c:1087-1092 | the release loop clears exactly the bits of the blocks on its path and ends their links |
| OsadaChains.ReleasedSpec | tp-2016-2c-Stranger-Code/pokedex-server/pokedex-server.c:1480-1493 | cutting a chain keeps the volume well formed, keeps the leading blocks and changes no other file |
| OsadaChains.RollbackRestores | tp-2016-2c-Stranger-Code/pokedex-server/pokedex-server.c:1070-1093 | a failed scan followed by its rollback gives back the same chains, bitmap, inodes and data |
| OsadaContent.OverlayContent | tp-2016-2c-Stranger-Code/pokedex-server/pokedex-server.c:1121-1140 | chunks laid over the chain's blocks are the buffer at its offset in the file's bytes, the other old bytes untouched |
| OsadaContent.Conservation | tp-2016-2c-Stranger-Code/pokedex-server/pokedex-server.c:1409-1411 | free blocks plus the blocks the sizes need plus the reserved blocks is the size of the data region |
| OsadaContent.FreeChange | tp-2016-2c-Stranger-Code/pokedex-server/pokedex-server.c:1412-1495 | what one file gains in blocks the free list loses, and the reverse |
| OsadaContent.ReleaseFromSpec | tp-2016-2c-Stranger-Code/pokedex-server/pokedex-server.c:1605-1614 | releasing by following the table alone releases exactly the end of the chain |
| OsadaServer.Osada.Seek | tp-2016-2c-Stranger-Code/pokedex-server/pokedex-server.c:1112-1119 | following n links from the inode reaches the cell of chain position n |
| OsadaServer.Osada.Scan | tp-2016-2c-Stranger-Code/pokedex-server/pokedex-server.c:1054-1068 | the in-place loop is the allocation scan |
| OsadaServer.Osada.FirstBlock | tp-2016-2c-Stranger-Code/pokedex-server/pokedex-server.c:1009-1023 | takes the lowest free block, or finds every bit set |
| OsadaServer.Osada.Release | tp-2016-2c-Stranger-Code/pokedex-server/pokedex-server.c:1606-1613 | the in-place loop is the release of the blocks hanging from a cell |
| OsadaServer.Osada.Expand | tp-2016-2c-Stranger-Code/pokedex-server/pokedex-server.c:994-1110 | the file gets the blocks its new size needs, exactly when they fit; otherwise everything is as before |
| OsadaServer.Osada.CopyIn | tp-2016-2c-Stranger-Code/pokedex-server/pokedex-server.c:1112-1140 | the copy loop puts the whole buffer in place and leaves early only when done |
| OsadaServer.Osada.Write | tp-2016-2c-Stranger-Code/pokedex-server/pokedex-server.c:983-1157 | success lays the buffer over the file and changes no other; ENOSPC is a no-op but for the time stamp; which one is decided by the free bits |
| OsadaServer.Osada.Read | tp-2016-2c-Stranger-Code/pokedex-server/pokedex-server.c:1231-1279 | the bytes asked for as far as the file goes, none when the read starts at or after its last byte, a pointer out of the tables when the file is empty; never more bytes than asked for |
| OsadaServer.Osada.CopyOut | tp-2016-2c-Stranger-Code/pokedex-server/pokedex-server.c:1248-1275 | the bytes from the offset on, across block boundaries, never meeting END_OF_FILE early |
| OsadaServer.ReadIsSliceIff | tp-2016-2c-Stranger-Code/pokedex-server/pokedex-server.c:1238-1240 | a read is the requested slice exactly when the file is not empty and the read does not start at its last byte |
| OsadaServer.Osada.Truncate | tp-2016-2c-Stranger-Code/pokedex-server/pokedex-server.c:1393-1511 | size set, leading bytes kept, time stamp kept, exactly the difference in blocks allocated or freed, no other file changed, ENOSPC a no-op |
| OsadaServer.Osada.Unlink | tp-2016-2c-Stranger-Code/pokedex-server/pokedex-server.c:1598-1617 | the file disappears, its blocks become free, nothing else changes |
| OsadaServer.Osada.Mknod | tp-2016-2c-Stranger-Code/pokedex-server/pokedex-server.c:308-374 | an empty file with the given time in the lowest deleted slot other than the parent, or ENOSPC |
| OsadaServer.NecessaryBlocks | tp-2016-2c-Stranger-Code/pokedex-server/pokedex-server.c:1075-1077 | the block count of a size is the size over 64 rounded up |
| OsadaThreads.StepKeepsLocal | tp-2016-2c-Stranger-Code/pokedex-server/pokedex-server.c:983-1141 | every step of a thread keeps the volume well formed, changes its own file only and stays inside the tables |
| OsadaThreads.WalkOk | tp-2016-2c-Stranger-Code/pokedex-server/pokedex-server.c:1043-1051 | the tail a thread walked to is still the tail of its chain, and the need it computed is right |
| OsadaThreads.WScanOk | tp-2016-2c-Stranger-Code/pokedex-server/pokedex-server.c:1052-1083 | the write's allocation section ends with a chain for the new size or at the start of the rollback |
| OsadaThreads.TScanOk | tp-2016-2c-Stranger-Code/pokedex-server/pokedex-server.c:1412-1449 | the truncate's allocation section does the same |
| OsadaThreads.RollbackOk | tp-2016-2c-Stranger-Code/pokedex-server/pokedex-server.c:1085-1094 | the rollback section leaves chain, size and bytes of before |
| OsadaThreads.CopyOk | tp-2016-2c-Stranger-Code/pokedex-server/pokedex-server.c:1130-1140 | each iteration of the copy loop, run among other threads, goes on or ends with the write complete |
| OsadaThreads.StepProgresses | tp-2016-2c-Stranger-Code/pokedex-server/pokedex-server.c:1045-1092 | every step brings its operation closer to the end, so all walks terminate |
| OsadaThreads.EnospcIff | tp-2016-2c-Stranger-Code/pokedex-server/pokedex-server.c:1023-1070 | a step of a write or truncate turns to ENOSPC exactly when no bit is free for a first block, or the bits before the last one hold fewer free blocks than the new size still needs |
| OsadaThreads.BudgetDrops | tp-2016-2c-Stranger-Code/pokedex-server/pokedex-server.c:1045-1140 | every step of a thread lowers a bound on the steps it has left |
| OsadaRuns.EveryInterleaving | tp-2016-2c-Stranger-Code/pokedex-server/pokedex-server.c:1009-1093 | over every interleaving of lookups, operations, mknod, mkdir and rmdir in which no operation starts on a directory, chains stay acyclic, terminated and disjoint, the bitmap exact, the reserved blocks the same, and no thread leaves the tables |
| OsadaRuns.EntriesChange | tp-2016-2c-Stranger-Code/pokedex-server/pokedex-server.c:351-374 | after a mknod its entry is an empty regular file, after a mkdir a directory, after an rmdir deleted, and no other entry and no block changes |
| OsadaRuns.BeginsAsMeant | tp-2016-2c-Stranger-Code/pokedex-server/pokedex-server.c:922-983 | an operation starts on a file of the name that was looked for, with the request and time it came with and the file as it is then, and changes nothing yet |
| OsadaRuns.QuietConservation | tp-2016-2c-Stranger-Code/pokedex-server/pokedex-server.c:351-374 | whenever no operation is under way, free blocks plus blocks in files is what it was |
| OsadaRuns.Isolation | tp-2016-2c-Stranger-Code/pokedex-server/pokedex-server.c:1130-1141 | a step of one thread leaves inode, chain and bytes of every other file as they were |
| OsadaRuns.FinishedAsIfAlone | tp-2016-2c-Stranger-Code/pokedex-server/pokedex-server.c:983-1141 | a finished operation has the effect it has when run alone on the file as it was when locked; a write leaves its own time on it, whatever it answers, and the others the time they found |
| OsadaRuns.FinishesInTime | tp-2016-2c-Stranger-Code/pokedex-server/pokedex-server.c:983-1141 | in every run, once a thread has had as many turns as its bound says it has finished, whatever the others do |
| OsadaRuns.EveryOperationEnds | tp-2016-2c-Stranger-Code/pokedex-server/pokedex-server.c:983-1141 | the same, from the file's lock on, with a bound on the turns that depends on the request, the old size and the volume alone |
| OsadaDirectories.UnlinkDirectoryIff | tp-2016-2c-Stranger-Code/pokedex-server/pokedex-server.c:1601-1614 | an unlink that met a directory keeps all files, the reserved blocks and the bitmap exactly when no block on the walk from block 0 is in use |
| OsadaDirectories.ExtendIff | tp-2016-2c-Stranger-Code/pokedex-server/pokedex-server.c:1043-1093 | extending a directory keeps them exactly when nothing has to be found, or there are too few free blocks, block 0 is one of them, and the last block of its walk is in no file |
| OsadaDirectories.TruncateDirectoryIff | tp-2016-2c-Stranger-Code/pokedex-server/pokedex-server.c:1393-1461 | the same for a truncate, by its new size and the length of the walk |
| OsadaDirectories.TruncateAlone | tp-2016-2c-Stranger-Code/pokedex-server/pokedex-server.c:1393-1461 | the steps of a truncate's thread, run alone on a directory, leave that |
| OsadaDirectoryWrites.WriteAlone | tp-2016-2c-Stranger-Code/pokedex-server/pokedex-server.c:983-1110 | the steps of a write's thread, run alone on a directory, lead there and to its copy loop |
| OsadaDirectoryWrites.WritesAlong | tp-2016-2c-Stranger-Code/pokedex-server/pokedex-server.c:1112-1140 | within the walk's blocks the copy loop ends with the buffer laid over them and nothing else changed |
| OsadaDirectoryWrites.WriteDirectoryIff | tp-2016-2c-Stranger-Code/pokedex-server/pokedex-server.c:983-1140 | a finished write that met a directory has kept all files, the reserved blocks and the bitmap exactly when it stayed within the walk's blocks and wrote nothing new to a file's, or found too few free blocks as above |
| OsadaWitnesses.MkdirMeetsUnlinkBreaks | tp-2016-2c-Stranger-Code/pokedex-server/pokedex-server.c:1543-1552 | from a sound image: unlink looks for a directory of its name, mkdir makes it, unlink locks it; then the block of another client's file is free and no book fits the volume |
| OsadaWitnesses.LastBlockRefused | tp-2016-2c-Stranger-Code/pokedex-server/pokedex-server.c:1070-1070 | a write that needs as many blocks as are free is answered ENOSPC because the last one is the last of the volume |
| OsadaWitnesses.LastByteUnread | tp-2016-2c-Stranger-Code/pokedex-server/pokedex-server.c:1238-1238 | the only byte of a file is not returned by a read of it |
| OsadaPaths.SearchIs | tp-2016-2c-Stranger-Code/pokedex-server/pokedex-server.c:280-303 | a search ends on the first slot, other than the parent, that has the name, is in that parent and is not deleted when it is looked at, or there is none |
| OsadaPaths.WalkIff | tp-2016-2c-Stranger-Code/pokedex-server/pokedex-server.c:689-717 | a path leads getattr and read to a slot exactly when there is one slot for each name, each the first of its name below the one before from the moment that one was found, the last being that slot |
| OsadaPaths.WalkDirsIff | tp-2016-2c-Stranger-Code/pokedex-server/pokedex-server.c:1657-1697 | the same for readdir and rmdir, all slots being directories |
| OsadaPaths.WalkFileIff | tp-2016-2c-Stranger-Code/pokedex-server/pokedex-server.c:922-980 | a path leads write, truncate and unlink to a file exactly when directories lead to a second search for the last name that ends on it, the first having ended without a directory; it leads to a stray directory exactly when directories alone lead there |
| OsadaPaths.NamesAreChildren | tp-2016-2c-Stranger-Code/pokedex-server/pokedex-server.c:536-661 | a listing is the names of all slots in the directory, in slot order, and of no other |
| OsadaPaths.Session.SearchNode | tp-2016-2c-Stranger-Code/pokedex-server/pokedex-server.c:273-306 | the first slot that matches when it is looked at, held in the mode asked for besides the parent, or nothing new held; at most two locks at once and none twice |
| OsadaPaths.Session.SearchDir | tp-2016-2c-Stranger-Code/pokedex-server/pokedex-server.c:259-271 | the same for directories, letting a regular file go |
| OsadaPaths.Session.ResolveNode | tp-2016-2c-Stranger-Code/pokedex-server/pokedex-server.c:685-717 | getattr and read end holding exactly the slot at the end of the sequence of slots the names lead through, or nothing exactly when there is no such sequence |
| OsadaPaths.Session.ResolveDir | tp-2016-2c-Stranger-Code/pokedex-server/pokedex-server.c:1657-1697 | readdir and rmdir end holding exactly the directory, in the mode asked for, or nothing |
| OsadaPaths.Session.ResolveFile | tp-2016-2c-Stranger-Code/pokedex-server/pokedex-server.c:922-980 | write, truncate and unlink end holding exactly the file for writing, or nothing, except that a path to a directory leaves it locked for reading |
| OsadaPaths.StillFileIsRegular | tp-2016-2c-Stranger-Code/pokedex-server/pokedex-server.c:927-935 | in a table nobody changes what the two searches end on is a regular file |
| OsadaPaths.DirectoryAsFile | tp-2016-2c-Stranger-Code/pokedex-server/pokedex-server.c:927-935 | when a directory of the name appears between the two searches the operation holds it as its file |
| OsadaPaths.StrayIff | tp-2016-2c-Stranger-Code/pokedex-server/pokedex-server.c:922-980 | a lookup ends on a directory and no file exactly when every name of the path, each at its moment, is a directory's |
| OsadaPaths.StrayDirectory | tp-2016-2c-Stranger-Code/pokedex-server/pokedex-server.c:975-978 | a path of one directory is one that leaves its lock behind |
| OsadaPaths.Session.Getattr | tp-2016-2c-Stranger-Code/pokedex-server/pokedex-server.c:685-741 | answers for the slot the path leads to and for none exactly when it leads nowhere; holds nothing at either exit |
| OsadaPaths.Session.Read | tp-2016-2c-Stranger-Code/pokedex-server/pokedex-server.c:1200-1279 | answers for the slot the path leads to and for none exactly when it leads nowhere; holds nothing at either exit |
| OsadaPaths.Session.Readdir | tp-2016-2c-Stranger-Code/pokedex-server/pokedex-server.c:536-661 | holds nothing at any exit, keeps every child locked until the list is complete, and lists exactly the children it saw, in slot order |
| OsadaPaths.Session.Write | tp-2016-2c-Stranger-Code/pokedex-server/pokedex-server.c:922-1141 | holds nothing at any exit, those for no space among them, exactly when some name of the path is not a directory's |
| OsadaPaths.Session.Truncate | tp-2016-2c-Stranger-Code/pokedex-server/pokedex-server.c:1335-1497 | the same for truncate |
| OsadaPaths.Session.Unlink | tp-2016-2c-Stranger-Code/pokedex-server/pokedex-server.c:1538-1617 | the same for unlink |
| OsadaPaths.Session.Rmdir | tp-2016-2c-Stranger-Code/pokedex-server/pokedex-server.c:1654-1704 | holds nothing at any exit |
| OsadaLocks.DeadlockIff | tp-2016-2c-Stranger-Code/pokedex-server/pokedex-server.c:280-295 | some run of concurrent searches ends with some of them waiting for each other exactly when some, all for writing, come each by the directory another searches in |
| OsadaLocks.DeadlockStays | tp-2016-2c-Stranger-Code/pokedex-server/pokedex-server.c:280-295 | those wait for ever, whoever else has a turn |
| OsadaLocks.StuckIsDeadlock | tp-2016-2c-Stranger-Code/pokedex-server/pokedex-server.c:280-295 | when no search can move and not all have ended, those left wait for each other |
| OsadaLocks.AllCanFinish | tp-2016-2c-Stranger-Code/pokedex-server/pokedex-server.c:280-303 | searches of which none cross can always all be brought to their end |
| OsadaLocks.TwoWritesCross | tp-2016-2c-Stranger-Code/pokedex-server/pokedex-server.c:933-936 | a write below the directory in slot 5 and one below that in slot 3, of files further on, can wait for each other for ever |
| OsadaLayout.LayoutSoundIff | tp-2016-2c-Stranger-Code/pokedex-server/pokedex-server.c:170-198 | the sections tile the volume and bits and cells cover the data exactly when 2 to 2^30 blocks remain after the fixed sections |
| SwapTable.PageAt | tp-2016-1c-SO-2016-1C/Swap/src/Swap.c:103-124 | with contiguous runs page k of a process sits k slots after its first one |
| SwapTable.SettledIsCompacted | tp-2016-1c-SO-2016-1C/Swap/src/Swap.c:82-98 | a table with no free slot before a used one is its own stable partition |
| SwapTable.SwapKeepsFilters | tp-2016-1c-SO-2016-1C/Swap/src/Swap.c:84-96 | one exchange keeps the order of the used slots and of the free ones |
| SwapTable.CompactedOk | tp-2016-1c-SO-2016-1C/Swap/src/Swap.c:77-101 | compaction keeps runs contiguous and every process's pages, and gathers the free slots at the end |
| SwapRequests.CompactionMakesRoom | tp-2016-1c-SO-2016-1C/Swap/src/Swap.c:147-161 | after compaction a run is found whenever enough slots are free |
| SwapRequests.AssignOk | tp-2016-1c-SO-2016-1C/Swap/src/Swap.c:68-75 | assigning a found run keeps every process in one run |
| SwapRequests.StartAnswersIff | tp-2016-1c-SO-2016-1C/Swap/src/Swap.c:146-168 | a start succeeds exactly when as many slots are free as it asks for, wherever they are, and then takes that many; a refused start changes nothing |
| SwapRequests.StartInPlace | tp-2016-1c-SO-2016-1C/Swap/src/Swap.c:52-75 | while some run of free slots is followed by a free entry, every slot in use stays where it is and the process gets the first such run |
| SwapRequests.SimIniciar | tp-2016-1c-SO-2016-1C/Swap/src/Swap.c:146-168 | INICIAR succeeds exactly when enough pages are free, and gives the process zeroed pages |
| SwapRequests.SimEscribir | tp-2016-1c-SO-2016-1C/Swap/src/Swap.c:114-124 | ESCRIBIR changes that page of that process and nothing else |
| SwapRequests.OverlayIs | tp-2016-1c-SO-2016-1C/Swap/src/Swap.c:122-122 | byte i of a page written to is that of the string while the string lasts, and from there on the one it was |
| SwapRequests.WriteIs | tp-2016-1c-SO-2016-1C/Swap/src/Swap.c:114-124 | a write changes those bytes of the page that many slots after the first of its process, no other byte and no entry |
| SwapRequests.SimFinalizar | tp-2016-1c-SO-2016-1C/Swap/src/Swap.c:126-141 | FINALIZAR frees all and only the process's pages and raises the free count by their number |
| SwapRequests.EndAnswers | tp-2016-1c-SO-2016-1C/Swap/src/Swap.c:126-141 | after an end the process has no slot, its old ones are free and zeroed, all others as they were |
| SwapRequests.ServeRefinesPlain | tp-2016-1c-SO-2016-1C/Swap/src/Swap.c:143-179 | each request does to the table what it does to the map from process to pages, with the same answer, page contents being overwritten as the code overwrites them |
| SwapRequests.RunRefinesPlain | tp-2016-1c-SO-2016-1C/Swap/src/Swap.c:143-179 | over every run the answers are those of that map, whatever compactions happen |
| SwapRequests.ReadAnswerIff | tp-2016-1c-SO-2016-1C/Swap/src/Swap.c:103-112 | a read is right exactly when the process starts no later than the bound of the search, or the page there holds the same string |
| SwapRequests.PageSizeBoundIff | tp-2016-1c-SO-2016-1C/Swap/src/Swap.c:105-107 | with the page size as bound, every run is right exactly when there is at most one slot more than a page has bytes |
| SwapRequests.ReadBackIff | tp-2016-1c-SO-2016-1C/Swap/src/Swap.c:122-122 | a page overwritten once reads back as written exactly when the string fills it or a NUL was already there |
| SwapHistory.LayersReadLastIff | tp-2016-1c-SO-2016-1C/Swap/src/Swap.c:122-122 | a page on which strings were laid one over the other reads back as the last of them exactly when none before was longer |
| SwapHistory.LayersAt | tp-2016-1c-SO-2016-1C/Swap/src/Swap.c:122-122 | byte i of a page is byte i of the last string longer than i written to it since its process was started, or 0 without one |
| SwapHistory.ReadIsHistory | tp-2016-1c-SO-2016-1C/Swap/src/Swap.c:103-179 | over every run a read within reach answers with as many bytes as the longest string written to the page since its process was started, each that of the last string that had it |
| SwapHistory.ReadsLastWriteIff | tp-2016-1c-SO-2016-1C/Swap/src/Swap.c:103-179 | over every run a read returns the string last written to that page since its process was started exactly when the search reaches the process and no string written to the page before was longer, or the search gives up on a page that holds the same string |
| SwapHistory.ReadsLastWriteInReach | tp-2016-1c-SO-2016-1C/Swap/src/Swap.c:103-179 | in an area with at most one slot more than the bound of the search, exactly when no string written to the page before was longer |
| SwapHistory.ShorterWriteShowsThrough | tp-2016-1c-SO-2016-1C/Swap/src/Swap.c:114-124 | a string of two letters overwritten by one of one letter does not read back as the latter |
| SwapServer.Swap.EspacioDisponible | tp-2016-1c-SO-2016-1C/Swap/src/Swap.c:40-50 | whether enough slots are free |
| SwapServer.Swap.Contiguo | tp-2016-1c-SO-2016-1C/Swap/src/Swap.c:52-66 | the first run of entries that are free and followed by a free one, all before it having a used entry among them; -1 exactly when there is none |
| SwapServer.Swap.Asignacion | tp-2016-1c-SO-2016-1C/Swap/src/Swap.c:68-75 | the slots of the run belong to the process |
| SwapServer.Swap.Compactar | tp-2016-1c-SO-2016-1C/Swap/src/Swap.c:77-101 | the bubble passes compute the stable partition, contents moving with their entries |
| SwapServer.Swap.Leer | tp-2016-1c-SO-2016-1C/Swap/src/Swap.c:103-112 | the string of the page found by the bounded search |
| SwapServer.Swap.Escribir | tp-2016-1c-SO-2016-1C/Swap/src/Swap.c:114-124 | the string is laid over the page |
| SwapServer.Swap.LiberarMemoria | tp-2016-1c-SO-2016-1C/Swap/src/Swap.c:126-141 | freeing one run frees every slot of the process and wipes it |
| SwapServer.Swap.RealizarPedidoUMC | tp-2016-1c-SO-2016-1C/Swap/src/Swap.c:143-179 | each request is served as specified and the table stays sound |
| UmcClock.EnhancedIsBest | tp-2016-1c-SO-2016-1C/umc/funciones.c:67-115 | the enhanced clock's victim has the least (reference, modified) pair, ties by order from the pointer; no other process's frame is touched |
| UmcClock.ClockIsBest | tp-2016-1c-SO-2016-1C/umc/funciones.c:415-448 | the clock's victim is the first unreferenced frame from the pointer, or the first if all are referenced; no other process's frame is touched |
| UmcClock.EnhancedStep | tp-2016-1c-SO-2016-1C/umc/funciones.c:83-112 | each iteration that finds no victim moves on within one of four rounds |
| UmcClock.ClockSweeps | tp-2016-1c-SO-2016-1C/umc/funciones.c:429-441 | the clock clears the reference bits of the process up to the victim, or all of them when all were set, and no other bit |
| UmcClock.EnhancedSweeps | tp-2016-1c-SO-2016-1C/umc/funciones.c:83-112 | the enhanced clock does the same, and nothing when it finds a frame with both bits clear |
| UmcClock.NextOwnedIs | tp-2016-1c-SO-2016-1C/umc/funciones.c:45-65 | the pointer goes to the one frame of the process with none of its own in between, going round, and stays exactly when it has no other |
| UmcClock.MoverPunteroProximaPosibleVictima | tp-2016-1c-SO-2016-1C/umc/funciones.c:45-65 | the returned frame is the process's, and none between is, going round the list |
| UmcClock.BuscarVictimaClock | tp-2016-1c-SO-2016-1C/umc/funciones.c:415-448 | the loop ends within two rounds with the clock's victim and cleared bits, the pointer on the process's next frame after the victim |
| UmcClock.RecorrerModificado | tp-2016-1c-SO-2016-1C/umc/funciones.c:67-112 | the loop ends within four rounds with the enhanced clock's victim and cleared bits |
| UmcClock.BuscarVictimaClockModificado | tp-2016-1c-SO-2016-1C/umc/funciones.c:67-115 | the victim of the loop, and the pointer on the process's next frame after it |
| UmcSafety.TlbAgrees | tp-2016-1c-SO-2016-1C/umc/funciones.c:282-339 | a TLB hit is what the page table says |
| UmcSafety.LookupIsOwn | tp-2016-1c-SO-2016-1C/umc/funciones.c:282-320 | the frame a lookup names belongs to the process that asked |
| UmcSafety.LoadTlbKeeps | tp-2016-1c-SO-2016-1C/umc/funciones.c:613-635 | loading an entry after a miss keeps the TLB coherent and its live keys distinct |
| UmcSafety.TlbVictimIsOldest | tp-2016-1c-SO-2016-1C/umc/funciones.c:365-397 | a full TLB gives up the first of its entries with the least recorded stamp |
| UmcLru.FairIff | tp-2016-1c-SO-2016-1C/umc/funciones.c:182-201 | recorded stamps that are in the order of use stay in it over a request exactly when its page's entry becomes the newest and the others keep their order |
| UmcLru.HitFairIff | tp-2016-1c-SO-2016-1C/umc/funciones.c:182-201 | the exact condition on a TLB hit, whatever the access count: the stamp left is newer than all others, or, when an earlier entry for the same process and frame is stamped instead, the entry was the newest already and the earlier one keeps its place; while 16 bits hold the access count the former is always so and the latter never |
| UmcLru.LoadFairIff | tp-2016-1c-SO-2016-1C/umc/funciones.c:613-635 | the exact condition for a request that makes a new entry, whatever the access count; reads and writes stamp it differently |
| UmcLru.WrapIsUnfair | tp-2016-1c-SO-2016-1C/umc/funciones.c:182-201 | when the 16-bit stamp wraps, a hit on the first entry for its process and frame leaves it older than every other live entry with a stamp, so the order of use is lost as soon as there is one |
| UmcLru.VictimIsLru | tp-2016-1c-SO-2016-1C/umc/funciones.c:384-397 | after a run of such requests a full TLB gives up the entry of the page used longest ago |
| UmcLru.VictimUsedLast | tp-2016-1c-SO-2016-1C/umc/funciones.c:384-397 | after a run of seven requests a full TLB gives up the page that the last two were for |
| UmcSafety.ReplaceKeeps | tp-2016-1c-SO-2016-1C/umc/funciones.c:540-563 | replacement evicts a frame of the same process, makes the page resident there and keeps all tables coherent |
| UmcSafety.ReplacePointer | tp-2016-1c-SO-2016-1C/umc/funciones.c:429-434 | after a replacement the process's pointer is on its next frame after the victim |
| UmcRounds.AllReferencedVictimIff | tp-2016-1c-SO-2016-1C/umc/funciones.c:83-112 | with every frame referenced the clock takes the one under its pointer, the enhanced clock exactly when that one is unmodified or all are modified |
| UmcRounds.FaultTurns | tp-2016-1c-SO-2016-1C/umc/funciones.c:540-563 | from frames in the order the clock wants them, a page that was out comes into the frame under the pointer, the pointer goes to the next, and they are in that order again |
| UmcRounds.ReferencedGoRound | tp-2016-1c-SO-2016-1C/umc/funciones.c:415-448 | after any run that leaves all frames of a process at its quota referenced, and for the enhanced clock all or none modified, its page faults take its frames in cyclic order, for as long as nothing else comes between |
| UmcEffects.LoadFrames | tp-2016-1c-SO-2016-1C/umc/funciones.c:540-695 | a frame a page is brought into starts referenced and unmodified; no other changes hands or its modified bit |
| UmcEffects.FreshFrame | tp-2016-1c-SO-2016-1C/umc/funciones.c:669-690 | with quota left and a frame free, the lowest free one is taken, the process is charged, its pointer set if it is the first, and nothing else changes |
| UmcEffects.ChargedFrame | tp-2016-1c-SO-2016-1C/umc/funciones.c:669-690 | with quota left and no frame free, the process is charged, the page stays out, and only the last frame of the list changes, whosever it is |
| UmcEffects.WriteEffect | tp-2016-1c-SO-2016-1C/umc/funciones.c:1111-1148 | a write to a resident page leaves its frame referenced and modified and no other changed, on a TLB hit and on a miss |
| UmcEffects.ReadEffect | tp-2016-1c-SO-2016-1C/umc/funciones.c:1026-1064 | a read of a resident page leaves its frame referenced, its modified bit as it was, and no other frame changed |
| UmcEffects.ThenTlbKnows | tp-2016-1c-SO-2016-1C/umc/funciones.c:613-635 | after either, the TLB names that frame for the page |
| UmcEffects.EntryGivenUp | tp-2016-1c-SO-2016-1C/umc/funciones.c:384-397 | a new entry replaces the first free one or, when all are live, the first with the least stamp, and no other |
| UmcEffects.ModifiedIff | tp-2016-1c-SO-2016-1C/umc/funciones.c:134-149 | over every run a frame is modified exactly when it was written to while the page was in it, or memory was flushed, and no page has been brought into it since |
| UmcEffects.EvictForgets | tp-2016-1c-SO-2016-1C/umc/funciones.c:234-247 | an eviction makes the TLB forget the pages of that frame, and no other |
| UmcEffects.FaultCounts | tp-2016-1c-SO-2016-1C/umc/funciones.c:540-695 | how many accesses a request for a page that is out costs, in every outcome, and which pages the TLB knows after it |
| UmcEffects.SwitchForgets | tp-2016-1c-SO-2016-1C/umc/funciones.c:1201-1211 | a switch makes it forget every page of the process that leaves, and no other |
| UmcEffects.FlushForgets | tp-2016-1c-SO-2016-1C/umc/funciones.c:221-232 | a flush makes it forget every page |
| UmcEffects.FlushMarks | tp-2016-1c-SO-2016-1C/umc/funciones.c:208-219 | a flush of memory marks every frame as modified and changes nothing else |
| UmcEffects.BeginIs | tp-2016-1c-SO-2016-1C/umc/funciones.c:943-961 | a new process has exactly the pages 0 to n - 1, all out and with a number no frame has; the others keep theirs |
| UmcEffects.EndsAllOfIt | tp-2016-1c-SO-2016-1C/umc/funciones.c:1179-1199 | a program that ends, or asks for a page it does not have, keeps no entry, no frame and no live TLB entry |
| UmcSafety.LoadKeeps | tp-2016-1c-SO-2016-1C/umc/funciones.c:636-695 | loading keeps quota and coherence; the page is resident afterwards exactly when the quota is used up or a frame was free |
| UmcSafety.FinishKeeps | tp-2016-1c-SO-2016-1C/umc/funciones.c:1179-1199 | ending a program keeps the invariant |
| UmcSafety.FinishLocal | tp-2016-1c-SO-2016-1C/umc/funciones.c:1179-1199 | ending a program leaves pages, frames and TLB entries of every other process as they were |
| UmcSafety.ServeKeeps | tp-2016-1c-SO-2016-1C/umc/funciones.c:1020-1211 | every request keeps the invariant |
| UmcSafety.RequestsAreLocal | tp-2016-1c-SO-2016-1C/umc/funciones.c:1020-1178 | a read or write of one process leaves every page of every other process where it was |
| UmcSharing.EvictAloneIff | tp-2016-1c-SO-2016-1C/umc/funciones.c:449-483 | the page brought in is the only one resident in its frame exactly when no page but the first with that frame number was resident there |
| UmcSharing.SharedFrame | tp-2016-1c-SO-2016-1C/umc/funciones.c:456-463 | a process that reads the first m of its pages with one frame ends with all of them but the first resident in it, because every eviction marks the first page |
| UmcSharing.ChargedForNothing | tp-2016-1c-SO-2016-1C/umc/funciones.c:669-690 | with one frame and a quota of two, the second page read is charged for and stays out |
| UmcSafety.EveryRun | tp-2016-1c-SO-2016-1C/umc/funciones.c:1020-1211 | in every reachable state TLB and page table agree, frames named are the process's own, quotas are kept and the pointer of a process with frames is on one of them |
| UmcServer.Umc.BuscarEnListaProcesos | tp-2016-1c-SO-2016-1C/umc/funciones.c:282-320 | frame, page out, or no such page |
| UmcServer.Umc.BuscarEnTLB | tp-2016-1c-SO-2016-1C/umc/funciones.c:322-339 | the frame of the first live entry with that key, or -1 |
| UmcServer.Umc.BuscarEntradaMasAntigua | tp-2016-1c-SO-2016-1C/umc/funciones.c:365-382 | the scan computes the replacement candidate |
| UmcServer.Umc.CargarEnTLB | tp-2016-1c-SO-2016-1C/umc/funciones.c:613-635 | the entry goes to the first free place or over the oldest |
| UmcServer.Umc.AlgoritmoDeReemplazo | tp-2016-1c-SO-2016-1C/umc/funciones.c:540-563 | replacement as specified, for either victim search |
| UmcServer.Umc.CargarPaginaEnMemoria | tp-2016-1c-SO-2016-1C/umc/funciones.c:636-695 | loading as specified |
| UmcServer.Umc.SolicitarBytes | tp-2016-1c-SO-2016-1C/umc/funciones.c:1020-1103 | the tables after a read, which stay sound; of a resident page only the reference bit of its frame changes |
| UmcServer.Umc.AlmacenarBytesPagina | tp-2016-1c-SO-2016-1C/umc/funciones.c:1104-1178 | the tables after a write, which stay sound; a resident page's frame ends referenced and modified, no other changes |
| UmcServer.Umc.InicializarPrograma | tp-2016-1c-SO-2016-1C/umc/funciones.c:943-961 | a new process with all its pages out |
| UmcServer.Umc.Terminar | tp-2016-1c-SO-2016-1C/umc/funciones.c:1179-1199 | frames, pages and TLB entries of the process are gone, all others stay |
| UmcServer.Umc.CambioProceso | tp-2016-1c-SO-2016-1C/umc/funciones.c:1201-1211 | the TLB forgets the process that leaves |
| UmcServer.Umc.FlushTLB | tp-2016-1c-SO-2016-1C/umc/funciones.c:221-232 | no entry stays live |

## Left out

- OsadaServer.Osada.Write: end positions past 2^31 - 1 are outside the model, because the server keeps sizes in C ints there; the bytes of a gap between the old end and the offset are not specified, as in the code; size 0 gives no reply, as the receive guard does.
- OsadaServer.Osada.Truncate: new sizes past 2^31 - 1 are outside the model for the same reason.
- OsadaServer.Osada.Read: offset plus size is taken below 2^32, where the request does not wrap.
- OsadaServer.Osada.Mknod: names and parents are not stored; the inode model has state, size, time and first block.
- OsadaRuns.EveryInterleaving: assumes that no write, truncate or unlink starts on a directory, which the code does not check (`MkdirMeetsUnlinkBreaks`); a lookup is two events, its slot-by-slot searches being in `OsadaPaths` and `OsadaLocks`; mknod and mkdir take any deleted slot nobody holds, in one step, because which slot is lowest depends on how long each lock was waited for; readers are not threads, since they change nothing and exclude writers of their file.
- OsadaPaths.Session.ResolveFile: names and components are given already split, and paths have at least one component; what other threads do to the table is a given sequence of tables, one for each lock the thread takes.
- OsadaLocks.DeadlockIff: where each search ends is given, as in a table nobody changes meanwhile; readdir, which keeps what it has locked but waits only for reading, and rename are not among the searches.
- OsadaDirectories.TruncateDirectoryIff: the walk from the directory's first block is taken to end; where stale links of free blocks send it in a circle or out of the table, the original does not return or faults.
- OsadaPaths.Session.Write: what the operation does to the volume is in `OsadaServer` and `OsadaThreads`; here whether it grows the file and finds room are parameters.
- mkdir, mknod and rename as lock users, and the directory tree: mkdir tests the wrong variable for ENOSPC, rmdir does not check emptiness, rename keeps locks; nothing about the tree as a whole holds.
- SwapServer.Swap.RealizarPedidoUMC: the swap file is taken to have its full length of zeros from the start, although the program reopens it truncated; page contents handed to a write have exactly one page of bytes, and a content without NUL counts as one page long.
- SwapServer.Swap.Contiguo: the bitmap has one guard entry past the last slot that is always free, where the original reads past its array.
- Swap requests are valid: positive page counts, fresh pids on INICIAR, existing processes and pages on LEER, existing pages on ESCRIBIR; main initialises the bitmap before it knows its size, and the model starts initialised.
- UmcSafety.LoadKeeps: bytes of main memory are not modelled, so the write to the last frame when none is free, and the write miss that stores nothing, appear only in access counts and reference bits.
- UmcServer.Umc.AlgoritmoDeReemplazo: the test on the algorithm name is replaced by a choice between the two searches, because for the name CLOCK-M the original runs neither.
- UmcSafety.EveryRun: one request at a time; quotas from 1 to 255, which is what the one-byte frame count of a process holds; the access counter is unbounded, while its 16-bit copies in the TLB are truncated as in the code; TLB entries start with pid 0 and the clock pointer of a process without frames with 0, both uninitialised in the original.
- Sockets, mmap, FUSE, logging, configuration, consoles, sleeps and the mutexes of the memory unit: plumbing, not modelled.
- The nucleus, the CPU, the map server's deadlock detection and the trainer: separate programs with no invariant of this kind.
