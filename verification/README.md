# The algorithms of pcboot

pcboot is a small PC kernel in C. This project models the parts of it that keep state or compute something, and proves
what they keep over whole runs. Modules whose name ends in `Spec`, and `HeapRuns`, hold specifications on values and
the theorems about them; the module beside each holds the code in the form the kernel has it, with its arrays, linked
nodes, raw memory words and cached fields, proved equal to the specification step by step.

- **Memory.** `Pages` is the page bitmap with its search hint; `HeapSpec`, `HeapRuns` and `Heap` are `malloc` and `free`
  over block headers in raw memory, on top of that bitmap.
- **FAT files.** `FatSpec` and `FatFile`: a position, a cached cluster number and a cached cluster buffer stand for a
  sequence of bytes and an offset (FAT16, and FAT32 entries). Of the table only a set of clusters closed under their
  links is asked for; every other entry may be anything, such as a bad-cluster mark.
- **Timer.** `TimerSpec` and `Timer`: alarms kept as differences, in a linked list.
- **Memory file system.** `MemFileSpec` and `MemFile` (a growing buffer shared by handles), `MemTreeSpec` and `MemTree`
  (directories as linked child lists), `Paths` and `Cwd` (path splitting, current directory).
- **libc.** `QSortSpec` and `QSort`, `Calendar`, `Numbers`, `MemOps`; `Chars`, `Words` and `Seqs` are shared.
- **Input.** `Rings`: the keyboard and serial buffers.

Where the code falls short of its evident purpose or of its own comments, the model follows the code, and a lemma says
exactly when the purpose is met:

- `malloc` writes a block header behind its fresh pages when the request leaves 4 or 8 bytes at their end
  (`Heap.RefillStaysInRun`); a size near 2^32 wraps (`HeapSpec.TotalSizeHoldsRequest`, `HeapSpec.PagesHoldBlock`).
- `free` does not merge with a predecessor when the block goes in front of a successor (`HeapSpec.CoalescedExactly`).
- The comment above `free_ppage` says that nothing is checked; the code panics on a page that is already free.
- `cancel_alarm` frees the first event of the list without unlinking it (`TimerSpec.CancelExactly`,
  `Timer.EventTimer.CancelAlarm`).
- `qsort` never leaves its partition loop when two items strictly between the first and the last tie with the pivot
  (`QSortSpec.StopsExactly`): it returns whenever no three items of the array tie (`QSortSpec.FewTiesNoStall`), never
  when four do (`QSortSpec.FourTies`), and for three it depends on their places (`QSortSpec.ThreeTiesEither`).
- After the end of a FAT file, a seek within the cluster of the position does not make the file readable again
  (`FatSpec.SeekThenRead`), and one to a later cluster looks up entry -1 of the table (`FatSpec.SeekInsideExactly`,
  `FatSpec.SeekOutside`); a FAT32 entry is compared with all its 32 bits (`FatSpec.TopNibble`).
- A seek of a FAT file from its end is not clamped to 0: the sum is taken modulo 2^32, so 200 bytes before the end of a
  file of 100 is position 4294967196 (`FatSpec.SeekEndExactly`, `FatSpec.SeekEndWraps`).
- `set_alarm` ignores alarms of less than a tick (`TimerSpec.ShortIsNever`).
- Creating ".." in the root adds an entry that no path leads to (`MemTreeSpec.CreateExactly`).
- `fs_chdir("..")` only drops the last name (`Cwd.UpExactly`).
- The length test of `fs_chdir` leaves no room for the separator and the terminator, so that a relative path can overrun
  the buffer (`Cwd.RelativeExactly`, `Cwd.RelativeOverruns`); it counts the old string even for an absolute path, which
  replaces it, and panics on some that fit (`Cwd.AbsoluteExactly`, `Cwd.AbsolutePanics`).
- A seek of a memory file past 2^31 - 1 overflows, and lands at the start (`MemFileSpec.TargetExactly`,
  `MemFileSpec.SeekWraps`). A write past the end leaves bytes that nobody wrote, which reads return
  (`MemFileSpec.DenseExactly`).
- `strtol` does not skip the "0x" that it recognizes (`Numbers.HexPrefixLost`), and with base 0 it looks for it, and for a
  leading 0, in front of the sign (`Numbers.SignHidesBase`); `itoa` needs more than its scratch buffer
  for small bases (`Numbers.FitsExactly`).
- `memcmp` of no bytes can differ from 0 exactly when two different addresses are misaligned alike
  (`MemOps.NothingExactly`).
- `ser_read` stops at, and loses, a character of value -1 (`Rings.TakeExactly`).

## Model

| member | source | states |
|---|---|---|
| Pages.FirstFitIsLowest | src/mem.c:192-222 | an upward search finds the lowest start of a free run, and -1 exactly when there is none |
| Pages.LastFitIsHighest | src/mem.c:188-191 | a downward search finds the highest start of a free run, and -1 exactly when there is none |
| Pages.SearchExactly | src/mem.c:181-226 | a search yields a page exactly if it is the lowest start of a free run for MEM_HEAP and the highest for MEM_STACK, and -1 exactly if there is none |
| Pages.PageAllocator.MarkPage | src/mem.c:289-299 | one page changes, no other |
| Pages.PageAllocator.AllocPageRange | src/mem.c:237-261 | succeeds exactly when all pages are free; marks all of them or none; interrupts stay off on failure |
| Pages.PageAllocator.FullWordHasNone | src/mem.c:202-202 | a word of all ones has no free page, so skipping it misses none |
| Pages.PageAllocator.SearchWord | src/mem.c:206-219 | the loop over the 32 pages of a word finds the first fitting start in its direction and keeps the hint right |
| Pages.PageAllocator.AllocPages | src/mem.c:181-226 | the word-skipping search from the hint returns the lowest start of a free run for MEM_HEAP, the highest for MEM_STACK, and -1 exactly if there is none, as a page-by-page search of all words would; it marks exactly that run, keeps the hint invariant and restores the interrupt flag |
| Pages.PageAllocator.FreePage | src/mem.c:161-178 | frees exactly the page, panics exactly on a free one, keeps the hint invariant |
| Pages.PageAllocator.FreePages | src/mem.c:228-235 | frees exactly the run, or panics at its first free page |
| Pages.StepKeepsAccount | src/mem.c:161-235 | after every allocation or free a page differs from the original map exactly where an outstanding run covers it, and runs do not overlap |
| Pages.RunsRestore | src/mem.c:161-235 | over every run of allocations and matching frees, giving everything back restores the map bit for bit |
| HeapSpec.TotalSizeHoldsRequest | src/libc/malloc.c:86-86 | the rounded size holds the request and a descriptor exactly while it does not wrap, with at most 3 bytes of padding |
| HeapSpec.PagesHoldBlock | src/libc/malloc.c:124-124 | the pages asked for hold the block exactly while the rounding does not wrap, with less than a page to spare |
| HeapSpec.InsertCovers | src/libc/malloc.c:162-209 | free, on all four insert and merge paths, keeps the address order, adds exactly the addresses of the block to the pool, and loses no byte |
| HeapSpec.CoalescedExactly | src/libc/malloc.c:176-206 | free keeps a pool without touching neighbours exactly when the block does not touch a predecessor that has a successor |
| HeapSpec.TakeCovers | src/libc/malloc.c:86-121 | an allocation from the pool removes exactly the addresses of the whole block it took, keeps the order, and loses at most 20 bytes |
| HeapSpec.SplitLeavesBlock | src/libc/malloc.c:97-111 | a split leaves at least MIN_BLOCK_SIZE behind and loses nothing |
| HeapSpec.NoFitExactly | src/libc/malloc.c:90-113 | the first-fit search fails exactly when every pool block is too small |
| Heap.TakeIs | src/libc/malloc.c:90-111 | the first block that is large enough is taken: whole in a near fit, otherwise the upper end of it |
| HeapRuns.ReleaseKeepsInv | src/libc/malloc.c:147-214 | free keeps order, disjointness, page ownership and the byte count of the heap |
| HeapRuns.FromPoolKeepsInv | src/libc/malloc.c:86-121 | so does malloc from the pool |
| HeapRuns.FromPagesKeepsInv | src/libc/malloc.c:123-144 | so does malloc from fresh pages |
| HeapRuns.FromPagesShape | src/libc/malloc.c:123-144 | a refill comes to one live block more at the start of the pages, and the rest inserted into the pool |
| HeapRuns.NullExactly | src/libc/malloc.c:89-128 | malloc yields null exactly when no pool block is large enough and no run of free pages is long enough |
| HeapRuns.RefillIsLowest | src/libc/malloc.c:123-142 | a refill puts the new block at the lowest run of free pages that holds it, and nothing changes if there is none |
| HeapRuns.StepKeepsInv | src/libc/malloc.c:79-214 | every call of malloc, free and of other page clients keeps the invariant of the whole system |
| HeapRuns.RunsKeepInv | src/libc/malloc.c:79-214 | so does every run: no overlap, address order, and bytes obtained = pool + live + lost with at most 20 lost per malloc |
| HeapRuns.NoOverlap | src/libc/malloc.c:79-214 | a live block overlaps neither a pool block nor another live block |
| Heap.Allocator.constructor | src/libc/malloc.c:50-50 | a kernel that has not allocated yet has a valid heap |
| Heap.Allocator.Link | src/libc/malloc.c:165-209 | the walk of free turns the list in memory into the one with the block inserted, writing only to pool blocks and the block |
| Heap.Allocator.Free | src/libc/malloc.c:147-214 | free of a live block is a release and touches no other live block; any other magic panics, as double free or corruption |
| Heap.Allocator.TakeFromPool | src/libc/malloc.c:88-121 | the first-fit loop over memory takes the block that the specification takes, or nothing changes |
| Heap.Allocator.CutRun | src/libc/malloc.c:129-142 | cuts fresh pages into the block and a rest that goes to the pool, touching no live block |
| Heap.Allocator.MallocFromPages | src/libc/malloc.c:123-144 | the refill of malloc as a step of the system, at the lowest run of free pages that holds it |
| Heap.Allocator.MallocFromPool | src/libc/malloc.c:86-121 | malloc from the pool as a step of the system, null exactly when no block fits |
| Heap.Allocator.Malloc | src/libc/malloc.c:79-145 | malloc is a step of the system, its result points behind the header of the new live block, which a refill puts at the lowest run of free pages, and no live block is touched |
| Heap.Allocator.Store | src/libc/malloc.c:46-47 | a program that writes inside the payload of its block leaves the heap intact |
| Heap.Allocator.FreeTwice | src/libc/malloc.c:155-163 | an immediate second free of the same pointer always panics |
| Heap.RefillStaysInRun | src/libc/malloc.c:135-141 | the refill writes only inside its pages exactly when it does not leave 4 or 8 bytes |
| Heap.SpillHitsNeighbour | src/libc/malloc.c:135-141 | when it does, a live header at the start of the next page is lost |
| FatSpec.TopNibble | src/fsfat.c:890-926 | comparing all 32 bits of a FAT32 entry agrees with the 28-bit entry exactly when the top bits are zero or the chain ends anyway |
| FatSpec.EntryEnds | src/fsfat.c:902-926 | an entry ends a chain exactly if it is 0 or one of the eight end marks, for 16 and for 28 bits, and otherwise is the next cluster |
| FatSpec.FindAdds | src/fsfat.c:929-933 | walking i and then j links is walking i + j links |
| FatSpec.FindEnds | src/fsfat.c:929-933 | a chain that has ended stays ended |
| FatSpec.SectorInRange | src/fsfat.c:795-804 | the sectors of a cluster are on the disk |
| FatSpec.ClusterOnDisk | src/fsfat.c:795-804 | read_cluster yields the sectors of the cluster, which start at the number of clusters from cluster 2 on times the cluster size, behind the first data sector |
| FatSpec.BytesOnDisk | src/fsfat.c:550-608 | every byte of a chain is the one of the disk at its offset in the cluster that many links on |
| FatSpec.ContentAt | src/fsfat.c:550-608 | so is every byte of a file, down to its sector and its place there |
| FatSpec.ContentLength | src/fsfat.c:591-603 | a file has as many bytes as its size says, unless its chain ends before: then it has all of the chain |
| FatSpec.BytesFrom | src/fsfat.c:795-804 | the content from the i-th cluster on is the content of the chain that starts there |
| FatSpec.ClusterSlice | src/fsfat.c:578-589 | what is copied out of the cluster buffer is the content at the position |
| FatSpec.ReadKeeps | src/fsfat.c:591-605 | after a read the cached cluster is again the chain element at the position, or dropped |
| FatSpec.ReadTwice | src/fsfat.c:550-608 | two reads yield what one read of the sum yields, and end in the same state |
| FatSpec.ChunkIsRead | src/fsfat.c:572-606 | one turn of the loop is a read of its length |
| FatSpec.EndOfContent | src/fsfat.c:599-603 | where the content ends before the size there is no cluster left |
| FatSpec.LiveInside | src/fsfat.c:929-933 | every position inside the content has a cluster |
| FatSpec.SeekAgrees | src/fsfat.c:519-535 | walking forward from the cached cluster and restarting from the first one land on the same element |
| FatSpec.SeekInsideExactly | src/fsfat.c:521-533 | every table entry that a seek looks up is in the table exactly unless it goes to a later cluster after the end of the file has been reached |
| FatSpec.SeekMoves | src/fsfat.c:502-519 | from the start and from the position a seek moves by the offset, but to no position before the start |
| FatSpec.SeekOutside | src/fsfat.c:521-533 | a file of 100 bytes in clusters of 512, read to its end: a seek to 512 looks up entry -1 |
| FatSpec.SeekThenRead | src/fsfat.c:488-608 | a seek into the content followed by any read yields the slice there, exactly unless the end had been reached and the cluster stays the same |
| FatSpec.SeekEndExactly | src/fsfat.c:511-519 | a seek from the end reaches the clamped sum exactly while that sum is an unsigned 32-bit number |
| FatSpec.SeekEndWraps | src/fsfat.c:511-519 | a seek to before the start wraps to a position at least 2^31 behind the end |
| FatSpec.LengthExactly | src/fsfat.c:578-585 | a seek within the last cluster keeps it cached, and the copy length is then no length exactly past the end |
| FatSpec.RunRefines | src/fsfat.c:488-608 | over every run of reads and seeks the cached reader yields what a byte sequence and an offset yield, unless a seek goes past the end within the last cluster or follows a dropped cluster into it or behind it |
| FatSpec.BytesSnoc | src/fsfat.c:669-681 | one more turn of the chain loop appends the next cluster to the content |
| FatSpec.EndsExactly | src/fsfat.c:681-681 | a chain ends exactly when it never comes to a cluster twice |
| FatSpec.EndsInTable | src/fsfat.c:681-681 | such a chain ends within the size of the table |
| FatFile.OpenFile.constructor | src/fsfat.c:758-772 | a fresh file, with or without a cluster, starts at its first cluster with no valid buffer |
| FatFile.OpenFile.FillBuffer | src/fsfat.c:573-576 | afterwards the buffer is valid and holds the bytes of the cached cluster's sectors on the disk |
| FatFile.OpenFile.ReadChunk | src/fsfat.c:572-606 | a turn of the loop moves the next bytes of the content and steps to the next cluster or to the end |
| FatFile.OpenFile.Read | src/fsfat.c:550-608 | read stores exactly the content at the position, which is the bytes of the disk there, as much as there is, nothing behind it, and keeps the cache consistent; behind the end without a cached cluster it returns 0 |
| FatFile.OpenFile.Seek | src/fsfat.c:488-536 | seek moves to the target, from the start and the position clamped to 0, from the end modulo 2^32, and keeps the cache consistent |
| FatFile.FindCluster | src/fsfat.c:929-933 | the loop yields the cluster that many links on |
| FatFile.LoadChain | src/fsfat.c:669-681 | the loop of load_dir collects all bytes of the chain, as the disk has them, up to its end: a file over it, of any larger size, has the same content |
| TimerSpec.TicksOfMsec | src/timer.c:95-95 | the tick count of a delay is its quarter exactly while the product does not wrap |
| TimerSpec.ShortIsNever | src/timer.c:95-97 | while its product does not wrap an alarm is set exactly unless it is shorter than a tick of 4 ms |
| TimerSpec.SetAlarmAdds | src/timer.c:108-134 | set_alarm adds one alarm with its own deadline and moves no other deadline; it goes behind the first alarm unless that is due later, and among the others in front of those that are due at the same time |
| TimerSpec.SetAlarmOrdered | src/timer.c:108-134 | the differences stay nonnegative and the first one positive |
| TimerSpec.CancelExactly | src/timer.c:148-162 | cancel_alarm removes the first match and keeps every other deadline exactly when the match is not the head |
| TimerSpec.CancelHeadDelays | src/timer.c:148-162 | a match at the head stays, and every later alarm is delayed by its remaining ticks |
| TimerSpec.TickFires | src/timer.c:167-182 | a tick fires exactly the alarms with one tick left, in order, and brings all others one tick closer |
| TimerSpec.StepKeepsInv | src/timer.c:90-182 | every call keeps the queue ordered and its alarms distinct |
| TimerSpec.RunKeepsTime | src/timer.c:90-182 | over every run an alarm stays exactly on time as long as no cancel finds it, whatever other alarms share its callback |
| TimerSpec.RunCountsTicks | src/timer.c:169-169 | the tick count is the number of handler calls |
| TimerSpec.ExactFiring | src/timer.c:90-182 | over every run in which no cancel finds it, an alarm of T ticks fires at the T-th later tick, once, and at no other |
| TimerSpec.CancelledNeverFires | src/timer.c:139-182 | an alarm that a cancel finds never fires, whatever follows |
| Timer.EventTimer.InsertFirst | src/timer.c:108-116 | linking in front inserts the event and shortens the next difference |
| Timer.EventTimer.InsertAfter | src/timer.c:126-133 | linking behind a node inserts the event there and shortens the next difference |
| Timer.EventTimer.Walk | src/timer.c:118-124 | the walk finds the node behind which the specification places the event |
| Timer.EventTimer.SetAlarm | src/timer.c:90-137 | set_alarm on the linked list is a step of the queue |
| Timer.EventTimer.Unlink | src/timer.c:152-159 | the edit of cancel_alarm at a match; at the head the node stays in the list |
| Timer.EventTimer.FindEvent | src/timer.c:148-161 | the search of cancel_alarm stops at the first event with the callback |
| Timer.EventTimer.CancelAlarm | src/timer.c:139-165 | cancel_alarm is a step of the queue, and leaves no freed node in the list exactly when the head does not match |
| Timer.EventTimer.CallDue | src/timer.c:174-180 | the loop unlinks, calls and frees exactly the due events in order |
| Timer.EventTimer.Handle | src/timer.c:167-182 | timer_handler is a step of the queue and calls exactly the due callbacks in order |
| MemFileSpec.GrownBounds | src/fsmem.c:352-358 | a growth is to the written end or to twice the buffer, whichever is more, stays below twice the written end, and fits an int if the doubled size does |
| MemFileSpec.TargetExactly | src/fsmem.c:278-310 | a seek reaches the clamped sum exactly while the sum is below 2^31, and otherwise the start |
| MemFileSpec.SeekMoves | src/fsmem.c:278-310 | while nothing overflows a seek moves by the offset from the start, the position or the end, but not before the start |
| MemFileSpec.SeekWraps | src/fsmem.c:278-310 | one byte further than the largest position is the start |
| MemFileSpec.ReadLengthExactly | src/fsmem.c:333-335 | the copy length of read is a length exactly when the position is not past the end; then a read that yields less than was asked for has come to the end |
| MemFileSpec.WriteKeepsInv | src/fsmem.c:341-371 | a write keeps the growth bounds and the history of last written bytes |
| MemFileSpec.Dense | src/fsmem.c:341-371 | while no write starts past the end every byte of the file has been written |
| MemFileSpec.DenseExactly | src/fsmem.c:341-371 | every byte of the file has been written, at every time, exactly when no write starts past the end |
| MemFileSpec.RunsKeepInv | src/fsmem.c:278-371 | over every interleaving of handles: size is the furthest written end, capacity stays below twice the size, growth copied no more than the capacity, and every byte is the last one written |
| MemFileSpec.RunsStayInInts | src/fsmem.c:278-371 | over every such run positions, size and capacity stay below 2^31 |
| MemFileSpec.ReadsLastWritten | src/fsmem.c:323-371 | a read through any handle yields as many bytes as were asked for or are left, whichever is less, and they are the bytes last written through any handle |
| MemFile.FileData.Realloc | src/fsmem.c:359-364 | what write needs of realloc: the old bytes in front of arbitrary new ones |
| MemFile.FileData.Store | src/fsmem.c:367-369 | the bytes are put at the position and nothing else in the buffer changes |
| MemFile.Handle.Seek | src/fsmem.c:278-310 | the position is the sum as a 32-bit long holds it, or 0 if that is negative |
| MemFile.Handle.Read | src/fsmem.c:323-339 | read stores exactly the bytes of the file at the position, all that were asked for or up to the end, and advances past them |
| MemFile.Handle.Write | src/fsmem.c:341-371 | write puts its bytes at the position, growing if it must; without memory it fails and changes nothing |
| Paths.SplitJoin | src/fs.c:260-278 | splitting a joined path yields its names, each cut to what the name buffer holds |
| Paths.SplitNames | src/fs.c:260-278 | every name split off is nonempty, without separator or terminator, and fits the buffer |
| Paths.PathSkipSep | src/fs.c:254-258 | skips exactly the leading separators |
| Paths.PathNext | src/fs.c:260-278 | leaves the next name, cut and terminated, in the buffer and yields the rest of the path |
| Cwd.UpExactly | src/fs.c:79-124 | entering a directory by a relative path and leaving it by ".." restores the string exactly for a path without separators |
| Cwd.RelativeExactly | src/fs.c:111-123 | a relative path goes behind the string, with one separator between unless that is the root; the length test is right exactly while the separator and the terminator have room too, or it fails |
| Cwd.RelativeOverruns | src/fs.c:111-123 | a path of 24 behind a string of 1000, and every relative one that just passes, overruns the buffer |
| Cwd.AbsoluteExactly | src/fs.c:111-117 | an absolute path replaces the string; the test is right exactly while the old length, which it adds, makes no difference |
| Cwd.AbsolutePanics | src/fs.c:111-117 | it panics on an absolute path of 100 characters while the old string has 1000 |
| Cwd.WorkDir.ChDir | src/fs.c:66-130 | the current directory string after every form of fs_chdir; unchanged on failure and on the panic for a long path |
| Cwd.WorkDir.ParentLength | src/fs.c:86-90 | the backward scan stops at the last separator, keeping the one of the root |
| MemTreeSpec.LookupExactly | src/fsmem.c:494-509 | find_entry of a name other than "." and ".." yields a node exactly when it is a child with that name up to case |
| MemTree.Dots | src/fsmem.c:494-509 | find_entry takes "." for the directory and ".." for its parent, which the root does not have |
| MemTreeSpec.ResolvesExactly | src/fsmem.c:156-218 | a path without "." and ".." resolves to a node exactly when it spells, up to case, the names above the node |
| MemTreeSpec.NotDirExactly | src/fsmem.c:173-178 | open fails with ENOTDIR exactly for a path that goes on after a file |
| MemTreeSpec.MissingExactly | src/fsmem.c:173-203 | the walk of open misses a name exactly where the names before lead to a directory without such an entry, and knows whether it is the last |
| MemTreeSpec.OpenExactly | src/fsmem.c:156-218 | open fails with ENOTDIR, EEXIST, ENOENT and ENOMEM exactly in their cases, and otherwise yields the node found or the one created |
| MemTreeSpec.CreatedExactly | src/fsmem.c:189-201 | a create adds a file or a directory as the flags say, without children, named as the path ends, behind the other children of its directory, and changes nothing else; every other open changes nothing |
| MemTreeSpec.RemoveExactly | src/fsmem.c:420-462 | remove fails with EEXIST exactly for a node with children, with EBUSY exactly for an empty root, and otherwise takes out the node, keeping the order of the other children and all else |
| MemTreeSpec.AddKeepsWf | src/fsmem.c:511-520 | adding a node under a missing name keeps the tree: children distinct up to case but for ".." in the root, parents and depths right |
| MemTreeSpec.RemoveKeepsWf | src/fsmem.c:420-462 | removing an empty directory or a file keeps the tree |
| MemTreeSpec.AddResolves | src/fsmem.c:189-201 | after a create of anything but ".." the path resolves to the created node |
| MemTreeSpec.AddKeepsPaths | src/fsmem.c:189-201 | a create changes no path that resolved before |
| MemTreeSpec.RemoveWalk | src/fsmem.c:420-462 | after a remove every path without ".." to the node misses, and every other one resolves as before |
| MemTreeSpec.OpenAgain | src/fsmem.c:156-218 | open keeps the tree; a successful one, unless it created "..", opens the same node again, and a failed one changes nothing |
| MemTreeSpec.RemovedIsGone | src/fsmem.c:420-462 | after a successful remove opening the node fails with ENOENT, all else opens as before |
| MemTreeSpec.CreateExactly | src/fsmem.c:189-201 | a create keeps the tree, and some path from another node leads to the new one exactly unless it is named "..", which happens only in the root |
| MemTreeSpec.Step | src/fsmem.c:156-462 | every open, create and remove keeps the tree well formed |
| MemTreeSpec.RunKeepsPath | src/fsmem.c:156-462 | over every run a path keeps opening its node until that node is removed |
| MemTree.StrCaseCmp | src/libc/string.c:169-176 | 0 exactly for strings that are equal up to case |
| Chars.LowerExactly | src/libc/ctype.c:70-73 | folding makes two characters equal exactly if they are, or are the two cases of one of the 26 letters |
| MemTree.MemFs.constructor | src/fsmem.c:108-133 | a new file system is a root without children |
| MemTree.NamesOfPath | src/fs.c:254-278 | the names that open sees in a path are those it was joined from, each cut to 120 characters, with or without its leading separator |
| MemTree.MemFs.FindEntry | src/fsmem.c:494-509 | the loop over the linked children is the lookup of the specification |
| MemTree.MemFs.Append | src/fsmem.c:513-518 | the links of head and tail then form the list with the node at its end |
| MemTree.MemFs.LinkChild | src/fsmem.c:511-520 | the edits of add_child leave every other directory's list as it was |
| MemTree.MemFs.AddChild | src/fsmem.c:511-520 | add_child on the linked nodes adds the node and keeps every other list |
| MemTree.MemFs.Detach | src/fsmem.c:449-460 | the edit at the match takes the node out of head, links and tail |
| MemTree.MemFs.Unlink | src/fsmem.c:446-460 | the loop of remove takes the node out of its parent's list |
| MemTree.MemFs.UnlinkChild | src/fsmem.c:439-460 | the edits of remove leave every other directory's list as it was |
| MemTree.MemFs.Remove | src/fsmem.c:420-462 | remove on the linked nodes is that of the specification: EEXIST for a directory with children, EBUSY for the root |
| MemTree.MemFs.Resolve | src/fsmem.c:162-203 | the loop of open walks the names of the path as the specification does |
| MemTree.MemFs.Create | src/fsmem.c:195-200 | the node that open creates is new, and the tree is the old one with it added |
| MemTree.MemFs.OpenPath | src/fsmem.c:156-218 | open on the linked nodes yields the node or error, and the tree, of the specification, from the root or the current directory by the first character; a node it creates is of the kind that the flags say |
| QSortSpec.StopsExactly | src/libc/stdlib.c:259-264 | the partition loop ends exactly when no two items between its ends tie with the pivot |
| QSortSpec.PartitionedSplits | src/libc/stdlib.c:251-265 | where it ends, the items are the same ones, and those before the pivot's place are not greater, those behind not less |
| QSortSpec.FewTiesNoStall | src/libc/stdlib.c:239-272 | no level of the recursion stalls when no three items tie |
| QSortSpec.DistinctFewTies | src/libc/stdlib.c:239-272 | so for all pairwise unequal items, which have no three that tie |
| QSortSpec.FourTies | src/libc/stdlib.c:239-272 | four items that tie anywhere in an array, under any comparison, stall some level of the recursion |
| QSortSpec.ThreeTiesEither | src/libc/stdlib.c:239-272 | three items that tie stall or not by their places |
| QSortSpec.FourEqualStall | src/libc/stdlib.c:259-264 | four equal items stall |
| QSort.InsSort | src/libc/stdlib.c:221-237 | sorts in place, a permutation, nothing outside changes |
| QSort.Sink | src/libc/stdlib.c:232-235 | one item sinks to its place among the sorted ones before it |
| QSort.Median | src/libc/stdlib.c:251-255 | the two swaps that make the last item a sentinel |
| QSort.RunLeft | src/libc/stdlib.c:260-260 | the left scan stops in bounds at the first item not less than the pivot |
| QSort.RunRight | src/libc/stdlib.c:261-261 | the right scan stops in bounds at the last item not greater than the pivot |
| QSort.Partition | src/libc/stdlib.c:251-265 | the loop in place does the rounds of the specification and ends |
| QSort.QSort | src/libc/stdlib.c:239-272 | terminates with a sorted permutation, nothing outside changed, whenever no partition stalls |
| Calendar.DateRoundTrip | src/libc/time.c:70-127 | every date from 1970 on comes back from its seconds, with weekday and year day right |
| Calendar.TimeRoundTrip | src/libc/time.c:70-127 | every time from the epoch on comes back from its date, which is normalized |
| Calendar.EveryTimeBack | src/libc/time.c:70-127 | every time comes back from its date, also one before the epoch, whose parts are then not positive |
| Calendar.YearsClosed | src/libc/time.c:79-81 | the days of the years between have the closed form of the Gregorian calendar |
| Calendar.MonthsClosed | src/libc/time.c:35-36 | so have the days before a month: 153 for every five months from March on |
| Calendar.GregorianDay | src/libc/time.c:70-88 | the day number of every date is that of the Gregorian calendar |
| Calendar.ZellersWeekday | src/libc/time.c:84-84 | the weekday of every date is that of Zeller's congruence |
| Calendar.RoundTripExactly | src/libc/time.c:86-87 | with a 32-bit time the date comes back exactly while its seconds fit |
| Calendar.BeforeEpoch | src/libc/time.c:96-127 | a time before the epoch gives no normalized date |
| Calendar.CountDayOfYear | src/libc/time.c:141-152 | the loop counts the days of the months before |
| Calendar.CountYears | src/libc/time.c:107-110 | the loop over the years stops at the year that the day falls in |
| Calendar.Tm.CountMonths | src/libc/time.c:114-118 | the loop over the months stops at the month and day, inside the table |
| Calendar.Tm.MkTime | src/libc/time.c:70-88 | the seconds of the date; only weekday and year day are corrected |
| Calendar.Tm.FromTime | src/libc/time.c:96-127 | the loops find the date of the time, the month staying inside the table |
| Numbers.LengthExactly | src/libc/stdlib.c:105-109 | a number has at most k digits exactly below the k-th power of the base |
| Numbers.FitsExactly | src/libc/stdlib.c:90-144 | the text fits the scratch buffer exactly below the 16th power of the base, the 15th for negative numbers |
| Numbers.Fits | src/libc/stdlib.c:90-144 | it fits for every int above the least from base 5 on, for every unsigned int from base 4 on |
| Numbers.BaseFour | src/libc/stdlib.c:90-121 | in base 4 an int fits exactly above -2^30 |
| Numbers.DigitCharIs | src/libc/stdlib.c:105-107 | the digits of a number are 0 to 9 and then a to z |
| Numbers.PutDigits | src/libc/stdlib.c:101-109 | the digit loop leaves the digits in reverse, inside the scratch buffer |
| Numbers.CopyBack | src/libc/stdlib.c:115-120 | the copy loop reverses them into the result and terminates it |
| Numbers.IToA | src/libc/stdlib.c:90-121 | itoa writes exactly the sign, the digits and the terminator |
| Numbers.UToA | src/libc/stdlib.c:123-144 | utoa writes exactly the digits and the terminator |
| Numbers.PartsUnique | src/libc/stdlib.c:35-88 | a string has only one reading as spaces, sign and digits |
| Numbers.IsSpaceExactly | src/libc/ctype.c:60-63 | strtol skips the blank and the control characters 9 to 13 |
| Numbers.DigitOfExactly | src/libc/stdlib.c:63-73 | strtol takes for digits exactly the sixteen hexadecimal ones of either case, each for its value |
| Numbers.SignedDigits | src/libc/stdlib.c:35-88 | digits of the base behind a plus, a minus or nothing are all read, and the minus negates them |
| Numbers.LeadingZero | src/libc/stdlib.c:44-54 | with base 0 a number with a leading 0 is octal |
| Numbers.SignHidesBase | src/libc/stdlib.c:44-61 | with base 0 a number behind a sign is decimal, which is the base of the digits alone exactly unless they start with a 0 |
| Numbers.StrToL | src/libc/stdlib.c:35-88 | strtol yields the value of that reading, wrapped to 32 bits, and its end, or the start if there are no digits |
| Numbers.RoundTripExactly | src/libc/stdlib.c:35-121 | strtol reads back what itoa wrote, up to the terminator, exactly when no digit is past 'f' |
| Numbers.RoundTrip | src/libc/stdlib.c:35-121 | so in every base up to 16 |
| Numbers.HexPrefixLost | src/libc/stdlib.c:44-54 | with base 0 a "0x" behind any spaces yields 0 and the end behind the 0 |
| MemOps.ForwardMoves | src/libc/string.c:28-34 | the forward copy is a move when dest does not start inside src |
| MemOps.BackwardMoves | src/libc/string.c:35-42 | the backward copy is a move when src does not start behind dest |
| MemOps.ForwardExactly | src/libc/string.c:28-42 | the forward copy moves every memory right exactly when dest does not start inside src |
| MemOps.MemMove | src/libc/string.c:22-45 | dest gets what src held for every overlap, and nothing else changes |
| MemOps.CompareExactly | src/libc/string.c:47-88 | the comparison is 0 exactly for equal bytes |
| MemOps.FirstDifference | src/libc/string.c:47-88 | otherwise it is the difference at the first byte that differs |
| MemOps.EqualWords | src/libc/string.c:68-73 | equal words are equal bytes, so skipping them keeps the result |
| MemOps.NothingExactly | src/libc/string.c:58-65 | memcmp is the comparison of n bytes, whatever memory holds, exactly unless n is 0 and two different addresses are misaligned alike |
| MemOps.DecidesAll | src/libc/string.c:47-88 | bytes up to the first difference decide the comparison of all, whatever memory holds behind them |
| MemOps.CatchUp | src/libc/string.c:60-65 | the catch-up loop decides the comparison or leaves the rest of it, aligned |
| MemOps.SkipWords | src/libc/string.c:66-72 | the word loop skips only equal bytes |
| MemOps.CompareBytes | src/libc/string.c:82-87 | the tail loop is the byte-by-byte comparison |
| MemOps.MemCmp | src/libc/string.c:47-88 | for every alignment of both buffers the three phases yield the byte-by-byte comparison, reading no further than the word of the first difference |
| Rings.GetThenPutBack | src/keyb.c:144-155 | getting a key and putting it back is the identity |
| Rings.PutBackThenGet | src/keyb.c:157-185 | a key put back is the next one got, and the rest is as before exactly when the buffer was not full: then the oldest is lost |
| Rings.BurstKeepsLast | src/keyb.c:281-290 | any burst of keys leaves the last 63 of all in order |
| Rings.RunsKeepOrder | src/keyb.c:144-290 | over every run of presses, reads, put-backs and waits the buffer holds the keys that are due, in order, and every other key was read or dropped |
| Rings.DueAsPressed | src/keyb.c:144-290 | without put-backs keys are due in the order pressed, and none is dropped while no more are pressed than the buffer has room for |
| Rings.TakeExactly | src/serial.c:262-270 | ser_read takes the oldest characters that are there and fit exactly when none of them is -1 |
| Rings.Ring.constructor | src/keyb.c:49-51 | an empty ring holds one key less than it has slots |
| Rings.Ring.Append | src/serial.c:329-335 | appends, dropping the oldest when full |
| Rings.Ring.Get | src/keyb.c:157-167 | pops the oldest, -1 when empty |
| Rings.Ring.PutBack | src/keyb.c:169-185 | pushes in front, or replaces the oldest when full |
| Rings.Ring.Wait | src/keyb.c:144-155 | leaves the buffer as it was |
| Rings.Ring.Read | src/serial.c:235-270 | ser_read of a nonblocking port as repeated pops |
| Rings.Ring.GetBlocking | src/serial.c:235-251 | ser_getc of a blocking port takes the first character of what is there and what arrives while it waits |
| Rings.Ring.ReadBlocking | src/serial.c:262-270 | ser_read of a blocking port takes its characters from what is there followed by what arrives while it waits |

## Left out

- Hardware: port I/O, interrupts other than the flag in `Pages`, video, sound, PCI, boot code; each operation is one atomic step.
- The multi-pool variant of the allocator, compiled out, and `realloc` (`MemFile.FileData.Realloc` states what is needed of it).
- `init_mem`: the page allocator starts from any bitmap with a used page past every run it can look at and a correct hint.
- Page 0 is taken to be used, as it is on a PC, so that no block is at the null address.
- Heap.Allocator.Malloc: requires a size that does not wrap and does not leave 4 or 8 bytes of its pages; `Heap.RefillStaysInRun` says what happens otherwise.
- Heap.Allocator.Free: a pointer whose header reads as used must be one that malloc returned.
- Memory words of the heap are aligned and do not overlap; a bitmap word is a sequence of 32 bits.
- Timer.EventTimer.Handle: callbacks leave the event list alone; allocation of an event does not fail.
- Timer.EventTimer.CancelAlarm: after a cancelled head the list holds a freed event, and later calls are not modelled.
- FatFile.OpenFile.Read: while a cluster is cached the position is not past the end, where the copy length would be negative (`FatSpec.LengthExactly`); disk errors are not modelled.
- FatFile.OpenFile.constructor: an empty file without a cluster is on a volume whose table entry 0 is an end mark, as on hard disks.
- FatFile.OpenFile.Seek: requires that the table entries it looks up exist, which `FatSpec.SeekInsideExactly` characterizes; cluster indices are not cut to 32 bits, which takes positions of 2^41.
- FatFile.LoadChain: requires a chain that ends, which `FatSpec.EndsExactly` characterizes; the buffer is a sequence.
- `FatSpec.Volume.dataStart` stands for the first data sector plus the start of the partition.
- FAT12, the mount and the type of a volume, directory entries and long names; write, rename and remove of FAT are not implemented in the kernel.
- MemFile.Handle.Write: requires that the written end, and the doubled size where it is computed, do not overflow an int.
- MemFile.Handle.Read: the position is not past the end, see `MemFileSpec.ReadLengthExactly`.
- MemTree.MemFs.OpenPath: mount points, the handle objects and their allocation, and handles to removed nodes are not modelled.
- `rename` of the memory file system, which can give two children the same name, and `readdir`.
- Cwd.WorkDir.ChDir: requires that a path which the length test lets through fits the 1024 characters; `Cwd.RelativeExactly` and `Cwd.AbsoluteExactly` say when that is so.
- QSort.QSort: items are swapped whole, not byte by byte; requires that no partition loop stalls, see `QSortSpec.FewTiesNoStall` and `QSortSpec.FourTies`.
- Numbers.IToA: the least int, whose negation overflows, and numbers whose text exceeds the scratch buffer are excluded.
- Numbers.StrToL: overflow wraps as on the machine, which C leaves undefined.
- MemOps.MemMove: the counter of the loop is an int; lengths of 2^31 and more are not told apart.
- Rings.Ring.ReadBlocking: enough characters arrive; those that arrive while it does not wait are appends before or after it.
- `src/part.c`, `src/libc/rand.c`, `printf` formatting and the text terminal: mostly output.
