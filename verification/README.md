# NightOS64: a verified model of the kernel's core data structures

NightOS64 is a kernel for x86-64.  This project models the parts of it whose correctness is a matter of data
structures and protocols rather than of hardware, and proves what they promise.  Code that updates things in place is
modelled by classes and arrays whose methods are tied to functions and invariants; what holds over several calls or
over whole runs is stated as lemmas about those.

`dafny verify dfyconfig.toml` checks everything.

**Page tables and frames** (`PhysicalMemory`, `OwnedFrames`, `FlatMap`, `Translations`, `MemoryManagers`,
`CloneRelation`, `PageMapCloning`, `CloneTheorems`, `MapViews`, `CloneViews`, `ProcessMaps`, `KernelPages`, `MapRuns`,
`BootMap`, `Munmapping`, `SmallMaps`, `CloneTranslations`).  Physical memory is a sequence of frames of 512 words.  A
page map denotes a flat map from virtual pages to last-level words, and translates addresses, large pages included;
creating, mapping and deleting a page are proved against that flat map, cloning and teardown against the set of frames
a map owns, and the two views are proved to be one.  Cloning isolates the two processes; clone then teardown restores
the frame bitmap exactly under a condition that is necessary as well as sufficient.  Beginning with the map the kernel
boots with, over every run of page creation, unmapping, fork and exit and of kernel pages that come and go, the maps
of all processes stay sound and apart exactly as long as no exit gives back a frame that another map shares and no
kernel page is deleted whose frame is in use elsewhere.

**Heap** (`HeapTags`, `HeapSteps`, `HeapTheorems`, `Liballoc`, `CrowdedHeaps`).  Boundary tags are linked twice, to
their neighbours in a region and in the free list of a bin.  One invariant covers both, the absence of two free
neighbours and the counts of whole tags; every step of `malloc` and `free` keeps it, and the theorems say what it
means: regions are tiled, bins are exact, blocks in use are disjoint.  The heap is addressed by number: `tags` maps
the address of each header to its fields.

**Scheduler and mutexes** (`Scheduling`, `SchedulerInvariant`, `SchedulerRecords`, `SchedulerTheorems`,
`SchedulerLaws`, `SchedulerState`).  A transition system whose steps are what the kernel does between two switches.
The timer does not preempt kernel code (`kernel/arch/amd64/pit.c:28`), so a step is atomic; what a retry loop does
after a switch is a step of its own.  Each method of the class is proved to be a step of the system.

**Lists** (`LinkedList`): doubly linked lists with real references, and the counted removal of `process_reap`.

**Inflate** (`BitReversal`, `HuffmanCodes`, `HuffmanTables`, `Inflate`, `InflateBlocks`, `BlockEncoding`).  Canonical
codes of section 3.2.2 of RFC 1951 are defined without tables; building the tables, the fast path, the slow path and
the bit buffer are proved against decoding one bit at a time, for single symbols and for whole blocks of literals and
matches; a block that is written is decoded to what was written.  A number stands for the bits to come, the next one
lowest.

**FAT32** (`FatChains`, `FatBytes`, `FatDirectories`, `FatVolumes`, `FatLookups`).  The disk is an array of bytes.
The allocation table is what its four-byte entries spell, a directory what the 32-byte entries of its cluster spell;
sector and cluster updates are point updates of these.  Over every run of creation, truncation and deletion the
cluster chains stay acyclic and apart.

**Virtual file system** (`PathStrings`, `FileTrees`, `PathLookup`, `PathAnswers`, `VirtualFiles`).  `strtok_r` works
in place on a buffer and is proved against the components of a path.  Lookups are defined without a cache, with the
drivers' `find_dir` as a function; what they answer is said in terms of the files there are, and path resolution
agrees with them and caches exactly the missing nodes.  Tree nodes are numbered in order of creation.

**Ring buffers and terminals** (`RingBuffers`, `Terminals`).  In-place buffers proved against the sequence of unread
bytes, a producer and a consumer interleaved byte by byte, and the line discipline proved against line editing without
limits.

`Options`, `Modular` and `Powers` hold what several of these share.

## Where the code does not do what one would expect

The code is modelled as it is; the lemmas named say exactly when it does what is expected, or give an input for which
it does not.

- `memmgr_delete_page` does not test for empty entries and follows them to frame 0: `DeleteConfined` and `DeleteHits`
  say exactly when that is harmless, `DeleteCanStray` shows another page unmapped.
- Teardown after a clone restores the frames only under the condition of `RestoredExactly`: slots 1 to 507 are not
  visited, and kernel pages under slot 0 are freed although the source still uses them.  `ForkLeaks` gives a map for
  which frames are lost.
- For the same reason the exit of a forked child can take a kernel page from under its parent: `ExitKeepsExactly`,
  `ForkThenExitExactly`, `ForkThenExitHurts`, `ChildTakesPage`.
- Deleting a kernel page takes its frame from whatever else is in it: `KernelDeleteExactly`, `DeleteHurts`.
- `kfree_frame` breaks the bitmap when frame 0 is returned, and so do deletion and teardown (`KfreeFrame`,
  `DeletePage`, `ClearMap`).
- `munmap` counts its pages from 1: the page at the address stays, and one past the end goes (`Munmap`, `MunmapRight`,
  `MunmapMisses`).
- `getexp` keeps its comment's promise only from 256 up to 2^31 (`GetExpBrackets`): 1 shifted by 31 is negative.
- `free` hangs where the block is the last in use of its region and the count of whole tags is at its limit (`Free`,
  `FreeHangs`).
- `wakeup_sleeping` wakes one sleeper per call (`WakesAllExactly`, `DueStaysAsleep`), and none while the idle thread
  runs (`IdleNeverWakes`).
- `mutex_release` does not look at the owner: a release keeps mutual exclusion exactly when it is the holder's
  (`HarmlessRelease`), and `ForeignRelease` is a run in which two processes hold one mutex.
- A process that acquires a mutex it owns waits for itself, and nobody else ever does (`AskStep`,
  `NoneWaitsForItself`).
- `list_remove_by_index` goes on after removing the last entry: `CountedRemoval` says when that is harmless.
- `fat_find_free_cluster` looks up the first sector's entries in a buffer that was not filled: `SearchSound` says when
  it finds no cluster in use all the same, `CreatedOn` what becomes of the files if it does.  And its capacity goes
  past the last cluster: `SearchInside`.
- `fat_find_dir` does not go on from an entry of another name (`SearchIsLookup`, `SecondIsNeverFound`).  In the bytes
  of a directory a file just created is found under the condition of `CreatedIsFound`; long names, spaces and capitals
  do not read back (`CleanField`).  But only a mount point is searched in its own bytes, and there nothing can be
  created; other directories are read at the wrong place (`SearchStartsWrong`, `CreateThenFind`, `CreatedNotFound`).
- The nodes `fat_find_dir` makes need not bear the name asked for: at a mount point the name stays empty, elsewhere it
  is the raw field (`FindDir`, `CreatedNodeName`).  A node cached so is not found again in the cache
  (`MisnamedNotHeld`).
- `fat_remove_dir_entry` blanks the directory's first entry whichever it found (`RemovesFoundEntry`), which ends the
  directory there (`RemovalHidesAll`).
- Byte offsets of clusters are 32-bit products: past 4 GiB of data clusters share places (`OwnPlaces`).
- `fat_read` ignores the part of the offset that is less than a cluster (`AlignedRest`, `UnalignedRest`).
- `resolve_path` reads through a null pointer when a directory in the middle of a path is missing and its parent's
  driver has no `find_dir` (`StrandsOnlyThere`, `NullReadExample`); a path of slashes only, other than "/", is not
  found (`SlashesOnly`).
- A ".." at the root ends the resolution there, whatever follows (`UpAtRoot`), and "x/." does not name a file to
  create where "x" does (`DotCut`).
- The terminal's erase key reaches into finished lines (`FinishedLinesStay`), a carriage return completes a line that
  the reader does not accept as one (`OnlyNewlineEndsWait`), and a full buffer without a newline takes nothing, so
  that no read ends, until a call begins with an erase (`FullIsStuck`, `EraseUnsticks`).

## Model

| member | source | states |
|---|---|---|
| `MemoryManagers.MemoryManager.constructor` | kernel/arch/amd64/memmgr.c:1256-1273 | after boot exactly the reserved frames and the first 0x1001 are used, and the cursor invariant holds |
| `MemoryManagers.MemoryManager.MarkPage` | kernel/arch/amd64/memmgr.c:93-99 | exactly the given frame becomes used; one past the bitmap changes nothing |
| `MemoryManagers.MemoryManager.FreePage` | kernel/arch/amd64/memmgr.c:101-107 | exactly the given frame becomes free |
| `MemoryManagers.MemoryManager.KallocFrame` | kernel/arch/amd64/memmgr.c:109-142 | the lowest free frame is handed out, whenever there is one; no other frame changes state; its byte address stays below 2^31; every frame below the cursor stays used |
| `MemoryManagers.MemoryManager.KfreeFrame` | kernel/arch/amd64/memmgr.c:144-160 | exactly that frame becomes free, and the cursor moves back so that no free frame is skipped; the bitmap invariant survives if and only if the frame is not frame 0 |
| `FlatMap.PathOfAddress` | kernel/arch/amd64/memmgr.c:225-229 | the four indices of two addresses agree exactly when the addresses lie in the same page of the 48-bit space |
| `FlatMap.StoreKeepsOthers` | kernel/arch/amd64/memmgr.c:225-307 | in a tree of tables, a store moves only the walks that go through the stored slot |
| `FlatMap.NewTable` | kernel/arch/amd64/memmgr.c:239-255 | hanging a zeroed table in an empty slot keeps the tree shape and every translation |
| `FlatMap.LeafStore` | kernel/arch/amd64/memmgr.c:300-306 | a store into a last-level table changes one translation and no other |
| `Translations.TranslateEnds` | kernel/arch/amd64/memmgr.c:225-307 | an address is translated by the word its walk ends at, at the last level, an empty word or a large page: walking down gives what naming the tables by their paths gives |
| `Translations.LeafTranslations` | kernel/arch/amd64/memmgr.c:542-626 | a store into a last-level table changes the translation of its page alone, large pages included, and what the check says of no other |
| `Translations.FillsApart` | kernel/arch/amd64/memmgr.c:225-307 | filling in missing tables and a page changes the translation of no other page, of whatever size, nor whether it passes the check |
| `Translations.FilledPasses` | kernel/arch/amd64/memmgr.c:225-307 | a page just created passes the check exactly if it was created for user code and every word that was on its way before has the user bit |
| `MemoryManagers.MemoryManager.TableBelow` | kernel/arch/amd64/memmgr.c:239-255 | one level of the walk: an existing table is entered, a missing one is created in a free frame, and no translation changes |
| `MemoryManagers.MemoryManager.PageBelow` | kernel/arch/amd64/memmgr.c:297-306 | the last level: a mapped page keeps its word, a missing one gets a free frame that is none of the tables |
| `MemoryManagers.MemoryManager.CreateOrGetPage` | kernel/arch/amd64/memmgr.c:225-307 | at most the requested translation changes, large pages included, and no other page comes to pass or to fail the user check; no walk meets another word than before but where an empty one on the way was filled, with the flags asked for; a mapped page, a large page or `create == 0` change nothing at all; a new page lies in a frame that was free and is none of the map's tables; the frames taken are exactly those missing; no frame in use changes but the tables on the way; a sound map stays sound: different pages in different frames, none of them a table |
| `MemoryManagers.MemoryManager.MapFrame` | kernel/arch/amd64/memmgr.c:576-626 | the page maps to the frame; every other page, of whatever size, is translated and let through as before; new tables lie in frames that were free, with the flags asked for, and no table that was there changes its flags |
| `MemoryManagers.MemoryManager.DeletePage` | kernel/arch/amd64/memmgr.c:542-574 | the word the walk ends at is zeroed and its frame freed, and nothing else changes; the bitmap survives if and only if that frame is not frame 0; where the page has its tables, or a large page ends the walk, a sound map stays sound if and only if nothing else of the map is in the frame, which for the process's own pages is always so |
| `MemoryManagers.DeleteUnmapsOne` | kernel/arch/amd64/memmgr.c:542-574 | where the page has its tables, deletion unmaps that page alone; large pages stay as well |
| `MemoryManagers.DeleteSound` | kernel/arch/amd64/memmgr.c:542-574 | and keeps a sound map sound, without the page's frame, if and only if nothing else of the map is in that frame; for the process's own pages nothing is |
| `MemoryManagers.MemoryManager.Serve` | kernel/arch/amd64/memmgr.c:872-896 | over every run of page requests and unmappings behind the user check, the map stays sound and pages not asked for keep their translation |
| `MemoryManagers.DeleteConfined` | kernel/arch/amd64/memmgr.c:551-573 | deletion leaves every other word alone if and only if the page has a word, or a large page ends the walk, or the word it strays to is zero already |
| `MemoryManagers.DeleteHits` | kernel/arch/amd64/memmgr.c:551-573 | deletion changes another translation of the map if and only if a walk to a mapped page reads the word it zeroes |
| `MemoryManagers.DeleteCanStray` | kernel/arch/amd64/memmgr.c:551-573 | an unmapped page whose deletion unmaps another page, because empty entries are followed to frame 0 |
| `MemoryManagers.MemoryManager.CheckUser` | kernel/arch/amd64/memmgr.c:1169-1207 | true exactly when every word on the path, down to the page or a large page, has the user bit |
| `MemoryManagers.UserPathWords` | kernel/arch/amd64/memmgr.c:1169-1207 | for a page with all its tables that is the user bit in all four words |
| `Translations.ChecksEveryWord` | kernel/arch/amd64/memmgr.c:1169-1207 | for every page: it passes exactly when the user bit is in every word its walk meets, each named by the path of its table, down to the one the walk ends at |
| `Translations.ChecksLargePage` | kernel/arch/amd64/memmgr.c:1178-1205 | a large page passes exactly when the user bit is in its own word and in those above it |
| `Translations.ChecksNothing` | kernel/arch/amd64/memmgr.c:1178-1206 | an empty word on the way makes the check fail |
| `Translations.ChecksMapped` | kernel/arch/amd64/memmgr.c:1169-1207 | what has no translation never passes, and what passes has the user bit in its own word |
| `PageMapCloning.CloneTable` | kernel/arch/amd64/memmgr.c:1086-1152 | one loop nest: the destination becomes a clone of the source table, its frames form a tree of frames that were free, and every frame used before keeps its content |
| `PageMapCloning.CopyPage` | kernel/arch/amd64/memmgr.c:1139-1148 | a user page gets a fresh frame with its bytes; the clone in progress stays well formed |
| `PageMapCloning.CloneMap` | kernel/arch/amd64/memmgr.c:1054-1157 | the whole clone, given enough free frames: old memory untouched, private slots cloned, kernel slots repeated, slot 511 the new map's own address |
| `CloneTheorems.CloneFlat` | kernel/arch/amd64/memmgr.c:1054-1157 | page by page: a user page of slots 0 to 507 maps to a frame that was free and holds the same words; every other word is the same |
| `CloneTranslations.CloneRepeats` | kernel/arch/amd64/memmgr.c:1060-1119 | in every table on a private path, whatever is no table itself, a large page or an empty word, is in the clone's table at that path and slot |
| `CloneTranslations.CloneTranslates` | kernel/arch/amd64/memmgr.c:1054-1157 | every private address is translated as in the source, large pages included, but that a user page of 4 KiB is a copy in a frame that was free |
| `CloneTranslations.CloneSharesKernel` | kernel/arch/amd64/memmgr.c:1078-1083 | through slots 508 to 510 every address is translated and let through as in the source |
| `CloneTheorems.CloneIsolated` | kernel/arch/amd64/memmgr.c:1054-1157 | a write through one map cannot be seen through the other |
| `CloneTheorems.ClonePagesApart` | kernel/arch/amd64/memmgr.c:1054-1157 | different user pages of a clone are in different frames |
| `CloneTranslations.CloneChecksUser` | kernel/arch/amd64/memmgr.c:1054-1157 | through a clone the user check passes exactly the pages, of whatever size, that have the user bit in their own word in the source |
| `CloneRelation.FreedOfClone` | kernel/arch/amd64/memmgr.c:960-999 | clearing a cloned table frees what the clone allocated plus the kernel pages it repeats |
| `PageMapCloning.ClearTable` | kernel/arch/amd64/memmgr.c:964-994 | exactly the present pages and tables below the table are freed, and no content changes; the bitmap survives if and only if none of them is frame 0 |
| `PageMapCloning.ClearMap` | kernel/arch/amd64/memmgr.c:960-999 | the teardown frees what hangs below slot 0, its table and the root; the bitmap survives if and only if none of these is frame 0 |
| `CloneTheorems.RestoredExactly` | kernel/arch/amd64/memmgr.c:960-999 | clone then clear restores the used frames exactly if and only if slots 1 to 507 hold no table and no present kernel page below slot 0 is in a frame the bitmap manages |
| `CloneTheorems.ForkThenReap` | kernel/arch/amd64/memmgr.c:960-999 | allocating a root, cloning and clearing: the same if-and-only-if on the live bitmap |
| `CloneTheorems.ForkLeaks` | kernel/arch/amd64/memmgr.c:960-999 | a map for which the stock is not restored: a table behind slot 1 is leaked |
| `MapViews.OwnIsHeld` | kernel/arch/amd64/memmgr.c:1054-1157 | the frames a clone copies are exactly the tables on private paths and the user pages at their ends |
| `MapViews.SameProcess` | kernel/arch/amd64/memmgr.c:225-307 | a map that reads the same in another memory stays sound while the frames it holds and shares stay used |
| `CloneViews.HangsOnce` | kernel/arch/amd64/memmgr.c:1054-1157 | in a tree of frames, no two paths end at the same frame |
| `CloneViews.CloneIsProcess` | kernel/arch/amd64/memmgr.c:1054-1157 | the clone of a sound map is a sound map; what it holds was free, and what it shares its source shares |
| `ProcessMaps.CreateKeeps` | kernel/arch/amd64/memmgr.c:225-307 | creating a page for one process keeps the maps of all processes sound and apart |
| `ProcessMaps.UnmapKeeps` | kernel/arch/amd64/memmgr.c:872-896 | and so does unmapping a page of one process |
| `ProcessMaps.ForkKeeps` | kernel/arch/amd64/memmgr.c:1054-1157 | and so does a fork |
| `ProcessMaps.ExitKeepsExactly` | kernel/arch/amd64/memmgr.c:960-999 | an exit does if and only if no frame it gives back is one that another map shares |
| `ProcessMaps.ForkThenExitExactly` | kernel/arch/amd64/memmgr.c:960-999 | for the exit of a child just forked: if and only if slot 0 of the parent leads to no present kernel page in a frame the bitmap manages |
| `ProcessMaps.ForkThenExitHurts` | kernel/arch/amd64/memmgr.c:960-999 | the failing case: a kernel page in the lowest slot, which the child's teardown releases under the parent |
| `SmallMaps.ChildTakesPage` | kernel/arch/amd64/memmgr.c:960-999 | a map with such a page, for which fork and exit leave a map that is not sound |
| `MapRuns.RunKeepsExactly` | kernel/arch/amd64/memmgr.c:225-307 | over every run of creation, unmapping, fork and exit, and of kernel pages created and deleted, all maps stay sound and apart if and only if every exit and every such deletion is harmless |
| `KernelPages.KernelCreateKeeps` | kernel/arch/amd64/memmgr.c:225-307 | creating a page behind the kernel's slots, through any map, changes all maps alike and keeps them sound and apart |
| `KernelPages.KernelDeleteExactly` | kernel/proc/process.c:809-826 | deleting one does if and only if in no map anything else is in its frame |
| `MapRuns.KernelUnseen` | kernel/arch/amd64/memmgr.c:225-307 | neither is seen through any process's own slots |
| `MapRuns.OthersUndisturbed` | kernel/arch/amd64/memmgr.c:225-307 | what one process does changes no translation of another and no byte of a page the other has in use |
| `MapRuns.StoresStayPrivate` | kernel/arch/amd64/memmgr.c:1054-1157 | a store into a frame one process holds cannot be seen through another's map |
| `ProcessMaps.EmptyMap` | kernel/arch/amd64/memmgr.c:1054-1056 | an empty map is sound |
| `BootMap.BootIsProcess` | kernel/arch/amd64/start.S:165-259 | the map the kernel boots with, whose identity map is a table inside the image it maps, is sound, and so the runs can begin with it |
| `BootMap.SomeBootMemory` | kernel/arch/amd64/memmgr.c:1280-1293 | there is such a memory for every place of the image and of the identity map in it |
| `CloneTranslations.BootTranslates` | kernel/arch/amd64/start.S:165-259 | of the private addresses the boot map translates the first four megabytes, by two large pages without the user bit, and no others |
| `CloneTranslations.BootKeepsOut` | kernel/arch/amd64/memmgr.c:1169-1207 | no page of the boot map passes the user check |
| `CloneTranslations.NullRefused` | kernel/arch/amd64/memmgr.c:1169-1207 | in a map cloned from it address 0 is still mapped, by the same large page, and fails the user check |
| `BootMap.Boot` | kernel/arch/amd64/memmgr.c:1256-1293 | the bitmap at boot and that map together |
| `BootMap.IdentityShown` | kernel/arch/amd64/memmgr.c:1280-1293 | one of its kernel pages shows one of its tables |
| `BootMap.DeleteHurts` | kernel/proc/process.c:809-826 | whose deletion would free the table under all maps |
| `MapRuns.CreateFor` | kernel/arch/amd64/memmgr.c:225-307 | the code for page creation makes that step of the maps |
| `MapRuns.CreateKernelFor` | kernel/arch/amd64/memmgr.c:898-927 | and that for a kernel page |
| `MapRuns.DeleteKernelFor` | kernel/proc/process.c:809-826 | and that for the end of one, with the exact condition |
| `MapRuns.UnmapFor` | kernel/arch/amd64/memmgr.c:872-896 | and that for unmapping |
| `Munmapping.Munmap` | kernel/arch/amd64/memmgr.c:872-896 | for user addresses: of the pages from the second to the one past the end, exactly those that pass the user check, with no large page above them, lose their translation, and no other page does; all maps stay sound and apart |
| `Munmapping.MunmapRight` | kernel/arch/amd64/memmgr.c:872-896 | so exactly the pages asked for are taken if and only if there are none, or neither the first of them nor the page past the end can be taken |
| `SmallMaps.MunmapMisses` | kernel/arch/amd64/memmgr.c:872-896 | a map of two pages: asked to unmap the first, it keeps that and loses the second |
| `MapRuns.ForkFor` | kernel/proc/process.c:238-243 | and that for fork, with a root from the frame allocator |
| `MapRuns.ExitFor` | kernel/proc/process.c:773-807 | and that for reaping; all maps stay sound and apart exactly when the exit is harmless |
| `MapRuns.ForkThenExit` | kernel/proc/process.c:773-807 | fork and exit together: all maps are sound and apart afterwards if and only if slot 0 of the parent leads to no present kernel page in a frame the bitmap manages |
| `HeapTags.GetExpBrackets` | kernel/alloc/liballoc.c:39-67 | the promise 2^n <= size < 2^(n+1) holds exactly for 256 <= size < 2^31 |
| `HeapTags.BinBrackets` | kernel/alloc/liballoc.c:140-151 | a tag of less than 2^31 bytes of room is filed in the bin of the power of two its room comes to, or in the lowest |
| `Liballoc.Heaps.ComputeExp` | kernel/alloc/liballoc.c:43-67 | the loop computes the exponent function |
| `Liballoc.Heaps.InsertTag` | kernel/alloc/liballoc.c:140-161 | the tag becomes the head of its bin, linked both ways |
| `Liballoc.Heaps.RemoveTag` | kernel/alloc/liballoc.c:163-173 | the tag is unlinked from its bin on both sides and loses its index |
| `Liballoc.Heaps.MeltLeft` | kernel/alloc/liballoc.c:176-186 | the left neighbour takes over the tag's space and right neighbour |
| `Liballoc.Heaps.AbsorbRight` | kernel/alloc/liballoc.c:189-202 | the right neighbour leaves its bin and its space joins the tag |
| `Liballoc.Heaps.Coalesce` | kernel/alloc/liballoc.c:421-438 | after both loops neither neighbour is free, the whole heap invariant holds around the tag in hand, and it covers the space it started from |
| `Liballoc.Heaps.SplitTag` | kernel/alloc/liballoc.c:204-228 | the tag shrinks to its request, the rest becomes a filed free tag, and the heap invariant holds |
| `Liballoc.Heaps.AllocateNewTag` | kernel/alloc/liballoc.c:236-276 | one tag over the whole of a new region of the least number of pages |
| `Liballoc.Heaps.FindFit` | kernel/alloc/liballoc.c:305-320 | the first tag of the bin that holds the request and one more header, or none when no tag of that bin does |
| `Liballoc.SearchedBin` | kernel/alloc/liballoc.c:301-324 | the one bin malloc searches is that of a tag with room for just the request; a free tag that fits is in it or in a higher one, where it is overlooked |
| `Liballoc.Heaps.HandOut` | kernel/alloc/liballoc.c:342-388 | the block is cut to size when the remainder is worth a tag, and belongs to the caller |
| `Liballoc.Heaps.Malloc` | kernel/alloc/liballoc.c:280-389 | a pointer to a new block of the requested size, with the heap invariant kept; null only when memory has run out; a new region exactly when no tag of the searched bin fits; less than a header and 256 bytes wasted |
| `Liballoc.Heaps.Free` | kernel/alloc/liballoc.c:395-491 | the block is gone and its bytes lie in one free tag, all other blocks stay, the heap invariant holds; it hangs if and only if the block was the last in use of its region and the count of whole tags of that size is at its limit |
| `HeapSteps.TakeKeeps` | kernel/alloc/liballoc.c:334-340 | taking a tag out of its bin keeps the invariant |
| `HeapSteps.MergeKeeps` | kernel/alloc/liballoc.c:180-183 | joining neighbours keeps the invariant |
| `HeapSteps.MeltOrder` | kernel/alloc/liballoc.c:422-429 | joining first and unlinking afterwards, as free does, comes to the same as unlinking first |
| `HeapSteps.SplitKeeps` | kernel/alloc/liballoc.c:204-223 | splitting keeps the invariant |
| `HeapSteps.PutKeeps` | kernel/alloc/liballoc.c:442-483 | filing a tag with busy neighbours keeps the invariant, counts of whole tags included |
| `HeapSteps.GrowKeeps` | kernel/alloc/liballoc.c:252-264 | a new region keeps the invariant |
| `HeapTheorems.RegionTiled` | kernel/alloc/liballoc.c:176-228 | each region is tiled by its chain of neighbours: tags abut, none is missing, sizes add up to the region |
| `HeapTheorems.BinExact` | kernel/alloc/liballoc.c:140-173 | each bin is an acyclic list of exactly the tags with its index, payloads in the bin's power-of-two range |
| `HeapTheorems.BlocksDisjoint` | kernel/alloc/liballoc.c:376-388 | a block in use shares no byte with another block or any tag |
| `HeapTheorems.AllFree` | kernel/alloc/liballoc.c:421-483 | with nothing in use each region is one free tag, counted as whole |
| `HeapTheorems.WholeExactly` | kernel/alloc/liballoc.c:421-483 | a tag that has grown over its free neighbours covers its whole region if and only if the block freed was the last in use there |
| `CrowdedHeaps.FreeHangs` | kernel/alloc/liballoc.c:442-483 | a heap on which free hangs: the count of whole regions at its limit, and the last block of one more |
| `Liballoc.Heaps.AllFreed` | kernel/alloc/liballoc.c:395-491 | freeing everything gets the heap there |
| `SchedulerState.Scheduler.constructor` | kernel/proc/process.c:82-193 | the state the first process is entered with |
| `SchedulerState.Scheduler.ScheduleProcess` | kernel/proc/process.c:676-680 | the process loses its sleep flag and goes to the end of the ready queue |
| `SchedulerState.Scheduler.GetNextProcess` | kernel/proc/process.c:630-639 | the head of the ready queue is taken, if there is one |
| `SchedulerState.Scheduler.Schedule` | kernel/proc/process.c:641-674 | the switch does what the transition system says |
| `SchedulerState.Scheduler.WaitForObject` | kernel/proc/process.c:682-691 | the current process queues up at the mutex and gives the CPU away |
| `SchedulerState.Scheduler.WakeupWaiting` | kernel/proc/process.c:718-730 | every waiter becomes ready, in order, and the list ends empty |
| `SchedulerState.Scheduler.MutexAcquire` | kernel/sys/mutex.c:29-40 | one turn of the retry loop: owner, or queued |
| `SchedulerState.Scheduler.MutexWait` | kernel/sys/mutex.c:66-76 | one turn of the retry loop that takes nothing |
| `SchedulerState.Scheduler.MutexAcquireIfFree` | kernel/sys/mutex.c:78-91 | owner if and only if it was free |
| `SchedulerState.Scheduler.MutexRelease` | kernel/sys/mutex.c:93-107 | no owner, no waiters, all of them ready |
| `SchedulerState.Scheduler.SleepFor` | kernel/proc/process.c:895-911 | the sleeper goes to the end of the sleeping queue with its wake-up tick |
| `SchedulerState.Scheduler.WakeupSleeping` | kernel/proc/process.c:913-929 | the first due sleeper becomes ready and nobody else |
| `SchedulerState.Scheduler.ProcessFork` | kernel/proc/process.c:295-296 | a copy of the parent goes to the end of the ready queue |
| `SchedulerState.Scheduler.ProcessExit` | kernel/proc/process.c:828-893 | the process is finished, in no queue, and off the CPU |
| `SchedulerState.Scheduler.ProcessReap` | kernel/proc/process.c:773-807 | only a finished process leaves the process list |
| `SchedulerState.Scheduler.TimerInterrupt` | kernel/arch/amd64/pit.c:24-33 | a tick in kernel mode only counts; one in user mode also wakes a sleeper and preempts |
| `SchedulerState.Scheduler.Perform` | kernel/proc/process.c:641-730 | every step of the transition system is one of the methods, with the same result |
| `SchedulerInvariant.NextKeeps` | kernel/proc/process.c:641-730 | every step keeps the invariant: queues hold exactly the processes whose place they are, flags fit, mutexes with waiters are owned |
| `SchedulerRecords.StepRecords` | kernel/proc/process.c:641-929 | of the processes there before and after, a step changes only the current one's todo, finished flag and waking time, and how is said for every step |
| `SchedulerRecords.StepProcesses` | kernel/proc/process.c:773-807 | which processes there are: a fork adds one, which goes on in its own code, and a reaped process that has finished is gone |
| `SchedulerLaws.OneOnCpu` | kernel/proc/process.c:641-674 | after a switch the process that runs, and no other, is flagged as on the CPU |
| `SchedulerTheorems.OnePlace` | kernel/proc/process.c:641-691 | over every run from boot, each unfinished process is found at exactly one position of exactly one place, and a finished one at none |
| `SchedulerTheorems.QueueAdvance` | kernel/proc/process.c:630-680 | a ready process moves up one place for each switch, whatever steps interleave |
| `SchedulerTheorems.QueueTurn` | kernel/proc/process.c:630-680 | position k of the ready queue is on the CPU after exactly k+1 switches |
| `SchedulerLaws.ReadyKept` | kernel/proc/process.c:630-680 | a ready process goes on with what it was at until it gets the CPU, over every run |
| `SchedulerTheorems.NotBeforeDue` | kernel/proc/process.c:913-929 | no step takes an undue sleeper out of the sleeping queue |
| `SchedulerTheorems.SleeperWoken` | kernel/proc/process.c:913-929 | a due sleeper at position k is out of the queue once k+1 user-mode ticks have come |
| `SchedulerTheorems.LeavesExactly` | kernel/proc/process.c:913-929 | in every step: a sleeper leaves the queue if and only if the step is a user-mode tick and it is the first that is then due |
| `SchedulerLaws.WokenExactly` | kernel/proc/process.c:913-929 | in every step: a sleeper leaves the queue if and only if the step is a user-mode tick that comes to its waking time and to that of no sleeper before it |
| `SchedulerLaws.SleepSets` | kernel/proc/process.c:895-911 | after sleep(ms) the waking time w is the first with 10 (w - now) above ms |
| `SchedulerLaws.SleepLasts` | kernel/proc/process.c:895-929 | over every run after sleep(ms) whose ticks of 10 ms come to no more than ms, the process still sleeps |
| `SchedulerLaws.SleepEnds` | kernel/proc/process.c:895-929 | once more ticks have come, it is woken at the latest by as many user-mode ticks as sleepers lay down before it, and one |
| `SchedulerTheorems.WakesAllExactly` | kernel/proc/process.c:913-929 | a call leaves nobody due asleep if and only if no two sleepers are due |
| `SchedulerTheorems.WakesAllReachable` | kernel/proc/process.c:913-929 | the same in every state reached from boot |
| `SchedulerTheorems.DueStaysAsleep` | kernel/proc/process.c:913-929 | a run from boot after which a due sleeper stays asleep through a wake-up call |
| `SchedulerTheorems.IdleNeverWakes` | kernel/arch/amd64/pit.c:24-33 | once the idle thread runs and nobody is ready, no sleeper is ever woken: the idle thread is kernel code, where ticks only count |
| `SchedulerTheorems.NoLostWakeup` | kernel/sys/mutex.c:29-40 | in every reachable state a mutex with waiters has an owner |
| `SchedulerTheorems.ReleaseWakes` | kernel/sys/mutex.c:93-107 | a release puts each waiter in the ready queue once, in order |
| `SchedulerTheorems.OwnerShape` | kernel/sys/mutex.c:29-107 | owners change only by taking and releasing |
| `SchedulerLaws.FreeTurn` | kernel/sys/mutex.c:29-76 | a turn of acquire, of wait or of either loop that finds the mutex free ends the loop: the same process goes on in its own code, as the owner if it came to acquire |
| `SchedulerLaws.TakenTurn` | kernel/sys/mutex.c:29-76 | a turn that finds it taken puts the process behind the others that wait, to ask the same again |
| `SchedulerLaws.WaitersQueue` | kernel/sys/mutex.c:29-107 | the queue at a mutex only grows at its end until the mutex is released |
| `SchedulerLaws.ReleasedHasTurn` | kernel/sys/mutex.c:29-107 | a waiter that is released has its turn when those ready before it have had the CPU; if the mutex is free then, it goes on in its own code, as the owner if it came to acquire |
| `SchedulerLaws.AskStep` | kernel/sys/mutex.c:29-76 | a step leads to a process that is in the loop of its own mutex if and only if the process acquires, or waits for, a mutex it owns |
| `SchedulerLaws.NoneWaitsForItself` | kernel/sys/mutex.c:29-107 | over every run from boot in which nobody does that, no process waits for a mutex whose owner it is |
| `SchedulerTheorems.MutualExclusion` | kernel/sys/mutex.c:29-107 | if only owners release, at most one process is between acquire and release of a mutex, over every run |
| `SchedulerTheorems.HarmlessRelease` | kernel/sys/mutex.c:93-107 | a release keeps exclusion if and only if whoever holds the mutex is the one that releases it |
| `SchedulerTheorems.ForeignRelease` | kernel/sys/mutex.c:93-107 | without that discipline it fails: a run in which two processes hold one mutex |
| `LinkedList.List.Append` | libc/kernel/list.c:45-59 | the entry is the new last one of a well-formed doubly linked list |
| `LinkedList.List.Find` | libc/kernel/list.c:68-86 | the first entry with the item, or none |
| `LinkedList.List.Delete` | libc/kernel/list.c:114-147 | exactly that entry is cut out, both directions relinked, its own links cleared |
| `LinkedList.List.RemoveByIndex` | libc/kernel/list.c:88-112 | the entry the count names is cut out, the case that falls through after the last entry included |
| `LinkedList.List.AppendAfter` | libc/kernel/list.c:162-175 | the new entry stands right behind the given one |
| `LinkedList.List.AppendBefore` | libc/kernel/list.c:186-203 | the new entry stands right before the given one |
| `LinkedList.CountedRemoval` | libc/kernel/list.c:88-112 | removing at the position counted backwards takes out exactly the counted entry if and only if the list has two or more |
| `LinkedList.List.RemoveCounted` | kernel/proc/process.c:784-795 | process_reap's removal cuts out exactly the reaped process and keeps the order of the rest |
| `BitReversal.BitReverse16Correct` | kernel/ssfn.h:475-482 | the four mask-and-shift lines reverse the low 16 bits |
| `BitReversal.BitReverseCorrect` | kernel/ssfn.h:484-487 | reversal of fewer bits |
| `HuffmanCodes.PrefixFree` | kernel/ssfn.h:489-533 | whatever bits come, at most one symbol's code matches them |
| `HuffmanCodes.CodeIsCanonical` | kernel/ssfn.h:489-533 | a symbol's code comes right behind the bit strings of its length that shorter codes take and the codes of the same length of earlier symbols, as section 3.2.2 of RFC 1951 has it |
| `HuffmanTables.HuffmanTable.CountSizes` | kernel/ssfn.h:496-498 | how many symbols have each length |
| `HuffmanTables.HuffmanTable.CountsFit` | kernel/ssfn.h:499-501 | false exactly when some length has more symbols than codes |
| `HuffmanTables.HuffmanTable.LayOut` | kernel/ssfn.h:502-514 | first codes, left-aligned ends and first symbols of every length are the canonical ones; rejection exactly when a code does not fit its length |
| `HuffmanTables.HuffmanTable.FillFast` | kernel/ssfn.h:522-528 | exactly the nine-bit indices that start with the code get the entry |
| `HuffmanTables.HuffmanTable.EnterSymbol` | kernel/ssfn.h:515-531 | the symbol goes to its place in the sorted table and, if short, into the fast table, spoiling no other entry |
| `HuffmanTables.HuffmanTable.Build` | kernel/ssfn.h:489-533 | success exactly for the accepted length lists, and then all tables hold the canonical code |
| `Inflate.BitByBitSpells` | kernel/ssfn.h:489-533 | bit-by-bit canonical decoding finds exactly the symbol whose code the stream spells |
| `Inflate.BitReader.FillBits` | kernel/ssfn.h:553-559 | more than 24 bits are held, the next ones of the stream in order |
| `Inflate.BitReader.Consume` | kernel/ssfn.h:592-593 | the position moves by the bits consumed |
| `Inflate.Decode` | kernel/ssfn.h:585-597 | fast table and slow path together give the symbol and the number of bits that bit-by-bit decoding gives, and -1 where no code matches |
| `Inflate.DecodeSlow` | kernel/ssfn.h:571-583 | the same for codes longer than nine bits |
| `Inflate.CopyMatch` | kernel/ssfn.h:643-650 | the match copy repeats the last `dist` bytes periodically, overlap included; it fails exactly when the distance goes back past the start |
| `InflateBlocks.Receive` | kernel/ssfn.h:561-569 | the next n bits as a number, and the position moved by n |
| `InflateBlocks.ParseMatch` | kernel/ssfn.h:636-650 | length and distance of a match and its copy are those the bits spell |
| `InflateBlocks.ParseSymbol` | kernel/ssfn.h:626-651 | one turn of the block loop does what decoding from the bits does |
| `InflateBlocks.ParseBlock` | kernel/ssfn.h:623-653 | for any number of symbols, a block decoded by tables and bit buffer gives the output, the end position or the failure that decoding it bit by bit gives |
| `InflateBlocks.StraysOnlyUnused` | kernel/ssfn.h:639-650 | a copy from where it writes happens only with a distance symbol that RFC 1951 leaves unused |
| `BlockEncoding.LengthsTile` | kernel/ssfn.h:618-619 | the ranges of the length symbols, base and extra bits, lie end to end from 3 to 258, with 258 a symbol of its own |
| `BlockEncoding.DistancesTile` | kernel/ssfn.h:620-621 | those of the distance symbols from 1 to 32768 |
| `BlockEncoding.ItemIsDecoded` | kernel/ssfn.h:623-653 | a literal or a match written with the codes of accepted lists and the extra bits of section 3.2.5 of RFC 1951 is decoded to itself: a byte, or the copy made byte by byte |
| `BlockEncoding.BlockIsDecoded` | kernel/ssfn.h:623-653 | a block written from literals and matches is decoded to what they expand to, and decoding ends with its last bit |
| `BlockEncoding.Unpack` | kernel/ssfn.h:623-653 | and so does the code with its tables and bit buffer |
| `FatVolumes.FatVolume.GetNextCluster` | kernel/fs/fat.c:120-137 | the link of the flat table, reserved bits cut off |
| `FatVolumes.FatVolume.UpdateFat` | kernel/fs/fat.c:64-83 | read, patch and write of a sector is a point update of the flat table, and no cluster's bytes change |
| `FatVolumes.FatVolume.FreeFrom` | kernel/fs/fat.c:455-462 | from any cluster of a chain on, exactly the rest of the chain is cleared |
| `FatVolumes.FatVolume.CreateFile` | kernel/fs/fat.c:177-251 | a file, or a directory, on the cluster the search came up with, or nothing when there is none or no vacant entry; exactly its table entry and its directory entry change; the volume stays well formed if and only if the cluster is one of the volume and not in the middle of another file |
| `FatVolumes.FatVolume.DeleteFile` | kernel/fs/fat.c:446-480 | exactly the file's own clusters become free; in the directory's bytes the size of its entry is written and the first entry blanked; no other byte changes |
| `FatVolumes.FatVolume.WriteOneCluster` | kernel/fs/fat.c:139-175 | one cluster is written, its entry marked last, and no other cluster or entry changes |
| `FatVolumes.FatVolume.Truncate` | kernel/fs/fat.c:789-813 | exactly the first cluster remains, filled with zeros; the size in its directory entry becomes 0; no other byte changes |
| `FatVolumes.FatVolume.ReadFileData` | kernel/fs/fat.c:253-279 | the contents of the chain from the given cluster on, cut to the size |
| `FatVolumes.FatVolume.Read` | kernel/fs/fat.c:281-302 | nothing exactly when the offset is past the chain; else reading starts at the last cluster boundary at or before the offset, which gives the bytes at the offset if and only if the offset is a whole number of clusters |
| `FatVolumes.AlignedRest` | kernel/fs/fat.c:281-302 | what follows that boundary is what follows the offset if and only if the offset is a whole number of clusters |
| `FatVolumes.UnalignedRest` | kernel/fs/fat.c:281-302 | an offset inside a cluster, for which the bytes before it are read |
| `FatVolumes.FatVolume.FindFreeCluster` | kernel/fs/fat.c:42-62 | the first cluster below the capacity whose word is zero in the table, or in the buffer's old bytes for the first sector's entries; the capacity may go past the last cluster |
| `FatVolumes.SearchSound` | kernel/fs/fat.c:42-62 | whatever those bytes are it finds no cluster in use: if and only if none of the first sector's clusters is in use |
| `FatVolumes.SearchInside` | kernel/fs/fat.c:42-62 | for a capacity that goes past the last cluster the result is a cluster of the volume, or none, if and only if one is found there or nothing at all |
| `FatVolumes.FatVolume.CreateDirEntry` | kernel/fs/fat.c:85-118 | on the disk: the first vacant entry of the directory cluster is written; failure exactly when there is none |
| `FatVolumes.FatVolume.UpdateDirEntrySize` | kernel/fs/fat.c:304-346 | on the disk: the size field of the entry of the name, and nothing else |
| `FatVolumes.FatVolume.RemoveDirEntry` | kernel/fs/fat.c:348-390 | on the disk: the entry of the name is looked for, and the first of the directory blanked |
| `FatVolumes.FatVolume.FindDir` | kernel/fs/fat.c:487-611 | the search of the bytes it reads, for a mount point those of the directory, and the name of the node it makes |
| `FatVolumes.FatVolume.SearchStartsWrong` | kernel/fs/fat.c:556-558 | any other directory is never read at its own place: the sector size is left out |
| `FatVolumes.FatVolume.CleanFilename` | kernel/fs/fat.c:10-39 | the printed form of a name field, cut by the buffer it is put together in |
| `FatVolumes.ContentsLength` | kernel/fs/fat.c:253-279 | a chain holds its length times the cluster size |
| `FatVolumes.OwnPlaces` | kernel/fs/fat.c:262-263 | all clusters have byte offsets of their own exactly when the data region is at most 4 GiB, since offsets are 32-bit products |
| `FatChains.StepKeeps` | kernel/fs/fat.c:177-192 | creation on a free cluster, truncation and deletion keep every chain acyclic, terminated and apart from all others |
| `FatChains.StepFrees` | kernel/fs/fat.c:446-462 | each frees and takes exactly the clusters it says |
| `FatChains.RunKeeps` | kernel/fs/fat.c:446-480 | over every run, chains stay acyclic and pairwise disjoint, and free clusters plus chain lengths are conserved |
| `FatChains.CreatedOn` | kernel/fs/fat.c:177-192 | a file created on a cluster that need not be free keeps all chains apart if and only if no other file has that cluster |
| `FatDirectories.EnteredEntries` | kernel/fs/fat.c:99-107 | the 32 bytes written read back as the entry, and every other entry as before |
| `FatDirectories.EnteredIsListed` | kernel/fs/fat.c:85-118 | the file entered is listed with its cluster, and what was listed still is |
| `FatDirectories.SizedEntries` | kernel/fs/fat.c:328-336 | a size update changes one field of one entry |
| `FatDirectories.RemovesFoundEntry` | kernel/fs/fat.c:373-381 | so the found entry goes if and only if it is the first |
| `FatDirectories.RemovalHidesAll` | kernel/fs/fat.c:373-381 | and afterwards the directory lists nothing, which is right if and only if the file was the only one listed |
| `FatDirectories.DeletedListing` | kernel/fs/fat.c:446-480 | what deletion makes of the directory: nothing when the name is not in it, else one that lists nothing |
| `FatChains.CreateThenDelete` | kernel/fs/fat.c:177-192 | creation on a free cluster and deletion give back the table and the files |
| `FatDirectories.CleanField` | kernel/fs/fat.c:10-39 | a name written at creation reads back as itself if and only if it has no space, no upper-case letter, and at most eight characters, or eight and three dots |
| `FatDirectories.SearchIsLookup` | kernel/fs/fat.c:500-548 | in a directory that ends, the search gives the file looked for or says that there is none if and only if nothing is listed or the first file listed is the one; else it never returns |
| `FatDirectories.SecondIsNeverFound` | kernel/fs/fat.c:500-548 | a directory of two files, the second of which is never found |
| `FatDirectories.CreatedIsFound` | kernel/fs/fat.c:177-192 | in the directory's own bytes, which only a mount point is searched in, a file just created is found again under its name if and only if no other is listed before it and its name reads back as itself |
| `FatLookups.CreateThenFind` | kernel/fs/fat.c:177-210 | on the disk, in a directory that has the create operation: the new file is found if and only if its name reads back as itself and the bytes read, which are not the directory's, list it first; where they lie behind the table and before the directory, creation does not change what is found |
| `FatLookups.CreatedNotFound` | kernel/fs/fat.c:552-560 | a file that is created and entered, and that the search says does not exist |
| `FatDirectories.CreatedNodeName` | kernel/fs/fat.c:586-589 | the node made for a created file bears its name if and only if the field has room for a zero or the attributes are zero |
| `PathStrings.StrSpan` | libc/string/string.c:120-173 | strspn and strcspn: the length of the leading stretch inside or outside the delimiters |
| `PathStrings.StrtokR` | libc/string/string.c:208-231 | the token is the first component left, and the saved pointer leads to exactly the others |
| `PathStrings.ComponentsSplit` | libc/string/string.c:208-231 | for every text: its components are those before a delimiter, and then those behind it |
| `PathStrings.OneComponent` | libc/string/string.c:208-231 | a text without delimiters is one component, unless it is empty |
| `PathStrings.ComponentsOfJoin` | kernel/fs/vfs.c:360-372 | taking a printed path apart gives back the names |
| `PathStrings.JoinAppend` | kernel/fs/vfs.c:360-372 | a path is printed as that of its directory, a slash and its last name |
| `FileTrees.PathLeadsTo` | kernel/fs/vfs.c:132-143 | with siblings of different names, following a node's path leads to that node |
| `FileTrees.FoundHasPath` | kernel/fs/vfs.c:132-143 | and the node found along names has exactly those names as its path |
| `FileTrees.InsertLinked` | libc/kernel/tree.c:89-134 | insertion under a new name keeps child lists and parent pointers in agreement |
| `FileTrees.InsertAddsOne` | libc/kernel/tree.c:89-134 | insertion adds one path and changes no other |
| `FileTrees.DetachCutsBranch` | libc/kernel/tree.c:136-165 | removal takes away the node's path and every path through it, and no other |
| `FileTrees.CachingIsTransparent` | kernel/fs/vfs.c:145-149 | caching what a driver answered changes the outcome of no lookup |
| `FileTrees.MisnamedNotHeld` | kernel/fs/vfs.c:145-149 | a node cached under a name it does not bear is not held under that name |
| `PathLookup.LookupUnchanged` | kernel/fs/vfs.c:237-332 | after any amount of caching every path resolves as before |
| `PathLookup.PathRoundTrip` | kernel/fs/vfs.c:334-377 | resolving the full path of any node but the root gives that node's file |
| `PathAnswers.NamesAnswer` | kernel/fs/vfs.c:237-332 | a path of names finds the file they lead to; if only the last is missing, it gives the directory the others lead to, and that name, for creation; if an earlier one is missing, nothing, or the null read where its directory cannot be asked |
| `PathAnswers.PrintedAnswer` | kernel/fs/vfs.c:237-332 | the same for the path the names are printed as |
| `PathAnswers.DotCut` | kernel/fs/vfs.c:259-262 | a "." can be cut out of a path without changing the answer if and only if it is not the last component behind a file still to be made |
| `PathAnswers.UpCut` | kernel/fs/vfs.c:248-258 | a name that is found and a ".." right behind it can be cut out |
| `PathAnswers.UpAtRoot` | kernel/fs/vfs.c:248-252 | a ".." at the root ends the resolution there, whatever follows |
| `PathAnswers.DotsAnswer` | kernel/fs/vfs.c:247-332 | the three of them for paths |
| `PathLookup.StrandsOnlyThere` | kernel/fs/vfs.c:274-324 | a missing directory is read through the null pointer exactly when, following the components with "." and ".." as the walk does, one that is not the last is missing from a directory whose driver cannot be asked |
| `PathLookup.NullReadExample` | kernel/fs/vfs.c:274-324 | a bare root whose driver cannot be asked, and the path of a file in a missing directory |
| `PathLookup.SlashesOnly` | kernel/fs/vfs.c:160-250 | a path of slashes only leads to the root if and only if it is one slash |
| `VirtualFiles.FileSystem.GetChild` | kernel/fs/vfs.c:132-143 | the first child of that name, or none |
| `VirtualFiles.FileSystem.CacheNode` | kernel/fs/vfs.c:145-149 | one new node below the parent, and nothing else |
| `VirtualFiles.FileSystem.Remove` | libc/kernel/tree.c:136-165 | the node leaves its parent's children |
| `VirtualFiles.FileSystem.FindChild` | libc/kernel/tree.c:167-189 | a node at or below the given one that holds the file, or none when there is none |
| `VirtualFiles.FileSystem.Descend` | kernel/fs/vfs.c:268-322 | one component: the child held or cached, or how the walk ends |
| `VirtualFiles.FileSystem.ResolvePath` | kernel/fs/vfs.c:237-332 | the outcome is that of a lookup without any cache, ".." and "." included; exactly the missing nodes of the path are cached |
| `VirtualFiles.FileSystem.ResolveTwice` | kernel/fs/vfs.c:237-332 | a second resolution gives the same outcome and caches nothing |
| `VirtualFiles.FileSystem.NamesUp` | kernel/fs/vfs.c:346-358 | the names collected on the climb are the node's path backwards |
| `VirtualFiles.FileSystem.FullPath` | kernel/fs/vfs.c:334-377 | the text of the path of a node that holds the file; none exactly when no attached node does |
| `VirtualFiles.FileSystem.PrintAndResolve` | kernel/fs/vfs.c:334-377 | printing the path of a file and resolving it gives the file and caches nothing |
| `RingBuffers.RingBuffer.Writeable` | libc/kernel/ring_buffer.c:29-49 | the places left, one kept empty: with Available, always max - 1 |
| `RingBuffers.RingBuffer.Available` | libc/kernel/ring_buffer.c:143-161 | the number of unread bytes |
| `RingBuffers.RingBuffer.Write` | libc/kernel/ring_buffer.c:51-89 | on a buffer that does not block writers: all bytes are appended, or none when they do not fit |
| `RingBuffers.RingBuffer.WriteBlocking` | libc/kernel/ring_buffer.c:51-89 | a blocking writer gets through if and only if its bytes fit the buffer at all and the readers take enough meanwhile; then they stand behind what is still unread |
| `RingBuffers.RingBuffer.Read` | libc/kernel/ring_buffer.c:91-141 | the oldest bytes, as many as wanted or there are; it waits exactly when nothing is there or nothing wanted, and then takes as many of what has arrived |
| `RingBuffers.RingBuffer.Pop` | libc/kernel/ring_buffer.c:163-185 | the newest byte goes |
| `RingBuffers.RingBuffer.Peek` | libc/kernel/ring_buffer.c:187-203 | the byte at the offset, if there is one |
| `RingBuffers.RingBuffer.ReadLast` | libc/kernel/ring_buffer.c:205-221 | the newest byte, left in place |
| `RingBuffers.RingBuffer.Discard` | libc/kernel/ring_buffer.c:223-231 | the buffer is empty |
| `RingBuffers.PutAppends` | libc/kernel/ring_buffer.c:69-74 | a stored byte is appended exactly when a place besides the empty one is left; else all unread bytes are lost |
| `RingBuffers.PipeRun` | libc/kernel/ring_buffer.c:51-101 | with one producer and one consumer interleaving byte by byte and room checked once, bytes fetched then contents are the bytes stored, in every state of every run |
| `RingBuffers.UncheckedStoreLoses` | libc/kernel/ring_buffer.c:64-79 | the check is needed: one byte too many empties the buffer |
| `Terminals.Terminal.FindNewline` | kernel/fs/pty.c:105-114 | the length of the first line, or -1 when there is no newline |
| `Terminals.Terminal.SlaveRead` | kernel/fs/pty.c:116-131 | the shortest prefix ending in a newline, cut to the size; and exactly when it waits |
| `Terminals.Terminal.TypeKey` | kernel/fs/pty.c:185-219 | one key in canonical mode |
| `Terminals.Terminal.WriteToInput` | kernel/fs/pty.c:163-229 | the result is the length of the consumed prefix, the buffer is the edit of that prefix, and readers are woken when a line or the room ends |
| `Terminals.ConsumedUnique` | kernel/fs/pty.c:170-221 | the stopping rule fixes that length |
| `Terminals.EditPlain` | kernel/fs/pty.c:197-218 | keys without an erase are appended as they are |
| `Terminals.EditUndone` | kernel/fs/pty.c:186-196 | a key with an erase right behind it, or an erase with nothing to take back, is as good as not typed, wherever it stands |
| `Terminals.Terminal.Poll` | kernel/fs/pty.c:271-293 | POLLIN exactly when a read of any positive size would not wait |
| `Terminals.FinishedLinesStay` | kernel/fs/pty.c:186-196 | erasing leaves finished lines alone exactly when no erase finds the current line empty, or there are none: the driver erases past the start of the line |
| `Terminals.OnlyNewlineEndsWait` | kernel/fs/pty.c:197-207 | a carriage return completes a line for the writer but not for the reader |
| `Terminals.FullIsStuck` | kernel/fs/pty.c:209-218 | over every run of calls: a full buffer takes no key at all if and only if every call that brings keys begins with one that is no erase; then the queue stays what it is, and without a newline no read ends |
| `Terminals.NeverReadableExactly` | kernel/fs/pty.c:163-229 | over every run of calls, the queue stays without a newline if and only if no call consumes one |
| `Terminals.EraseUnsticks` | kernel/fs/pty.c:186-207 | an erase and a newline get a full buffer out of it |
| `Terminals.WriteCalls` | kernel/fs/pty.c:163-229 | the code over a run of calls gives that queue; a full buffer without a newline makes every read wait as long as no call begins with an erase |

## Left out

Hardware and neighbouring code

- Assembly, segment and interrupt set-up, the timer chip, TLB flushes, disk controllers, serial and keyboard drivers,
  glyph drawing: a context switch is a change of `current`, a disk is an array of bytes.
- Spinlocks and interrupt flags: no step modelled here gives the CPU away while holding one.
- Keyboard-interrupt callers of the mutex and terminal code (`kernel/fs/console.c:173-177`): they run inside what is a
  step here.  Also the calls of `schedule` in `sys_wait4` (`kernel/sys/syscall.c:717`) and for stop signals
  (`kernel/proc/ipc.c:134`), where a process gives the CPU away without being in any queue.
- `wait_for_object_timeout`, `mutex_acquire_timeout`, futexes and `wakeup_now`: they put one process in two queues, or in
  none.

Memory manager

- `KallocFrame`: a free frame is required; on exhaustion the code reads past its bitmap.
- `CreateOrGetPage`: asks for as many free frames as are missing on the path, and for no large page in the top-level slot,
  where the code would walk into the large page as if it were a table.
- `MapFrame`: asks for no large page on the path, for the same reason; and for one frame fewer than creation.
- `DeletePage`: the null tests of the code compare a translated pointer, which is never null, and are left out.
- `CheckUser`: the null tests are left out for the same reason.
- Frame numbers are below 2^31, the range `kfree_frame` narrows to; the fixed translation of frame 1 is not
  distinguished, and flags are the low twelve bits of a word.
- `RestoredExactly` and `ForkThenReap`: slot 0 of the source leads to a table, which the teardown takes for granted, and
  frame 0 is no kernel page below it.
- `CreateFor` and `UnmapFor`: pages below slot 508, where processes live.
- `CreateKernelFor`: pages behind a top-level entry of slots 508 to 510 that exists; a new one would be in one map only.
- `DeleteKernelFor`: pages that have their tables.
- `RunKeepsExactly`: the mapping of device memory is no step of the runs; the kernel does it while it boots.
- A user page that maps the frame of a device (`memmgr_map_mmio` without the kernel flag) lies behind a kernel slot and so
  is none of the process's own; guard pages of stacks, which are not present, are not modelled.
- `ExitFor`: slot 0 of the map leads to a table.
- `CloneTable`: the four nested loops are one method that enters itself per level.  Slot 511, where a map refers to
  itself, is not walked.
- `Munmap`: addresses whose pages lie below slot 508.
- `mmap`, `sbrk`, `brk`, `get_free_page`, flag changes, stack creation, MMIO mapping: easier members over the same walk, or
  not round trips.
- The slab allocator (`kernel/arch/amd64/alloc.c`).

Heap

- `Malloc`: the page count must fit the `int` that `liballoc_alloc` takes; `calloc` and `realloc` are left out.
- `AllocateNewTag`: the same bound on the page count.
- `Free`: pointers that `malloc` did not return, and the magic number that is meant to catch them.
- `SplitTag`: the code leaves the new tag's requested size unwritten; here it is 0 until the tag is handed out.

Scheduler and lists

- `GetNextProcess` reads a list entry after it was freed, and `WakeupSleeping` goes on from one: the entry is taken to be
  readable still, with its cleared links.
- `ProcessFork` and `ProcessExit`: the effect on queues and flags; copying and freeing of descriptors is not modelled, nor
  the killing loop in exit, whose condition is never true.
- `ProcessExit`: the process tree, and with it the hand-over of children.
- `ProcessReap`: removal from the process list; the list itself is `LinkedList.List.RemoveCounted`, the page map
  `ProcessMaps.ExitFor`, and the process tree is left out.
- `RemoveByIndex`: on a list of one entry the code goes on from a null pointer, which is excluded.
- `RemoveCounted`: the same, so the process reaped is not the only one in the list.
- The scheduler's queues are sequences; that the lists behave as such is what `LinkedList` proves.
- Signals, `execve`, `process_clone`, the process tree.

Inflate

- `Decode`: the input is an unbounded bit stream; 16-bit casts in the tables are exact for accepted lists.  Output growth,
  the gzip header, block headers and the dynamic code-length encoding are left out.
- `ParseBlock`: on an endless stream a block may never end, so the loop is given a number of symbols; the result holds for
  every such number.
- `CopyMatch`: a distance of 0, which only the distance symbols 30 and 31 that RFC 1951 leaves unused give; the code then
  copies bytes onto themselves, and `ParseBlock` says so instead of giving an output.

FAT32

- `FindFreeCluster`: the capacity in clusters, where its loop ends, is at most the number of entries for which there is
  room between the table's first sector and the data.
- `CreateFile`: the same; and the file node made for the caller.
- `CreateThenFind`: the same.
- `WriteOneCluster`: `fat_write_file_data` for one cluster, the only case `fat_open` needs; `fat_write` and longer writes,
  which follow the start cluster instead of the current one, are left out.
- `FreeFrom`: starts on a well-formed chain, as all files of a well-formed volume do; on a table with cycles the code may
  clear entries of other files or never end.
- `ReadFileData`: the same.
- `Read`: the same.
- `DeleteFile`: deletion of a directory, which counts the entries first and then does the same.  The cluster of the
  directory a file is in comes from the file tree, and is a parameter, none when the tree does not have the file.
- `UpdateDirEntrySize`: the same parameter.
- `RemoveDirEntry`: the same parameter.
- `FindDir`: the walk stops at the end of the cluster, past which the code reads on; of the node made for the caller the
  name is given.
- Mounting, directory listing over several clusters, long names.

Virtual file system

- `ResolvePath`: paths that start with a slash; the loop over the working directory, which does not advance on success,
  is left out.  A token's text is copied when it is cut, before the next call.
- `ResolveTwice`: the same paths.
- `FullPath`: the size of the buffer it allocates; the root itself, for which the code follows a null parent.
- `Remove`: removal of the root, and the freeing of file nodes.
- `FileSystem.Valid` asks drivers to answer with nodes that bear the name asked for, and to be deterministic.  The FAT
  driver's do not always bear it; what becomes of the cache then is `MisnamedNotHeld`.
- Tree height, the `cached` flag, mounts whose node bears another name than the path, rename and links.

Ring buffers and terminals

- `WriteBlocking`: what readers take during its waits is a parameter; the wake-up itself is the mutex's.
- `Read`: of a ring buffer, the same for what writers bring.
- `SlaveRead`: up to its return or its wait; waking is the scheduler's part, and what writers bring during a wait is a
  parameter of `RingBuffer.Read`.
- `WriteToInput`: echo to the screen or the output buffer.
