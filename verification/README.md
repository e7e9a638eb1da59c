# Verified model of the Sigma kernel's memory, scheduling and messaging core

Sigma is an x86-64 kernel with user-space drivers. This project models the parts of it whose
correctness rests on state that many operations share, and proves what those operations keep.

* **Frames** (`FrameRuns`, `FrameDrain`, `FrameAllocator`, `FrameTraces`, `FrameBoot`, `FrameReserve`): the
  physical frame allocator is a stack of runs of free frames. `FrameRuns` gives each operation as a
  function on the list of runs, `FrameDrain` what a list grants in the end, `FrameAllocator` is the stack
  itself, `FrameTraces` follows any sequence of calls, and the last two cover how the stack is built at
  boot.
* **Address spaces** (`RadixTree`, `Links`, `Ownership`, `VirtualAddress`, `Machine`, `Lifetime`, `Clone`,
  `Fork`, `Teardown`, `Anonymous`, `LastWords`, `SecondLevel`, `Runs`, `ContextRuns`): physical memory is a map from frames to pages of 512
  words. Page tables are trees inside that memory; `Ownership.World` says that every live space is a
  tree, that no two spaces share a table, that no table is free, that user spaces share only upper
  halves with the kernel's space, and that the links between tables have the permission bits of their kind
  (`Links`). Mapping, cloning, forking, anonymous mappings and IOMMU second-level tables are methods over the same memory and the same frame allocator, and each is tied to a flat
  view: `RadixTree.Walk`, the translation of one address. `Runs` lets them all follow one another in any
  order; `Teardown` models contexts whose root pointer outlives their tables, and `ContextRuns` follows threads
  with such contexts through whole runs.
* **Scheduling** (`SchedulerSteps`, `SchedulerSleep`, `SchedulerSplit`, `SchedulerFairness`, `SchedulerEvents`, `Scheduler`,
  `Events`): threads, CPUs and event counters as a state machine, its safety over every interleaving, with
  blocking in one step and in two, bounded waiting, and the class that performs the steps.
* **Heap** (`HeapPages`, `Heap`), **identifier cache** (`Pcid`), **NVMe queues** (`Nvme`), **IPC rings** (`Ipc`, `Wakeups`),
  **initial ram disk** (`Initrd`) and **number printing** (`Numbers`).

Conventions. A kernel panic never returns; a method that can panic returns `None` or `false` then,
says when that happens (`OutOfFrames`, `StackFull`), and promises nothing about the memory afterwards.
Each operation that the kernel runs under a lock is one step. Frames are page numbers. Addresses,
sizes and counters are unbounded numbers except where the 64-bit or 16-bit width decides the outcome;
there the wrap is written out (`FrameReserve`, `Heap`, `Pcid`, `Nvme`, `Initrd`, `Numbers`, `Events`).

Where the code falls short of what its callers expect, the model keeps the code, gives the input, and
states exactly when the property holds:

| expectation | holds exactly when | members |
|---|---|---|
| allocating n frames takes n frames; over a run, no frame is lost | one run only is large enough, at each such request | `AllocManyLeaks`, `AllocManyConservesIff`, `ExecuteConservesIff`, `Runs.Execute` |
| after a thread is killed, or a context cloned into, no frame is granted twice; over a run, none ever is | the context had no root, at each such call | `FreedTwice`, `FreeDisjointIff`, `DrainIff`, `Reset`, `Kill`, `ExecuteThreads` |
| sorting orders the runs | each is put back at an end where it belongs; without empty runs, they were pushed by non-decreasing base | `SortOrdersIff`, `NonEmptyOrdersIff` |
| reserving a frame removes just that frame | the first run whose bounds, end included, hold the frame covers it, and no run that holds it ends with the address space | `CarveExample`, `CarveExactIff`, `CarveAllExactIff` |
| an anonymous mapping is made, if frames suffice | a range is free and it is to be readable and writable | `TooLarge`, `ReadOnlyHalts`, `ClearedIff`, `MapAnonymous` |
| a thread is current on one CPU | no tick picks a thread that has marked itself blocked, or been woken, and not left its CPU | `SplitBlockRace`, `LateWakeRace`, `TickRacesIff`, `RunExclusiveIff` |
| changing the cache type of a page gives it that type | it was cached by default or alike, or is to be uncacheable | `CacheAddsIff` |
| a device may do with a page what it was mapped for | execution was not asked for: the tables above never permit it | `DevicePath`, `MapIo` |
| waking a thread is safe | it is on no CPU and not the boot thread | `WakeSafeIff` |
| wakeups do not exceed triggers | at most one thread tests the event at a time | `TwoWaiters`, `NeverTooManyIff` |
| heap blocks stay apart | the request fits a free block or ends inside the address space | `WrapExample`, `GrowsIff`, `Append`, `Alloc` |
| no stale translation after a switch | the context was not rebuilt while it sat in a slot | `StaleExample`, `SwitchFreshIff` |
| the slot unused longest is given away | it is not the second load | `VictimIff` |
| the driver keeps pace with its rings | they have fewer than 65536 entries | `InStepIff` |
| a ring delivers | its two ends are different threads | `DeliversIff` |
| a file answers to its name | the name leaves room for its terminator | `OwnNameIff` |
| a read is refused beyond the file | it ends neither one byte past it nor past the address space | `AllowedExamples`, `AllowedIff` |
| printed text tells a number from its negative | base 10 | `SignLostIff` |

## Model

| member | source | states |
|---|---|---|
| FrameRuns.AllocTakesOne | kernel/source/mm/pmm.cpp:174-188 | on disjoint runs it takes exactly one frame out of the free set, and the runs stay disjoint and do not become more |
| FrameRuns.AllocCovers | kernel/source/mm/pmm.cpp:174-188 | on any runs, overlapping or not: allocation fails exactly when no frame is free, takes a free frame, and frees none |
| FrameRuns.FreeAddsOne | kernel/source/mm/pmm.cpp:210-232 | on any runs, freeing adds exactly that frame to the free set, whether it joins a run or becomes one |
| FrameRuns.FreeDisjointIff | kernel/source/mm/pmm.cpp:210-232 | the runs are disjoint afterwards if and only if they were and the frame was not free already |
| FrameRuns.AllocManyIsSafe | kernel/source/mm/pmm.cpp:191-208 | the n frames handed out were free and are free no longer; nothing becomes free; the runs stay disjoint |
| FrameRuns.AllocManyConservesIff | kernel/source/mm/pmm.cpp:191-208 | exactly those n frames leave the free set if and only if a single run is large enough |
| FrameDrain.DrainTop | kernel/source/mm/pmm.cpp:174-188 | used up by single requests, a free list hands out its top run in order, then the rest |
| FrameDrain.DrainIff | kernel/source/mm/pmm.cpp:174-188 | used up by single requests, a free list grants no frame twice if and only if its runs are disjoint |
| FrameAllocator.Allocator.constructor | kernel/source/mm/pmm.cpp:57-86 | a stack without runs is a valid allocator |
| FrameAllocator.Allocator.Pop | kernel/source/mm/pmm.cpp:33-40 | the top run leaves the stack; an empty stack stays empty |
| FrameAllocator.Allocator.Push | kernel/source/mm/pmm.cpp:42-46 | the run is put on top and nothing else changes; it panics exactly when the stack is full |
| FrameAllocator.Allocator.AllocBlock | kernel/source/mm/pmm.cpp:174-188 | the loop over the stack refines the list operation, on any runs; it panics exactly when the free set is empty |
| FrameAllocator.Allocator.AllocBlocks | kernel/source/mm/pmm.cpp:191-208 | the scan refines the list operation; the frames handed out leave the free set, and no other does if and only if one run only is large enough |
| FrameAllocator.Allocator.FreeBlock | kernel/source/mm/pmm.cpp:210-232 | the scan refines the list operation, for any frame; the runs stay disjoint if and only if it was not free; it panics exactly when the frame touches no run and the stack is full |
| FrameTraces.ExecuteSafe | kernel/source/mm/pmm.cpp:174-232 | over any sequence of calls that does not panic, runs stay disjoint, live frames are not free, and no frame is granted twice without a return between |
| FrameTraces.ExecuteConservesIff | kernel/source/mm/pmm.cpp:174-232 | over any sequence of calls, free and live frames together never grow, and are the same at the end as at the start if and only if every multi-frame request met a single run that was large enough |
| FrameTraces.AllocManyLeaks | kernel/source/mm/pmm.cpp:191-208 | two runs of two frames: a request for one frame loses another |
| FrameTraces.StepPanics | kernel/source/mm/pmm.cpp:174-232 | with as much room on the stack as there are frames, only an allocation from an empty free set panics |
| FrameTraces.ExecuteNeverOverflows | kernel/source/mm/pmm.cpp:42-46 | on no run from such a state does the stack overflow; a panic has an earlier point where every frame was handed out |
| FrameBoot.SortPermutes | kernel/source/mm/pmm.cpp:234-259 | sorting keeps the non-empty runs, each as often as it was there |
| FrameBoot.SortKeepsFree | kernel/source/mm/pmm.cpp:234-259 | sorting keeps the free set |
| FrameBoot.SortDropsEmpty | kernel/source/mm/pmm.cpp:250-259 | no empty run survives the sort |
| FrameBoot.SortKeepsDisjoint | kernel/source/mm/pmm.cpp:234-259 | disjoint runs stay disjoint |
| FrameBoot.SortAscending | kernel/source/mm/pmm.cpp:234-259 | runs pushed by non-decreasing base end with the lowest on top |
| FrameBoot.SortOrdersIff | kernel/source/mm/pmm.cpp:234-259 | bases fall from bottom to top after the sort if and only if every run that is put back has the least base so far where it is below the cell at the current height, and the greatest elsewhere: the comparison looks one cell too high |
| FrameBoot.NonEmptyOrdersIff | kernel/source/mm/pmm.cpp:234-259 | without empty runs that is: if and only if the runs were pushed by non-decreasing base |
| FrameBoot.SortedInsert | kernel/source/mm/pmm.cpp:234-247 | the popping and pushing recursion refines insertion on the cells of the stack |
| FrameBoot.SortStack | kernel/source/mm/pmm.cpp:250-259 | the popping and pushing recursion refines the sort, on every stack |
| FrameReserve.CarveKeeps | kernel/source/mm/pmm.cpp:127-147 | reserving a frame never takes another one |
| FrameReserve.CarveExactIff | kernel/source/mm/pmm.cpp:127-147 | reserving removes exactly the frame if and only if the run that matches first covers it and the frame is in no run that ends with the address space, whose bound wraps to zero |
| FrameReserve.CarveExample | kernel/source/mm/pmm.cpp:127-147 | reserving the frame right behind a run makes a frame free that never was, and that one cannot be reserved any more |
| FrameReserve.CarveAllExactIff | kernel/source/mm/pmm.cpp:127-162 | after all reserve loops the free set is the old one without the reserved frames if and only if each range's first frame is covered by the run it matches when its turn comes, and no reserved frame is in a run that ends with the address space |
| FrameReserve.PushAllFree | kernel/source/mm/pmm.cpp:88-123 | what the memory map pushes is the usable frames |
| FrameReserve.FirstListFree | kernel/source/mm/pmm.cpp:88-125 | after the first sort the list still covers the usable frames of a disjoint map, in disjoint runs |
| FrameReserve.ReserveBlock | kernel/source/mm/pmm.cpp:127-147 | the scan refines carving on the list of runs, and panics exactly when the second piece does not fit the stack |
| FrameReserve.ReserveRange | kernel/source/mm/pmm.cpp:149-162 | a reserve loop refines carving of the range, frame by frame upwards |
| FrameReserve.PushRegions | kernel/source/mm/pmm.cpp:88-123 | the loop over the memory map refines its list of usable runs |
| FrameReserve.BuildFreeList | kernel/source/mm/pmm.cpp:88-164 | from memory map to sorted stack: the free set is usable minus reserved if and only if the ranges' first frames are covered and no reserved frame is in a run that ends with the address space; where the first frames are covered, the stack is a valid allocator without empty runs |
| FrameReserve.Boot | kernel/source/mm/pmm.cpp:57-171 | ten frames are dropped, and they and the free frames together are usable minus reserved if and only if the same holds of the ranges; where their first frames are covered, the ten are distinct and no longer free |
| RadixTree.TreeFrame | kernel/source/arch/x86_64/paging.cpp:236-314 | a tree of tables is the same tree, with the same tables, in every memory that agrees on them |
| RadixTree.LinkTable | kernel/source/arch/x86_64/paging.cpp:254-300 | hanging an empty table below any table of a tree gives a tree with exactly one table more |
| RadixTree.LinkWalk | kernel/source/arch/x86_64/paging.cpp:254-300 | hanging an empty table below any table changes no translation |
| RadixTree.SetLeafWalk | kernel/source/arch/x86_64/paging.cpp:302-314 | writing a last-level word changes the translation of that path only |
| Links.LinkLawful | kernel/source/arch/x86_64/paging.cpp:254-300 | a new table whose link permits writing and user access, and does not forbid execution, keeps every link of the tree so |
| Links.LeafLawful | kernel/source/arch/x86_64/paging.cpp:302-314 | writing a last-level word changes no link |
| Links.GraftLawful | kernel/source/arch/x86_64/paging.cpp:327-382 | neither does hanging a copied tree below the next entry by a word that keeps to it |
| Links.LastDecidesAll | kernel/source/arch/x86_64/paging.cpp:262-296 | where all links have a bit, every word on the path of a mapped page has it if and only if the last one does |
| Links.LastDecidesSome | kernel/source/arch/x86_64/paging.cpp:262-296 | where no link has a bit, some word on the path has it if and only if the last one does |
| Ownership.WorldLink | kernel/source/arch/x86_64/paging.cpp:254-300 | creating a table from a free frame keeps all spaces trees, apart from one another and from free frames, and no space translates differently, and every link keeps to what its structure demands |
| Ownership.PathRights | kernel/source/arch/x86_64/paging.cpp:262-296 | in every address space, lower half and shared upper half, the rights of a path (bits 1 and 2 in all its words, bit 63 in any) are those of its last word |
| Ownership.LeafWalks | kernel/source/arch/x86_64/paging.cpp:302-314 | a last-level write changes one path; if it is private to its space, no other space changes at all |
| Ownership.WorldAdd | kernel/source/arch/x86_64/paging.cpp:182-187 | a new tree of unused frames joins the others |
| Ownership.WorldRemove | kernel/source/arch/x86_64/paging.cpp:217-234 | a space leaves with exactly its own tables |
| VirtualAddress.PathOfIndices | kernel/source/arch/x86_64/paging.cpp:6-31 | taking an address apart undoes putting its indices together |
| VirtualAddress.PageNumberOfPath | kernel/source/arch/x86_64/paging.cpp:6-31 | putting the indices of an address together gives the address of its page |
| VirtualAddress.PathsEqualIff | kernel/source/arch/x86_64/paging.cpp:6-20 | two addresses have the same indices if and only if they agree in bits 12 to 47 |
| VirtualAddress.PathDigits | kernel/source/arch/x86_64/paging.cpp:6-20 | the four indices are the nine-bit digits of the page number, bits 39 to 47 first |
| VirtualAddress.LeafBits | kernel/source/arch/x86_64/paging.cpp:242-307 | the word bit by bit: bits 12 to 51 of the physical address, bits 0, 1, 2, 8 and 63 exactly as asked for, and besides them only bits 3, 4 and 7 of a cache type |
| VirtualAddress.CacheSelects | kernel/source/arch/x86_64/paging.cpp:49-70 | the entry of the page attribute table that the word selects holds the memory type asked for |
| VirtualAddress.CacheAddsIff | kernel/source/arch/x86_64/paging.cpp:480-522 | adding the bits of a cache type to a page that has another one gives the new type if and only if the page was cached by default or alike, or is to be uncacheable |
| Machine.Memories.constructor | kernel/source/arch/x86_64/paging.cpp:182-187 | the kernel's space over an empty root satisfies the ownership invariant and maps nothing |
| Machine.Memories.Create | kernel/source/arch/x86_64/paging.cpp:254-268 | a missing table is taken from the free frames; every space translates as before |
| Machine.Memories.GetPt | kernel/source/arch/x86_64/paging.cpp:254-300 | whichever tables were missing, the page table of the address is reached and no translation changed |
| Machine.Memories.MapPage | kernel/source/arch/x86_64/paging.cpp:236-314 | the address translates to the masked frame with its flags, every other address as before; other spaces change only if they already share the kernel's upper-half entry; it fails only when frames run out; the whole path then permits exactly the writing, user access and execution asked for |
| Machine.MappedIsFlat | kernel/source/arch/x86_64/paging.cpp:236-314 | the four-level table refines a flat map keyed on bits 12 to 47 |
| Machine.Memories.GetEntry | kernel/source/arch/x86_64/paging.cpp:453-477 | the level-by-level walk is the translation |
| Machine.Memories.GetPhys | kernel/source/arch/x86_64/paging.cpp:427-451 | the frame of the translation, or nothing where an entry is missing |
| Machine.Memories.SetPageProtection | kernel/source/arch/x86_64/paging.cpp:480-522 | flags are only ever added: the frame and the old bits stay; an unmapped address changes nothing; no other translation changes; the rights of the whole path become the old and the new ones together |
| Lifetime.Init | kernel/source/arch/x86_64/paging.cpp:182-187 | a new space maps nothing, owns one frame that was free, and leaves all other spaces alone |
| Lifetime.InitContext | kernel/source/arch/x86_64/paging.cpp:182-187 | a context that is unused, or in use and torn down first, maps nothing afterwards; every frame is accounted for and other spaces keep their translations |
| Lifetime.CleanBelow | kernel/source/arch/x86_64/paging.cpp:189-215 | the nested loops free every table below a table, and no leaf frame; the free list stays sound if and only if none of them was free already |
| Lifetime.CleanSpace | kernel/source/arch/x86_64/paging.cpp:217-234 | the same with the root, freed last |
| Lifetime.Deinit | kernel/source/arch/x86_64/paging.cpp:217-234 | a first teardown: exactly the root and the lower-half tables become free |
| Lifetime.AllocPage | kernel/source/mm/pmm.cpp:174-188 | a page's frame leaves the free set and is no table of any space |
| Lifetime.AllocPages | kernel/source/mm/pmm.cpp:191-208 | consecutive frames for pages are then neither free nor tables, and every other frame is as before if and only if one run only is large enough |
| Lifetime.FreePage | kernel/source/mm/pmm.cpp:210-232 | a page's frame joins the free set; all spaces stay valid |
| Lifetime.StoreThrough | kernel/source/proc/process.cpp:521-521 | a store through a mapping goes through if and only if every word on the path permits writing, which its last word decides; then that frame alone changes, and no table and no translation does |
| Clone.ClonePt | kernel/source/arch/x86_64/paging.cpp:316-325 | the copy is a fresh table with the same words |
| Clone.CloneTable | kernel/source/arch/x86_64/paging.cpp:327-382 | the copy of a subtree consists of fresh tables and translates every path as the original does, by links that permit as much |
| Clone.ClonePagingInfo | kernel/source/arch/x86_64/paging.cpp:384-417 | the clone translates every address as the source did, owns exactly the frames taken for it, shares no table, and no other space changes; every path has the rights it had in the source, and the upper root words are the source's |
| Fork.ForkWord | kernel/source/arch/x86_64/paging.cpp:578-593 | the child's word is the new frame with the parent's present, writable, user, no-execute and global bits and no others |
| Fork.PhysMapUpper | kernel/source/arch/x86_64/paging.cpp:588-589 | the window onto physical memory lies in the upper half for every frame of RAM |
| Fork.MapPhysical | kernel/source/arch/x86_64/paging.cpp:588-589 | mapping a frame into the window changes no translation outside the window, in any space; the window then shows that frame, and every other frame as before |
| Fork.CopyPage | kernel/source/arch/x86_64/paging.cpp:575-591 | the source's contents, read and written through the window, end up in a frame that was free; the kernel alone can use both window pages, and cannot execute them |
| Fork.CopyThrough | kernel/source/arch/x86_64/paging.cpp:588-591 | both frames are visible at once and can be written, so the copy goes through |
| Fork.ForkPage | kernel/source/arch/x86_64/paging.cpp:570-594 | one page of the child: its own fresh frame, equal contents, copied bits; nothing else in the child changes |
| Fork.ForkEntry | kernel/source/arch/x86_64/paging.cpp:550-597 | all pages below one entry of the parent, at whatever level |
| Fork.ForkAddressSpace | kernel/source/arch/x86_64/paging.cpp:546-599 | the child maps exactly the parent's present lower-half pages, each to a fresh frame of its own with equal contents and bits; the parent and all other spaces keep their lower halves; the recorded frames are the frames spent; each page has the rights along its path that it had in the parent; in the upper half the child translates as the kernel does wherever the kernel's root had a word, and nothing elsewhere |
| Fork.ForkThenRelease | kernel/source/arch/x86_64/paging.cpp:546-599 | what a fork spends is its recorded frames and the tables one teardown returns: giving both back restores the pool of free frames and tables; the child's tables, left in memory, still lead to the forked pages |
| Teardown.Context.constructor | kernel/include/Sigma/arch/x86_64/paging.h:57-60 | a new context has no root |
| Teardown.Context.Deinit | kernel/source/arch/x86_64/paging.cpp:217-234 | the root pointer survives a teardown, so a second one frees the same tables again: the free list stays sound if and only if none of them was free |
| Teardown.Context.Init | kernel/source/arch/x86_64/paging.cpp:182-187 | counting the new root, the frames granted from now on are all different if and only if no table of the context was free before |
| Teardown.Context.Reset | kernel/source/arch/x86_64/paging.cpp:385-387 | tearing down and then initialising, which tears down again: no frame is granted twice from here on if and only if the context had no root; the free frames and the new root are the old free frames and the tables of the context |
| Teardown.Kill | kernel/source/proc/process.cpp:386-389 | killing a thread frees its recorded frames and resets its context: some frame is granted twice afterwards if and only if the thread had an address space; the free frames and the new root are the old free frames, the recorded ones and the tables |
| Teardown.FreedTwice | kernel/source/mm/pmm.cpp:210-232 | a root freed twice is in the free list twice and is granted twice in a row |
| ContextRuns.CutShortIff | kernel/source/arch/x86_64/paging.cpp:182-387 | a run is cut short if and only if one of the calls that happen kills, or clones into, a context that has a root by then, which the calls alone tell |
| ContextRuns.SoundGrantsOnce | kernel/source/mm/pmm.cpp:174-188 | in a state that keeps the ownership invariant the frames still to be granted are all different and none is the root of a context |
| ContextRuns.Hit | kernel/source/proc/process.cpp:372-401 | a kill of, or a clone into, a context with a root leaves a free list that grants some frame twice, or a root again |
| ContextRuns.Quiet | kernel/source/proc/process.cpp:372-401 | every other call does what it is for and keeps the ownership invariant, and each context the root of its space: a started or killed context maps nothing, a clone translates as its source, a killed thread's frames are held no longer |
| ContextRuns.ExecuteThreads | kernel/source/proc/process.cpp:372-401 | any sequence of starts, kills, clones and all calls of `Runs`, followed up to the first that hits a root: every call up to there did what it is for, and no frame is granted twice from there on if and only if no call killed, or cloned into, a context that had a root |
| Runs.Step | kernel/source/arch/x86_64/paging.cpp:182-417 | one call keeps the ownership invariant; no frame is in two hands, and none is lost if and only if it is not a request for several frames that several runs could serve; the call did to memory, spaces and frames what it is for, and other spaces stay |
| Runs.StepUser | kernel/source/arch/x86_64/paging.cpp:546-599 | fork and anonymous mapping keep the invariant and move the frames of pages from the pool to those held; the child has the parent's rights page by page, the mapped range is of user pages |
| Runs.StepPages | kernel/source/arch/x86_64/paging.cpp:236-522 | so do mapping and protecting a page, which change that page as asked for |
| Runs.StepSpaces | kernel/source/arch/x86_64/paging.cpp:182-417 | so do creating, cloning and giving up a space: a new one maps nothing, a clone what its source does |
| Runs.TraceConserves | kernel/source/mm/pmm.cpp:174-232 | over the moments of any run, frames are lost if and only if one of the calls performed loses some where it happens |
| Runs.StepFrames | kernel/source/mm/pmm.cpp:174-232 | the frame calls keep it; they lose no frame if and only if one run only is large enough for a multiple request |
| Runs.StepIo | kernel/source/arch/x86_64/intel/sl_paging.cpp:4-77 | so do the calls on second-level structures |
| Runs.Execute | kernel/source/arch/x86_64/paging.cpp:182-417 | any sequence of init, map, protect, clone, deinit, fork, anonymous mappings, second-level creation, mapping and destruction, single and multiple allocation, free and page writes: each call that is allowed where it comes did what it is for and the others nothing; the invariant holds, and in every address space the last word of a path says what the whole path permits; no frame is lost if and only if every multiple allocation met one run only that was large enough; forking stays possible while the kernel is mapped in its upper half and user spaces map RAM |
| Anonymous.GetFreeRange | kernel/source/arch/x86_64/paging.cpp:524-542 | if a large enough run of unmapped pages exists, the answer is the lowest; if none does, it is the start of the unmapped pages at the end of the range, or all ones |
| Anonymous.ClearedIff | kernel/source/proc/process.cpp:504-521 | a page can be cleared through its new mapping if and only if it was asked for as readable and writable |
| Anonymous.ReadOnlyHalts | kernel/source/proc/process.cpp:521-521 | a request for a page that is only to be read, or not to be accessed, faults |
| Anonymous.MapFresh | kernel/source/proc/process.cpp:516-521 | unless frames run out, one page gets a fresh zeroed frame if and only if it was asked for as readable and writable; otherwise the kernel faults |
| Anonymous.MapStray | kernel/source/proc/process.cpp:516-521 | a page past the lower half takes a frame and one for each table missing on its path, and runs out exactly when fewer are free; then it faults if the protection forbids clearing it, and goes astray if not |
| Anonymous.MapRange | kernel/source/proc/process.cpp:509-540 | the same for a range from any address on: unless frames run out, it is backed if and only if it can be cleared and lies in the lower half, and faults if and only if it cannot be cleared; every page gets its own fresh zeroed frame, the frames are recorded in order, and every page outside the range and every other space translates as before |
| Anonymous.TooLarge | kernel/source/arch/x86_64/paging.cpp:524-542 | a request for more pages than the whole range has finds no run, whatever is mapped |
| Anonymous.MapAnonymous | kernel/source/proc/process.cpp:491-543 | unless frames run out, a request is done if and only if a range of the size is free and it is readable and writable, faults if and only if it is not both, and goes past the lower half otherwise; done, it has taken the lowest such range, each page has a fresh zeroed frame, and nothing that was mapped changes; each page has bits 0, 1 and 2 and, if it is not to be executed, bit 63 and no other, and its whole path lets the program use it so; the range starts on a page boundary and lies between 0x900000000 and the end of the lower half |
| LastWords.WalkOfLast | kernel/source/arch/x86_64/intel/sl_paging.cpp:50-62 | a walk ends in the last word of its path if and only if that word is readable |
| LastWords.LinkLast | kernel/source/arch/x86_64/intel/sl_paging.cpp:50-60 | hanging an empty table below any table changes the last word of no path |
| LastWords.SetLast | kernel/source/arch/x86_64/intel/sl_paging.cpp:70-76 | writing a last-level word changes that of its own path only, readable or not |
| LastWords.AllOfLast | kernel/source/arch/x86_64/intel/sl_paging.cpp:50-62 | where all links have a bit, every word of a path has it if and only if the last one does, mapped or not |
| SecondLevel.IoPathFields | kernel/source/arch/x86_64/intel/sl_paging.cpp:44-48 | the indices are the nine-bit fields of the address, as many as the depth uses |
| SecondLevel.CreateTable | kernel/source/arch/x86_64/intel/sl_paging.cpp:4-11 | a zeroed table of a frame that was free, cleared through the window, which the kernel alone can use |
| SecondLevel.NewIo | kernel/source/arch/x86_64/intel/sl_paging.cpp:17-22 | a new domain of depth 3, 4 or 5 maps nothing and owns one frame |
| SecondLevel.MapIo | kernel/source/arch/x86_64/intel/sl_paging.cpp:43-77 | at every depth the address's path ends in the frame, with bit 0 on if and only if it may be read, bit 1 if written, bit 2 if executed, and its other bits as they were; every other path of the domain ends as before; no table of another structure changes, and the kernel's translations only inside its window; counting the links, a device may read and write the page exactly as asked for and execute nothing, and do at every other address what it could |
| SecondLevel.DevicePath | kernel/source/arch/x86_64/intel/sl_paging.cpp:50-76 | what a device may do along a path is what the last word says of reading and writing, and never execution |
| SecondLevel.IoMappedIsFlat | kernel/source/arch/x86_64/intel/sl_paging.cpp:43-77 | a domain refines a flat map keyed on the address bits its depth uses: a page is there for the device if it permits anything, writing alone included |
| SecondLevel.CleanTables | kernel/source/arch/x86_64/intel/sl_paging.cpp:24-37 | the recursion frees every table of the tree once, and no mapped frame |
| SecondLevel.DestroyIo | kernel/source/arch/x86_64/intel/sl_paging.cpp:39-41 | exactly the domain's tables become free |
| SchedulerSteps.TickEffect | kernel/source/proc/process.cpp:200-233 | thread by thread and CPU by CPU, what a tick changes |
| SchedulerSteps.TickSafe | kernel/source/proc/process.cpp:200-233 | a tick restores the invariant where only the ticking CPU's thread breaks it |
| SchedulerSteps.TickSound | kernel/source/proc/process.cpp:200-233 | so does any tick that picks no other CPU's thread, also where threads may be blocked on their CPUs |
| SchedulerSteps.BlockSafe | kernel/source/proc/process.cpp:441-450 | blocking and switching away keeps the invariant |
| SchedulerSteps.KillSound | kernel/source/proc/process.cpp:372-401 | killing the current thread keeps the invariant, in both machines |
| SchedulerSteps.NextSafe | kernel/source/proc/process.cpp:32-97 | every step keeps the invariant, waking any thread that is on no CPU included |
| SchedulerSteps.Safety | kernel/source/proc/process.cpp:171-233 | over every interleaving on any number of CPUs: no thread but the boot thread is current on two CPUs, a running thread is current on exactly one, an idle, blocked or disabled one on none |
| SchedulerSleep.StepEffect | kernel/source/proc/process.cpp:372-456 | waking, silencing, killing, booting a CPU and triggering change that thread, CPU or event as they should, and nothing else |
| SchedulerSleep.StaysOff | kernel/source/proc/process.cpp:34-46 | a thread that is dead, silent or waits for an event without triggers runs at no point of any run that does not wake it, trigger its event or take its dead slot, and is at the end as it was |
| SchedulerSleep.KilledStaysOff | kernel/source/proc/process.cpp:372-401 | over every run behind a kill: the thread is current on no CPU at any point, and dead at the end, unless it is woken or its slot is taken |
| SchedulerSleep.KilledSlotReused | kernel/source/proc/process.cpp:319-332 | over every such run the next thread that is created or forked takes the lowest dead slot, which is not above the killed thread's |
| SchedulerSleep.CreateTakes | kernel/source/proc/process.cpp:319-332 | a new thread takes the lowest dead slot, or a new one if there is none; a created one starts silent, a forked one idle, and nothing else changes |
| SchedulerSleep.CreatedStaysOff | kernel/source/proc/process.cpp:319-332 | a created thread runs at no point of any run until it is woken |
| SchedulerSleep.BlockedStaysOff | kernel/source/proc/process.cpp:441-450 | a thread that blocks on an event without triggers runs at no point of any run until the event is triggered or it is woken |
| SchedulerSleep.SilencedStaysOff | kernel/source/proc/process.cpp:435-439 | a silenced thread that has left its CPU runs at no point of any run until it is woken |
| SchedulerFairness.TickApproaches | kernel/source/proc/process.cpp:48-85 | a tick dispatches a waiting thread or brings it closer in list order to the ticking CPU's thread |
| SchedulerFairness.BoundedWaiting | kernel/source/proc/process.cpp:48-85 | a thread that is idle runs within N ticks of any one CPU, whatever the other CPUs do between |
| SchedulerFairness.WokenRuns | kernel/source/proc/process.cpp:452-456 | a thread that is woken runs within as many ticks of any one CPU as there are threads |
| SchedulerFairness.ForkedRuns | kernel/source/proc/process.cpp:403-427 | so does a forked thread, whichever slot it got |
| SchedulerFairness.WakeSafeIff | kernel/source/proc/process.cpp:452-456 | waking keeps the invariant if and only if the thread is neither the boot thread nor current |
| SchedulerSplit.TickRacesIff | kernel/source/proc/process.cpp:441-450 | with blocking in two steps, a tick puts a thread on two CPUs if and only if another CPU's thread was woken there, or has marked itself blocked and its event is triggered, and nothing runnable comes before it in this CPU's scan |
| SchedulerSplit.RunExclusiveIff | kernel/source/proc/process.cpp:441-456 | from boot, over every interleaving of the two-step machine, wakes of threads on their CPUs included: each thread is on one CPU at every point of a run if and only if no tick of the run is such a tick |
| SchedulerSplit.OneStepNeverRaces | kernel/source/proc/process.cpp:441-450 | a run whose blocks do both halves back to back has no such tick and ends where the one-step machine does |
| SchedulerSplit.SplitBlockRace | kernel/source/proc/process.cpp:441-450 | a state in which the race happens |
| SchedulerSplit.LateWakeRace | kernel/source/proc/process.cpp:441-456 | a state in which it happens because a thread is woken between the halves of blocking |
| SchedulerEvents.RunCounts | kernel/source/proc/process.cpp:34-46 | over every run, what an event's counter holds and the threads it woke add up to what it held and its triggers |
| Scheduler.Scheduler.constructor | kernel/source/proc/process.cpp:235-247 | the state before multitasking satisfies the invariant |
| Scheduler.Scheduler.HasTriggered | kernel/include/Sigma/generic/event.hpp:22-29 | a trigger is consumed exactly when there is one |
| Scheduler.Scheduler.CheckThread | kernel/source/proc/process.cpp:34-46 | a thread is claimed exactly when it can run, with its trigger |
| Scheduler.Scheduler.Schedule | kernel/source/proc/process.cpp:32-97 | the two scans pick the next thread in cyclic order that can run, and claim only that one |
| Scheduler.Scheduler.IdleCpu | kernel/source/proc/process.cpp:171-198 | the CPU gives up its thread and runs none |
| Scheduler.Scheduler.TimerHandler | kernel/source/proc/process.cpp:200-233 | the handler refines the tick step |
| Scheduler.Scheduler.BlockCurrent | kernel/source/proc/process.cpp:441-450 | blocking refines its step |
| Scheduler.Scheduler.CreateBlockedThread | kernel/source/proc/process.cpp:319-332 | creation refines its step and names the thread |
| Scheduler.Scheduler.Wake | kernel/source/proc/process.cpp:452-456 | waking makes just that thread idle |
| Scheduler.Scheduler.ForkCurrent | kernel/source/proc/process.cpp:403-427 | forking refines its step, and does nothing on a CPU without a thread |
| Scheduler.Scheduler.KillCurrent | kernel/source/proc/process.cpp:372-401 | killing refines its step: the thread is disabled, the CPU has none, and nothing else changes; `KilledStaysOff` and `KilledSlotReused` say what follows |
| Scheduler.Scheduler.SilenceCurrent | kernel/source/proc/process.cpp:435-439 | only the current thread's state changes |
| Scheduler.Scheduler.InitCpu | kernel/source/proc/process.cpp:249-262 | a CPU starts on the boot thread |
| Scheduler.Scheduler.Execute | kernel/source/proc/process.cpp:32-97 | any sequence of the class's operations goes as the state machine does, skipping what cannot happen, and keeps the invariant |
| Events.OneWaiterBalanced | kernel/include/Sigma/generic/event.hpp:13-29 | with one waiter, counted and taken triggers add up to the triggers at every point of every run, though test and decrement are separate steps |
| Events.TwoWaiters | kernel/include/Sigma/generic/event.hpp:22-29 | two waiters both get through on one trigger, and the counter wraps below zero |
| Events.NeverTooManyIff | kernel/include/Sigma/generic/event.hpp:13-29 | wakeups never exceed triggers if and only if at most one thread waits |
| Heap.ListDisjoint | kernel/source/mm/alloc.cpp:64-126 | two blocks of a sound heap share no byte, headers included |
| Heap.AppendKeeps | kernel/source/mm/alloc.cpp:84-101 | a block above all others, linked behind the tail, keeps the list address-ordered, linked and complete |
| Heap.GrowsIff | kernel/source/mm/alloc.cpp:25-39 | in 64-bit arithmetic a new block lies above the old top and ends at the new one if and only if nothing wraps |
| Heap.WrapExample | kernel/source/mm/alloc.cpp:64-102 | a request of nearly the whole address space leaves the top where it was |
| HeapPages.AddPage | kernel/source/mm/alloc.cpp:30-36 | a page of the kernel gets a fresh frame, cleared through the mapping, and every other page of the kernel translates as before; the kernel alone can use the page, and cannot execute it |
| HeapPages.ClearedNext | kernel/source/mm/alloc.cpp:30-36 | when the heap grows the new page is clear and the old ones hold what they held |
| HeapPages.BehindNext | kernel/source/mm/alloc.cpp:30-36 | the heap's pages stay mapped, each to a frame of its own that is neither free nor a table |
| Heap.KernelHeap.constructor | kernel/source/mm/alloc.cpp:7-22 | no blocks and no pages |
| Heap.KernelHeap.Init | kernel/source/mm/alloc.cpp:180-185 | four mapped pages make a sound heap |
| Heap.KernelHeap.GetFreeBlock | kernel/source/mm/alloc.cpp:11-19 | the lowest free block that is large enough, and none only if there is none |
| Heap.KernelHeap.Morecore | kernel/source/mm/alloc.cpp:25-39 | when it returns, every page up to above the new top is mapped to a frame of its own and earlier pages are where they were; it fails only when frames run out, as it must for a top in the last page of the address space; the new pages are clear and the old ones hold what they held |
| Heap.KernelHeap.Alloc | kernel/source/mm/alloc.cpp:64-102 | a block as large as asked for that was not in use; all other blocks keep their size, use and contents; the heap stays sound if and only if the request has room |
| Heap.KernelHeap.AllocAligned | kernel/source/mm/alloc.cpp:105-126 | the same for a new block whose header is at a multiple of the alignment, less than the alignment above the old top |
| Heap.KernelHeap.Free | kernel/source/mm/alloc.cpp:160-178 | only that block changes, and only to free; the null pointer and a free block are ignored |
| Heap.KernelHeap.Realloc | kernel/source/mm/alloc.cpp:129-158 | a block that is large enough is left as it is, whether the heap could grow or not; otherwise, if there is room, the old block's bytes are at the answer, the block is large enough, every other block in use keeps its contents; null, zero and free arguments as the code treats them |
| Heap.KernelHeap.Perform | kernel/source/mm/alloc.cpp:64-178 | a call that names a block of the heap, and has room if it has to allocate, keeps the heap sound and fails only when frames run out, and does to blocks and contents what the call is for |
| Heap.KernelHeap.Execute | kernel/source/mm/alloc.cpp:64-178 | over any run of calls each did what it is for, and blocks share no byte and lie in mapped pages |
| Pcid.PcidCpu.constructor | kernel/include/Sigma/arch/x86_64/paging.h:115-130 | eight empty slots |
| Pcid.PcidCpu.SetContext | kernel/source/arch/x86_64/paging.cpp:145-169 | the slot is stamped and becomes active, and the counter moves on in 64 bits |
| Pcid.PcidCpu.SetCurrentInfo | kernel/source/arch/x86_64/paging.cpp:78-108 | the one-pass scan refines: the slot of the context if it has one, else the first slot with the least timestamp |
| Pcid.Victim | kernel/source/arch/x86_64/paging.cpp:97-99 | no slot has a smaller timestamp, and no earlier one the same |
| Pcid.RunKeeps | kernel/source/arch/x86_64/paging.cpp:78-108 | on every run, contexts sit in distinct slots, the active slot holds the context last asked for, and only translations of a slot's own context are cached under its identifier |
| Pcid.SwitchFreshIff | kernel/source/arch/x86_64/paging.cpp:145-169 | after a switch the CPU can use current translations only, if and only if the context was not rebuilt since its slot was flushed |
| Pcid.CarefulRunFresh | kernel/source/arch/x86_64/paging.cpp:78-108 | on every run that rebuilds contexts only while they are in no slot, every switch is fresh |
| Pcid.StaleExample | kernel/source/arch/x86_64/paging.cpp:145-156 | a context rebuilt between two visits is visited again with its old translations |
| Pcid.VictimIff | kernel/source/arch/x86_64/paging.cpp:97-102 | until the counter wraps, the slot given away is the least recently loaded one if and only if this is not the second load |
| Pcid.GivesAwayOldest | kernel/source/arch/x86_64/paging.cpp:78-108 | the same for every run from boot |
| Nvme.LapsInStep | drivers/storage/nvme/source/queue.cpp:76-83 | below 65536 entries, after any number of laps the driver stands at the right entry and expects the right phase |
| Nvme.InStepIff | drivers/storage/nvme/source/queue.cpp:76-83 | that holds if and only if there are fewer than 65536 entries |
| Nvme.QueuePair.constructor | drivers/storage/nvme/source/queue.cpp:9-38 | zeroed rings are in step |
| Nvme.QueuePair.SendCommand | drivers/storage/nvme/source/queue.cpp:40-56 | the command is in its entry with id 0, no other entry changes, and the doorbell says so |
| Nvme.QueuePair.SendAndWait | drivers/storage/nvme/source/queue.cpp:58-86 | however long the controller takes, the entry taken is the completion of this very command, never an earlier lap's; success if and only if its status code is zero; both sides are in step again |
| Nvme.QueuePair.SendAll | drivers/storage/nvme/source/queue.cpp:58-86 | across any number of laps the commands are executed once each, in order, and each gets its own answer |
| Ipc.Buffer.EnsureCapacity | kernel/include/Sigma/types/queue.h:66-81 | growing keeps the contents |
| Ipc.Buffer.Push | kernel/include/Sigma/types/queue.h:30-37 | the item is appended, across growth |
| Ipc.Buffer.Pop | kernel/include/Sigma/types/queue.h:39-49 | the newest item is taken and the others stay; only an empty buffer panics |
| Ipc.Buffer.Back | kernel/include/Sigma/types/queue.h:51-58 | the newest item, which stays |
| Ipc.Queue.Send | kernel/source/proc/ipc.cpp:9-29 | a copy of the sender's bytes is pending and the event is triggered once, or nothing changes for want of memory |
| Ipc.Queue.Receive | kernel/source/proc/ipc.cpp:31-47 | the newest message is handed over byte for byte and nothing behind it in the receiver's memory changes |
| Ipc.Queue.TopMessageSize | kernel/source/proc/ipc.cpp:49-57 | the size of the message the next receive hands over |
| Ipc.IpcRing.SendFrom | kernel/source/proc/ipc.cpp:65-73 | one end's message goes to the other end's queue and the other direction is untouched; a stranger panics |
| Ipc.IpcRing.ReceiveAt | kernel/source/proc/ipc.cpp:75-83 | an end receives from its own queue only |
| Ipc.IpcRing.TopMessageSize | kernel/source/proc/ipc.cpp:85-95 | an end's own next size |
| Ipc.RunConserves | kernel/source/proc/ipc.cpp:9-83 | in every run, sent is received plus pending, as multisets, and there is one trigger a message |
| Ipc.Delivered | kernel/source/proc/ipc.cpp:65-83 | in every run each end is handed exactly messages the other end sent, unchanged, none more often than sent; the rest is pending |
| Ipc.DeliversIff | kernel/source/proc/ipc.cpp:65-83 | a ring can deliver to its first end if and only if its ends differ |
| Ipc.SizeMatches | kernel/source/proc/ipc.cpp:85-95 | the size query agrees with the end's next receive, whatever operations come between but a send to that end |
| Ipc.BurstReversed | kernel/include/Sigma/types/queue.h:30-49 | any burst that is then drained arrives in reverse |
| Wakeups.WakeupsWithinSends | kernel/source/proc/ipc.cpp:9-29 | over every run of scheduler and ring together, an end is woken by its event no more often than messages were sent to it |
| Initrd.OctalRoundTrip | kernel/source/proc/initrd.cpp:9-18 | reading an octal field undoes writing it |
| Initrd.GetHeaderNumber | kernel/source/proc/initrd.cpp:9-18 | the loop from the last digit computes the field's number in 64-bit arithmetic, whatever its bytes are |
| Initrd.WalkFinds | kernel/source/proc/initrd.cpp:22-37 | on the archive of any list of files the walk meets exactly their headers, in order |
| Initrd.UstarLayout | kernel/include/Sigma/proc/initrd.h:9-18 | a header has the name at its start, the size in octal at byte 124, and 512 bytes in all |
| Initrd.OwnNameIff | kernel/source/proc/initrd.cpp:39-66 | a file answers to its name if and only if the name is terminated |
| Initrd.NamedIff | kernel/source/proc/initrd.cpp:39-66 | a file answers to a name if and only if it is the string its header starts with: its own name, or a name of 100 bytes and the bytes behind it up to the first zero |
| Initrd.OwnAnswerIff | kernel/source/proc/initrd.cpp:39-66 | that string is the file's name if and only if the name leaves room for its terminator |
| Initrd.LookupFinds | kernel/source/proc/initrd.cpp:39-66 | a lookup of any name finds the entry of the first file that answers to it, and nothing if there is none |
| Initrd.AllowedIff | kernel/source/proc/initrd.cpp:39-41 | the check accepts exactly the ranges inside the file if and only if the range ends neither one byte past it nor past the address space |
| Initrd.AllowedExamples | kernel/source/proc/initrd.cpp:39-41 | two ranges outside an empty file that the check accepts |
| Initrd.RoundTrip | kernel/source/proc/initrd.cpp:22-66 | laid out, walked and read back, the first file that answers to a name has its size, and any range of it its bytes |
| Initrd.RamDisk.Init | kernel/source/proc/initrd.cpp:22-37 | the loop refines the walk, on any memory |
| Initrd.RamDisk.GetSize | kernel/source/proc/initrd.cpp:57-66 | the loop refines the lookup of the size |
| Initrd.RamDisk.ReadFile | kernel/source/proc/initrd.cpp:39-55 | check, lookup and copy refine the read |
| Numbers.ValueOfDigits | kernel/source/klibc/stdlib.cpp:21-25 | in every legal base the digits denote the number |
| Numbers.TableChar | kernel/source/klibc/stdlib.cpp:23-23 | every remainder, of either sign, has its digit at an index between 0 and 70 |
| Numbers.ParseText | kernel/source/klibc/stdlib.cpp:7-35 | parsing the base-10 text gives the number back, the least one included |
| Numbers.SignLostIff | kernel/source/klibc/stdlib.cpp:17-17 | a number is written like its negative if and only if it is zero or the base is not 10 |
| Numbers.TextFits | kernel/source/klibc/stdlib.cpp:7-35 | 65 bytes hold any text and its terminator |
| Numbers.ReverseRange | kernel/source/klibc/stdlib.cpp:29-33 | the two-index loop reverses the digits and touches nothing else |
| Numbers.WriteDigits | kernel/source/klibc/stdlib.cpp:21-25 | the loop writes the digits last one first, for truncating division of either sign |
| Numbers.Itoa | kernel/source/klibc/stdlib.cpp:7-35 | the buffer holds the text and a terminator; an illegal base gives the empty string |
| Numbers.Htoa | kernel/source/klibc/stdlib.cpp:37-57 | the buffer holds 0x and the digits of the 64-bit word; there is no terminator and nothing behind the digits changes |
| Numbers.HexReadsBack | kernel/source/klibc/stdlib.cpp:37-57 | those digits denote the number mod 2^64 and start with zero only for zero |

## Left out

- MapAnonymous: covers requests for frames of the kernel's choosing; a given physical base and the IOMMU mapping that goes with it are not modelled, and for a given virtual base see `MapRange`. What a page mapped past the lower half, in tables the kernel shares, overwrites is not modelled.
- ForkAddressSpace: takes the kernel's own lower half to be empty and the parent's pages to lie in RAM; `Runs` shows which calls keep both so. Pages mapped to device memory are not modelled.
- MapPage: and SetPageProtection take a user space's lower half and the kernel's space anywhere; mapping through a user space's upper half, which would write the kernel's shared tables, is not modelled.
- ClonePagingInfo: starts from an unused target; what becomes of a target in use is `Reset`, after which nothing is promised about the clone.
- Deinit: the context is gone afterwards; `Teardown` keeps the root pointer, as the kernel does.
- Kill: the list of recorded frames, which the kernel does not clear either, is given up afterwards.
- QueuePair: is stated for rings that stay in step; `InStepIff` says which do. A ring of one entry never leaves its doorbell at a new value and is not modelled. Command ids are always 0, because the bitmap they come from is never written.
- Receive: and ReceiveAt need the receiver's memory to hold the message; the kernel does not check it.
- ReserveRange: takes ranges that end below the last frame of the 64-bit address space; up to that frame the kernel's loop does not end.
- ExecuteThreads: stops at the first call that hits a root; what later calls do to a free list that is already wrong is not followed.
- Itoa: and Htoa take a buffer that holds the text; the kernel does not check it.
- AllocAligned: alignments divide 2^64, as powers of two do; the rounding is a bit mask that means nothing for others.
- Addresses in page tables are page-aligned; the TLB is modelled only for context switches, and invalidation of single pages is not.
- RAM is below 2^47 bytes, so that its window fits the upper half.
- Huge pages, which `map_page` never creates.
- Interleavings inside a step that the kernel takes under a lock, other than blocking (`SchedulerSplit`) and testing an event (`Events`).
- The thread queue that `schedule` looks at first: nothing is ever pushed to it.
- Registers, SIMD state, stacks and privilege levels of threads.
- Magic numbers of heap headers, which only detect corruption.
- The drivers for xHCI, AHCI, ATA and video, the file system server, the message bus, ACPI, PCI, HPET, APIC, virtualisation and boot code: register access and plumbing that would add easy members only.
