# A verified model of the kernel's memory core, console, keyboard, loader and scheduler

The kernel is a small 32-bit x86 kernel. Its memory manager edits the active address space only through
virtual pages that lie in that same address space: one window for the active context block, one for the
page directory, and one for the page table of every directory slot. Other address spaces are edited through
three TEMP windows. Whether a mapping call writes to the right place therefore depends on earlier mapping
calls, and on the processor's own page walk. This project models that machinery together with the frame
allocator below it and the ELF loader, the task list, the console and the keyboard driver around it, and
proves what each of them keeps over whole runs.

How the memory core is modelled:

* Physical memory is 2^20 frames of 1024 words. Every access to a directory, table or context block in
  `Vmm.Machine` goes through a virtual page and is resolved by the processor: by a cached translation if it
  holds one, otherwise by the two-level walk of section 4.3 of the Intel Software Developer's Manual,
  volume 3A. The processor may fill and drop cached translations at any moment (section 4.10.4 there); only
  `invlpg` and CR3 loads remove them for certain.
* The methods of `Vmm.Machine` are proved against functions on a god's-eye view, `World.World`: memory, CR3,
  the active context, the allocator's abstract state, and the role of every frame in use. The properties of
  those functions, and of runs of them, are the lemmas.
* `World.Inv` is the invariant. Contexts, directories, tables and free frames are different frames; all
  contexts have the same directory slots 0..255; absent slots and free frames are zero-filled (the kernel
  never clears a new table); frame 0 is neither in use nor in the allocator's reach; and the windows are
  truthful for every present slot. The window of an absent slot shows nothing, and may be mapped like any
  other page. `BootState` gives concrete
  states in which it holds, one for each place where free memory may begin, and follows them through the
  creation of the first context and the first switch.

Where the code differs from its evident intention, the model follows the code:

* A context switch maps the page numbered like the target's directory frame onto that frame
  (`kernel/memory/vmm.c:253`), in the middle of using the windows. `SwitchOutcome.SwitchCoherent` says, for
  every target, exactly when the switch works. It fails if the directory is in frame 0x403, because all
  entries meant for the table of slot 1 then land in the directory itself; in frame 0x803, because CR3 is
  then loaded with the directory's first entry; or in a frame whose page needs a new table below slot 256,
  which only the old context gets. `BootState.SwitchesThatFail` reaches all three from boot.
* Even a switch that works replaces whatever was at that page. `SwitchEffect.SwitchTranslations` says what it
  does to every page of every context, `Requests.SwitchKeepsGrants` exactly which allocated pages survive it.
  The kernel's own heap can lose a page in this way (`Requests.SwitchCollision`, `BootState.HeapPageLost`).
* `vmm_get_mapping` assigns where it means to compare (`kernel/memory/vmm.c:357`), so `vmm_alloc_at` decides
  by the active context whatever context it is given. `Tidy.AnswersAllPages` says exactly for which contexts
  that is right, `Allocation.AnswersForActive` what happens otherwise. A refused request loses a frame for
  good (`Allocation.Refused`).
* `vmm_alloc_kernel` hands out the page at next_kernelspace whether or not it is mapped. A page obtained there
  from `vmm_alloc_at` is silently taken away again (`Requests.HeapCollision`).
* `vmm_alloc_at` does not know the windows. It refuses those in use, because they are mapped, but gives away
  the window of an absent slot; the first page needed in that slot takes it back for the new table
  (`kernel/memory/vmm.c:211`, `Requests.WindowCollision`). `Requests.NoAliasingExactly` says exactly which runs
  of requests lose no page, `BootState.FirstRequests` which first request does.
* A page table can enter a slot below 256 only while there is a single context: otherwise the contexts come
  to disagree about the kernel half (`Runs.SharingCondition`, `Windows.MapKeepsInvExactly`).
* Frame 0, once mapped, is reported as unmapped (`Tidy.FrameZeroLooksUnmapped`).
* The boot scans compare the first byte of each page with one module only. `BootScan.SafeExactly` says exactly
  when no page in use is given away; `BootScan.UnalignedStartIsLost` and `BootScan.SharedPageExposesModule`
  show the two ways in which one is.
* The ELF loader takes the 0 by which `vmm_alloc_at` refuses for success if that is the address it asked for.
  A segment linked to address 0 overwrites whatever page 0 holds (`Elf.LoadSegment`, `Elf.ZeroOverwritten`).
* The ELF loader, too, takes windows of absent slots for free pages. A segment there is lost to a later one
  that needs the slot's table (`Elf.PlacedExactly`): a file with segments at 0x00502000 and 0x40000000 is
  loaded without a panic, and its first segment is gone (`BootState.FileLosesSegment`).
* The ELF loader ignores p_memsz. Zeros behind a segment reach to the end of its page; more memory than that is
  not there (`Elf.BssIsZero`, `Elf.NothingBehind`, `BootState.LargeBssIsMissing`).
* Every entry written lets user mode read and write, kernel pages included (`Tidy.UserReachesMapped`).
* The scheduler's branch back to the first task cannot be reached (`kernel/multitasking.c:147`): tasks created
  after its first switch never run, and it fails at the end of the list (`Tasks.RunSummary`).
* `getc` steps over zero cells without waiting, and reads on behind the page when the last of 4096 keys has no
  character (`Keyboard.FaultsOnlyWhenExhausted`).

Files, from the bottom up: `Words`, `Bits`, `Bytes` (words, entries, bits and bytes as arithmetic); `Pmm`;
`Mmu`; `World`, `Mapping`, `Windows`, `OtherContext`, `Contexts`, `Creation`, `Switching`, `SwitchOutcome`,
`SwitchEffect`, `Allocation` (the memory manager on physical memory); `Vmm` (its methods); `Runs`, `Requests`,
`Tidy`, `Accounts`, `BootState` (runs); `BootScan`; `ElfImage`, `Elf`; `Text`, `Numbers`, `Format`, `Console`; `Keyboard`;
`Tasks`.

## Model

| member | source | states |
|---|---|---|
| Pmm.PageAllocator.constructor | kernel/memory/pmm.c:20-21 | the static variables describe an allocator without free frames and with an empty cache |
| Pmm.PageAllocator.Alloc | kernel/memory/pmm.c:85-110 | one free frame, the cached or the least one from 1 MiB on, leaves the set and its address is returned; the cache is emptied |
| Pmm.PageAllocator.Free | kernel/memory/pmm.c:112-131 | the frame joins the free set and fills an empty cache |
| Pmm.PageAllocator.SearchPage | kernel/memory/pmm.c:133-158 | the cache names the least free frame from 256 on, and nothing changes if there is none |
| Pmm.Pick | kernel/memory/pmm.c:92-100 | the frame handed out is the cached one, or else the least free one from 1 MiB on, and it is free |
| Pmm.AllocSpends | kernel/memory/pmm.c:100-103 | an allocation costs exactly the frame it hands out, of the free ones and of the reachable ones |
| Pmm.LowestFirst | kernel/memory/pmm.c:133-158 | with an empty cache the lowest free frame from 0x100 on is handed out, and the next one lies above it |
| Pmm.SearchFillsCache | kernel/memory/pmm.c:133-158 | the search caches the lowest free frame from 0x100 on, and changes nothing if there is none |
| Pmm.FreedIsNext | kernel/memory/pmm.c:112-131 | a frame freed while the cache is empty is the next to be handed out |
| Pmm.TakenStaysTaken | kernel/memory/pmm.c:85-131 | over any run, a frame that is not free stays so until somebody frees it |
| Pmm.NeverTwice | kernel/memory/pmm.c:85-110 | over any run, a frame is handed out a second time only if it was freed in between |
| Pmm.Conservation | kernel/memory/pmm.c:85-131 | over any run in which callers free what they hold, free and held frames partition the same set |
| Pmm.FreeSetClear | kernel/memory/pmm.c:101-101 | clearing the bit selected by word and position removes exactly that frame |
| Pmm.FreeSetSet | kernel/memory/pmm.c:126-126 | setting it adds exactly that frame |
| BootScan.FreeMemory | kernel/memory/pmm.c:38-81 | for any modules, the one-pass scan frees exactly the available pages whose first byte is in no reserved range and not in the module they are compared with, and then caches the least one from 1 MiB on |
| BootScan.FreeUnused | kernel/memory/pmm.c:38-79 | the loop over the memory map without the final search |
| BootScan.FreeRegion | kernel/memory/pmm.c:41-77 | one region of the map; the counter is always at the module that is due |
| BootScan.FreePage | kernel/memory/pmm.c:46-74 | one page: the chain of range checks frees it or not, and advances the counter on a module's last page |
| BootScan.MapMemory | kernel/memory/vmm.c:484-527 | the matching scan asks to identity-map exactly the other available pages |
| BootScan.MapRegion | kernel/memory/vmm.c:488-526 | one region of that scan |
| BootScan.MapPage | kernel/memory/vmm.c:492-523 | one page of that scan |
| BootScan.CounterStep | kernel/memory/pmm.c:68-71 | passing a page, the counter advances exactly when the next page is due for another module |
| BootScan.DueFinds | kernel/memory/pmm.c:63-63 | a page in some module is in the one it is compared with, for ascending modules reached in time |
| BootScan.ScanExact | kernel/memory/pmm.c:38-79 | for ascending modules, the counter does the work of a check of every page against all modules if and only if the scan gets past the earlier modules before every page that only a later one protects |
| BootScan.WellPlacedIsExhaustive | kernel/memory/pmm.c:38-79 | modules that start on page boundaries, lie wholly in pages the scan passes and share no page need no further condition |
| BootScan.FreedInBytes | kernel/memory/pmm.c:41-74 | for ascending modules reached in time, in bytes: a page is freed if and only if its first byte lies in a region of type 1 and outside the kernel, 2704 bytes from the information structure on, the memory map, 16 bytes for each module descriptor, and all modules |
| BootScan.FreedOrMapped | kernel/memory/vmm.c:484-527 | every available page is either freed by the one scan or mapped by the other |
| BootScan.SafeExactly | kernel/memory/pmm.c:46-74 | for ascending modules, no page that overlaps a module or a reserved range is freed if and only if the modules are reached in time and whatever starts inside a page starts in one that is kept anyway |
| BootScan.UnalignedStartIsLost | kernel/memory/pmm.c:63-63 | a module that starts inside a page loses that page |
| BootScan.SharedPageExposesModule | kernel/memory/pmm.c:68-71 | ascending modules two of which share a page, and the scan frees a page of the third |
| BootScan.KeptIsNeverAllocated | kernel/memory/pmm.c:46-110 | a frame the scan did not free, or that is not available, is never handed out in a run in which nobody frees it |
| BootScan.InUseNeverAllocated | kernel/memory/pmm.c:38-110 | under the conditions of SafeExactly, no frame any byte of which is in use at boot is ever handed out in a run in which nobody frees it |
| Mmu.StoreAndWalk | kernel/memory/vmm.c:224-224 | a store into a table changes exactly the walks that end in the stored cell |
| Mmu.OpenAccess | kernel/memory/vmm.c:208-224 | where entries are zero or end in binary 111, no access to a mapped page is refused for its mode or for being a write |
| World.WindowAddresses | kernel/include/mmap.h:4-10 | the windows lie at the addresses of the header file, one page for each table |
| World.TablesAreNotDirectories | kernel/memory/vmm.c:200-208 | a table in use is no context, no directory, not free, and in use in one slot only, shared exactly below slot 256 |
| World.PutEntryEffect | kernel/memory/vmm.c:224-224 | an entry changes the translation of its page in the contexts that share the table, and no other translation |
| World.AddTableEffect | kernel/memory/vmm.c:200-208 | entering a blank table changes one slot of one directory and no translation at all |
| Mapping.NewTableFacts | kernel/memory/vmm.c:200-212 | a missing table lowers the number of tables still needed, which is the measure of the recursion |
| Mapping.NewTableEnters | kernel/memory/vmm.c:200-216 | the recursion ends even where the new table tears the contexts apart: one table fewer is needed |
| Mapping.MapHereExtends | kernel/memory/vmm.c:122-239 | a mapping keeps contexts and present slots and takes exactly the tables needed, at most two, from the allocator |
| Mapping.MapHereSlots | kernel/memory/vmm.c:175-216 | exactly the missing slots become present, in the active context only |
| Mapping.MapHereTranslations | kernel/memory/vmm.c:122-239 | the page maps to the frame; every other page of every context stays, except windows of new tables |
| Mapping.NewTablesGetWindows | kernel/memory/vmm.c:210-212 | every table created on the way gets its window, also that of slot 2 needed for the windows of slots 1022 and 1023 |
| Mapping.MapHereKeepsCoherence | kernel/memory/vmm.c:175-216 | the self-map stays coherent under every mapping of a page that is not a window in use |
| Windows.MapKeepsInvExactly | kernel/memory/vmm.c:122-239 | for every page and frame, a mapping in the active context keeps the invariant if and only if it needs no new table in a slot shared with other contexts and turns no window in use to another frame |
| Windows.WindowFrameInUse | kernel/memory/vmm.c:210-212 | every window in use is mapped, to a frame that is a context block, directory or table and not frame 0 |
| OtherContext.PointTemp | kernel/memory/vmm.c:143-164 | pointing a TEMP window elsewhere is one entry and keeps the invariant |
| OtherContext.MapThereExtends | kernel/memory/vmm.c:122-239 | a mapping in another context keeps contexts and present slots and creates at most one table |
| OtherContext.MapThereSlots | kernel/memory/vmm.c:194-216 | it makes at most the one missing slot of that context present |
| OtherContext.MapThereTranslations | kernel/memory/vmm.c:122-239 | the page maps to the frame; every other page of every context stays, except the TEMP windows |
| OtherContext.MapThereKeepsCoherence | kernel/memory/vmm.c:122-239 | the active context's self-map stays coherent meanwhile |
| Contexts.TablesCreated | kernel/memory/vmm.c:194-216 | one call creates at most two tables |
| Contexts.MapTranslations | kernel/memory/vmm.c:122-239 | map correctness with frame, for both kinds of context |
| Contexts.MapExtends | kernel/memory/vmm.c:122-239 | the free count drops by exactly the tables created |
| Contexts.MapKeepsInv | kernel/memory/vmm.c:122-239 | every mapping of a page that is not a window in use keeps the invariant |
| Contexts.UserIsolation | kernel/memory/vmm.c:122-239 | a user mapping in one context changes no user translation in any other |
| Vmm.Machine.constructor | kernel/memory/vmm.c:557-574 | the machine when paging has just been turned on, with an empty translation cache |
| Vmm.Machine.MapPage | kernel/memory/vmm.c:122-239 | the call does on physical memory what `Contexts.Map` says, for NULL, the active and any other context, and no cached translation is stale afterwards |
| Vmm.Machine.MapActive | kernel/memory/vmm.c:143-232 | the branch for the active context: slot looked up in the directory window, table created if absent, entry written through the table window, page invalidated; with windows that are not truthful it writes where they lead |
| Vmm.Machine.CreateTable | kernel/memory/vmm.c:200-212 | a table is allocated, entered and given its window by a recursive call that needs fewer tables |
| Vmm.Machine.MapOther | kernel/memory/vmm.c:145-232 | the branch for another context, through the three TEMP windows |
| Vmm.Machine.ShowDirectory | kernel/memory/vmm.c:145-163 | after the two TEMP mappings the TEMP directory window shows that context's directory |
| Vmm.Machine.ShowTable | kernel/memory/vmm.c:175-216 | the TEMP table window shows the table of the slot, which is created if absent |
| Vmm.Machine.WriteEntry | kernel/memory/vmm.c:224-232 | the frame's address plus 7 is written and the one cached translation it outdates is dropped |
| Vmm.Machine.EnterTable | kernel/memory/vmm.c:200-208 | the allocated frame's address plus 7, a present, writable, user entry, is written into the directory in view |
| Vmm.Machine.LoadWord | kernel/memory/vmm.c:175-175 | a read through a window finds the word of the frame the walk reaches, although the processor may use its cache |
| Vmm.Machine.StoreWord | kernel/memory/vmm.c:224-224 | a write through a window changes that one word of physical memory |
| Vmm.Machine.CreateContext | kernel/memory/vmm.c:280-338 | the call does on physical memory what `Creation.Create` says and returns the new context block |
| Vmm.Machine.CompleteContext | kernel/memory/vmm.c:300-335 | the part after the context block is shown |
| Vmm.Machine.FillDirectory | kernel/memory/vmm.c:322-333 | the loop copies slots 0..255 of the active directory and clears the others |
| Creation.CreateKeepsInv | kernel/memory/vmm.c:280-338 | the invariant is kept, and the new context comes from a free frame |
| Creation.CreateNew | kernel/memory/vmm.c:322-335 | the new context has the kernel half and no user page, and its allocation pointers are set |
| Creation.CreateOld | kernel/memory/vmm.c:280-338 | every other context keeps its block and, windows apart, all its translations |
| Vmm.Machine.ActivateContext | kernel/memory/vmm.c:241-278 | for every target, the call does on physical memory what `Switching.Switch` says, load by load and store by store; nothing faults, and CR3 leaves nothing stale in the cache |
| Vmm.Machine.MapDirectoryToItself | kernel/memory/vmm.c:250-253 | the mapping made before the windows are rewritten, for every target |
| Vmm.Machine.MapContext | kernel/memory/vmm.c:419-443 | the windows of context, directory and all slots present as seen are written, each wherever its table's window leads at that moment |
| Vmm.Machine.PointWindows | kernel/memory/vmm.c:424-430 | the first two of these writes, the second with the address found through the first |
| Vmm.Machine.RewriteWindow | kernel/memory/vmm.c:433-443 | one round of the loop over the slots of the directory in view |
| Vmm.Machine.LoadTarget | kernel/memory/vmm.c:266-272 | CR3 gets the address found through the window |
| Switching.RewrittenFacts | kernel/memory/vmm.c:432-443 | after n rounds the windows of the first n slots describe the target, and no page but windows has changed |
| SwitchOutcome.SteadyTraversal | kernel/memory/vmm.c:419-443 | as long as the tables of slots 1 and 2 are shared and the window of slot 1 is truthful, vmm_map_context faults nowhere, rewrites the windows as meant and touches neither context block nor directory |
| SwitchOutcome.SwitchNeverFaults | kernel/memory/vmm.c:241-278 | for every target, no load or store on the way faults or outdates another page's cached translation |
| SwitchOutcome.GoesAstray | kernel/memory/vmm.c:253-253 | with the target's directory in frame 0x403 all stores are followed: the directory is overwritten and the structure is gone |
| SwitchOutcome.TearsApart | kernel/memory/vmm.c:253-253 | with a directory whose page needs a table in the kernel half the two contexts disagree afterwards |
| SwitchOutcome.LoadsTheWrongWord | kernel/memory/vmm.c:272-272 | with the target's directory in frame 0x803 CR3 does not get the directory |
| SwitchOutcome.SwitchCoherent | kernel/memory/vmm.c:241-278 | for every target, the switch leaves it active and coherent if and only if it is active already, or its directory is in neither of the frames 0x403 and 0x803 and the page numbered like that frame lies in a present slot or in the user half |
| SwitchEffect.SwitchTranslations | kernel/memory/vmm.c:241-278 | a switch that works changes, of all pages of all contexts, only the windows the target uses, TEMP_CONTEXT, the page numbered like the target's directory and the window of a table needed for it; the page numbered like the directory then leads to it, and all that is written leads to a context block, directory or table |
| Vmm.Machine.GetMapping | kernel/memory/vmm.c:340-408 | it returns the active context's entry without its flag bits, or 0xFFFFFFFF without a table, and changes no memory |
| Allocation.LookupAgrees | kernel/memory/vmm.c:378-407 | software lookup and hardware walk agree on a page if and only if its entry is present exactly when it names a frame other than 0 |
| Allocation.LookupAfterMap | kernel/memory/vmm.c:122-239 | a lookup after a mapping returns what was mapped |
| Tidy.RunTidy | kernel/memory/vmm.c:122-338 | over every run, all entries of directories and tables stay zero or have flag bits 111, and name a frame other than 0 if no caller maps frame 0 |
| Tidy.UserReachesMapped | kernel/memory/vmm.c:122-338 | after every run, for every page of every context, both entries consulted are zero or end in binary 111, and user mode reads and writes exactly what is mapped |
| Tidy.UserWriteReaches | kernel/memory/vmm.c:208-224 | after a mapping in either kind of context a user-mode write to the page reaches the frame |
| Tidy.SoftwareAgreesWithHardware | kernel/memory/vmm.c:340-408 | after every run, the lookup answers with an address exactly for the pages the processor can reach, and with the processor's frame |
| Tidy.FrameZeroLooksUnmapped | kernel/memory/vmm.c:407-407 | a page mapped to frame 0 is reported unmapped |
| Tidy.AnswersAllPages | kernel/memory/vmm.c:357-357 | vmm_alloc_at asked about a context refuses exactly its mapped pages if and only if that context and the active one map the same user pages |
| Vmm.Machine.AllocAt | kernel/memory/vmm.c:68-84 | it returns the page, or 0 if the lookup says mapped, and does on physical memory what `Allocation.AllocAt` says |
| Vmm.Machine.AllocKernel | kernel/memory/vmm.c:32-66 | it returns the page at next_kernelspace of the active context, maps it to a new frame, and moves the pointer |
| Allocation.Refused | kernel/memory/vmm.c:74-79 | a refused request changes no memory and costs one frame |
| Allocation.UnmappedIsSpare | kernel/memory/vmm.c:76-79 | no window in use is ever granted |
| Allocation.Granted | kernel/memory/vmm.c:74-83 | whatever page is granted, the invariant holds afterwards and the page is backed by a frame that was free and had no role; the free count drops by one plus the tables created |
| Allocation.RefusesExactlyMapped | kernel/memory/vmm.c:76-79 | for the active context and for kernel pages, exactly the mapped pages are refused |
| Allocation.AnswersForActive | kernel/memory/vmm.c:357-357 | otherwise a free page is refused or a mapped page is replaced |
| Allocation.KernelGranted | kernel/memory/vmm.c:53-65 | a kernel page is backed by a frame that was free and had no role; the pointer moves up one page; the free count drops by one plus the tables created |
| Runs.RunKeepsInv | kernel/memory/vmm.c:32-470 | the invariant holds after every run of mappings, creations, switches and allocations |
| Runs.KernelHalfAgreement | kernel/memory/vmm.c:322-333 | after every run all contexts have the same slots 0..255 and the same translations there |
| Runs.SharingCondition | kernel/memory/vmm.c:200-208 | a new table keeps the structure if and only if its slot is a user slot or there is one context only |
| Runs.StepIsolation | kernel/memory/vmm.c:32-470 | one operation changes no page of any context, kernel pages and windows included, except those it is said to write |
| Runs.UserPagesTouched | kernel/memory/vmm.c:122-278 | of user pages, it writes only the one it is asked for, or in a switch the one numbered like the target's directory |
| Runs.RunIsolation | kernel/memory/vmm.c:32-470 | over every run, a page of a context keeps its translation as long as no operation writes it |
| Requests.DistinctExactly | kernel/memory/vmm.c:32-84 | one request keeps all earlier grants if and only if none of them is the kernel page requested or the window of a table the request creates |
| Requests.NoAliasingExactly | kernel/memory/vmm.c:32-84 | over every run of requests in the active context, all pages granted are different, are backed by different frames that are no context, directory or table, and stay mapped, if and only if no request takes a page granted before it in one of these two ways |
| Requests.NoAliasing | kernel/memory/vmm.c:32-84 | this is so if nobody asks for a page next_kernelspace is going to reach, and no page involved is the window of a slot whose table one of the requests needs |
| Requests.LostOnce | kernel/memory/vmm.c:32-84 | no request brings back a page that was lost |
| Requests.HeapCollision | kernel/memory/vmm.c:58-59 | a page granted by vmm_alloc_at where next_kernelspace stands is handed out again and its first mapping is lost |
| Requests.WindowCollision | kernel/memory/vmm.c:210-212 | the window of an absent slot, once granted, is lost to the first request for a page of that slot |
| Requests.EarlierMappingsSurvive | kernel/memory/vmm.c:32-84 | over every run of requests, pages mapped beforehand that none of them has a use for keep their mapping |
| Requests.SwitchKeepsGrants | kernel/memory/vmm.c:250-278 | a grant in any context survives a switch that works if and only if the switch does not write its page; a kernel page numbered like the target's directory is lost |
| Requests.SwitchCollision | kernel/memory/vmm.c:253-253 | a kernel page allocated at the number of a context's directory is lost by switching to that context, although the switch works |
| Accounts.FramesConserved | kernel/memory/vmm.c:32-470 | after every run the frames free or in use are the same as before, none is both, the ones in use have grown by as many as the free ones have shrunk, and every directory and table in use is the one its context or slot names |
| BootState.Boots | kernel/memory/vmm.c:557-574 | states with one context satisfy all invariants; every page can be mapped and allocated, a kernel page allocated and a context created |
| BootState.FirstRequests | kernel/memory/vmm.c:32-84 | after boot any page and then a kernel page can be requested, and both stay where they are if and only if the former is neither 0xa00, where next_kernelspace starts, nor 0x404, the window of slot 2 |
| BootState.FirstContext | kernel/memory/vmm.c:280-338 | the first context's block is the first free frame, its directory the third |
| BootState.FirstContextUsable | kernel/memory/vmm.c:122-278 | it can be switched to and mapped in |
| BootState.FirstSwitch | kernel/memory/vmm.c:241-278 | whether the first switch after boot works depends only on where free memory begins, exactly as stated |
| BootState.SwitchesThatFail | kernel/memory/vmm.c:253-272 | each of the three ways to fail is reached from boot |
| BootState.HeapPageLost | kernel/memory/vmm.c:253-253 | with free memory from frame 0x9fe on, the first kernel page allocated after the first context is created is lost by switching to that context |
| BootState.FileLosesSegment | kernel/loader/elf_loader.c:76-81 | after boot, a file with segments at 0x00502000 and 0x40000000 causes no panic and has its first segment displaced by the second |
| BootState.LargeBssIsMissing | kernel/loader/elf_loader.c:76-81 | after boot, a segment with p_memsz 0x2000 causes no panic and has no second page |
| ElfImage.AcceptableFiles | kernel/loader/elf_loader.c:94-148 | a file passes check_elf and the machine and type tests if and only if its header has the ELF magic, 32-bit, little-endian, version 1, 386 and executable |
| ElfImage.ProgramHeaderRead | kernel/include/elf.h:82-91 | a program header written as eight numbers, lowest byte first, in the order of the structure reads as the same type, offset, address, file size and memory size |
| ElfImage.FileHeaderRead | kernel/include/elf.h:65-80 | a file header written in the order of the structure reads as the same type, machine, version, and place, size and number of program headers |
| ElfImage.NthHeaderRead | kernel/loader/elf_loader.c:73-74 | program header number j is read at e_phoff plus j times e_phentsize |
| Elf.InitElf | kernel/loader/elf_loader.c:38-85 | a rejected file changes nothing; the loader panics if and only if some loadable segment is unaligned, or is linked to a page other than page 0 that is mapped at the start or made mapped by an earlier segment; otherwise the file is undisturbed, every loadable segment linked to another address than 0 reads as the file's bytes and zeros unless a later one has taken its page for the window of a new table, which it then shows, and page 0 holds what it held overwritten by the segments linked to 0 |
| Elf.PlacedExactly | kernel/loader/elf_loader.c:73-85 | after loading, a segment is in place if and only if no later one has taken its page for a window |
| Elf.SegmentBytes | kernel/loader/elf_loader.c:73-82 | in bytes of the file: a program header of type 1, not linked to 0 and not displaced, has put p_filesz bytes from p_offset on at p_vaddr, and zeros behind them to the end of the page |
| Elf.BssIsZero | kernel/loader/elf_loader.c:81-81 | memory from p_filesz up to p_memsz reads as zero if p_memsz is at most 4096 |
| Elf.NothingBehind | kernel/loader/elf_loader.c:76-81 | behind the page no byte can be read, unless the next page was mapped before or for another segment |
| Elf.WellLinkedLoads | kernel/loader/elf_loader.c:73-85 | with distinct, unmapped, aligned pages, none the window of a table another needs, there is no panic and no segment is displaced |
| Elf.WindowSegmentLost | kernel/memory/vmm.c:210-212 | a segment linked to the window of an absent slot is loaded, and displaced by one linked into that slot |
| Elf.TrackLoad | kernel/loader/elf_loader.c:76-81 | after each segment, the pages that count as mapped are those mapped at the start, those of the segments loaded, and the windows these have taken |
| Elf.Round | kernel/loader/elf_loader.c:73-85 | one program header: the loader goes on if and only if it is not loadable or not blocked; earlier segments stay in place or are displaced as stated, and this one is in place if it is loadable, or written over page 0 |
| Elf.LoadSegment | kernel/loader/elf_loader.c:76-81 | the loader goes on if and only if the address is that of a page which is not mapped, or is 0; a fresh page is filled, a mapped page 0 is overwritten |
| Elf.Memcpy | kernel/loader/elf_loader.c:81-81 | the bytes arrive in the frame behind the page, byte by byte through the active address space |
| Elf.FetchHeader | kernel/loader/elf_loader.c:15-15 | the header fields read through virtual memory are those of the file |
| Elf.SegmentLoaded | kernel/memory/vmm.c:68-84 | the page of a loaded segment reads as its bytes followed by zeros |
| Elf.OthersSurvive | kernel/loader/elf_loader.c:73-85 | loading a segment disturbs no byte that could be read before, except in windows of new tables |
| Elf.ZeroOverwritten | kernel/loader/elf_loader.c:78-81 | a mapped page 0 reads as the new bytes, and behind them as before |
| Elf.OverwrittenFacts | kernel/loader/elf_loader.c:78-81 | the overwriting costs a frame and changes no mapping and no byte that page 0 does not show |
| Elf.LoneZeroSegment | kernel/loader/elf_loader.c:73-85 | a single segment linked to an unmapped address 0 is in place like any other |
| Text.RowsSnoc | kernel/driver/console.c:27-49 | printing a character extends the text's rows, split at newlines and cut at 80, exactly as the lazily wrapping cursor does |
| Text.RowsFit | kernel/driver/console.c:28-31 | no row is longer than 80 characters |
| Text.WrapsAt80 | kernel/driver/console.c:28-31 | character number k of a text without newlines stands in row k / 80, column k % 80 |
| Text.NewlineSplits | kernel/driver/console.c:28-41 | character 10 ends a row, and the rest of the text starts a new one |
| Text.CellShows | kernel/driver/console.c:43-44 | each cell holds the character and then the colour of that place in the last 25 rows, or zeros |
| Text.SerialText | kernel/driver/console.c:28-46 | the serial line gets the characters, with character 10 for every newline and at every full row that goes on |
| Console.Screen.Clean | kernel/driver/console.c:101-108 | the screen shows the empty text, with the cursor at its start |
| Console.Screen.Scroll | kernel/driver/console.c:14-25 | the buffer moves up by one line, with zeros in the last |
| Console.Screen.PrintChar | kernel/driver/console.c:27-49 | the screen shows the last 25 rows of the text so far, and the serial line has received all rows joined by newlines |
| Console.Screen.Emit | kernel/driver/console.c:27-49 | the rows shown are extended by the character in the current colour |
| Console.Screen.PrintString | kernel/driver/console.c:51-55 | the string is added to the text |
| Console.Screen.Convert | kernel/driver/console.c:57-68 | the buffer ends with the digits and a terminator, and the pointer stays at least 32 bytes inside it |
| Console.Screen.PrintNumber | kernel/driver/console.c:57-71 | the digits are added to the text, or nothing for a base over 36 |
| Numbers.RoundTrip | kernel/driver/console.c:65-68 | the digits parse back to the number, each a digit of the base |
| Numbers.NoLeadingZero | kernel/driver/console.c:65-68 | no leading zero except in "0" |
| Numbers.DigitsDenote | kernel/driver/console.c:57-71 | the digits denote the number: right value, digits of the base, no superfluous zero |
| Numbers.DenotedOnce | kernel/driver/console.c:57-71 | no other string does |
| Numbers.WordDigits | kernel/driver/console.c:59-64 | a word has at most 32 digits in any base from 2 to 36 |
| Console.Screen.Printf | kernel/driver/console.c:110-199 | for every format with enough fitting arguments the text grows by the rendering of the parsed format, and the format is never read past its terminator |
| Console.Screen.Directive | kernel/driver/console.c:122-194 | one conversion; the no-print flag is set only when the next character is the letter of that conversion |
| Console.Screen.PrintArgument | kernel/driver/console.c:137-173 | the cases of the switch that take an argument |
| Format.PendingPercent | kernel/driver/console.c:125-189 | what the format's next pieces are behind a percent sign |
| Format.PrintsDecimal | kernel/driver/console.c:155-158 | "%d", in front of any rest of a format, prints the string that denotes the number in base 10 |
| Format.PrintsBinary | kernel/driver/console.c:145-154 | "%b" prints it in base 2 and then "b", "%0b" without |
| Format.PrintsHexadecimal | kernel/driver/console.c:159-173 | "%x" prints "0x" and then it in base 16, "%0x" without |
| Format.PrintsText | kernel/driver/console.c:137-144 | "%c" prints the byte n mod 256, "%s" the string without its terminator |
| Format.PrintsItself | kernel/driver/console.c:122-192 | what all other characters, doubled percent signs and unknown conversions print |
| Format.EscapeRoundTrip | kernel/driver/console.c:174-176 | any text printed through a format with its percent signs doubled comes out as it is |
| Keyboard.Driver.constructor | kernel/driver/keyboard.c:93-127 | an empty page of zeros |
| Keyboard.Driver.Isr | kernel/driver/keyboard.c:154-171 | a key code other than 0 is stored at the tail while there is room |
| Keyboard.Driver.Step | kernel/driver/keyboard.c:217-234 | one step of getc: wait, read, step over, translate |
| Keyboard.Fifo | kernel/driver/keyboard.c:154-234 | under every interleaving of interrupts and reader steps the buffer holds the first 4096 keys sent, in order, zeros behind them, and the characters returned are those of the keys consumed |
| Keyboard.FaultsOnlyWhenExhausted | kernel/driver/keyboard.c:217-234 | a reader left running leaves the page if and only if 4096 keys have been sent and the last of these has no character; it has then returned the characters of all of them |
| Keyboard.EverythingReturned | kernel/driver/keyboard.c:217-234 | after any events, a reader left running for 16388 steps has returned every character of every key accepted |
| Keyboard.ExhaustingRun | kernel/driver/keyboard.c:217-234 | a run in which that happens |
| Tasks.Scheduler.InitTask | kernel/multitasking.c:45-94 | a task with the next number, its state and its context becomes the head of the list |
| Tasks.Scheduler.Push | kernel/multitasking.c:85-91 | the list stays acyclic, newest first, ending in null |
| Tasks.Scheduler.SetScheduleFlags | kernel/multitasking.c:125-127 | the flags change and nothing else |
| Tasks.Scheduler.Schedule | kernel/multitasking.c:129-163 | blocked, it is the identity; otherwise only the outgoing task's state is saved, and the next task's context and state are taken |
| Tasks.Scheduler.Save | kernel/multitasking.c:134-137 | the interrupted task, if any, gets its state and no other task changes |
| Tasks.Scheduler.Advance | kernel/multitasking.c:139-159 | the head of the list is chosen the first time, the successor afterwards |
| Tasks.RunSummary | kernel/multitasking.c:45-163 | every run in closed form: it fails if and only if there are more switches than tasks at the first switch; the switches go down the list; every task continues from the state it was switched out with |
| Tasks.SwitchResumesFreshTask | kernel/multitasking.c:139-159 | each switch goes to the list's next task, which has never run before, and activates its context |
| Tasks.CreatedByNumber | kernel/multitasking.c:46-94 | number, state and context of a new task, and the counter, for numbers given and not given |
| Tasks.ScheduleByFlag | kernel/multitasking.c:129-163 | with bit 0 of the flags set nothing changes and the state given is handed back; with it clear the list's next task, its context and its state are taken, and it fails if and only if there is none |
| Tasks.ClearBitSwitches | kernel/multitasking.c:129-132 | over every run from boot in which nobody sets bit 0, every call switches |
| Tasks.SetBitBlocks | kernel/multitasking.c:129-132 | over every run, no call switches between the setting of the bit and its clearing |
| Tasks.PidsCount | kernel/multitasking.c:46-47 | tasks are numbered from 1 on, modulo 2^32 |
| Tasks.PidsDistinct | kernel/multitasking.c:46-47 | the numbers are distinct if and only if there are at most 2^32 tasks |
| Tasks.ContextsAssigned | kernel/multitasking.c:51-57 | the first task has the context the kernel booted with, every other one its own |

## Left out

- Mapping before paging is on, and the construction of the first context: `kernel/memory/vmm.c:212` and `kernel/memory/vmm.c:458` use windows that do not exist yet; runs start from a coherent state.
- The loops behind the region scan of `vmm_init` (`kernel/memory/vmm.c:529-552`), which map the video buffer and the boot structures again.
- `vmm_alloc`, which takes a window address for a context and dereferences a physical address.
- `vmm_alloc_kernel` for a context that is not active, which calls `vmm_map_context` with the wrong arguments (`kernel/memory/vmm.c:47`).
- The missing range check of `vmm_alloc_kernel`: `Allocation.CanAllocKernel` asks that the next page is mappable and no window in use.
- Frees after boot, which the source has none of: they could bring frame 0 into the allocator's reach, which the final search of the boot scan keeps out.
- Exhaustion of the allocator: operations require that the frames they take are there. The source would use the sentinel as a frame number.
- Vmm.Machine.constructor: what `vmm_init` leaves behind is a parameter; `BootState.AtBoot` is an example of it, not a result of executing the boot code.
- Runs.RunKeepsInv: callers map no window in use, map a page in a new kernel slot only while there is one context, and switch only where `Switching.SwitchWorks` holds, which is exactly where the switch works.
- Requests.NoAliasingExactly: that each request has the frames it needs, that its page is mappable (a page of an absent kernel slot only while there is one context), and that no kernel page is a window in use, is asked of each request; all requests are to one active context, and what a switch in between does is `Requests.SwitchKeepsGrants`.
- Requests.EarlierMappingsSurvive: pages mapped to frame 0 are left out, since they count as unmapped.
- Tidy.SoftwareAgreesWithHardware: callers do not map frame 0.
- Accessed and dirty bits, the processor's caches of paging structures, and 4-MByte pages. Cached translations carry no permissions: all entries permit everything (`Tidy.UserReachesMapped`).
- BootScan.MapMemory: the pages are collected in a list; carrying out these mappings is part of mapping before paging is on.
- BootScan.MapRegion: collects the pages of a region, likewise.
- BootScan.MapPage: collects a page, likewise.
- BootScan.ScanExact: modules ascend, possibly sharing a page; for modules in any other order only what the scan compares is stated (`BootScan.FreeMemory`).
- BootScan.FreeMemory: regions are page-aligned, ascend, and end at or below 0xFFFFF000, and there is a module; without one the source reads a descriptor that is not there. The `entry_size` of the memory map is not part of the model, as the source steps by the structure's size.
- Elf.InitElf: segments have at most 4096 bytes and lie in the file; a segment in an absent kernel slot is admitted only while there is one context, since its table would tear the contexts apart (`Windows.MapKeepsInvExactly`); the file itself lies in no window that a segment takes; there are three frames for each program header; if a segment is linked to address 0 and page 0 is mapped, that page shows data other than the file itself; the start of the new task behind the loop is `Tasks.Scheduler.InitTask`.
- Tasks.Scheduler.InitTask: the allocation and filling of the two stacks is not modelled, because for later tasks it goes through the lookup that ignores its context; the new context and the address of the saved state are parameters.
- Tasks.Scheduler.Schedule: the activation of a context is recorded as an assignment; what it does to memory is `Vmm.Machine.ActivateContext`.
- Tasks.ContextsAssigned: the contexts of later tasks are parameters; that created contexts are new is `Creation.CreateKeepsInv`.
- Accounts.FramesConserved: a frame with data need not be mapped anywhere: a refused request leaves one behind.
- Wrap-around of the task list: the source has no reachable branch for it, and no fairness is claimed.
- Console.Screen.Printf: the two flags, always set and cleared together, are one variable; arguments are values of the right kind, and fewer arguments than conversions are not modelled.
- Moving the cursor by `ksetpos` from outside, the cursor's ports, and the waiting loop of the serial line: the serial line is the sequence of bytes sent.
- The scan-code and ASCII tables of the keyboard: interrupts carry key codes, and the translation to characters is a parameter that maps 0 to 0. `get_key` is not part of this model.
- Port I/O, the interrupt controller, interrupt stubs, descriptor tables, system calls, the modules and the shell.
- Debug printing inside the memory manager, the loader and the scheduler is taken to have no effect there.
