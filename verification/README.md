# Verification of the kernel's memory, file, parser and scheduling code

This project models the lab7 kernel, and the deferred-task queue of lab4, in Dafny and proves what its
parts promise. Imperative code is modelled as classes and loops over the same state (arrays, intrusive
links, tables, counters) and proved equal to specifications on values; the theorems are about those.

- **Page allocator** (`Bits`, `Seqs`, `Links`, `FreeLists`, `BuddyModel`, `BuddySpec`, `BuddyTheorems`,
  `BuddyAllocator`, `Startup`): eleven intrusive free lists over a frame array, splitting and XOR-buddy
  merging, and the startup pass. From full coalescing follow the completeness of failure, the canonical
  form of the free blocks and the exact round trip.
- **Heap** (`HeapModel`, `HeapTheorems`, `HeapOrder`, `KernelHeap`): eight pools of chunks on top of it.
- **Virtual memory** (`Pte`, `PageTree`, `Paging`, `VmModel`, `VmSystem`, `VmInvariant`, `VmRefinement`,
  `VmAccess`, `VmExamples`, `FaultHandler`, `Mmap`, `PageLog`, `PageConservation`, `Processes`, `Mmu`): three-level Sv39 tables (sections 4.3.2
  and 4.4 of the RISC-V Privileged Architecture, version 20211203) with one owner per table page, demand
  paging, copy-on-write fork with one-byte reference counts, teardown. The main theorem is that lazy, shared,
  counted pages behave like eager private copies over every run; `Processes` is the one object on which fork,
  fault, store, mmap, exec, exit and reap are proved to be its steps, and in `Mmu` the processor's own walk through
  its tables reaches exactly the bytes each process sees. Another is what goes back to the heap.
- **Parsers** (`Bytes`, `Fdt`, `Cpio`): readers against printers of device tree blobs (section 5.4 of the
  Devicetree Specification, release 0.4) and of "newc" archives (cpio(5)).
- **File systems** (`VfsModel`, `VfsChanges`, `VfsMounts`, `VfsLaws`, `Vfs`, `FilesModel`, `OpenFiles`): path resolution
  through stacks of mounts, creation, mounting, descriptor tables with shared handles, tmpfs contents.
- **Scheduling** (`SchedModel`, `Scheduler`, `TaskModel`, `TaskQueue`): the run ring with exit, stop and reaping,
  and the nested preemptive task queue.

Constants that depend on the build are those of the QEMU build: RAM from 0x80000000, 0x40000 counted pages
(the debug branch of lab7/inc/paging.h:19-32).

Where the code and its comments or evident intent differ, the code is modelled, and the difference is a
theorem with the exact condition and a concrete input:

- The stack and code branches of the fault handler map over an address without looking for a leaf. The counts
  survive exactly when there was none (`VmAccess.FaultKeepsMemIff`; `VmExamples.StackFetchLosesCount` is a run
  from boot that ends there).
- A load is refused as the first touch of a write-only region, although the page, once mapped by a store, is
  readable; the rest of the last page of an image is accessible only after a first touch below its end
  (`VmAccess.FirstTouch`; `VmExamples.WriteOnlyLoadKilled`, `VmExamples.ImageRestKilled`).
- A table walk ignores the upper 25 bits of an address, and the handler does not look at them: outside the user half
  a store can break the share of a user page (`VmAccess.FaultOutsideUserHalf`, `VmExamples.AliasBreaksShare`), and in the kernel's half of the
  root the walk takes kernel words for entries (`FaultHandler.PageFault`).
- Reference counts are one byte wide: fork keeps them exact exactly when each count leaves room for the parent's
  mappings of its page (`VmModel.ForkInvIff`; `VmExamples.SharerTooMany` is the 256th).
- `sys_mmap` checks neither that a hint lies in the user half nor that its sums do not wrap (`Mmap.PlacedOkIff`;
  `Mmap.KernelHalfHintAccepted` and, without any hint, `Mmap.WrappedLengthAccepted`).
- Pages cut into chunks are never given back to the page allocator: when all processes are reaped it is where it was
  if and only if no pool was refilled in between (`PageConservation.AllReturned`; `PageConservation.TaskStructureKeepsPage`).
- A second free is harmless exactly for allocations of whole pages; for a chunk it breaks the pool
  (`HeapTheorems.SecondFreeIff`, `HeapTheorems.ChunkFreedTwice`), whose list then loops on that chunk
  (`Links.AddedTwiceLoops`).
- `hextoi` reads lower-case digits wrongly (`Cpio.UpperCaseOnly`, `Cpio.LowerCaseMisread`); `cpio_get_file` stops
  at any name that begins like the trailer (`Cpio.SearchIsFirst`, `Cpio.TrailerPrefixHides`); the ramfs root takes
  the first sixteen members (`Cpio.AllLoadedIff`, `Cpio.SeventeenthDropped`).
- `..` never ends below a filesystem mounted on `/` (`VfsModel.DotDotEndsIff`, `VfsModel.DotDotHangsUnderRoot`), and
  does not leave a ninth mount (`VfsMounts.UpFromNewMount`, `VfsMounts.NinthMountStuck`); `mkdir` accepts last names
  by which nothing is found (`VfsChanges.CreatedResolvesIff`, `VfsChanges.DotCreated`).
- The length check of `tmpfs_write` holds exactly when its sum does not wrap (`FilesModel.ClipFitsIff`,
  `FilesModel.WrappedLengthUnclipped`).
- `sys_waitpid` looks for zombies in the run ring, which zombies have left: it never returns the pid it waits for
  (`SchedModel.WaitReturnsIff`, `SchedModel.WaitForExited`).
- Dequeuing the last task leaves no ring (`Scheduler.DequeueLast`); idle, which never exits, prevents it.

Hypotheses are preconditions: an allocation in the middle of a page-table walk that fails ends the claim (the code
does not check it); regions reported to the startup pass start at or above the RAM base; a name to be created that
has no slash has at most 15 bytes (the code leaves a longer one without its terminator, and reading on is undefined);
in the file-system theorems nothing is mounted on the root of the root filesystem; idle is never stopped; an image
executed over existing mmap regions does not reach into them, since exec keeps the region list.

`dafny verify dfyconfig.toml` checks the project.

## Model

| member | source | states |
|---|---|---|
| Bits.BuddyIsSibling | lab7/src/memory.c:117 | flipping bit k of the index of an aligned block gives the other half of the enclosing block of twice the size; flipping it again gives the block back |
| ListFamily.FreeLists.Add | lab7/inc/list.h:22-36 | a node put in at the head of one of several intrusive circular lists comes first there; every other list is unchanged |
| ListFamily.FreeLists.Del | lab7/inc/list.h:48-53 | unlinking a node from wherever it stands removes exactly it, keeping the order of the others and all other lists |
| BuddyModel.TakeHeadInv | lab7/src/memory.c:72-74 | taking the first block off a free list keeps alignment, disjointness, coverage, list/status/counter agreement and full coalescing |
| BuddyModel.SplitOnceInv | lab7/src/memory.c:80-90 | halving an allocated block and listing its upper half keeps the whole invariant, including that no two free buddies of one order exist |
| BuddyModel.MergeOnceInv | lab7/src/memory.c:125-136 | joining a block with its free buddy keeps the whole invariant, and the joined block heads the enclosing block |
| BuddyModel.PutInv | lab7/src/memory.c:143-147 | listing a block whose buddy cannot be merged keeps the whole invariant |
| BuddyAllocator.Buddy.constructor | lab7/src/memory.c:48-65 | after initialisation all lists are empty and every frame is a one-page allocated block |
| BuddyAllocator.Buddy.Alloc | lab7/src/memory.c:67-103 | on the real links, arrays and counters: the invariant is kept, the new state is the specified one; for orders up to MAX_ORDER the result is null exactly when no aligned run of that many free frames exists; otherwise it is the start of a smallest free block that is large enough, the first on its list, and every other free block stays |
| BuddyAllocator.Buddy.Free | lab7/src/memory.c:105-149 | on the real links, arrays and counters: the invariant is kept and the new state is the specified one with every possible merge done; the block is then part of a free block that comes first on its list |
| BuddySpec.AllocFree | lab7/src/memory.c:67-103 | the frames free before an allocation are those free after it and those of the block handed out |
| BuddySpec.FreeFree | lab7/src/memory.c:105-149 | the frames free after a release are those free before and those of the released block |
| BuddySpec.AllocHeld | lab7/src/memory.c:67-103 | every held block keeps its frame untouched and the block handed out was not held |
| BuddySpec.FreeHeld | lab7/src/memory.c:105-149 | a release un-holds exactly the released block and leaves the frames of all others untouched |
| BuddyTheorems.Partition | lab7/src/memory.c:67-149 | in every state each frame lies in exactly one block, aligned and in range, which is on the list of its order exactly when it is free, and on no other list |
| BuddyTheorems.FreeRunInOneBlock | lab7/src/memory.c:116-140 | full coalescing: a free aligned run of 2^k frames lies inside one free block of at least that order |
| BuddyTheorems.AllocFailsIffNoFreeRun | lab7/src/memory.c:67-103 | completeness of failure: no block is found exactly when no aligned run of 2^k free frames exists anywhere |
| BuddyTheorems.AllocCutsSmallest | lab7/src/memory.c:69-99 | the block cut is a smallest one that is large enough, the first on its list; its lowest frames are handed out, the upper halves of the cuts are alone on their lists, and every other free block and list is as it was |
| BuddyTheorems.FreePutsFirst | lab7/src/memory.c:116-147 | the released block becomes part of a free block that is first on its list; each list below loses one block inside it, and no other list changes |
| BuddyTheorems.BlocksAreMaximalRuns | lab7/src/memory.c:116-140 | the free blocks are exactly the maximal aligned free runs |
| BuddyTheorems.Canonical | lab7/src/memory.c:105-149 | two states with the same free frames have the same free blocks |
| BuddyTheorems.FreeOrderIrrelevant | lab7/src/memory.c:105-149 | releasing the same blocks in any order leaves the same free blocks |
| BuddyTheorems.RoundTrip | lab7/src/memory.c:67-149 | releasing a block just handed out restores every list in its order, every counter and every frame field |
| HeapTheorems.SecondFreeIff | lab7/src/memory.c:206-242 | a second free of the same address changes nothing if and only if the allocation was of whole pages; for a chunk the pool is then no list of distinct chunks |
| HeapTheorems.ChunkFreedTwice | lab7/src/memory.c:206-242 | a concrete heap in which a twelve-byte allocation freed twice breaks its pool |
| Links.AddedTwiceLoops | lab7/inc/list.h:22-36 | putting the first node of a list in again makes it its own successor: nothing else is reached from the head, and the links are no list of any nodes |
| BuddyTheorems.AllocIsFresh | lab7/src/memory.c:67-103 | a block handed out shares no frame with anything held |
| BuddyTheorems.ReservedNeverHandedOut | lab7/src/memory.c:359-375 | over every run of requests a reserved frame stays reserved and is in no block handed out |
| Startup.PlaceMetadata | lab7/src/memory.c:334-357 | the frame array goes to the lowest page-aligned address behind the kernel where it overlaps no region, and the search ends |
| Startup.TouchesIff | lab7/src/memory.c:361-367 | a region that is not empty reserves exactly the frames that hold one of its bytes |
| Startup.StartupAllocator | lab7/src/memory.c:334-375 | after startup the allocator is consistent and the free frames are exactly those that no region, nor the frame array, touches |
| Startup.StartupBlocks | lab7/src/memory.c:359-375 | after startup the free blocks are the unique maximal aligned decomposition of the unreserved frames |
| Startup.HandedOutAvoidsRegions | lab7/src/memory.c:359-375 | no byte of a reserved region is ever inside a block handed out, whatever requests came before |
| HeapModel.CapacityFits | lab7/src/memory.c:158-176 | a request gets at least its size, and less than twice its size exactly from 9 bytes up |
| HeapTheorems.AllocateKeeps | lab7/src/memory.c:158-204 | allocate either fails without a trace or returns an address that was not live, keeping pools, frame statuses and live allocations consistent |
| HeapTheorems.AllocateFailsIff | lab7/src/memory.c:158-204 | allocate fails if and only if no aligned free run is large enough or, up to half a page, the pool is empty and no frame is free |
| HeapTheorems.FreeFindsPool | lab7/src/memory.c:212-237 | for a live small allocation the frame status leads to the pool its size was served from |
| HeapTheorems.FreeKeeps | lab7/src/memory.c:206-242 | free of a live address forgets exactly that allocation and keeps everything consistent |
| HeapTheorems.BytesInBlock | lab7/src/memory.c:158-204 | all bytes of a live allocation lie in the block headed by the page of its address |
| HeapTheorems.LiveDisjoint | lab7/src/memory.c:158-242 | two live allocations never share a byte |
| HeapTheorems.ChunkConservation | lab7/src/memory.c:188-200 | free plus live chunks of a pool are 4096/size times the pages cut for it, and the counter is the number of free ones |
| HeapOrder.FreedIsNext | lab7/src/memory.c:198-233 | a chunk just freed answers the next request of its pool, and the heap is then what it was |
| HeapOrder.PoolInOrder | lab7/src/memory.c:198-201 | while a pool lasts, the requests that follow each other get its chunks in their order |
| HeapOrder.PageInOrder | lab7/src/memory.c:179-201 | a pool that is empty is filled from the page that the page allocator returns, and its chunks are handed out in ascending order |
| HeapTheorems.FreshHeap | lab7/src/memory.c:151-156 | a freshly seeded allocator with empty pools is a consistent heap with nothing live |
| KernelHeap.KernelHeap.Allocate | lab7/src/memory.c:158-204 | over the real page allocator: either nothing changes and the result is null, or a fresh address becomes live with the requested size |
| KernelHeap.KernelHeap.Free | lab7/src/memory.c:206-242 | over the real page allocator: exactly the given live allocation ends; null changes nothing |
| KernelHeap.BootHeap | lab7/src/memory.c:379-390 | the heap over the allocator that startup seeds is consistent, with nothing live |
| Pte.UnpackOfPack | lab7/inc/paging.h:55 | address and all ten flags of a packed 64-bit entry are read back, for page addresses of up to 56 bits |
| Pte.PackOfUnpack | lab7/src/paging.c:139-151 | packing what was unpacked gives the same word, for every word with clear top bits |
| Pte.PackedFields | lab7/inc/paging.h:55 | the page number of a packed entry lies above its ten low bits, which are the flags |
| Pte.CowShareWord | lab7/src/paging.c:303-310 | the two mask operations of fork clear W and set the copy-on-write mark and change no other field |
| Pte.UnsharedWord | lab7/src/paging.c:347-351 | the permission word of a copy-on-write fault is the old flag field with W set and the mark cleared |
| Pte.FlagFieldRoundTrip | lab7/inc/paging.h:35-50 | a flag record is recovered from its bits, which are the ten low bits of the word |
| Pte.DecodeOfEncode | lab7/inc/paging.h:55 | every entry with a page address is the meaning of a 64-bit word |
| Pte.EncodeOfDecode | lab7/inc/paging.h:55 | every word with clear reserved bits is the word of its meaning |
| Pte.TableEntry | lab7/src/paging.c:136 | the word made for a new table means a valid entry with that address and no other flag |
| Pte.LeafEntry | lab7/src/paging.c:151 | the word made for a leaf means its page address with its permissions and the valid flag |
| Pte.ShareEntry | lab7/src/paging.c:304-314 | testing W and applying the two masks to a leaf's word means the copy-on-write share of the entry |
| Pte.WritableProt | lab7/src/paging.c:261-263 | the permission word of a copy-on-write fault means the old flags, writable and unmarked |
| PageTree.AddTableSync | lab7/src/paging.c:132-148 | linking a fresh zero table below an empty slot leaves the map of leaves of every root as it was |
| PageTree.SetLeafSync | lab7/src/paging.c:148-151 | writing one entry of a last-level table changes that one leaf of its one root, and no leaf of any other root |
| PageTree.RemoveTableSync | lab7/src/paging.c:186-197 | unlinking an empty table changes no leaf of any root |
| Mmu.HardwareFinds | lab7/src/paging.c:125-161 | address translation as Sv39 defines it, from any root and for every address of the user half, ends at the leaf of the finite map, at the last level, or faults where there is none; it never leaves the tables |
| Mmu.HardwareSees | lab7/src/paging.c:125-161 | through the real tables the processor makes exactly the accesses that the leaves of a process allow, each at the byte that the process sees at that address |
| Paging.AddressSpaces.PageWalk | lab7/src/paging.c:125-152 | the three-level walk, creating missing tables on the way, sets exactly the leaf of its address in the active root; tables stay owned by one slot each |
| Paging.AddressSpaces.MapPages | lab7/src/paging.c:154-161 | mapping a run of pages sets exactly the leaves of the run |
| Paging.MapRunLeaves | lab7/src/paging.c:154-161 | after mapping a run each page of it has the given address and permissions, and every other page of every root is as before |
| Paging.AddressSpaces.Walk | lab7/src/paging.c:239-252 | reading through the three levels gives the leaf of the finite map, or none |
| Paging.AddressSpaces.IncrementRef | lab7/src/paging.c:34-39 | one count of one byte is incremented, with wrap-around, when the page is in range |
| Paging.AddressSpaces.DecrementRef | lab7/src/paging.c:42-51 | one count is decremented unless zero, and the new count is returned |
| Paging.AddressSpaces.ForkCopy | lab7/src/paging.c:273-323 | the three nested loops over two trees, creating the child's tables on the way, do to leaves and counts exactly the fold over the parent's pages |
| Paging.AddressSpaces.ClearUserSpaceMappings | lab7/src/paging.c:202-237 | every leaf of the root is dropped with its count; exactly the valid entries of its user half are zeroed, no table page is owned by it any more, and no other root's tables go |
| Paging.AddressSpaces.FreeUserPageTable | lab7/src/paging.c:163-199 | every leaf is dropped with its count, the root and every table it owned are gone and no other; every page returned was in use, so none is returned twice |
| Paging.AddressSpaces.CowFault | lab7/src/paging.c:335-363 | the copy-on-write branch gives the process a private writable copy and drops its share of the old page |
| Paging.AddressSpaces.DemandPage | lab7/src/paging.c:387-459 | the statements shared by the demand-paging branches map one fresh page with the given contents and count one |
| VmModel.MapPageInvIff | lab7/src/paging.c:411-459 | mapping a fresh page over an address keeps the counts exact if and only if the address had no leaf: the stack and code branches do not look |
| VmModel.DropLeafInv | lab7/src/paging.c:180-190 | dropping a leaf keeps the counts exact; the page is freed if and only if this was its only mapper |
| VmModel.BreakShareInv | lab7/src/paging.c:335-363 | breaking a share keeps exact counts and lone writers |
| VmModel.ForkUpToLeaves | lab7/src/paging.c:298-315 | after fork child and parent map the same pages with the same read-only, marked entries, and no other leaf has changed |
| VmModel.ForkInvIff | lab7/src/paging.c:31-39 | fork keeps the counts exact if and only if, before it starts, the count of every page plus the parent's mappings of it is below 256 |
| VmModel.DropUpToInv | lab7/src/paging.c:163-237 | tearing a root down removes exactly its leaves and leaves the bytes of every page still mapped elsewhere alone |
| VmModel.WritableCountIsOne | lab7/src/paging.c:303-315 | a page that some entry can write has reference count one |
| VmModel.StoreIsPrivate | lab7/src/paging.c:303-315 | a store the hardware permits changes what no other leaf of any process sees |
| VmSystem.FirstVma | lab7/src/paging.c:366-367 | the region found is the first that contains the address |
| VmSystem.CodePage | lab7/src/paging.c:441-450 | a code page is the slice of the image from its address, padded with zeros |
| FaultHandler.PageFault | lab7/src/paging.c:325-463 | on the real tables: a resolved fault has the specified effect on memory, a fatal one none; faults that the decision resolves are fatal only with an empty heap; outside the user half a shared page may be resolved, and an address in no region is otherwise fatal; what happens in the kernel's half, or in a region recorded outside the user half, is only reported |
| FaultHandler.FindVma | lab7/src/paging.c:366-384 | the scan stops at the first region that contains the address and reports whether it admits the access |
| VmInvariant.Keeps | lab7/src/paging.c:273-459 | fault, fork, store, mmap, exec, spawn, exit and reap keep exact counts, lone writers, owned leaves and leaf permissions equal to those of their region |
| VmInvariant.HandleByRegion | lab7/src/paging.c:366-463 | the handler's decision depends only on the region of the page, except behind the end of the image |
| VmRefinement.Refines | lab7/src/syscall.c:156-231 | each step shows every process what the eager machine shows it, in which fork copies every page and faults do nothing |
| VmRefinement.RunRefines | lab7/src/paging.c:273-459 | the same for every run from every consistent state |
| VmRefinement.LazyIsEager | lab7/src/paging.c:273-459 | from boot, in every reachable state: counts are exact, no shared page is writable, and each process sees image slices, zeros and its own stores exactly as if it owned every page |
| VmRefinement.OthersAreInvisible | lab7/src/paging.c:273-363 | whatever other processes store, fork, fault in, execute or give back, a process sees what it saw |
| VmRefinement.FaultBytes | lab7/src/paging.c:325-459 | resolving a fault changes the bytes of no page of any process |
| VmRefinement.FirstBytes | lab7/src/paging.c:387-459 | a byte that nothing was stored to is that of the image in the image, and zero behind its end and everywhere else |
| VmAccess.MappedAccess | lab7/src/paging.c:303-351 | a mapped page is accessible, at once or after a copy-on-write fault, if and only if its region permits the access |
| VmAccess.RegionAccess | lab7/src/paging.c:372-404 | the pages of a region allow what the handler admits, and besides loads where stores are; on the stack loads and stores, in the image loads and fetches; with the accessed and dirty bits set |
| VmAccess.FlagFields | lab7/inc/paging.h:35-50 | the flag field of a leaf, as a number, for each protection and for stack and image, and of an entry that leads to a table |
| VmAccess.CowFaultResolves | lab7/src/paging.c:335-363 | after a copy-on-write fault the store is allowed, on the fresh page |
| VmAccess.FirstTouch | lab7/src/paging.c:366-463 | first touch of a page of the user half: resolved and then allowed, accessed and dirty bits included, resolved and still refused, or killed, each exactly under its stated condition |
| VmAccess.FaultKeepsMemIff | lab7/src/paging.c:411-459 | every fault in the user half keeps the counts exact except a stack fetch or a code store on a page already mapped, and those never do |
| VmAccess.FaultOutsideUserHalf | lab7/src/paging.c:334-363 | a fault outside the user half is fatal, unless it is a store whose lower 39 bits address a shared page of the process: that share is broken, and the counts stay exact |
| VmExamples.StackFetchLosesCount | lab7/src/paging.c:411-431 | a run from boot (spawn, store to the stack, fetch from it) after which the counts are wrong |
| VmExamples.SharerTooMany | lab7/src/paging.c:31-39 | a page with 255 sharers forked once more: its count is zero, and the next exit frees it under all others |
| VmExamples.WriteOnlyLoadKilled | lab7/src/paging.c:374-378 | a load from a fresh page of a write-only region is fatal, although the page, once stored to, is readable |
| VmExamples.ImageRestKilled | lab7/src/paging.c:432 | a touch behind the end of a one-byte image is fatal, although its page is readable |
| VmExamples.AliasBreaksShare | lab7/src/paging.c:334-363 | a run from boot after which a store to the stack's address plus 2^39 breaks the share of the stack page |
| Mmap.CheckVmaOverlap | lab7/src/syscall.c:376-395 | reports exactly whether an interval meets a region, the stack or the image |
| Mmap.OverlapsIff | lab7/src/syscall.c:376-395 | an interval that is not empty overlaps exactly when one of its addresses belongs to a region, the stack or the image |
| Mmap.FindFreeVmaSpace | lab7/src/syscall.c:397-407 | for every length: returns the lowest page-aligned place from 0x60000000 on whose end, as the search computes it, is not above the stack, and 0 exactly when there is none |
| Mmap.Place | lab7/src/syscall.c:409-430 | in 64-bit arithmetic, for every hint and length: the hint is used exactly when it fits, otherwise the lowest place; refused exactly when the table is full, the rounded length is zero or no place is left |
| Mmap.PlacedOkIff | lab7/src/syscall.c:409-430 | the regions stay aligned, disjoint and clear of stack and image if and only if a used hint lies in the user half and its end does not wrap, or, without one, the length added to the base of the search does not wrap |
| Mmap.KernelHalfHintAccepted | lab7/src/syscall.c:420-422 | a concrete hint in the kernel half that is accepted |
| Mmap.WrappedLengthAccepted | lab7/src/syscall.c:397-430 | a concrete length, with no hint, for which a region is recorded that ends before it starts |
| Mmap.PopulateRegion | lab7/src/syscall.c:437-452 | populating maps the pages of the region in order, each fresh and zero, up to where the heap runs out |
| PageConservation.Conserved | lab7/src/memory.c:158-242 | whatever else is allocated and freed in between, serving page traffic keeps the heap consistent and holds exactly the pages in use next to the kernel's other allocations; reserved frames and pages once cut stay |
| PageConservation.HeldForUsers | lab7/src/paging.c:163-237 | between any other heap calls, the pages the heap holds for user memory are exactly the table pages and the mapped pages |
| PageConservation.NoRootsNoPages | lab7/src/sched.c:83-86 | with no page-table root left no table, leaf or data page is left |
| PageConservation.AllReturned | lab7/src/sched.c:61-97 | once every address space is gone and the kernel's other allocations are what they were, the heap has exactly its earlier allocations, and the buddy system exactly its earlier free blocks if and only if no request of at most half a page met an empty pool while a frame was free |
| PageConservation.CutIffRefills | lab7/src/memory.c:179-200 | over any calls, a page is cut for a pool if and only if one of the calls is such a request |
| PageConservation.MissingIsCut | lab7/src/memory.c:179-200 | with the same allocations, the frames free before and not now are exactly the pages cut for pools in between |
| PageConservation.AllocationsDetermineFree | lab7/src/memory.c:105-149 | with the same allocations, the free blocks are equal if and only if no page was cut in between |
| PageConservation.RefillStays | lab7/src/memory.c:179-242 | a small request that finds its pool empty, freed again, restores the allocations but never the free blocks |
| PageConservation.TaskStructureKeepsPage | lab7/src/syscall.c:160-162 | a concrete run: a structure of 1400 bytes allocated and freed in a heap of one page |
| Processes.Processes.Create | lab7/src/sched.c:206-214 | a new root with nothing mapped: one spawn step, or no change without memory |
| Processes.Processes.Fork | lab7/src/syscall.c:156-231 | on the real tables: memory and tasks are the specified next state; it is consistent, and then every process sees a copy of all pages, if and only if every count had room |
| Processes.Processes.Fault | lab7/src/paging.c:325-463 | on the real tables: a resolved fault leads to the specified next state, which is consistent, and then no process sees a difference, if and only if no count was lost; a fatal one is the exit of the process |
| Processes.Processes.Store | lab7/src/paging.c:303-315 | a store through the tables is one store step: one byte of one process |
| Processes.Processes.Map | lab7/src/syscall.c:409-455 | for every hint and length the region recorded is the specified next state, consistent, and then zero-filled for the process, if and only if nothing wraps; populating is included where nothing wraps |
| Processes.Processes.Exec | lab7/src/paging.c:202-237 | clearing the user half is the exec step: the process starts from the new image |
| Processes.Processes.Reap | lab7/src/sched.c:83-86 | tearing a task's tables down is the reap step, which no process sees |
| Processes.AllReaped | lab7/src/sched.c:61-97 | when the last task is reaped, the heap has its earlier allocations, and its earlier free blocks if and only if no pool was refilled |
| Bytes.Strlen | lab7/src/utils.c:52-56 | the number of bytes before the first NUL |
| Bytes.Strchr | lab7/src/utils.c:58-61 | the first occurrence in the string, or none; NUL itself is not found |
| Bytes.StringsEqual | lab7/src/utils.c:41-44 | comparison is zero exactly for equal texts |
| Bytes.PrefixesEqual | lab7/src/utils.c:46-50 | bounded comparison is zero exactly when the first n characters agree, ends included |
| Fdt.SkipNode | lab7/src/fdt.c:5-24 | from inside any printed node the cursor lands just behind its end token, whatever is nested in it; each step advances |
| Fdt.PathOffset | lab7/src/fdt.c:26-77 | on any printed tree the result is the offset of the first-match descent by name or name@unit, -1 if there is none or the magic number is wrong |
| Fdt.NodeOfPath | lab7/src/fdt.c:33-36 | "/" is the root, a path of segments leads where the descent by them does, with or without a slash at its end, and a path without a leading slash nowhere |
| Fdt.MatchesIff | lab7/src/fdt.c:55-58 | a node name matches a segment exactly when it is the segment or the segment, an at sign and a unit address |
| Fdt.LookupIs | lab7/src/fdt.c:42-66 | the descent takes the first of the child nodes that matches the first segment, never another, and goes on below it |
| Fdt.SegmentsOfJoined | lab7/src/fdt.c:52-63 | a path of segments with slashes between them is cut into just these, also with a slash at its end |
| Fdt.OffsetFindsNode | lab7/src/fdt.c:42-66 | the offset is aligned and that of the node the descent through the tree finds: its begin token, name and body lie there; -1 exactly when the descent finds none |
| Fdt.GetProp | lab7/src/fdt.c:79-109 | something is found exactly when one of the properties before the first child bears the whole name; then it is the value, with its length, of the first of them |
| Fdt.PropertyAt | lab7/src/cpio.c:108-119 | path offset and property lookup together deliver, from the node of that path, the first of its properties that bears the name, and nothing exactly when there is none |
| Fdt.PrintedIsBlob | lab7/inc/fdt.h:14-25 | header, structure block and strings block printed from any tree are a blob the reader accepts |
| Fdt.MagicBytes | lab7/src/fdt.c:28 | words have their most significant byte first: the magic number is D0 0D FE ED in memory |
| Cpio.HexToInt | lab7/src/utils.c:6-16 | the digits are accumulated in 32-bit arithmetic, letters from A on counted from ten |
| Cpio.UpperCaseOnly | lab7/src/utils.c:6-16 | an eight-digit field below 2^31 is read correctly if and only if it has no lower-case digit |
| Cpio.LowerCaseMisread | lab7/src/utils.c:6-16 | the field 0000000a is read as 42 |
| Cpio.HexOfField | lab7/src/utils.c:6-16 | reading an upper-case field gives back the number printed |
| Cpio.GetAllFiles | lab7/src/cpio.c:130-159 | one step yields name, size, data and next header of the member, and nothing exactly at the trailer name or without an archive |
| Cpio.ListFiles | lab7/src/cpio.c:130-159 | repeated calls over a printed archive yield exactly its members in order and stop at the trailer |
| Cpio.LoadFiles | lab7/src/ramfs.c:58-90 | the ramfs root holds the first sixteen members other than ".", each with its name cut to 15 bytes, its size and its data |
| Cpio.LoadedInOrder | lab7/src/ramfs.c:58-87 | a member other than "." is loaded, in the place behind such members before it, while there is room |
| Cpio.LoadedCount | lab7/src/ramfs.c:58-87 | as many are loaded as there are such members, but at most sixteen |
| Cpio.AllLoadedIff | lab7/src/ramfs.c:59-68 | all members are loaded if and only if there are at most sixteen and none is "." |
| Cpio.SeventeenthDropped | lab7/src/ramfs.c:59-68 | an archive of seventeen members loses one, and one of "." alone loads nothing |
| Cpio.GetFile | lab7/src/cpio.c:77-104 | the data and size of the member the search finds, none exactly when it finds none |
| Cpio.SearchIsFirst | lab7/src/cpio.c:86-96 | the search finds the first member of a name if and only if no member at or before it has a name beginning like the trailer |
| Cpio.TrailerPrefixHides | lab7/src/cpio.c:86-96 | a member TRAILER!!!x hides the member behind it |
| Vfs.Vfs.LookupFrom | lab7/src/vfs.c:23-118 | the character-level loops, on any string, end and find what the fold over the components finds |
| Vfs.NextComponent | lab7/src/vfs.c:44-59 | one component is cut off, at most 15 characters of it kept |
| Vfs.Vfs.GoUp | lab7/src/vfs.c:68-102 | the pop loop and the cross loop end at the parent of the vnode below all mounts |
| Vfs.Vfs.DirLookup | lab7/src/tmpfs.c:34-48 | the entry in the first slot with that name, none in a file or when no slot has it |
| Vfs.Vfs.AddEntry | lab7/src/tmpfs.c:50-147 | a new vnode in the first free slot, refused exactly in a file, a read-only filesystem, for a name already there, or without a free slot |
| Vfs.Vfs.CreateAt | lab7/src/vfs.c:199-243 | the path is split at its last slash and the entry added in the parent it resolves to, refused without any change otherwise; names without a slash have at most 15 bytes, longer ones being undefined in the code |
| Vfs.Vfs.Open | lab7/src/vfs.c:130-183 | an existing path of any length opens its vnode; with the creating flag a missing one is created, within the same bound on names, and, unless the path is empty, resolves to the new vnode |
| Vfs.Vfs.MountOn | lab7/src/vfs.c:257-300 | the first registered filesystem of that name is mounted on what the target resolves to; nothing changes exactly when the target does not resolve or no such filesystem is registered |
| Vfs.Vfs.Chdir | lab7/src/vfs.c:246-255 | the new working directory is what the path resolves to, if that is a directory |
| VfsModel.LookupAppend | lab7/src/vfs.c:43-114 | lookup of p/q is lookup of q from where p leads |
| VfsModel.SlashesDoNotMatter | lab7/src/vfs.c:55-59 | trailing and repeated slashes do not matter |
| VfsLaws.DotStays | lab7/src/vfs.c:60-63 | "." stays where it is: p/. leads where p leads, ./q where q leads, and "." to the starting vnode |
| VfsLaws.AbsoluteFromRoot | lab7/src/vfs.c:33-39 | a path with a leading slash is looked up from the very root, wherever the process is, and "/" is that root |
| VfsLaws.NameLeads | lab7/src/vfs.c:100-111 | p/c leads to the first entry of the first fifteen characters of c, through the mounts on it, and nowhere exactly when p does not lead to a directory with such an entry |
| VfsLaws.DotDotLeads | lab7/src/vfs.c:64-98 | ".." stays at the very root, also in "/.."; on the root of a mount it does what it does on the vnode covered; elsewhere it leads to the parent, through what is mounted there |
| VfsModel.DotDotUndoes | lab7/src/vfs.c:68-102 | p/c/.. resolves to what p resolves to whenever p/c resolves from an uncovered base, through any stack of mounts |
| VfsModel.DotDotHangsIff | lab7/src/vfs.c:71-92 | the pop loop runs for ever exactly when it meets the root of the root filesystem |
| VfsModel.DotDotEndsIff | lab7/src/vfs.c:71-92 | it ends from every other vnode if and only if nothing is mounted on that root |
| VfsModel.DotDotHangsUnderRoot | lab7/src/vfs.c:71-92 | a concrete tree with a filesystem mounted on its root, where the loop never ends |
| VfsChanges.LookupsKept | lab7/src/tmpfs.c:50-147 | creating a file or directory anywhere never changes a lookup that already succeeded |
| VfsChanges.CreatedResolvesIff | lab7/src/vfs.c:130-243 | after a create or mkdir the path resolves to the new vnode if and only if its last name is not empty, "." or ".." |
| VfsLaws.CreateOkIff | lab7/src/vfs.c:138-243 | create and mkdir succeed exactly when what precedes the last name leads to a directory of a filesystem that can be written, with an empty slot, and without that name |
| VfsLaws.CreatedKind | lab7/src/tmpfs.c:75-125 | what mkdir makes is an empty directory in which every name can be created, what create makes is a file below which none can |
| VfsLaws.AddedSlot | lab7/src/tmpfs.c:59-67 | the new vnode takes the first empty slot of its directory; no other slot and no other vnode changes |
| VfsLaws.FirstCreate | lab7/src/tmpfs.c:10-32 | in the empty root filesystem every name can be created |
| VfsChanges.DotCreated | lab7/src/vfs.c:199-243 | mkdir of "." in an empty root succeeds, and the path does not lead to the new directory |
| VfsMounts.MountedIff | lab7/src/vfs.c:286-298 | mounting keeps every mount in the table if and only if there was room, and the root bare if and only if the target is another vnode |
| VfsMounts.UpFromNewMount | lab7/src/vfs.c:286-298 | ".." from a newly mounted root leads out if and only if the mount found room in the eight-entry table |
| VfsMounts.NinthMountStuck | lab7/src/vfs.c:286-298 | a concrete tree with a full table: the next mount is not recorded, and ".." stays in it |
| VfsMounts.CrossAfterMount | lab7/src/vfs.c:286-290 | what led to the mountpoint leads to the new root, all else where it led |
| VfsLaws.PathIntoMount | lab7/src/vfs.c:257-303 | a path that led to the vnode mounted on leads to the new root, and what follows is looked up there |
| VfsLaws.MountedFiles | lab7/src/tmpfs.c:10-32 | the root of a mounted filesystem is a directory in which a name leads to the first of its files of that name, and nothing else is found; a file can be created in it exactly when it can be written and has room and no such name |
| OpenFiles.OpenFiles.CreateFile | lab7/src/tmpfs.c:77-83 | a new file is empty, whatever the page behind it holds |
| OpenFiles.OpenFiles.CreateProcess | lab7/src/sched.c:224-233 | a new process has one new handle, counted three times, in descriptors 0, 1 and 2 |
| OpenFiles.OpenFiles.Open | lab7/src/syscall.c:457-477 | the lowest free descriptor gets a new handle at position 0, nothing else changing; a full table is an error without effect |
| OpenFiles.OpenFiles.Close | lab7/src/syscall.c:479-491 | the slot is emptied and the handle freed with its last slot; otherwise an error without effect |
| OpenFiles.OpenFiles.Fork | lab7/src/syscall.c:213-222 | the new state is the specified one: the child's table is the parent's and each handle is counted once more per shared slot |
| FilesModel.ForkFrame | lab7/src/syscall.c:213-222 | fork changes no other table, no position, no file, and makes and frees no handle |
| OpenFiles.OpenFiles.Reap | lab7/src/sched.c:70-77 | the new state is the specified one: every descriptor of the process closed and its table gone |
| OpenFiles.OpenFiles.SysRead | lab7/src/syscall.c:493-501 | a bad descriptor is an error without effect; otherwise the handle behind it is read |
| OpenFiles.OpenFiles.SysWrite | lab7/src/syscall.c:503-511 | the same for writing, where position plus length does not wrap |
| FilesModel.ReapFrame | lab7/src/sched.c:70-77 | reaping frees exactly the handles that no other process shares, and changes no other table, position or file |
| FilesModel.DetachKeeps | lab7/src/vfs.c:302-308 | a handle's count stays the number of slots that refer to it; it goes exactly with the last one |
| FilesModel.AllClosed | lab7/src/sched.c:70-77 | without processes there are no handles |
| FilesModel.ClipFitsIff | lab7/src/tmpfs.c:170-173 | the length check keeps a write inside the page if and only if position plus length does not wrap |
| FilesModel.WriteSplices | lab7/src/tmpfs.c:176-184 | a write is a splice of the visible bytes |
| FilesModel.ReadRefines | lab7/src/tmpfs.c:149-164 | reading delivers the bytes of the sequence from the position on and moves it |
| FilesModel.WriteRefines | lab7/src/tmpfs.c:166-186 | writing splices the sequence, cut off at a page, and moves the position, wherever position plus length does not wrap |
| FilesModel.SpawnFrame | lab7/src/sched.c:224-233 | the descriptors of a new process change no other table, handle or file |
| FilesModel.Refines | lab7/src/syscall.c:456-511 | each of create, spawn, open, close, fork, reap, read and write keeps every count equal to the descriptors, and is the step of a machine without counts whose open files live as long as a descriptor refers to them |
| FilesModel.RunRefines | lab7/src/tmpfs.c:149-186 | the same over every run: files are the spliced writes, at most a page, and no position is behind its file's end |
| FilesModel.FromEmpty | lab7/src/vfs.c:302-308 | in particular over every run from the state without files and processes |
| Scheduler.Tasks.Enqueue | lab7/src/sched.c:15-28 | the task becomes the last of the ring; the circular links stay well formed |
| Scheduler.Tasks.Unlink | lab7/src/sched.c:30-40 | the rest of the ring stays a well-formed ring in its order, headed by the successor if the head went; the task keeps no links, other lists are untouched; from a ring of one nothing is left that is a ring |
| Scheduler.DequeueOk | lab7/src/sched.c:30-40 | taking a task out of a ring of at least two leaves a well-formed ring of the others in order |
| Scheduler.DequeueLast | lab7/src/sched.c:34-37 | taking the only task out leaves the head at a task without links, and no ring of any tasks there |
| Scheduler.Tasks.Schedule | lab7/src/sched.c:106-131 | a running head steps to the back, a task that left gives way; the running task is then the head |
| Scheduler.Tasks.ThreadExit | lab7/src/sched.c:42-59 | the running task moves to the zombie list and the next one runs |
| Scheduler.Tasks.SysStop | lab7/src/syscall.c:269-292 | a task of the ring other than the running one moves to the zombie list; otherwise -1 and nothing changes |
| Scheduler.Tasks.PollRound | lab7/src/syscall.c:234-250 | one round of sys_waitpid over the real links and state fields: a task is found exactly when it is in the ring, and is then never a zombie |
| Scheduler.Tasks.KillZombies | lab7/src/sched.c:61-97 | exactly the tasks of the zombie list are reaped, each once |
| SchedModel.NextKeeps | lab7/src/sched.c:15-131 | each step keeps every task in exactly one of ring, zombie list and reaped, and loses none |
| SchedModel.Moves | lab7/src/sched.c:15-131 | a step moves just the tasks it ends to the zombie list and, when idle reaps, just the zombies to the reaped; every other task stays where it is |
| SchedModel.LeavesIffEnded | lab7/src/sched.c:42-97 | over every run a task leaves the ring exactly when it exits or another task stops it, and is reaped exactly when idle reaps after that |
| SchedModel.RunsWithin | lab7/src/sched.c:106-131 | a task at distance d from the head is the running task after at most d scheduler calls, whatever is created, stopped, reaped or exits in between |
| SchedModel.WaitReturnsIff | lab7/src/syscall.c:233-262 | over every run a wait never returns the pid; it returns -1 exactly when the waiter runs after the other task has left the ring |
| SchedModel.WaitEnds | lab7/src/syscall.c:233-262 | a waiter at distance d has that answer within d scheduler calls of the other task's leaving |
| TaskQueue.Pool.Add | lab4/src/task.c:14-41 | with a free slot the task takes the lowest one, and its place in the queue behind all at least as urgent and in front of all less urgent, with the work and the priority given; without one nothing changes |
| TaskQueue.Pool.Enter | lab4/src/task.c:43-46 | a call of run_preemptive_tasks is one more activation, at the top of its loop |
| TaskQueue.Pool.TakeNext | lab4/src/task.c:43-61 | the head, with its work, is taken exactly when it beats the current priority, which is saved and replaced |
| TaskQueue.Pool.Finish | lab4/src/task.c:65-76 | the saved priority is restored and the slot released |
| TaskModel.InsertSorted | lab4/src/task.c:29-39 | the queue stays sorted and first-in-first-out among equals |
| TaskModel.NextKeeps | lab4/src/task.c:14-78 | every interleaving of interrupts, nested activations and callbacks keeps the queue order, strictly nested priorities, slot use and the accounting of accepted tasks |
| TaskModel.PrioritiesDecrease | lab4/src/task.c:47-59 | active priorities on the nesting stack are strictly decreasing |
| TaskModel.BeginTakesFirst | lab4/src/task.c:47-59 | the task begun is the most urgent queued, the earliest among equals, and beats everything executing |
| TaskModel.UrgentPreempts | lab4/src/task.c:28-59 | a task more urgent than what executes and than all that wait is the next to run, and the priority it interrupts is kept |
| TaskModel.LeaveMeansNoneBeats | lab4/src/task.c:47-50 | run_preemptive_tasks returns exactly when no queued task beats the interrupted priority, which it has restored |
| TaskModel.RefusedIff | lab4/src/task.c:17-24 | a task is dropped exactly when all 64 slots hold queued or executing tasks |
| TaskModel.RunKeeps | lab4/main.c:101-137 | the invariant holds in every reachable state |

## Left out

- FaultHandler.PageFault: the page tables hold user memory only; a store in the kernel's half of the address space whose walk meets a marked word of kernel memory is reported as such, and what the handler then replaces is not modelled, nor is a fault in a region that a kernel-half hint recorded. When an unchecked allocation fails (the copy of a shared page, an mmap page, or a table in the walk) the result only says so; nothing is claimed about the state, because the code then writes through a null pointer.
- Paging.AddressSpaces.ForkCopy: the same when a table of the child cannot be allocated.
- Paging.AddressSpaces.ClearUserSpaceMappings: the code returns a table while its parent still links to it; the model carries a view of the tables without those links until the parent's entry is cleared or the parent is returned.
- VmRefinement.LazyIsEager: faults in the runs are on unmapped addresses or are copy-on-write stores (a stack fetch or an image store on a mapped page is what VmAccess.FaultKeepsMemIff decides instead), forks leave room in every count (VmModel.ForkInvIff), and mmap placements stay clear of image, stack and each other (Mmap.PlacedOkIff).
- PageConservation.AllReturned: the page tables do not hold a heap object; they keep a log of the pages they take and return, and the theorem is about the heap that serves the log between any other calls.
- Processes.Processes.Fork: kernel stacks, trap frames, descriptors and signal handlers are not part of this object; descriptors are in OpenFiles, the run ring in Scheduler.
- Processes.Processes.Map: populating a region whose placement wrapped or lies in the kernel half is not modelled.
- Paging.AddressSpaces.NewRoot: a page of the heap may be refused at any time; over the heap itself that happens exactly when HeapTheorems.AllocateFailsIff says so.
- KernelHeap.KernelHeap.Allocate: free chunks are kept as a sequence of addresses per pool, not as links inside the free chunks.
- BuddyAllocator.Buddy.Alloc: frame indices are unbounded; the code's `int` index would wrap for RAM of 8 TiB and more.
- HeapModel.CapacityFits: the shift in the order loop is unbounded; the code's would wrap for requests above 2^63 bytes.
- Fdt.PathOffset: offsets are unbounded; the code's `int` result would be negative for structure blocks of 2 GiB and more.
- Cpio.LoadFiles: failing allocations of vnodes are not modelled.
- Cpio.HexOfField: fields of 2^31 and above are read as two's-complement machines do; shifting into the sign bit is not defined C.
- Vfs.Vfs.Open: the 256-byte buffer for the parent's path is unbounded, and failing allocations of vnodes and mounts are not modelled.
- Vfs.Vfs.MountOn: a driver's setup is its list of files; reading them from the archive is not part of this model of mounting.
- TaskQueue.Pool.TakeNext: the callback itself is arbitrary; only the sections with interrupts off are code here, and masking the device is not modelled.
- Interrupts inside allocator, page-table and file-system calls: each call is one atomic step; only the task queue nests.
- Signal delivery and `sigreturn`, whose stack page is mapped without touching the counts (lab7/src/trap.c:27-33).
- The failing-exec path of `create_user_process` (lab7/src/sched.c:241-247), which frees the task without closing its descriptors.
- Scraping the device tree for reserved regions in the first half of `startup_allocator`: the list of regions is an input.
- `cpio_ls` and `cpio_cat`: the same loops over the same headers, with output.
- Assembly entry and exit, `switch_to`, control registers, TLB and instruction fences: a context switch is "the running task is the head of the ring".
- Kernel mappings set up at boot, UART, interrupt controller, framebuffer, firmware interfaces, shells, `printf`, devfs and ramfs reads, sleeping: they drive devices or only pass data on.
