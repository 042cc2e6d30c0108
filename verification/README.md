# rolnixOS memory managers and scheduler, in Dafny

This project models the core of the rolnixOS kernel and proves what it keeps over whole runs:

- the physical frame manager: per-frame owners and counters, free lists threaded through the free
  frames, deferred release, untyped memory and its once-only retyping, on one CPU and on many;
- 4-level page tables kept in frames of that same manager, as in section 4.5 of the Intel 64 and
  IA-32 Architectures Software Developer's Manual, volume 3A: `map`, `unmap`, `translate`, the
  2 MiB windows and the kernel address space;
- the kernel heap, with its headers, links and back-pointers inside the managed memory;
- the round-robin scheduler over 16 slots;
- the boot path that establishes the state all of this starts from.

## Main results

1. The radix tree of page tables is a plain map from pages to leaves. `map` inserts exactly one page
   or changes no page at all, whichever way it fails, and it succeeds if and only if the arguments
   are good, the page is not mapped and there is a Free frame for every absent table
   (`Mapping.MapRefines`); the user can reach, and code can write and execute, the page exactly as the
   flags say (`Mapping.MapRights`); `unmap` removes exactly one page (`Mapping.UnmapRefines`); `map` then
   `unmap` is the identity on every address space, and on the mapping counts if and only if the
   physical address is below 64 GiB (`KernelRuns.MapThenUnmap`).
2. Over every run of frame and page-table operations from boot that maps only addresses below 64 GiB,
   tables form a forest of kernel-owned frames that no free list touches, every mapping count equals
   the number of leaves, every Pending frame is still in use, generations count releases, no frame is
   granted twice, and a frame in use changes only by its owner's writes (`KernelRuns.RunsKeep`,
   `KernelRuns.StepKeeps`, `PmmInit.RunsFromBoot`). The condition is exact: one successful `map` of a
   higher address breaks the counts (`KernelRuns.MapKeepsExactly`), and such a run exists
   (`Limits.MapBeyondMask`).
3. On any number of CPUs, shard lists, the global list and the batches in flight partition the Free
   frames at every moment (`SmpAllocator.RunsKeep`). There one locked section is one step. That this
   is sound is proved one memory access at a time: for every interleaving of flag swaps, link reads and
   writes, owner compare-and-swaps and generation changes there is an interleaving of whole sections
   that accounts for it, and no assertion of the allocator ever fails (`SmpRefinement.RunsKeep`); there
   is no deadlock, and an undisturbed call ends within 75 accesses (`SmpProgress.NoDeadlock`,
   `SmpProgress.CallsEnd`); the head and count behind one lock change only section by section
   (`SpinLock.RunsSerialize`).
4. The heap's layout is determined by its live blocks alone, so the order of frees does not matter
   (`HeapLayout.LayoutUnique`). Over every run of allocations, frees and client writes on memory,
   headers, links and back-pointers stay intact, client data lasts, and freeing everything leaves the
   heap as it was initialised (`HeapRuns.RunsKeep`, `HeapRuns.PayloadLasts`).
5. A Ready process that is not killed runs within 15 slices (`Sched.BoundedWaiting`); every switch
   resumes the frame that its process saved last, or its first one (`SchedEffects.ResumesLatest`); and a
   process that is dead stays so until its slot is started anew (`SchedEffects.DeadUntilStarted`).
6. `pmm_init` succeeds, or fails with each of its errors, exactly under conditions on its arguments
   that are spelled out, overlapping and unordered maps included. On success, if frame table and heap
   are placed safely, which address order ensures, every frame has the one owner that map and specs
   prescribe (`PmmInit.Init`, `PmmInit.OwnersDetermined`); the placement is safe exactly when frame
   table and heap are apart and out of the pool (`BootSpan.SafeExactly`). A bootloader map of good
   entries without overlaps becomes one in address order with aligned usable regions
   (`BootRegions.FilledOrdered`).
7. `new_kernel` succeeds exactly when its windows are aligned and apart and there is a Free frame for
   the root and for every 512 GiB and 1 GiB block that they touch (`WindowTables.NewKernelNeeds`,
   `WindowTables.KernelTables`).
8. However the CPUs that drop the last references to a Pending frame interleave, the frame is
   released. Nobody loses it and nothing panics if and only if one check alone passes, or the frame was
   handed out, referenced and released again before the second release; both are told from the order
   of the steps (`DrainSchedules.DrainExact`).

## How the model is built

Each operation is a function on a value (module `Pmm`, `Vmm`, `Mapping`, `Windows`, `Untyped`,
`HeapLayout`, `Heap`, `Sched`, `BootAlloc`, `BootRegions`), about which the properties are proved, and,
where the kernel updates things in place, a class or method with the kernel's own loops and branches
that is proved to compute that function (`FrameManager.Machine`, `AddressSpace.PageTable`,
`Heap.KernelHeap`, `Sched.Scheduler`, `BootAlloc.BootAllocator`, the methods of `BootRegions` and
`PmmInit`). Machine words are natural numbers; shifts, masks and `|` are bit functions on them
(module `Bits`), and wrap-around is written out where the kernel can reach it, as a build without
overflow checks performs it.

Parameters stand for what the code cannot see: the bootloader's parsed memory map, the contents of
memory at boot, the physmap base, the interrupt frame's address, the address of the kernel stacks.

Conditions the code needs of its callers appear in contracts: no release of a table frame, no write
to a frame one does not own, pin and mapping counters below 2^32 - 1, mapped physical addresses below
2^36 over whole runs, `kill` called only as process 0, RAM up to 2^44 bytes, heap alignments that do
not overflow an address, and after boot a frame table and heap that are placed safely.

Where code and comments or expectations differ, the model follows the code:

- `kernel/src/vmm.rs:30` describes address bits 12 to 51, but the 4 KiB mask on line 31 stops at bit
  35. `Mapping.MapTranslates` proves that translation is right exactly below 64 GiB, and
  `Limits.MapBeyondMask` gives a run in which it is not.
- `kernel/src/frame.rs:35` puts the owner id in the upper 32 bits; line 43 shifts it by 8.
- `kernel/src/untyped.rs:61` compares a truncated frame count, so a split of 2^44 bytes or more is
  accepted if what the truncation leaves is less than the cap. `Untyped.SplitExact` gives the exact
  conditions and `Untyped.SplitTruncates` an instance.
- `kernel/src/boot.rs:160` checks the capacity after writing. Maps that come to 128 regions or more
  are refused, except that a region cut in two with one slot left makes the kernel index past the
  array. `BootRegions.BuildEffective` says exactly which map does what, and
  `BootRegions.BurstingMap` is an ordered map that does the latter.
- `boot/src/main.rs:261` rounds up with an addition that wraps, and line 262 treats an end of 2^64 or
  more as an empty entry. A usable entry that starts inside the last frame of the address space
  becomes a region over all of memory; any other that reaches 2^64 is dropped whole.
  `BootRegions.ShrunkExact` says that shrinking is exact if and only if neither is the case;
  `BootRegions.LastByteClaimsAll` and `BootRegions.AllMemoryDropped` are instances.
- `kernel/src/boot.rs:277` keeps the whole span from frame table to heap out of the pool. If the heap
  does not fit behind the frame table, usable frames between them are lost. `BootSpan.WastedExactly`
  says when, and `BootSpan.SplitPlacement` is an instance.
- `kernel/src/boot.rs:277` keeps out the range from frame table to heap, which is empty if the heap
  lies below. `BootSpan.UnorderedUnsafe` is an unordered map for which both come into the pool, and
  `BootSpan.HeapOverTable` a sorted one with nested regions for which the heap is placed over the frame
  table and no overlap is reported. Both times success is reported.
- `kernel/src/heap.rs:95` rounds up with an addition that wraps: for a large alignment the check on
  line 97 can pass with payload 0. `HeapLimits.FitCheckExact` gives the exact condition,
  `HeapLimits.NullPayload` an instance, and `HeapLimits.WrappedAlloc` what is written then.
- `kernel/src/vmm.rs:253` computes the end of a window modulo 2^64: a window that reaches 2^64 is
  reported as mapped though nothing is. `Windows.MapWindowExact` and `Windows.NewKernelExact` carry
  the exact condition, and `Windows.LastPageIgnored` is an instance.
- `kernel/src/vmm.rs:264` creates tables without USER and opens none, unlike `map`. A USER window would
  be usable only below tables that are already open (`WindowAccess.WindowUserExact`), so never in a
  new address space (`WindowAccess.FreshUserPageShut`); the only caller passes kernel flags.
- `kernel/src/sched.rs:325` marks the current process Ready whatever it was, so killing the current
  process does not last. `Sched.KillSticksExactly` gives the exact condition and `Sched.KillUndone`
  an instance.
- `kernel/src/allocator.rs:157` checks before the lock is taken. `DrainSchedules.DrainExact` says on
  which schedules that is harmless, and `Deferral.UnpinsOverlap` shows two overlapping calls for which it is
  not.

## Model

| member | source | states |
|---|---|---|
| `Frames.EncodedFields` | kernel/src/frame.rs:42-57 | tag and id of an encoded owner come apart again, for every owner with a 32-bit id |
| `Frames.DecodeEncode` | kernel/src/frame.rs:42-57 | decoding inverts encoding |
| `Frames.EncodedWords` | kernel/src/frame.rs:42-57 | the word of each owner, in numbers |
| `Frames.CompareExchangeIsExact` | kernel/src/frame.rs:138-142 | equal owner words are equal owners, so the compare-and-swap of words compares owners |
| `Frames.ZeroIsReserved` | kernel/src/frame.rs:15-21 | zeroed frame-table memory reads as Reserved |
| `FreeLists.HeadIsFree` | kernel/src/allocator.rs:17-25 | a list's head is the end marker exactly when its count is 0, and otherwise a Free frame |
| `FreeLists.PopKeeps` | kernel/src/allocator.rs:74-90 | a pop takes a Free frame off the lists, makes it Kernel, and keeps every list exact; it fails only on the end marker |
| `FreeLists.PushKeeps` | kernel/src/allocator.rs:146-151 | linking a frame that is not Free keeps every list exact |
| `FreeLists.PeelKeeps` | kernel/src/allocator.rs:94-110 | peeling moves the front of the global list into an in-flight batch; together they still meet each Free frame once |
| `FreeLists.SpliceKeeps` | kernel/src/allocator.rs:112-117 | splicing a batch by relinking its tail meets the same frames and disturbs no other list |
| `FrameAlloc.RefillKeeps` | kernel/src/allocator.rs:93-118 | a refill moves `min(count, 64)` frames, changes no owner and writes no busy frame |
| `FrameAlloc.AllocExact` | kernel/src/allocator.rs:65-72 | allocation hands out a Free frame, touches nothing else in use, and returns None if and only if no frame is Free |
| `FrameEffects.ReleaseExact` | kernel/src/allocator.rs:131-152 | panics exactly on Reserved and Free frames; a pinned or mapped frame becomes Pending and nothing else happens; any other becomes Free, with one generation and one Free frame more, and only its link written |
| `FrameEffects.CountUpExact` | kernel/src/frame.rs:240-257 | pinning and mapping count one more on that frame, whoever owns it, and do nothing else |
| `FrameEffects.UnpinExact` | kernel/src/frame.rs:248-252 | one pin less on that frame, whoever owns it; a Pending, unmapped frame becomes Free with its last pin, and otherwise nothing else happens |
| `FrameEffects.RemoveMappingExact` | kernel/src/frame.rs:263-267 | the same for mappings |
| `FrameEffects.ReleaseThenAlloc` | kernel/src/allocator.rs:65-152 | a frame released when idle is the next one handed out |
| `FrameEffects.AllocThenRelease` | kernel/src/allocator.rs:65-152 | releasing a fresh frame without pins or mappings restores every owner and count |
| `FrameEffects.FirstFrame` | kernel/src/boot.rs:286-303 | after boot the first frame handed out is the lowest Free one, and when released it is Free again |
| `FrameEffects.PinsCounted` | kernel/src/frame.rs:240-252 | over every run a frame's pin count is its pins less its unpins |
| `FrameEffects.WriteLands` | kernel/src/arch.rs:34-38 | a client's write to a frame through the physmap lands in the one word that it names |
| `Census.CountsAreFree` | kernel/src/allocator.rs:194-202 | the recorded list lengths add up to the number of Free frames |
| `FrameManager.Machine.PopShard` | kernel/src/allocator.rs:74-90 | the in-place pop computes `Pmm.Pop`, testing only the head for the end marker |
| `FrameManager.Machine.RefillShard` | kernel/src/allocator.rs:93-118 | the peel loop and splice compute `Pmm.Refill` |
| `FrameManager.Machine.AllocFrame` | kernel/src/allocator.rs:65-72 | computes `Pmm.Alloc`, keeps the list invariant, fails if and only if no frame is Free |
| `FrameManager.Machine.PushFrame` | kernel/src/allocator.rs:146-151 | owner, generation, link, head and count change as in `Pmm.Push`, which `FreeLists.PushKeeps` is about |
| `FrameManager.Machine.ReleaseFrame` | kernel/src/allocator.rs:131-152 | panics exactly for Reserved and Free frames and then changes nothing; otherwise defers or frees as `Pmm.Release` says, keeping the lists exact |
| `FrameManager.Machine.DrainIfReady` | kernel/src/allocator.rs:155-160 | frees a Pending frame exactly when it is neither pinned nor mapped |
| `FrameManager.Machine.PinFrame` | kernel/src/frame.rs:240-242 | one more pin, modulo 2^32, and no other change; returns the new count |
| `FrameManager.Machine.UnpinFrame` | kernel/src/frame.rs:248-252 | drops one pin, then drains; returns the new count |
| `FrameManager.Machine.AddMapping` | kernel/src/frame.rs:255-257 | one more mapping, modulo 2^32, and no other change; returns the new count |
| `FrameManager.Machine.RemoveMapping` | kernel/src/frame.rs:263-267 | drops one mapping, then drains; returns the new count |
| `FrameManager.Machine.FreeFrameCount` | kernel/src/allocator.rs:195-202 | the sum of the counts is the number of Free frames |
| `FrameManager.Machine.ValidateList` | kernel/src/allocator.rs:208-215 | the walk terminates, meets only Free frames and takes as many steps as the count records |
| `FrameManager.Machine.ValidateFreeLists` | kernel/src/allocator.rs:206-221 | no assertion fails and exactly the number of Free frames is walked |
| `FrameManager.Machine.RetypeFrame` | kernel/src/untyped.rs:85-106 | the cursor loop computes `Untyped.Retype`; None if and only if no covered frame is Untyped with the cap's id |
| `FrameManager.UntypedCap.Split` | kernel/src/untyped.rs:56-71 | builds the two halves of `Untyped.SplitCap`, or refuses |
| `FrameManager.UntypedCap.constructor` | kernel/src/untyped.rs:25-32 | the cursor starts at the base |
| `Untyped.SplitExact` | kernel/src/untyped.rs:56-71 | the halves partition the cap's frames, the low half first, and share its id; the low half has the asked length if and only if it is below 2^44; exactly which lengths are accepted |
| `Untyped.SplitTruncates` | kernel/src/untyped.rs:60-70 | a split of 2^44 bytes is accepted and gives an empty low half and the whole cap |
| `Untyped.ScanExact` | kernel/src/untyped.rs:90-104 | the cyclic scan from any cursor finds the first takeable covered frame or none of the remaining ones is takeable |
| `Untyped.RetypeExact` | kernel/src/untyped.rs:80-106 | from any reachable cursor, Exhausted if and only if no covered frame is still Untyped with that id; otherwise exactly the first such frame from the cursor on changes hands, and the cursor stands behind it |
| `Deferral.StaleDrainExact` | kernel/src/allocator.rs:155-160 | releasing on a stale check equals a fresh drain if and only if the frame is still Pending |
| `Deferral.UnpinsInTurn` | kernel/src/frame.rs:248-252 | atomic unpins, as many as there are pins, free a draining frame once, by the last of them |
| `Deferral.UnpinsOverlap` | kernel/src/allocator.rs:155-160 | two overlapping unpins both pass the check; the second release panics, or takes the frame from whoever was handed it in between |
| `DrainRaces.ChecksExact` | kernel/src/allocator.rs:155-160 | the check finds Pending exactly before the first release or once the frame is renewed, and a zero count exactly when the references of its kind are dropped and no new one is taken |
| `DrainRaces.StepKeeps` | kernel/src/allocator.rs:131-160 | each decrement, read or release, and each allocation, reference or release of other callers, keeps the count of references, the single Pending release and someone on the way to it |
| `DrainRaces.HandedOut` | kernel/src/allocator.rs:74-90 | a Free frame that heads a shard is the one that the next pop there hands out |
| `DrainSchedules.PassedExactly` | kernel/src/allocator.rs:155-160 | a check passes if and only if it looks at the owner before any release, reads the pins after the last unpin and the mappings after the last unmap, with no new reference of that kind taken |
| `DrainSchedules.RenewedExactly` | kernel/src/allocator.rs:131-144 | the frame is renewed if and only if a caller takes a reference and one releases it later, before the second release |
| `DrainSchedules.DrainExact` | kernel/src/frame.rs:248-267 | on every complete schedule some check passes; no panic and no stolen frame if and only if only one does or the frame is renewed before the second release; then one generation is counted |
| `SpinLock.ActKeeps` | kernel/src/spinlock.rs:38-56 | each step keeps mutual exclusion and the serial value, and an interrupt never finds its own CPU at the lock |
| `SpinLock.RunsSerialize` | kernel/src/spinlock.rs:38-89 | in every interleaving the guarded value is what the finished sections produce one after the other |
| `SpinLock.ActExact` | kernel/src/spinlock.rs:38-89 | a swap takes a free lock and leaves a taken one, an update changes the value, the release frees the lock, and no step touches another CPU |
| `SpinLock.UpdatesLast` | kernel/src/spinlock.rs:38-89 | in every run the value is what all updates so far made of it |
| `SpinLock.IrqRestored` | kernel/src/spinlock.rs:38-89 | dropping the guard leaves interrupts as they were before `lock_irqsave` |
| `SmpSteps.ClaimsApart` | kernel/src/allocator.rs:74-152 | of two calls in progress, however interleaved, no frame belongs to both |
| `SmpSteps.ReadsTrue` | kernel/src/allocator.rs:74-152 | an owner, link or generation read inside a section is the one that the finished sections left |
| `SmpRefinement.MoveFollows` | kernel/src/allocator.rs:74-152 | every single memory access of every CPU is a whole section, taken at its lock, or changes nothing for whole sections; no frame enters or leaves the pool |
| `SmpRefinement.SimQuiet` | kernel/src/allocator.rs:74-152 | with all CPUs at rest, memory is exactly what the whole sections left |
| `SmpRefinement.SimSafe` | kernel/src/frame.rs:222-232 | every owner compare-and-swap that comes next finds the owner it expects: Free for a popped frame, the owner just read for a freed one |
| `SmpRefinement.RunsKeep` | kernel/src/allocator.rs:74-152 | in every state of every interleaving of single accesses: mutual exclusion, one kernel-owned holder for each frame, no failed assertion or compare-and-swap, a run of whole sections from the same start that ends in a matching state, and exact lists at rest |
| `SmpProgress.StepProgress` | kernel/src/allocator.rs:65-152 | every access of a CPU that is not kept waiting brings its call nearer to its end |
| `SmpProgress.NoDeadlock` | kernel/src/allocator.rs:112-117 | whenever a call is in progress, that CPU or the holder of the lock it wants can go on |
| `SmpProgress.CallsEnd` | kernel/src/allocator.rs:65-152 | a call that no other CPU disturbs ends within 75 accesses, 6 for a release, in a state that whole sections account for |
| `SmpProgress.CallersExact` | kernel/src/arch.rs:34-38 | what callers do to frames in their hands happens: a word is written, or the frame changes hands |
| `SmpAllocator.SpliceDisturbsNoBatch` | kernel/src/allocator.rs:112-117 | a splice on one CPU leaves every other CPU's batch in flight intact |
| `SmpAllocator.ActKeeps` | kernel/src/allocator.rs:74-152 | every step of every CPU keeps the partition of the Free frames into lists and batches and the single holder of each frame; no frame enters or leaves the pool |
| `SmpAllocator.RunsKeep` | kernel/src/allocator.rs:74-152 | the same in every state of every interleaving, so no frame is handed to two callers and none is lost |
| `PageEntries.TableEntryFields` | kernel/src/vmm.rs:137-138 | an entry for a new table is present, not huge, points back at the table and has USER exactly when asked |
| `PageEntries.PromotedFields` | kernel/src/vmm.rs:147-149 | setting USER changes neither presence, size nor target of an entry |
| `PageEntries.LeafEntryBits` | kernel/src/vmm.rs:158-158 | a leaf is present, and has USER exactly when the flags do |
| `PageEntries.LeafEntryExact` | kernel/src/vmm.rs:158-158 | bit by bit, a leaf is the address, the flags and PRESENT |
| `PageEntries.WindowEntryExact` | kernel/src/vmm.rs:250-278 | bit by bit, a window entry is the address, the flags, PRESENT and HUGE |
| `PageEntries.TableEntryExact` | kernel/src/vmm.rs:137-138 | bit by bit, an entry for a table is its address, PRESENT, WRITABLE and the USER bit asked for |
| `PageEntries.PromotedExact` | kernel/src/vmm.rs:147-149 | promotion sets the USER bit and changes no other |
| `Bits.BitsDetermine` | kernel/src/vmm.rs:158-158 | a word is determined by its bits, so these statements fix the entries |
| `PageEntries.LeafAddress` | kernel/src/vmm.rs:30-31 | the 4 KiB mask reads back the address modulo 2^36 |
| `PageEntries.WindowAddress` | kernel/src/vmm.rs:32-32 | the 2 MiB mask reads back the address modulo 2^44 |
| `PageEntries.WindowEntryBits` | kernel/src/vmm.rs:250-278 | a window entry is present and huge, and has USER exactly when the flags do |
| `PageEntries.OffsetValue` | kernel/src/vmm.rs:214-231 | the three offset masks are remainders by the page size |
| `PageEntries.CanonicalRange` | kernel/src/vmm.rs:317-325 | canonical means the lower or the upper 2^47 bytes |
| `PageEntries.IndexValue` | kernel/src/vmm.rs:306-308 | the four indices are the four 9-bit digits of the address |
| `PageEntries.IndicesDetermine` | kernel/src/vmm.rs:306-325 | two canonical addresses with equal indices and offset are equal |
| `PageTree.LookupAlike` | kernel/src/vmm.rs:198-232 | a walk sees no difference between memories whose entries on its path agree up to USER bits and empty tables |
| `PageTree.UserExact` | kernel/src/vmm.rs:130-158 | an address is user-accessible on the whole walk if and only if its leaf has USER and, for a huge leaf only, the tables above it have USER |
| `PageTree.RightsExact` | kernel/src/vmm.rs:130-158 | whether an address can be written or executed is decided by its leaf alone; no table takes a right away |
| `PageTree.GrowKeeps` | kernel/src/vmm.rs:134-138 | hanging a zeroed frame below an absent entry keeps the forest of tables |
| `PageTree.WriteKeeps` | kernel/src/vmm.rs:158-189 | overwriting an entry that is no table pointer keeps the forest |
| `Growth.DescendNeeds` | kernel/src/vmm.rs:131-152 | the walk runs out of frames if and only if fewer are Free than tables are absent on the path; it takes one frame for each absent table |
| `Vmm.GrowStep` | kernel/src/vmm.rs:134-138 | allocating, zeroing and linking a table changes no translation of any address space |
| `Vmm.PromoteStep` | kernel/src/vmm.rs:147-150 | promoting an intermediate entry to USER changes no translation |
| `Vmm.DescendKeeps` | kernel/src/vmm.rs:131-152 | the whole growing walk keeps lists, forest and every translation, ends at the right table, and fails with Conflict only on a mapped page and with AllocFailed only without Free frames |
| `Mapping.TranslateBySpace` | kernel/src/vmm.rs:198-232 | translation of every canonical address is decided by the abstract map at its page |
| `Mapping.LeafFrameExact` | kernel/src/vmm.rs:188-190 | the frame read back from a leaf is the mapped one if and only if its address is below 2^36 |
| `Mapping.MapRefines` | kernel/src/vmm.rs:119-161 | `map` inserts exactly the asked page into one address space or changes none; success and each error, running out of frames included, are exact conditions on the state before; counts stay exact on failure, and on success if and only if `pa` is below 2^36 |
| `Mapping.MapTranslates` | kernel/src/vmm.rs:119-232 | after a successful `map`, `va + off` translates to `pa + off` for every offset if and only if `pa` is below 2^36 |
| `Mapping.MapEntryExact` | kernel/src/vmm.rs:119-161 | after a successful `map` the page has a 4 KiB leaf, each bit of which is that of the address or of the flags, with PRESENT |
| `Mapping.MapRights` | kernel/src/vmm.rs:119-161 | after a successful `map` the whole walk allows user access, writing and execution exactly as the flags say |
| `WindowAccess.MapOpens` | kernel/src/vmm.rs:130-158 | a successful `map` opens the tables above its page to the user if the flags have USER, and otherwise leaves them as they were |
| `Mapping.PhysicalExact` | kernel/src/vmm.rs:198-232 | what a leaf of each size translates to, in numbers |
| `Mapping.FindTableExact` | kernel/src/vmm.rs:173-182 | the walk of `unmap` finds the page's table, or reports NotMapped for unmapped and Conflict for huge-mapped addresses |
| `Mapping.UnmapRefines` | kernel/src/vmm.rs:165-195 | `unmap` removes exactly the asked page and one count if it has a 4 KiB leaf, and otherwise changes nothing |
| `Mapping.UnmapTouches` | kernel/src/vmm.rs:188-190 | a successful `unmap` changes one table entry, the count of the leaf's frame, and that frame only if it drains |
| `Mapping.DrainKeeps` | kernel/src/allocator.rs:155-160 | draining keeps lists, forest and every table's contents |
| `Windows.NewTableEmpty` | kernel/src/vmm.rs:79-84 | a new root is a fresh frame with an empty address space; all others are as before |
| `Windows.WindowStepExact` | kernel/src/vmm.rs:254-281 | one iteration maps exactly one unmapped large page, or fails without changing a translation of any address space; success and both errors are exact conditions on the state before |
| `WindowAccess.WindowUserExact` | kernel/src/vmm.rs:254-278 | after a successful iteration the user gets at the new large page if and only if the flags have USER and both tables above were there before and had USER |
| `WindowAccess.FreshUserPageShut` | kernel/src/vmm.rs:254-278 | on a new root with two Free frames left, a USER page is mapped and the user cannot get at it |
| `Windows.WindowLoopExact` | kernel/src/vmm.rs:254-282 | the window is mapped page by page from its start, and nothing else of the address space; success if and only if all of it is |
| `WindowTables.StepAdds` | kernel/src/vmm.rs:254-278 | a successful iteration adds the entries on the path of its page and no other, and takes one frame for each table that was absent |
| `WindowTables.WindowLoopNeeds` | kernel/src/vmm.rs:254-282 | the loop gets through if and only if no page is taken and there is a Free frame for every block without a table; it takes exactly those |
| `Windows.MapWindowExact` | kernel/src/vmm.rs:237-283 | misalignment is reported exactly; a reported success is the full window if and only if its end is below 2^64; an aligned window that reaches 2^64 is always reported as mapped and changes nothing; other address spaces never change |
| `Windows.LastPageIgnored` | kernel/src/vmm.rs:237-254 | mapping the last large page of the address space reports success and changes nothing |
| `Windows.NewKernelExact` | kernel/src/vmm.rs:90-99 | success yields the identity window and its physmap mirror, not overlapping, writable and executable but not open to the user, with every other canonical address unmapped, if and only if the mirror ends below 2^64; an aligned mirror that does not is skipped and success reported |
| `WindowTables.NewKernelNeeds` | kernel/src/vmm.rs:90-99 | `new_kernel` succeeds if and only if there are Free frames for the root and all tables and the mirror is aligned and, unless it reaches 2^64, above RAM |
| `WindowTables.KernelTables` | kernel/src/vmm.rs:90-99 | with the mirror at a multiple of 512 GiB above RAM the tables are two for every 512 GiB and two for every 1 GiB |
| `AddressSpace.PageTable.Walk` | kernel/src/vmm.rs:131-152 | the level loop, with in-place growth and promotion, computes `Vmm.Descend` |
| `AddressSpace.PageTable.Grow` | kernel/src/vmm.rs:134-138 | allocates, zeroes and links a table as `Vmm.Hang` does, or reports that no frame is left |
| `AddressSpace.PageTable.Map` | kernel/src/vmm.rs:119-161 | computes `Mapping.Map`; on success the space gains the one leaf, on error it is unchanged |
| `AddressSpace.PageTable.Unmap` | kernel/src/vmm.rs:165-195 | computes `Mapping.Unmap`; on success the space loses the one page, on error it is unchanged |
| `AddressSpace.PageTable.Translate` | kernel/src/vmm.rs:198-232 | the four levels written out compute the recursive walk |
| `AddressSpace.PageTable.StoreLarge` | kernel/src/vmm.rs:255-278 | the body of the window loop computes `Windows.WindowStep` |
| `AddressSpace.PageTable.MapWindow` | kernel/src/vmm.rs:237-283 | the `va` loop, with its wrapping end, computes `Windows.MapWindow` |
| `AddressSpace.NewSpace` | kernel/src/vmm.rs:79-84 | computes `Windows.NewTable`; the new space is empty |
| `AddressSpace.NewKernelSpace` | kernel/src/vmm.rs:90-99 | computes `Windows.NewKernel`; a space that is returned has exactly the two windows if the mirror ends below 2^64 |
| `KernelRuns.TablesNeverAlias` | kernel/src/vmm.rs:119-161 | two paths from any roots to the same table are the same path from the same root; the table is Kernel-owned and on no free list |
| `KernelRuns.TableIsNode` | kernel/src/vmm.rs:119-161 | the tables that memory shows reachable are exactly the tracked ones |
| `KernelRuns.MetaKeeps` | kernel/src/frame.rs:136-165 | generations count releases modulo 2^32, Pending frames are pinned or mapped, and each frame is granted at most once |
| `KernelRuns.StepKeeps` | kernel/src/allocator.rs:65-160 | every operation keeps the system invariant, each frame changes hands only along the owner state machine, and a frame in use that is no table changes only by a client's write to it |
| `KernelRuns.InitialInv` | kernel/src/boot.rs:190-203 | the state boot leaves satisfies the system invariant with no tables |
| `KernelRuns.RunsKeep` | kernel/src/allocator.rs:65-160 | the system invariant holds in every state of every run |
| `KernelRuns.MapThenUnmap` | kernel/src/vmm.rs:119-195 | `map` then `unmap` restores every address space; the counts if and only if `pa` is below 2^36, and then every generation and owner, except that grown tables stay |
| `KernelRuns.MapKeepsExactly` | kernel/src/vmm.rs:119-161 | a successful `map` keeps the system invariant, for some forest of tables, if and only if `pa` is below 2^36 |
| `KernelRuns.ForestUnique` | kernel/src/vmm.rs:119-161 | memory and roots determine the tables and their places |
| `Limits.MapBeyondMask` | kernel/src/vmm.rs:30-31 | from a state that `pmm_init` leaves, mapping page 0 to 2^36 succeeds, translates to 0, and leaves counts that no forest accounts for |
| `Limits.BigBoot` | kernel/src/boot.rs:204-303 | the state that run starts from is one that `pmm_init` promises for RAM from 1 MiB to 64 GiB and one frame |
| `HeapLayout.LayoutUnique` | kernel/src/heap.rs:138-174 | the coalesced tiling of the heap is determined by its live blocks |
| `HeapLayout.NothingLive` | kernel/src/heap.rs:138-174 | with nothing live there is one free block of the whole size |
| `Bits.AlignUpExact` | kernel/src/heap.rs:52-55 | for a power of two that cannot overflow, the mask expression is the least multiple not below the value |
| `HeapLayout.FitsExact` | kernel/src/heap.rs:95-97 | the fit check succeeds if and only if some aligned payload of the asked size fits behind the header |
| `HeapLimits.AlignUpWordExact` | kernel/src/heap.rs:52-55 | on 64-bit words the round-up is the least multiple if that does not pass 2^64, and 0 otherwise |
| `HeapLimits.FitCheckExact` | kernel/src/heap.rs:95-97 | the check on 64-bit words is right if and only if the alignment added to the end of the header does not pass 2^64 or the request is larger than the end address; otherwise it passes for payload 0 |
| `HeapLimits.NullPayload` | kernel/src/heap.rs:95-97 | 16 bytes at a multiple of 2^62 in a heap at the upper half pass the check with payload 0 |
| `HeapLimits.CutWordAgrees` | kernel/src/heap.rs:98-130 | on 64-bit words, where nothing wraps, cutting a block writes the memory, head and byte count of `Heap.Cut` |
| `HeapLimits.WrappedAlloc` | kernel/src/heap.rs:94-130 | when the round-up wraps for every block, the first free block is cut at payload 0: null is returned, a header is written below the heap and becomes the list head, the last word of the address space is overwritten, and no layout accounts for the result |
| `HeapLayout.AllocateExact` | kernel/src/heap.rs:86-136 | null if and only if no free block fits; otherwise the lowest one that fits is used, at its lowest aligned address, one live block is added, which takes no more than it must, and the byte count grows by its size |
| `HeapLayout.FreeAtExact` | kernel/src/heap.rs:138-174 | freeing removes exactly that live block, keeps tiling and coalescing, and returns its bytes |
| `HeapLayout.AllocateThenFree` | kernel/src/heap.rs:86-174 | freeing a fresh allocation restores the identical layout |
| `HeapLayout.RunsKeep` | kernel/src/heap.rs:86-174 | every run keeps an exact, coalesced, 16-byte-granular tiling, and its layout depends only on what is live |
| `HeapMemory.CarveLinked` | kernel/src/heap.rs:98-130 | the words written by an allocation encode the carved layout |
| `HeapMemory.UncarveLinked` | kernel/src/heap.rs:151-161 | the words written by a free encode the layout with the block linked in address order |
| `HeapMemory.MergeLinked` | kernel/src/heap.rs:162-172 | absorbing an adjacent free block encodes the merged layout |
| `HeapMemory.PayloadWrite` | kernel/src/heap.rs:8-13 | any write inside a live payload leaves every header, link and back-pointer intact |
| `Heap.CutKeeps` | kernel/src/heap.rs:98-130 | the words, head and count written by an allocation keep the heap invariant and every live block's contents |
| `Heap.FreeImageKeeps` | kernel/src/heap.rs:138-174 | the words, head and count written by a free keep the heap invariant and every other live block's contents |
| `HeapEffects.InitExact` | kernel/src/heap.rs:61-74 | after `heap_init` one header of the whole size is the list, nothing is allocated, and no other word is written |
| `HeapEffects.FirstRequest` | kernel/src/heap.rs:61-136 | the first request, aligned to at most 16, is granted right behind the header if and only if it fits there |
| `HeapEffects.RunsOutside` | kernel/src/heap.rs:86-174 | over every run no word outside the region changes |
| `HeapRuns.StepKeeps` | kernel/src/heap.rs:86-174 | every allocation, free or client write keeps the heap in memory intact and changes no word of a live block but by a write to it |
| `HeapRuns.RunsKeep` | kernel/src/heap.rs:61-174 | over every run on memory: headers, links, back-pointers, head and byte count right, the layout fixed by the live blocks, and the initial heap once nothing is live |
| `HeapRuns.PayloadLasts` | kernel/src/heap.rs:86-174 | a word of a block that stays live keeps its value until a client writes it |
| `Heap.KernelHeap.constructor` | kernel/src/heap.rs:61-74 | the head is the region's start, one free header over the whole region ends the list, nothing is allocated, and the invariant holds |
| `Heap.KernelHeap.Alloc` | kernel/src/heap.rs:86-136 | the in-place first-fit walk computes `Heap.AllocImage` and performs `HeapLayout.Allocate` on the layout in memory, changing no live block's contents; on null nothing changes |
| `Heap.KernelHeap.Take` | kernel/src/heap.rs:98-130 | unlinking, splitting and stamping a block turns the layout in memory into the carved one, changing no live block's contents |
| `Heap.KernelHeap.Relink` | kernel/src/heap.rs:98-130 | the writes in place, split or not, first on the list or not, give the memory, head and byte count of `Heap.Cut` |
| `Heap.KernelHeap.Locate` | kernel/src/heap.rs:144-150 | the address-ordered walk stops between the last free block below and the first free block above |
| `Heap.KernelHeap.Merge` | kernel/src/heap.rs:162-172 | the first block takes over size and link of the second; nothing else changes |
| `Heap.KernelHeap.Free` | kernel/src/heap.rs:138-174 | recovers the block from its back-pointer, computes `Heap.FreeImage` and performs `HeapLayout.FreeAt`, changing no other live block's contents |
| `Heap.KernelHeap.ClientWrite` | kernel/src/heap.rs:8-13 | a client's write to its payload keeps the heap valid |
| `Sched.PickExact` | kernel/src/sched.rs:283-295 | the scan returns the Ready slot at the least cyclic distance, or there is none |
| `Sched.PickBringsNearer` | kernel/src/sched.rs:283-295 | whoever is picked, a waiting slot is picked or its distance shrinks |
| `Sched.ExitFindsSuccessor` | kernel/src/sched.rs:353-362 | a non-idle exit always finds a successor with a saved context |
| `Sched.FreeExact` | kernel/src/sched.rs:159-168 | the lowest slot that is Unused or Zombie, or none is |
| `Sched.StartKeeps` | kernel/src/sched.rs:173-226 | starting a process keeps the invariant and disturbs no live process |
| `Sched.TickKeeps` | kernel/src/sched.rs:320-349 | a tick or yield keeps the invariant, whoever is picked |
| `Sched.KillKeeps` | kernel/src/sched.rs:231-242 | a kill issued as process 0 keeps the invariant |
| `Sched.StepKeeps` | kernel/src/sched.rs:305-362 | every event keeps the invariant: one Running slot at most, which is current; idle never lost; rsp0 right; and a switch never uses a zero context |
| `Sched.InitInv` | kernel/src/sched.rs:139-153 | the table after `init_idle` satisfies the invariant |
| `Sched.RunsKeep` | kernel/src/sched.rs:283-362 | the invariant holds in every state of every run |
| `Sched.WaitingStep` | kernel/src/sched.rs:283-362 | each event runs the waiting process or keeps it Ready, strictly nearer if the event ends a slice |
| `Sched.BoundedWaiting` | kernel/src/sched.rs:283-362 | a Ready process that is not killed is current at some point before 15 tick, yield or exit events have passed |
| `SchedEffects.TickExact` | kernel/src/sched.rs:320-349 | a tick or yield saves the current frame and no other context; the next Ready process runs with its stack in the TSS and the current one becomes Ready, or the current one goes on; no other slot changes |
| `SchedEffects.ExitExact` | kernel/src/sched.rs:353-362 | an exit succeeds exactly if another process is Ready; the current one is dead, the next one runs, and no context changes |
| `SchedEffects.KillExact` | kernel/src/sched.rs:231-242 | true exactly for a live process other than idle, which becomes a Zombie; nothing else changes |
| `SchedEffects.StartExact` | kernel/src/sched.rs:159-226 | the lowest free slot becomes Ready with its own stack and the highest 16-aligned first frame; nothing else changes; or none is free |
| `SchedEffects.InitExact` | kernel/src/sched.rs:139-153 | idle alone lives, Ready and current; slot 1 is the first to be started |
| `SchedEffects.ContextsLatest` | kernel/src/sched.rs:320-349 | in every state of every run a saved context is the frame of the latest tick or yield, or the first frame |
| `SchedEffects.ResumesLatest` | kernel/src/sched.rs:305-362 | every switch goes to a waiting process and resumes that frame, which is not 0, on its own stack |
| `SchedEffects.DeadUntilStarted` | kernel/src/sched.rs:231-362 | a process that is dead and not current stays so until its slot is started anew |
| `SchedEffects.KillLasts` | kernel/src/sched.rs:231-242 | so a successful kill of a process that is not current lasts |
| `Sched.KillSticksExactly` | kernel/src/sched.rs:231-333 | a successful kill survives the next tick if and only if the victim is not the current process |
| `Sched.KillRevived` | kernel/src/sched.rs:231-333 | whenever a process other than idle runs, killing it succeeds and the next tick makes it Ready again |
| `Sched.KillUndone` | kernel/src/sched.rs:139-333 | a started, preempting and then killed process is such a state |
| `Sched.Scheduler.constructor` | kernel/src/sched.rs:139-153 | the fresh table is `InitIdle` |
| `Sched.Scheduler.FindFreeSlot` | kernel/src/sched.rs:159-168 | the scan computes `FreeSlot` and never returns idle |
| `Sched.Scheduler.PickNextOther` | kernel/src/sched.rs:283-295 | the modular scan computes `PickNext`; None only if no other slot is Ready |
| `Sched.Scheduler.Start` | kernel/src/sched.rs:173-226 | the in-place write computes `StartProcess` |
| `Sched.Scheduler.KillProcess` | kernel/src/sched.rs:231-242 | computes `Kill`, refusing idle, unknown and dead processes |
| `Sched.Scheduler.Switch` | kernel/src/sched.rs:305-316 | marks the slot Running and current and points rsp0 at its stack |
| `Sched.Scheduler.Preempt` | kernel/src/sched.rs:320-349 | saves the context, switches or resumes, computing `OnTick` |
| `Sched.Scheduler.ExitNow` | kernel/src/sched.rs:353-362 | computes `ExitCurrent` and keeps the invariant |
| `BootRegions.ShrunkExact` | boot/src/main.rs:259-267 | for every 64-bit usable entry: its region holds exactly the whole frames of the reported range if and only if the entry neither starts inside the last frame nor reaches 2^64; one that starts there becomes all of memory below it, any other that reaches 2^64 is dropped |
| `BootRegions.AllMemoryDropped` | boot/src/main.rs:262-265 | one entry for all memory above 1 MiB yields no region |
| `BootRegions.LastByteClaimsAll` | boot/src/main.rs:261-267 | one usable byte at the top yields a region of all memory below the last frame |
| `BootRegions.KeptExact` | boot/src/main.rs:253-270 | each region is there as often as entries make it |
| `BootRegions.ReservedKept` | boot/src/main.rs:255-269 | an entry that is not usable makes a region with its own bounds |
| `BootRegions.SortedIsSort` | boot/src/main.rs:272-282 | insertion sorting yields a sorted permutation |
| `BootRegions.FillRegions` | boot/src/main.rs:243-284 | the array's prefix is the sorted permutation of the kept, shrunk entries; ordered and frame-aligned if the entries are good and do not overlap |
| `BootRegions.FilledOrdered` | boot/src/main.rs:253-283 | nonempty entries without overlap, no usable one starting inside the last frame, become regions in address order without overlap, usable ones frame-aligned |
| `BootRegions.SortPrefix` | boot/src/main.rs:274-282 | the in-place insertion sort sorts the prefix and nothing else |
| `BootRegions.InsertKey` | boot/src/main.rs:275-281 | the shifting loop puts one key in its place among the sorted ones before it |
| `BootRegions.MaskRoundsDown` | kernel/src/boot.rs:102-104 | masking the low 12 bits rounds down to a frame |
| `BootRegions.EffectiveExact` | kernel/src/boot.rs:130-165 | an address is usable afterwards if and only if it was usable and outside the frame-rounded image |
| `BootRegions.EffectiveOrdered` | kernel/src/boot.rs:124-165 | ordered disjoint regions stay so, and at most one is added |
| `BootRegions.ReservedPass` | kernel/src/boot.rs:136-139 | regions that are not usable pass unchanged |
| `BootRegions.ImageExact` | kernel/src/boot.rs:130-134 | the image is rounded outwards to the nearest frames |
| `BootRegions.AddPieces` | kernel/src/boot.rs:140-159 | appends the one, two or no pieces of a region, failing exactly when they do not fit |
| `BootRegions.BuildEffective` | kernel/src/boot.rs:130-165 | builds exactly the effective list if and only if it is shorter than 128, indexes past the array if and only if a region is cut in two with one slot left, and refuses every other map; 126 ordered regions always suffice |
| `BootRegions.BurstingMap` | kernel/src/boot.rs:130-165 | an ordered map of 128 regions that indexes past the array |
| `BootAlloc.BumpExact` | kernel/src/boot.rs:62-87 | returns an aligned range inside a usable region, in address order above everything returned before; None if and only if no region left has room |
| `BootAlloc.BumpFirst` | kernel/src/boot.rs:62-87 | a range handed out is the lowest in the first region with room, and nothing behind it is skipped |
| `BootAlloc.BootAllocator.Alloc` | kernel/src/boot.rs:62-87 | the region loop computes `Bump` |
| `BootAlloc.RunIncreasing` | kernel/src/boot.rs:62-87 | any sequence of requests gets increasing, disjoint ranges |
| `PmmInit.BuildList` | kernel/src/allocator.rs:166-192 | the list meets each Free frame once and no other, in address order, ends at the marker, its count is the number of Free frames, and no other frame is written |
| `PmmInit.FreshInv` | kernel/src/allocator.rs:166-192 | that list as the global one, with empty shards, satisfies the list invariant |
| `PmmInit.MarkRegion` | kernel/src/boot.rs:270-283 | marks exactly the eligible frames of a region, failing if and only if one is already marked |
| `PmmInit.CeilDivExact` | kernel/src/boot.rs:110-112 | the number of frames that cover a size, and no more |
| `PmmInit.MarkUsable` | kernel/src/boot.rs:266-284 | fails if and only if two usable regions give the same eligible frame; otherwise a frame is Free exactly when an effective region gives it |
| `PmmInit.TwiceEffective` | kernel/src/boot.rs:130-284 | a frame is given twice by the effective regions if and only if two usable regions of the map claim it outside the image |
| `PmmInit.OrderedOnce` | kernel/src/boot.rs:266-284 | in address order without overlap no frame is given twice |
| `PmmInit.Carve` | kernel/src/boot.rs:305-326 | succeeds if and only if the spec is aligned, in range and covers only Free frames, which become Untyped |
| `PmmInit.CarveAll` | kernel/src/boot.rs:286-289 | succeeds if and only if every spec is well-formed and covers only Free frames and no two overlap; then a frame is Untyped with id `i` exactly when spec `i` covers it |
| `PmmInit.Reserve` | kernel/src/boot.rs:245-263 | the two allocations compute `PmmInit.Place` |
| `PmmInit.PlaceExact` | kernel/src/boot.rs:245-263 | frame table and heap lie in usable regions, frame-aligned, and in this order if the regions are ordered; one is missing if and only if no region left has room for it |
| `PmmInit.HighestEnd` | kernel/src/boot.rs:232-238 | the loop finds the greatest end of a usable region |
| `PmmInit.Populate` | kernel/src/boot.rs:265-292 | marking, carving and list building together give every frame its prescribed owner and an exact free list |
| `PmmInit.Init` | kernel/src/boot.rs:204-303 | for ordered, unordered and overlapping maps: success and each failure are exact conditions on the arguments; on success with a safe placement, which address order ensures, every frame has exactly the owner that map, image, legacy area, reserved span and specs prescribe, nothing is pinned, mapped or released yet, the list is in address order, untyped memory is as it was, and `free_frames` counts the Free ones |
| `PmmInit.OwnersDetermined` | kernel/src/boot.rs:265-292 | what is promised of the owners leaves none open: two tables that meet it are equal, and a frame is Free exactly when it is available and no spec covers it |
| `BootSpan.SafeExactly` | kernel/src/boot.rs:245-283 | frame table and heap are apart and out of the pool if and only if the frame table lies below the heap, or above it with both in legacy memory |
| `BootSpan.UnorderedUnsafe` | kernel/src/boot.rs:245-283 | an unordered map without error for which frames of frame table and heap are given out |
| `BootSpan.HeapOverTable` | kernel/src/boot.rs:245-283 | a map sorted by start, without error, for which the heap is placed over the frame table |
| `BootStates.TailPost` | kernel/src/boot.rs:204-303 | when the available frames are those from some point on, the state that chains them is one that `pmm_init` promises |
| `BootSpan.WastedBetween` | kernel/src/boot.rs:265-283 | the usable frames that are kept out of the pool without need are exactly those between frame table and heap |
| `BootSpan.WastedExactly` | kernel/src/boot.rs:245-283 | there is one if and only if an effective region has a whole frame at or above 1 MiB between the two |
| `BootSpan.TogetherWastesNothing` | kernel/src/boot.rs:245-263 | there is none if the heap fits behind the frame table in its region |
| `BootSpan.SplitPlacement` | kernel/src/boot.rs:245-283 | an ordered map, and a result that `pmm_init` promises for it, with a wasted frame |
| `PmmInit.RunsFromBoot` | kernel/src/boot.rs:190-303 | every run of the memory managers from a successful init with a safe placement keeps the system invariant |

## Left out

- TLB contents and `invlpg`, `cr3`, memory orderings weaker than sequential consistency, and the casts between addresses and pointers: frame memory is an indexed store.
- Deferred release on several CPUs, beyond `Deferral` and the drain of one frame in `DrainRaces`, whose later holders take references and release the frame but do not drop those references again: runs with pins, mappings and page tables are sequential; the multi-CPU models of whole memory cover list movement and release of held, idle frames.
- Counters at their limits: runs keep pin and mapping counts below 2^32 - 1, as nothing in the code stops them.
- Builds with overflow checks, which stop where the model wraps around.
- Heap memory below the word: the heap is a map from word addresses to 64-bit words, and a client's write is one word. Calling `heap_free` with a pointer that `heap_alloc` did not return is excluded, as the code demands.
- Frame-table and free-list fields are sequences that methods reassign, not raw memory at the frame table's address.
- FrameManager.Machine.RetypeFrame: requires the cap to lie in the frame table, where the code would panic.
- PmmInit.Carve: reports a spec beyond the frame table as a bad spec, where the code would panic.
- PmmInit.Init: promises nothing about owners and lists after a success with an unsafe placement, since the kernel then writes links into the frame table or zeroes it with the heap; `BootSpan.SafeExactly` says when that is.
- PmmInit.RunsFromBoot: asks for a safe placement, for the same reason.
- PmmInit.Init: the three messages for a bad spec are one error; the zeroing of the heap and the single-shot guards of the frame table and the physmap base are not modelled.
- Heap.KernelHeap.Alloc: requires an alignment that added to the heap's end does not pass 2^64; `HeapLimits.FitCheckExact` says what the check does beyond that.
- AddressSpace.PageTable.Unmap: a leaf that names a frame beyond the table would stop the kernel; the method skips the count instead. With exact mapping counts there is no such leaf.
- 1 GiB pages: `translate` reads them, but nothing in the kernel creates one.
- The spinlock as a class: its loop ends only by the act of another CPU, so it is a state machine over steps.
- Process names, the register contents of initial frames, `snapshot`, `current_pid` and the user address helpers of the scheduler.
- `kernel/src/owned.rs`, `kernel/src/arch.rs`, `kernel/src/io.rs`, `kernel/src/pic.rs`, `kernel/src/pit.rs`, `kernel/src/keyboard.rs`, `kernel/src/idt.rs`, `kernel/src/tss.rs`, `kernel/src/user.rs`, the shell, the serial console and the multiboot parser: device and hardware entry code, or members too easy to be worth stating.
