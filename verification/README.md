# Virtual memory, scheduling, heap and ramdisk of the quack kernel: a Dafny model

The model covers the kernel's virtual-memory stack as layers, each proved against a simpler
description that the next layer uses:

| file | layer |
|---|---|
| `Options.dfy` | optional values |
| `Bits.dfy` | bitwise operations on 64-bit words, as arithmetic on naturals |
| `FrameAllocator.dfy` | the bitmap of physical frames, against a set of free frames |
| `PageTree.dfy` | four-level page tables (section 4.5 of the Intel SDM, Volume 3A) as a tree of 512-entry tables |
| `Machine.dfy`, `TableRuns.dfy` | frames, tables and memory together; mapping and unmapping, against one flat page-to-entry map per context |
| `Spans.dfy`, `Binding.dfy` | hole and region lists of an address space: splitting, exact binding, coalescing |
| `Mapping.dfy` | the backing pages of a region |
| `Copying.dfy` | byte copies through the kernel's mapping window |
| `Regions.dfy`, `AddressSpace.dfy` | the address space: what its tables, regions, holes and frames agree on |
| `Elf.dfy` | the ELF64 loader as a client of all of it |
| `Layouts.dfy` | what any sequence of calls does to the holes and regions, on spans alone |
| `Calls.dfy` | the calls on an address space as steps between values, and what whole runs of them keep |
| `Runs.dfy` | any sequence of calls on an address space, load/store round trip, images under demand paging |
| `Worlds.dfy` | several address spaces on one machine, and calls on them in any order |

Four smaller cores stand beside it: the SMP scheduler (`Scheduler.dfy`), the kernel heap on top
of the same machine (`Heap.dfy`, and `HeapRuns.dfy` for whole runs), the ustar reader
(`Initrd.dfy`) and the i386 frame stack (`FrameStack.dfy`).

Runs are traces: a predicate or function says what each call does to a value that shows the whole
state (`Scheduling.After`, `FrameStacks.After`, `HeapRuns.HeapTurn`, `Calls.CallTurn`,
`Worlds.WorldTurn`, `TableRuns.FlatRun`, `Layouts.LayoutTurn`), the method that makes the calls on
the kernel's own structures is proved to follow it from the first state to the last, and lemmas say
what holds in every state of every such run. A call whose caller breaks an obligation of the source
is left out of a run, and so is one that the kernel would not survive however many frames are free.

How the source is represented:

- Objects whose fields the source updates are classes (`FrameAllocator`, `Machine`,
  `MemoryMapping`, `AddressSpace`, `Scheduler`, `Heap`, `FrameStack`); their lists and maps are
  sequences and maps, `insert(before, x)` places `x` before its argument. Each locked section is
  one step.
- 64-bit words are naturals below 2^64; wrap-around is written out with `Wrap64` where it matters.
- Physical memory is split by use: frames that hold page tables are `Machine.tables`, all others
  are byte pages in `Machine.ram`. The frames that are free and those that hold page tables are
  together the spare ones (`Machine.Spare`): the kernel may write to either at any call, so no
  statement counts their bytes as unchanged, and byte copies are modelled for all other frames. The
  ghost fields `pool`, `lent` and `own` say whose a frame is.
- What a region reads as is the bytes of its backed pages, whether it owns their frames or is
  pointed at them, and 0 for pages without a frame. "Reads as before" is stated page by page and
  leaves out the pages that are pointed at a spare frame, or at another frame that the statement
  names (`Regions.Same`, `Regions.Loose`).
- A returned `ok == false` stands for a kernel that does not survive the call: it dereferences the
  NULL of a failed table allocation, panics, faults in the copy window or stops for want of memory.
  Every operation that can fail so says how many free frames are enough for it to succeed.
- A fault at an address where a region ends panics, because the lookup takes the end of a region
  as part of it; `Binding.LookupExact` says exactly when the lookup is right.

Where the code does not do what it is evidently for, the code is kept, a lemma shows a concrete
input, and another says exactly when the intent holds:

- unaligned exact binding: `Binding.UnalignedBreaksTiling`, `Binding.BindExactTiled`
- regions of size 0: `Binding.ZeroSizeBreaksOrder`, `Binding.ZeroSizeOrder`
- the order of the hole list: `Binding.AllocDestroyFragments`, `Spans.PutHoleSorted`,
  `Binding.ExactComplete`; over runs `Layouts.SortedRun`
- address lookup: `Binding.LookupMissesNeighbour`, `Binding.LookupExact`
- images in which a segment with bytes lies behind another: `Elf.AdjacentImage`, `Elf.Load`
- the pages a copy touches: `Mappings.TouchMissesPage`, `Mappings.TouchCoverage`; where the bytes
  of a missed page go: `Regions.WrittenSpills`, `Regions.SpillHarmless`
- the no-execute bit: `Regions.NoExecuteIsLost`
- thread ids: `Scheduling.UnwrittenIdsRunTwice`, `Scheduling.RescheduleExclusive`,
  `Scheduling.UnwrittenIds`
- rotation: `Scheduling.WaitingIsPassedOver`, `Scheduling.OneCpuNeverRotates`,
  `Scheduling.PreemptsExactly`
- removing a thread: `Scheduling.RemoveBreaks`, `Scheduling.RemoveKeeps`
- the start of a heap block: `Heaps.OnePageIsNotFound`, `Heaps.StartFound`
- octal sizes, which lose the first digit and wrap at 2^64: `Initrd.OctDropsFirst`, `Initrd.WholeIffSmall`

`dafny verify dfyconfig.toml` checks all files.

## Model

| member | source | states |
|---|---|---|
| `FrameAllocation.SetBit` | kernel/arch/x86_64/mm/pmm.cpp:25-35 | or-ing a mask in, or and-ing its complement, changes the state of one frame and of no other frame of the bitmap |
| `FrameAllocation.FrameAllocator.BitRead` | kernel/arch/x86_64/mm/pmm.cpp:18-23 | the word test reads the bit of that frame |
| `FrameAllocation.FrameAllocator.BitWrite` | kernel/arch/x86_64/mm/pmm.cpp:25-35 | exactly the frames of the range take the value, every other frame keeps its bit |
| `FrameAllocation.FrameAllocator.IsFree` | kernel/arch/x86_64/mm/pmm.cpp:37-44 | true exactly when the whole range is in the set of free frames |
| `FrameAllocation.FrameAllocator.AllocEx` | kernel/arch/x86_64/mm/pmm.cpp:116-140 | the lowest stride candidate from the memory base whose range is free, NULL exactly when no candidate below the limit is; the range leaves the free set and the count follows |
| `FrameAllocation.FrameAllocator.Alloc` | kernel/arch/x86_64/mm/pmm.cpp:142-144 | the lowest free frame, and no other change; NULL exactly when none is free |
| `FrameAllocation.FrameAllocator.Release` | kernel/arch/x86_64/mm/pmm.cpp:146-150 | the range joins the free set; the free count stays exact if and only if no frame of it was free already |
| `PageTree.OffsAreDigits` | kernel/arch/x86_64/mm/vmm.cpp:21-32 | the four masked offsets are the base-512 digits of the page number |
| `PageTree.OffsRoundTrip` | kernel/arch/x86_64/mm/vmm.cpp:21-43 | splitting a 48-bit address and joining it again gives its page |
| `PageTree.VirtRoundTrip` | kernel/arch/x86_64/mm/vmm.cpp:21-43 | joining four offsets and splitting again gives the offsets |
| `PageTree.EntryRoundTrip` | kernel/arch/x86_64/mm/vmm.cpp:85-102 | an entry made of a frame and flags is present, holds that frame and those flags |
| `PageTree.GetEntryIsLookup` | kernel/arch/x86_64/mm/vmm.cpp:192-211 | vmm_get_entry is the lookup along the page's path of tables |
| `PageTree.SetLeaf` | kernel/arch/x86_64/mm/vmm.cpp:85-121 | writing one leaf entry changes the lookup of that page of that context only; the tables stay a tree |
| `PageTree.HangTable` | kernel/arch/x86_64/mm/vmm.cpp:61-74 | hanging a zeroed table in changes no lookup of any context; no frame becomes reachable by two paths |
| `PageTree.NewRoot` | kernel/arch/x86_64/mm/vmm.cpp:215-225 | a new root maps no user page and changes no other context |
| `Machines.Machine.AllocPhys` | kernel/arch/x86_64/mm/pmm.cpp:152-156 | a zeroed frame that nobody had, now lent and no longer free; 0 exactly when none is free |
| `Machines.Machine.FreePhys` | kernel/arch/x86_64/mm/pmm.cpp:158-161 | the frame is free again; tables, contexts and memory stay as they are |
| `Machines.Machine.GetOrAllocEnt` | kernel/arch/x86_64/mm/vmm.cpp:61-74 | the table at the path, new if there was none; no flat map changes; it fails exactly when a new one is needed and no frame is free |
| `Machines.Machine.PageTable` | kernel/arch/x86_64/mm/vmm.cpp:85-102 | the way down to the page table of an address; succeeds exactly when the missing tables can be allocated, and no flat map changes |
| `Machines.Machine.MapPage` | kernel/arch/x86_64/mm/vmm.cpp:85-102 | one more page in the flat map; succeeds exactly when the missing tables can be allocated, and takes exactly that many frames |
| `Machines.Machine.MapPages` | kernel/arch/x86_64/mm/vmm.cpp:85-102 | the flat map of the context gains the run with its entries, nothing else of any context changes, the tables still read as the flat maps; only spare frames are written, and which frames are spare stays the same |
| `Machines.Machine.EntryIsFlat` | kernel/arch/x86_64/mm/vmm.cpp:192-211 | in every valid state vmm_get_entry equals the flat map, for every user address of every context |
| `Machines.Machine.UnmapPages` | kernel/arch/x86_64/mm/vmm.cpp:104-121 | the pages before the first one without a table are gone and no other page; 1 means all count pages are absent, 0 names the page it stopped at |
| `Machines.Machine.NewContext` | kernel/arch/x86_64/mm/vmm.cpp:215-225 | a context with an empty user half and the kernel's upper 256 entries; all other contexts keep their maps; only spare frames are written |
| `TableRuns.TableStep` | kernel/arch/x86_64/mm/vmm.cpp:85-121 | every map, unmap and creation is a step of the machine of flat maps |
| `TableRuns.RunTables` | kernel/arch/x86_64/mm/vmm.cpp:85-121 | every sequence of maps, unmaps and creations comes to its end if there are three free frames for every page mapped and one for every creation; it is a run of flat maps, and at its end vmm_get_entry agrees with them for every context and user address |
| `TableRuns.FlatRunKeeps` | kernel/arch/x86_64/mm/vmm.cpp:85-121 | in such a run a context keeps its whole user half as long as no call names it |
| `Spans.TiledApart` | kernel/mm/vm.cpp:154-161 | holes and regions that cover every page of the user range once are pairwise disjoint and inside the range |
| `Spans.FindSucc` | kernel/mm/vm.cpp:451-483 | of the spans that start no lower, the one that ends first |
| `Spans.InsertKeepsSorted` | kernel/mm/vm.cpp:225-233 | inserting before that successor keeps the list sorted by base |
| `Spans.PutHoleSorted` | kernel/mm/vm.cpp:235-243 | returning a hole keeps the list sorted if and only if the list is empty or some hole lies above it |
| `Spans.MergeHoles` | kernel/mm/vm.cpp:511-533 | the loop over the list ends and computes the merge |
| `Spans.MergeCovers` | kernel/mm/vm.cpp:511-533 | merging covers every address as often as before, from any position in any list |
| `Spans.MergeSorted` | kernel/mm/vm.cpp:511-533 | merging a sorted list keeps it sorted and leaves no neighbours that touch |
| `Spans.MergeCoalesces` | kernel/mm/vm.cpp:511-533 | on a sorted list one pass leaves no two holes that touch |
| `Binding.FindFreeHole` | kernel/mm/vm.cpp:188-200 | of the holes that are large enough the highest; none exactly when all are too small |
| `Binding.BindTiled` | kernel/mm/vm.cpp:202-223 | replacing a hole by pieces and adding a region keeps the tiling if and only if pieces and region together cover what the hole did |
| `Binding.TopSplits` | kernel/mm/vm.cpp:202-223 | taking the top of a hole splits it exactly |
| `Binding.FindExact` | kernel/mm/vm.cpp:253-260 | the first hole that contains the request, with 64-bit sums |
| `Binding.CarveClean` | kernel/mm/vm.cpp:267-285 | for an aligned request without wrap the four cases leave exactly the parts before and after |
| `Binding.CarveSplits` | kernel/mm/vm.cpp:267-285 | those parts and the region together are the hole |
| `Binding.CarveSpills` | kernel/mm/vm.cpp:267-285 | for any other request some address is covered a wrong number of times |
| `Binding.BindExactTiled` | kernel/mm/vm.cpp:245-291 | exact binding keeps the partition of the user range if and only if the request is page-aligned and does not wrap |
| `Binding.UnalignedBreaksTiling` | kernel/mm/vm.cpp:281-283 | an unaligned request for which it does not |
| `Binding.ExactComplete` | kernel/mm/vm.cpp:253-265 | every free range is granted if and only if no two holes touch |
| `Binding.SortedGrants` | kernel/mm/vm.cpp:245-265 | after merging a sorted list a request is granted if and only if every page of it is free |
| `Binding.AllocDestroyFragments` | kernel/mm/vm.cpp:235-243 | allocate and destroy in a fresh space leave two touching holes unmerged, and a free range across them is refused |
| `Binding.LayoutInsert` | kernel/mm/vm.cpp:202-233 | binding part of a hole keeps the partition and the strict order of the regions |
| `Binding.LayoutRemove` | kernel/mm/vm.cpp:293-300 | unbinding a region and merging keeps them too |
| `Binding.DestroyCoalesces` | kernel/mm/vm.cpp:293-300 | unbinding below the highest hole of a sorted list leaves it sorted with no touching holes |
| `Binding.LookupExact` | kernel/mm/vm.cpp:390-398 | the lookup returns the owner if and only if there is one and no region ends at the address; it finds nothing exactly when neither is the case |
| `Binding.LookupMissesNeighbour` | kernel/mm/vm.cpp:390-398 | two adjacent regions where it returns the wrong one |
| `Binding.ZeroSizeBreaksOrder` | kernel/mm/vm.cpp:202-223 | two regions of size 0 get the same base, so the regions are no longer strictly ordered |
| `Binding.ZeroSizeOrder` | kernel/mm/vm.cpp:202-233 | taking size pages off the top of a hole keeps the regions strictly ordered if and only if size is not 0 or no region starts where the hole ends |
| `Mappings.TouchCoverage` | kernel/mm/vm.cpp:135-152 | the touched pages cover the copy if and only if the offset in the first page plus the size fits them; otherwise the last page alone is missed |
| `Mappings.TouchMissesPage` | kernel/mm/vm.cpp:138-149 | two bytes across a page end, of which one page is touched |
| `Mappings.UnbackedDrops` | kernel/mm/vm.cpp:90-106 | backing a reserved page lowers the count of unbacked pages by one |
| `Mappings.MemoryMapping.constructor` | kernel/mm/vm.cpp:7-11 | size pages, none backed, none reserved |
| `Mappings.MemoryMapping.Allocate` | kernel/mm/vm.cpp:21-29 | every page reserved and unbacked, with the given permissions |
| `Mappings.MemoryMapping.MapTo` | kernel/mm/vm.cpp:31-42 | page i points to address + i pages, backed and not reserved |
| `Mappings.MemoryMapping.Delete` | kernel/mm/vm.cpp:13-19 | exactly the frames of backed reserved pages go back to the allocator |
| `Mappings.MemoryMapping.Touch` | kernel/mm/vm.cpp:90-106 | backs the page with a zeroed frame that was free, exactly when it was unbacked and a frame was free; otherwise nothing changes |
| `Mappings.MemoryMapping.FaultHit` | kernel/mm/vm.cpp:65-88 | panics exactly outside the region; otherwise the result by the page's state, and a page changes only when the result is a remap |
| `Mappings.MemoryMapping.TouchAll` | kernel/mm/vm.cpp:108-117 | backed pages keep their frames, unbacked ones gain distinct zeroed frames, all of them if enough are free |
| `Mappings.MemoryMapping.EnsureLoadStore` | kernel/mm/vm.cpp:135-152 | never touches a page outside the region; backs the touched pages if frames are free; does nothing when the copy ends outside |
| `Copying.CopyIn` | kernel/arch/x86_64/mm/vmm.cpp:504 | a copy into the window succeeds exactly when it fits; each byte of memory becomes the last byte of the data that falls on it and stays when none does |
| `Copying.WrittenByte` | kernel/arch/x86_64/mm/vmm.cpp:504 | when the pages reached lie in different frames every byte of the data is found at its place |
| `Copying.CopyOut` | kernel/arch/x86_64/mm/vmm.cpp:524 | a copy out of the window succeeds exactly when it fits and returns the bytes of those frames |
| `Copying.MappingLoad` | kernel/arch/x86_64/mm/vmm.cpp:492-510 | the data goes to the frames the region's pointers name from the offset on, byte by byte, also where two pages share a frame or a pointer is not page-aligned; every other frame that is not spare stays, all contexts are as before, so the window is empty again; succeeds with three free frames a page if the copy fits, and never if it does not |
| `Copying.MappingStore` | kernel/arch/x86_64/mm/vmm.cpp:512-530 | the bytes of the region's frames from the offset on; every frame that is not spare and every context stays; succeeds with three free frames a page if the copy fits, and never if it does not |
| `Copying.CtxMemcpy` | kernel/arch/x86_64/mm/vmm.cpp:316-363 | the bytes that the source context translates to end up, byte by byte, where the destination context translates to, for every pair of page offsets; both windows are empty afterwards and no other frame changes that is not spare; succeeds with six free frames a page |
| `Regions.NoExecuteIsLost` | kernel/arch/x86_64/mm/vmm.cpp:365-377 | no permissions ever give a no-execute entry; entries with and without execute are the same |
| `Regions.SpaceInsert` | kernel/mm/vm.cpp:202-233 | adding a region with its mapped pages keeps partition, order, table/backing agreement and single ownership of frames |
| `Regions.SpaceRemove` | kernel/mm/vm.cpp:293-326 | removing a region with its mapped pages and its owned frames keeps them |
| `Regions.SpaceGrow` | kernel/mm/vm.cpp:90-117 | giving a region's pages new frames and mapping them keeps them |
| `Regions.GrownBytes` | kernel/mm/vm.cpp:90-106 | a page that gains a zeroed frame reads as it did before it was backed; a page that is pointed at a frame reads as before if that frame was not among those handed out or zeroed |
| `Regions.LoadedBytes` | kernel/mm/vm.cpp:119-125 | after any copy the region, reserved or pointed at frames, reads as the last byte of the data that falls on a place, as before where none does, and as before on pages without a frame |
| `Regions.WrittenSpills` | kernel/arch/x86_64/mm/vmm.cpp:492-510 | the bytes for pages without a frame, whose pointer is 0, land in physical frame 0, the last one on each place |
| `Regions.SpillHarmless` | kernel/arch/x86_64/mm/vmm.cpp:492-510 | frame 0 is as before if and only if the bytes that end up there were there already, and always if every page reached has a frame |
| `Regions.OtherBytes` | kernel/mm/vm.cpp:119-125 | every other region of the space that owns no frame the copy is pointed at reads as before, page by page, but for pages that are pointed at a frame the copy reaches or at a spare one; also when the copy misses a page |
| `Regions.StoredBytes` | kernel/mm/vm.cpp:127-133 | a copy out, of a reserved region or one pointed at frames, returns what the region reads as where its pages have frames, and the bytes of frame 0 where they have none |
| `AddressSpaces.MapRegion` | kernel/mm/vm.cpp:302-313 | the context maps exactly the backed pages of the region, with their pointers and the region's flags |
| `AddressSpaces.UnmapRegion` | kernel/mm/vm.cpp:315-326 | exactly the backed pages of the region leave the context |
| `AddressSpaces.AddressSpace.constructor` | kernel/mm/vm.cpp:154-161 | one hole from vm_user_base to vm_user_end, no region, a context with an empty user half |
| `AddressSpaces.AddressSpace.Put` | kernel/mm/vm.cpp:225-233 | the region goes before its successor |
| `AddressSpaces.AddressSpace.BindHole` | kernel/mm/vm.cpp:202-223 | a new unmapped region in the top pages of the hole, the hole reduced to the rest or gone |
| `AddressSpaces.AddressSpace.BindExact` | kernel/mm/vm.cpp:245-291 | fails exactly when no merged hole contains the request; otherwise the hole is carved in one of the four ways and the region put in order |
| `AddressSpaces.AddressSpace.Allocate` | kernel/mm/vm.cpp:328-341 | a reserved region at the top of the highest hole that is large enough, 0 exactly when there is none; the invariant is kept, nothing of another owner changes, and every region reads as before on pages not pointed at a spare frame |
| `AddressSpaces.AddressSpace.Map` | kernel/mm/vm.cpp:343-356 | the same for a region that points at given frames, which it does not come to own; succeeds with three free frames a page |
| `AddressSpaces.AddressSpace.AllocateAt` | kernel/mm/vm.cpp:358-367 | a reserved region exactly at the base; on a sorted hole list it succeeds if and only if every page is free |
| `AddressSpaces.AddressSpace.MapAt` | kernel/mm/vm.cpp:369-378 | the same for given frames; succeeds with three free frames a page |
| `AddressSpaces.AddressSpace.RegionForAddress` | kernel/mm/vm.cpp:390-398 | the first region whose closed range has the address |
| `AddressSpaces.AddressSpace.FaultHit` | kernel/mm/vm.cpp:400-424 | a fault whose lookup finds the owner is accepted exactly when the page is reserved and unbacked; with a frame free the page, and no other, gets it and becomes translated, and the count of unbacked pages falls by one; no region reads differently on pages not pointed at a spare frame, and nothing of another owner changes; at the end of a region the kernel panics; four free frames are always enough |
| `AddressSpaces.AddressSpace.Touch` | kernel/mm/vm.cpp:426-434 | the page is backed afterwards exactly when it was or a frame was free, no other page changes and no region reads differently on pages not pointed at a spare frame; not survived at the end of a region, and survived elsewhere with four free frames |
| `AddressSpaces.AddressSpace.TouchAll` | kernel/mm/vm.cpp:436-444 | all pages of the region found are backed if frames are free; none loses its frame; no region reads differently on pages not pointed at a spare frame |
| `AddressSpaces.AddressSpace.Load` | kernel/mm/vm.cpp:485-494 | the region found, reserved or pointed at frames in use, reads as the data where its pages have frames and as before elsewhere, the other bytes go to frame 0; every other region reads as before on pages not pointed at a spare frame or one the copy reaches; no other context and no other frame that is neither spare nor the space's own changes; the window is empty again; survived with seven free frames a page if the copy fits, and never if it does not |
| `AddressSpaces.LoadKeeps` | kernel/mm/vm.cpp:485-494 | every frame that is not spare, not the space's own and not one the copy is pointed at, managed by the allocator or not, is unchanged if and only if the bytes for pages without a frame equal those in frame 0 |
| `AddressSpaces.AddressSpace.Store` | kernel/mm/vm.cpp:496-505 | returns what the region found reads as, and the bytes of frame 0 for pages without a frame; no region reads differently afterwards on pages not pointed at a spare frame; survived with seven free frames a page if the copy fits, and never if it does not |
| `AddressSpaces.AddressSpace.UnbindRegion` | kernel/mm/vm.cpp:293-300 | the region's range is put back as a hole and the holes merged |
| `AddressSpaces.AddressSpace.Destroy` | kernel/mm/vm.cpp:380-384 | the region's pages leave the context, its range becomes a hole, each frame it owned is freed once and no other frame, no byte of memory changes, and nothing of another owner |
| `Elf.HoldsKept` | kernel/loader/elf64.cpp:37-56 | a change that keeps every byte, range and permission keeps a loaded segment |
| `Elf.SegmentHeld` | kernel/loader/elf64.cpp:50-55 | a freshly reserved region with the file's bytes copied in holds the segment, and all other regions read as before |
| `Elf.EmptyHeld` | kernel/loader/elf64.cpp:50-55 | a segment without bytes in the file behind another one: the lookup finds the other, of which pages may get frames, the new region reads as zero as it should, and all others as before |
| `Elf.FreshLoadable` | kernel/loader/elf64.cpp:37-56 | a fresh space can take every image with page-aligned, in-range segments that do not overlap |
| `Elf.Load` | kernel/loader/elf64.cpp:28-61 | refuses exactly the files that fail the check; with the frames that `Elf.NeedFor` counts the kernel survives any other if and only if no segment with bytes in the file starts where an earlier one ends, and then each PT_LOAD segment has a region with its permissions that reads as the file below p_filesz and as zero above, the entry point is set, and nothing of another owner changes |
| `Elf.AdjacentImage` | kernel/loader/elf64.cpp:50-55 | a page of code with a page of data behind it: two proper segments that do not overlap and are lost |
| `Layouts.TurnSorted` | kernel/mm/vm.cpp:202-300 | every call keeps the partition of the user range and the strict order of the regions, and the hole list sorted unless a region above all holes is destroyed; on a sorted list an exact request is granted if and only if its pages are free |
| `Layouts.SortedRun` | kernel/mm/vm.cpp:328-384 | over every run in which no destroyed region lies above all holes the hole list stays sorted, so every allocate_at and map_at in it is granted if and only if every page is free |
| `Layouts.TiledRun` | kernel/mm/vm.cpp:328-384 | every run keeps the partition and the order of the regions |
| `Calls.CallIsolated` | kernel/mm/vm.cpp:328-505 | every call leaves the other contexts, the frames of others, and every frame alone that was neither spare nor the space's own, but for those a load is pointed at, and frame 0 where a page has none |
| `Calls.RunIsolated` | kernel/mm/vm.cpp:328-505 | so does every run of calls, for the frames that its loads may have written to together |
| `Calls.TurnLayout` | kernel/mm/vm.cpp:328-505 | each call is a step of the layout machine |
| `Calls.RunLayout` | kernel/mm/vm.cpp:328-505 | the holes and regions of every run of calls are a run of the layout machine, so `Layouts.SortedRun` and `Layouts.TiledRun` hold of it |
| `Calls.OtherSpaceKept` | kernel/arch/x86_64/mm/vmm.cpp:85-121 | whatever is done so in one address space, another keeps its invariant and its frames and, if none of these is among the frames that the loads wrote to, reads as before on every page that is not pointed at a frame that was spare, the first space's, or written by those loads |
| `Runs.Step` | kernel/mm/vm.cpp:328-505 | every public call does to holes, regions, pages, bytes, context, frames and memory what `Calls.CallStep` says of it, keeps the invariant and the frames of backed pages, and is survived unless it hits the end of a region, copies past one, or frames are below the cost stated for it |
| `Runs.Run` | kernel/mm/vm.cpp:328-505 | every sequence of calls is a trace of `Calls.CallTurn` from the first state to the last, each state of which satisfies the invariant; with frames for the sum of the costs it comes to its end; a page once backed keeps its frame while its region lives, so no fault is accepted twice for it |
| `Runs.RoundTrip` | kernel/mm/vm.cpp:485-505 | load and then store at one address and size: when the copied pages have frames, or get them because the touch covers them, the same bytes come back, the region reads as the data there and as before elsewhere, and the other regions as before on pages not pointed at a spare frame or one the copy reaches; in every case the two are a load step and a store step; both succeed with 14 free frames a page if the copy fits |
| `Runs.Faults` | kernel/mm/vm.cpp:400-424 | any faults, but for those at the end of a region, keep a loaded image; with four free frames for each none is fatal, and every address whose lookup finds its owner is translated at the end |
| `Runs.LoadAndFault` | kernel/loader/elf64.cpp:28-61 | an image loaded into a fresh space and then hit by any page faults still reads as the System V gABI, chapter 5 "Program Header", requires of PT_LOAD segments; with the frames of `Elf.Load`, four a fault and one more it is survived if and only if no segment with bytes in the file starts where an earlier one ends, and every resolvable faulted address is then translated |
| `Worlds.OtherKept` | kernel/mm/vm.cpp:328-505 | a call of one of several address spaces leaves each other one with its invariant, with frames that are not the caller's, and, unless the call copies into them through a region pointed at them, with the bytes it reads |
| `Worlds.BystanderKept` | kernel/mm/vm.cpp:328-505 | over any run in which a space makes no call and no other copies into its frames through a region pointed at them, its holes, regions, context and frames stay, and every byte in those frames |
| `Worlds.Join` | kernel/mm/vm.cpp:154-161 | a new address space joins any others: all are valid, and no two share a context, a frame or a region |
| `Worlds.RunAll` | kernel/mm/vm.cpp:328-505 | calls on several address spaces in any order: a trace of `Worlds.WorldTurn` in every state of which each space has its invariant and no two share a context or a frame; with frames for the sum of the costs it comes to its end |
| `Scheduling.NeverOnTwoCpus` | kernel/proc/scheduler.cpp:97-134 | under the one-to-one correspondence two running CPUs never have the same current thread |
| `Scheduling.ChoiceFinds` | kernel/proc/scheduler.cpp:47-72 | for any saved index the two passes find a thread exactly when a listed thread is on no CPU, and pass none by in circular order |
| `Scheduling.EnterExclusive` | kernel/proc/scheduler.cpp:111-128 | entering the thread an id names keeps the correspondence if and only if that thread is on no CPU |
| `Scheduling.RescheduleExclusive` | kernel/proc/scheduler.cpp:97-134 | a timer step keeps the correspondence if and only if nothing waits or the chosen thread's id names a thread that waits |
| `Scheduling.RescheduleKeeps` | kernel/proc/scheduler.cpp:97-134 | with ids equal to keys every timer step on any CPU keeps it |
| `Scheduling.WorkConserved` | kernel/proc/scheduler.cpp:109-133 | a reschedule leaves its CPU idle exactly when every listed thread runs on another CPU, for any saved index; other CPUs' records stay |
| `Scheduling.UnwrittenIdsRunTwice` | kernel/proc/scheduler.cpp:136-145 | with the ids the constructor leaves, two threads and two timer steps put one thread on two CPUs |
| `Scheduling.UnwrittenIds` | kernel/proc/scheduler.cpp:17-21 | with unwritten ids a timer step is safe if and only if nothing waits or thread 0 exists and is on no other CPU |
| `Scheduling.TimerChangesNothing` | kernel/proc/scheduler.cpp:59-62 | a CPU whose thread is at the saved index gets the same thread back |
| `Scheduling.OneCpuNeverRotates` | kernel/proc/scheduler.cpp:59-62 | any number of timer steps in a row on one CPU ends where the first one did, however many threads wait |
| `Scheduling.PreemptsExactly` | kernel/proc/scheduler.cpp:97-134 | a timer step takes a running CPU away from its thread if and only if some thread waits between the saved index and that thread in circular order |
| `Scheduling.WaitingIsPassedOver` | kernel/proc/scheduler.cpp:59-62 | one CPU, two threads: the waiting one is passed over by any number of timer steps |
| `Scheduling.RemoveKeeps` | kernel/proc/scheduler.cpp:147-159 | removing a thread that is on no CPU keeps the correspondence and leaves no trace of it on the list |
| `Scheduling.RemoveBreaks` | kernel/proc/scheduler.cpp:147-159 | removing a thread that is on a CPU always breaks the correspondence |
| `Scheduling.Scheduler.constructor` | kernel/proc/scheduler.cpp:83-91 | the given number of idle CPUs, no threads |
| `Scheduling.Scheduler.GetNextThreadToRun` | kernel/proc/scheduler.cpp:47-72 | the loops compute the circular search and the index it saves |
| `Scheduling.Scheduler.Resched` | kernel/proc/scheduler.cpp:97-134 | the step equals its specification on values and keeps the invariant |
| `Scheduling.Scheduler.Add` | kernel/proc/scheduler.cpp:136-145 | a new key, the thread under it, no other change; the invariant survives if and only if the thread's id is that key |
| `Scheduling.Scheduler.Remove` | kernel/proc/scheduler.cpp:147-159 | any id: the thread leaves map and list, the order of the others stays; the invariant survives if and only if the thread was on no CPU |
| `Scheduling.Scheduler.Start` | kernel/proc/scheduler.cpp:161-165 | a known thread that is not listed joins the end of the list; any other id is not survived |
| `Scheduling.Next` | kernel/proc/scheduler.cpp:97-165 | what each event does to threads, list, CPUs, saved index and next id; every event keeps the one-to-one correspondence of running CPUs and threads |
| `Scheduling.After` | kernel/proc/scheduler.cpp:97-165 | the state that any sequence of events on any number of CPUs leads to satisfies the invariant |
| `Scheduling.NeverTwiceInARun` | kernel/proc/scheduler.cpp:97-165 | in no state of any run is a thread current on two CPUs |
| `Scheduling.Run` | kernel/proc/scheduler.cpp:97-165 | any run of add, run, remove and timer events on the scheduler's own structures ends in exactly the state those events lead to |
| `Heaps.StartFound` | kernel/mm/heap.cpp:60-64 | masking the pointer gives the block's first page if and only if the rounded size is not 0 or 4088 modulo 4096, and the page after it otherwise |
| `Heaps.FreedRange` | kernel/mm/heap.cpp:60-77 | the pages kfree goes through are the block's pages under the same condition; otherwise the first is left out and the guard page taken in |
| `Heaps.OnePageIsNotFound` | kernel/mm/heap.cpp:60-64 | kmalloc(4096) is such a block |
| `Heaps.BlocksApart` | kernel/mm/heap.cpp:13-40 | live blocks share no page, each ends at a page end, and the page after it is in no block and not mapped |
| `Heaps.Heap.KMalloc` | kernel/mm/heap.cpp:13-40 | a block at top of exactly the needed pages, one new frame to each and no other page changed, header words before the pointer, a guard page after it; 0 only when the frames ran out, and then only pages at top have been lost; every old block untouched; succeeds with four free frames a page |
| `Heaps.Heap.KFree` | kernel/mm/heap.cpp:60-77 | unmaps exactly the block's pages and frees exactly their frames, as many as the block has pages; the kernel's assertion on the page count holds |
| `Heaps.Heap.KRealloc` | kernel/mm/heap.cpp:48-58 | to any size: to one no smaller, with four free frames a page, the contents are in the new block, the old block is freed, all other blocks stay and nothing of another owner changes; to a smaller one the copy runs into the guard page and is not survived |
| `Heaps.Heap.CopyWords` | kernel/mm/heap.cpp:48-58 | a copy of words into a block survives if and only if it ends inside the block, and the block then has the words |
| `HeapRuns.HeapStep` | kernel/mm/heap.cpp:13-77 | each call is a turn: kmalloc adds exactly the block at top, its frames and its header, or fails for want of frames; kfree takes away exactly that block, its pages and its frames; a store changes one word |
| `HeapRuns.AllSeparated` | kernel/mm/heap.cpp:13-40 | in every state of a run two live blocks share no page, each ends at a page end, and the page after it is in no block and not mapped |
| `HeapRuns.TurnKeepsWord` | kernel/mm/heap.cpp:13-77 | no call changes a word of a payload but a store to that word through its own block |
| `HeapRuns.RunKeepsWord` | kernel/mm/heap.cpp:13-77 | over any run a word of a block that stays allocated keeps its value until it is stored to |
| `HeapRuns.NeverMappedAgain` | kernel/mm/heap.cpp:13-77 | over any run the top only rises, and a page below it that is not mapped, a guard page or a freed one, never is again |
| `HeapRuns.FreedFaults` | kernel/mm/heap.cpp:60-77 | a page of a block that a run has freed is not mapped in any later state, so that every use after kfree faults |
| `HeapRuns.NeverHandedOutTwice` | kernel/mm/heap.cpp:13-40 | the blocks of two successful kmallocs of a run have a page between them, whether the first has been freed or not |
| `HeapRuns.RunIsolated` | kernel/mm/heap.cpp:13-77 | no run changes another context, another owner's frame or a frame that is neither spare nor the heap's |
| `HeapRuns.RunHeap` | kernel/mm/heap.cpp:13-77 | every run of kmalloc, kfree and writes into payloads is a trace of `HeapRuns.HeapTurn` from the first state to the last, each state of which satisfies the invariant of the heap; with four free frames for every page asked for it comes to its end |
| `Initrd.OctToDecLoop` | kernel/util/initrd.cpp:16-28 | the loop computes the value of the octal digits at the end modulo 2^64, never using the first character |
| `Initrd.OctDropsFirst` | kernel/util/initrd.cpp:16-28 | on octal digits the result is the number modulo 8^(length - 1) and then modulo 2^64, right if and only if the number is below both |
| `Initrd.HeaderReads` | kernel/util/initrd.cpp:44-56 | from a ustar header come its name and its size modulo 8^10 |
| `Initrd.CompareName` | kernel/util/initrd.cpp:44-47 | the comparison with a terminated name in the buffer succeeds exactly for the same name and never runs past the buffer |
| `Initrd.WalkFinds` | kernel/util/initrd.cpp:30-66 | on every archive with sizes below 8^10 the search gives the contents of the first file of the name, or nothing if there is none, without reading outside the buffer |
| `Initrd.WholeIffSmall` | kernel/util/initrd.cpp:30-66 | a file comes back whole if and only if its size is below 8^10 |
| `Initrd.ReadFile` | kernel/util/initrd.cpp:30-66 | ends on every buffer and returns what the search gives; it fails exactly when a comparison, a size field or the contents run past the buffer |
| `Initrd.ShortBuffer` | kernel/util/initrd.cpp:36-42 | a buffer that ends inside a header but after a wrong signature is an archive without the file, not an overrun |
| `Initrd.ReadArchive` | kernel/util/initrd.cpp:30-66 | on an archive: size and bytes of the first file of the name; 0 for none and for an empty file |
| `Initrd.LayoutReadBack` | kernel/util/initrd.cpp:30-66 | laying out any files in the "ustar Interchange Format" of the POSIX.1 pax utility and searching gives them back |
| `FrameStacks.PopKeeps` | kernel/arch/i386/mm/pmm.cpp:40-51 | taking the top frame with count 1 keeps the stack equal to the pool frames with count 0, each once |
| `FrameStacks.PushKeeps` | kernel/arch/i386/mm/pmm.cpp:32-38 | putting back a frame whose count falls to 0 keeps it too |
| `FrameStacks.Counts` | kernel/arch/i386/mm/pmm.cpp:110-120 | entries plus held frames make up the pool, and while a frame is held the stack has a slot for it |
| `FrameStacks.FrameStack.Alloc` | kernel/arch/i386/mm/pmm.cpp:89-95 | a pool frame nobody holds, with count 1 afterwards and off the stack; stops exactly when there is none |
| `FrameStacks.FrameStack.Free` | kernel/arch/i386/mm/pmm.cpp:97-108 | for any address: the last reference puts the frame back, one of several is dropped, anything else changes nothing |
| `FrameStacks.FrameStack.UsedPages` | kernel/arch/i386/mm/pmm.cpp:118-120 | the number of pool frames somebody holds; with the free ones it makes the maximum |
| `FrameStacks.After` | kernel/arch/i386/mm/pmm.cpp:32-120 | the stack and counts that any sequence of calls leads to: the stack has exactly the pool frames with count 0, each once |
| `FrameStacks.CountsInARun` | kernel/arch/i386/mm/pmm.cpp:89-120 | in every state of any run entries plus held frames make up the pool, and the frame an allocation would give has count 0 |
| `FrameStacks.HeldUntilFreed` | kernel/arch/i386/mm/pmm.cpp:89-108 | over any run a frame that has been given is held until a free names it |
| `FrameStacks.NeverGivenTwice` | kernel/arch/i386/mm/pmm.cpp:89-108 | over any run two allocations give the same frame only if a free in between names it |
| `FrameStacks.Run` | kernel/arch/i386/mm/pmm.cpp:89-120 | every sequence of allocations, frees of arbitrary addresses and further references ends in exactly the state those calls lead to and returns the frames they give; it stops exactly at an allocation that finds the stack empty |

## Left out

- Spinlocks and interleavings inside locked sections; a section under a lock is one step.
- `sched_block`, `sched_stop` (they call each other under the lock) and the `resched = 1` path of `sched_resched`.
- `arch_mm_destroy_context`, `~address_space` and `memory_mapping::deallocate`: no run over them is modelled.
- Huge pages, `vmm_update_perms`, the shortcuts for upper-half addresses, the TLB and CR3.
- `pmm_init` on both architectures: every state that satisfies the invariant is a starting state; for i386 the constructor takes the list of available frames.
- `ipc_queue`, `object_group`, the string, formatting and command-line code, and the code for hardware: easier members next to these, or foreign calls.
- MapPages: only 4 KiB pages of the user half; running out of frames in the middle of a run of pages is a crash whose half-made tables are not described.
- NewContext: asks for a free frame, because the code does not look at the result of its allocation.
- AddressSpace.constructor: asks for a free frame, as NewContext does.
- AllocEx: only the first page of a larger range is zeroed by the code; the zeroing is stated where memory is modelled, by AllocPhys, and single-frame allocations are all that the other layers make.
- Release: the range lies within the bitmap, and the count was exact before.
- BitWrite: the range lies within the bitmap.
- FreePhys: only frames that were handed out, which is all the other layers return.
- Allocate: size 0 is excluded, since a region of size 0 can break the order of the list; `Binding.ZeroSizeOrder` says when.
- Map: size 0 is excluded as for Allocate.
- BindHole: size 0 is excluded as for Allocate.
- AllocateAt: the base is page-aligned and the range does not wrap, as `Binding.BindExactTiled` shows to be necessary; the code asserts that base and size are not 0.
- MapAt: the same as AllocateAt.
- Load: the region found fits the copy window, and where the copy reaches pages that are pointed at given frames, these lie in memory and are neither free nor page tables, which the code would overwrite. Copies whose end wraps at 2^64 are excluded.
- Store: the same as Load.
- EnsureLoadStore: copies whose end wraps at 2^64 are excluded.
- CopyIn: the frames a copy reaches hold no page tables, which the code would overwrite.
- CopyOut: the frames a copy reaches hold no page tables, whose bytes are not modelled.
- MappingLoad: the frames a copy reaches lie in memory, hold no page tables and are not free.
- MappingStore: the same as MappingLoad.
- Elf.Load: segments are page-aligned, lie in free ranges of a sorted hole list where no older region ends, and do not overlap; there are seven free frames for each page of a segment with bytes in the file and, for each segment without, for each page of the largest one.
- Runs.Run: a call whose caller breaks an obligation of the source, or which the kernel would not survive, is left out of the run; `Runs.Step` says which those are.
- Worlds.RunAll: calls are left out as in Runs.Run; what Join does to the bytes of regions pointed at spare frames is not described.
- HeapRuns.RunHeap: krealloc is proved for one call and is not among the calls of a run; kfree of a block whose start it does not find is left out.
- RoundTrip: asks for an address that a region owns and at which none ends; Load and Store say what happens at the others.
- CtxMemcpy: the windows hold the copy, the contexts' pages are outside the windows, source and destination frames differ, and none of them holds a page table or is free.
- KMalloc: requests within 4120 bytes of 2^64 wrap in the code and are excluded, as is a heap that has grown up to the copy window; heap contents are kept by virtual address, which is one-to-one with frames.
- KRealloc: sizes as for KMalloc, blocks as for KFree.
- KFree: only blocks whose start it finds; what it does to the others is stated by `Heaps.FreedRange` and not modelled further.
- Add: takes a thread that is on no CPU, as its constructor leaves it. Thread ids do not wrap.
- Start: what becomes of the list after an unknown id or a thread listed twice is not described.
- ReadFile: the sum of block numbers does not wrap at 2^64 (sizes do), the buffer for the copy is always there, and memcmp and strcmp read up to the first difference.
- Retain: stands for a caller that raises the count through `get_page_metadata`; no file of the repository does.
