# FishOS, verified

A Dafny model of the parts of the FishOS kernel that keep linked or packed state in memory and are meant
to behave like something simpler, with proofs that they do. `dafny verify dfyconfig.toml` checks all of it.

- **Kernel heap** (`SizeClass`, `Tiling`, `PairWalk`, `SearchWalk`, `BestFit`, `HeapFrames`, `BuddyAlloc`,
  `HeapRuns`). Headers live in a byte array, little-endian sizes and all; blocks are found only by following `next`. The
  invariant is that the headers tile the heap. Alignment of blocks is not one: the pair walk can merge
  neighbours that are not buddies, and `realloc` frees blocks with unrounded sizes. Which requests succeed is
  a function of the headers at the call. Over whole runs clients see separate byte arrays.
- **Physical pages and page tables** (`Paging`, `Bitmap`, `PageAllocator`, `PageTable`, `Vmm`, `FlatSpaces`,
  `VmmRuns`, `AddressSpace`, `TaskSpace`). A four-level tree of 64-bit words in frames from a bitmap allocator, shown equal
  to a flat map from page number to entry for every root, with upper halves shared between roots. The
  invariant is that no table is reached by two entries, except from equal upper-half slots of different roots;
  it rests on the allocator giving out frames nobody owns. Whole runs refine operations on flat spaces, and
  a new task's space is made by such a run.
- **File system** (`Paths`, `Tree`, `FileSystem`, `Initramfs`, `HashMap`). The string-walking resolver is a fold
  over components, `getcwd` is undone by `chdir`, and the archive loader turns the bytes of an archive into
  exactly the tree it lists, so that packing is undone by loading. Nodes are numbered in the order of creation,
  and a directory's children are a map; the hash map under them refines a multiset, which is a map as long as
  keys are fresh.
- **Scheduler** (`ListHead`, `Schedule`, `Scheduler`). Task records on an intrusive circular list refine steps
  on a queue; bounded waiting, exits and context preservation are proved over runs of ticks, exits and
  arrivals.
- **Keyboard ring and number printer** (`Keyboard`, `Printer`). Under any interleaving of interrupts and
  reader steps the ring is a queue of 255 characters.

Words are unbounded integers; where the width matters a bound is stated and proved or required. Conventions
and assumptions:

- Heap addresses are offsets from the first header. Requests stay below 2^63, and the heap's region holds a
  header. Where the copy of `realloc` would overrun its new block (`SizeClass.CopyFits`), the model stops
  and says so, and clients in `HeapRuns` do not ask for it. Pointers handed to `free` and `realloc` are null,
  outside the heap, or live.
- `split_until` and `find_best` are called with size classes, as their callers in the kernel do.
- Page 0 is taken, since address 0 stands for failure; `init` sees to that if no usable region starts there.
  Usable regions are page-aligned and disjoint, as the boot protocol promises.
- Mapping flags use bits 0 to 11 and 63 only. A range mapped at once wraps neither the address space nor the
  page numbers. Physical memory is read and written through the direct map, so its base drops out except in
  direct faults. Running out of memory is a panic: it ends the operation with a failure result.
- Path strings contain no zero byte. Names entered in a directory are non-empty, without slash or zero byte,
  fresh, and neither `.` nor `..`. `Node::redirect` is null unless `create_dotentries` sets it. The memory
  `getcwd` writes to has at least one byte.
- Archive headers have a terminated name and an octal size followed by a zero byte or filling its field;
  names are spelled with or without a leading `./` and a slash behind them. Parents come before children and
  no path comes twice.
- Each locked section is one step, and the memory the file system needs is available.

Where the code differs from what one might expect, the model follows the code and a member says so: the
search may leave the heap's last block unexamined, so that `malloc` fails with room left
(`SearchWalk.BestIff`, `SearchWalk.LastBlockMissed`); a smaller block may slip by it (`BestFit.BestFitIff`,
`BestFit.SecondSlips`, `BestFit.FirstSlips`, `BestFit.ChoiceSlips`); coalescing may leave two free buddies, so
that a wholly free heap refuses a request (`PairWalk.LeftApart`, `PairWalk.BuddiesLeft`,
`SearchWalk.FreeHeapRefused`); shrinking by `realloc` may overrun the new block
(`BuddyAlloc.Allocator.Realloc`); `fill` ignores its argument and is off by one for sizes that are no multiple of
eight (`Bitmap.Bitmap.Fill`), so that `init` may leave the bit of one unusable page as it was
(`PageAllocator.PageAllocator.constructor`); `alloc_pages` does not find a run across its cursor
(`PageAllocator.PageAllocator.AllocPages`); `addr_to_range` accepts one address too many
(`AddressSpace.CoveredExactly`); addresses that wrap put the stack or a range where the program is
(`AddressSpace.FirstFreeIff`, `AddressSpace.LoadWraps`, `AddressSpace.UserSpace.PartsInOrder`,
`AddressSpace.MmapWraps`), and segments of nearly 2^64 bytes get no pages (`AddressSpace.SegmentCovered`); the
initial stack pointer is the low end of the stack (`AddressSpace.UserSpace.FirstPushMissesStack`); `getcwd` stores
a byte even if the size is 0 (`FileSystem.FileSystem.GetCwd`), and its path for the root is not undone by `chdir`
(`FileSystem.CwdPathLeadsBack`); the archive loader ignores the prefix field of a header, so an entry counts
under its name field alone (`Initramfs.LoadEntry`); a growing insertion is not counted (`HashMap.HashMap.Insert`).

## Model

| member | source | states |
|---|---|---|
| SizeClass.SizeRequired | src/mem/allocator.hpp:17-23 | the doubling loop returns the extent `Req`, characterised by `ReqIsLeastClass` |
| SizeClass.ReqIsLeastClass | src/mem/allocator.hpp:13-23 | the extent is the least 16·2^k that holds the stored size |
| SizeClass.ReqOfClass | src/mem/allocator.cpp:26-31 | rounding leaves a size alone exactly when it is 16·2^k; only then does `init` stay inside the region it is given |
| SizeClass.ReqDoubles | src/mem/allocator.cpp:61 | doubling a stored size doubles the extent exactly for sizes above 8, rounded or not |
| SizeClass.CopyFits | src/mem/allocator.cpp:178 | the copy of `realloc` fits its new block exactly when the block does not shrink across classes |
| Tiling.WalkVisitsBlocks | src/mem/allocator.hpp:33-35 | on a tiled heap following `next` from the first header reaches the tail exactly, meets exactly the blocks, and their extents add up to the heap |
| Tiling.MergeTiled | src/mem/allocator.cpp:60-62 | doubling a block over an equally sized neighbour, true buddy or not, keeps the tiling and removes one block |
| Tiling.SplitTiled | src/mem/allocator.cpp:13-20 | a split step keeps the tiling and adds one block |
| Tiling.SplitRepresents | src/mem/allocator.cpp:13-20 | the three header stores of a split step make memory hold exactly the split tiling and write nowhere outside the block |
| Tiling.HalvedMore | src/mem/allocator.cpp:12-20 | each step of a split leaves half of what is left of the block and goes on with the other half |
| Tiling.RewriteTiled | src/mem/allocator.cpp:136-138 | rewriting a header within its class moves no block boundary |
| PairWalk.SettledToMerge | src/mem/allocator.cpp:98-106 | a merge where the coalescing walk stands does not disturb the pairs it has already passed |
| HeapFrames.MergeQuiet | src/mem/allocator.cpp:60-62 | merging free blocks keeps header and bytes of every used block; the swallowed header stays readable |
| HeapFrames.SplitQuiet | src/mem/allocator.cpp:13-20 | splitting a free block keeps header and bytes of every used block |
| HeapFrames.ClaimKept | src/mem/allocator.cpp:136-138 | claiming a free block keeps header and bytes of every used block |
| HeapFrames.MoveKept | src/mem/allocator.cpp:176-180 | filling a new block and freeing the old one keeps every third used block |
| BuddyAlloc.PositionMerge | src/mem/allocator.cpp:60-68 | a merge during the search never swallows the best block found so far |
| BuddyAlloc.PositionEnd | src/mem/allocator.cpp:49-83 | where the search ends without a block, only an unpaired last block can have been missed |
| PairWalk.CoalescedIff | src/mem/allocator.cpp:91-121 | coalescing leaves a heap as it is if and only if its walk meets no pair to merge |
| PairWalk.LeftApart | src/mem/allocator.cpp:98-116 | in a heap it has finished with, free neighbours of equal size are left exactly where the walk goes past the first of them behind a block no smaller |
| PairWalk.BuddiesLeft | src/mem/allocator.cpp:98-116 | two free buddies left apart on the heap of 256 bytes that malloc(16), `free` and the first search of malloc(240) leave |
| SearchWalk.CandidateFound | src/mem/allocator.cpp:49-83 | the walk of the search finds or betters every large enough free block it starts before, except the last of the heap |
| SearchWalk.FoundIff | src/mem/allocator.cpp:49-83 | the walk finds a block exactly if its merges leave one free and large enough, other than the one it ends at without comparing it |
| SearchWalk.CandidateObtainable | src/mem/allocator.cpp:123-134 | a large enough free block other than the last of the heap is enough for `malloc` |
| SearchWalk.LastBlockMissed | src/mem/allocator.cpp:49-83 | a heap of 128 bytes whose last block would hold the request although both searches fail |
| SearchWalk.BestIff | src/mem/allocator.cpp:38-89 | one search finds a block exactly if a lone free block is large enough or the walk leaves one, other than that it ends at without comparing it |
| SearchWalk.ObtainableIff | src/mem/allocator.cpp:123-134 | malloc and realloc find a block exactly if the heap, or what a failed search and coalescing leave of it, offers one so |
| SearchWalk.FreeHeapRefused | src/mem/allocator.cpp:123-134 | malloc(240) fails on a wholly free heap of 256 bytes, after malloc(16) and `free` |
| SearchWalk.ComparedLeast | src/mem/allocator.cpp:70-76 | exactly when comparing a pair keeps the choice in the least class |
| BestFit.BestFitIff | src/mem/allocator.cpp:49-83 | the search settles on a block of the least class, among those its merges leave and it compares, if and only if none of the blocks that slip is smaller; the three ways a block slips |
| BestFit.OnlySlipped | src/mem/allocator.cpp:49-83 | from any point of the walk on, only blocks no smaller than some slipped one can be smaller than the choice |
| BestFit.SecondSlips | src/mem/allocator.cpp:71-76 | a block of 64 bytes left and one of 128 split for malloc(16), the smaller being the last |
| BestFit.FirstSlips | src/mem/allocator.cpp:71-76 | a block of 64 bytes left and one of 128 split for malloc(48), the second of a pair being preferred |
| BestFit.ChoiceSlips | src/mem/allocator.cpp:60-76 | a block of 64 bytes left and one of 128 split for malloc(16), the choice being merged after it displaced its equal |
| BuddyAlloc.Allocator.constructor | src/mem/allocator.cpp:26-31 | one free block over the whole heap |
| BuddyAlloc.Allocator.SplitUntil | src/mem/allocator.cpp:9-24 | succeeds exactly when the block is large enough, with its last part as a free block of exactly the class asked for; what lies before it is cut into free blocks, each half of what was left, and no other block changes; otherwise nothing changes; used blocks untouched |
| BuddyAlloc.Allocator.Consider | src/mem/allocator.cpp:71-76 | the new best block is a candidate, its class is never larger than the old one, no candidate of the pair is passed over while there is none, and of equals the first of a pair replaces the choice and the second does not |
| BuddyAlloc.Allocator.FindBest | src/mem/allocator.cpp:38-89 | succeeds exactly when `Best` of the heap before is a block, and cuts the block given back from the end of that one; else only the last block of the heap, before the walk or after its merges, could have stored the request; used blocks untouched; terminates |
| BuddyAlloc.Allocator.Pass | src/mem/allocator.cpp:93-116 | leaves the heap `Passed` describes; it strictly lowers the number of blocks, or nothing is left for the walk to merge |
| BuddyAlloc.Allocator.Coalescence | src/mem/allocator.cpp:91-121 | terminates, leaves the heap `Coalesced` describes, only removes block boundaries, and leaves no pair its own walk would merge; used blocks untouched |
| BuddyAlloc.Allocator.Malloc | src/mem/allocator.cpp:123-143 | a new used block of the requested size, every other allocation with its bytes kept; it is cut from the end of the block the successful search settles on, `Best` of the heap at the call or of what a failed search and coalescing leave of it, and the other blocks are what its merges and halvings leave; succeeds exactly when one of the two searches finds one |
| BuddyAlloc.Allocator.Free | src/mem/allocator.cpp:187-198 | the block becomes free with a rounded size, all others kept; null and outside pointers ignored |
| BuddyAlloc.Allocator.Realloc | src/mem/allocator.cpp:145-185 | all branches: null allocates, zero frees, outside pointers give null, same class stays, otherwise the block moves with its whole payload to where `malloc` would have put it; all other allocations kept; on failure the old block is intact; says exactly when the copy would overrun |
| BuddyAlloc.Allocator.Move | src/mem/allocator.cpp:176-180 | the payload arrives whole in the new block and the old block becomes free with its unrounded size |
| HeapRuns.PayloadsDisjoint | src/mem/allocator.cpp:123-143 | live payloads and headers are pairwise disjoint and lie in the heap |
| HeapRuns.Apply | src/mem/allocator.cpp:123-198 | one client request changes the store of byte arrays exactly as `After` says |
| HeapRuns.Run | src/mem/allocator.cpp:123-198 | over every run of malloc, free, growing realloc and client stores, every byte written is read back until overwritten or freed, and blocks given out are fresh |
| Bitmap.StoredBit | src/klib/bitmap.hpp:14-23 | storing a bit of a byte by mask and shift changes that bit alone |
| Bitmap.Bitmap.Set | src/klib/bitmap.hpp:18-23 | exactly one bit of the whole bitmap changes |
| Bitmap.Bitmap.Fill | src/klib/bitmap.hpp:25-31 | what the filling code sets, for every size |
| Bitmap.FillExactIffByteSized | src/klib/bitmap.hpp:25-31 | filling sets exactly the first `size` bits of every bitmap if and only if the size is a multiple of eight |
| Bitmap.FillOffByOne | src/klib/bitmap.hpp:25-31 | for other sizes the first bit of the last byte is left out and the first bit behind all others is set |
| PageAllocator.PageAllocator.InnerAlloc | src/mem/pmm.cpp:69-90 | takes the lowest run of clear pages from the cursor on, or shows there is none; the cursor stops behind the run, or at the limit |
| PageAllocator.PageAllocator.AllocPages | src/mem/pmm.cpp:92-107 | the lowest run from the cursor, else the lowest below it; panics exactly when neither part holds one; sets exactly those bits; the total grows by exactly that many pages; the cursor stops behind the run |
| PageAllocator.LastUsableAttained | src/mem/pmm.cpp:20-25 | the last usable address is the end of a usable region, or 0 |
| PageAllocator.Host | src/mem/pmm.cpp:30-37 | the bitmap is put in the first usable region that is long enough |
| PageAllocator.BitmapBytes | src/mem/pmm.cpp:57-58 | the pages taken back are exactly those that hold one of the bytes of the bitmap |
| PageAllocator.ClearCountSet | src/mem/pmm.cpp:49-52 | setting or clearing one bit moves the number of clear pages by exactly one |
| PageAllocator.PageAllocator.FreeUsable | src/mem/pmm.cpp:38-54 | exactly the bits of usable pages are cleared, and the usable total counts them |
| PageAllocator.PageAllocator.TakeSelf | src/mem/pmm.cpp:57-61 | exactly the bits of the pages under the bitmap are set, and the total goes down with them |
| PageAllocator.PageAllocator.constructor | src/mem/pmm.cpp:17-62 | after `init` a page is free exactly when it lies in a usable region and not under the bitmap, except for one unusable page whose bit filling may miss; the total counts the free pages; page 0 is taken if no usable region starts there |
| PageAllocator.InitBits | src/mem/pmm.cpp:36-61 | filling, freeing and taking back together leave exactly those bits |
| PageTable.MaskedOr | src/mem/vmm.cpp:129 | masked address and flags do not overlap, so joining them adds them |
| PageTable.MakeEntryParts | src/mem/vmm.cpp:129 | an entry gives back the frame it was made from and its flags |
| PageTable.EntryBits | src/mem/vmm.cpp:129 | bit for bit: bits 12 to 51 of an entry are the address’s, all others the flags’ |
| PageTable.FrameBits | src/mem/vmm.cpp:166 | the address read off an entry is its bits 12 to 51 |
| PageTable.RightsOfPage | src/mem/vmm.cpp:111 | no table on a walk takes away a right: a page may be written, executed and used by user code as its own entry says |
| PageTable.WalkIndices | src/mem/vmm.cpp:123-127 | the shifts and masks of the walk select the four nine-bit fields of the page number |
| PageTable.IndicesDetermine | src/mem/vmm.cpp:123-127 | the four indices determine the page |
| PageTable.TableAtInjective | src/mem/vmm.cpp:103-115 | two walks meet in a table only along equal indices, from one root or from roots sharing an upper-half table |
| PageTable.AddTableWellFormed | src/mem/vmm.cpp:108-113 | adding a zeroed frame as a table keeps every table reached by one path |
| PageTable.AddTableTranslate | src/mem/vmm.cpp:108-113 | adding an empty table changes no translation of any root |
| PageTable.SameSlot | src/mem/vmm.cpp:119-127 | two walks end in one last-level entry exactly for the same page, from one root or from roots that share |
| PageTable.SetEntryTranslate | src/mem/vmm.cpp:127-129 | writing a last-level entry changes the flat map at that page, for that root and the roots sharing its table, and nowhere else |
| PageTable.AliasLower | src/mem/vmm.cpp:140-146 | no two roots share a table in the lower half |
| PageTable.CopyUpperTranslate | src/mem/vmm.cpp:140-146 | after the copy the user root translates its upper half as the kernel and its lower half as before, and no other root changes |
| PageTable.KernelViewTranslate | src/mem/vmm.cpp:140-146 | through the slots it shares a root translates as the kernel does, now and after any later change that keeps present top-level entries |
| Vmm.Pagemap.AddrToRange | src/mem/vmm.cpp:170-180 | the first range of the list that covers the address, or none does |
| Vmm.Machine.AllocZeroed | src/mem/pmm.cpp:92-107 | a frame nobody owned, zeroed, all other words unchanged; none only when every page is taken |
| Vmm.Machine.NewRoot | src/sched/sched.cpp:66-68 | a new top-level table that translates nothing; all else unchanged |
| Vmm.Machine.NextLevel | src/mem/vmm.cpp:103-115 | follows or adds a table one level down without changing any translation |
| Vmm.Machine.LeafTable | src/mem/vmm.cpp:121-125 | the three level steps arrive at the page’s own last-level table; only the root’s entry for it can change at the top level; failure only if a table was missing and every page is taken |
| Vmm.Machine.MapPage | src/mem/vmm.cpp:117-131 | exactly a one-point update of the flat page-number-to-entry map, to the frame and the flags asked for; the page no longer counts as faulted in |
| Vmm.Machine.MapPages | src/mem/vmm.cpp:133-138 | exactly the update of a contiguous range of the flat map, to consecutive frames with the flags asked for; of its first pages where memory runs out |
| Vmm.Machine.MapKernel | src/mem/vmm.cpp:140-146 | the upper half becomes the kernel’s, nothing else changes, and present kernel slots are shared from then on |
| Vmm.Machine.MapFresh | src/userland/elf.cpp:47-51 | a page of its own: a frame nobody owned, mapped with the flags asked for by a one-point update and zeroed |
| Vmm.Machine.PhysicalAddr | src/mem/vmm.cpp:157-167 | the address of the mapped frame, with no translation changed although tables may be added |
| Vmm.Machine.HandlePageFault | src/mem/vmm.cpp:183-214 | fills exactly the faulting page and only if it had no present entry: from the first covering range, with its flags, by a zeroed frame nobody owned or by the page at the address less the direct map’s base, on 64 bits; records exactly the pages faulted in; otherwise no translation changes |
| Vmm.LowerUpdateIsPrivate | src/mem/vmm.cpp:117-131 | a mapping in the lower half of one address space is seen by no other |
| Vmm.DemandPrivate | src/mem/vmm.cpp:199-205 | two demand-faulted pages in one frame are one page |
| FlatSpaces.NewSpaceUpperHalf | src/mem/vmm.cpp:140-146 | a new space starts with the kernel’s upper half |
| FlatSpaces.UpperHalfStep | src/mem/vmm.cpp:117-214 | an event keeps the upper half of a space the kernel’s if and only if its store reaches both or neither, or writes what is there |
| FlatSpaces.UpperHalfKept | src/mem/vmm.cpp:140-146 | while every store goes to the lower half or below a shared slot, a space sees the kernel’s upper half |
| VmmRuns.AgreesWritten | src/mem/vmm.cpp:117-131 | a written entry is a one-point change of the flat spaces that share its table |
| VmmRuns.AgreesNew | src/mem/vmm.cpp:140-146 | a copied root is a new flat space with the kernel’s upper half, sharing exactly the slots where the kernel has tables |
| VmmRuns.AgreesPrivate | src/mem/vmm.cpp:199-205 | no two pages of their own lie in one frame, unless they are one page of a shared table |
| VmmRuns.ApplyTouch | src/mem/vmm.cpp:183-214 | one fault has an outcome allowed on the flat spaces and acts on them accordingly |
| VmmRuns.MakeSpace | src/sched/sched.cpp:66-70 | a new address space has the kernel’s upper half and an empty lower half; nothing older changes |
| VmmRuns.Interleave | src/mem/vmm.cpp:117-214 | over any interleaving of new spaces, mappings, fresh pages, reservations, faults and queries the page tables hold exactly the flat spaces of a run that follows the operations, up to a panic, which comes only with every page taken; shared slots show the same pages and no two pages of their own share a frame |
| AddressSpace.Load | src/userland/elf.cpp:28-75 | the addresses the loader maps and the first free one, on 64 bits; that lies behind every mapped page exactly if the sums do not wrap |
| AddressSpace.SegmentCovered | src/userland/elf.cpp:42-49 | every byte of a segment lies in a page mapped for it, also for unaligned segments, if and only if the page count does not wrap |
| AddressSpace.LoadsAll | src/userland/elf.cpp:28-49 | the addresses mapped are exactly those of all segments |
| AddressSpace.NoPageToSpare | src/userland/elf.cpp:42-49 | every page mapped for a segment holds a byte of it, unless the segment is empty and not aligned |
| AddressSpace.PageFlags | src/userland/elf.cpp:34-40 | the flags make a page present and open to user code, writable and executable exactly as asked |
| AddressSpace.UserSpace.constructor | src/sched/sched.cpp:75-83 | the stack starts at the first free address and `mmap` behind it, on 64 bits |
| AddressSpace.UserSpace.Mmap | src/mem/vmm.cpp:216-243 | refused exactly without private anonymous flags; otherwise a page-aligned range right behind all others, listed first, with the rights asked for, as long as asked for exactly if rounding does not wrap |
| AddressSpace.FirstFreeIff | src/userland/elf.cpp:64-75 | the first free address lies behind every mapped page if and only if no sum on the way to it reaches 2^64 |
| AddressSpace.LoadWraps | src/userland/elf.cpp:64-65 | a segment in the last page sends the free address back to 0, and the stack behind the next segment |
| AddressSpace.UserSpace.PartsInOrder | src/sched/sched.cpp:75-83 | program, stack and ranges lie one behind the other if and only if together they end by 2^64 |
| AddressSpace.UserSpace.RangesResolve | src/mem/vmm.cpp:170-180 | every address of every range resolves to that range if and only if the ranges end before 2^64 |
| AddressSpace.MmapWraps | src/mem/vmm.cpp:230-241 | a long `mmap` wraps and the next one is put where the program is |
| AddressSpace.UserSpace.FirstPushMissesStack | src/sched/sched.cpp:77 | the initial stack pointer is the low end of the stack, so the first push lies in none of its pages, also where it wraps |
| TaskSpace.MapsRun | src/userland/elf.cpp:46-66 | over any run that maps fresh pages in a space exactly those pages change, there and where their tables are shared, each to a page of its own with the flags it got last |
| TaskSpace.TaskFlags | src/sched/sched.cpp:74-83 | stack pages may be written and not executed, a page of the program may be used as the last segment that has it says |
| TaskSpace.NewUserTask | src/sched/sched.cpp:63-83 | the new space is the kernel’s upper half, an empty lower half, and exactly the pages of program and stack, each with the rights of its segment or of the stack in a frame of its own; other spaces change only below shared slots |
| AddressSpace.RangesDisjoint | src/mem/vmm.cpp:230-241 | different ranges share no page |
| AddressSpace.AddressResolves | src/mem/vmm.cpp:170-180 | an address in a half-open range resolves to that range despite the inclusive comparison |
| AddressSpace.CoveredExactly | src/mem/vmm.cpp:177 | an address is covered exactly from the first base up to and including the end of the newest range |
| Paths.ComponentsJoin | src/fs/vfs.cpp:55-79 | splitting undoes joining any components with slashes, dots and empty ones among them, unless nothing lies behind the last slash |
| Paths.ComponentsJoinSlash | src/fs/vfs.cpp:57-62 | a slash behind joined components adds none |
| Paths.JoinComponents | src/fs/vfs.cpp:55-79 | every path is its components joined, with or without a slash behind them |
| Paths.TrailingSlash | src/fs/vfs.cpp:57-62 | one slash at the end of a path adds no component |
| Tree.ResolveIsFold | src/fs/vfs.cpp:38-82 | the target of the resolver is the fold of child lookup over the components; a missing last component names its directory |
| Tree.ResolveStops | src/fs/vfs.cpp:38-82 | wherever the search stops, at a missing component, at a file or at the end, the result is the directory, what it found there and the component, or nothing for a file |
| Tree.StepCases | src/fs/vfs.cpp:93-100 | `.` stays, `..` goes to the parent and stays at the root, a name goes to the child of that name |
| Tree.DotsCancel | src/fs/vfs.cpp:32-82 | deleting `.` and cancelling `name/..` reaches the same node on every path whose steps resolve |
| Tree.NormalForm | src/fs/vfs.cpp:32-82 | what is left has no `.`, and `..` only in front |
| Tree.CancelIff | src/fs/vfs.cpp:93-100 | a name followed by `..` leads back exactly if it names a directory |
| Tree.RootStays | src/fs/vfs.cpp:96 | any number of `..` at the root stays at the root |
| Tree.AddedWellFormed | src/fs/tmpfs.cpp:4-25 | entering a fresh file or directory keeps the tree well formed |
| Tree.AddedFold | src/fs/tmpfs.cpp:4-25 | the new node is found under exactly its own named path and every other named path leads where it led |
| Tree.PathUnique | src/fs/vfs.cpp:93-100 | a node has one named path |
| FileSystem.FileSystem.PathToNode | src/fs/vfs.cpp:38-82 | the loop over the path string returns the resolver’s result for its components, including all failures |
| FileSystem.FileSystem.Create | src/fs/tmpfs.cpp:4-25 | the tree with exactly the new node, and the two dot nodes of a directory |
| FileSystem.FileSystem.Read | src/fs/tmpfs.cpp:27-39 | -1, nothing, a partial or a full read, with the bytes of the file and the rest of the buffer untouched |
| FileSystem.FileSystem.Write | src/fs/tmpfs.cpp:41-49 | the written bytes at the offset, all other old bytes kept, the size grown only as needed |
| FileSystem.FileSystem.GetCwd | src/fs/vfs.cpp:226-252 | prints the path from the root, as much as fits and one byte even for size 0; fails exactly when the path is not shorter than the size |
| FileSystem.FileSystem.ChDir | src/fs/vfs.cpp:254-271 | changes to the directory the split path leads to, and reports a missing node or a file without changing |
| FileSystem.CwdPathLeadsBack | src/fs/vfs.cpp:226-271 | the printed path is names behind one slash each and resolves to its directory, for every directory but the root, whose path is a slash and resolves to nothing |
| FileSystem.GetThenChange | src/fs/vfs.cpp:226-271 | `getcwd` into a zeroed buffer and `chdir` to the string found there return to every directory but the root |
| Initramfs.OctalToBin | src/fs/initramfs.cpp:7-14 | the value of the octal digits before the zero byte or the end of the field |
| Initramfs.OctalRoundTrip | src/fs/initramfs.cpp:7-14 | reading a size written in octal digits gives the size |
| Initramfs.NewPath | src/fs/initramfs.cpp:32-34 | the search for a fresh entry fails at its last name in the directory it belongs to |
| Initramfs.LoadedLists | src/fs/initramfs.cpp:31-50 | what is listed after loading is what was listed before, unchanged, and each entry, a file with its payload and a directory as one |
| Initramfs.EntryOrEnd | src/fs/initramfs.cpp:18-20 | the loader finds a header exactly while entries remain |
| Initramfs.LoadEntry | src/fs/initramfs.cpp:31-50 | one entry enters the listing with its payload, whichever way its name is spelled |
| Initramfs.LoadInto | src/fs/initramfs.cpp:16-55 | the resolvable named paths become exactly those before plus those of the archive; every entry’s path leads to a directory or to a file with the payload byte for byte |
| Initramfs.LoadRoot | src/kernel.cpp:164 | after loading into the fresh root exactly the archive’s named paths resolve, to its directories and its files with their payloads |
| Initramfs.LoadAndRead | src/fs/initramfs.cpp:16-55 | reading a file of the archive by its path after loading gives its payload |
| Initramfs.PackIsArchive | src/fs/initramfs.cpp:16-55 | packing entries makes an archive of exactly those entries, so that loading gives them back |
| HashMap.ProbeReaches | src/klib/hashmap.hpp:61-62 | the probe sequence reaches every slot |
| HashMap.EmptySlotExists | src/klib/hashmap.hpp:61-68 | a used count below the capacity leaves an empty slot |
| HashMap.HashMap.Place | src/klib/hashmap.hpp:61-68 | the entry goes to the first empty slot of the probe sequence |
| HashMap.HashMap.Insert | src/klib/hashmap.hpp:58-70 | adds exactly one entry, growing at most once; a growing insertion leaves the count one too low |
| HashMap.HashMap.Grow | src/klib/hashmap.hpp:43-56 | doubles the capacity, keeps the multiset of entries, drops erased slots, and never nests |
| HashMap.HashMap.Get | src/klib/hashmap.hpp:72-82 | succeeds exactly when the key is present, with the value of the first entry under it in the probe sequence |
| HashMap.HashMap.Erase | src/klib/hashmap.hpp:84-94 | removes all entries with the key and no others |
| HashMap.InsertFreshKey | src/klib/hashmap.hpp:58-70 | insertion keeps the contents a map if and only if the key is fresh |
| ListHead.ListHead.Add | src/klib/list.hpp:19-24 | inserts behind this head in the circle in both directions |
| ListHead.ListHead.AddBefore | src/klib/list.hpp:27-32 | inserts before this head; before the first head that is the end of the sequence |
| ListHead.ListHead.Remove | src/klib/list.hpp:35-40 | takes this head out of the circle and unlinks it |
| Schedule.TickNears | src/sched/sched.cpp:188-194 | a tick brings every queued task one place nearer, and picks it exactly at distance one |
| Schedule.ExitCosts | src/sched/sched.cpp:161-169 | an exit may restart the queue but lowers the waiting measure of every other task |
| Schedule.ArrivalCosts | src/sched/sched.cpp:57-58 | an arrival uses up the allowance for one more task in the waiting measure |
| Schedule.BoundedWaiting | src/sched/sched.cpp:161-211 | a task that stays queued is picked within n(n+1)/2 ticks, n counting the tasks queued and arriving, whatever exits happen |
| Schedule.GoneForGood | src/sched/sched.cpp:161-169 | a task that has left the queue is never picked again, whatever arrives |
| Schedule.ContextPreserved | src/sched/sched.cpp:181-206 | a task resumes with exactly the registers, code segment and bases saved at its last interruption, a kernel task with its own address for a base, at once or after whatever ran, exited and arrived in between |
| Scheduler.Scheduler.LinksPick | src/sched/sched.cpp:188-194 | the list links lead to exactly the task the abstract step picks |
| Scheduler.Scheduler.FollowLinks | src/sched/sched.cpp:188-194 | the next task by the list links is the one the abstract step picks, none exactly for an empty queue |
| Scheduler.Scheduler.Isr | src/sched/sched.cpp:178-211 | the interrupt refines one tick; what it found is saved for the interrupted task, and the next task goes on with what is saved of it; it panics exactly when no task is queued |
| Scheduler.Scheduler.DequeueAndDie | src/sched/sched.cpp:161-169 | refines the exit of the current task: it leaves the queue, and waits on the processor for the next interrupt |
| Scheduler.Scheduler.NewTask | src/sched/sched.cpp:41-61 | refines the arrival of a task at the end of the queue, or only its creation |
| Keyboard.RingPut | src/ps2/kbd/keyboard.cpp:87-90 | storing at the write index appends to the ring’s characters |
| Keyboard.RingTake | src/ps2/kbd/keyboard.cpp:107-111 | advancing the read index removes the first of them |
| Keyboard.Keyboard.Irq | src/ps2/kbd/keyboard.cpp:58-98 | an interrupt at any point of the reader acts as on a queue: modifiers, capitals, and one character appended unless the ring is full |
| Keyboard.Keyboard.ReaderStep | src/ps2/kbd/keyboard.cpp:105-117 | poll, load and advance as separate steps act as on that queue |
| Keyboard.AfterSound | src/ps2/kbd/keyboard.cpp:58-117 | every event keeps delivered and waiting characters together equal to the accepted ones, and ends a call at a newline or with its last character |
| Keyboard.ReadsLine | src/ps2/kbd/keyboard.cpp:105-117 | a call that finds a whole line, or all it asks for, in the ring returns exactly that after three steps for each character, whatever interrupts come in between |
| Keyboard.NothingDropped | src/ps2/kbd/keyboard.cpp:81-91 | exactly the keystrokes are accepted if and only if none comes while the ring is full |
| Keyboard.ModifiersOfRun | src/ps2/kbd/keyboard.cpp:54-77 | after any run a shift key acts exactly if it was pressed and not released since, and the lock if it was released an odd number of times |
| Keyboard.KeyTypes | src/ps2/kbd/keyboard.cpp:58-91 | a key press types a character exactly if the key has one, a letter as a capital exactly if just one of these holds: the lock was released an odd number of times, a shift key is down |
| Keyboard.Interleave | src/ps2/kbd/keyboard.cpp:58-117 | every interleaving ends in the state the queue reaches by the same events; the delivered characters are an initial part of the accepted ones, in order |
| Printer.NumDigits | src/klib/cstdio.cpp:7-11 | one less than the number of digits |
| Printer.ShiftedZero | src/klib/cstdio.cpp:7-11 | dividing k times leaves nothing exactly when k digits are enough |
| Printer.PrintNumber | src/klib/cstdio.cpp:76-122 | the digits have the value as positional value, are as many as the larger of the padding and the minimum, in the case asked for, and are all counted |

## Left out

- BuddyAlloc.Allocator.FindBest: that the block chosen is the best fit is not stated, because it does not hold; what is stated is which block is chosen, and in `BestFit.BestFitIff` exactly when it is the best fit.
- BuddyAlloc.Allocator.Coalescence: full merging is not stated, because it does not hold; what is stated is the heap left, that its own walk finds nothing in it to merge, and in `PairWalk.LeftApart` exactly which neighbours are left.
- BuddyAlloc.Allocator.Realloc: what an overrunning copy leaves in memory is not modelled, because the headers behind it are lost; what is stated is exactly when it happens.
- Tree.DotsCancel: paths with steps that do not resolve are left out, because their normal form may resolve; `Tree.CancelIff` says for one name and `..` exactly when.
- FileSystem.FileSystem.Create: a node without a parent is made only as the root, by the constructor.
- AddressSpace.Load: only which addresses are mapped and the first one behind them; `TaskSpace.NewUserTask` maps them. Copying segment contents and reading headers from the file are not modelled.
- TaskSpace.NewUserTask: the kernel stack, whose frames are mapped by the direct map only, and the order in which frames are taken and the contents copied in are not modelled.
- The keyboard's table of characters is a constant, of which nothing is stated; the echo of accepted characters is not modelled.
- Printer.PrintNumber: the parsing of format strings, the `0x` prefix and string arguments are not modelled.
- `free_pages`: its loop bound moves with its own counter, and nothing calls it.
- `vmm::init`: its calls of `map_pages` for each memory region; `activate`, TLB flushes and `cr3`.
- Task creation beyond scheduling, address space and contexts; file descriptors; the copying of the register frame is one assignment.
- Data written through mapped pages by running programs.
- Destruction of hash maps, `for_each`, string duplication, the driver registry.
- ACPI, APIC, HPET, PIT, PIC, GDT and IDT setup, framebuffer, terminal, assembly stubs, spinlocks, and the userspace programs.
