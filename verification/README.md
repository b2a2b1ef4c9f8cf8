# exscapeOS in Dafny

A model of the state-keeping core of exscapeOS, a 32-bit hobby kernel written in C, with proofs
about it. Each component of the kernel is a Dafny module in its source's own form: objects whose
fields the kernel updates are classes, loops are loops, and each method is proved against a
specification over plain values; what the kernel promises is then proved about that specification.

| files | component |
|---|---|
| `OrderedArray.dfy`, `HeapTags.dfy`, `HeapSteps.dfy`, `Heap.dfy` | the kernel heap: boundary tags in byte-addressed memory, two indexes, splitting, page-aligned carving, coalescing, expansion and contraction |
| `Pmm.dfy` | the frame bitmap with its search hint |
| `Areas.dfy`, `Vmm.dfy` | user address spaces: areas, pages and frames, cloning, sbrk, stack growth |
| `List.dfy`, `Scheduler.dfy` | the doubly linked list and the ring scheduler over it |
| `Fpu.dfy` | lazy FPU switching through the TS bit |
| `Md5Block.dfy`, `Md5.dfy`, `Md5Words.dfy`, `Md5Known.dfy` | the MD5 block transform and the streaming context against RFC 1321, what its word operations mean in numbers, bits and bytes, and a known digest |
| `Files.dfy`, `Pipe.dfy` | descriptors and reference counts across tasks, pipe lifetime, the pipe's ring buffer |
| `PathSpec.dfy`, `Path.dfy` | lexical path normalisation in character buffers |
| `Nethandler.dfy` | packet slots shared by an interrupt handler and a worker |
| `Time.dfy` | `kern_mktime` against the closed form of POSIX |
| `Ext2.dfy`, `Ext2Map.dfy` | reading direct and indirect blocks down to the bytes on the disk, and when the result is the file |

`dafny verify dfyconfig.toml` checks the whole project.

## How the model is set up

- Addresses, sizes and counters are integers; 32-bit wrap-around is written out where the source
  can reach it (heap requests and heap growth, bitmap searches,
  sbrk in both directions, tick counts, the MD5 bit count, calendar time), and so is
  the narrower width of the fields of a broken-down time.
- An assertion or panic of the source is either a precondition or an `ok` result that is false:
  the run stops there. Where it matters the contract says exactly when that happens.
- Heap memory maps byte addresses to the four-byte field stored there; a store destroys whatever
  it overlaps. Client data is assumed not to look like a tag.
- Interrupt-disabled and mutex-protected sections are single steps. For the packet slots the
  interrupt handler may run between any two steps of the worker.
- Memory returned by the allocator to other components is a fresh identity; the clock, the disk
  and the caller's memory are parameters.
- Where the code and its evident intent differ, the code is modelled as it is, and the exact
  condition under which it does what is meant is proved: wrapped pipe transfers, `dup2` of a
  descriptor onto itself, the descriptor slot past the counted range, paths of full length,
  out-of-range times, missing ext2 index blocks, decreases of the break that wrap around, wakeup
  ticks past the end of the counter, heap requests that wrap around and heap growth near max_address,
  registers that fninit does not reset, readers that race for the last byte of a pipe, files whose
  index blocks are counted as data, and hints that put off the turn of the other tasks.
- In `Md5Block.dfy` sums of more than two words are grouped as in the source; addition modulo 2^32
  is associative, so this is the sum of the standard.


## Model

| member | source | states |
|---|---|---|
| OrderedArrays.InsertedSorted | src/kernel/ordered_array.c:46-76 | insertion keeps a sorted index sorted, for every strict weak order |
| OrderedArrays.InsertedElements | src/kernel/ordered_array.c:46-76 | insertion adds the item once and changes nothing else; an index without duplicates stays so |
| OrderedArrays.WithoutFirstElements | src/kernel/ordered_array.c:112-120 | removing an item takes away one occurrence and leaves the order of the others |
| OrderedArrays.OrderedArray.Insert | src/kernel/ordered_array.c:46-76 | the array holds the old contents with the item before the first element not less than it |
| OrderedArrays.OrderedArray.Shift | src/kernel/ordered_array.c:46-76 | the loop that makes room moves every later element up by one place and loses none |
| OrderedArrays.OrderedArray.IndexOf | src/kernel/ordered_array.c:78-87 | the first position of an item, or -1 exactly when it is absent |
| OrderedArrays.OrderedArray.Remove | src/kernel/ordered_array.c:101-109 | the element at a position goes, the later ones move down by one |
| OrderedArrays.OrderedArray.RemoveItem | src/kernel/ordered_array.c:112-120 | the first occurrence goes; an absent item leaves the array as it was |
| HeapTags.OwnerUnique | src/kernel/heap.c:211-245 | no address lies in two areas of a tiling |
| HeapTags.LeftNeighbour | src/kernel/heap.c:681-688 | every area but the first has an area that ends where it starts, the one its left footer leads to |
| HeapTags.NoHeaderAtEnd | src/kernel/heap.c:716-718 | nothing at the end address looks like a header, so the check for a right neighbour is right at the end of the heap |
| HeapTags.HeaderFound | src/kernel/heap.c:604-633 | among the three bytes after a header nothing else looks like a header, so the backward search stops at the right one |
| HeapTags.Retile | src/kernel/heap.c:411-602 | rewriting the tags of one range of areas, with everything else untouched, keeps the whole heap tiled and tagged |
| HeapSteps.AllocPlain | src/kernel/heap.c:546-570 | taking a hole from its start, with or without a split, keeps tiling, tags and the absence of stray headers |
| HeapSteps.AllocCarved | src/kernel/heap.c:490-510 | skipping to a page boundary by making the skipped part a free area keeps them |
| HeapSteps.AllocShifted | src/kernel/heap.c:511-539 | giving a skipped part too small for an area to the left neighbour keeps them |
| HeapSteps.Merge | src/kernel/heap.c:681-752 | joining two adjacent areas into one free area keeps them |
| HeapSteps.GrowLast | src/kernel/heap.c:443-459 | extending the last free area into new room keeps them |
| HeapSteps.AddLast | src/kernel/heap.c:460-476 | a new free area after a used last one keeps them |
| HeapSteps.ShrinkLast | src/kernel/heap.c:757-795 | cutting the last free area short and unmapping what follows keeps them |
| HeapSteps.Relabel | src/kernel/heap.c:664-668 | changing the free flag in a header keeps them |
| KernelHeap.PointerFacts | src/kernel/heap.c:572-579 | the returned pointer is the first dword boundary after the header, and the page boundary when the header was placed for one |
| KernelHeap.LiveInside | src/kernel/heap.c:411-602 | a live payload is dword-aligned, inside the heap, between the tags of its own area and clear of the tags of every other |
| KernelHeap.LiveDisjoint | src/kernel/heap.c:411-602 | two live payloads never overlap, are dword-aligned, inside the heap and at least a footer and a header apart |
| KernelHeap.AllocSeparated | src/kernel/heap.c:490-602 | after an allocation no two free areas are adjacent |
| KernelHeap.AllocGranted | src/kernel/heap.c:490-602 | an allocation adds one used area of at least the requested payload and keeps all other live areas |
| KernelHeap.MergeRightSeparated | src/kernel/heap.c:716-752 | after the right merge no two free areas are adjacent |
| KernelHeap.MergeLeftSeparated | src/kernel/heap.c:681-714 | after the left merge only the right neighbour may still be an adjacent free area |
| KernelHeap.StoreConsistent | src/kernel/heap.c:411-420 | a client that writes inside its own payload cannot disturb the heap |
| KernelHeap.SmallestWhenSorted | src/kernel/heap.c:248-291 | the first fitting hole in index order is a smallest fitting one whenever the index is sorted by size |
| KernelHeap.OthersStay | src/kernel/heap.c:482-570 | taking part of a hole leaves every other area as it was, but for a left neighbour that takes over the bytes skipped, and makes no free area outside the hole |
| KernelHeap.GrownTwice | src/kernel/heap.c:424-480 | over both expansions only a free last area may grow, and new areas are free |
| KernelHeap.GrowthFacts | src/kernel/heap.c:294-345 | an expansion covers the request, is a whole number of pages and grows with the request |
| KernelHeap.ExpandSums | src/kernel/heap.c:294-345 | of the 32-bit sums of heap_expand: its assertions hold exactly when start and growth do not wrap around and the end neither does so nor has got to max_address already |
| KernelHeap.CappedMore | src/kernel/heap.c:294-345 | where a request stops heap_expand, a larger one does |
| KernelHeap.HoldsRequest | src/kernel/heap.c:411-602 | an allocation has room for the bytes asked for if and only if their sum with the overhead is below 2^32 |
| KernelHeap.WrappedRequest | src/kernel/heap.c:411-420 | a request for 0xffffffff bytes gets 22 bytes of any hole of 58 or more, tags and all, and no room for even 3 |
| KernelHeap.Heap.constructor | src/kernel/heap.c:800-869 | a new heap is one free area behind the two indexes, and no allocation is live |
| KernelHeap.Heap.FindSmallestHole | src/kernel/heap.c:248-291 | finds a free area that fits, alignment loss included, exactly when there is one; the smallest such if the index is sorted |
| KernelHeap.Heap.CreateArea | src/kernel/heap.c:211-245 | header and footer of an area, and the rightmost area moves only to the right |
| KernelHeap.Heap.Occupy | src/kernel/heap.c:546-570 | a hole becomes a used area and, if enough is left, a free one behind it; both indexes follow |
| KernelHeap.Heap.SkipToPage | src/kernel/heap.c:490-544 | the part before the page boundary becomes a free area or goes to the left neighbour |
| KernelHeap.Heap.GiveToLeft | src/kernel/heap.c:511-531 | the left neighbour grows by the skipped bytes, its footer moves and the old footer is erased |
| KernelHeap.Heap.Reserve | src/kernel/heap.c:482-544 | the hole leaves the free index and the place of the new area is settled |
| KernelHeap.Heap.Carve | src/kernel/heap.c:482-570 | both indexes, the tags and the rightmost area after a hole was taken, page alignment included |
| KernelHeap.Heap.Place | src/kernel/heap.c:482-602 | every branch of an allocation keeps the whole invariant and adds exactly one live allocation, aligned as asked, cut from the given hole at its start or its first page boundary: what is needed, or all of it when less than a split is left; every other area stays, but for the left neighbour of the skipped bytes; it stops exactly when the new area would not exceed its own tags |
| KernelHeap.Heap.SplitOff | src/kernel/heap.c:546-560 | the rest of a hole becomes a free area, in the index, with the front left clear |
| KernelHeap.Heap.Expand | src/kernel/heap.c:294-345 | with 32-bit sums, the heap grows by the rounded, at least minimal, growth or to the last page below max_address, and exactly when it stops; it stays within max_address if and only if the growth fits behind the old end or would not even fit behind the start |
| KernelHeap.Heap.MakeRoom | src/kernel/heap.c:424-476 | after an expansion the last area is free and holds exactly the new room beside what it held; it stops exactly when heap_expand does |
| KernelHeap.Heap.Grow | src/kernel/heap.c:424-480 | each expansion leaves room for the retry, which asks for more, unless it had to stop at max_address; a third is never needed |
| KernelHeap.Heap.ExtendLast | src/kernel/heap.c:443-459 | the last free area takes the new room |
| KernelHeap.Heap.AppendArea | src/kernel/heap.c:460-476 | a new last free area takes the new room |
| KernelHeap.Heap.Alloc | src/kernel/heap.c:411-602 | at most two expansions, and none while some hole fits; the result is new, aligned, and cut from one hole of the heap as it stands after them, a smallest fitting one when there was no expansion and the index is sorted: what is needed plus the overhead of each retry, or all of the hole when less than a split is left; every other area stays; looking for more than the tags, it stops only without a hole and when the retries ask for more than the heap can grow by, and surely when heap_expand does |
| KernelHeap.Heap.Kmalloc | src/kernel/heap.c:877-943 | for every 32-bit size, zero included: what is returned has room for the request if and only if size plus overhead is below 2^32; its area is at least what is needed and less than a split more; and the promises of heap_alloc about hole, expansions and the other areas hold |
| KernelHeap.Heap.FindArea | src/kernel/heap.c:604-633 | for a live pointer the backward search of at most three bytes finds exactly the area that was allocated for it |
| KernelHeap.Heap.Release | src/kernel/heap.c:664-714 | the area leaves the used index and is joined with a free left neighbour |
| KernelHeap.Heap.JoinLeft | src/kernel/heap.c:689-701 | two areas side by side, the left one free, become one free area of their joint size; no tag is left inside it and nothing else changes |
| KernelHeap.Heap.JoinRight | src/kernel/heap.c:722-743 | two areas side by side become one free area of their joint size; no tag is left inside it and nothing else changes |
| KernelHeap.Heap.MergeRight | src/kernel/heap.c:716-752 | the area is joined with a free right neighbour, which leaves the free index; the rightmost area follows |
| KernelHeap.Heap.Contract | src/kernel/heap.c:348-399 | small amounts are not given back; otherwise the heap ends at the next page, never below its initial size, and what lies behind is unmapped |
| KernelHeap.Heap.TrimTail | src/kernel/heap.c:757-795 | the invariant survives contraction, used areas stay, the heap ends exactly where heap_contract says, and a free last area is left smaller than the contraction threshold |
| KernelHeap.Heap.Free | src/kernel/heap.c:635-798 | freeing a live pointer removes exactly that allocation, leaves the areas of all others as they were and keeps the invariant, if and only if it is not past max_address; any other pointer outside the heap changes nothing |
| KernelHeap.Heap.ClientStore | src/kernel/heap.c:411-420 | a client store inside its own payload keeps the invariant |
| PhysicalMemory.SetBit | src/kernel/pmm.c:27-35 | setting a bit of a bitmap dword sets that bit and no other |
| PhysicalMemory.ClearBit | src/kernel/pmm.c:38-46 | clearing a bit of a bitmap dword clears that bit and no other |
| PhysicalMemory.FullWord | src/kernel/pmm.c:221-246 | a dword equals 0xffffffff exactly when all 32 of its frames are used |
| PhysicalMemory.HintSound | src/kernel/pmm.c:221-246 | full dwords below the hint mean that no frame below it is free |
| PhysicalMemory.HintAdvances | src/kernel/pmm.c:250-267 | moving the hint to a new lowest frame keeps every dword below it full |
| PhysicalMemory.FreeFramesChange | src/kernel/pmm.c:323-376 | taking or returning one frame changes the number of free frames by exactly one |
| PhysicalMemory.NoneFree | src/kernel/pmm.c:323-376 | the count of free frames is zero exactly when no frame is free |
| PhysicalMemory.Pmm.constructor | src/kernel/pmm.c:117-126 | at first every frame counts as used |
| PhysicalMemory.Pmm.SetFrame | src/kernel/pmm.c:27-35 | one free frame becomes used, all others stay |
| PhysicalMemory.Pmm.ClearFrame | src/kernel/pmm.c:38-46 | one used frame becomes free, all others stay |
| PhysicalMemory.Pmm.FirstFreeFrame | src/kernel/pmm.c:221-246 | the lowest free frame from the dword before the start address on, or none |
| PhysicalMemory.Pmm.Alloc | src/kernel/pmm.c:250-267 | the lowest free frame of all complete dwords, zeroed; it fails exactly when none is free |
| PhysicalMemory.Pmm.Free | src/kernel/pmm.c:314-319 | one frame becomes free and the hint is dropped |
| PhysicalMemory.Pmm.AllocContinuous | src/kernel/pmm.c:270-312 | a run that is returned was free before and is exactly what was taken; from the lowest free frame on it is found exactly when the search that starts again behind each used frame ends on a run whose first frame is free too, and it is that run |
| PhysicalMemory.Pmm.FindRun | src/kernel/pmm.c:276-302 | a candidate run lies below the end of memory and every frame of it but the first is free; it is found exactly when the search settles on one, and is that one |
| PhysicalMemory.Pmm.SetRun | src/kernel/pmm.c:304-307 | the run is taken frame by frame, exactly when all of it was free |
| PhysicalMemory.Pmm.CheckRun | src/kernel/pmm.c:292-300 | one pass over a candidate: it stands, or the search goes on behind its first used frame and still settles on the same run |
| PhysicalMemory.RunAtOnce | src/kernel/pmm.c:276-302 | when the frames behind the lowest free one are free, the search settles there at once |
| PhysicalMemory.Pmm.BytesFree | src/kernel/pmm.c:323-349 | the page size times the number of clear bits |
| PhysicalMemory.Pmm.BytesUsed | src/kernel/pmm.c:351-376 | the page size times the number of set bits |
| VmAreas.CoveredOnce | src/kernel/vmm.c:66-106 | a page lies in at most one area |
| VmAreas.StoreArea | src/kernel/vmm.c:66-106 | storing a vacant range keeps the areas disjoint and aligned, and adds exactly its pages with its access right |
| VmAreas.Shortened | src/kernel/vmm.c:108-140 | an area cut short covers what it did below the cut |
| VmAreas.ContainingOnly | src/kernel/vmm.c:118-123 | among disjoint areas the search for an address stops at the only one that contains it |
| VirtualMemory.FrameMappedOnce | src/kernel/vmm.c:351-375 | no frame is mapped twice, within one address space or across several, and every mapped frame is in use |
| VirtualMemory.Vmm.constructor | src/kernel/vmm.c:428-447 | with no address space, ownership holds |
| VirtualMemory.Vmm.MapNew | src/kernel/vmm.c:351-375 | maps a fresh zeroed frame, exactly when the page is unmapped and a frame is free |
| VirtualMemory.Vmm.FreePage | src/kernel/vmm.c:298-302 | the page is unmapped and exactly its frame is returned |
| VirtualMemory.Vmm.AllocUser | src/kernel/vmm.c:143-162 | all pages of the range become mapped to fresh frames, exactly when none was mapped and enough frames are free; areas, pages and frame count still agree |
| VirtualMemory.Vmm.FreeRange | src/kernel/vmm.c:129-134 | exactly the pages of the range go and their frames are returned |
| VirtualMemory.Vmm.ResizeArea | src/kernel/vmm.c:108-140 | the first area that contains the address shrinks to the new end, returning exactly the pages cut off, or grows by storing the missing range; it panics exactly when an area visited ends there already, a page in the way is mapped or frames are short |
| VirtualMemory.ResizedEnd | src/kernel/vmm.c:123-128 | after growth the area ends at the new end if and only if no earlier area with the same right starts there, which would take the new range instead |
| VirtualMemory.Vmm.Shrink | src/kernel/vmm.c:129-135 | exactly the pages past the new end go |
| VirtualMemory.Vmm.Destroy | src/kernel/vmm.c:164-183 | each frame of the task is returned once, no other frame changes, and the other address spaces stay |
| VirtualMemory.Vmm.FreeArea | src/kernel/vmm.c:170-177 | the pages of one more area go |
| VirtualMemory.Vmm.CopyPage | src/kernel/vmm.c:210-220 | a new frame with the same contents and flags |
| VirtualMemory.Vmm.ClonePage | src/kernel/vmm.c:204-224 | one page of the parent more is copied, if it is there and a frame is free |
| VirtualMemory.Vmm.Clone | src/kernel/vmm.c:187-256 | the child has the same pages with equal contents and flags in frames nobody owned, an equal area list and the parent's own kernel page tables; it succeeds exactly when enough frames are free |
| VirtualMemory.Vmm.CopyKernelTables | src/kernel/vmm.c:196-202 | the loop over the directory entries carries over all tables of kernel space, unchanged |
| VirtualMemory.Vmm.Store | src/kernel/vmm.c:187-256 | a write by one task is invisible at every other page of every address space |
| VirtualMemory.Vmm.SetGuard | src/kernel/vmm.c:316-337 | only the present and guard bits of one page change |
| VirtualMemory.Vmm.PlaceGuard | src/kernel/vmm.c:316-333 | the guard page is recorded where it was set |
| VirtualMemory.Vmm.CreateUserMm | src/kernel/vmm.c:428-447 | a new user stack of zeroed pages whose lowest page is its only guard page, mapped from there to its top; no page of another task changes |
| VirtualMemory.Vmm.SetBreak | src/kernel/elf.c:353-358 | with nothing mapped between image and stack, the layout of heap below and stack above holds once the initial break is recorded |
| VirtualMemory.Vmm.CopyArguments | src/kernel/elf.c:129-156 | the arguments get new zeroed pages at the break, exactly those, and the heap starts behind them, above the recorded initial break; every other page keeps frame, flags and contents; the layout survives if and only if they end below the stack limit |
| VirtualMemory.Vmm.FinishLoad | src/kernel/elf.c:353-369 | a program starts with the layout, an empty heap, and its initial break below the start of the heap; exactly the pages in between are new, and every other page keeps frame, flags and contents; loading succeeds exactly when there are enough frames |
| VirtualMemory.Vmm.MoveBreak | src/kernel/vmm.c:486-514 | only the break changes |
| VirtualMemory.Vmm.Sbrk | src/kernel/vmm.c:458-518 | the break moves to the rounded new value, modulo 2^32 on a decrease; exactly the pages between are added, zeroed, or unmapped, and every other page of every task keeps its frame, its flags and its contents; the heap stays mapped in one area and apart from the stack if and only if a decrease does not wrap, or wraps to below the stack limit in a task that has a heap; exactly when growing and shrinking panic |
| VirtualMemory.Vmm.GrowHeap | src/kernel/vmm.c:476-492 | growth, with 32-bit sums, succeeds exactly below the limit and with enough frames; it adds exactly the pages up to the new break, zeroed and writable, and changes no other page |
| VirtualMemory.Vmm.ShrinkHeap | src/kernel/vmm.c:493-517 | a decrease goes through exactly when one heap page stays, the initial break is respected and, where it wraps around, the resize it then asks for succeeds; exactly the pages from the new break on go, and the others keep frame, flags and contents |
| VirtualMemory.RemapResized | src/kernel/vmm.c:108-140 | which pages a resize of the heap adds and which it removes, also for a break that wrapped around |
| VirtualMemory.ResizedHeap | src/kernel/vmm.c:493-517 | after the resize the layout holds if and only if the break went down, or went up to below the stack limit from a heap that is not empty |
| VirtualMemory.WrappedDecrease | src/kernel/vmm.c:493-517 | a freshly loaded task that decreases its break by 0x7ffff000 has it moved up, with nothing mapped |
| VirtualMemory.Vmm.GrowStack | src/kernel/vmm.c:739-769 | the stack grows exactly on a guard-page fault below its limit with enough frames; exactly the pages below the old guard page are new and zeroed, its lowest page is again the only guard page, and every other page keeps frame, flags and contents |
| VirtualMemory.Vmm.ExtendStack | src/kernel/vmm.c:757-769 | the pages of the extension and the two flags that move the guard page down |
| VirtualMemory.SbrkGrown | src/kernel/vmm.c:476-492 | growing keeps heap and stack apart and the heap in one area |
| VirtualMemory.SbrkShrunkLayout | src/kernel/vmm.c:493-517 | shrinking keeps the layout |
| VirtualMemory.StackGrown | src/kernel/vmm.c:757-769 | growing the stack keeps the layout and moves the only guard page |
| LazyFpu.SeenAt | src/kernel/fpu.c:34-61 | in every run, an instruction starts from what the same task's previous one left, and a task's first from fninit of what the instruction just before left, whichever task that was |
| LazyFpu.SeenAlone | src/kernel/fpu.c:34-61 | in any view of the registers that fninit resets and the instructions respect, one task's part of a run shows it what it would see alone on the machine |
| LazyFpu.PrivateIsAlone | src/kernel/fpu.c:34-61 | so it is for every task of the run at once |
| LazyFpu.AloneExactly | src/kernel/fpu.c:34-61 | every run from boot shows every task the whole registers as if alone if and only if fninit resets all of them |
| LazyFpu.XmmSeen | src/kernel/fpu.c:45-51 | fninit leaves XMM registers alone, so a task that first uses the FPU sees xmm0 as another task left it, but none of that task's x87 words |
| LazyFpu.Cpu.constructor | src/kernel/fpu.c:11-32 | no task has used the FPU yet, and TS is set |
| LazyFpu.Cpu.SwitchTask | src/kernel/task.c:919-951 | after a switch TS is set exactly when the new task is not the last FPU user |
| LazyFpu.Cpu.DeviceNotAvailable | src/kernel/fpu.c:34-61 | the trap gives the current task its own registers, or on first use fninit of the registers as they stand, and loses no other task's |
| LazyFpu.Cpu.Execute | src/kernel/fpu.c:34-61 | an FPU instruction sees exactly what the same task's previous one left; the first one, fninit of what the last user left |
| LazyFpu.Cpu.Run | src/kernel/fpu.c:34-61 | any run of switches and instructions gives each task registers of its own from its first instruction on; in any view that fninit resets and the instructions respect, each task sees what it would see alone |
| LinkedList.RingDistance | src/kernel/list.c:449-475 | every other position of a ring is reached in fewer steps than its size, in one way |
| LinkedList.RingCompose | src/kernel/list.c:449-475 | steps round the ring add up |
| LinkedList.List.constructor | src/kernel/list.c:119-131 | a new list is empty |
| LinkedList.List.Prepend | src/kernel/list.c:59-117 | a new first node; all links, head, tail and count agree |
| LinkedList.List.Append | src/kernel/list.c:167-223 | a new last node; all links agree |
| LinkedList.List.Splice | src/kernel/list.c:240-268 | a new node between two neighbours; head and tail stay |
| LinkedList.List.InsertBefore | src/kernel/list.c:226-269 | the new datum stands just before the node |
| LinkedList.List.InsertAfter | src/kernel/list.c:272-314 | the new datum stands just after the node |
| LinkedList.List.RemoveNode | src/kernel/list.c:316-345 | exactly the node goes and its neighbours are linked |
| LinkedList.List.Unlink | src/kernel/list.c:323-329 | the links around the node close |
| LinkedList.List.FindFirst | src/kernel/list.c:373-392 | the first node with the datum, or none exactly when it is absent |
| LinkedList.List.FindLast | src/kernel/list.c:394-413 | the last node with the datum, or none exactly when it is absent |
| LinkedList.List.RemoveFirst | src/kernel/list.c:415-430 | the first occurrence goes; the result says whether there was one |
| LinkedList.List.RemoveLast | src/kernel/list.c:432-447 | the last occurrence goes; the result says whether there was one |
| LinkedList.List.FindNext | src/kernel/list.c:449-475 | the nearest node after the given one, once round the list, that satisfies the predicate; none exactly when no other node does |
| LinkedList.List.Copy | src/kernel/list.c:133-165 | a copy of every datum in new nodes; the original stays as it was |
| LinkedList.WithoutFirstAt | src/kernel/list.c:415-430 | removing the first occurrence leaves what stands before and after it |
| LinkedList.WithoutLastAt | src/kernel/list.c:432-447 | removing the last occurrence leaves what stands before and after it |
| Scheduling.Scheduler.TaskSwitch | src/kernel/task.c:985-1069 | the next state is the one of the specification: hint, execve, wake-up and ring search; a hinted task is current and the hint gone, and a pending execve keeps the current task; the call stops the machine exactly when an assertion of the source fails |
| Scheduling.Scheduler.PickAndSwitch | src/kernel/task.c:1025-1069 | the task chosen is the nearest one in the ring that can run, else the current one, else the idle task |
| Scheduling.Scheduler.WakeSleepers | src/kernel/task.c:1010-1023 | exactly the queued sleepers whose tick has come become runnable |
| Scheduling.Scheduler.SwitchTask | src/kernel/task.c:910-969 | a task that was waking up is running once it is switched to |
| Scheduling.Scheduler.SetNextTask | src/kernel/task.c:978-982 | the hint is recorded and its task can run |
| Scheduling.HintTaken | src/kernel/task.c:993-1002 | a call with a hint switches to the task hinted, wakes it if it slept, forgets the hint, and leaves every other task, the queue and the rest as they were |
| Scheduling.HintedRuns | src/kernel/task.c:978-1002 | the task that set_next_task names is current after the next call, and can run |
| Scheduling.ExecveTaken | src/kernel/task.c:1004-1008 | after execve the current task goes on for one call, only the flag changes, and the call after that searches |
| Scheduling.SearchChanges | src/kernel/task.c:1010-1069 | a search wakes exactly the queued sleepers that are due, turns the task it switches to from waking up to running, and changes nothing else of any task |
| Scheduling.Scheduler.Sleep | src/kernel/task.c:1082-1106 | at least one tick, and otherwise the whole ticks in the time asked for, with 32-bit tick arithmetic |
| Scheduling.SleepKept | src/kernel/task.c:1010-1106 | a search before the ticks asked for have passed leaves the sleeper asleep if and only if the wakeup tick did not wrap around or the count has wrapped too; else it wakes at once |
| Scheduling.SleepLasts | src/kernel/task.c:1010-1106 | over every run within the ticks asked for, the sleeper is never picked, as long as the wakeup tick does not wrap around |
| Scheduling.SearchIsNearest | src/kernel/task.c:971-976 | the list search with the running predicate finds the nearest queued task that can run |
| Scheduling.Progress | src/kernel/task.c:985-1069 | one call brings the turn of a task that can run strictly nearer |
| Scheduling.BoundedWaiting | src/kernel/task.c:985-1069 | with a fixed queue of N tasks, no hint and no pending execve, a task that can run is current within N - 1 calls, whatever the others do |
| Scheduling.BoundedWaitingAfterExit | src/kernel/task.c:1030-1035 | one call more when the current task has left the queue |
| Scheduling.MixedStep | src/kernel/task.c:985-1069 | a search brings the turn of a task that can run nearer, a hint moves it to the hinted task, and an execve leaves it |
| Scheduling.BoundedWaitingWithHints | src/kernel/task.c:985-1069 | with h hints of queued tasks and e pending execves in the run, a task that can run is current within (h + 1) * (N - 1) + e calls |
| Scheduling.BoundedWaitingAnyHints | src/kernel/task.c:985-1069 | within (h + 1) * N + e calls when a hinted task, or the one current at first, is off the queue |
| Scheduling.BoundedWaitingNotBack | src/kernel/task.c:985-1069 | within N - 1 + h + e calls when no hint moves the turn of the task further away |
| Scheduling.NoSooner | src/kernel/task.c:985-1069 | the first of these bounds is exact: for all N, h and e there is a run one call short of it in which a task that can run never gets its turn |
| Scheduling.OneCallPerHint | src/kernel/task.c:993-1008 | N - 1 + h + e calls are enough for every run if and only if there are at most two queued tasks or no hint |
| Scheduling.SleeperNotPicked | src/kernel/task.c:1010-1069 | a call before its wakeup tick neither wakes nor picks a sleeper |
| Scheduling.SleeperSleepsOn | src/kernel/task.c:1010-1069 | over every run before its wakeup tick a sleeper is never picked |
| Scheduling.SleeperWakes | src/kernel/task.c:1015-1023 | the first search at or after the tick makes a queued sleeper runnable |
| Scheduling.IdleOnlyWhenNothingRuns | src/kernel/task.c:1037-1053 | a search ends on a task that can run if and only if a queued task can run, and otherwise on the idle task |
| Md5Block.SelectionIdentities | src/userspace/md5/md5.c:125-131 | the four macros are the functions F, G, H and I of section 3.4 of RFC 1321 |
| Md5Words.ValueIs | src/userspace/md5/md5.c:134-135 | a word stands for the number whose binary digits are its bits |
| Md5Words.AddIs | src/userspace/md5/md5.c:134-135 | addition of words is addition of numbers modulo 2^32 |
| Md5Words.RotateIs | src/userspace/md5/md5.c:134-135 | bit k of a word rotated left by s places is bit k - s, modulo 32, of the word, for every shift |
| Md5Words.SelectionBits | src/userspace/md5/md5.c:125-131 | in each bit position F chooses by X, G by Z, H is the parity, and I is as section 3.4 of RFC 1321 says |
| Md5Block.Advance | src/userspace/md5/md5.c:134-135 | one MD5STEP is one operation of the standard, with the roles of the four words rotated |
| Md5Block.Round1 | src/userspace/md5/md5.c:151-166 | the sixteen steps of round 1 are operations 0 to 15 of the standard |
| Md5Block.Round2 | src/userspace/md5/md5.c:168-183 | the sixteen steps of round 2 are operations 16 to 31 of the standard |
| Md5Block.Round3 | src/userspace/md5/md5.c:185-200 | the sixteen steps of round 3 are operations 32 to 47 of the standard |
| Md5Block.Round4 | src/userspace/md5/md5.c:202-217 | the sixteen steps of round 4 are operations 48 to 63 of the standard |
| Md5Block.Transform | src/userspace/md5/md5.c:142-223 | the block transform is the compression of the standard |
| Md5.PaddedLength | src/userspace/md5/md5.c:94-117 | padding fills whole 64-byte blocks |
| Md5.PaddingInjective | src/userspace/md5/md5.c:94-117 | two messages shorter than 2^61 bytes with the same padded form are equal |
| Md5.BitCount | src/userspace/md5/md5.c:44-51 | the two-word bit count with its carry is eight times the length modulo 2^64 |
| Md5.Context.Init | src/userspace/md5/md5.c:25-34 | an empty message in the initial state |
| Md5.Context.Update | src/userspace/md5/md5.c:40-80 | the context stands for the old message followed by the new bytes, whatever the piece's length |
| Md5.Context.Count | src/userspace/md5/md5.c:44-51 | the bit count follows the message length |
| Md5.Context.TopUp | src/userspace/md5/md5.c:55-67 | a begun block is completed and hashed |
| Md5.Context.Absorb | src/userspace/md5/md5.c:68-79 | whole blocks are hashed and the rest is kept |
| Md5.Context.Finish | src/userspace/md5/md5.c:86-122 | the digest is that of RFC 1321 for the whole message, and the context is cleared |
| Md5Known.BytesAt | src/userspace/md5/md5.c:120-120 | a digest holds the words A to D in this order, each with its lowest byte first |
| Md5Known.InitialBytes | src/userspace/md5/md5.c:25-34 | the initial words are the bytes that section 3.3 of RFC 1321 lists |
| Md5Known.WordsAt | src/userspace/md5/md5.c:60-72 | byte 4 * i + j of a block is byte j of its word i |
| Md5Known.WordsInvert | src/userspace/md5/md5.c:60-72 | decoding a block gives back the sixteen words it was made of |
| Md5Known.LengthAt | src/userspace/md5/md5.c:115-117 | the padding ends with the length in bits as a 64-bit number, its lowest byte first |
| Md5Known.EmptyMessage | src/userspace/md5/md5.c:25-122 | the digest of the empty message, computed operation by operation, is the first entry of the test suite in section A.5 of RFC 1321 |
| Md5.DigestOf | src/userspace/md5/md5.c:40-122 | for every way of cutting a message into pieces the digest is that of the concatenation |
| OpenFiles.PutCounted | src/kernel/vfs.c:572-581 | filling a free descriptor and counting it keeps every count equal to the number of descriptors |
| OpenFiles.PutNew | src/kernel/vfs.c:41-55 | a new file behind a free descriptor has count one |
| OpenFiles.ClearCounted | src/kernel/vfs.c:443-453 | clearing a descriptor lowers the count, and the file goes exactly at zero |
| OpenFiles.CloseKeepsPipes | src/kernel/pipe.c:248-282 | closing an end keeps each end pointer set exactly while that end exists, and frees the pipe exactly with the last end |
| OpenFiles.FileLifetime | src/kernel/vfs.c:431-456 | a file exists exactly while some descriptor refers to it |
| OpenFiles.PipeLifetime | src/kernel/pipe.c:248-282 | an end pointer is set exactly while a descriptor refers to that end, and the pipe lives as long as either |
| OpenFiles.ForkDone | src/kernel/task.c:643-652 | the counts after fork are right if and only if the descriptor past the counted range is free |
| OpenFiles.DropTable | src/kernel/task.c:171-184 | freeing a table leaves the counts right if and only if that descriptor is free |
| OpenFiles.FileTable.Close | src/kernel/vfs.c:431-456 | the descriptor is cleared, counts, files and pipes stay right; an unopened one gives EBADF and changes nothing |
| OpenFiles.FileTable.PipeClose | src/kernel/pipe.c:248-282 | the closed end is dropped with its last descriptor, and the pipe with its last end, once |
| OpenFiles.FileTable.Drop | src/kernel/vfs.c:444-453 | the count goes down and the file is freed once, at zero |
| OpenFiles.FileTable.LowestFree | src/kernel/vfs.c:572-581 | the lowest free descriptor |
| OpenFiles.FileTable.NewFilp | src/kernel/vfs.c:41-55 | a new file at the lowest free descriptor, or a stop exactly when there is none |
| OpenFiles.FileTable.Open | src/kernel/ext2.c:943-1025 | an opened file has the lowest descriptor and count one; a missing file gives ENOENT and a file in place of a directory ENOTDIR, with everything as it was; it stops exactly when no descriptor is free, or only the one that cannot be given back |
| OpenFiles.MadePipe | src/kernel/pipe.c:29-51 | two new ends behind two free descriptors, tied to one new pipe, leave every count and every end pointer right |
| OpenFiles.FileTable.MakePipe | src/kernel/pipe.c:17-69 | two new ends at the two lowest free descriptors; it stops exactly when there are fewer than two |
| OpenFiles.FileTable.Dup | src/kernel/vfs.c:561-586 | the lowest free descriptor shares the file; EBADF and EMFILE leave everything as it was |
| OpenFiles.FileTable.Dup2 | src/kernel/vfs.c:588-614 | the second descriptor is closed and shares the first one's file; a freed file is left referenced exactly when both are the same descriptor and the file's only one |
| OpenFiles.FileTable.Share | src/kernel/vfs.c:607-610 | one more descriptor for a file, counted |
| OpenFiles.FileTable.CountCopies | src/kernel/task.c:646-652 | every copied descriptor below the limit is counted |
| OpenFiles.FileTable.Fork | src/kernel/task.c:643-652 | the child has the parent's descriptors; the invariant holds afterwards if and only if the parent's last slot is free |
| OpenFiles.FileTable.DestroyTask | src/kernel/task.c:171-184 | all of the task's descriptors go; the invariant holds afterwards if and only if its last slot was free |
| OpenFiles.FileTable.CreateTask | src/kernel/task.c:516-553 | an empty table, or one with three files of its own for a user task |
| PipeRing.TakeFront | src/kernel/pipe.c:111-124 | what a copy out of the ring takes is the front of the queue |
| PipeRing.AddBack | src/kernel/pipe.c:207-218 | what a copy into the ring stores is added at the back of the queue |
| PipeRing.ReadExact | src/kernel/pipe.c:111-143 | a read takes min(count, available) bytes, and at most count, if and only if it need not wrap or all is asked for |
| PipeRing.ReadTooMuch | src/kernel/pipe.c:134-143 | a read of two bytes that wraps can deliver three |
| PipeRing.WriteExact | src/kernel/pipe.c:207-237 | a first pass stores exactly count bytes if and only if they fit without wrapping or fill the ring |
| PipeRing.WriteTooMuch | src/kernel/pipe.c:228-237 | a write of two bytes that wraps can store three |
| PipeRing.FirstPassIsContiguous | src/kernel/pipe.c:207-237 | a first pass stores one stretch of the caller's memory |
| PipeRing.FirstInFirstOut | src/kernel/pipe.c:80-246 | over every interleaving of locked sections, what was read followed by what is left is what was there followed by what was stored |
| PipeRing.StopsExactly | src/kernel/pipe.c:100-109 | the machine stops exactly when a read finds the pipe empty under the lock, having seen bytes before |
| PipeRing.OneReaderGoesOn | src/kernel/pipe.c:100-109 | with one reader that never happens |
| PipeRing.TwoReaders | src/kernel/pipe.c:100-109 | of two readers that both saw the one byte there is, the second stops the machine |
| PipeRing.Ring.constructor | src/kernel/pipe.c:32-43 | a new pipe is empty |
| PipeRing.Ring.CopyOut | src/kernel/pipe.c:111-132 | the oldest bytes go out in order and the read position wraps |
| PipeRing.Ring.Read | src/kernel/pipe.c:106-161 | the bytes returned are exactly the oldest, in order, and are removed |
| PipeRing.Ring.CopyIn | src/kernel/pipe.c:207-224 | the bytes are added at the back and the write position wraps |
| PipeRing.Ring.WritePass | src/kernel/pipe.c:205-243 | each chunk stored is added at the back |
| PipeRing.Ring.WriteOnce | src/kernel/pipe.c:180-245 | the first pass of a write is the whole write, with nothing between its bytes, if and only if the room seen before the lock is still there; and when it stores exactly count bytes |
| PipeRing.Ring.Perform | src/kernel/pipe.c:106-243 | one locked section does to the ring what it does to the queue, and stops exactly when it should |
| PipeRing.Ring.Run | src/kernel/pipe.c:80-246 | any sequence of locked sections does to the ring what it does to the queue, up to where the machine stops |
| PathSpec.ComponentsOk | src/lib/string.c:237-256 | components are non-empty and hold no slash |
| PathSpec.CollapsedLength | src/lib/path.c:64-65 | a collapsed path is never longer than the path |
| PathSpec.EndsInSlash | src/lib/path.c:51-68 | a collapsed path starts with a slash, and ends with one only if it is the root |
| PathSpec.RenderRoundTrip | src/lib/path.c:51-68 | the stack of names can be read back from the path that names it |
| PathSpec.CollapsedTwice | src/lib/path.c:51-68 | collapsing is idempotent |
| PathSpec.ComponentsJoin | src/lib/string.c:237-256 | the components of two paths one after another are those of both |
| PathSpec.CollapsedMore | src/lib/path.c:5-68 | one more component: a name adds itself, "." adds nothing, ".." goes up, and too long a name is passed over |
| PathSpec.UpAgain | src/lib/path.c:49-68 | a name followed by ".." changes nothing, after any path |
| PathSpec.UpFromRoot | src/lib/path.c:70-83 | "/.." is the root |
| PathSpec.SourceExample | src/lib/path.c:49-50 | the example that the source gives |
| Paths.StrLen | src/lib/string.c:130-138 | the length of the string |
| Paths.StrRChr | src/lib/string.c:68-81 | the last position of a character, or -1 |
| Paths.StrCpy | src/lib/string.c:14-24 | the target holds the string |
| Paths.StrLCpy | src/lib/string.c:178-199 | the target holds as much of the string as fits |
| Paths.StrLCat | src/lib/string.c:205-217 | the target holds both strings, cut at the limit |
| Paths.SpanSlashes | src/lib/string.c:228-235 | the number of leading slashes |
| Paths.SpanName | src/lib/string.c:219-226 | the length before the next slash |
| Paths.StrTok | src/lib/string.c:237-256 | the next component is cut out in place, and the rest has exactly the remaining components |
| Paths.DirName | src/lib/path.c:70-83 | the parent directory in place |
| Paths.DirNameRender | src/lib/path.c:70-83 | the parent of the path of a stack is the path of the stack without its top, and the root's parent is the root |
| Paths.DirNameRenderSlash | src/lib/path.c:70-75 | the same with a slash at the end |
| Paths.JoinOne | src/lib/path.c:5-34 | one component joined in place, with the length limits of the source |
| Paths.JoinRender | src/lib/path.c:5-34 | joining a component to the path of a stack gives the path of the new stack, cut at the limit |
| Paths.Join | src/lib/path.c:36-47 | components joined one by one up to the first that fails |
| Paths.CollapseDots | src/lib/path.c:51-68 | an absolute path becomes the path of the stack its components leave, cut at the limit; another path is refused and untouched |
| Paths.RebuildFrom | src/lib/path.c:55-65 | the loop over the tokens rebuilds that path |
| Paths.CollapseIsExact | src/lib/path.c:29-33 | the result is uncut if and only if it is shorter than PATH_MAX, which a shorter input ensures |
| PacketSlots.ExactlyOnce | src/kernel/net/nethandler.c:72-100 | every accepted packet waits in one slot with its own bytes or was handed over exactly once with them |
| PacketSlots.HandTracked | src/kernel/net/nethandler.c:94-95 | handing over hands exactly the bytes of the packet the slot was filled with |
| PacketSlots.AddTracked | src/kernel/net/nethandler.c:63-67 | filling an empty slot disturbs no other packet |
| PacketSlots.SameTracked | src/kernel/net/nethandler.c:72-100 | a step that leaves the waiting slots alone loses and repeats nothing |
| PacketSlots.Handler.constructor | src/kernel/net/nethandler.c:24-42 | all slots are empty and zeroed |
| PacketSlots.Handler.AddPacket | src/kernel/net/nethandler.c:45-68 | the lowest empty slot takes the packet, no slot in use is touched, and without one the packet is dropped; added = dropped + pending + processed |
| PacketSlots.Handler.FindEmpty | src/kernel/net/nethandler.c:50-57 | the lowest empty slot |
| PacketSlots.Handler.Step | src/kernel/net/nethandler.c:72-100 | one step of the worker keeps all of this, with an interrupt possible between any two steps |
| PacketSlots.Handler.Run | src/kernel/net/nethandler.c:45-100 | any interleaving of interrupts and worker steps keeps it; without interrupts, 12 steps for each waiting packet and 12 more hand over every packet |
| PacketSlots.StepIsProgress | src/kernel/net/nethandler.c:72-100 | each step of the worker lowers a bound on the steps until nothing waits |
| CalendarTime.NextYear | src/kernel/time.c:203-204 | the closed form of POSIX advances by 365 or 366 days exactly as the leap-year macro says |
| CalendarTime.YearTable | src/kernel/time.c:200-201 | the table of days before a month is the sum of the month lengths |
| CalendarTime.MonthLengths | src/kernel/time.c:195-198 | the month lengths are the differences of (153 k + 2) / 5, counted from March, and February has what is left of the year |
| CalendarTime.MonthStarts | src/kernel/time.c:200-201 | the days before each month by the same closed form |
| CalendarTime.NextMonth | src/kernel/time.c:238-249 | one turn of the day loop keeps the absolute day |
| CalendarTime.Time.NormaliseDay | src/kernel/time.c:235-249 | the loop ends on a day of its month and keeps the absolute day; past the end of year 65535 the 16-bit year starts again at zero |
| CalendarTime.CarriesMove | src/kernel/time.c:210-227 | carries that wrap never cancel out: they leave the time where it was if and only if there is none |
| CalendarTime.Time.YearDays | src/kernel/time.c:270-281 | the loops over the years give the closed form, before and after 1970 |
| CalendarTime.Time.MkTime | src/kernel/time.c:252-287 | the value returned, cut to 32 bits, and the normalised fields, with the fields' own widths |
| CalendarTime.ReturnedMoved | src/kernel/time.c:206-287 | the value is off from POSIX by exactly what the carries moved |
| CalendarTime.MkTimeIsPosix | src/kernel/time.c:206-287 | before it is cut to 32 bits, the value is that of section 4.16 of POSIX.1-2017 Base Definitions if and only if hour, minute and second are not above their ranges and the day lies in a year that fits; where no carry wraps it is never too small |
| CalendarTime.TimeIsPosix | src/kernel/time.c:206-287 | the 32-bit value returned is the POSIX value if and only if hour, minute and second are not above their ranges and the POSIX value fits, before 1970 too |
| CalendarTime.HourOverflow | src/kernel/time.c:289-301 | hour 24, as gettimeofday can pass, comes out a day late |
| CalendarTime.MinuteWraps | src/kernel/time.c:211-215 | 60 seconds after minute 255 is minute 0: 15300 seconds too early |
| CalendarTime.SignedRange | src/kernel/time.c:252-287 | the POSIX value fits a signed 32-bit integer exactly from 20:45:52 on 13 December 1901 to 03:14:07 on 19 January 2038 |
| Ext2.BlocksDisjoint | src/kernel/ext2.c:70-74 | different blocks never share a sector |
| Ext2.BlockByte | src/kernel/ext2.c:70-74 | byte k of a block is byte k % 512 of the sector k / 512 places after the one where the block starts |
| Ext2.WordIs | src/kernel/ext2.c:131-149 | a block number is stored as its four base-256 digits, the lowest one first |
| Ext2.EntryIs | src/kernel/ext2.c:131-149 | an entry of an index block is the number that four bytes on the disk spell |
| Ext2.InodeNumber | src/kernel/ext2.c:76-84 | group and index of an inode determine it, and every place of every group belongs to exactly one inode |
| Ext2.InodeLocated | src/kernel/ext2.c:86-109 | the bytes read are those of the inode in its table, and lie in one sector |
| Ext2.ReadDirect | src/kernel/ext2.c:111-129 | each listed block goes to its place, zeros leave theirs |
| Ext2.ReadSingly | src/kernel/ext2.c:131-149 | the blocks an index block lists |
| Ext2.ReadDoubly | src/kernel/ext2.c:151-173 | the blocks of all present index blocks, one after another, and how many; it stops exactly at an index block that is reached and unusable |
| Ext2.ReadTriply | src/kernel/ext2.c:175-196 | the same below a triply indirect block, with the same exact condition |
| Ext2.InOneDoubly | src/kernel/ext2.c:190-190 | the product that is computed from left to right is the number of blocks below a doubly indirect block |
| Ext2.ReadStart | src/kernel/ext2.c:214-225 | direct and singly indirect part, and exactly when it goes through |
| Ext2.ReadBeyond | src/kernel/ext2.c:227-239 | doubly and triply indirect part, each at its own offset, and exactly when it goes through |
| Ext2.ReadFile | src/kernel/ext2.c:198-244 | every byte of every block of the buffer is the disk's byte at its place of the block that the lists lead to, and zero where there is none; the source's assertions hold exactly when the file is not empty and every index block reached is usable |
| Ext2Map.ReadWhereTheyBelong | src/kernel/ext2.c:151-173 | whenever the reader goes through, blocks are read where they belong if and only if no missing index block among those needed has a present one after it |
| Ext2Map.ExpandReadable | src/kernel/ext2.c:175-196 | the singly indirect blocks that reading through doubly indirect ones reaches are all usable |
| Ext2Map.ExpandLeaves | src/kernel/ext2.c:175-196 | reading doubly indirect blocks one by one reads all the singly indirect ones below them in order |
| Ext2Map.FileIsMapped | src/kernel/ext2.c:198-244 | whenever ext2_read_file goes through, the whole file follows the direct, singly, doubly and triply indirect block map if and only if there is no such gap |
| Ext2Map.NothingMissing | src/kernel/ext2.c:198-244 | with every needed index block present there is no gap |
| Ext2Map.MissingIndexShifts | src/kernel/ext2.c:163-169 | a missing index block pulls forward what the next one lists |
| Ext2Map.DoublyCount | src/kernel/ext2.c:198-244 | the singly indirect blocks of a file without holes, counted: its data blocks divided by the entries of a block, rounded up |
| Ext2Map.HoleFreeNeeds | src/kernel/ext2.c:198-244 | a file without holes is read exactly when the block count follows no index block that the file does not need |
| Ext2Map.HoleFreeRead | src/kernel/ext2.c:198-244 | with the block count of the inode, which counts index blocks too, a file of b blocks without holes is read if and only if b is not zero, does not just fill the singly indirect block, and is not within n blocks of filling the doubly indirect one |

## Left out

- KernelHeap.Heap.Alloc: says when heap_alloc surely succeeds and when it surely stops; for requests near what the heap can grow by it says neither, because the first expansion may or may not suffice for the retry. Frames for new pages are assumed to be there.
- KernelHeap.Heap.Place: where an assertion stops the machine, the stores before it are not modelled.
- KernelHeap.Heap.constructor: the heap lies where the kernel puts its own, at 0xc0000000 or above and below 0xe0000000; no other heap is ever created.
- KernelHeap.Heap.FindSmallestHole: does not claim best fit in general, because sizes change in place without the index being sorted again.
- PhysicalMemory.Pmm.AllocContinuous: with no free frame in the complete dwords, where the search starts from the address 0xffffffff, it does not say when a run is found; a run elsewhere that the search passes over is not found, as in the source; assumes that a run that starts in memory ends below 4 GiB.
- PhysicalMemory.Pmm.FindRun: the same assumption.
- PhysicalMemory.Pmm.SetRun: the same assumption.
- PhysicalMemory.Pmm.CheckRun: the same assumption.
- VirtualMemory.Vmm.MapNew: success "exactly when a frame is free" leaves out the frames that the kernel heap may take for a new page table.
- VirtualMemory.Vmm.AllocUser: leaves out the same, and the list node of a new area.
- VirtualMemory.Vmm.ClonePage: leaves out the same.
- VirtualMemory.Vmm.CreateUserMm: leaves out the same.
- VirtualMemory.Vmm.CopyArguments: leaves out the same.
- VirtualMemory.Vmm.GrowHeap: leaves out the same.
- VirtualMemory.Vmm.GrowStack: leaves out the same.
- VirtualMemory.Vmm.ExtendStack: leaves out the same.
- VirtualMemory.Vmm.Clone: leaves out the same; the break fields of the child are those the source leaves, all zero, and sbrk in a forked child is not modelled.
- VirtualMemory.Vmm.FinishLoad: assumes that image, arguments and environment end below the stack limit; `CopyArguments` says what happens when they do not.
- VirtualMemory.Vmm.Sbrk: leaves out the frames that the kernel heap may take; is not followed beyond a call that breaks the layout.
- VirtualMemory.Vmm.ResizeArea: assumes that growth past the end of user space would meet a mapped page first, as the stack makes sure.
- VirtualMemory.Vmm.Destroy: the page directory is still there; the order in which a dying task's directory and pages go is not modelled.
- PipeRing.Ring.Run: the waits for bytes and for room, which come before the lock, are not steps of their own.
- PipeRing.Ring.WritePass: a later pass of a write starts again at the beginning of the caller's buffer, as in the source; no claim is made about the sum of several passes.
- OpenFiles.FileTable.Open: symbolic links, which open another file in between, are not modelled.
- Scheduling.Scheduler.TaskSwitch: stack pointers, page directories and the TSS are not modelled; the TS bit is, in `Fpu.dfy`.
- PacketSlots.Handler.AddPacket: requires a packet that fits a slot; nethandler_add_packet does not check the length.
- PacketSlots.Handler.Run: requires the same of every packet.
- CalendarTime.Time.NormaliseDay: requires a month of 0 to 11; a larger one makes the source read past its tables.
- CalendarTime.Time.MkTime: requires a month of 0 to 11, for the same reason; signed overflow is taken to wrap around.
- Paths.JoinOne: requires a path shorter than PATH_MAX in a buffer of more than PATH_MAX characters.
- Paths.Join: requires the same.
- Paths.CollapseDots: requires a path of at most PATH_MAX characters, the size of the buffers it is used with.
- Ext2.ReadFile: the buffer is an array of blocks, so the byte offset of a block is not computed; 32-bit overflow of block addresses is not modelled.
- FPU state across fork and task destruction, and reaping of dead tasks.
- How kernel page tables are filled, the boot-time memory map and everything that only touches hardware: port I/O, interrupt stubs, GDT and IDT, PCI, ATA, network card, serial, keyboard and screen.
- The FAT and initrd file systems, directory reading and symbolic links, the ELF loader apart from where the break and the arguments go, and the network protocols.
- Shells, user programs other than md5, and the toolchain patches.
- `krealloc`, heap debugging and leak tracing, `list_destroy`, and the other string functions, which are short loops without state of their own.
