# Verified model of the modern_05 kernel

This project models the parts of a small AMD64 kernel that keep invariants over unbounded
runs, and proves what they keep. Check everything with `dafny verify dfyconfig.toml`.

## What is modelled

- **Buddy page allocator** (`BuddyTree`, `BuddyPool`, `BuddyOps`, `BuddyTheorems`,
  `BuddyConservation`, `BuddyLists`, `BuddyAllocator`, `BuddyRuns`). A pool is the valid and
  available flags of an implicit binary tree with one list of free blocks per size. `Inv` says
  that live nodes form a full tree, split nodes are never available, no two buddies are both
  free, and each list holds the free leaves of its size once each. Dead nodes keep stale
  available flags, as in the code. `Allocator` is the in-place code on block records linked
  into rings; every method is proved to compute the pool operation.
- **Single-producer single-consumer queue** (`SSQueue`, `QueueMethods`). Two threads, each load,
  store and slot access one step, in any interleaving; buffers hold bytes that the clients
  write and read. `PointerQueue` has the two methods themselves.
- **Address spaces** (`Paging`, `UserSpace`, `KernelSpace`, `AddressSpaces`, `KernelHalves`,
  `UserHalves`, `TableStores`, `TablePlacement`, `AnonMemory`). Physical memory is an array of
  table entries; the walk is the one of section 5.3 of the AMD64 Architecture Programmer's
  Manual, Volume 2. Runs mix creations, switches, mappings and the stores of `anon_allocate`,
  which any process can aim at any word. Page tables lie where the buddy allocator puts them,
  and may overlap.
- **Scheduling and context switch** (`Scheduler`, `ContextSwitch`). The push and pop sequences run
  on an array of words; whole runs mix execution, interrupts and process creation.
- **Checksums, devices and printing** (`Crc32`, `FrameCheck`, `NicReceive`, `Ahci`,
  `SerialNumber`, `Log2`). `FrameCheck` has polynomials over two elements and their long
  division by the generator of section 3.2.9 of IEEE 802.3.

Parameters stand for what comes from outside: the memory region, the disk, received bytes,
buffer addresses, the interleaving of threads, interrupt numbers and error codes.

## Where the code does less than it might seem to

Each condition is proved as an if-and-only-if.

- Addresses are taken from the tree index and not from the span
  (`mm/page_alloc.cpp:238-240`). They stay disjoint over all runs exactly for sizes 64 KiB and
  the whole region (`AddressesDisjointIff`), and every 64 KiB block but the leftmost has its
  address outside the region (`AddressInRegionIff`). Spans of the tree are always disjoint.
- So page tables of two processes overlap exactly when their block indices are less than 33
  apart (`TablesApartIff`), and on a fresh pool the second process's do
  (`SecondCreationSpoilsFirst`). In a run whose stores keep off the tables every process sees
  its own mappings and nothing else exactly when no creation overlaps an earlier one
  (`CreationsRightIff`).
- A granted `anon_allocate` stores its result through the caller's pointer unchecked, also
  into page tables. In a run whose creations lie apart every process sees its own mappings
  and nothing else exactly when no store hits the kernel's half or an entry on the path of a
  mapped page (`StoresRightIff`); each single address walks to its last mapping or, exactly
  after such a store, faults (`UserWalkIs`). A store over another process's pml4t or over the
  kernel's pdpt does it (`StoreOverPml4t`, `StoreOverKernelPdpt`).
- The kernel's half stays in every process and in the loaded table exactly when no step
  writes entry 256 of a pml4t or a word of the kernel's lower tables (`KernelHalvesKeptIff`).
- The same store can hit a saved context. A process resumes with its registers exactly when
  no store hit what is loaded for it (`ImageKeptIff`, `ImageAlwaysKeptIff`). The ranges one
  process is granted keep their buffers, and its image and stack their translation, exactly
  when no store, its own or another process's, hit an entry of the walk (`AnonWalkIff`,
  `ImageAndStackKeptIff`).
- Process records, of more than 64 KiB, overlap exactly when their blocks are adjacent
  (`RecordsApartIff`), and on a fresh pool those of the second and third process are
  (`SecondAndThirdRecord`): the top of the second one's kernel stack is then the third one's
  pid and state (`StackReachesNextRecord`). Their saved contexts lie apart (`ContextsApart`).
- Buffers behind two granted `anon_allocate` ranges share memory exactly when the blocks are
  closer than the first request is long (`BuffersApartIff`, `BlocksApartIff`); two requests of
  128 KiB on a fresh pool are (`BuffersOverlap`). A failed
  `kmalloc` yields physical address 0, which is mapped like any other buffer.
- Freeing a block twice is caught exactly when the first free did not merge it
  (`DoubleFreeCaughtIff`). Freeing a live block that passes the assertion leaves a
  well-formed pool exactly when it was handed out (`ReleaseWellFormedIff`).
- The allocator's test at start-up has both its requests served exactly when the region is
  larger than 16 MiB (`TwoServedIff`), and then passes (`SelfTest`).
- `write` returns the size as a 32-bit int, so the size itself exactly below 2 GiB
  (`Answered`, `SyscallAnswered`).
- The checksum misses exactly the errors whose polynomial is a multiple of the generator
  (`UndetectedIffMultiple`).
- A disk read is right exactly when it touches at most 16 sectors (`ReadCorrectIff`): the
  command's sector count is read after the loop has reduced it.
- `phy2virt(p)` walks back to p exactly from 64 MiB on, unless the image is loaded at 0
  (`Phy2VirtWalksBackIff`).
- `anon_allocate` covers the request, and stays inside the page table, exactly when its two
  64-bit sums do not wrap (`CoversRequestIff`, `StaysInTableIff`); two sizes that do, and are
  granted, are `LargestRequest` and `WrappingRequest`.
- `schedule` stays inside the process table exactly when a pid is left or the current one is
  not the last (`ScanInTableIff`); `create_process` exactly when a pid is left.
- `handle_rx` stays inside a frame exactly when it has 18 bytes, or 4 and a checksum that does
  not match (`ReceiveSafeIff`, `DriverSafeIff`).
- Signed numbers print within the alphabet exactly when not negative (`SignedPrintsIff`).

The code and its comments disagree in these places, and the model follows the code:

- `log2(0)` and `log2_ceil(0)` are 0, not all ones (`include/lib/utils.h:3`, `:13`).
- `kernel_page_alloc(i)` allocates 2^i bytes, not pages, and on failure it returns
  `KERNEL_START`, not 0 (`include/mm/page_alloc.h:14-17`).
- The user stack is at 33 to 34 MiB, not 32 to 33 (`process.cpp:276-277`).
- A 20-digit buffer is enough for 64-bit numbers, beyond the 2^31 - 1 its comment mentions
  (`include/lib/serial_port.h:91`).

## Model

| member | source | states |
|---|---|---|
| Log2.FloorLog2 | include/lib/utils.h:4-11 | For every 64-bit n > 0 the result r brackets it, 2^r <= n < 2^(r+1); for 0 it is 0. |
| Log2.CeilLog2 | include/lib/utils.h:14-25 | For every 64-bit n > 0 the result is the least r with n <= 2^r; for 0 it is 0. |
| BuddyTree.ParentChild | mm/page_alloc.cpp:130-164 | Parent, left, right and buddy arithmetic agree: every other node is one of its parent's two children, its buddy is the other one, and buddies are mutual. |
| BuddyTree.ChildDepth | mm/page_alloc.cpp:299-302 | Both children are one level deeper, so a child's size is its parent's less one. |
| BuddyTree.DepthBound | mm/page_alloc.cpp:299-302 | The depth is the floor of the binary logarithm of index + 1. |
| BuddyTree.StartClosedForm | mm/page_alloc.cpp:130-144 | A node i at depth d starts at unit (i + 1 - 2^d) * 2^(levels-d), the same as following left and right choices from the root. |
| BuddyTree.ChildSpans | mm/page_alloc.cpp:204-214 | The two halves of a block split its span exactly, the left one first. |
| BuddyTree.SameDepthDisjoint | mm/page_alloc.cpp:130-144 | Two different nodes of one size cover no common unit. |
| BuddyTree.AddressRoundTrip | mm/page_alloc.cpp:238-289 | The address handed out for a block leads free_pages back to that block, and an address that leads to a block is the one handed out for it. |
| BuddyPool.TakeKeepsInv | mm/page_alloc.cpp:216-219 | Taking a list head keeps the whole invariant (full tree, split nodes unavailable, no two free buddies, lists = free leaves once each) and adds exactly that block to the blocks in use. |
| BuddyPool.DivideKeepsInv | mm/page_alloc.cpp:204-214 | Halving a used block keeps the invariant and replaces it by its left half among the blocks in use. |
| BuddyPool.BeforeFuse | mm/page_alloc.cpp:248-257 | When the buddy reads as available it is a live free leaf, and the parent is live and not available: the two assertions cannot fire, despite stale flags of dead nodes. |
| BuddyPool.FuseKeepsInv | mm/page_alloc.cpp:253-260 | Fusing keeps the invariant, read with the parent as the held block, and replaces the block by its parent among the blocks in use. |
| BuddyPool.PutKeepsInv | mm/page_alloc.cpp:291-293 | Putting back a block whose buddy is not free keeps the invariant and removes exactly it from the blocks in use. |
| BuddyOps.Alloc | mm/page_alloc.cpp:190-221 | Allocation keeps the invariant; a failure changes nothing; a success returns a used block of exactly the requested size. |
| BuddyOps.Merge | mm/page_alloc.cpp:242-262 | Merging keeps the invariant and stops only at the root or below a buddy that is not available. |
| BuddyOps.Free | mm/page_alloc.cpp:284-297 | Releasing a used block keeps the invariant, complete coalescing included. |
| BuddyOps.AllocUsed | mm/page_alloc.cpp:190-221 | The block returned was not in use before, and the blocks in use grow by exactly it, through any number of splits. |
| BuddyOps.MergeUsed | mm/page_alloc.cpp:242-262 | Merging trades the block for the merged one and disturbs no other block in use. |
| BuddyOps.FreeUsed | mm/page_alloc.cpp:284-297 | Releasing a block removes exactly it from the blocks in use, through any number of merges. |
| BuddyOps.AllocBestFit | mm/page_alloc.cpp:190-221 | The smallest sufficient bucket serves the request: its head goes, the result is that head's leftmost descendant, each size passed through gains exactly one right sibling, every other list is unchanged. |
| BuddyOps.AllocFails | mm/page_alloc.cpp:191-202 | A request fails if and only if every bucket of its size or larger is empty. |
| BuddyTheorems.FreeUndoesAlloc | mm/page_alloc.cpp:190-297 | For every well-formed pool, freeing what was just allocated restores every live flag and every list, except that the head of the bucket it was cut from is now last. |
| BuddyTheorems.ReleaseWellFormedIff | mm/page_alloc.cpp:242-297 | Releasing a block that passes the assertion leaves a well-formed pool if and only if the block was in use, for every live block whatever its buddy, and for every dead one whose buddy does not read as available: split nodes and dead nodes with a cleared flag pass and spoil it. |
| BuddyTheorems.DoubleFreeCaughtIff | mm/page_alloc.cpp:289-293 | After a block was freed the assertion against freeing it again fires if and only if the block did not merge, that is, it is the root or its buddy was not available. |
| BuddyTheorems.AllFreedIsInitial | mm/page_alloc.cpp:36-47 | A well-formed pool with nothing handed out is the constructor's: one free root, all other buckets empty. |
| BuddyTheorems.InitialIsWellFormed | mm/page_alloc.cpp:34-48 | The constructor's pool satisfies the invariant and hands nothing out. |
| BuddyTheorems.SomeUsedBelow | mm/page_alloc.cpp:242-262 | Below every live node that is not free there is a block in use inside its span. |
| BuddyTheorems.LeavesPartition | mm/page_alloc.cpp:190-297 | Every unit of the region lies in exactly one leaf, and each leaf is either free or in use and not both. |
| BuddyTheorems.WhollyFreeIsOneBlock | mm/page_alloc.cpp:242-262 | If every unit of a node's span is covered by free blocks, one single free block, in its bucket's list, covers the whole span: coalescing is complete. |
| BuddyTheorems.AllocFailsIffNoFreePosition | mm/page_alloc.cpp:190-202 | A request fails if and only if no aligned span of its size is wholly free: fragmentation never hides a free span. |
| BuddyConservation.UnitsConserved | mm/page_alloc.cpp:190-302 | In every well-formed pool free and used blocks together have exactly 2^levels units. |
| BuddyConservation.BucketsConserve | mm/page_alloc.cpp:54-98 | Summed over the buckets, (list length + blocks handed out) * size is always the whole region. |
| BuddyConservation.BucketLength | mm/page_alloc.cpp:264-282 | The length of a bucket's list is the number of free blocks of its size. |
| BuddyLists.LinkLastRing | mm/page_alloc.cpp:272-279 | The four pointer writes turn the circular list l into the circular list l + [x]. |
| BuddyLists.UnlinkRing | mm/page_alloc.cpp:177-185 | The two pointer writes turn a circular list into the circular list without that position, in the same order. |
| BuddyLists.AppendLinked | mm/page_alloc.cpp:264-282 | Inserting appends to its own bucket's ring, keeps every other bucket's ring, and keeps every counter equal to its list's length (one low in the root's bucket). |
| BuddyLists.RemoveLinked | mm/page_alloc.cpp:166-188 | Removing takes the block out of its own bucket's ring, moves the head when it was the head, empties the bucket when it was alone, and keeps all other rings. |
| BuddyAllocator.Allocator.constructor | mm/page_alloc.cpp:34-48 | The object built satisfies the full representation invariant and shows the initial pool. |
| BuddyAllocator.Allocator.BlockLog2Size | mm/page_alloc.cpp:299-302 | The computed size is the root's less the depth, between 16 and the root's. |
| BuddyAllocator.Allocator.AddToAvailableList | mm/page_alloc.cpp:264-282 | In place, the block is appended to the list of its own size, no flag changes and all rings stay sound. |
| BuddyAllocator.Allocator.RemoveFromAvailableList | mm/page_alloc.cpp:166-188 | In place, the block leaves the list of its own size, no flag changes and all rings stay sound. |
| BuddyAllocator.Allocator.GetLeft | mm/page_alloc.cpp:130-136 | Null exactly when the array has no record for it; otherwise the child of half the size that starts where the block starts, always present above the smallest size. |
| BuddyAllocator.Allocator.GetRight | mm/page_alloc.cpp:138-144 | Null exactly when the array has no record for it; otherwise the child of half the size that starts in the middle of the block, always present above the smallest size. |
| BuddyAllocator.Allocator.GetParent | mm/page_alloc.cpp:146-152 | Null exactly at the root; otherwise the smaller index, one level up, of which the block is one of the two halves. |
| BuddyAllocator.Allocator.GetBuddy | mm/page_alloc.cpp:154-164 | Null exactly at the root; otherwise the other child of the block's parent, of the same size, inside the array, covering no unit the block covers. |
| BuddyAllocator.Allocator.AllocBlockSize | mm/page_alloc.cpp:190-221 | The recursive in-place code computes Alloc on the abstract pool, with all rings kept. |
| BuddyAllocator.Allocator.AllocatePages | mm/page_alloc.cpp:223-240 | Panics below 64 KiB, returns 0 when Alloc fails, else an address that free_pages takes for the very block handed out, which is in use; afterwards allocated_blocks of every bucket counts the blocks of its size in use. |
| BuddyAllocator.Allocator.Kmalloc | mm/page_alloc.cpp:399-424 | The size class is the least power of two that holds the request and is at least 64 KiB; the result is the kernel address of that allocation, which kfree takes for the block handed out, and KERNEL_START itself on failure. |
| BuddyAllocator.Allocator.TryMergeWithBuddy | mm/page_alloc.cpp:242-262 | The recursive in-place code computes Merge, and its two assertions hold on every path. |
| BuddyAllocator.Allocator.FreePages | mm/page_alloc.cpp:284-297 | Stops on an unaligned address or an available block and then changes nothing; otherwise, for a block in use, computes Free and keeps every ring and counter. |
| BuddyAllocator.Allocator.UsedIsHandedOut | mm/page_alloc.cpp:238-289 | The address of every block in use lies in range, is aligned, leads back to the block and passes the assertions of free_pages. |
| BuddyAllocator.Allocator.Kfree | mm/page_alloc.cpp:404-417 | The same for the kernel address. |
| BuddyAllocator.Allocator.FourCalls | mm/page_alloc.cpp:327-334 | The four calls of the start-up test, with the addresses the first two returned, take the initial pool back to itself. |
| BuddyAllocator.Allocator.SelfTest | mm/page_alloc.cpp:322-354 | The start-up test passes: its loop over the buckets finds the root alone in its list and every other list empty. |
| BuddyRuns.Run | mm/page_alloc.cpp:190-297 | Every run of requests and releases keeps the invariant. |
| BuddyRuns.BalanceIsUse | mm/page_alloc.cpp:190-297 | After every run the number of blocks in use has grown by successful requests less releases. |
| BuddyRuns.BalancedRunRestores | mm/page_alloc.cpp:327-351 | Every run from the initial pool that releases as often as it obtains, in any order, ends in the initial pool: the boot self-test's result for all runs. |
| BuddyRuns.TwoAndBackRestores | mm/page_alloc.cpp:327-334 | On every fresh pool, allocating a block smaller than the region and one no larger, and freeing them in that order, restores the initial pool. |
| BuddyRuns.TwoServedIff | mm/page_alloc.cpp:327-331 | Both requests are served if and only if the first is not for the whole region or more. |
| BuddyRuns.FreshBlockIsDisjoint | mm/page_alloc.cpp:190-221 | A block handed out shares no unit of its span with any block in use. |
| BuddyRuns.AddressInRegionIff | mm/page_alloc.cpp:238-240 | A block's address range lies inside the region if and only if the block is larger than 64 KiB or is the leftmost 64 KiB block. |
| BuddyRuns.MiddleSizeCollides | mm/page_alloc.cpp:238-240 | For every size strictly between 64 KiB and the region, two requests from the initial pool return overlapping address ranges. |
| BuddyRuns.AddressesDisjointIff | mm/page_alloc.cpp:238-240 | For a set of sizes, address ranges stay disjoint in every run that requests only those sizes if and only if each is 64 KiB, the whole region, or beyond it. |
| SSQueue.StepRefines | include/common/kssq.hpp:20-43 | Every enabled load, store or slot access of either thread, in every reachable state, keeps the invariant, is a step of a FIFO of capacity size - 1 or silent, and keeps the multiset of buffers. |
| SSQueue.Linearizable | include/common/kssq.hpp:20-43 | Every interleaving of single steps is the history of a bounded FIFO read at the linearization points; failed calls found it truly empty or full. |
| SSQueue.DeliveredIsPrefix | net/arp.cpp:51-94 | In every run what was delivered is a prefix of what was accepted, at most size - 1 packets are in between, buffers stay distinct and conserved, and from the first packet on, except between the swap and the release of a slot, the consumer's buffer holds the bytes given to enq. |
| SSQueue.ResultsAreLabels | include/common/kssq.hpp:20-43 | Over every run the results fixed are exactly those of the linearization points passed, in order. |
| SSQueue.ResultsAreLinearized | include/common/kssq.hpp:20-43 | In every run each returned result is the one fixed at its call's linearization point, which lies between the call and the return. |
| SSQueue.NeverBlocked | include/common/kssq.hpp:5-8 | In every reachable state a thread inside an operation can take its next step. |
| SSQueue.WaitFree | include/common/kssq.hpp:5-8 | An operation returns within 7 (enq) or 8 (deq) of its own steps, whatever the other thread does. |
| QueueMethods.EnqAloneIs | include/common/kssq.hpp:32-43 | The producer's steps run without interference have exactly the effect of enq as a whole, from every reachable state. |
| QueueMethods.DeqAloneIs | include/common/kssq.hpp:20-30 | The consumer's steps run without interference have exactly the effect of deq as a whole, from every reachable state. |
| QueueMethods.EnqueueAppends | include/common/kssq.hpp:32-43 | enq succeeds iff fewer than size - 1 pointers are held, appends the pointer, and keeps the pointers of ring and caller as a multiset. |
| QueueMethods.DequeueTakesFirst | include/common/kssq.hpp:20-30 | deq succeeds iff a pointer is held, returns the first, and keeps the pointers of ring and caller as a multiset. |
| QueueMethods.PointerQueue.constructor | include/common/kssq.hpp:13-18 | The queue starts empty on the given ring. |
| QueueMethods.PointerQueue.Enq | include/common/kssq.hpp:32-43 | In place: the FIFO specification above, and the same effect as the producer's steps. |
| QueueMethods.PointerQueue.Deq | include/common/kssq.hpp:20-30 | In place: the FIFO specification above, and the same effect as the consumer's steps. |
| Paging.StoreKeepsWalkIff | syscall.cpp:115 | Storing a page-aligned number into a table word makes a mapped address fault if and only if its walk reads that word, and leaves its translation otherwise. |
| UserSpace.WalkIsFlat | process.cpp:244-265 | The four-level walk of any lower-half address from the process tables is a lookup in the flat pt array below 1 GiB and a fault above. |
| UserSpace.MapUserAddr | process.cpp:188-197 | In place, exactly the entries from the named page on change, to consecutive frames, also where they lie past the flat table. |
| UserSpace.WalkAfterCalls | process.cpp:188-265 | After any sequence of mapping calls the walk of every lower-half address gives the last mapping of its page, user-accessible, or a fault if there was none. |
| UserSpace.BuildTables | process.cpp:235-265 | The constructor's writes leave memory as Built describes and nothing else changed. |
| UserSpace.BuiltTables | process.cpp:235-265 | Memory as the constructor leaves it has linked upper levels and an empty flat table. |
| KernelSpace.SetupKernelTables | mm/mm.cpp:222-265 | The loops build tables in which image pages come first and identity pages follow, point all 512 pdpt entries at successive frames, and write nothing outside. |
| KernelSpace.WalkKernel | mm/mm.cpp:222-265 | From any cr3 whose entry 256 is the kernel's, KERNEL_START + q walks to kernel_physical_start + q in the first 64 MiB and to q from there to 4 GiB. |
| KernelSpace.Phy2Virt | mm/mm.cpp:326-335 | phy2virt yields a kernel address that kernel2phy takes back. |
| KernelSpace.Phy2VirtWalksBackIff | mm/mm.cpp:332-335 | The walk of phy2virt(p) is p if and only if p >= 64 MiB or the image is loaded at physical 0. |
| AddressSpaces.Boot | mm/mm.cpp:222-273 | From the loops that set the kernel's tables up: the state they leave, loaded and without a process, satisfies the invariant all runs start from. |
| KernelHalves.LoadedPdptIsKernel | mm/mm.cpp:95-102 | Whatever cr3 is loaded, the pdpt a new process copies is the kernel's, even when processes' tables overlap. |
| KernelHalves.StepKernelIff | process.cpp:188-265 | A creation, switch, mapping or store keeps the kernel's half in every process and in the loaded table if and only if it writes none of its words: no new table over an earlier pml4t, no mapping or store onto a pml4t entry 256, no store into the kernel's lower tables. |
| KernelHalves.KernelHalvesKeptIff | process.cpp:188-265 | Over every run, stores of any process included, the kernel's half stays at every point if and only if every step spares it. |
| KernelHalves.KernelHalfShared | process.cpp:243-246 | Then all processes and the loaded cr3 translate the first 4 GiB of the kernel half alike. |
| UserHalves.OverlapSpoils | process.cpp:235-265 | A creation whose tables overlap an earlier process's, at any offset, makes one of that process's translations wrong at once. |
| UserHalves.SwitchedIsLoaded | irq.S:66-67 | After every run the loaded table is that of the process last switched to, wherever creations, mappings and stores went since. |
| UserHalves.SwitchShows | process.cpp:281-281 | Right after a switch the walk from the loaded table gives, for every lower-half address, the last mapping of the process switched to, or a fault. |
| UserHalves.CreationsRightIff | process.cpp:188-281 | Over every run whose stores keep off the tables, every process sees exactly its own last mappings in its lower half and the kernel's in the upper, and the loaded table shows those of the process last switched to, at every point, if and only if every creation puts its tables apart from all earlier ones. |
| TableStores.UserWalkIs | syscall.cpp:113-115 | Over every run that spares the kernel and creates apart, an address of a process walks to its last mapping if and only if no store, of any process, hit an upper entry on its path since the process was created or its page's entry since that mapping; otherwise it faults. For the process last switched to, this is the walk from the loaded table. |
| TableStores.KernelStoreSpoils | syscall.cpp:115 | A store that hits a word of the kernel's half makes a translation of a process or of the loaded table wrong at once. |
| TableStores.StoresRightIff | syscall.cpp:99-115 | Over every run whose creations lie apart, every process sees exactly its own last mappings and the kernel's half, and the loaded table shows those of the process last switched to, at every point, if and only if no store hits the kernel's half and none leaves a cleared entry on the path of a page mapped at that point. |
| TableStores.StoreOverPml4t | syscall.cpp:115 | A store over another process's pml4t entry 0 is harmless to the kernel's half, and every mapped page of that process faults. |
| TableStores.StoreOverKernelPdpt | syscall.cpp:115 | A store over the first entry of the kernel's pdpt makes KERNEL_START fault in every process. |
| TablePlacement.TablesApartIff | process.cpp:238-240 | Tables in two 4 MiB blocks, at the addresses computed from their indices, do not overlap if and only if the indices are at least 33 apart. |
| TablePlacement.TablesInRegion | process.cpp:238-240 | Tables in any such block lie inside the region. |
| TablePlacement.CreationRequests | process.cpp:18-25 | The sizes one creation asks for, worked out with the logarithms from the sizes of record, syscall object, tables, image and stack, are those replayed. |
| TablePlacement.FirstTwoTables | process.cpp:18-31 | On every fresh pool of at least 32 MiB the requests of two process creations give table blocks whose indices differ by 3. |
| TablePlacement.SecondCreationSpoilsFirst | process.cpp:235-265 | So the second creation puts its tables 48 frames above the first one's and spoils a translation of the first process, while the kernel half of both stays. |
| TablePlacement.RecordsApartIff | process.cpp:18-31 | Records of more than 64 KiB, at the addresses computed from the indices of their 128 KiB blocks, do not overlap if and only if the indices are at least two apart. |
| TablePlacement.SecondAndThirdRecord | process.cpp:18-31 | On every fresh pool of at least 32 MiB the records of the second and the third process get adjacent blocks. |
| TablePlacement.StackReachesNextRecord | include/process.h:82-124 | Whatever precedes the 64 KiB kernel stack in a record, the last bytes of the stack are those first bytes of the record in the next block. |
| TablePlacement.ContextsApart | include/process.h:82-124 | The saved contexts of records in different blocks lie apart all the same, whichever the blocks are. |
| TablePlacement.BuffersOverlap | syscall.cpp:105-113 | On every fresh pool the buffers behind two granted requests of 128 KiB overlap. |
| AnonMemory.Process.constructor | process.cpp:272-274 | The break runs from 16 MiB to 32 MiB. |
| AnonMemory.Process.AnonAllocate | syscall.cpp:96-118 | In place: the break moves by the rounded size even on failure; a success maps the range, and the word of memory the caller's pointer leads to reads as the first address of the range. |
| AnonMemory.AlignedIs | syscall.cpp:103 | The rounded size is the page multiple from the size on and less than a page above it, and 0 exactly for the last 4095 sizes, or for 0. |
| AnonMemory.AnonRanges | syscall.cpp:103-115 | Every successful call's range is page-aligned and lies inside [16 MiB, 32 MiB). |
| AnonMemory.RangesContiguous | syscall.cpp:103-115 | Each range starts where the one before ended, and a call succeeds exactly when its end is within the limit. |
| AnonMemory.StartsAscend | syscall.cpp:107-108 | Later ranges never start below earlier ones, so granted ranges are disjoint. |
| AnonMemory.OverflowIsFinal | syscall.cpp:108-112 | After the first overflow no call succeeds. |
| AnonMemory.WordAfter | syscall.cpp:108-115 | Over any run a table word that no call of the process maps is unchanged, or no longer present if and when a granted call, of this process or another, stored its result there. |
| AnonMemory.AnonWalkIff | syscall.cpp:113-115 | At the end of any run, other processes' stores included, an address of a granted range walks to the same offset of its own buffer if and only if no granted call stored its result over an upper entry on the way, and none from its own on over the page entry; otherwise it faults. |
| AnonMemory.PointerHoldsStart | syscall.cpp:106-115 | Over any run, until the word at a granted call's pointer is written again, it holds the first address of that call's own range. |
| AnonMemory.GivenAddressWalks | syscall.cpp:105-115 | The address so given back walks to the first byte of the call's buffer, for a range that is not empty, unless a store hit the path; then it faults. |
| AnonMemory.ImageAndStackKeptIff | process.cpp:267-279 | Over any such run an image or stack address keeps its translation if and only if it had none or no granted call, of this process or another, stored its result over one of its four entries. |
| AnonMemory.StoreIntoOwnTable | syscall.cpp:99-115 | A call whose pointer leads to the entry of its own first page is granted, and that page then faults. |
| AnonMemory.BuffersApartIff | syscall.cpp:105-113 | Two granted ranges share no physical address if and only if one is empty or their buffers lie apart. |
| AnonMemory.BlocksApartIff | mm/page_alloc.cpp:238-240 | Buffers in two blocks i < j at the addresses computed from the indices lie apart if and only if the first needs at most (j - i) * 64 KiB. |
| AnonMemory.CoversRequestIff | syscall.cpp:103 | A successful call provides the bytes asked for if and only if rounding up does not wrap 64 bits. |
| AnonMemory.LargestRequest | syscall.cpp:103 | The size 2^64 - 1 is granted on a fresh break and provides no byte. |
| AnonMemory.StaysInTableIff | syscall.cpp:107-113 | A successful call writes only the flat table if and only if moving the break does not wrap 64 bits. |
| AnonMemory.WrappingRequest | syscall.cpp:107-113 | The size that takes a fresh break exactly to 2^64 is granted, and its pages lie past the table. |
| Scheduler.ProcessTable.constructor | process.cpp:140-148 | The table starts with one waiting process, pid 1, current. |
| Scheduler.ProcessTable.CreateProcess | process.cpp:18-31 | The new pid is the next one, its slot was empty, and no other slot changes; with every pid taken the write would go past the table, and only then it fails. |
| Scheduler.ProcessTable.Schedule | process.cpp:150-166 | The loop ends; the next pid cyclically becomes current and exactly it is Running, if and only if every slot the scan reads lies in the table; the slots read are Scan. |
| Scheduler.ScanInTableIff | process.cpp:150-166 | The scan stays inside the table if and only if a pid is left or the current one is not the last. |
| Scheduler.FullTableScan | process.cpp:150-166 | With all 1023 pids taken and the last one current the scan reads slot 1024. |
| Scheduler.BoundedWaiting | process.cpp:150-166 | Over every run a process is chosen within its cyclic distance plus the number of creations. |
| Scheduler.NotBefore | process.cpp:150-166 | Without creations it is chosen after exactly its cyclic distance and not before. |
| Scheduler.PidsInRange | process.cpp:18-31 | Current and next pid stay in range over every run for as long as the pids last, and every scan stays in the table while one is left. |
| ContextSwitch.SaveLoad | include/process.h:7-37 | Storing a register image and loading it back loses nothing, and changing the rax word changes rax only. |
| ContextSwitch.Cpu.EnterInterrupt | irq.S:88-118 | The pushes leave exactly struct Context of the interrupted registers below the stack top, and nothing else changed. |
| ContextSwitch.Cpu.ReturnFromSyscall | irq.S:54-86 | The pops and iretq load exactly the image in the context. |
| ContextSwitch.Cpu.StoreContext | process.cpp:168-174 | The current process record receives the context and nothing else changes. |
| ContextSwitch.Cpu.HandleSyscall | syscall.cpp:46-118 | Memory changes at the rax word of the saved context, to what the caller is promised, and before that at the word a granted anon_allocate stores to; it returns exactly for read, write, open, close, yield and anon_allocate. |
| ContextSwitch.Cpu.SysWrite | syscall.cpp:62-81 | For descriptors 0, 1 and 2 the size as a 32-bit int, for every other one -1. |
| ContextSwitch.Cpu.HandleIrq | irq.S:88-129 | From entry to iretq: the current process's context is saved and handled, all others change only by the store of anon_allocate, and the next process's image is loaded; it fails exactly when the number has no handler, the handler stops or the scan leaves the table. |
| ContextSwitch.Cpu.Trap | irq.S:88-129 | The instruction sequence is exactly an Interrupt step of the system state machine, allowed iff the number has a handler, the kernel survives it and the scan stays in the table. |
| ContextSwitch.StepKeepsInv | irq.S:54-129 | Every step leaves every suspended process with a complete context, and an interrupt loads the registers from the chosen one. |
| ContextSwitch.ImageStoreIff | include/process.h:7-37 | A store into one word of a context keeps the register image if and only if what is loaded from that word stays: nothing of the two reserved words, 16 bits of a selector, all of any other. |
| ContextSwitch.ImageKeptIff | syscall.cpp:46-118 | After an interrupt a suspended process's context holds its image if and only if the call stored nothing into what will be loaded for it; the caller's own rax word is overwritten anyway. |
| ContextSwitch.ImageAlwaysKeptIff | syscall.cpp:46-118 | Over any run that does not resume a process its context holds its image at every point if and only if no step stores into it. |
| ContextSwitch.ChosenResumesIff | irq.S:118-129 | The process chosen by an interrupt resumes with its image if and only if that interrupt's own store spares it. |
| ContextSwitch.ResumesWhereSuspended | irq.S:54-129 | Whatever ran in between, also when chosen again at once, a process none of whose loaded words was stored into resumes with the registers it was suspended with, only rax replaced by the result after a system call. |
| ContextSwitch.SyscallAnswers | syscall.cpp:46-118 | In the caller's registers: read, open and close give 2^64 - 1, write its rdx below 2 GiB for descriptors 0 to 2 and 2^64 - 1 for others, yield 0, anon_allocate 0 if granted and 2^64 - 1 if not; 5 halts, 0 and numbers from 8 on panic, and nothing else does not return. |
| ContextSwitch.SyscallAnswered | syscall.cpp:46-118 | A process that makes a call resumes, at once or after any run, with everything but rax as it was and rax as promised, if no store hit what is loaded for it; a call is survived if and only if it is one that returns. |
| ContextSwitch.StartsWithFirstImage | process.cpp:281-294 | A new process, whatever runs until it is first chosen, starts with the image it was created with, cr3 included, if no store hit it. |
| ContextSwitch.StoreIntoOwnContext | syscall.cpp:99-115 | A granted anon_allocate whose pointer leads to the saved rbx of its caller: it resumes with another rbx. |
| Crc32.Crc32IsoHdlc | device/rtl8139.cpp:310-321 | The nested loops compute the byte-wise register function, inverted before and after. |
| Crc32.RegisterIsBits | device/rtl8139.cpp:315-319 | The loop over bytes is the loop over their bits, lowest first. |
| Crc32.RegisterBitsInjective | device/rtl8139.cpp:317-318 | Different register values stay different under any bits. |
| Crc32.BitsAreWord | device/rtl8139.cpp:315-319 | Up to 32 bits act on the register as one word added and then shifted through. |
| Crc32.PassesIffResidue | device/rtl8139.cpp:214-222 | A frame passes the check if and only if the register over all of it ends in one constant. |
| Crc32.BurstDetected | device/rtl8139.cpp:214-222 | Two different frames of one length, of any length, whose bits agree outside 32 consecutive places at any bit position, checksum included, never both pass. |
| Crc32.ByteBurst | device/rtl8139.cpp:214-222 | Frames that agree outside four consecutive bytes are such a pair. |
| Crc32.SentFramePasses | device/rtl8139.cpp:409-412 | The checksum the sender appends is the one the receiver accepts, for every payload. |
| FrameCheck.DivisionIdentity | device/rtl8139.cpp:310-321 | Quotient times generator plus remainder is the dividend, for every polynomial of at least 32 coefficients. |
| FrameCheck.ProductDivides | device/rtl8139.cpp:310-321 | A multiple of the generator leaves no remainder, and the quotient is its factor. |
| FrameCheck.PolynomialIsGenerator | device/rtl8139.cpp:318 | The constant of the loop is the generator with the exponents of the standard, less its highest, in reversed order. |
| FrameCheck.RegisterIsRemainder | device/rtl8139.cpp:315-319 | From any register the loop leaves the remainder of the bits, followed by 32 zeros, with the register added to the first 32. |
| FrameCheck.CrcIsFcs | device/rtl8139.cpp:310-321 | For all bytes the checksum is the frame check sequence of the standard: first 32 bits complemented, multiplied by x^32, divided by the generator, remainder complemented. |
| FrameCheck.PassesIffFcs | device/rtl8139.cpp:214-222 | A frame passes if and only if its last 32 bits are the frame check sequence of the bits before. |
| FrameCheck.UndetectedIffMultiple | device/rtl8139.cpp:214-222 | An error turns a frame that passes into another that passes if and only if its polynomial is a multiple of the generator. |
| FrameCheck.GeneratorUndetected | device/rtl8139.cpp:214-222 | Adding the generator at any bit position never changes whether a frame passes. |
| NicReceive.Receiver.ConsumeRx | device/rtl8139.cpp:199-204 | The offset advances by the aligned footprint modulo 8192 and the register gets the unreduced offset less 16. |
| NicReceive.Receiver.HandleRx | device/rtl8139.cpp:206-247 | In place, every header: outcome and next offset are those of Receive; a zero header changes nothing, any other frame gets its verdict and is consumed once, and the call stops where the code would leave the frame or the buffer. |
| NicReceive.ReceiveSafeIff | device/rtl8139.cpp:206-247 | A call stays inside frame and buffer if and only if the size is 0, or the frame lies in the buffer and has at least 18 bytes, or at least 4 and a checksum that does not match. |
| NicReceive.OffsetFollows | device/rtl8139.cpp:199-204 | Consuming a frame moves the offset from one device pointer, the sum of aligned footprints modulo 8192, to the next, always 4-aligned. |
| NicReceive.EachFrameOnce | device/rtl8139.cpp:206-247 | For every stream of frames that the device puts at its own pointer, the driver's calls return the verdicts of the frames, each once and in order, and end at the device's pointer. |
| NicReceive.DriverSafeIff | device/rtl8139.cpp:206-247 | The driver gets through such a stream without leaving a frame if and only if every frame is safe. |
| NicReceive.ShortFrameOverruns | device/rtl8139.cpp:229-232 | Every frame of fewer than 18 bytes that carries its right checksum makes the payload length pass below zero. |
| NicReceive.SentFrameDelivered | device/rtl8139.cpp:206-247 | A frame with the sender's checksum is delivered with its fields intact iff it is for this station or broadcast. |
| Ahci.BuildTable | device/ahci.cpp:286-301 | The loop builds Table, and leaves the sector count of the last entry. |
| Ahci.TableTiles | device/ahci.cpp:280-301 | For every count the entries tile exactly count * 512 contiguous bytes. |
| Ahci.BuildCommand | device/ahci.cpp:303-320 | The command's sector count is what the loop left, (n - 1) % 16 + 1, not n. |
| Ahci.LbaRoundTrip | device/ahci.cpp:310-317 | The six address bytes carry every sector number below 2^48. |
| Ahci.SectorMath | device/ahci.cpp:483-504 | The sectors read cover the byte range and no whole sector more on either side. |
| Ahci.Read | device/ahci.cpp:495-517 | The bytes returned, for every range that touches a sector: disk content as far as the command transfers, at most 8 KiB, old buffer content after. |
| Ahci.ReadCorrectIff | device/ahci.cpp:495-517 | The bytes returned are the disk's, whatever the disk and the buffer hold, if and only if the range touches at most 16 sectors. |
| SerialNumber.FillDigits | include/lib/serial_port.h:108-116 | The first loop stores the digits lowest first, within 20 places, the last one not zero. |
| SerialNumber.Print | include/lib/serial_port.h:88-123 | The characters sent parse back to the number, in base 16 for Hex and in base 10 for every other setting, without a leading zero, in at most 20 places. |
| SerialNumber.SignedPrintsIff | include/lib/serial_port.h:108-116 | Every index into the alphabet used for a signed number is in range if and only if the number is not negative. |
| SerialNumber.TwentyDigitsSuffice | include/lib/serial_port.h:91-92 | Twenty digits hold every 64-bit number in both radices. |

## Left out

- BuddyAllocator.Allocator.FreePages: an address whose block is neither available nor handed out is outside its contract; ReleaseWellFormedIff says what becomes of the pool.
- BuddyAllocator.Allocator.Kmalloc: the panic below 64 KiB cannot be reached from it.
- BuddyAllocator.Allocator.SelfTest: a region of 16 MiB or less, where a request of the test fails (TwoServedIff) and it then frees address 0.
- BuddyTheorems.ReleaseWellFormedIff: a dead block whose buddy's stale flag reads as available is not covered, because the code then follows stale list pointers.
- AnonMemory.Process.AnonAllocate: a call that wraps and still succeeds is outside its contract, because it writes past the table (StaysInTableIff); the kernel buffer's address and the word the pointer leads to are parameters, and the pointer is word-aligned.
- Ahci.Read: command slot search, waiting, error bits and failed commands are not modelled, nor a read of size 0 on a sector boundary, whose sector count of 0 means 65536 to the device; the copy out of the buffer is taken to stay in memory, while the code sizes the buffer by the bytes asked for.
- Crc32.Crc32IsoHdlc: the register is 32 bits wide, the code's is 64 with the upper half always zero; the null-pointer case is not modelled.
- ContextSwitch.Cpu.SysWrite: the characters put on the serial port are not modelled, nor a fault on reading them.
- SSQueue.Linearizable: sequentially consistent atomics only; each thread's private steps between shared accesses are one step.
- SerialNumber.Print: numbers that are not negative only; the put of each character is the returned sequence.
- UserHalves.CreationsRightIff: runs whose stores keep off the tables; TableStores.StoresRightIff has the runs whose creations lie apart. A run with both an overlapping creation and a store into tables has no condition of its own, since the one can hide the other.
- TableStores.StoresRightIff: the first 4 GiB of the kernel half, since the code fills 512 pdpt entries for four page directories; process tables are taken to lie off the kernel's own tables, between 64 MiB and 4 GiB, and no two at one address; a store is word-aligned and its value, an old break, page-aligned.
- AnonMemory.PointerHoldsStart: the pointer leads to a word of memory the model has; the bits of a word that no field of a table entry stands for are not kept.
- AddressSpaces.Boot: the case LoadedPdptIsKernel leaves out.
- KernelHalves.LoadedPdptIsKernel: an image whose tables lie below 64 MiB at an address other than its own is not covered, because the code then reads some other word (Phy2VirtWalksBackIff).
- Scheduler.ProcessTable.CreateProcess: process records are taken to lie apart, so that nothing but these methods writes pids and states; the code's records need not (RecordsApartIff, SecondAndThirdRecord), and a kernel stack can then overwrite them.
- Scheduler.BoundedWaiting: records lying apart, as for CreateProcess.
- ContextSwitch.Cpu.Trap: the set of numbers with a handler does not change; device handlers are taken not to touch process contexts; contexts are apart from each other by ContextsApart and taken to be apart from the interrupt stack and from other records' kernel stacks; the store of anon_allocate is word-aligned, and what it does to the kernel's own call frames and code is not modelled.
- TablePlacement.SecondCreationSpoilsFirst: only the requests of create_process itself are replayed, on a pool nothing else has used.
- Choice of the region in page_allocator_init: the region is a parameter.
- The ARP cache maps and replies: only the packets' way through the queue is modelled.
- Padding of short frames before sending: the checksum is over the bytes present.
- ELF loading, MemFs, string comparison, stack unwinding: would only add easy members.
- Boot loader, EFI, ACPI, PCI, APIC and descriptor-table setup: hardware plumbing.
- The fixed-block allocator: a plain free list that adds only easy members.
- Usage printing and hex dumps: output only.
