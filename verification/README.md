# Kappara: models and proofs of its memory, locks, device rings and byte formats

Kappara is a small AArch64 kernel with its own libc, dynamic linker and user programs. This
project models the parts of it whose correctness depends on whole runs rather than on one
function, and proves what they keep.

- **Page tables over the page allocator** (`Bits`, `Descriptors`, `Pmm`, `PageTables`,
  `PageOwnership`, `PageLifecycle`, `PageRuns`, `PageTranslation`, `PageWalk`, `BootTables`,
  `BootMapping`, `BootRuns`, `KernelMemory`, `KernelRuns`). Free pages hold the free-list link in their own first
  word; the tables of every address space come from the same pages. A ledger gives each enrolled
  page exactly one place, and every operation moves pages between places. The class `Kernel`
  updates memory in place and each of its methods is tied to the function the lemmas are about;
  the class `System` adds the address spaces and keeps the ledger itself.
- **The libc heap** (`HeapBlocks`, `HeapPolicy`, `ByteMemory`, `Heap`). Blocks as a list with gaps,
  what malloc and free promise on that list, and the headers as bytes in memory.
- **The slab allocator** (`SlabModel`, `Kmem`, `SlabPages`). One cache as a value, many caches as
  headers and in-object links, and many caches fed from the one page list.
- **Locks and reference counts** (`ThreadLock`, `RefCount`). Every load-exclusive,
  store-exclusive and pointer access is a step; any number of CPUs interleave freely.
- **Device rings** (`NvmeQueue`, `RingCounter`, `EnaRx`). Driver and device are separate step
  machines over shared rings; each ring is proved against unbounded counters.
- **Byte formats** (`Telnet`, `PathCanon`, `Checksum`, `Dhcp`, `DhcpRead`, `Elf`, `ElfImage`,
  `Relocation`, `Linker`). Frames are read back at their places on the wire; ELF objects are the
  byte layout of their records.

Integers are unbounded in Dafny, so 16-, 32- and 64-bit wrap-around is written out wherever the
code can reach it. Memory is sequentially consistent. The page handed to `Kmem` and to the ENA
driver, whether the kernel grants a larger break, and what a device does next are parameters.

## Where the code does not do what it says

Each of these but the last has a condition, checkable before the call, that is both necessary and
sufficient, and a lemma with a failing input, or with all of them. The last holds for every input.

- `mmu_init` makes the console UART reachable exactly when it lies below 2 GB or at or above
  512 GB (`BootTables.UartReachable`); in between it redirects a 2 MB slot of the low gigabyte
  (`BootTables.UartClobbersLowSlot`).
- `pmm_add_range` enrols the whole pages of its range exactly when rounding the start up does not
  wrap past 2^64, or the range ends below 8 KB; otherwise it enrols from page 1 on
  (`Pmm.WholePagesIff`, `Pmm.RangeWrapCase`).
- `free` merges blocks that are not adjacent; the merged block covers both exactly when they
  were (`HeapBlocks.MergeExactIff`, `HeapBlocks.MergeAcrossGap`).
- `malloc` serves a size correctly in every heap state exactly when it is at most 2^64 - 0x401018, or
  above 2^64 - 0x1018 and at most 2^64 - 24 (`HeapBlocks.ServedIff`). In between it lowers the break
  under live blocks (`HeapBlocks.BreakDropsCase`); above it hands out a block that is too small
  (`HeapBlocks.TooSmallCase`); in the upper band the rounding wraps to nothing and it refuses
  (`HeapBlocks.HugeRefused`).
- `calloc` grants room for the 64-bit product of its arguments, so the block holds the members
  asked for exactly when the product stays below 2^64 (`HeapBlocks.CallocHoldsIff`); eight members
  of 2^61 + 1 bytes get 8 bytes (`HeapBlocks.CallocWrapCase`).
- `kmem_cache_init` accepts objects larger than a slab, and sizes within 7 of 2^64, which round to 0
  (`Kmem.NewCacheSettled`); allocating from such a cache follows a null pointer exactly when a page is
  available (`Kmem.NullPopIff`).
- The ENA receive ring stays intact over all runs exactly when its depth divides 65536
  (`EnaRx.IntactIff`); the driver also accepts depths such as 48, and every other depth breaks at the
  65536th post (`EnaRx.WrapBreaks`, `RingCounter.RotationIff`, `RingCounter.RotationBreaks`).
- A telnet subnegotiation escaped as RFC 855 asks is dropped exactly when its body has no 0xFF
  (`Telnet.SubnegotiationIff`, `Telnet.SubnegotiationCase`).
- Canonicalising a prefix of a path first is harmless exactly when the prefix stays within the
  buffer limits (`PathCanon.ComposesIff`, `PathCanon.LongNameCase`).
- The DHCP client sends a UDP checksum of 0, which means "none", exactly when a sum of its inputs is
  a multiple of 65535 (`Dhcp.UdpFieldZeroIff`, `Dhcp.UdpFieldZeroCase`).
- `atomic_dec_and_test` reports a last reference exactly when the number of references left is a
  multiple of 2^32, so too early once that many exist (`RefCount.WrapReturnsEarly`,
  `RefCount.WrapCase`).
- The telnet option refusals the comments describe are never sent, for any input
  (`Telnet.NeverRefuses`).

## Model

| member | source | states |
|---|---|---|
| `Descriptors.TableDescRoundTrip` | uts/aarch64/mmu.c:594-594 | a table descriptor is valid, recognised as a table, and its address field gives back the table's frame |
| `Descriptors.PageDescRoundTrip` | uts/aarch64/mmu.c:602-614 | a 4 KB user descriptor is valid, open to EL0, not Device, and gives back its frame |
| `Descriptors.NormalBlockRoundTrip` | uts/aarch64/mmu.c:209-240 | a Normal block is valid, never taken for a table, closed to EL0, and keeps its base |
| `Descriptors.DeviceBlockRoundTrip` | uts/aarch64/mmu.c:226-240 | a Device block is valid, never taken for a table, and keeps its base |
| `Descriptors.PageAttrs` | uts/aarch64/mmu.c:602-614 | every attribute field of a user page: Normal, AP 01, inner shareable, accessed, global, executable |
| `Descriptors.NormalAttrs` | uts/aarch64/mmu.c:209-237 | every attribute field of a Normal block: AP 00, inner shareable, accessed, not executable at EL0 |
| `Descriptors.DeviceAttrs` | uts/aarch64/mmu.c:230-233 | every attribute field of a Device block: index 2, AP 00, not shareable, accessed, never executable |
| `PageTables.IndexFields` | uts/aarch64/mmu.c:580-614 | the four table indices and the page offset are the fields of a 48-bit address |
| `Pmm.FreePushes` | uts/os/core/pmm.c:95-104 | freeing a page not on the list puts it in front, counts it, and writes one word |
| `Pmm.AllocPops` | uts/os/core/pmm.c:106-119 | allocation returns the front page zeroed and leaves the rest of the list; it returns null exactly for an empty list |
| `Pmm.EnrolPushes` | uts/os/core/pmm.c:123-138 | enrolling a fresh range puts every whole page inside it on the list, in ascending order |
| `Pmm.WholePagesIff` | uts/os/core/pmm.c:123-138 | for any bounds the pages enrolled ascend, and are exactly the pages that lie wholly inside the range iff the start does not wrap or the range ends below 8 KB |
| `Pmm.AddRangePushes` | uts/os/core/pmm.c:123-138 | they go in front of the list and no other page changes |
| `Pmm.ListUnique` | uts/os/core/pmm.c:95-119 | memory determines the free list |
| `PageOwnership.AllocKeeps` | uts/os/core/pmm.c:106-119 | taking a page keeps every table, mapping and list as recorded in the ledger |
| `PageOwnership.FreeKeeps` | uts/os/core/pmm.c:95-104 | the link written into a freed page overwrites no table, mapping or other free page |
| `PageOwnership.WriteKeeps` | uts/aarch64/mmu.c:602-614 | data written to a held or mapped page reaches no table and no free-list link |
| `PageOwnership.PromoteKeeps` | uts/aarch64/mmu.c:580-596 | replacing an inherited block by an L3 table moves just that page, from the caller to the address space |
| `PageOwnership.InstallKeeps` | uts/aarch64/mmu.c:602-614 | writing a page descriptor moves just that page, from the caller to (address space, va) |
| `PageOwnership.RemoveKeeps` | uts/aarch64/mmu.c:653-668 | clearing a page descriptor ends just that mapping |
| `PageLifecycle.AttachKeeps` | uts/aarch64/mmu.c:482-538 | the three tables of a new address space become its own; shared boot sub-trees are not owned |
| `PageLifecycle.OrderFacts` | uts/aarch64/mmu.c:675-691 | teardown visits exactly the L3 tables and mapped pages of the address space, each once |
| `PageLifecycle.FreeOneTable` | uts/aarch64/mmu.c:675-691 | one step of teardown frees a table's pages, then the table, and clears its entry, leaving all other pages in place |
| `PageLifecycle.VmPages` | uts/aarch64/mmu.c:543-555 | an address space's pages are its three tables and what teardown walks |
| `PageLifecycle.DestroyReturnsAll` | uts/aarch64/mmu.c:543-555 | destroy puts exactly the address space's pages on the free list, once each, and moves no other page, in particular no boot table |
| `PageRuns.CreateKeeps` | uts/aarch64/mmu.c:482-538 | create succeeds exactly when three pages are free, and then the first three become its tables; otherwise ledger and free pages are as before |
| `PageRuns.MapKeeps` | uts/aarch64/mmu.c:602-614 | map fails exactly when an L3 table is needed and no page is free; the new free list and ledger, entry by entry |
| `PageRuns.UnmapKeeps` | uts/aarch64/mmu.c:653-668 | unmap of a mapped page names it and moves just it to the front of the free list; of an unmapped one changes nothing |
| `PageRuns.StepKeeps` | uts/aarch64/mmu.c:482-691 | every operation on any address space keeps the ownership invariant |
| `PageRuns.RunKeepsOwnership` | uts/aarch64/mmu.c:482-691 | over every run, each enrolled page is in exactly one place and the set of enrolled pages is the same |
| `PageRuns.ExactlyOnePlace` | uts/aarch64/mmu.c:482-691 | read off the real lists and tables: a page in one place (free list, table of one address space, one mapping, a caller's hands) is in no other |
| `PageRuns.BootOwnership` | uts/os/core/pmm.c:123-138 | the state after enrolment satisfies the invariant |
| `PageTranslation.TranslationRefinesMap` | uts/aarch64/mmu.c:623-648 | the software translation is a lookup in a finite page map plus the page offset |
| `PageTranslation.MapIsLedger` | uts/aarch64/mmu.c:573-668 | that map is the mapped part of the ledger |
| `PageTranslation.MapPageRefines` | uts/aarch64/mmu.c:602-614 | map adds one entry to one map, also when a 2 MB block is promoted, and changes no other |
| `PageTranslation.UnmapRefines` | uts/aarch64/mmu.c:653-668 | unmap removes one entry from one map and changes no other |
| `PageTranslation.CreateRefines` | uts/aarch64/mmu.c:482-538 | a new address space starts with the empty map |
| `PageTranslation.StepRefines` | uts/aarch64/mmu.c:482-691 | every operation is the abstract operation on the finite maps |
| `PageTranslation.RunRefines` | uts/aarch64/mmu.c:482-691 | over every run the translations of all address spaces are a run of the finite maps |
| `PageWalk.WalkAboveUser` | uts/aarch64/mmu.c:496-538 | above 1 GB the four-level walk from a process equals the boot walk |
| `PageWalk.WalkUnpromoted` | uts/aarch64/mmu.c:476-538 | so does every 2 MB region below 1 GB that was never given an L3 table |
| `PageWalk.WalkPromoted` | uts/aarch64/mmu.c:573-648 | where an L3 table is installed, the hardware walk and the software translation agree, and an unmapped page faults |
| `PageWalk.StepTouches` | uts/aarch64/mmu.c:482-691 | no operation writes outside the enrolled pages |
| `PageWalk.RunKeepsKernelMapping` | uts/aarch64/mmu.c:482-691 | after every run, from every process, the kernel mapping is the boot mapping |
| `BootTables.IdentityMap` | uts/aarch64/mmu.c:191-241 | the first 2 GB map to themselves, kernel-only, Device exactly in the peripheral window; everything above faults |
| `BootTables.UartReachable` | uts/aarch64/mmu.c:384-448 | the UART is mapped Device at its own address exactly when it is below 2 GB or at or above 512 GB |
| `BootTables.UartClobbersLowSlot` | uts/aarch64/mmu.c:384-448 | in between, an address below 2 GB is redirected to the UART instead |
| `BootMapping.MmuInitMaps` | uts/aarch64/mmu.c:191-441 | for every console address, none included, and every address: the UART's 2 MB slot or gigabyte is Device at itself, the slot between 2 GB and 512 GB redirected, everything else the identity map |
| `BootTables.DeviceWindow` | uts/aarch64/mmu.c:298-334 | the gigabyte of an address at or above 2 GB becomes an identity Device window; no other translation changes; out of pages nothing changes; what the next window needs holds again |
| `BootTables.WindowKeepsList` | uts/aarch64/mmu.c:298-334 | a window takes at most the front page off the free list and leaves no table on it |
| `BootTables.DeviceWindows` | uts/aarch64/mmu.c:298-334 | any number of windows: outside them all translations stay, and with a page for each every window is mapped |
| `BootTables.UartKeepsTree` | uts/aarch64/mmu.c:384-448 | mmu_init leaves a tree of distinct tables wherever the UART is |
| `BootTables.IdentityIsTree` | uts/aarch64/mmu.c:191-241 | the boot tables form a tree of distinct pages |
| `BootTables.TreeIsClosed` | uts/aarch64/mmu.c:298-334 | a boot tree outside the allocator's pages is one that process tables may share |
| `BootTables.TreeUntouched` | uts/aarch64/mmu.c:298-334 | whatever happens to the allocator's pages, the boot tree stays a tree outside them |
| `BootTables.WindowEntries` | uts/aarch64/mmu.c:298-334 | a window changes at most one root entry, and then to the page it took off the list |
| `BootRuns.EnrolRange` | uts/os/core/pmm.c:123-138 | for any bounds, enrolling one more range puts exactly its whole pages on the list and keeps everything else as mmu_init left it |
| `BootRuns.WindowKeeps` | uts/aarch64/mmu.c:298-334 | with pages in drivers' hands, a window keeps ownership and the boot tree, opens one gigabyte and changes no other translation |
| `BootRuns.PageKeeps` | uts/os/core/pmm.c:95-119 | a page taken, given back or written between windows keeps both and changes no translation |
| `BootRuns.BootRunKeeps` | uts/os/main.c:439-555 | after any such mix the kernel sees a Device window in each gigabyte opened and its former mapping elsewhere |
| `BootRuns.BootHandsOver` | uts/aarch64/mmu.c:384-448 | mmu_init, enrolment and any mix of device windows and page requests by drivers lead to a state all runs start from |
| `BootRuns.KernelMappingFromBoot` | uts/aarch64/mmu.c:298-538 | from power-on, windows mixed with page requests, then every run, for every process: device windows where mapped, otherwise the address map of MmuInitMaps |
| `KernelMemory.Kernel.PmmFree` | uts/os/core/pmm.c:95-104 | in place: the pool becomes the one FreePushes speaks of |
| `KernelMemory.Kernel.ZeroFrame` | uts/os/core/pmm.c:88-93 | every word of the page is zero, no other page changes |
| `KernelMemory.Kernel.PmmAlloc` | uts/os/core/pmm.c:106-119 | in place: the pool and the page of AllocPops |
| `KernelMemory.Kernel.PmmAddRange` | uts/os/core/pmm.c:123-138 | in place: the pages wholly inside the range, in ascending order, go in front of the list |
| `KernelMemory.Kernel.CopyEntries` | uts/aarch64/mmu.c:476-480 | the entries from an index on are copied, the rest and all other pages stay |
| `KernelMemory.Kernel.WireTables` | uts/aarch64/mmu.c:496-538 | the three tables hold the wired entries the walk lemmas speak of |
| `KernelMemory.Kernel.VmapCreate` | uts/aarch64/mmu.c:482-538 | in place: pool and address space of CreateKeeps, failure included |
| `KernelMemory.Kernel.VmapL3For` | uts/aarch64/mmu.c:580-596 | finds the L3 table or installs a fresh one in place of a block or an empty entry |
| `KernelMemory.Kernel.VmapMapUser4k` | uts/aarch64/mmu.c:602-614 | in place: pool and result of MapKeeps |
| `KernelMemory.Kernel.VmapUserVaToKva` | uts/aarch64/mmu.c:623-648 | the address of TranslationRefinesMap, 0 where nothing is mapped |
| `KernelMemory.Kernel.VmapUnmapUser4k` | uts/aarch64/mmu.c:653-668 | in place: pool and page of UnmapKeeps |
| `KernelMemory.Kernel.VmapFreeUserL3s` | uts/aarch64/mmu.c:675-691 | the nested loops free what OrderFacts lists |
| `KernelMemory.Kernel.VmapDestroy` | uts/aarch64/mmu.c:543-555 | in place: the pool of DestroyReturnsAll |
| `KernelMemory.Kernel.FillHigh` | uts/aarch64/mmu.c:191-241 | fills the RAM gigabyte with Normal blocks |
| `KernelMemory.Kernel.FillLow` | uts/aarch64/mmu.c:191-241 | fills the low gigabyte, Device inside the peripheral window |
| `KernelMemory.Kernel.BuildIdentityMap` | uts/aarch64/mmu.c:191-241 | in place: the tables of IdentityMap |
| `KernelMemory.Kernel.AllocThree` | uts/aarch64/mmu.c:482-494 | the three allocations of create, in order |
| `KernelMemory.Kernel.MmuInit` | uts/aarch64/mmu.c:384-441 | in place: the address map of MmuInitMaps at every address |
| `KernelMemory.Kernel.MapDevice1gb` | uts/aarch64/mmu.c:298-334 | in place: the tables of DeviceWindow |
| `KernelRuns.System.constructor` | uts/os/core/pmm.c:140-146 | with every enrolled frame free, the ledger is right |
| `KernelRuns.System.GetPage` | uts/os/core/pmm.c:106-119 | in place, with the ledger: the front page moves to the caller |
| `KernelRuns.System.PutPage` | uts/os/core/pmm.c:95-104 | in place, with the ledger: the page moves to the front of the list |
| `KernelRuns.System.CreateVm` | uts/aarch64/mmu.c:482-538 | in place, with the ledger: three pages become tables, or nothing moves |
| `KernelRuns.System.MapPage` | uts/aarch64/mmu.c:602-614 | in place, with the ledger: the page, and a table if needed, move to the address space |
| `KernelRuns.System.UnmapPage` | uts/aarch64/mmu.c:653-668 | in place, with the ledger: the page moves to the free list |
| `KernelRuns.System.DestroyVm` | uts/aarch64/mmu.c:543-555 | in place, with the ledger: exactly the address space's pages are free again |
| `HeapBlocks.Ordered` | lib/libc/src/malloc.c:43-96 | blocks are in address order, each ending at or before the next header |
| `HeapBlocks.LivePayloads` | lib/libc/src/malloc.c:43-96 | live payloads are disjoint, 8-aligned and below the break |
| `HeapBlocks.FirstFit` | lib/libc/src/malloc.c:43-85 | the first free block that is large enough, and there is none before it |
| `HeapBlocks.MallocKeeps` | lib/libc/src/malloc.c:33-85 | malloc keeps the layout through splitting, growing and refusal |
| `HeapBlocks.ReleaseKeeps` | lib/libc/src/malloc.c:87-96 | free keeps the layout, also when it merges across a gap |
| `HeapBlocks.MallocAddsOne` | lib/libc/src/malloc.c:43-85 | a successful malloc adds one live block of at least the size at the returned pointer; a failed one changes nothing |
| `HeapBlocks.ReleaseEndsOne` | lib/libc/src/malloc.c:87-96 | free ends exactly one live block |
| `HeapBlocks.MergeExactIff` | lib/libc/src/malloc.c:87-96 | the merged block covers both exactly when they are adjacent; otherwise it stops short by the gap |
| `HeapBlocks.MergeAcrossGap` | lib/libc/src/malloc.c:33-96 | such a gap arises from two allocations that each grew the break |
| `HeapBlocks.ServedIff` | lib/libc/src/malloc.c:33-85 | in every heap state malloc keeps the layout, never lowers the break and returns null or a large enough block, exactly for the sizes named |
| `HeapBlocks.HugeRefused` | lib/libc/src/malloc.c:33-85 | in the upper band of sizes malloc refuses and changes nothing |
| `HeapBlocks.UnservedFails` | lib/libc/src/malloc.c:33-85 | every other size fails on a fresh heap or after one allocation that fills it |
| `HeapBlocks.BreakDropsCase` | lib/libc/src/malloc.c:33-41 | 2^64 - 8192 bytes pull the break back under a live block |
| `HeapBlocks.CallocHoldsIff` | lib/libc/src/malloc.c:98-104 | a block granted for the wrapped product holds the whole product exactly when it is below 2^64 |
| `HeapBlocks.CallocWrapCase` | lib/libc/src/malloc.c:98-104 | a product of 2^64 + 8 is granted 8 bytes |
| `HeapBlocks.RunKeepsLayout` | lib/libc/src/malloc.c:33-96 | the layout holds after every run of allocations and frees |
| `HeapPolicy.MallocMeetsPromise` | lib/libc/src/malloc.c:43-85 | for every served size: the lowest large enough free block is carved, with the break unmoved; without one, a block at the break exactly when granted and inside the window; else nothing changes |
| `HeapPolicy.ReleaseFields` | lib/libc/src/malloc.c:87-96 | the freed block keeps its address, swallows the next block exactly when that is free, and every other block stays |
| `HeapPolicy.FreedIsReused` | lib/libc/src/malloc.c:43-96 | after a free, any request the block can hold succeeds at or below it, even with no page granted |
| `HeapPolicy.MallocFreeMalloc` | lib/libc/src/malloc.c:43-96 | malloc, free, malloc of one size returns the same pointer |
| `HeapPolicy.MallocSpan` | lib/libc/src/malloc.c:33-85 | a reused block loses no byte; growth wastes less than a page |
| `HeapPolicy.ReleaseSpan` | lib/libc/src/malloc.c:87-96 | free loses no byte, also across a gap |
| `HeapPolicy.RunConserves` | lib/libc/src/malloc.c:33-96 | over every run no byte leaves the list, and it gains no more than the break moved |
| `Heap.SplitRepr` | lib/libc/src/malloc.c:43-85 | the header writes of a split represent the split list |
| `Heap.GrowRepr` | lib/libc/src/malloc.c:43-85 | the header writes after growing represent the list with a block at the end |
| `Heap.ReleaseRepr` | lib/libc/src/malloc.c:87-96 | the header writes of free represent the released, possibly merged, list and touch one header |
| `Heap.LiveKept` | lib/libc/src/malloc.c:43-96 | header writes touch no byte of a live payload |
| `Heap.Allocator.HeapGrow` | lib/libc/src/malloc.c:33-41 | moves the break by whole pages and returns the old break, or 0 |
| `Heap.Allocator.Malloc` | lib/libc/src/malloc.c:43-85 | for every size the outcome is that of the block list; for every served size it is the outcome of MallocMeetsPromise, memory represents it and no byte of a live payload changes |
| `Heap.Allocator.TakeBlock` | lib/libc/src/malloc.c:51-62 | the writes of a split or a whole take |
| `Heap.Allocator.Append` | lib/libc/src/malloc.c:68-85 | a new live block is linked last |
| `Heap.Allocator.ReleaseBlock` | lib/libc/src/malloc.c:90-95 | the writes of free on any header |
| `Heap.Allocator.Free` | lib/libc/src/malloc.c:87-96 | memory represents the block list of ReleaseEndsOne; no byte of another live payload changes |
| `Heap.Allocator.Calloc` | lib/libc/src/malloc.c:98-104 | every byte of the 64-bit product is zero in the block returned; for every served product the heap and other payloads stand |
| `Heap.Allocator.Realloc` | lib/libc/src/malloc.c:106-115 | for every served size keeps the first min(old, new) bytes in the block returned; on failure the old block and its bytes stay |
| `ThreadLock.StepKeeps` | include/kappara/core/thread_lock.h:44-66 | every step of every CPU keeps the lock invariant |
| `ThreadLock.RunKeeps` | include/kappara/core/thread_lock.h:44-66 | so does every interleaving |
| `ThreadLock.MutualExclusion` | include/kappara/core/spinlock.h:33-51 | at most one CPU is between spin_lock's return and spin_unlock, and the word is 1 exactly when one is |
| `ThreadLock.StaysOrReturns` | include/kappara/core/thread_lock.h:44-57 | any step of any CPU leaves a CPU inside thread_lock, or is its own comparison and makes it the owner |
| `ThreadLock.ThreadLockReturns` | include/kappara/core/thread_lock.h:44-57 | from start-up, in every interleaving, thread_lock is left only owning the thread: the lock its pointer names then is added to the caller's locks, and no other |
| `ThreadLock.Uncontended` | include/kappara/core/thread_lock.h:44-57 | with the named lock free, a CPU left alone returns from thread_lock in four steps, owning the thread |
| `ThreadLock.Retries` | include/kappara/core/thread_lock.h:44-57 | after a stale acquisition it releases that lock and gets the right one |
| `ThreadLock.OneOwner` | include/kappara/proc/sched.h:149-173 | no two CPUs own a thread at once |
| `ThreadLock.OwnerStable` | include/kappara/proc/sched.h:149-173 | a step of another CPU cannot end an ownership |
| `ThreadLock.OwnsStable` | include/kappara/proc/sched.h:149-173 | no step of any CPU ends an ownership but the owner's redirect, move or unlock |
| `ThreadLock.OwningOwns` | include/kappara/core/thread_lock.h:44-57 | a CPU back from thread_lock is such an owner |
| `ThreadLock.LockpFrozen` | include/kappara/proc/sched.h:149-173 | as long as the owner does not redirect or move the thread or unlock the named lock, whatever it and all others do otherwise, the pointer does not change and the owner keeps the lock it names |
| `RefCount.StepKeeps` | include/kappara/core/atomic.h:76-120 | every LL/SC step keeps the counter equal to the number of holders |
| `RefCount.Finishes` | include/kappara/core/atomic.h:76-120 | left alone, an update takes effect in two steps; a failed store only repeats the load |
| `RefCount.UniqueLastReference` | include/kappara/core/atomic.h:97-120 | over every run, a drop returns 1 exactly when it gives up the only reference left, and that happens once |
| `RefCount.WrapCase` | include/kappara/core/atomic.h:76-120 | a run to 2^32 + 1 references and a drop that returns 1 with 2^32 left |
| `RefCount.WrapReturnsEarly` | include/kappara/core/atomic.h:97-120 | a drop returns 1 exactly when the number of references left is a multiple of 2^32 |
| `SlabModel.RoundSize` | uts/os/core/kmem.c:168-182 | the object size is rounded up to 8 and is at least 8, except that within 7 of 2^64 it wraps to 0 |
| `SlabModel.PerSlab` | uts/os/core/kmem.c:114-118 | as many objects as fit behind the header, and no more |
| `SlabModel.FindSlab` | uts/os/core/kmem.c:208-232 | the first slab with a free object, and there is none before it |
| `SlabModel.SlotInPage` | uts/os/core/kmem.c:125-148 | every slot is past the header, inside the page and 8-aligned |
| `SlabModel.MaskIs` | uts/os/core/kmem.c:120-123 | the pointer mask is rounding down to the page |
| `SlabModel.MaskRecoversSlab` | uts/os/core/kmem.c:120-123 | masking an object's address gives its slab |
| `SlabModel.CapacityIff` | uts/os/core/kmem.c:168-182 | a cache can hold objects exactly when its rounded size is not 0 and one fits behind the header |
| `SlabModel.GrowKeeps` | uts/os/core/kmem.c:125-148 | a new slab keeps the invariant and makes nothing live |
| `SlabModel.PopKeeps` | uts/os/core/kmem.c:208-232 | popping makes exactly one object live that was not |
| `SlabModel.PushKeeps` | uts/os/core/kmem.c:234-240 | freeing ends exactly one live object |
| `SlabModel.FreedIsNext` | uts/os/core/kmem.c:208-240 | an object freed is the next handed out, and the cache is as before, when earlier slabs are full |
| `SlabModel.FreshOrder` | uts/os/core/kmem.c:125-148 | a new slab hands out its objects in ascending order, back to back after the header |
| `SlabModel.AllocKeeps` | uts/os/core/kmem.c:208-232 | allocation hands out an object that was not live; it fails only with every slab full and no page, and then changes nothing |
| `SlabModel.SlabsMatchPeak` | uts/os/core/kmem.c:208-240 | after every run the slab count is the peak number of live objects divided by the capacity, rounded up |
| `SlabModel.SlabsMatchPeakFromInit` | uts/os/core/kmem.c:168-240 | the same from initialisation |
| `Kmem.LiveObjects` | uts/os/core/kmem.c:109-148 | live objects of all caches are disjoint, past their header, 8-aligned, and masking one names its slab and cache |
| `Kmem.FreeApart` | uts/os/core/kmem.c:125-148 | a free object's link word is outside every live object |
| `Kmem.LiveWriteRepr` | uts/os/core/kmem.c:125-148 | whatever is written to any word of a live object, the allocator's lists stand |
| `Kmem.NewCacheSettled` | uts/os/core/kmem.c:168-182 | every object size gives a well-formed cache, barren exactly when an object does not fit a slab or the rounding wraps |
| `Kmem.NullPopIff` | uts/os/core/kmem.c:208-232 | a growing allocation pops a null object exactly when the cache is barren |
| `Kmem.PopRepr` | uts/os/core/kmem.c:208-232 | the header and counter writes of an allocation represent the popped cache |
| `Kmem.PushRepr` | uts/os/core/kmem.c:234-240 | the header found by masking is the live object's, and the writes represent the cache with it freed |
| `Kmem.GrowRepr` | uts/os/core/kmem.c:125-148 | the header and link writes of a new slab represent the grown cache, other caches unchanged |
| `Kmem.Allocator.CacheInit` | uts/os/core/kmem.c:168-182 | a new empty cache for any 64-bit object size; the others stay |
| `Kmem.Allocator.GrowCache` | uts/os/core/kmem.c:125-148 | formats a page as a slab with every slot free; without a page nothing changes |
| `Kmem.Allocator.CacheAlloc` | uts/os/core/kmem.c:208-232 | the cache and object of AllocKeeps, no other cache changes; a barren cache without a page fails cleanly |
| `Kmem.Allocator.SlabFree` | uts/os/core/kmem.c:234-240 | the cache of PushKeeps, no other cache changes |
| `Kmem.Allocator.Kfree` | uts/os/core/kmem.c:257-270 | a live object goes back to the cache it came from; null and foreign pointers change nothing |
| `Kmem.Allocator.CacheFree` | uts/os/core/kmem.c:242-255 | the same, and an object of another cache is refused |
| `Kmem.Allocator.Kmalloc` | uts/os/core/kmem.c:303-313 | allocates from the smallest class that fits; 0 for size 0 and above the largest class |
| `Kmem.ClassFor` | uts/os/core/kmem.c:303-313 | the first size class that fits, and no smaller one does |
| `Kmem.ClassIs` | uts/os/core/kmem.c:303-313 | exactly the sizes 1 to 2048 are served, from a class below twice the size or of 16 bytes |
| `SlabPages.AllocStep` | uts/os/core/kmem.c:125-232 | an allocation that grows takes the front page off the page list; slabs of all caches, free pages and pages in other hands stay apart |
| `SlabPages.WriteStep` | uts/os/core/kmem.c:125-148 | no write to a slab page or a held page reaches the free list |
| `SlabPages.RunKeeps` | uts/os/core/kmem.c:125-240 | every run of all caches and of page requests keeps this |
| `SlabPages.SlabsAndPages` | uts/os/core/kmem.c:125-240 | from empty caches, over every run: a page is free, or a slab of one cache, or in other hands, and each cache has the slabs its own peak of live objects needs |
| `NvmeQueue.MatchIffAnswered` | uts/virt/nvme.c:256-269 | the head entry has the expected tag exactly when the outstanding command is answered, and is then its completion, never an older one |
| `NvmeQueue.StepRefines` | uts/virt/nvme.c:230-300 | every driver or controller step is a step of the unbounded FIFO |
| `NvmeQueue.AlwaysRoom` | uts/virt/nvme.c:230-300 | the controller can always post the answer it holds |
| `NvmeQueue.RunRefines` | uts/virt/nvme.c:230-300 | every run is a FIFO run with the same commands and completions |
| `NvmeQueue.EveryWaitTakesItsOwn` | uts/virt/nvme.c:230-300 | from start-up, the k-th completion taken is the one posted for the k-th command submitted, and head, tail and phase follow the counts |
| `NvmeQueue.QueuePair.Submit` | uts/virt/nvme.c:233-245 | in place: entry, tail and doorbell of a submit step |
| `NvmeQueue.QueuePair.Poll` | uts/virt/nvme.c:256-269 | takes the completion exactly when answered; -1 exactly when the low ten status bits are not zero |
| `NvmeQueue.QueuePair.Device` | uts/virt/nvme.c:230-300 | the controller's step on the shared rings |
| `NvmeQueue.Driver.SubmitAndWait` | uts/virt/nvme.c:230-300 | the answer taken is to the command just submitted, with the next 16-bit id; it is taken if the controller fetches and then posts |
| `RingCounter.RotationIff` | uts/virt/ena.c:831-853 | a 16-bit counter walks a ring of the depth without a jump exactly when the depth divides 65536 |
| `EnaRx.StepConserves` | uts/virt/ena.c:831-866 | every step moves a buffer between places and loses or duplicates none |
| `EnaRx.PostHolds` | uts/virt/ena.c:831-853 | a post overwrites only a descriptor the device has read |
| `EnaRx.CompleteHolds` | uts/virt/ena.c:999-1028 | the completion ring holds the last completions with the phase of their pass |
| `EnaRx.HeadMatches` | uts/virt/ena.c:999-1007 | the head has the expected phase exactly when a completion is pending |
| `EnaRx.Sees` | uts/virt/ena.c:831-1028 | neither ring is over-full, the device reads the oldest unread descriptor intact, the driver the oldest pending completion |
| `EnaRx.StepKeeps` | uts/virt/ena.c:831-1028 | every driver or device step keeps the ring invariant, at any depth short of a harmful wrap |
| `EnaRx.RunKeeps` | uts/virt/ena.c:831-1028 | so does every interleaving |
| `EnaRx.ExactlyOnePlace` | uts/virt/ena.c:999-1028 | every buffer is named once among unread descriptors, the device, pending completions and the driver |
| `EnaRx.ReceiveRingSafe` | uts/virt/ena.c:831-1028 | all of this over every run from start-up, across wraps of the 16-bit counters |
| `EnaRx.WrapBreaks` | uts/virt/ena.c:831-853 | for every other depth a run of the ring to the 65536th post, where the phase flips in mid-pass |
| `EnaRx.IntactIff` | uts/virt/ena.c:831-1028 | over all runs the ring stays intact exactly when its depth divides 65536 |
| `EnaRx.Queue.constructor` | uts/virt/ena.c:741-756 | zeroed rings, counters at 0, phases at 1 |
| `EnaRx.Queue.RxPost` | uts/virt/ena.c:831-853 | in place, at any depth: one descriptor, tail and phase; short of a harmful wrap the ring stays intact |
| `EnaRx.Queue.RxRefillAll` | uts/virt/ena.c:856-866 | every buffer enrolled and posted once in order; fails exactly when an allocation fails, before the doorbell |
| `EnaRx.Queue.RxTake` | uts/virt/ena.c:999-1023 | takes the oldest pending completion; passes its frame on exactly when the length is 1 to 2048 and the buffer exists |
| `EnaRx.Queue.RxPollOne` | uts/virt/ena.c:999-1028 | the buffer taken is the buffer posted back, whatever the device does meanwhile, at any depth; short of a harmful wrap the ring stays intact |
| `Telnet.FeedConcat` | uts/virt/telnetd.c:229-284 | where the stream is cut makes no difference |
| `Telnet.PlainOutput` | uts/virt/telnetd.c:236-243 | outside commands every byte is passed on but a NUL right after a CR |
| `Telnet.CommandsKeepCr` | uts/virt/telnetd.c:244-281 | commands emit nothing and leave the CR memory; a doubled 0xFF is one byte |
| `Telnet.Output` | uts/virt/telnetd.c:229-284 | the output is never longer than the input |
| `Telnet.EscapeInverts` | uts/virt/telnetd.c:236-249 | data with 0xFF doubled and CR sent as CR NUL comes out as it was |
| `Telnet.ItemInverts` | uts/virt/telnetd.c:229-284 | each kind of item decodes to its data and leaves the filter at rest |
| `Telnet.DecodeInvertsEncode` | uts/virt/telnetd.c:229-284 | the filter inverts the encoder for every list of items |
| `Telnet.SessionInverts` | uts/virt/telnetd.c:211-284 | so does a session for every cut into segments |
| `Telnet.SubnegotiationIff` | uts/virt/telnetd.c:244-281 | an escaped subnegotiation is dropped exactly when its body has no 0xFF |
| `Telnet.SubnegotiationCase` | uts/virt/telnetd.c:244-281 | an escaped 0xFF body byte comes out of the filter |
| `Telnet.NeverRefuses` | uts/virt/telnetd.c:259-276 | from a fresh filter no refusal is ever queued |
| `Telnet.IacFilter.StripByte` | uts/virt/telnetd.c:234-282 | one turn of the loop is one step of the filter |
| `Telnet.IacFilter.IacStrip` | uts/virt/telnetd.c:229-284 | in place: output bytes and filter state of the whole call |
| `PathCanon.SegmentsJoin` | user/init.c:112-116 | the segments of a joined path are those of its parts |
| `PathCanon.WithinLimitsIff` | user/init.c:111-132 | a limit is hit exactly when some prefix normalises to more than 32 segments or 125 characters; otherwise the result is the stack normalisation |
| `PathCanon.DotIsSelf` | user/init.c:118-120 | a/. names what a names |
| `PathCanon.ChildIs` | user/init.c:128-136 | a name within the limits is appended to the canonical text of a |
| `PathCanon.ParentOfChild` | user/init.c:121-127 | a/name/.. names what a names |
| `PathCanon.ParentOfRoot` | user/init.c:121-127 | .. leads nowhere from the root |
| `PathCanon.CanonShape` | user/init.c:100-137 | the result starts with a slash, has no empty, "." or ".." segment and no trailing slash |
| `PathCanon.NeverLonger` | user/init.c:100-137 | the result is never longer than the input |
| `PathCanon.Idempotent` | user/init.c:100-137 | canonicalising twice is canonicalising once |
| `PathCanon.Composes` | user/init.c:100-137 | canon(canon(a)/b) = canon(a/b) for a within the limits |
| `PathCanon.StoppedIgnores` | user/init.c:128-128 | a path that hits a limit ignores what is appended |
| `PathCanon.ComposesIff` | user/init.c:100-137 | the composition law holds for all b exactly when a stays within the limits |
| `PathCanon.LongNameCase` | user/init.c:128-128 | one name of 125 characters stops the walk and breaks the composition law |
| `PathCanon.RelativeToCwd` | user/init.c:139-155 | a relative argument in the directory reached from a names what a/arg names |
| `PathCanon.AbsoluteFromAnywhere` | user/init.c:141-144 | an absolute argument names the same place from every directory |
| `PathCanon.TakeSegment` | user/init.c:118-131 | one segment skipped, popped, pushed or refused, in the buffers |
| `PathCanon.Collect` | user/init.c:104-132 | the loop leaves the stack of the whole path in the buffers |
| `PathCanon.PathCanonical` | user/init.c:100-137 | in place: the canonical text, terminated, nothing beyond it changed |
| `PathCanon.ResolvePath` | user/init.c:139-155 | the canonical form of the joined path clipped to the buffer; of the clipped argument alone when that is absolute |
| `Checksum.FoldIsResidue` | cmd/dhcpagent.c:86-86 | folding carries computes the residue modulo 65535 in 1..65535, 0 only for 0 |
| `Checksum.ResidueMod` | cmd/dhcpagent.c:86-86 | that residue is congruent to the sum |
| `Checksum.OddPads` | cmd/dhcpagent.c:81-88 | an odd last byte counts as if followed by a zero byte |
| `Checksum.StoredVerifies` | cmd/dhcpagent.c:81-88 | a checksum stored in a zeroed even-offset field makes the whole sum to 0 |
| `Checksum.ZeroIff` | cmd/dhcpagent.c:81-88 | the result is 0 exactly when the sum is a positive multiple of 65535 |
| `Checksum.Csum16` | cmd/dhcpagent.c:81-88 | the loops compute the checksum of the bytes, with the 32-bit accumulator's wrap |
| `Dhcp.BothChecksumsVerify` | cmd/dhcpagent.c:124-142 | for every message, the IP and UDP checksums of the frame pass the receiver's test |
| `Dhcp.DatagramSumIs` | cmd/dhcpagent.c:81-132 | the checksummed sum in terms of message type, addresses, transaction id and MAC |
| `Dhcp.UdpFieldZeroIff` | cmd/dhcpagent.c:124-132 | the UDP checksum field is 0 exactly when that sum is a multiple of 65535 |
| `Dhcp.UdpFieldZeroCase` | cmd/dhcpagent.c:124-132 | a DISCOVER from MAC 02:00:00:00:b0:35 goes out with checksum 0 |
| `DhcpRead.FrameReads` | cmd/dhcpagent.c:91-150 | every frame reads back field by field: Ethernet, IP, UDP ports and lengths, BOOTP, cookie, options, and zeros elsewhere |
| `DhcpRead.ReceiverAccepts` | cmd/dhcpagent.c:124-142 | a receiver's IP and UDP checksum tests pass for every frame, with the pseudo-header taken from the frame |
| `DhcpRead.OptionsRead` | cmd/dhcpagent.c:104-113 | a receiver's scan finds the message type, for a REQUEST the address and the server, and the parameter list |
| `Dhcp.FillMessage` | cmd/dhcpagent.c:94-122 | the BOOTP message field by field, padded to 300 bytes |
| `Dhcp.FillUdp` | cmd/dhcpagent.c:124-132 | the UDP header with the checksum of the datagram, the fields of FrameReads |
| `Dhcp.FillIp` | cmd/dhcpagent.c:134-142 | the IP header with its own checksum |
| `Dhcp.BuildDhcp` | cmd/dhcpagent.c:91-150 | in place: the frame of FrameReads, its length, and nothing written beyond it |
| `Elf.LookupFirst` | lib/ld-kappara/ld_main.c:130-148 | a name resolves to base plus value of the first defined symbol of that name in range, 0 without one |
| `Elf.DynamicStable` | lib/ld-kappara/ld_main.c:68-103 | writes outside the headers do not change what is read from them |
| `ElfImage.EhdrRead` | include/kappara/abi/elf.h:58-73 | program header offset and count are read where the header's layout puts them |
| `ElfImage.PhdrRead` | include/kappara/abi/elf.h:75-84 | so are type, address and size of a program header |
| `ElfImage.RelaRead` | include/kappara/abi/elf.h:95-99 | a relocation record encoded in memory is read back as it was, symbol and type included |
| `ElfImage.SymRead` | include/kappara/abi/elf.h:104-111 | so is a symbol record |
| `ElfImage.HashRead` | lib/ld-kappara/ld_main.c:121-128 | the search covers the hash table's chain count when it is 1 to 4096, otherwise 256 symbols |
| `ElfImage.ReadDynIs` | lib/ld-kappara/ld_main.c:83-101 | of the pairs before the first tag 0, each of the eight fields is the last value of its own tag, 0 without one |
| `ElfImage.DynamicOfImage` | lib/ld-kappara/ld_main.c:68-103 | of every object laid out in memory, the linker reads what its header, program headers and dynamic records say |
| `ElfImage.ResolveIs` | lib/ld-kappara/ld_main.c:130-148 | a name resolves to base plus value of the first symbol record that is defined, in range and so named |
| `Relocation.RelativeReplay` | lib/ld-kappara/ld_main.c:107-118 | the in-place RELATIVE pass writes what the initial memory prescribes |
| `Relocation.XdsoReplay` | lib/ld-kappara/ld_main.c:152-178 | so does the cross-object pass, failure at the first unresolved name included |
| `Relocation.LinkFollowsPlan` | lib/ld-kappara/ld_main.c:200-246 | the whole link writes exactly the planned slots, also when it fails part-way |
| `Relocation.ApplyExact` | lib/ld-kappara/ld_main.c:107-178 | disjoint slots end up holding their values |
| `Relocation.LinkExact` | lib/ld-kappara/ld_main.c:187-247 | after a link, for all bases, each RELATIVE slot is base plus addend, each import slot the resolved address, every other byte as before |
| `Relocation.SuccessIff` | lib/ld-kappara/ld_main.c:187-247 | a link succeeds exactly when libc has a dynamic section and every import of both tables resolves |
| `ElfImage.LinkOfImage` | lib/ld-kappara/ld_main.c:187-247 | the same as LinkExact in terms of the records, with the type numbers written out, and no byte outside the listed slots changes |
| `Linker.DynamicLinker.WalkDynamic` | lib/ld-kappara/ld_main.c:68-103 | the loops find the first dynamic segment and read its entries up to DT_NULL: the values of DynamicOfImage |
| `Linker.DynamicLinker.ApplyRelatives` | lib/ld-kappara/ld_main.c:107-118 | in place: the RELATIVE pass |
| `Linker.DynamicLinker.Strcmp` | lib/ld-kappara/ld_main.c:50-54 | 0 exactly for equal strings |
| `Linker.DynamicLinker.ResolveName` | lib/ld-kappara/ld_main.c:121-148 | the address LookupFirst describes |
| `Linker.DynamicLinker.ApplyCross` | lib/ld-kappara/ld_main.c:152-178 | in place: the cross-object pass |
| `Linker.DynamicLinker.CrossObject` | lib/ld-kappara/ld_main.c:218-242 | both relocation tables, in order, unless a table or libc is missing |
| `Linker.DynamicLinker.LdMain` | lib/ld-kappara/ld_main.c:187-247 | bases and entry from the last matching auxiliary entries; the link of LinkExact; 0 on failure |

## Left out

- Locks, interrupt masking, barriers, cache and TLB maintenance around these operations:
  memory is sequentially consistent and each allocator operation is atomic.
- Scheduler, wait queues, buffer cache, kfs, TCP, STREAMS, line discipline, VT emulator, shell and
  utilities: interface and plumbing code.
- `mmu_vmap_map_user_2mb`, `mmu_map_user_2mb`, mapping over a mapped page, and user addresses at or
  above 1 GB: the ownership laws are for 4 KB pages mapped at unmapped user addresses.
- The BCM branch of `build_identity_map`, a single 1 GB Device block: the virt branch is modelled.
- PageRuns.RunKeepsOwnership: a caller maps only pages it holds and writes only to pages it holds
  or has mapped.
- KernelMemory.Kernel.PmmAddRange: that the list is the new pages in front of the old ones is
  stated for pages in memory and not on the list yet; freeing a page twice is not modelled.
- Heap.Allocator.Malloc: for a size that is not served only the outcome on the block list is stated,
  not that the heap stands; HeapBlocks.ServedIff says that it does not.
- Heap.Allocator.Calloc: a product that wraps 64 bits gives a block of the wrapped size, as in the
  code, and zeroing is stated for that size (HeapBlocks.CallocHoldsIff).
- Heap.Allocator.Realloc: for a size that is not served, the move of the contents is not described.
- Heap.Allocator.Free: the pointer is null or live, as C asks; a double free is not modelled.
- The break system call is a contract: contiguous, page-aligned, one client, refusing when asked.
- Kmem.Allocator.CacheAlloc: a barren cache with a page at hand is excluded, because the code then
  follows a null pointer (Kmem.NullPopIff).
- Kmem.Allocator.CacheInit: a size that rounds to 0 makes the code divide by 0; AArch64 gives the
  quotient 0, and so does the model.
- SlabPages.SlabsAndPages: caches that can hold an object; memory is the page words of `Pmm`, and
  what the slab allocator writes into its own pages is any word.
- Kmem.LiveWriteRepr: slab headers and object words are two maps, so that an object write misses a
  header follows from the address bound stated, not from a shared byte memory.
- Kmem.Allocator.Kfree: a page that is not a slab is taken not to start with the slab magic word,
  and a pointer into a slab is a live object.
- The cache registry, cache names, counters shown to users and `kmem_init`'s fixed table.
- RefCount.UniqueLastReference: fewer than 2^32 references at once; RefCount.WrapReturnsEarly
  shows why.
- ThreadLock.RunKeeps: the holder of the lock a thread's pointer names is the only one to
  redirect it; the scheduler code that follows this rule is not part of this model. Fairness is
  not stated; progress is, for a CPU left alone (ThreadLock.Uncontended).
- `nvme_strategy`, identify commands and queue creation: they build commands and check bounds.
- NvmeQueue.Driver.SubmitAndWait: one caller at a time per queue, as there is no lock in the code;
  the endless poll loop is cut after a given number of polls.
- EnaRx.Queue.RxPost: at a 16-bit wrap the ring is shown intact only for depths that divide 65536;
  EnaRx.WrapBreaks shows what happens to the others.
- ENA transmit and admin queues, virtio-net: no ring-full check to prove, or a bound on the number
  of commands would be needed.
- The frame dispatch after a receive, and the contents of received frames.
- Telnet.SessionInverts: subnegotiation bodies without 0xFF; Telnet.SubnegotiationIff covers the rest.
- ElfImage.DynamicOfImage: a record does not run past the top of the 64-bit space.
- Relocation.LinkExact: slots are disjoint from each other and from the tables read, an access
  does not run past the top of the 64-bit space, and bytes never loaded read as zero, which ends
  every string. The auxiliary vector is a list of pairs.
- `parse_reply` and the DHCP exchange loop: input parsing with easy bounds.
