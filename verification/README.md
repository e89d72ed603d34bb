# Verified model of libimxdmabuffer

libimxdmabuffer hands out physically contiguous buffers on i.MX machines through six
allocators behind one interface: dma-heap, ION, IPU, PxP, DWL and G2D. This project models
the life of such a buffer (allocate, map, unmap, sync sessions, deallocate) in each of the
six and proves what holds over whole runs of calls.

## How the model is built

* `Kernel.dfy`: no system call is modelled by code. The reply to a call is a parameter of the
  caller, and each call that is made is recorded, in order, as an `Effect` in a `Log`.
* `Flags.dfy`: mapping flags as 32-bit words.
* `Mapping.dfy`: map, unmap, start, stop and deallocate as functions on a buffer value, for all
  six allocators; one abstract counter for all of them; stability of a mapping; which allocators
  are indistinguishable.
* `Sessions.dfy`: the sync sessions of cached dma-heap memory as a protocol that a run obeys or
  violates; the failed automatic map; its repair.
* `Coherence.dfy`: a CPU cache with lines, DRAM, and devices; sync sessions make cached memory
  behave like plain shared memory.
* `Alignment.dfy`: the over-allocate-and-align arithmetic on machine words that wrap around.
* `IonHeaps.dfy`: the cached ION heap id mask, and both kernel variants of ION allocation.
* `Allocations.dfy`: what each allocator's allocate function does for every reply it may get.
* `Ledger.dfy`: runs in which all six allocators share a process; conservation of kernel buffers,
  handles and mappings, and the physical windows of live buffers.
* `DmaHeapAllocator.dfy`, `IonAllocator.dfy`, `IpuAllocator.dfy`, `PxpAllocator.dfy`,
  `DwlAllocator.dfy`, `G2dAllocator.dfy`: the allocators as classes that update their buffers in
  place. Each method is proved to take the step that the functions above define, and to make
  exactly the system calls these list.

The main results are `Coherence.CachedMemoryIsPlain`, `Coherence.PlainSessionIff`,
`Coherence.RetryPlainIff` and `Coherence.AlwaysPlainIff`, `Sessions.BracketedIffDisciplined`, `Mapping.CountIsSaturating` with
`Mapping.SaturatingIsLargestExcess`, `Mapping.AtMostOneMapping`, `Ledger.Conservation`,
`Ledger.LiveWindows` with `Ledger.NeverOverlappedIff`, `Allocations.AlwaysAlignedIff`,
`Allocations.CpuAndDeviceAgreeIff` with `Allocations.AlwaysAgreeIff`, and `IonHeaps.CacheIsFresh`.

## Where code and documentation differ

The model follows the code. These are the places where the documentation promises more, each
with the exact condition under which the promise holds.

* dma-heap and ION ignore the alignment of a request. The physical address they report is aligned
  exactly if the kernel's reply happens to be (`Allocations.PhysicalAddressIsAlignedIff`). A caller
  can rely on it for every reply exactly if the alignment divides the pages on whose boundaries
  memory begins, and without pages only for an alignment of 0 or 1
  (`Allocations.AlwaysAlignedIff`). The other four report the next multiple for every reply exactly
  if the alignment is at most a page; a larger one can wrap around to the address 0
  (`Allocations.AlwaysLeastMultipleIff`).
* A failed automatic map still starts a session (`Sessions.StaleSession`). The session protocol is
  obeyed exactly by disciplined runs, which exclude that event
  (`Sessions.BracketedIffDisciplined`); starting the session only if mmap() succeeded removes the
  exclusion (`Sessions.RepairNeedsNoLuck`). What users read is another matter: failed maps do no
  harm in themselves, and cached memory stays plain in every run in which no reader starts a manual
  session while the flag is still set (`Coherence.CachedMemoryIsPlain`), so with automatic sessions,
  with sessions that do not read (`Coherence.FlagsMayBegin`), and if no automatic map fails
  (`Coherence.SucceedingMapsMayBegin`). A reader who tries a failed map again sees plain memory, for
  every state of the cache, exactly if the failed map was manual or the second one is automatic
  (`Coherence.RetryPlainIff`).
* A session of a write-only mapping begins without repopulating the cache. A single write-only
  session is coherent for every state of the cache exactly if it fills every line that it writes to
  (`Coherence.PlainSessionIff`).
* Taking both together, coherence holds for all runs that map with given flags exactly if the flags
  do not map for writing only or no cache line holds two bytes of the buffer, and the flags do not
  ask for manual sessions that read or there are no bytes at all (`Coherence.AlwaysPlainIff`).
* Flags of 0 mean read/write except for IPU and PxP (`Mapping.NoFlagsMeansReadWriteIff`).
* PxP requests the bare size although it computes the padded one; its window fits exactly if the
  base is aligned already (`Alignment.UnpaddedFitsIff`). A caller can rely on it wherever the memory
  is exactly if the alignment divides the page (`Allocations.AlwaysSafeIff`). Some honest neighbour's
  memory is overlapped exactly if the window leaves the pages that its own memory reaches into
  (`Ledger.NeverOverlappedIff`), which for memory of whole pages is the same
  (`Ledger.SafeIffNeverOverlapped`, `Ledger.PxpWindowsCanOverlap`).
* IPU and PxP map from the unaligned base, and DWL and G2D align two addresses independently
  (`Allocations.CpuAndDeviceAgreeIff`). With memory on page boundaries, CPU and device see the same
  bytes for every reply exactly if the alignment divides the page or the allocator does not align
  (`Allocations.AlwaysAgreeIff`).
* Since kernel 4.14 an ION allocation can fail without an error code
  (`IonHeaps.SilentFailureIff`); an IPU region at address 0 is lost (`Ledger.IpuFailureLeaksIff`);
  a dma-heap node opened as descriptor 0 is not closed (`Allocations.NodeLeaksIff`).

## Model

| member | source | states |
|---|---|---|
| Flags.CoversIsContainment | imxdmabuffer/imxdmabuffer_dma_heap_allocator.c:173 | the asserted bit expression holds exactly if the new read/write rights are among the old ones |
| Mapping.RunKeepsConsistent | imxdmabuffer/imxdmabuffer_ion_allocator.c:126-195 | in every reachable state of a really mapping allocator the address is non-NULL iff the count is positive; an automatic session is open while mapped; backing, size and physical address never change |
| Mapping.FirstMapGrants | imxdmabuffer/imxdmabuffer_dma_heap_allocator.c:166-193 | in the bits that the caller passed, for every allocator: mmap() gets exactly the read and write rights asked for, or all if nothing is asked for (by the rule of each allocator), the size and the offset of the buffer; and the flags so completed are recorded |
| Mapping.CallsTouchOnly | imxdmabuffer/imxdmabuffer_ion_allocator.c:126-195 | only a first map touches the flags, a failed one no count and no address; redundant maps and unmaps only count; sessions touch only their flag |
| Mapping.DmaHeapMapIs | imxdmabuffer/imxdmabuffer_dma_heap_allocator.c:171-206 | system calls and session flag after a dma-heap map in any state: a first map begins a session iff the memory is cached and bit 2 is clear, whatever mmap() replies, with the ioctl on the own descriptor iff the memory is mapped for reading |
| Mapping.RunSyncsOwnBuffer | imxdmabuffer/imxdmabuffer_dma_heap_allocator.c:271-322 | over every run and a deallocation after it, the sync ioctl is only given the descriptor of the buffer itself |
| Mapping.NextShape | imxdmabuffer/imxdmabuffer_dma_heap_allocator.c:158-235 | apart from synchronisation a call makes at most one system call: mmap() on the first map, and on the last unmap a munmap() of exactly what was mapped |
| Mapping.DeallocationShape | imxdmabuffer/imxdmabuffer_dma_heap_allocator.c:136-155 | deallocation closes an open session, unmaps once and releases once, whatever the count |
| Mapping.DmaHeapDeallocationIs | imxdmabuffer/imxdmabuffer_dma_heap_allocator.c:136-155 | system calls and session flag for a dma-heap buffer in any state: the open manual session, or the automatic one of cached memory, is ended, with the ioctl iff the memory is mapped for writing |
| Mapping.AtMostOneMapping | imxdmabuffer/imxdmabuffer_dma_heap_allocator.c:171-235 | in every reachable state of a really mapping allocator, failures included, successful mmap() calls less munmap() calls are 1 if the buffer has a mapped address and 0 if not |
| Mapping.DeallocationUnmaps | imxdmabuffer/imxdmabuffer_ion_allocator.c:106-123 | after a deallocation at any point of any run no mapping is left |
| Mapping.CountIsSaturating | imxdmabuffer/imxdmabuffer_ipu_allocator.c:151-207 | over every run, failures included, the reference count of any allocator is one abstract saturating counter of map calls that returned a pointer and unmap calls |
| Mapping.SaturatingIsLargestExcess | imxdmabuffer/imxdmabuffer.h:136-139 | that counter is the largest excess of maps over unmaps in any final stretch of the calls |
| Mapping.UnmappedIff | imxdmabuffer/imxdmabuffer.h:136-139 | a buffer is unmapped iff every final stretch of its calls has at least as many unmaps as successful maps |
| Mapping.Lockstep | imxdmabuffer/imxdmabuffer_dwl_allocator.c:140-182 | if no mmap() fails, all six allocators step in lockstep with one counter driven by the calls alone |
| Mapping.MappingIsStable | imxdmabuffer/imxdmabuffer.h:136-152 | from first map to last unmap the returned address, the flags and the protection stay the same and nothing is remapped |
| Mapping.GrantsAreContained | imxdmabuffer/imxdmabuffer.h:141-146 | every right asked for by any outstanding map is one the memory was mapped with |
| Mapping.LaterMapsAreGranted | imxdmabuffer/imxdmabuffer.h:141-146 | as long as the memory stays mapped, the protection the first map passed to mmap() allows all that any later map asked for, in the bits its caller passed |
| Mapping.RedundantMapsIgnoreFlags | imxdmabuffer/imxdmabuffer.h:148-150 | runs that differ only in the flags (MANUAL_SYNC included) of redundant maps have the same states and system calls |
| Mapping.MapAgreesIff | imxdmabuffer/imxdmabuffer_pxp_allocator.c:149-195 | two unsynchronised really mapping allocators treat a map call alike iff the buffer is mapped already or they read its flags alike |
| Mapping.FlagsReadAlikeIff | imxdmabuffer/imxdmabuffer_ion_allocator.c:135-136 | dma-heap and ION read flags alike iff they are 0 or ask for access; ION and IPU iff they are not 0 |
| Mapping.NoFlagsMeansReadWriteIff | imxdmabuffer/imxdmabuffer.h:156-158 | no flags mean read/write access iff the allocator is not IPU or PxP |
| Mapping.UncachedDmaHeapIsIon | imxdmabuffer/imxdmabuffer_dma_heap_allocator.c:158-235 | an uncached dma-heap buffer has the states, system calls and deallocation of an ION buffer in every run whose flags both read alike |
| Mapping.UncachedNeverSyncs | imxdmabuffer/imxdmabuffer_dma_heap_allocator.c:383-444 | uncached allocators never synchronise in any run, even through the stop routine that deallocation calls directly |
| Sessions.ObeyedAlternates | imxdmabuffer/imxdmabuffer_dma_heap_allocator.c:253-325 | a run that obeys the protocol begins and ends sessions alternately, in every prefix |
| Sessions.OrderlyStepIff | imxdmabuffer/imxdmabuffer_dma_heap_allocator.c:158-296 | a call keeps "session flag only on mapped memory" iff it is disciplined |
| Sessions.BracketedStepIff | imxdmabuffer/imxdmabuffer_dma_heap_allocator.c:158-296 | a call obeys the session protocol iff it is disciplined |
| Sessions.BracketedIffDisciplined | imxdmabuffer/imxdmabuffer.h:206-207 | over every run from a fresh buffer, sessions are opened only on mapped memory, closed only when open, and over before memory is unmapped, iff every call was disciplined |
| Sessions.DeallocationBalances | imxdmabuffer/imxdmabuffer_dma_heap_allocator.c:136-155 | deallocation after any disciplined run leaves no session open and nothing mapped |
| Sessions.StaleSession | imxdmabuffer/imxdmabuffer_dma_heap_allocator.c:193-250 | after a failed automatic map and a manual map, starting a session does nothing |
| Sessions.RepairNeedsNoLuck | imxdmabuffer/imxdmabuffer_dma_heap_allocator.c:205-206 | with the automatic start guarded by the success of mmap(), callers who use manual sessions properly always obey the protocol, however many maps fail |
| Coherence.SyncsWhen | imxdmabuffer/imxdmabuffer_dma_heap_allocator.c:267-322 | a call that follows the protocol issues the sync ioctl on the descriptor of the buffer when it leaves a session iff that session writes, and when it enters one iff that one reads (unless a stale flag suppresses it), and never inside one |
| Coherence.StepKeepsCoherent | imxdmabuffer/imxdmabuffer.h:181-191 | every event that follows the protocol, and begins and ends sessions as it may, keeps the invariant (no byte is dirty outside a writing session; what a session read or wrote is what plain memory holds) and reads what plain memory would |
| Coherence.CachedMemoryIsPlain | imxdmabuffer/imxdmabuffer.h:181-191 | in every interleaving that follows the protocol, failed maps included, for any line size, all CPU and device reads return the latest write, and deallocation leaves every write in DRAM, provided that no reader starts a manual session over a stale flag and that write-only sessions fill the lines they write to |
| Coherence.SucceedingMapsMayBegin | imxdmabuffer/imxdmabuffer_dma_heap_allocator.c:193-206 | the first proviso always holds if no automatic first map fails, or if the automatic start depends on the success of mmap() |
| Coherence.FlagsMayBegin | imxdmabuffer/imxdmabuffer_dma_heap_allocator.c:238-250 | the first proviso always holds if the memory is really mapped only with automatic synchronisation, or only without the READ flag, whatever maps fail |
| Coherence.SingleMayEnd | imxdmabuffer/imxdmabuffer_dma_heap_allocator.c:267-322 | the second proviso always holds if no line holds two bytes of the buffer |
| Coherence.ReadersMayEnd | imxdmabuffer/imxdmabuffer_dma_heap_allocator.c:267-322 | the second proviso always holds if the memory is never really mapped for writing only |
| Coherence.UnfilledLineLosesDeviceWrite | imxdmabuffer/imxdmabuffer_dma_heap_allocator.c:271-275 | for all write-only flags, manual or automatic, and any writes that leave a byte of a line out, a device reads back something else than it wrote to that byte |
| Coherence.PlainSessionIff | imxdmabuffer/imxdmabuffer_dma_heap_allocator.c:271-275 | a write-only session is coherent for every state of the cache iff it fills every line that it writes to |
| Coherence.FailedMapMakesStaleRead | imxdmabuffer/imxdmabuffer_dma_heap_allocator.c:193-250 | for all automatic flags of a failed map and all manual flags of the next, a cached byte is read with the value it had when the first map failed, not the one a device wrote since |
| Coherence.RetryPlainIff | imxdmabuffer/imxdmabuffer_dma_heap_allocator.c:193-250 | for any flags of a failed map and any reading flags of the next, a reader sees what a device wrote in between, for every state of the cache, byte, errno and address, iff the failed map was manual or the next is automatic (or the start is guarded) |
| Coherence.AlwaysPlainIff | imxdmabuffer/imxdmabuffer.h:181-191 | all protocol-following runs, failed maps of any flags included, that really map with given flags are coherent iff the flags do not map for writing only or no line holds two bytes of the buffer, and the flags do not ask for manual reading sessions or the start is guarded or the buffer is empty |
| Alignment.AlignValToIff | imxdmabuffer/imxdmabuffer_priv.h:16 | the macro yields the least multiple at or above the base iff its sum does not wrap, and 0 if it does |
| Alignment.Offset | imxdmabuffer/imxdmabuffer_priv.h:16 | the value of the macro for every base: the next multiple, or 0 if its sum wraps |
| Alignment.SlackIff | imxdmabuffer/imxdmabuffer_ipu_allocator.c:78-84 | slack suffices for every base iff it is at least the alignment less one |
| Alignment.PaddedFitsIff | imxdmabuffer/imxdmabuffer_ipu_allocator.c:85-105 | with a padded request the aligned window lies in the region iff the padded size did not wrap, and then with a byte to spare |
| Alignment.UnpaddedFitsIff | imxdmabuffer/imxdmabuffer_pxp_allocator.c:102-113 | with the bare size requested the window lies in the region iff the base is aligned already |
| Alignment.SameOffsetIff | imxdmabuffer/imxdmabuffer_g2d_allocator.c:94-98 | independently aligned bases move alike iff they are congruent, or equal if one of the sums wraps |
| IonHeaps.MaskOfIff | imxdmabuffer/imxdmabuffer_ion_allocator.c:305-310 | bit k of the mask is set iff some heap of DMA type has id k |
| IonHeaps.LookupErrorIff | imxdmabuffer/imxdmabuffer_ion_allocator.c:283-303 | a lookup reports error e iff nothing is cached and the failing query set errno to e, and then answers no mask |
| IonHeaps.HeapIdMask.Get | imxdmabuffer/imxdmabuffer_ion_allocator.c:270-315 | the answer and the static variable after a lookup, for every outcome of both queries |
| IonHeaps.CacheIsFresh | imxdmabuffer/imxdmabuffer_ion_allocator.c:272-315 | over every series of lookups with constant heaps the cache is the fresh mask once a query succeeded and 0 before; failed queries change nothing |
| IonHeaps.MaskIsAutodetected | imxdmabuffer/imxdmabuffer_ion_allocator.c:339-364 | since 4.14 the caller's mask and alignment make no difference: ION_IOC_ALLOC is given the cached mask, or that of exactly the DMA heaps just queried |
| IonHeaps.SilentFailureIff | imxdmabuffer/imxdmabuffer_ion_allocator.c:343-345 | ION allocation fails without an error code iff the heaps could be queried and none is a DMA heap |
| Allocations.SilentIff | imxdmabuffer/imxdmabuffer_dma_heap_allocator.c:114-120 | the replies for which an allocation fails without an error code |
| Allocations.ErrorIff | imxdmabuffer/imxdmabuffer_dma_heap_allocator.c:477-500 | for every allocator, an allocation reports error e iff a reply it waited for failed with e (ENOMEM for DWL and G2D), and then yields no buffer |
| Allocations.ModernErrorIff | imxdmabuffer/imxdmabuffer_ion_allocator.c:283-361 | the same for ION since 4.14, down to the two heap queries |
| Allocations.DmaHeapAsksAsWished | imxdmabuffer/imxdmabuffer_dma_heap_allocator.c:471-475 | DMA_HEAP_IOCTL_ALLOC is called first and once, with the size, heap flags and descriptor flags of the caller |
| Allocations.IonAsksAsWished | imxdmabuffer/imxdmabuffer_ion_allocator.c:347-358 | ION_IOC_ALLOC is called first and once, with size and heap flags of the caller, and with the mask and alignment of the caller before 4.14, the looked-up mask and no alignment since |
| Allocations.AcquiresAsWished | imxdmabuffer/imxdmabuffer_ipu_allocator.c:78-97 | every allocation acquires memory of the size asked for; IPU, DWL and G2D add an alignment above 1 |
| Allocations.AsksForItsOwnAddress | imxdmabuffer/imxdmabuffer_dma_heap_allocator.c:112-118 | the physical address asked for is that of the descriptor just received |
| Allocations.FreesItsOwnHandle | imxdmabuffer/imxdmabuffer_ion_allocator.c:364-402 | the only user handle acquired and freed is the one ION returned, and only before 4.14 |
| Allocations.YieldsIff | imxdmabuffer/imxdmabuffer_dma_heap_allocator.c:102-132 | which buffer an allocation yields, field by field in terms of the replies, and exactly when |
| Allocations.AllocateYields | imxdmabuffer/imxdmabuffer_pxp_allocator.c:71-122 | a successful allocation yields a fresh consistent buffer whose physical window lies in its memory iff the request was safe |
| Allocations.PhysicalAddressIsAlignedIff | imxdmabuffer/imxdmabuffer.h:108-115 | for every allocator, the reported physical address is a multiple of the alignment iff the allocator aligns or was given such an address; one that aligns reports the least multiple, or 0 if aligning wraps |
| Allocations.AlwaysAlignedIff | imxdmabuffer/imxdmabuffer.h:227-229 | a call's physical address is aligned for every reply iff the allocator aligns or the alignment divides the page; without pages, iff it aligns or the alignment is at most 1 |
| Allocations.AlwaysLeastMultipleIff | imxdmabuffer/imxdmabuffer.h:227-229 | in an address space of pages the reported address is the least multiple from the memory on for every reply iff the alignment is at most a page (allocators that align) or divides it (the others) |
| Allocations.CpuAndDeviceAgreeIff | imxdmabuffer/imxdmabuffer_dwl_allocator.c:111-115 | CPU and device see the same bytes iff the base is aligned (IPU, PxP) or the virtual and physical bases are congruent (DWL, G2D) |
| Allocations.AlwaysAgreeIff | imxdmabuffer/imxdmabuffer_ion_allocator.h:79-83 | CPU and device see the same bytes for every reply with memory on page boundaries iff the allocator does not align or the alignment divides the page |
| Allocations.AlwaysSafeIff | imxdmabuffer/imxdmabuffer_pxp_allocator.c:102-113 | a PxP buffer lies within its memory for every reply with memory on page boundaries iff the alignment divides the page |
| Allocations.NodeLeaksIff | imxdmabuffer/imxdmabuffer_dma_heap_allocator.c:81-85 | of the allocators with a device node, creating and destroying one leaves the node open iff it is dma-heap with descriptor 0; a given node is never closed |
| Ledger.UseEnters | imxdmabuffer/imxdmabuffer_ion_allocator.c:160-194 | what a map or unmap enters into the resource ledger |
| Ledger.DeallocationEnters | imxdmabuffer/imxdmabuffer_ipu_allocator.c:127-137 | deallocation gives back exactly one kernel buffer and at most one mapping, properly |
| Ledger.DmabufEnters | imxdmabuffer/imxdmabuffer_ion_allocator.c:320-406 | on both kernel variants an ION allocation ends with one more DMA-BUF or with none, and with no user handle |
| Ledger.AllocateEnters | imxdmabuffer/imxdmabuffer_ion_allocator.c:80-102 | a successful allocation adds the one buffer it returns, a failed one leaves the ledger unchanged, at whatever point it fails |
| Ledger.IpuFailureLeaksIff | imxdmabuffer/imxdmabuffer_ipu_allocator.c:99-113 | a failed IPU allocation keeps a region iff that region is at address 0 |
| Ledger.RunKeepsAccounts | imxdmabuffer/imxdmabuffer_pxp_allocator.c:71-216 | over every run the ledger lists, one for one, what live buffers hold, with size and protection |
| Ledger.Conservation | imxdmabuffer/imxdmabuffer_dma_heap_allocator.c:91-155 | over every run live kernel buffers equal successful allocations less deallocations, mappings equal mapped buffers, handles are none, and nothing is released or unmapped twice |
| Ledger.LiveWindows | imxdmabuffer/imxdmabuffer_g2d_allocator.c:73-98 | over every run the physical windows of live safe buffers lie within their own memory and never overlap; a window lies within its memory iff its request was safe |
| Ledger.StrayWindowOverlaps | imxdmabuffer/imxdmabuffer_pxp_allocator.c:102-113 | every PxP window that leaves the pages its memory reaches into, with room behind it, has an honest neighbour of one page whose memory it runs into |
| Ledger.NeverOverlappedIff | imxdmabuffer/imxdmabuffer_pxp_allocator.c:102-113 | a PxP window with room behind it overlaps that of no honest neighbour iff it keeps to the pages its memory reaches into, for any size |
| Ledger.SafeIffNeverOverlapped | imxdmabuffer/imxdmabuffer_pxp_allocator.c:102-113 | for sizes of whole pages, of any page size, that is so iff the request is safe |
| Ledger.PxpWindowsCanOverlap | imxdmabuffer/imxdmabuffer_pxp_allocator.c:102-113 | two honest PxP allocations of a page, both on page boundaries, with the same window |
| DmaHeapAllocator.DmaHeapAllocator.New | imxdmabuffer/imxdmabuffer_dma_heap_allocator.c:360-406 | whether the memory counts as cached, which node and flags are used, and the failure to open one |
| DmaHeapAllocator.DmaHeapAllocator.NewFromFd | imxdmabuffer/imxdmabuffer_dma_heap_allocator.c:409-447 | an external node is used and is not internal; the flags are kept; any nonzero argument means cached |
| DmaHeapAllocator.DmaHeapAllocator.Destroy | imxdmabuffer/imxdmabuffer_dma_heap_allocator.c:75-88 | which nodes are closed, and then forgotten |
| DmaHeapAllocator.DmaHeapAllocator.Allocate | imxdmabuffer/imxdmabuffer_dma_heap_allocator.c:91-133 | result, system calls and error for every reply |
| DmaHeapAllocator.DmaHeapAllocator.Deallocate | imxdmabuffer/imxdmabuffer_dma_heap_allocator.c:136-155 | final state; the open manual session, or the automatic one if the allocator is cached, is ended, the memory unmapped whatever the count, and the descriptor closed |
| DmaHeapAllocator.DmaHeapAllocator.Map | imxdmabuffer/imxdmabuffer_dma_heap_allocator.c:158-210 | new state, returned address and error; and, by the bits passed and whether the allocator is cached: the mmap() of a first map, the session it begins, and the ioctl |
| DmaHeapAllocator.DmaHeapAllocator.Unmap | imxdmabuffer/imxdmabuffer_dma_heap_allocator.c:213-235 | new state; a last unmap ends the automatic session iff the allocator is cached, issues the ioctl for writers, and unmaps |
| DmaHeapAllocator.DmaHeapAllocator.StartSyncSession | imxdmabuffer/imxdmabuffer_dma_heap_allocator.c:238-250 | new state; a session begins iff the allocator is cached, none is open and sessions are manual, with the ioctl for readers |
| DmaHeapAllocator.DmaHeapAllocator.StopSyncSession | imxdmabuffer/imxdmabuffer_dma_heap_allocator.c:282-296 | new state; a session ends iff the allocator is cached, one is open and sessions are manual, with the ioctl for writers |
| DmaHeapAllocator.DmaHeapAllocator.StartSyncSessionImpl | imxdmabuffer/imxdmabuffer_dma_heap_allocator.c:253-279 | the flag is set, and the ioctl issued on the descriptor of the buffer iff it is mapped for reading |
| DmaHeapAllocator.DmaHeapAllocator.StopSyncSessionImpl | imxdmabuffer/imxdmabuffer_dma_heap_allocator.c:299-325 | the flag is cleared, and the ioctl issued on the descriptor of the buffer iff it is mapped for writing |
| IonAllocator.IonAllocator.New | imxdmabuffer/imxdmabuffer_ion_allocator.c:225-256 | which node is used, and the failure to open one |
| IonAllocator.IonAllocator.Destroy | imxdmabuffer/imxdmabuffer_ion_allocator.c:54-67 | an internal node is closed |
| IonAllocator.IonAllocator.AllocateDmabuf | imxdmabuffer/imxdmabuffer_ion_allocator.c:320-406 | descriptor, system calls with the mask, flags and alignment of ION_IOC_ALLOC, error and cached mask, on both kernel variants |
| IonAllocator.IonAllocator.Allocate | imxdmabuffer/imxdmabuffer_ion_allocator.c:70-103 | result, system calls and error for every reply |
| IonAllocator.IonAllocator.Deallocate | imxdmabuffer/imxdmabuffer_ion_allocator.c:106-123 | final state and system calls |
| IonAllocator.IonAllocator.Map | imxdmabuffer/imxdmabuffer_ion_allocator.c:126-174 | new state, returned address and error; a first map calls mmap() with the rights of the bits passed, and the offset of the memory |
| IonAllocator.IonAllocator.Unmap | imxdmabuffer/imxdmabuffer_ion_allocator.c:177-195 | new state and system calls |
| IpuAllocator.IpuAllocator.New | imxdmabuffer/imxdmabuffer_ipu_allocator.c:237-266 | which node is used, and the failure to open one |
| IpuAllocator.IpuAllocator.Destroy | imxdmabuffer/imxdmabuffer_ipu_allocator.c:52-65 | an internal node is closed |
| IpuAllocator.IpuAllocator.Allocate | imxdmabuffer/imxdmabuffer_ipu_allocator.c:68-114 | result, requested size, aligned address and error for every reply |
| IpuAllocator.IpuAllocator.Deallocate | imxdmabuffer/imxdmabuffer_ipu_allocator.c:117-138 | final state and system calls; the unaligned base is given back |
| IpuAllocator.IpuAllocator.Map | imxdmabuffer/imxdmabuffer_ipu_allocator.c:141-187 | new state, returned address and error; a first map calls mmap() with the rights of the bits passed, and the offset of the memory |
| IpuAllocator.IpuAllocator.Unmap | imxdmabuffer/imxdmabuffer_ipu_allocator.c:190-208 | new state and system calls |
| PxpAllocator.PxpAllocator.New | imxdmabuffer/imxdmabuffer_pxp_allocator.c:245-274 | which node is used, and the failure to open one |
| PxpAllocator.PxpAllocator.Destroy | imxdmabuffer/imxdmabuffer_pxp_allocator.c:55-68 | an internal node is closed |
| PxpAllocator.PxpAllocator.Allocate | imxdmabuffer/imxdmabuffer_pxp_allocator.c:71-122 | result, requested (bare) size, aligned address and error for every reply |
| PxpAllocator.PxpAllocator.Deallocate | imxdmabuffer/imxdmabuffer_pxp_allocator.c:125-146 | final state and system calls |
| PxpAllocator.PxpAllocator.Map | imxdmabuffer/imxdmabuffer_pxp_allocator.c:149-195 | new state, returned address and error; a first map calls mmap() with the rights of the bits passed, and the offset of the memory |
| PxpAllocator.PxpAllocator.Unmap | imxdmabuffer/imxdmabuffer_pxp_allocator.c:198-216 | new state and system calls |
| DwlAllocator.DwlAllocator.Allocate | imxdmabuffer/imxdmabuffer_dwl_allocator.c:67-124 | result, requested size, both aligned addresses and error |
| DwlAllocator.DwlAllocator.Deallocate | imxdmabuffer/imxdmabuffer_dwl_allocator.c:126-138 | the memory is given back, and nothing else happens |
| DwlAllocator.DwlAllocator.Map | imxdmabuffer/imxdmabuffer_dwl_allocator.c:140-170 | new state and returned address; no system call |
| DwlAllocator.DwlAllocator.Unmap | imxdmabuffer/imxdmabuffer_dwl_allocator.c:172-182 | new state; no system call |
| G2dAllocator.G2dAllocator.Allocate | imxdmabuffer/imxdmabuffer_g2d_allocator.c:58-107 | result, requested size, both aligned addresses and error |
| G2dAllocator.G2dAllocator.Deallocate | imxdmabuffer/imxdmabuffer_g2d_allocator.c:110-122 | the buffer is given back, and nothing else happens |
| G2dAllocator.G2dAllocator.Map | imxdmabuffer/imxdmabuffer_g2d_allocator.c:125-155 | new state and returned address; no system call |
| G2dAllocator.G2dAllocator.Unmap | imxdmabuffer/imxdmabuffer_g2d_allocator.c:158-168 | new state; no system call |

## Left out

* The system calls, ioctls and driver libraries: their replies are parameters. The assumptions on
  them are stated where they are used: mmap() returns no NULL, and `Ledger.Honest` says that the
  kernel hands out only what is not in use.
* The cache in `Coherence.dfy` is a model of hardware that is not part of the repository. Its sync
  operation follows the description of the kernel workaround in the library's own
  README.md:111-114 (the entire buffer is flushed and repopulated). The DMA_BUF_IOCTL_SYNC variant
  is compiled out in the source and is not modelled.
* That mapping a DMA-BUF from offset 0 shows the memory that begins at the physical address the
  kernel reports for it: `Allocations.CpuByte` takes this for granted, so that CPU and device agree
  on dma-heap and ION buffers by definition.
* A PxP window that is unsafe because aligning its base wraps, or that reaches the end of the
  address space: `Ledger.NeverOverlappedIff` asks for room for a neighbour.
* Device accesses and CPU accesses to a buffer are ordered events; a CPU access during a device
  access is outside the documented protocol.
* The wrapped-buffer allocator, the dispatch functions, getters and the choice of a default
  allocator: one-line forwarders.
* Freeing the structures of buffers and allocators, malloc() returning NULL, and reference counts
  beyond INT_MAX.
* Creation and destruction of DWL and G2D allocators: a library handle, and nothing.
* An ION heap id of 32 or more, for which the shift in the source is undefined.
* Narrower types in driver structures (such as the size in a PxP memory descriptor): sizes and
  addresses are words of one size throughout.
* "Destroying an allocator deallocates its buffers" (imxdmabuffer/imxdmabuffer.h:98-101): no
  allocator keeps track of its buffers.
