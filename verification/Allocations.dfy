/** What allocating a buffer does, for each of the six allocators, as functions of the request and
    of the replies of the operating system. `m` is the number of values of a machine word. */
module Allocations {
  import opened Kernel
  import opened Alignment
  import opened Mapping
  import IonHeaps

  const ENOMEM := 12

  /** The buffer, unless the allocation failed; the calls made; and the error reported, if any. */
  datatype Allocation = Allocation(result: Option<Buf>, effects: seq<Effect>, error: Option<int>)

  /** DWL memory, as the driver describes it. */
  datatype Linear = Linear(virtual: nat, bus: nat)

  /** A G2D buffer, as the driver describes it. */
  datatype G2dBuf = G2dBuf(handle: nat, virtual: nat, physical: nat)

  datatype Request =
    | DmaHeapRequest(size: nat, alignment: nat, cached: bool, heapFlags: bv32, fdFlags: bv32,
                     fd: Reply<nat>, phys: Reply<nat>)
    | IonRequest(size: nat, alignment: nat, heapIdMask: bv32, heapFlags: bv32, path: IonHeaps.Path, phys: Reply<nat>)
    | IpuRequest(size: nat, alignment: nat, base: Reply<nat>)
    | PxpRequest(size: nat, alignment: nat, base: Reply<nat>)
    | DwlRequest(size: nat, alignment: nat, linear: Option<Linear>)
    | G2dRequest(size: nat, alignment: nat, buf: Option<G2dBuf>)

  function StyleOf(r: Request): Style {
    if r.DmaHeapRequest? then DmaHeap(r.cached, false)
    else if r.IonRequest? then Ion
    else if r.IpuRequest? then Ipu
    else if r.PxpRequest? then Pxp
    else if r.DwlRequest? then Dwl
    else G2d
  }

  /** Sizes, alignments and addresses are machine words; the size is at least 1. */
  predicate Words(m: nat, r: Request) {
    && 1 <= r.size < m && r.alignment < m
    && (r.DmaHeapRequest? || r.IonRequest? ==> (r.phys.Ok? ==> r.phys.value < m))
    && (r.IpuRequest? || r.PxpRequest? ==> (r.base.Ok? ==> r.base.value < m))
    && (r.DwlRequest? ==> (r.linear.Some? ==> r.linear.value.virtual < m && r.linear.value.bus < m))
    && (r.G2dRequest? ==> (r.buf.Some? ==> r.buf.value.virtual < m && r.buf.value.physical < m))
  }

  function NewBuf(backing: Backing, size: nat, physical: nat, address: nat): Buf {
    Buf(backing, size, physical, address, 0, 0, false)
  }

  function Allocate(m: nat, r: Request): Allocation
    requires Words(m, r)
  {
    match r
    case DmaHeapRequest(size, _, _, heapFlags, fdFlags, fd, phys) =>
      var ask := [DmaHeapAlloc(size, heapFlags, fdFlags)];
      if fd.Failed? then Allocation(None, ask, Some(fd.errno))
      else
        WithPhysicalAddress(DmaBuf(fd.value), size, ask + [Acquire(DmaBuf(fd.value), size)],
                            [PhysIoctl(fd.value)], phys)
    case IonRequest(size, alignment, heapIdMask, heapFlags, path, phys) =>
      var dmabuf := IonHeaps.AllocateDmabuf(IonHeaps.Wish(size, alignment, heapIdMask, heapFlags), path);
      if dmabuf.fd.None? then Allocation(None, dmabuf.effects, dmabuf.error)
      else
        WithPhysicalAddress(DmaBuf(dmabuf.fd.value), size, dmabuf.effects,
                            if path.Modern? then [PhysIoctl(dmabuf.fd.value)] else [], phys)
    case IpuRequest(size, alignment, base) =>
      var actualSize := ActualSize(m, size, alignment);
      if base.Failed? then Allocation(None, [], Some(base.errno))
      else if base.value == 0 then Allocation(None, [Acquire(IpuRegion(0), actualSize)], None)
      else
        Allocation(Some(NewBuf(IpuRegion(base.value), size, Aligned(m, base.value, alignment), 0)),
                   [Acquire(IpuRegion(base.value), actualSize)], None)
    case PxpRequest(size, alignment, base) =>
      if base.Failed? then Allocation(None, [], Some(base.errno))
      else
        Allocation(Some(NewBuf(PxpRegion(base.value), size, Aligned(m, base.value, alignment), 0)),
                   [Acquire(PxpRegion(base.value), size)], None)
    case DwlRequest(size, alignment, linear) =>
      if linear.None? then Allocation(None, [], Some(ENOMEM))
      else
        var l := linear.value;
        var b := NewBuf(DwlMemory(l.bus), size, Aligned(m, l.bus, alignment), Aligned(m, l.virtual, alignment));
        Allocation(Some(b), [Acquire(DwlMemory(l.bus), ActualSize(m, size, alignment))], None)
    case G2dRequest(size, alignment, buf) =>
      if buf.None? then Allocation(None, [], Some(ENOMEM))
      else
        var g := buf.value;
        var backing := G2dBuffer(g.handle, g.physical);
        var b := NewBuf(backing, size, Aligned(m, g.physical, alignment), Aligned(m, g.virtual, alignment));
        Allocation(Some(b), [Acquire(backing, ActualSize(m, size, alignment))], None)
  }

  /** The second half of a DMA-BUF allocation: without a physical address the buffer is closed. */
  function WithPhysicalAddress(backing: Backing, size: nat, before: seq<Effect>, ask: seq<Effect>,
                               phys: Reply<nat>): Allocation
  {
    if phys.Failed? then Allocation(None, before + ask + [Release(backing)], Some(phys.errno))
    else if phys.value == 0 then Allocation(None, before + ask + [Release(backing)], None)
    else Allocation(Some(NewBuf(backing, size, phys.value, 0)), before + ask, None)
  }

  /** An allocation that fails reports an error, except in three cases: DMA memory at the physical
      address 0, and a kernel that could be asked for its ION heaps but has none for DMA. */
  lemma SilentIff(m: nat, r: Request)
    requires Words(m, r)
    ensures Allocate(m, r).result.None? && Allocate(m, r).error.None?
       <==> match r
            case DmaHeapRequest(_, _, _, _, _, fd, phys) => fd.Ok? && phys == Ok(0)
            case IonRequest(_, _, _, _, path, phys) =>
              if path.Modern? && path.lookup.mask == 0 then path.lookup.error.None?
              else path.alloc.Ok? && (path.Legacy? ==> path.mapped.Ok?) && phys == Ok(0)
            case IpuRequest(_, _, base) => base == Ok(0)
            case _ => false
  {}

  /** Which error an allocation that fails reports: that of the reply that failed, and no other. */
  lemma ErrorIff(m: nat, r: Request, e: int)
    requires Words(m, r)
    ensures Allocate(m, r).error == Some(e)
       <==> match r
            case DmaHeapRequest(_, _, _, _, _, fd, phys) => fd == Failed(e) || (fd.Ok? && phys == Failed(e))
            case IonRequest(_, _, _, _, Modern(lookup, alloc), phys) =>
              if lookup.mask == 0 then lookup.error == Some(e)
              else alloc == Failed(e) || (alloc.Ok? && phys == Failed(e))
            case IonRequest(_, _, _, _, Legacy(alloc, mapped), phys) =>
              || alloc == Failed(e)
              || (alloc.Ok? && mapped == Failed(e))
              || (alloc.Ok? && mapped.Ok? && phys == Failed(e))
            case IpuRequest(_, _, base) => base == Failed(e)
            case PxpRequest(_, _, base) => base == Failed(e)
            case DwlRequest(_, _, linear) => linear.None? && e == 12
            case G2dRequest(_, _, buf) => buf.None? && e == 12
    ensures Allocate(m, r).error.Some? ==> Allocate(m, r).result.None?
  {}

  /** On a modern kernel, with the queries for the heaps in full: nothing can fail that is not asked. */
  lemma ModernErrorIff(m: nat, r: Request, cache: bv32, q: IonHeaps.Query, e: int)
    requires Words(m, r) && r.IonRequest? && r.path.Modern? && q.Valid() && r.path.lookup == IonHeaps.Lookup(cache, q)
    ensures Allocate(m, r).error == Some(e)
       <==> || (cache == 0 && q.count == Failed(e))
            || (cache == 0 && q.count == Ok(0) && e == q.errno)
            || (cache == 0 && q.count.Ok? && q.count.value > 0 && q.heaps == Failed(e))
            || (r.path.lookup.mask != 0 && r.path.alloc == Failed(e))
            || (r.path.lookup.mask != 0 && r.path.alloc.Ok? && r.phys == Failed(e))
  {
    ErrorIff(m, r, e);
  }

  /** What the dma-heap driver is asked for, in the terms of the caller: first of all, and once. */
  lemma DmaHeapAsksAsWished(m: nat, r: Request)
    requires Words(m, r) && r.DmaHeapRequest?
    ensures var effects := Allocate(m, r).effects;
            && |effects| > 0 && effects[0] == DmaHeapAlloc(r.size, r.heapFlags, r.fdFlags)
            && forall k :: 0 < k < |effects| ==> !effects[k].DmaHeapAlloc?
  {}

  /** What ION is asked for: on an old kernel, for memory of the heaps in the caller's mask, aligned; on a
      modern one, of the heaps that were looked up. */
  lemma IonAsksAsWished(m: nat, r: Request)
    requires Words(m, r) && r.IonRequest?
    ensures var effects := Allocate(m, r).effects;
            && (r.path.Modern? && r.path.lookup.mask == 0 ==> effects == [])
            && (r.path.Legacy? || r.path.lookup.mask != 0 ==>
                  && |effects| > 0
                  && effects[0] == if r.path.Legacy? then
                                     IonAlloc(r.size, Some(r.alignment), r.heapIdMask, r.heapFlags)
                                   else
                                     IonAlloc(r.size, None, r.path.lookup.mask, r.heapFlags))
            && forall k :: 0 < k < |effects| ==> !effects[k].IonAlloc?
  {}

  /** Every allocation asks for memory of the wished length, padded by IPU, DWL and G2D. */
  lemma AcquiresAsWished(m: nat, r: Request)
    requires Words(m, r)
    ensures var padded, sum := r.IpuRequest? || r.DwlRequest? || r.G2dRequest?, r.size + r.alignment;
            forall e <- Allocate(m, r).effects :: e.Acquire? ==>
              e.length == if !padded || r.alignment <= 1 then r.size else if sum < m then sum else sum - m
  {}

  /** The physical address that is asked for is that of the DMA-BUF just acquired. */
  lemma AsksForItsOwnAddress(m: nat, r: Request)
    requires Words(m, r)
    ensures r.DmaHeapRequest? && r.fd.Ok? ==> PhysIoctl(r.fd.value) in Allocate(m, r).effects
    ensures r.IonRequest? && r.path.Modern? && r.path.lookup.mask != 0 && r.path.alloc.Ok? ==>
              PhysIoctl(r.path.alloc.value) in Allocate(m, r).effects
    ensures forall e <- Allocate(m, r).effects :: e.PhysIoctl? ==>
              || (r.DmaHeapRequest? && r.fd == Ok(e.fd))
              || (r.IonRequest? && r.path.Modern? && r.path.alloc == Ok(e.fd))
  {
    var effects := Allocate(m, r).effects;
    if r.DmaHeapRequest? && r.fd.Ok? {
      assert effects[2] == PhysIoctl(r.fd.value);
    } else if r.IonRequest? && r.path.Modern? && r.path.lookup.mask != 0 && r.path.alloc.Ok? {
      assert effects[2] == PhysIoctl(r.path.alloc.value);
    }
  }

  /** The user handle of an old kernel is freed as it was given. */
  lemma FreesItsOwnHandle(m: nat, r: Request)
    requires Words(m, r)
    ensures forall e <- Allocate(m, r).effects :: e.AcquireHandle? || e.FreeHandle? ==>
              r.IonRequest? && r.path.Legacy? && r.path.alloc == Ok(e.handle)
  {}

  /** Which buffer an allocation yields, in the terms of the replies, and when: none of those that are
      waited for failed, and no physical address is 0. Its flags are arbitrary, here 0. */
  lemma YieldsIff(m: nat, r: Request, b: Buf)
    requires Words(m, r)
    ensures Allocate(m, r).result == Some(b)
       <==> && b.size == r.size && b.flags == 0 && b.count == 0 && !b.sync
            && match r
               case DmaHeapRequest(_, _, _, _, _, fd, phys) =>
                 fd.Ok? && phys == Ok(b.physical) && b.physical > 0 && b.backing == DmaBuf(fd.value) && b.address == 0
               case IonRequest(_, _, _, _, Modern(lookup, alloc), phys) =>
                 && lookup.mask != 0 && alloc.Ok? && phys == Ok(b.physical) && b.physical > 0
                 && b.backing == DmaBuf(alloc.value) && b.address == 0
               case IonRequest(_, _, _, _, Legacy(alloc, mapped), phys) =>
                 && alloc.Ok? && mapped.Ok? && phys == Ok(b.physical) && b.physical > 0
                 && b.backing == DmaBuf(mapped.value) && b.address == 0
               case IpuRequest(_, alignment, base) =>
                 && base.Ok? && base.value > 0 && b.backing == IpuRegion(base.value) && b.address == 0
                 && b.physical == Aligned(m, base.value, alignment)
               case PxpRequest(_, alignment, base) =>
                 && base.Ok? && b.backing == PxpRegion(base.value) && b.address == 0
                 && b.physical == Aligned(m, base.value, alignment)
               case DwlRequest(_, alignment, linear) =>
                 && linear.Some? && b.backing == DwlMemory(linear.value.bus)
                 && b.physical == Aligned(m, linear.value.bus, alignment)
                 && b.address == Aligned(m, linear.value.virtual, alignment)
               case G2dRequest(_, alignment, buf) =>
                 && buf.Some? && b.backing == G2dBuffer(buf.value.handle, buf.value.physical)
                 && b.physical == Aligned(m, buf.value.physical, alignment)
                 && b.address == Aligned(m, buf.value.virtual, alignment)
  {}

  /** Where the memory behind a buffer begins, if it is a region of physical memory. */
  function RegionBase(backing: Backing): Option<nat> {
    match backing
    case DmaBuf(_) => None
    case IpuRegion(base) => Some(base)
    case PxpRegion(base) => Some(base)
    case DwlMemory(base) => Some(base)
    case G2dBuffer(_, base) => Some(base)
  }

  /** The length of the memory that is asked for: PxP asks for the bare size. */
  function RequestedLength(m: nat, r: Request): nat
    requires Words(m, r)
  {
    match r
    case IpuRequest(size, alignment, _) => ActualSize(m, size, alignment)
    case DwlRequest(size, alignment, _) => ActualSize(m, size, alignment)
    case G2dRequest(size, alignment, _) => ActualSize(m, size, alignment)
    case _ => r.size
  }

  /** The condition under which the buffer a request yields lies within the memory behind it. */
  predicate Safe(m: nat, r: Request) {
    if r.DmaHeapRequest? || r.IonRequest? then true
    else if r.PxpRequest? then
      r.base.Ok? ==> r.base.value % EffectiveAlignment(r.alignment) == 0 && !Wraps(m, r.base.value, r.alignment)
    else
      r.alignment <= 1 || r.size + r.alignment < m
  }

  /** What an allocation that succeeds yields: a fresh buffer, and memory of the requested length
      behind it; if the memory is a region that fits the address space, the physical window of the
      buffer lies within it exactly if the request was safe. */
  lemma AllocateYields(m: nat, r: Request)
    requires Words(m, r) && Allocate(m, r).result.Some?
    ensures var b := Allocate(m, r).result.value;
            && Consistent(StyleOf(r), b) && b.count == 0 && b.size == r.size
            && (!StyleOf(r).CountsOnly() ==> b.address == 0)
            && (RegionBase(b.backing).Some? ==>
                  var base := RegionBase(b.backing).value;
                  base + RequestedLength(m, r) <= m ==>
                    (Within(base, RequestedLength(m, r), b.physical, b.size) <==> Safe(m, r)))
  {
    match r
    case IpuRequest(size, alignment, base) => FitsWhenPadded(m, base.value, size, alignment);
    case DwlRequest(size, alignment, linear) => FitsWhenPadded(m, linear.value.bus, size, alignment);
    case G2dRequest(size, alignment, buf) => FitsWhenPadded(m, buf.value.physical, size, alignment);
    case PxpRequest(size, alignment, base) => UnpaddedFitsIff(m, base.value, size, alignment);
    case _ =>
  }

  lemma FitsWhenPadded(m: nat, base: nat, size: nat, alignment: nat)
    requires 1 <= size < m && alignment < m && base < m
    ensures base + ActualSize(m, size, alignment) <= m ==>
              (Within(base, ActualSize(m, size, alignment), Aligned(m, base, alignment), size)
          <==> alignment <= 1 || size + alignment < m)
  {
    if base + ActualSize(m, size, alignment) <= m {
      PaddedFitsIff(m, base, size, alignment);
    }
  }

  // ----- is the physical address aligned as asked? -----

  function AlignmentOf(r: Request): nat { EffectiveAlignment(r.alignment) }

  /** IPU, PxP, DWL and G2D align what they are given; dma-heap and ION ignore the alignment. */
  predicate Aligns(r: Request) { !r.DmaHeapRequest? && !r.IonRequest? }

  /** The physical address that the operating system reports for the memory. */
  function GivenAddress(r: Request): nat {
    match r
    case DmaHeapRequest(_, _, _, _, _, _, Ok(phys)) => phys
    case IonRequest(_, _, _, _, _, Ok(phys)) => phys
    case IpuRequest(_, _, Ok(base)) => base
    case PxpRequest(_, _, Ok(base)) => base
    case DwlRequest(_, _, Some(linear)) => linear.bus
    case G2dRequest(_, _, Some(buf)) => buf.physical
    case _ => 0
  }

  /** The physical address that users are told is a multiple of the alignment they asked for exactly
      if the allocator aligns, or what it was given happens to be such a multiple. One that aligns
      reports the least multiple from the base of the memory on, unless aligning that base wraps, and
      the NULL of physical addresses if it does. */
  lemma PhysicalAddressIsAlignedIff(m: nat, r: Request)
    requires Words(m, r) && Allocate(m, r).result.Some?
    ensures MultipleOf(Allocate(m, r).result.value.physical, AlignmentOf(r))
       <==> Aligns(r) || MultipleOf(GivenAddress(r), AlignmentOf(r))
    ensures Aligns(r) ==>
              (var physical := Allocate(m, r).result.value.physical;
               if Wraps(m, GivenAddress(r), r.alignment) then
                 physical == 0 && !LeastMultipleFrom(physical, GivenAddress(r), AlignmentOf(r))
               else
                 LeastMultipleFrom(physical, GivenAddress(r), AlignmentOf(r)))
  {
    if Aligns(r) {
      assert Allocate(m, r).result.value.physical == Aligned(m, GivenAddress(r), r.alignment);
      AlwaysMultiple(m, GivenAddress(r), AlignmentOf(r));
      AlignValToIff(m, GivenAddress(r), AlignmentOf(r));
    } else {
      assert Allocate(m, r).result.value.physical == GivenAddress(r);
    }
  }

  /** The memory begins on a page boundary, in the CPU's view as well as in the device's. */
  predicate OnPages(page: nat, r: Request)
    requires page > 0
  {
    && GivenAddress(r) % page == 0
    && (r.DwlRequest? && r.linear.Some? ==> r.linear.value.virtual % page == 0)
    && (r.G2dRequest? && r.buf.Some? ==> r.buf.value.virtual % page == 0)
  }

  /** The same call to the same allocator, which succeeds, with memory that begins on a page boundary;
      otherwise the operating system may reply differently. */
  predicate Served(m: nat, page: nat, r: Request, r': Request)
    requires page > 0
  {
    && StyleOf(r') == StyleOf(r) && r'.size == r.size && r'.alignment == r.alignment
    && Words(m, r') && OnPages(page, r') && Allocate(m, r').result.Some?
  }

  /** The call answered with memory at this physical address (and at virtual address 0). */
  function AnsweredWith(r: Request, address: nat): Request {
    match r
    case DmaHeapRequest(size, alignment, cached, heapFlags, fdFlags, _, _) =>
      DmaHeapRequest(size, alignment, cached, heapFlags, fdFlags, Ok(3), Ok(address))
    case IonRequest(size, alignment, _, _, _, _) =>
      IonRequest(size, alignment, 1, 0, IonHeaps.Legacy(Ok(1), Ok(3)), Ok(address))
    case IpuRequest(size, alignment, _) => IpuRequest(size, alignment, Ok(address))
    case PxpRequest(size, alignment, _) => PxpRequest(size, alignment, Ok(address))
    case DwlRequest(size, alignment, _) => DwlRequest(size, alignment, Some(Linear(0, address)))
    case G2dRequest(size, alignment, _) => G2dRequest(size, alignment, Some(G2dBuf(1, 0, address)))
  }

  lemma AnswerIsServed(m: nat, page: nat, r: Request, address: nat)
    requires Words(m, r) && 0 < address < m && page > 0 && address % page == 0
    ensures Served(m, page, r, AnsweredWith(r, address)) && GivenAddress(AnsweredWith(r, address)) == address
  {}

  /** Every reply that puts the memory on a page boundary leads to an aligned physical address. */
  ghost predicate AlwaysAligned(m: nat, page: nat, r: Request)
    requires page > 0
  {
    forall r' :: Served(m, page, r, r') ==> MultipleOf(Allocate(m, r').result.value.physical, AlignmentOf(r))
  }

  /** The documentation promises an aligned physical address for every allocator. What a caller can
      rely on: it is aligned for every reply exactly if the allocator aligns, or the alignment divides
      the page, on whose boundaries memory begins. If nothing is known of where memory begins (pages
      of one byte), that leaves an alignment of 0 or 1. */
  lemma AlwaysAlignedIff(m: nat, page: nat, r: Request)
    requires 1 <= page < m && Words(m, r)
    ensures AlwaysAligned(m, page, r) <==> Aligns(r) || page % AlignmentOf(r) == 0
    ensures page == 1 ==> (page % AlignmentOf(r) == 0 <==> r.alignment <= 1)
  {
    if Aligns(r) || page % AlignmentOf(r) == 0 {
      forall r' | Served(m, page, r, r')
        ensures MultipleOf(Allocate(m, r').result.value.physical, AlignmentOf(r))
      {
        PhysicalAddressIsAlignedIff(m, r');
        if !Aligns(r) {
          PagesAreAligned(GivenAddress(r'), page, AlignmentOf(r));
        }
      }
    } else {
      DivMod(page, page, 1, 0);
      AnswerIsServed(m, page, r, page);
      PhysicalAddressIsAlignedIff(m, AnsweredWith(r, page));
    }
    if page == 1 && r.alignment > 1 {
      DivMod(1, r.alignment, 0, 1);
    }
  }

  /** Every such reply leads to the least multiple of the alignment in the memory or behind it. The
      address 0 that an aligning allocator reports when its sum wraps does not count. */
  ghost predicate AlwaysLeastMultiple(m: nat, page: nat, r: Request)
    requires page > 0
  {
    forall r' :: Served(m, page, r, r') ==>
      LeastMultipleFrom(Allocate(m, r').result.value.physical, GivenAddress(r'), AlignmentOf(r))
  }

  /** Where the address space consists of pages: an allocator that aligns moves every base up to the next
      multiple exactly if the alignment is at most a page (a larger one wraps from the last page on). */
  lemma AlwaysLeastMultipleIff(m: nat, page: nat, r: Request)
    requires 1 <= page < m && m % page == 0 && Words(m, r)
    ensures AlwaysLeastMultiple(m, page, r)
       <==> if Aligns(r) then AlignmentOf(r) <= page else page % AlignmentOf(r) == 0
  {
    var a := AlignmentOf(r);
    if if Aligns(r) then a <= page else page % a == 0 {
      forall r' | Served(m, page, r, r')
        ensures LeastMultipleFrom(Allocate(m, r').result.value.physical, GivenAddress(r'), a)
      {
        PhysicalAddressIsAlignedIff(m, r');
        if Aligns(r) {
          PageFits(m, GivenAddress(r'), page);
        } else {
          PagesAreAligned(GivenAddress(r'), page, a);
        }
      }
    } else {
      var address := if Aligns(r) then m - page else page;
      LastPageStart(m, page);
      DivMod(page, page, 1, 0);
      AnswerIsServed(m, page, r, address);
      PhysicalAddressIsAlignedIff(m, AnsweredWith(r, address));
    }
  }

  lemma LastPageStart(m: nat, page: nat)
    requires 1 <= page < m && m % page == 0
    ensures (m - page) % page == 0
  {
    RemainderOf(m, page);
    var k := m / page;
    assert k >= 1;
    assert m - page == (k - 1) * page;
    DivMod(m - page, page, k - 1, 0);
  }

  // ----- do the CPU and the device see the same bytes? -----

  /** The physical address of byte `i` from the pointer that mapping the buffer yields. IPU and PxP
      memory is mapped from its unaligned base; DWL and G2D memory is one region that begins at a
      virtual and at a physical base. That mapping a DMA-BUF from offset 0 shows the memory from its
      physical address on is taken from the kernel, so that for dma-heap and ION there is nothing to
      prove. */
  function CpuByte(r: Request, b: Buf, i: nat): int {
    match r
    case DwlRequest(_, _, Some(linear)) => linear.bus + Place(linear.virtual, b.address, i)
    case G2dRequest(_, _, Some(buf)) => buf.physical + Place(buf.virtual, b.address, i)
    case IpuRequest(_, _, _) => MmapOffset(b.backing) + i
    case PxpRequest(_, _, _) => MmapOffset(b.backing) + i
    case _ => b.physical + i
  }

  /** The physical address of byte `i` from the physical address that a device is given. */
  function DeviceByte(b: Buf, i: nat): int { b.physical + i }

  ghost predicate CpuAndDeviceAgree(r: Request, b: Buf) {
    forall i: nat :: i < r.size ==> CpuByte(r, b, i) == DeviceByte(b, i)
  }

  /** Two bases that align to the same place in the memory. */
  predicate AlignAlike(m: nat, base1: nat, base2: nat, alignment: nat) {
    if Wraps(m, base1, alignment) || Wraps(m, base2, alignment) then base1 == base2
    else base1 % EffectiveAlignment(alignment) == base2 % EffectiveAlignment(alignment)
  }

  /** Every byte of a mapped buffer is the byte that a device finds at the same place exactly if, for
      IPU and PxP, the base was aligned already, and for DWL and G2D, the virtual and the physical
      base were congruent. (If aligning wraps, never, and only if they were equal.) */
  lemma CpuAndDeviceAgreeIff(m: nat, r: Request)
    requires Words(m, r) && Allocate(m, r).result.Some?
    ensures CpuAndDeviceAgree(r, Allocate(m, r).result.value)
       <==> match r
            case DwlRequest(_, alignment, l) => AlignAlike(m, l.value.virtual, l.value.bus, alignment)
            case G2dRequest(_, alignment, g) => AlignAlike(m, g.value.virtual, g.value.physical, alignment)
            case IpuRequest(_, alignment, base) =>
              base.value % EffectiveAlignment(alignment) == 0 && !Wraps(m, base.value, alignment)
            case PxpRequest(_, alignment, base) =>
              base.value % EffectiveAlignment(alignment) == 0 && !Wraps(m, base.value, alignment)
            case _ => true
  {
    var b := Allocate(m, r).result.value;
    assert CpuAndDeviceAgree(r, b) <==> CpuByte(r, b, 0) == DeviceByte(b, 0) by {
      if CpuByte(r, b, 0) == DeviceByte(b, 0) {
        forall i: nat | i < r.size ensures CpuByte(r, b, i) == DeviceByte(b, i) {}
      }
    }
    match r
    case IpuRequest(_, alignment, base) => Offset(m, base.value, EffectiveAlignment(alignment));
    case PxpRequest(_, alignment, base) => Offset(m, base.value, EffectiveAlignment(alignment));
    case DwlRequest(_, alignment, l) => SameOffsetIff(m, l.value.virtual, l.value.bus, alignment);
    case G2dRequest(_, alignment, g) => SameOffsetIff(m, g.value.virtual, g.value.physical, alignment);
    case _ =>
  }

  /** Every reply that puts the memory on page boundaries makes the CPU and the device see the same bytes. */
  ghost predicate AlwaysAgree(m: nat, page: nat, r: Request)
    requires page > 0
  {
    forall r' :: Served(m, page, r, r') ==> CpuAndDeviceAgree(r', Allocate(m, r').result.value)
  }

  lemma AlignedPageDoesNotWrap(m: nat, page: nat, base: nat, alignment: nat)
    requires base < m && page > 0 && m % page == 0 && base % page == 0
    requires page % EffectiveAlignment(alignment) == 0
    ensures base % EffectiveAlignment(alignment) == 0 && !Wraps(m, base, alignment)
  {
    DividesAtMost(page, EffectiveAlignment(alignment));
    PagesAreAligned(base, page, EffectiveAlignment(alignment));
    PageFits(m, base, page);
  }

  /** One direction, for a given reply: memory on page boundaries, and an alignment that divides them. */
  lemma PagesSuffice(m: nat, page: nat, r: Request)
    requires Words(m, r) && Allocate(m, r).result.Some?
    requires page > 0 && m % page == 0 && OnPages(page, r) && page % AlignmentOf(r) == 0
    ensures r.PxpRequest? ==> Safe(m, r)
    ensures CpuAndDeviceAgree(r, Allocate(m, r).result.value)
  {
    if Aligns(r) {
      AlignedPageDoesNotWrap(m, page, GivenAddress(r), r.alignment);
    }
    if r.DwlRequest? || r.G2dRequest? {
      var virtual := if r.DwlRequest? then r.linear.value.virtual else r.buf.value.virtual;
      AlignedPageDoesNotWrap(m, page, virtual, r.alignment);
    }
    CpuAndDeviceAgreeIff(m, r);
  }

  /** What a caller can rely on, in an address space of pages: the CPU and the device see the same bytes,
      wherever the memory is, exactly if the allocator does not align or the alignment divides the page. */
  lemma AlwaysAgreeIff(m: nat, page: nat, r: Request)
    requires 0 < page < m && m % page == 0 && Words(m, r)
    ensures AlwaysAgree(m, page, r) <==> !Aligns(r) || page % AlignmentOf(r) == 0
  {
    if !Aligns(r) || page % AlignmentOf(r) == 0 {
      forall r' | Served(m, page, r, r') ensures CpuAndDeviceAgree(r', Allocate(m, r').result.value) {
        if Aligns(r) {
          PagesSuffice(m, page, r');
        }
      }
    } else {
      DivMod(page, page, 1, 0);
      AnswerIsServed(m, page, r, page);
      CpuAndDeviceAgreeIff(m, AnsweredWith(r, page));
      DivMod(0, AlignmentOf(r), 0, 0);
    }
  }

  /** And a PxP buffer lies within its own memory, wherever that is, exactly if the alignment divides the
      page. */
  lemma AlwaysSafeIff(m: nat, page: nat, r: Request)
    requires 0 < page < m && m % page == 0 && Words(m, r) && r.PxpRequest?
    ensures (forall r' :: Served(m, page, r, r') ==> Safe(m, r')) <==> page % AlignmentOf(r) == 0
  {
    if page % AlignmentOf(r) == 0 {
      forall r' | Served(m, page, r, r') ensures Safe(m, r') {
        PagesSuffice(m, page, r');
      }
    } else {
      DivMod(page, page, 1, 0);
      AnswerIsServed(m, page, r, page);
      assert !Safe(m, AnsweredWith(r, page));
    }
  }

  // ----- the device node of an allocator -----

  /** DWL and G2D allocators use driver libraries instead of a device node. */
  predicate HasNode(style: Style) { !style.Dwl? && !style.G2d? }

  /** A new allocator opens its device node unless it is given a descriptor. */
  function NodeOpened(style: Style, given: int, node: Reply<nat>): seq<Effect> {
    if HasNode(style) && given < 0 && node.Ok? then [OpenNode(node.value)] else []
  }

  /** What destroying an allocator does to its node: dma-heap takes descriptor 0 for none. */
  function NodeClosed(style: Style, fd: int, isInternal: bool): seq<Effect> {
    if HasNode(style) && isInternal && (if style.DmaHeap? then fd > 0 else fd >= 0) then [CloseNode(fd)] else []
  }

  function OpenNodes(effects: seq<Effect>): set<int> {
    if |effects| == 0 then {}
    else
      var before := OpenNodes(effects[..|effects| - 1]);
      match effects[|effects| - 1]
      case OpenNode(node) => before + {node}
      case CloseNode(node) => before - {node}
      case _ => before
  }

  /** An allocator that is created and destroyed leaves its own device node open exactly if it is a
      dma-heap allocator and the node was opened as descriptor 0. It never closes one it was given. */
  lemma NodeLeaksIff(style: Style, given: int, node: Reply<nat>)
    requires given >= 0 || node.Ok?
    ensures var fd := if given < 0 then node.value else given;
            var effects := NodeOpened(style, given, node) + NodeClosed(style, fd, given < 0);
            && (OpenNodes(effects) != {} <==> given < 0 && style.DmaHeap? && node.value == 0)
            && (given >= 0 ==> effects == [])
  {
    if given < 0 && HasNode(style) {
      var open, close := NodeOpened(style, given, node), NodeClosed(style, node.value, true);
      assert open[..0] == [] && OpenNodes(open) == {node.value};
      if close == [] {
        assert open + close == open;
      } else {
        assert (open + close)[..1] == open;
      }
    }
  }
}
