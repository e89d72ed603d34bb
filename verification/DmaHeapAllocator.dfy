/** The dma-heap allocator. It is the only one that may allocate cached memory. */
module DmaHeapAllocator {
  import opened Kernel
  import opened Flags
  import opened Mapping
  import Allocations

  class DmaHeapBuffer {
    const dmabufFd: nat
    const physicalAddress: nat
    const size: nat
    var mappedVirtualAddress: nat
    var mapFlags: MapFlags
    var mappingRefcount: int
    var syncStarted: bool

    function State(): Buf
      reads this
    {
      Buf(DmaBuf(dmabufFd), size, physicalAddress, mappedVirtualAddress, mapFlags, mappingRefcount, syncStarted)
    }

    /** The flags are left uninitialised. */
    constructor (dmabufFd: nat, physicalAddress: nat, size: nat)
      ensures State() == Allocations.NewBuf(DmaBuf(dmabufFd), size, physicalAddress, 0).(flags := mapFlags)
    {
      this.dmabufFd, this.physicalAddress, this.size := dmabufFd, physicalAddress, size;
      mappedVirtualAddress, mappingRefcount, syncStarted := 0, 0, false;
    }
  }

  class DmaHeapAllocator {
    var dmaHeapFd: int
    const dmaHeapFdIsInternal: bool
    const heapFlags: bv32
    const fdFlags: bv32
    const isCached: bool
    const log: Log

    function Style(): Style { DmaHeap(isCached, false) }

    constructor (dmaHeapFd: int, dmaHeapFdIsInternal: bool, heapFlags: bv32, fdFlags: bv32, isCached: bool, log: Log)
      ensures this.dmaHeapFd == dmaHeapFd && this.dmaHeapFdIsInternal == dmaHeapFdIsInternal
      ensures this.heapFlags == heapFlags && this.fdFlags == fdFlags
      ensures this.isCached == isCached && this.log == log
    {
      this.dmaHeapFd, this.dmaHeapFdIsInternal := dmaHeapFd, dmaHeapFdIsInternal;
      this.heapFlags, this.fdFlags := heapFlags, fdFlags;
      this.isCached, this.log := isCached, log;
    }

    /** Opens a device node unless it is given one. Whether that node allocates cached memory is a
        matter of the build configuration. */
    static method New(dmaHeapFd: int, heapFlags: bv32, fdFlags: bv32, node: Reply<nat>,
                      allocatesUncachedMemory: bool, log: Log)
      returns (allocator: DmaHeapAllocator?, error: Option<int>)
      modifies log
      ensures allocator == null <==> dmaHeapFd < 0 && node.Failed?
      ensures error == if dmaHeapFd < 0 && node.Failed? then Some(node.errno) else None
      ensures log.effects == old(log.effects)
           + Allocations.NodeOpened(DmaHeap(!allocatesUncachedMemory, false), dmaHeapFd, node)
      ensures allocator != null ==>
                && fresh(allocator) && allocator.log == log && allocator.isCached == !allocatesUncachedMemory
                && allocator.dmaHeapFd == (if dmaHeapFd < 0 then node.value else dmaHeapFd)
                && allocator.dmaHeapFdIsInternal == (dmaHeapFd < 0)
                && allocator.heapFlags == heapFlags && allocator.fdFlags == fdFlags
    {
      allocator := new DmaHeapAllocator(dmaHeapFd, dmaHeapFd < 0, heapFlags, fdFlags, !allocatesUncachedMemory, log);
      error := None;
      if dmaHeapFd < 0 {
        if node.Failed? {
          return null, Some(node.errno);
        }
        allocator.dmaHeapFd := node.value;
        log.Record(OpenNode(node.value));
      }
    }

    static method NewFromFd(dmaHeapFd: int, heapFlags: bv32, fdFlags: bv32, isCachedMemoryHeap: int, log: Log)
      returns (allocator: DmaHeapAllocator)
      requires dmaHeapFd > 0
      ensures fresh(allocator) && allocator.log == log && allocator.dmaHeapFd == dmaHeapFd
      ensures !allocator.dmaHeapFdIsInternal && allocator.isCached == (isCachedMemoryHeap != 0)
      ensures allocator.heapFlags == heapFlags && allocator.fdFlags == fdFlags
    {
      allocator := new DmaHeapAllocator(dmaHeapFd, false, heapFlags, fdFlags, isCachedMemoryHeap != 0, log);
    }

    method Destroy()
      modifies this, log
      ensures log.effects == old(log.effects) + Allocations.NodeClosed(Style(), old(dmaHeapFd), dmaHeapFdIsInternal)
      ensures dmaHeapFd == if old(dmaHeapFd) > 0 && dmaHeapFdIsInternal then -1 else old(dmaHeapFd)
    {
      if dmaHeapFd > 0 && dmaHeapFdIsInternal {
        log.Record(CloseNode(dmaHeapFd));
        dmaHeapFd := -1;
      }
    }

    /** `fd` and `phys` answer DMA_HEAP_IOCTL_ALLOC and DMA_BUF_IOCTL_PHYS. */
    method Allocate(m: nat, size: nat, alignment: nat, fd: Reply<nat>, phys: Reply<nat>)
      returns (buffer: DmaHeapBuffer?, error: Option<int>)
      requires dmaHeapFd > 0
      requires fd.Ok? ==> fd.value > 0
      requires Allocations.Words(m, Allocations.DmaHeapRequest(size, alignment, isCached, heapFlags, fdFlags, fd, phys))
      modifies log
      ensures var r := Allocations.DmaHeapRequest(size, alignment, isCached, heapFlags, fdFlags, fd, phys);
              var a := Allocations.Allocate(m, r);
              && (buffer == null <==> a.result.None?)
              && (buffer != null ==> fresh(buffer) && buffer.State() == a.result.value.(flags := buffer.mapFlags))
              && log.effects == old(log.effects) + a.effects
              && error == a.error
    {
      log.Record(DmaHeapAlloc(size, heapFlags, fdFlags));
      if fd.Failed? {
        return null, Some(fd.errno);
      }
      log.Record(Acquire(DmaBuf(fd.value), size));
      log.Record(PhysIoctl(fd.value));
      if phys.Failed? || phys.value == 0 {
        log.Record(Release(DmaBuf(fd.value)));
        return null, if phys.Failed? then Some(phys.errno) else None;
      }
      buffer := new DmaHeapBuffer(fd.value, phys.value, size);
      error := None;
    }

    /** All that a deallocation does before it closes the descriptor. */
    method UnmapForGood(buffer: DmaHeapBuffer)
      requires buffer.dmabufFd > 0 && buffer.mappedVirtualAddress != 0
      modifies buffer, log
      ensures buffer.State() == Deallocated(Style(), old(buffer.State())).buf
      ensures log.effects + [Release(DmaBuf(buffer.dmabufFd))]
           == old(log.effects) + Deallocated(Style(), old(buffer.State())).effects
    {
      StopSyncSessionOfCached(buffer);
      buffer.mappingRefcount := 1;
      Unmap(buffer);
    }

    method Deallocate(buffer: DmaHeapBuffer)
      requires buffer.dmabufFd > 0
      modifies buffer, log
      ensures buffer.State() == Deallocated(Style(), old(buffer.State())).buf
      ensures log.effects == old(log.effects) + Deallocated(Style(), old(buffer.State())).effects
      ensures var mapped := old(buffer.mappedVirtualAddress) != 0;
              var ends := mapped && if buffer.mapFlags & 4 != 0 then old(buffer.syncStarted) else isCached;
              var calls := (if ends then [EndSync] else [])
                           + (if ends && buffer.mapFlags & 1 != 0 then [PhysIoctl(buffer.dmabufFd)] else [])
                           + (if mapped then [Munmap(old(buffer.mappedVirtualAddress), buffer.size)] else [])
                           + [Release(DmaBuf(buffer.dmabufFd))];
              && buffer.syncStarted == (old(buffer.syncStarted) && !ends)
              && log.effects == old(log.effects) + calls
    {
      DmaHeapDeallocationIs(isCached, buffer.State());
      if buffer.mappedVirtualAddress != 0 {
        UnmapForGood(buffer);
      }
      log.Record(Release(DmaBuf(buffer.dmabufFd)));
    }

    method Map(buffer: DmaHeapBuffer, flags: MapFlags, mmap: Reply<Pointer>)
      returns (address: nat, error: Option<int>)
      requires buffer.dmabufFd > 0
      requires AssertionsHold(Style(), buffer.State(), Op.Map(flags, mmap))
      modifies buffer, log
      ensures buffer.State() == Next(Style(), old(buffer.State()), Op.Map(flags, mmap)).buf
      ensures log.effects == old(log.effects) + Next(Style(), old(buffer.State()), Op.Map(flags, mmap)).effects
      ensures address == buffer.mappedVirtualAddress
      ensures error == if old(buffer.mappedVirtualAddress) == 0 && mmap.Failed? then Some(mmap.errno) else None
      ensures var first := old(buffer.mappedVirtualAddress) == 0;
              var begins := first && isCached && flags & 4 == 0;
              var prot := Protection(flags & 2 != 0 || flags & 3 == 0, flags & 1 != 0 || flags & 3 == 0);
              var calls := (if first then [Mmap(DmaBuf(buffer.dmabufFd), 0, buffer.size, prot, mmap)] else [])
                           + (if begins then [BeginSync] else [])
                           + (if begins && prot.read then [PhysIoctl(buffer.dmabufFd)] else []);
              && buffer.syncStarted == (old(buffer.syncStarted) || begins)
              && log.effects == old(log.effects) + calls
    {
      DmaHeapMapIs(isCached, buffer.State(), flags, mmap);
      var f := flags;
      error := None;
      if Access(f) == 0 {
        f := WithFullAccess(f);
      }
      if buffer.mappedVirtualAddress != 0 {
        assert Covers(buffer.mapFlags, f);
        buffer.mappingRefcount := buffer.mappingRefcount + 1;
      } else {
        buffer.mapFlags := f;
        log.Record(Mmap(DmaBuf(buffer.dmabufFd), 0, buffer.size, ProtectionOf(f), mmap));
        if mmap.Failed? {
          error := Some(mmap.errno);
        } else {
          buffer.mappingRefcount := 1;
          buffer.mappedVirtualAddress := mmap.value;
        }
        if isCached && !Manual(f) {
          StartSyncSessionImpl(buffer);
        }
      }
      address := buffer.mappedVirtualAddress;
    }

    method Unmap(buffer: DmaHeapBuffer)
      requires buffer.dmabufFd > 0
      modifies buffer, log
      ensures buffer.State() == Next(Style(), old(buffer.State()), Op.Unmap).buf
      ensures log.effects == old(log.effects) + Next(Style(), old(buffer.State()), Op.Unmap).effects
      ensures var last := old(buffer.mappedVirtualAddress) != 0 && old(buffer.mappingRefcount) == 1;
              var ends := last && isCached && buffer.mapFlags & 4 == 0;
              var calls := (if ends then [EndSync] else [])
                           + (if ends && buffer.mapFlags & 1 != 0 then [PhysIoctl(buffer.dmabufFd)] else [])
                           + (if last then [Munmap(old(buffer.mappedVirtualAddress), buffer.size)] else []);
              && buffer.syncStarted == (old(buffer.syncStarted) && !ends)
              && log.effects == old(log.effects) + calls
    {
      if buffer.mappedVirtualAddress == 0 {
        return;
      }
      buffer.mappingRefcount := buffer.mappingRefcount - 1;
      if buffer.mappingRefcount != 0 {
        return;
      }
      if isCached && !Manual(buffer.mapFlags) {
        StopSyncSessionImpl(buffer);
      }
      log.Record(Munmap(buffer.mappedVirtualAddress, buffer.size));
      buffer.mappedVirtualAddress := 0;
    }

    /** An allocator of uncached memory has routines here that do nothing. */
    method StartSyncSession(buffer: DmaHeapBuffer)
      modifies buffer, log
      ensures buffer.State() == Next(Style(), old(buffer.State()), Start).buf
      ensures log.effects == old(log.effects) + Next(Style(), old(buffer.State()), Start).effects
      ensures var begins := isCached && !old(buffer.syncStarted) && buffer.mapFlags & 4 != 0;
              && buffer.syncStarted == (old(buffer.syncStarted) || begins)
              && log.effects == old(log.effects)
                                + ((if begins then [BeginSync] else [])
                                   + (if begins && buffer.mapFlags & 2 != 0 then [PhysIoctl(buffer.dmabufFd)] else []))
    {
      if isCached && !buffer.syncStarted && Manual(buffer.mapFlags) {
        StartSyncSessionImpl(buffer);
      }
    }

    method StopSyncSession(buffer: DmaHeapBuffer)
      requires AssertionsHold(Style(), buffer.State(), Stop)
      modifies buffer, log
      ensures buffer.State() == Next(Style(), old(buffer.State()), Stop).buf
      ensures log.effects == old(log.effects) + Next(Style(), old(buffer.State()), Stop).effects
      ensures var ends := isCached && old(buffer.syncStarted) && buffer.mapFlags & 4 != 0;
              && buffer.syncStarted == (old(buffer.syncStarted) && !ends)
              && log.effects == old(log.effects)
                                + ((if ends then [EndSync] else [])
                                   + (if ends && buffer.mapFlags & 1 != 0 then [PhysIoctl(buffer.dmabufFd)] else []))
    {
      if isCached {
        StopSyncSessionOfCached(buffer);
      }
    }

    method StopSyncSessionOfCached(buffer: DmaHeapBuffer)
      requires buffer.mappedVirtualAddress != 0
      modifies buffer, log
      ensures buffer.State() == StopManual(old(buffer.State())).buf
      ensures log.effects == old(log.effects) + StopManual(old(buffer.State())).effects
    {
      if !buffer.syncStarted {
        return;
      }
      if !Manual(buffer.mapFlags) {
        return;
      }
      StopSyncSessionImpl(buffer);
    }

    method StartSyncSessionImpl(buffer: DmaHeapBuffer)
      modifies buffer, log
      ensures buffer.State() == BeginSession(old(buffer.State())).buf
      ensures log.effects == old(log.effects) + BeginSession(old(buffer.State())).effects
      ensures buffer.syncStarted
      ensures log.effects == old(log.effects)
                             + ([BeginSync] + if buffer.mapFlags & 2 != 0 then [PhysIoctl(buffer.dmabufFd)] else [])
    {
      log.Record(BeginSync);
      if Reads(buffer.mapFlags) {
        log.Record(PhysIoctl(buffer.dmabufFd));
      }
      buffer.syncStarted := true;
    }

    method StopSyncSessionImpl(buffer: DmaHeapBuffer)
      modifies buffer, log
      ensures buffer.State() == EndSession(old(buffer.State())).buf
      ensures log.effects == old(log.effects) + EndSession(old(buffer.State())).effects
      ensures !buffer.syncStarted
      ensures log.effects == old(log.effects)
                             + ([EndSync] + if buffer.mapFlags & 1 != 0 then [PhysIoctl(buffer.dmabufFd)] else [])
    {
      log.Record(EndSync);
      if Writes(buffer.mapFlags) {
        log.Record(PhysIoctl(buffer.dmabufFd));
      }
      buffer.syncStarted := false;
    }
  }
}
