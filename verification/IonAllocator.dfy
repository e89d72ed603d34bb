/** The ION allocator, in its variants for kernels before and since 4.14. */
module IonAllocator {
  import opened Kernel
  import Flags
  import opened Mapping
  import opened IonHeaps
  import Allocations

  class IonBuffer {
    const dmabufFd: nat
    const physicalAddress: nat
    const size: nat
    var mappedVirtualAddress: nat
    var mapFlags: Flags.MapFlags
    var mappingRefcount: int

    function State(): Buf
      reads this
    {
      Buf(DmaBuf(dmabufFd), size, physicalAddress, mappedVirtualAddress, mapFlags, mappingRefcount, false)
    }

    constructor (dmabufFd: nat, physicalAddress: nat, size: nat)
      ensures State() == Allocations.NewBuf(DmaBuf(dmabufFd), size, physicalAddress, 0).(flags := mapFlags)
    {
      this.dmabufFd, this.physicalAddress, this.size := dmabufFd, physicalAddress, size;
      mappedVirtualAddress, mappingRefcount := 0, 0;
    }
  }

  class IonAllocator {
    var ionFd: int
    const ionFdIsInternal: bool
    const heapIdMask: bv32
    const heapFlags: bv32
    const isLegacyKernel: bool
    const heapIds: HeapIdMask  // stands for the static variable that all ION allocators share
    const log: Log

    constructor (ionFd: int, ionFdIsInternal: bool, heapIdMask: bv32, heapFlags: bv32, isLegacyKernel: bool,
                 heapIds: HeapIdMask, log: Log)
      ensures this.ionFd == ionFd && this.ionFdIsInternal == ionFdIsInternal
      ensures this.heapIdMask == heapIdMask && this.heapFlags == heapFlags
      ensures this.isLegacyKernel == isLegacyKernel && this.heapIds == heapIds && this.log == log
    {
      this.ionFd, this.ionFdIsInternal := ionFd, ionFdIsInternal;
      this.heapIdMask, this.heapFlags := heapIdMask, heapFlags;
      this.isLegacyKernel, this.heapIds, this.log := isLegacyKernel, heapIds, log;
    }

    static method New(ionFd: int, heapIdMask: bv32, heapFlags: bv32, node: Reply<nat>, isLegacyKernel: bool,
                      heapIds: HeapIdMask, log: Log)
      returns (allocator: IonAllocator?, error: Option<int>)
      modifies log
      ensures allocator == null <==> ionFd < 0 && node.Failed?
      ensures error == if ionFd < 0 && node.Failed? then Some(node.errno) else None
      ensures log.effects == old(log.effects) + Allocations.NodeOpened(Ion, ionFd, node)
      ensures allocator != null ==>
                && fresh(allocator) && allocator.log == log && allocator.heapIds == heapIds
                && allocator.heapIdMask == heapIdMask && allocator.heapFlags == heapFlags
                && allocator.ionFd == (if ionFd < 0 then node.value else ionFd)
                && allocator.ionFdIsInternal == (ionFd < 0) && allocator.isLegacyKernel == isLegacyKernel
    {
      allocator := new IonAllocator(ionFd, ionFd < 0, heapIdMask, heapFlags, isLegacyKernel, heapIds, log);
      error := None;
      if ionFd < 0 {
        if node.Failed? {
          return null, Some(node.errno);
        }
        allocator.ionFd := node.value;
        log.Record(OpenNode(node.value));
      }
    }

    method Destroy()
      modifies this, log
      ensures log.effects == old(log.effects) + Allocations.NodeClosed(Ion, old(ionFd), ionFdIsInternal)
      ensures ionFd == if old(ionFd) >= 0 && ionFdIsInternal then -1 else old(ionFd)
    {
      if ionFd >= 0 && ionFdIsInternal {
        log.Record(CloseNode(ionFd));
        ionFd := -1;
      }
    }

    /** On a modern kernel the mask that is passed is replaced by the one that is looked up. */
    method AllocateDmabuf(w: Wish, query: Query, alloc: Reply<nat>, mapped: Reply<nat>)
      returns (dmabufFd: Option<nat>, error: Option<int>)
      requires ionFd >= 0 && query.Valid()
      modifies heapIds, log
      ensures var path := if isLegacyKernel then Legacy(alloc, mapped)
                          else Modern(Lookup(old(heapIds.heapIdMask), query), alloc);
              var d := IonHeaps.AllocateDmabuf(w, path);
              && dmabufFd == d.fd && error == d.error
              && log.effects == old(log.effects) + d.effects
      ensures heapIds.heapIdMask
           == if isLegacyKernel then old(heapIds.heapIdMask) else Lookup(old(heapIds.heapIdMask), query).mask
    {
      dmabufFd, error := None, None;
      var mask := w.heapIdMask;
      if !isLegacyKernel {
        var answer := heapIds.Get(query);
        mask := answer.mask;
        if mask == 0 {
          return None, answer.error;
        }
      }
      log.Record(IonAlloc(w.size, if isLegacyKernel then Some(w.alignment) else None, mask, w.heapFlags));
      if alloc.Failed? {
        return None, Some(alloc.errno);
      }
      if isLegacyKernel {
        log.Record(AcquireHandle(alloc.value));
        if mapped.Failed? {
          error := Some(mapped.errno);
        } else {
          dmabufFd := Some(mapped.value);
          log.Record(Acquire(DmaBuf(mapped.value), w.size));
        }
        log.Record(FreeHandle(alloc.value));
      } else {
        dmabufFd := Some(alloc.value);
        log.Record(Acquire(DmaBuf(alloc.value), w.size));
      }
    }

    method Allocate(m: nat, size: nat, alignment: nat,
                    query: Query, alloc: Reply<nat>, mapped: Reply<nat>, phys: Reply<nat>)
      returns (buffer: IonBuffer?, error: Option<int>)
      requires ionFd >= 0 && query.Valid()
      requires 1 <= size < m && alignment < m && (phys.Ok? ==> phys.value < m)
      modifies heapIds, log
      ensures var path := if isLegacyKernel then Legacy(alloc, mapped)
                          else Modern(Lookup(old(heapIds.heapIdMask), query), alloc);
              var r := Allocations.IonRequest(size, alignment, heapIdMask, heapFlags, path, phys);
              var a := Allocations.Allocate(m, r);
              && (buffer == null <==> a.result.None?)
              && (buffer != null ==> fresh(buffer) && buffer.State() == a.result.value.(flags := buffer.mapFlags))
              && log.effects == old(log.effects) + a.effects
              && error == a.error
      ensures heapIds.heapIdMask
           == if isLegacyKernel then old(heapIds.heapIdMask) else Lookup(old(heapIds.heapIdMask), query).mask
    {
      var dmabufFd;
      dmabufFd, error := AllocateDmabuf(Wish(size, alignment, heapIdMask, heapFlags), query, alloc, mapped);
      if dmabufFd.None? {
        return null, error;
      }
      if !isLegacyKernel {
        log.Record(PhysIoctl(dmabufFd.value));
      }
      if phys.Failed? || phys.value == 0 {
        log.Record(Release(DmaBuf(dmabufFd.value)));
        return null, if phys.Failed? then Some(phys.errno) else None;
      }
      buffer := new IonBuffer(dmabufFd.value, phys.value, size);
    }

    method Deallocate(buffer: IonBuffer)
      modifies buffer, log
      ensures buffer.State() == Deallocated(Ion, old(buffer.State())).buf
      ensures log.effects == old(log.effects) + Deallocated(Ion, old(buffer.State())).effects
    {
      if buffer.mappedVirtualAddress != 0 {
        buffer.mappingRefcount := 1;
        Unmap(buffer);
      }
      log.Record(Release(DmaBuf(buffer.dmabufFd)));
    }

    method Map(buffer: IonBuffer, flags: Flags.MapFlags, mmap: Reply<Pointer>)
      returns (address: nat, error: Option<int>)
      requires AssertionsHold(Ion, buffer.State(), Op.Map(flags, mmap))
      modifies buffer, log
      ensures buffer.State() == Next(Ion, old(buffer.State()), Op.Map(flags, mmap)).buf
      ensures log.effects == old(log.effects) + Next(Ion, old(buffer.State()), Op.Map(flags, mmap)).effects
      ensures address == buffer.mappedVirtualAddress
      ensures error == if old(buffer.mappedVirtualAddress) == 0 && mmap.Failed? then Some(mmap.errno) else None
      ensures var prot := Protection(flags & 2 != 0 || flags == 0, flags & 1 != 0 || flags == 0);
              log.effects == old(log.effects)
                             + if old(buffer.mappedVirtualAddress) != 0 then []
                               else [Mmap(DmaBuf(buffer.dmabufFd), 0, buffer.size, prot, mmap)]
    {
      var f := flags;
      error := None;
      if f == 0 {
        f := Flags.WithFullAccess(0);
      }
      if buffer.mappedVirtualAddress != 0 {
        assert Flags.Covers(buffer.mapFlags, f);
        buffer.mappingRefcount := buffer.mappingRefcount + 1;
      } else {
        buffer.mapFlags := f;
        log.Record(Mmap(DmaBuf(buffer.dmabufFd), 0, buffer.size, Flags.ProtectionOf(f), mmap));
        if mmap.Failed? {
          error := Some(mmap.errno);
        } else {
          buffer.mappingRefcount := 1;
          buffer.mappedVirtualAddress := mmap.value;
        }
      }
      address := buffer.mappedVirtualAddress;
    }

    method Unmap(buffer: IonBuffer)
      modifies buffer, log
      ensures buffer.State() == Next(Ion, old(buffer.State()), Op.Unmap).buf
      ensures log.effects == old(log.effects) + Next(Ion, old(buffer.State()), Op.Unmap).effects
    {
      if buffer.mappedVirtualAddress == 0 {
        return;
      }
      buffer.mappingRefcount := buffer.mappingRefcount - 1;
      if buffer.mappingRefcount != 0 {
        return;
      }
      log.Record(Munmap(buffer.mappedVirtualAddress, buffer.size));
      buffer.mappedVirtualAddress := 0;
    }
  }
}
