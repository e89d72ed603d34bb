/** The PxP allocator. It computes the padded size like the IPU allocator, but requests the bare one. */
module PxpAllocator {
  import opened Kernel
  import Flags
  import Alignment
  import opened Mapping
  import Allocations

  class PxpBuffer {
    const physicalAddress: nat
    const actualSize: nat
    const size: nat
    const alignedPhysicalAddress: nat
    var mappedVirtualAddress: nat
    var mapFlags: Flags.MapFlags
    var mappingRefcount: int

    function State(): Buf
      reads this
    {
      Buf(PxpRegion(physicalAddress), size, alignedPhysicalAddress, mappedVirtualAddress,
          mapFlags, mappingRefcount, false)
    }

    constructor (physicalAddress: nat, alignedPhysicalAddress: nat, actualSize: nat, size: nat)
      ensures State() == Allocations.NewBuf(PxpRegion(physicalAddress), size, alignedPhysicalAddress, 0)
                         .(flags := mapFlags)
      ensures this.actualSize == actualSize
    {
      this.physicalAddress, this.alignedPhysicalAddress := physicalAddress, alignedPhysicalAddress;
      this.actualSize, this.size := actualSize, size;
      mappedVirtualAddress, mappingRefcount := 0, 0;
    }
  }

  class PxpAllocator {
    var pxpFd: int
    const pxpFdIsInternal: bool
    const log: Log

    constructor (pxpFd: int, pxpFdIsInternal: bool, log: Log)
      ensures this.pxpFd == pxpFd && this.pxpFdIsInternal == pxpFdIsInternal && this.log == log
    {
      this.pxpFd, this.pxpFdIsInternal, this.log := pxpFd, pxpFdIsInternal, log;
    }

    static method New(pxpFd: int, node: Reply<nat>, log: Log) returns (allocator: PxpAllocator?, error: Option<int>)
      modifies log
      ensures allocator == null <==> pxpFd < 0 && node.Failed?
      ensures error == if pxpFd < 0 && node.Failed? then Some(node.errno) else None
      ensures log.effects == old(log.effects) + Allocations.NodeOpened(Pxp, pxpFd, node)
      ensures allocator != null ==>
                && fresh(allocator) && allocator.log == log
                && allocator.pxpFd == (if pxpFd < 0 then node.value else pxpFd)
                && allocator.pxpFdIsInternal == (pxpFd < 0)
    {
      allocator := new PxpAllocator(pxpFd, pxpFd < 0, log);
      error := None;
      if pxpFd < 0 {
        if node.Failed? {
          return null, Some(node.errno);
        }
        allocator.pxpFd := node.value;
        log.Record(OpenNode(node.value));
      }
    }

    method Destroy()
      modifies this, log
      ensures log.effects == old(log.effects) + Allocations.NodeClosed(Pxp, old(pxpFd), pxpFdIsInternal)
      ensures pxpFd == if old(pxpFd) >= 0 && pxpFdIsInternal then -1 else old(pxpFd)
    {
      if pxpFd >= 0 && pxpFdIsInternal {
        log.Record(CloseNode(pxpFd));
        pxpFd := -1;
      }
    }

    method Allocate(m: nat, size: nat, alignment: nat, base: Reply<nat>)
      returns (buffer: PxpBuffer?, error: Option<int>)
      requires pxpFd >= 0
      requires Allocations.Words(m, Allocations.PxpRequest(size, alignment, base))
      modifies log
      ensures var a := Allocations.Allocate(m, Allocations.PxpRequest(size, alignment, base));
              && (buffer == null <==> a.result.None?)
              && (buffer != null ==>
                    && fresh(buffer) && buffer.State() == a.result.value.(flags := buffer.mapFlags)
                    && buffer.actualSize == Alignment.ActualSize(m, size, alignment))
              && log.effects == old(log.effects) + a.effects
              && error == a.error
    {
      var actualSize, a := size, alignment;
      if a == 0 {
        a := 1;
      }
      if a > 1 {
        actualSize := Alignment.AddWords(m, actualSize, a);
      }
      if base.Failed? {
        return null, Some(base.errno);
      }
      log.Record(Acquire(PxpRegion(base.value), size));
      buffer := new PxpBuffer(base.value, Alignment.AlignValTo(m, base.value, a), actualSize, size);
      error := None;
    }

    method Deallocate(buffer: PxpBuffer)
      requires pxpFd >= 0 && buffer.physicalAddress != 0
      modifies buffer, log
      ensures buffer.State() == Deallocated(Pxp, old(buffer.State())).buf
      ensures log.effects == old(log.effects) + Deallocated(Pxp, old(buffer.State())).effects
    {
      if buffer.mappedVirtualAddress != 0 {
        buffer.mappingRefcount := 1;
        Unmap(buffer);
      }
      log.Record(Release(PxpRegion(buffer.physicalAddress)));
    }

    /** Unlike in the other allocators, a call without flags does not ask for any access. */
    method Map(buffer: PxpBuffer, flags: Flags.MapFlags, mmap: Reply<Pointer>)
      returns (address: nat, error: Option<int>)
      requires pxpFd >= 0 && buffer.physicalAddress != 0
      requires AssertionsHold(Pxp, buffer.State(), Op.Map(flags, mmap))
      modifies buffer, log
      ensures buffer.State() == Next(Pxp, old(buffer.State()), Op.Map(flags, mmap)).buf
      ensures log.effects == old(log.effects) + Next(Pxp, old(buffer.State()), Op.Map(flags, mmap)).effects
      ensures address == buffer.mappedVirtualAddress
      ensures error == if old(buffer.mappedVirtualAddress) == 0 && mmap.Failed? then Some(mmap.errno) else None
      ensures var prot := Protection(flags & 2 != 0, flags & 1 != 0);
              log.effects == old(log.effects)
                             + if old(buffer.mappedVirtualAddress) != 0 then []
                               else [Mmap(PxpRegion(buffer.physicalAddress), buffer.physicalAddress,
                                          buffer.size, prot, mmap)]
    {
      error := None;
      if buffer.mappedVirtualAddress != 0 {
        assert Flags.Covers(buffer.mapFlags, flags);
        buffer.mappingRefcount := buffer.mappingRefcount + 1;
      } else {
        buffer.mapFlags := flags;
        log.Record(Mmap(PxpRegion(buffer.physicalAddress), buffer.physicalAddress, buffer.size,
                        Flags.ProtectionOf(flags), mmap));
        if mmap.Failed? {
          error := Some(mmap.errno);
        } else {
          buffer.mappingRefcount := 1;
          buffer.mappedVirtualAddress := mmap.value;
        }
      }
      address := buffer.mappedVirtualAddress;
    }

    method Unmap(buffer: PxpBuffer)
      requires buffer.physicalAddress != 0
      modifies buffer, log
      ensures buffer.State() == Next(Pxp, old(buffer.State()), Op.Unmap).buf
      ensures log.effects == old(log.effects) + Next(Pxp, old(buffer.State()), Op.Unmap).effects
    {
      if buffer.mappedVirtualAddress == 0 {
        return;
      }
      buffer.mappingRefcount := buffer.mappingRefcount - 1;
      if buffer.mappingRefcount != 0 {
        return;
      }
      log.Record(Munmap(buffer.mappedVirtualAddress, buffer.size));
      buffer.mappedVirtualAddress := 0;
    }
  }
}
