/** The IPU allocator: over-allocates, and aligns the physical address it reports. */
module IpuAllocator {
  import opened Kernel
  import Flags
  import Alignment
  import opened Mapping
  import Allocations

  class IpuBuffer {
    const physicalAddress: nat
    const actualSize: nat
    const size: nat
    const alignedPhysicalAddress: nat
    var mappedVirtualAddress: nat
    var mapFlags: Flags.MapFlags
    var mappingRefcount: int

    function State(): Buf
      reads this
    {
      Buf(IpuRegion(physicalAddress), size, alignedPhysicalAddress, mappedVirtualAddress,
          mapFlags, mappingRefcount, false)
    }

    constructor (physicalAddress: nat, alignedPhysicalAddress: nat, actualSize: nat, size: nat)
      ensures State() == Allocations.NewBuf(IpuRegion(physicalAddress), size, alignedPhysicalAddress, 0)
                         .(flags := mapFlags)
      ensures this.actualSize == actualSize
    {
      this.physicalAddress, this.alignedPhysicalAddress := physicalAddress, alignedPhysicalAddress;
      this.actualSize, this.size := actualSize, size;
      mappedVirtualAddress, mappingRefcount := 0, 0;
    }
  }

  class IpuAllocator {
    var ipuFd: int
    const ipuFdIsInternal: bool
    const log: Log

    constructor (ipuFd: int, ipuFdIsInternal: bool, log: Log)
      ensures this.ipuFd == ipuFd && this.ipuFdIsInternal == ipuFdIsInternal && this.log == log
    {
      this.ipuFd, this.ipuFdIsInternal, this.log := ipuFd, ipuFdIsInternal, log;
    }

    static method New(ipuFd: int, node: Reply<nat>, log: Log) returns (allocator: IpuAllocator?, error: Option<int>)
      modifies log
      ensures allocator == null <==> ipuFd < 0 && node.Failed?
      ensures error == if ipuFd < 0 && node.Failed? then Some(node.errno) else None
      ensures log.effects == old(log.effects) + Allocations.NodeOpened(Ipu, ipuFd, node)
      ensures allocator != null ==>
                && fresh(allocator) && allocator.log == log
                && allocator.ipuFd == (if ipuFd < 0 then node.value else ipuFd)
                && allocator.ipuFdIsInternal == (ipuFd < 0)
    {
      allocator := new IpuAllocator(ipuFd, ipuFd < 0, log);
      error := None;
      if ipuFd < 0 {
        if node.Failed? {
          return null, Some(node.errno);
        }
        allocator.ipuFd := node.value;
        log.Record(OpenNode(node.value));
      }
    }

    method Destroy()
      modifies this, log
      ensures log.effects == old(log.effects) + Allocations.NodeClosed(Ipu, old(ipuFd), ipuFdIsInternal)
      ensures ipuFd == if old(ipuFd) >= 0 && ipuFdIsInternal then -1 else old(ipuFd)
    {
      if ipuFd >= 0 && ipuFdIsInternal {
        log.Record(CloseNode(ipuFd));
        ipuFd := -1;
      }
    }

    method Allocate(m: nat, size: nat, alignment: nat, base: Reply<nat>)
      returns (buffer: IpuBuffer?, error: Option<int>)
      requires ipuFd >= 0
      requires Allocations.Words(m, Allocations.IpuRequest(size, alignment, base))
      modifies log
      ensures var a := Allocations.Allocate(m, Allocations.IpuRequest(size, alignment, base));
              && (buffer == null <==> a.result.None?)
              && (buffer != null ==>
                    && fresh(buffer) && buffer.State() == a.result.value.(flags := buffer.mapFlags)
                    && buffer.actualSize == Alignment.ActualSize(m, size, alignment))
              && log.effects == old(log.effects) + a.effects
              && error == a.error
    {
      var actualSize, a := size, alignment;
      if a == 0 {
        a := 1;
      }
      if a > 1 {
        actualSize := Alignment.AddWords(m, actualSize, a);
      }
      if base.Failed? {
        return null, Some(base.errno);
      }
      log.Record(Acquire(IpuRegion(base.value), actualSize));
      if base.value == 0 {
        return null, None;
      }
      buffer := new IpuBuffer(base.value, Alignment.AlignValTo(m, base.value, a), actualSize, size);
      error := None;
    }

    method Deallocate(buffer: IpuBuffer)
      requires ipuFd >= 0 && buffer.physicalAddress != 0
      modifies buffer, log
      ensures buffer.State() == Deallocated(Ipu, old(buffer.State())).buf
      ensures log.effects == old(log.effects) + Deallocated(Ipu, old(buffer.State())).effects
    {
      if buffer.mappedVirtualAddress != 0 {
        buffer.mappingRefcount := 1;
        Unmap(buffer);
      }
      log.Record(Release(IpuRegion(buffer.physicalAddress)));
    }

    /** Unlike in the other allocators, a call without flags does not ask for any access. */
    method Map(buffer: IpuBuffer, flags: Flags.MapFlags, mmap: Reply<Pointer>)
      returns (address: nat, error: Option<int>)
      requires ipuFd >= 0 && buffer.physicalAddress != 0
      requires AssertionsHold(Ipu, buffer.State(), Op.Map(flags, mmap))
      modifies buffer, log
      ensures buffer.State() == Next(Ipu, old(buffer.State()), Op.Map(flags, mmap)).buf
      ensures log.effects == old(log.effects) + Next(Ipu, old(buffer.State()), Op.Map(flags, mmap)).effects
      ensures address == buffer.mappedVirtualAddress
      ensures error == if old(buffer.mappedVirtualAddress) == 0 && mmap.Failed? then Some(mmap.errno) else None
      ensures var prot := Protection(flags & 2 != 0, flags & 1 != 0);
              log.effects == old(log.effects)
                             + if old(buffer.mappedVirtualAddress) != 0 then []
                               else [Mmap(IpuRegion(buffer.physicalAddress), buffer.physicalAddress,
                                          buffer.size, prot, mmap)]
    {
      error := None;
      if buffer.mappedVirtualAddress != 0 {
        assert Flags.Covers(buffer.mapFlags, flags);
        buffer.mappingRefcount := buffer.mappingRefcount + 1;
      } else {
        buffer.mapFlags := flags;
        log.Record(Mmap(IpuRegion(buffer.physicalAddress), buffer.physicalAddress, buffer.size,
                        Flags.ProtectionOf(flags), mmap));
        if mmap.Failed? {
          error := Some(mmap.errno);
        } else {
          buffer.mappingRefcount := 1;
          buffer.mappedVirtualAddress := mmap.value;
        }
      }
      address := buffer.mappedVirtualAddress;
    }

    method Unmap(buffer: IpuBuffer)
      requires buffer.physicalAddress != 0
      modifies buffer, log
      ensures buffer.State() == Next(Ipu, old(buffer.State()), Op.Unmap).buf
      ensures log.effects == old(log.effects) + Next(Ipu, old(buffer.State()), Op.Unmap).effects
    {
      if buffer.mappedVirtualAddress == 0 {
        return;
      }
      buffer.mappingRefcount := buffer.mappingRefcount - 1;
      if buffer.mappingRefcount != 0 {
        return;
      }
      log.Record(Munmap(buffer.mappedVirtualAddress, buffer.size));
      buffer.mappedVirtualAddress := 0;
    }
  }
}
