/** The DWL allocator: over-allocates, and aligns the virtual and the physical address separately. */
module DwlAllocator {
  import opened Kernel
  import Flags
  import Alignment
  import opened Mapping
  import Allocations

  class DwlBuffer {
    const dwlLinearMem: Allocations.Linear
    const actualSize: nat
    const size: nat
    const alignedVirtualAddress: nat
    const alignedPhysicalAddress: nat
    var mapFlags: Flags.MapFlags
    var mappingRefcount: int

    function State(): Buf
      reads this
    {
      Buf(DwlMemory(dwlLinearMem.bus), size, alignedPhysicalAddress, alignedVirtualAddress,
          mapFlags, mappingRefcount, false)
    }

    constructor (dwlLinearMem: Allocations.Linear, alignedVirtualAddress: nat, alignedPhysicalAddress: nat,
                 actualSize: nat, size: nat)
      ensures State()
           == Allocations.NewBuf(DwlMemory(dwlLinearMem.bus), size, alignedPhysicalAddress, alignedVirtualAddress)
              .(flags := mapFlags)
      ensures this.dwlLinearMem == dwlLinearMem && this.actualSize == actualSize
    {
      this.dwlLinearMem, this.actualSize, this.size := dwlLinearMem, actualSize, size;
      this.alignedVirtualAddress, this.alignedPhysicalAddress := alignedVirtualAddress, alignedPhysicalAddress;
      mappingRefcount := 0;
    }
  }

  class DwlAllocator {
    const log: Log

    constructor (log: Log)
      ensures this.log == log
    {
      this.log := log;
    }

    method Allocate(m: nat, size: nat, alignment: nat, linear: Option<Allocations.Linear>)
      returns (buffer: DwlBuffer?, error: Option<int>)
      requires Allocations.Words(m, Allocations.DwlRequest(size, alignment, linear))
      modifies log
      ensures var a := Allocations.Allocate(m, Allocations.DwlRequest(size, alignment, linear));
              && (buffer == null <==> a.result.None?)
              && (buffer != null ==>
                    && fresh(buffer) && buffer.State() == a.result.value.(flags := buffer.mapFlags)
                    && buffer.actualSize == Alignment.ActualSize(m, size, alignment))
              && log.effects == old(log.effects) + a.effects
              && error == a.error
    {
      var actualSize, a := size, alignment;
      if a == 0 {
        a := 1;
      }
      if a > 1 {
        actualSize := Alignment.AddWords(m, actualSize, a);
      }
      if linear.None? {
        return null, Some(Allocations.ENOMEM);
      }
      var dwlLinearMem := linear.value;
      log.Record(Acquire(DwlMemory(dwlLinearMem.bus), actualSize));
      var virtualAddress := Alignment.AlignValTo(m, dwlLinearMem.virtual, a);
      var physicalAddress := Alignment.AlignValTo(m, dwlLinearMem.bus, a);
      buffer := new DwlBuffer(dwlLinearMem, virtualAddress, physicalAddress, actualSize, size);
      error := None;
    }

    method Deallocate(buffer: DwlBuffer)
      modifies log
      ensures Deallocated(Dwl, buffer.State()).buf == buffer.State()
      ensures log.effects == old(log.effects) + Deallocated(Dwl, buffer.State()).effects
    {
      log.Record(Release(DwlMemory(buffer.dwlLinearMem.bus)));
    }

    /** The memory is always mapped; the count and the flags only serve to check redundant maps. */
    method Map(buffer: DwlBuffer, flags: Flags.MapFlags, ghost mmap: Reply<Pointer>) returns (address: nat)
      requires AssertionsHold(Dwl, buffer.State(), Op.Map(flags, mmap))
      modifies buffer
      ensures buffer.State() == Next(Dwl, old(buffer.State()), Op.Map(flags, mmap)).buf
      ensures Next(Dwl, old(buffer.State()), Op.Map(flags, mmap)).effects == []
      ensures address == buffer.alignedVirtualAddress
    {
      var f := flags;
      if f == 0 {
        f := Flags.WithFullAccess(0);
      }
      if buffer.mappingRefcount > 0 {
        assert Flags.Covers(buffer.mapFlags, f);
        buffer.mappingRefcount := buffer.mappingRefcount + 1;
      } else {
        buffer.mapFlags := f;
        buffer.mappingRefcount := 1;
      }
      address := buffer.alignedVirtualAddress;
    }

    method Unmap(buffer: DwlBuffer)
      modifies buffer
      ensures buffer.State() == Next(Dwl, old(buffer.State()), Op.Unmap).buf
      ensures Next(Dwl, old(buffer.State()), Op.Unmap).effects == []
    {
      if buffer.mappingRefcount > 0 {
        buffer.mappingRefcount := buffer.mappingRefcount - 1;
      }
    }
  }
}
