/** The G2D allocator: over-allocates, and aligns the virtual and the physical address separately. */
module G2dAllocator {
  import opened Kernel
  import Flags
  import Alignment
  import opened Mapping
  import Allocations

  class G2dBuffer {
    const g2dBuf: Allocations.G2dBuf
    const actualSize: nat
    const size: nat
    const alignedVirtualAddress: nat
    const alignedPhysicalAddress: nat
    var mapFlags: Flags.MapFlags
    var mappingRefcount: int

    function State(): Buf
      reads this
    {
      Buf(Kernel.G2dBuffer(g2dBuf.handle, g2dBuf.physical), size, alignedPhysicalAddress, alignedVirtualAddress,
          mapFlags, mappingRefcount, false)
    }

    constructor (g2dBuf: Allocations.G2dBuf, alignedVirtualAddress: nat, alignedPhysicalAddress: nat,
                 actualSize: nat, size: nat)
      ensures var backing := Kernel.G2dBuffer(g2dBuf.handle, g2dBuf.physical);
              State() == Allocations.NewBuf(backing, size, alignedPhysicalAddress, alignedVirtualAddress)
                         .(flags := mapFlags)
      ensures this.g2dBuf == g2dBuf && this.actualSize == actualSize
    {
      this.g2dBuf, this.actualSize, this.size := g2dBuf, actualSize, size;
      this.alignedVirtualAddress, this.alignedPhysicalAddress := alignedVirtualAddress, alignedPhysicalAddress;
      mappingRefcount := 0;
    }
  }

  class G2dAllocator {
    const log: Log

    constructor (log: Log)
      ensures this.log == log
    {
      this.log := log;
    }

    method Allocate(m: nat, size: nat, alignment: nat, buf: Option<Allocations.G2dBuf>)
      returns (buffer: G2dBuffer?, error: Option<int>)
      requires Allocations.Words(m, Allocations.G2dRequest(size, alignment, buf))
      modifies log
      ensures var a := Allocations.Allocate(m, Allocations.G2dRequest(size, alignment, buf));
              && (buffer == null <==> a.result.None?)
              && (buffer != null ==>
                    && fresh(buffer) && buffer.State() == a.result.value.(flags := buffer.mapFlags)
                    && buffer.actualSize == Alignment.ActualSize(m, size, alignment))
              && log.effects == old(log.effects) + a.effects
              && error == a.error
    {
      var actualSize, a := size, alignment;
      if a == 0 {
        a := 1;
      }
      if a > 1 {
        actualSize := Alignment.AddWords(m, actualSize, a);
      }
      if buf.None? {
        return null, Some(Allocations.ENOMEM);
      }
      var g2dBuf := buf.value;
      log.Record(Acquire(Kernel.G2dBuffer(g2dBuf.handle, g2dBuf.physical), actualSize));
      var virtualAddress := Alignment.AlignValTo(m, g2dBuf.virtual, a);
      var physicalAddress := Alignment.AlignValTo(m, g2dBuf.physical, a);
      buffer := new G2dBuffer(g2dBuf, virtualAddress, physicalAddress, actualSize, size);
      error := None;
    }

    method Deallocate(buffer: G2dBuffer)
      modifies log
      ensures Deallocated(G2d, buffer.State()).buf == buffer.State()
      ensures log.effects == old(log.effects) + Deallocated(G2d, buffer.State()).effects
    {
      log.Record(Release(Kernel.G2dBuffer(buffer.g2dBuf.handle, buffer.g2dBuf.physical)));
    }

    /** The memory is always mapped; the count and the flags only serve to check redundant maps. */
    method Map(buffer: G2dBuffer, flags: Flags.MapFlags, ghost mmap: Reply<Pointer>) returns (address: nat)
      requires AssertionsHold(G2d, buffer.State(), Op.Map(flags, mmap))
      modifies buffer
      ensures buffer.State() == Next(G2d, old(buffer.State()), Op.Map(flags, mmap)).buf
      ensures Next(G2d, old(buffer.State()), Op.Map(flags, mmap)).effects == []
      ensures address == buffer.alignedVirtualAddress
    {
      var f := flags;
      if f == 0 {
        f := Flags.WithFullAccess(0);
      }
      if buffer.mappingRefcount > 0 {
        assert Flags.Covers(buffer.mapFlags, f);
        buffer.mappingRefcount := buffer.mappingRefcount + 1;
      } else {
        buffer.mapFlags := f;
        buffer.mappingRefcount := 1;
      }
      address := buffer.alignedVirtualAddress;
    }

    method Unmap(buffer: G2dBuffer)
      modifies buffer
      ensures buffer.State() == Next(G2d, old(buffer.State()), Op.Unmap).buf
      ensures Next(G2d, old(buffer.State()), Op.Unmap).effects == []
    {
      if buffer.mappingRefcount > 0 {
        buffer.mappingRefcount := buffer.mappingRefcount - 1;
      }
    }
  }
}
