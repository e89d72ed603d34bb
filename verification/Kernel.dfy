/** What a buffer asks of the operating system, and what it may be told.

    No system call is modelled by code: the reply to a call is a parameter of whoever makes it,
    and every call that was made is recorded, in order, as an `Effect`. */
module Kernel {

  /** The reply to a call that may fail with an errno. */
  datatype Reply<+T> = Ok(value: T) | Failed(errno: int)

  datatype Option<+T> = None | Some(value: T)

  /** An address that mmap() can return; it never returns NULL. */
  type Pointer = p: nat | 0 < p witness 1

  /** The kernel object behind a buffer, named by whatever the buffer must later give back. */
  datatype Backing =
    | DmaBuf(fd: int)
    | IpuRegion(base: nat)
    | PxpRegion(base: nat)
    | DwlMemory(base: nat)
    | G2dBuffer(handle: nat, base: nat)

  datatype Protection = Protection(read: bool, write: bool)

  datatype Effect =
    | OpenNode(node: int)
    | CloseNode(node: int)
    | Acquire(backing: Backing, length: nat)
    | DmaHeapAlloc(length: nat, heapFlags: bv32, fdFlags: bv32)  // DMA_HEAP_IOCTL_ALLOC
    | IonAlloc(length: nat, alignment: Option<nat>, heapIdMask: bv32, heapFlags: bv32)  // ION_IOC_ALLOC
    | Release(backing: Backing)
    | AcquireHandle(handle: nat)
    | FreeHandle(handle: nat)
    | Mmap(backing: Backing, offset: nat, length: nat, prot: Protection, reply: Reply<Pointer>)
    | Munmap(address: nat, length: nat)
    | BeginSync              // the body of start_sync_session_impl was entered
    | EndSync                // the body of stop_sync_session_impl was entered
    | PhysIoctl(fd: int)     // DMA_BUF_IOCTL_PHYS

  /** The calls made so far. */
  class Log {
    var effects: seq<Effect>

    constructor ()
      ensures effects == []
    {
      effects := [];
    }

    method Record(effect: Effect)
      modifies this
      ensures effects == old(effects) + [effect]
    {
      effects := effects + [effect];
    }
  }
}
