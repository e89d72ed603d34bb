/** Mapping flags: an unsigned int in which bit 0 asks for write access, bit 1 for read access,
    and bit 2 for manual synchronisation. */
module Flags {
  import Kernel

  type MapFlags = bv32

  predicate Writes(flags: MapFlags) { flags & 1 != 0 }

  predicate Reads(flags: MapFlags) { flags & 2 != 0 }

  predicate Manual(flags: MapFlags) { flags & 4 != 0 }

  /** The part of the flags that is about access. */
  function Access(flags: MapFlags): MapFlags { flags & 3 }

  function WithFullAccess(flags: MapFlags): MapFlags { flags | 3 }

  /** The condition the source asserts when an already mapped buffer is mapped again. */
  predicate Covers(mapFlags: MapFlags, flags: MapFlags) {
    mapFlags & flags & 3 == flags & 3
  }

  /** The protection mmap() is called with. */
  function ProtectionOf(flags: MapFlags): Kernel.Protection {
    Kernel.Protection(Reads(flags), Writes(flags))
  }

  /** The asserted bit trick says exactly that the new rights are among the old ones. */
  lemma CoversIsContainment(mapFlags: MapFlags, flags: MapFlags)
    ensures Covers(mapFlags, flags)
       <==> (Reads(flags) ==> Reads(mapFlags)) && (Writes(flags) ==> Writes(mapFlags))
  {}
}
