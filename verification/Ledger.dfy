/** Conservation of kernel resources, over runs in which all six allocators share one process. */
module Ledger {
  import opened Kernel
  import Flags
  import opened Alignment
  import opened Mapping
  import IonHeaps
  import opened Allocations

  datatype MappingRecord = MappingRecord(backing: Backing, length: nat, prot: Protection)

  /** What the process holds: kernel buffers with the length they were requested with, ION user
      handles, and mappings by address. */
  datatype Ledger = Ledger(buffers: map<Backing, nat>, handles: set<nat>, mappings: map<nat, MappingRecord>)

  function Apply(l: Ledger, e: Effect): Ledger {
    match e
    case Acquire(backing, length) => l.(buffers := l.buffers[backing := length])
    case Release(backing) => l.(buffers := l.buffers - {backing})
    case AcquireHandle(handle) => l.(handles := l.handles + {handle})
    case FreeHandle(handle) => l.(handles := l.handles - {handle})
    case Mmap(backing, _, length, prot, reply) =>
      if reply.Ok? then l.(mappings := l.mappings[reply.value := MappingRecord(backing, length, prot)]) else l
    case Munmap(address, _) => l.(mappings := l.mappings - {address})
    case _ => l
  }

  predicate Disjoint(base1: nat, length1: nat, base2: nat, length2: nat) {
    base1 + length1 <= base2 || base2 + length2 <= base1
  }

  ghost predicate DisjointFromAll(l: Ledger, backing: Backing, length: nat) {
    forall other :: other in l.buffers && RegionBase(other).Some? && RegionBase(backing).Some? ==>
      Disjoint(RegionBase(backing).value, length, RegionBase(other).value, l.buffers[other])
  }

  /** What may be assumed of the kernel: it hands out what is not in use, regions that fit the
      address space and overlap no region in use, and no region at address 0. */
  ghost predicate Honest(m: nat, l: Ledger, e: Effect) {
    match e
    case Acquire(backing, length) =>
      && backing !in l.buffers
      && (RegionBase(backing).Some? ==> 0 < RegionBase(backing).value && RegionBase(backing).value + length <= m)
      && DisjointFromAll(l, backing, length)
    case AcquireHandle(handle) => handle !in l.handles
    case Mmap(_, _, _, _, reply) => reply.Ok? ==> reply.value !in l.mappings
    case _ => true
  }

  /** What the kernel may expect of the library: it gives back what it holds, once; it maps what it
      holds; it unmaps what is mapped, with the length it was mapped with; and it releases no
      buffer that is still mapped. */
  ghost predicate Proper(l: Ledger, e: Effect) {
    match e
    case Release(backing) =>
      backing in l.buffers && forall a :: a in l.mappings ==> l.mappings[a].backing != backing
    case FreeHandle(handle) => handle in l.handles
    case Mmap(backing, _, _, _, _) => backing in l.buffers
    case Munmap(address, length) => address in l.mappings && l.mappings[address].length == length
    case _ => true
  }

  /** A ledger, and whether everybody has behaved so far. */
  datatype Audit = Audit(ledger: Ledger, ghost honest: bool, ghost proper: bool)

  ghost function Enter(m: nat, a: Audit, e: Effect): Audit {
    Audit(Apply(a.ledger, e), a.honest && Honest(m, a.ledger, e), a.proper && Proper(a.ledger, e))
  }

  ghost function EnterAll(m: nat, a: Audit, es: seq<Effect>): Audit {
    if |es| == 0 then a else Enter(m, EnterAll(m, a, es[..|es| - 1]), es[|es| - 1])
  }

  lemma {:induction false} EnterConcat(m: nat, a: Audit, s: seq<Effect>, t: seq<Effect>)
    ensures EnterAll(m, a, s + t) == EnterAll(m, EnterAll(m, a, s), t)
  {
    if |t| == 0 {
      assert s + t == s;
    } else {
      assert (s + t)[..|s + t| - 1] == s + t[..|t| - 1];
      EnterConcat(m, a, s, t[..|t| - 1]);
    }
  }

  lemma EnterOne(m: nat, a: Audit, e: Effect)
    ensures EnterAll(m, a, [e]) == Enter(m, a, e)
  {
    assert [e][..0] == [];
  }

  /** Synchronisation does not concern the ledger. */
  lemma {:induction false} EnterSyncs(m: nat, a: Audit, es: seq<Effect>)
    requires AllSync(es)
    ensures EnterAll(m, a, es) == a
  {
    if |es| != 0 {
      assert forall e <- es[..|es| - 1] :: e in es;
      EnterSyncs(m, a, es[..|es| - 1]);
      assert es[|es| - 1] in es;
    }
  }

  // ----- all buffers of a process -----

  /** A live buffer, and the request that it came from. */
  datatype Owned = Owned(request: Request, buf: Buf)

  type Pool = map<nat, Owned>

  /** `id` names a buffer for as long as it lives. The flags of a new buffer are not initialised. */
  datatype Call =
    | Allocates(id: nat, request: Request, garbage: Flags.MapFlags)
    | Deallocates(id: nat)
    | Uses(id: nat, op: Op)

  predicate Callable(m: nat, pool: Pool, call: Call) {
    match call
    case Allocates(id, request, _) => id !in pool && Words(m, request)
    case Deallocates(id) => id in pool
    case Uses(id, _) => id in pool
  }

  function PoolAfter(m: nat, pool: Pool, call: Call): Pool
    requires Callable(m, pool, call)
  {
    match call
    case Allocates(id, request, garbage) =>
      var result := Allocate(m, request).result;
      if result.Some? then pool[id := Owned(request, result.value.(flags := garbage))] else pool
    case Deallocates(id) => pool - {id}
    case Uses(id, op) =>
      var o := pool[id];
      pool[id := Owned(o.request, Next(StyleOf(o.request), o.buf, op).buf)]
  }

  function EffectsOf(m: nat, pool: Pool, call: Call): seq<Effect>
    requires Callable(m, pool, call)
  {
    match call
    case Allocates(_, request, _) => Allocate(m, request).effects
    case Deallocates(id) => Deallocated(StyleOf(pool[id].request), pool[id].buf).effects
    case Uses(id, op) => Next(StyleOf(pool[id].request), pool[id].buf, op).effects
  }

  /** The buffer really has its memory mapped. */
  predicate HoldsMapping(o: Owned) { !StyleOf(o.request).CountsOnly() && o.buf.address != 0 }

  /** The window of a buffer lies in the memory behind it exactly if the request was safe. */
  predicate PlacedAsRequested(m: nat, o: Owned, length: nat) {
    RegionBase(o.buf.backing).Some? ==>
      (Within(RegionBase(o.buf.backing).value, length, o.buf.physical, o.buf.size) <==> Safe(m, o.request))
  }

  /** What holds of a live buffer by itself, given the length of the memory behind it. */
  predicate Sound(m: nat, o: Owned, length: nat) {
    && Words(m, o.request) && length == RequestedLength(m, o.request)
    && o.buf.size == o.request.size
    && Consistent(StyleOf(o.request), o.buf)
    && PlacedAsRequested(m, o, length)
  }

  /** The kernel buffers in the ledger are, one for one, those behind the live buffers. */
  ghost predicate BuffersMatch(pool: Pool, l: Ledger) {
    && (forall id :: id in pool ==> pool[id].buf.backing in l.buffers)
    && (forall id1, id2 :: id1 in pool && id2 in pool && id1 != id2 ==> pool[id1].buf.backing != pool[id2].buf.backing)
    && (forall backing :: backing in l.buffers ==> exists id :: id in pool && pool[id].buf.backing == backing)
  }

  ghost predicate MappingListed(o: Owned, l: Ledger) {
    var b := o.buf;
    HoldsMapping(o) ==>
      b.address in l.mappings && l.mappings[b.address] == MappingRecord(b.backing, b.size, Flags.ProtectionOf(b.flags))
  }

  ghost predicate AllListed(pool: Pool, l: Ledger) {
    forall id :: id in pool ==> MappingListed(pool[id], l)
  }

  ghost predicate AllOwned(pool: Pool, l: Ledger) {
    forall a :: a in l.mappings ==> exists id :: id in pool && HoldsMapping(pool[id]) && pool[id].buf.address == a
  }

  /** The mappings in the ledger are those of the mapped buffers, each with the size of the buffer
      and the protection that its flags ask for. */
  ghost predicate MappingsMatch(pool: Pool, l: Ledger) { AllListed(pool, l) && AllOwned(pool, l) }

  ghost predicate RegionsDisjoint(l: Ledger) {
    forall b1, b2 :: b1 in l.buffers && b2 in l.buffers && b1 != b2 && RegionBase(b1).Some? && RegionBase(b2).Some? ==>
      Disjoint(RegionBase(b1).value, l.buffers[b1], RegionBase(b2).value, l.buffers[b2])
  }

  /** The invariant: what the ledger lists is, one for one, what the live buffers hold. */
  ghost predicate Accounts(m: nat, pool: Pool, l: Ledger) {
    && BuffersMatch(pool, l)
    && MappingsMatch(pool, l)
    && (forall id :: id in pool ==> Sound(m, pool[id], l.buffers[pool[id].buf.backing]))
    && RegionsDisjoint(l)
    && l.handles == {}
  }

  // ----- what each call enters into the ledger -----

  /** A mapping is of a buffer that is held. */
  ghost predicate MappingsBacked(l: Ledger) {
    forall a :: a in l.mappings ==> l.mappings[a].backing in l.buffers
  }

  ghost predicate Behaved(a: Audit) { a.honest ==> a.proper }

  lemma EnterThree(m: nat, a: Audit, pre: seq<Effect>, call: seq<Effect>, post: seq<Effect>)
    requires AllSync(pre) && AllSync(post)
    ensures EnterAll(m, a, pre + call + post) == EnterAll(m, a, call)
  {
    EnterConcat(m, a, pre + call, post);
    EnterConcat(m, a, pre, call);
    EnterSyncs(m, a, pre);
    EnterSyncs(m, EnterAll(m, a, pre + call), post);
  }

  /** The mapping of a buffer, if it has one, is in the ledger. */
  ghost predicate Recorded(l: Ledger, b: Buf) {
    b.address != 0 ==> b.address in l.mappings && l.mappings[b.address].length == b.size
  }

  /** The mappings in the ledger after a buffer went from `b` to `b'`. */
  function MappingsThen(l: Ledger, b: Buf, b': Buf): map<nat, MappingRecord> {
    if b.address == 0 && b'.address != 0 then
      l.mappings[b'.address := MappingRecord(b.backing, b.size, Flags.ProtectionOf(b'.flags))]
    else if b.address != 0 && b'.address == 0 then l.mappings - {b.address}
    else l.mappings
  }

  lemma CallEnters(m: nat, a: Audit, b: Buf, b': Buf, call: seq<Effect>)
    requires CallFits(b, b', call) && b.backing in a.ledger.buffers && Behaved(a)
    requires call != [] ==> Recorded(a.ledger, b)
    ensures var after := EnterAll(m, a, call);
            && Behaved(after) && (after.honest ==> a.honest)
            && (after.honest && b.address == 0 && b'.address != 0 ==> b'.address !in a.ledger.mappings)
            && after.ledger == a.ledger.(mappings := MappingsThen(a.ledger, b, b'))
  {
    if call != [] {
      assert call == [call[0]];
      EnterOne(m, a, call[0]);
    }
  }

  lemma UseEnters(m: nat, a: Audit, style: Style, b: Buf, op: Op)
    requires b.backing in a.ledger.buffers && Behaved(a)
    requires !style.CountsOnly() ==> Recorded(a.ledger, b)
    ensures var after, b' := EnterAll(m, a, Next(style, b, op).effects), Next(style, b, op).buf;
            && Behaved(after) && (after.honest ==> a.honest)
            && (after.honest && b.address == 0 && b'.address != 0 ==> b'.address !in a.ledger.mappings)
            && after.ledger == a.ledger.(mappings := MappingsThen(a.ledger, b, b'))
  {
    var pre, call, post := NextShape(style, b, op);
    EnterThree(m, a, pre, call, post);
    if style.CountsOnly() {
      assert Next(style, b, op).effects == [] && Next(style, b, op).buf.address == b.address;
      assert call == [];
    }
    CallEnters(m, a, b, Next(style, b, op).buf, call);
  }

  /** Ending what is open, unmapping and releasing a mapped buffer. */
  lemma ClosingEnters(m: nat, a: Audit, b: Buf, pre: seq<Effect>)
    requires AllSync(pre) && b.backing in a.ledger.buffers && Behaved(a) && b.address != 0 && Recorded(a.ledger, b)
    requires forall x :: x in a.ledger.mappings && a.ledger.mappings[x].backing == b.backing ==> x == b.address
    ensures var after := EnterAll(m, a, pre + [Munmap(b.address, b.size)] + [Release(b.backing)]);
            && Behaved(after) && (after.honest ==> a.honest)
            && after.ledger == a.ledger.(buffers := a.ledger.buffers - {b.backing},
                                         mappings := a.ledger.mappings - {b.address})
  {
    var munmap, release := Munmap(b.address, b.size), Release(b.backing);
    EnterConcat(m, a, pre + [munmap], [release]);
    EnterConcat(m, a, pre, [munmap]);
    EnterSyncs(m, a, pre);
    EnterOne(m, a, munmap);
    EnterOne(m, Enter(m, a, munmap), release);
  }

  lemma DeallocationEnters(m: nat, a: Audit, style: Style, b: Buf)
    requires Consistent(style, b) && b.backing in a.ledger.buffers && Behaved(a)
    requires !style.CountsOnly() ==> Recorded(a.ledger, b)
    requires forall x :: x in a.ledger.mappings && a.ledger.mappings[x].backing == b.backing ==>
               !style.CountsOnly() && b.address != 0 && x == b.address
    ensures var after := EnterAll(m, a, Deallocated(style, b).effects);
            && Behaved(after) && (after.honest ==> a.honest)
            && after.ledger == a.ledger.(buffers := a.ledger.buffers - {b.backing},
                                         mappings := if !style.CountsOnly() && b.address != 0
                                                     then a.ledger.mappings - {b.address} else a.ledger.mappings)
  {
    if style.CountsOnly() || b.address == 0 {
      EnterOne(m, a, Release(b.backing));
    } else {
      DeallocationShape(style, b);
      ClosingEnters(m, a, b, if b.sync then EndSession(b).effects else []);
    }
  }

  /** Acquiring a buffer, and giving it back at once. */
  lemma AcquireEnters(m: nat, a: Audit, backing: Backing, length: nat)
    requires Behaved(a) && MappingsBacked(a.ledger)
    ensures var acquired := EnterAll(m, a, [Acquire(backing, length)]);
            && Behaved(acquired) && (acquired.honest ==> a.honest && Honest(m, a.ledger, Acquire(backing, length)))
            && acquired.ledger == a.ledger.(buffers := a.ledger.buffers[backing := length])
            && var released := EnterAll(m, acquired, [Release(backing)]);
               && Behaved(released) && (released.honest ==> acquired.honest)
               && (released.honest ==> released.ledger == a.ledger)
  {
    EnterOne(m, a, Acquire(backing, length));
    var acquired := Enter(m, a, Acquire(backing, length));
    EnterOne(m, acquired, Release(backing));
    if acquired.honest {
      assert a.ledger.buffers[backing := length] - {backing} == a.ledger.buffers;
    }
  }

  /** A user handle around calls that do not concern handles. */
  lemma HandleEnters(m: nat, a: Audit, handle: nat, inner: seq<Effect>)
    requires Behaved(a) && a.ledger.handles == {}
    requires var a1 := Enter(m, a, AcquireHandle(handle));
             var a2 := EnterAll(m, a1, inner);
             Behaved(a2) && (a2.honest ==> a1.honest) && a2.ledger.handles == {handle}
    ensures var after := EnterAll(m, a, [AcquireHandle(handle)] + inner + [FreeHandle(handle)]);
            var a2 := EnterAll(m, Enter(m, a, AcquireHandle(handle)), inner);
            && Behaved(after) && (after.honest ==> a.honest && a2.honest)
            && after.ledger == a2.ledger.(handles := {})
  {
    EnterOne(m, a, AcquireHandle(handle));
    EnterConcat(m, a, [AcquireHandle(handle)] + inner, [FreeHandle(handle)]);
    EnterConcat(m, a, [AcquireHandle(handle)], inner);
    var a2 := EnterAll(m, Enter(m, a, AcquireHandle(handle)), inner);
    EnterOne(m, a2, FreeHandle(handle));
    assert {handle} - {handle} == {};
  }

  /** Allocating a DMA-BUF, on either path of ION: a user handle does not outlive the call. */
  lemma DmabufEnters(m: nat, a: Audit, w: IonHeaps.Wish, path: IonHeaps.Path)
    requires Behaved(a) && MappingsBacked(a.ledger) && a.ledger.handles == {}
    ensures var dmabuf := IonHeaps.AllocateDmabuf(w, path);
            var after, fd := EnterAll(m, a, dmabuf.effects), dmabuf.fd;
            && Behaved(after) && (after.honest ==> a.honest)
            && (fd.None? ==> after.ledger == a.ledger)
            && (fd.Some? ==> after.ledger == a.ledger.(buffers := a.ledger.buffers[DmaBuf(fd.value) := w.size]))
            && (fd.Some? && after.honest ==> Honest(m, a.ledger, Acquire(DmaBuf(fd.value), w.size)))
  {
    var ask := IonHeaps.AskIon(w, path);
    EnterOne(m, a, ask);
    if path.alloc.Ok? {
      match path
      case Modern(lookup, alloc) =>
        if lookup.mask != 0 {
          var acquire := [Acquire(DmaBuf(alloc.value), w.size)];
          EnterConcat(m, a, [ask], acquire);
          AcquireEnters(m, a, DmaBuf(alloc.value), w.size);
        }
      case Legacy(alloc, mapped) =>
        var handle := alloc.value;
        var a1 := Enter(m, a, AcquireHandle(handle));
        var inner := if mapped.Ok? then [Acquire(DmaBuf(mapped.value), w.size)] else [];
        if mapped.Ok? {
          AcquireEnters(m, a1, DmaBuf(mapped.value), w.size);
        }
        EnterConcat(m, a, [ask], [AcquireHandle(handle)] + inner + [FreeHandle(handle)]);
        HandleEnters(m, a, handle, inner);
    }
  }

  /** An allocation that succeeds adds the one buffer it returns; one that fails, at whatever
      point, leaves the ledger as it was. */
  lemma AllocateEnters(m: nat, a: Audit, r: Request)
    requires Words(m, r) && Behaved(a) && MappingsBacked(a.ledger) && a.ledger.handles == {}
    ensures var after, result := EnterAll(m, a, Allocate(m, r).effects), Allocate(m, r).result;
            && Behaved(after) && (after.honest ==> a.honest)
            && (after.honest && result.None? ==> after.ledger == a.ledger)
            && (result.Some? ==>
                  after.ledger.buffers == a.ledger.buffers[result.value.backing := RequestedLength(m, r)]
                  && after.ledger.handles == a.ledger.handles && after.ledger.mappings == a.ledger.mappings)
            && (after.honest && result.Some? ==>
                  Honest(m, a.ledger, Acquire(result.value.backing, RequestedLength(m, r))))
  {
    match r
    case DmaHeapRequest(size, _, _, heapFlags, fdFlags, fd, phys) =>
      var ask := DmaHeapAlloc(size, heapFlags, fdFlags);
      EnterOne(m, a, ask);
      if fd.Ok? {
        var acquire := [Acquire(DmaBuf(fd.value), size)];
        EnterConcat(m, a, [ask], acquire);
        AcquireEnters(m, a, DmaBuf(fd.value), size);
        PhysicalAddressEnters(m, a, DmaBuf(fd.value), size, [ask] + acquire, [PhysIoctl(fd.value)], phys);
      }
    case IonRequest(size, alignment, heapIdMask, heapFlags, path, phys) =>
      var w := IonHeaps.Wish(size, alignment, heapIdMask, heapFlags);
      DmabufEnters(m, a, w, path);
      var dmabuf := IonHeaps.AllocateDmabuf(w, path);
      if dmabuf.fd.Some? {
        PhysicalAddressEnters(m, a, DmaBuf(dmabuf.fd.value), size, dmabuf.effects,
                              if path.Modern? then [PhysIoctl(dmabuf.fd.value)] else [], phys);
      }
    case IpuRequest(size, alignment, base) =>
      if base.Ok? { AcquireEnters(m, a, IpuRegion(base.value), ActualSize(m, size, alignment)); }
    case PxpRequest(size, alignment, base) =>
      if base.Ok? { AcquireEnters(m, a, PxpRegion(base.value), size); }
    case DwlRequest(size, alignment, linear) =>
      if linear.Some? { AcquireEnters(m, a, DwlMemory(linear.value.bus), ActualSize(m, size, alignment)); }
    case G2dRequest(size, alignment, buf) =>
      if buf.Some? {
        AcquireEnters(m, a, G2dBuffer(buf.value.handle, buf.value.physical), ActualSize(m, size, alignment));
      }
  }

  /** The one failure that does not conserve: an IPU region at the physical address 0 is taken for a
      failed allocation, and is never given back. */
  lemma IpuFailureLeaksIff(m: nat, a: Audit, r: Request)
    requires r.IpuRequest? && Words(m, r) && Allocate(m, r).result.None?
    requires IpuRegion(0) !in a.ledger.buffers
    ensures EnterAll(m, a, Allocate(m, r).effects).ledger != a.ledger <==> r.base == Ok(0)
  {
    if r.base.Ok? {
      EnterOne(m, a, Allocate(m, r).effects[0]);
      assert IpuRegion(0) in EnterAll(m, a, Allocate(m, r).effects).ledger.buffers;
    }
  }

  lemma PhysicalAddressEnters(m: nat, a: Audit, backing: Backing, size: nat,
                              before: seq<Effect>, ask: seq<Effect>, phys: Reply<nat>)
    requires AllSync(ask)
    requires MappingsBacked(a.ledger)
    requires var acquired := EnterAll(m, a, before);
             && Behaved(acquired) && (acquired.honest ==> a.honest && backing !in a.ledger.buffers)
             && acquired.ledger == a.ledger.(buffers := a.ledger.buffers[backing := size])
    ensures var after, result := EnterAll(m, a, WithPhysicalAddress(backing, size, before, ask, phys).effects),
                                 WithPhysicalAddress(backing, size, before, ask, phys).result;
            && Behaved(after) && (after.honest ==> EnterAll(m, a, before).honest)
            && (after.honest && result.None? ==> after.ledger == a.ledger)
            && (result.Some? ==> after.ledger == EnterAll(m, a, before).ledger && result.value.backing == backing)
  {
    var acquired := EnterAll(m, a, before);
    EnterConcat(m, a, before, ask);
    EnterSyncs(m, acquired, ask);
    EnterConcat(m, a, before + ask, [Release(backing)]);
    EnterOne(m, acquired, Release(backing));
    if acquired.honest {
      assert a.ledger.buffers[backing := size] - {backing} == a.ledger.buffers;
    }
  }

  // ----- the invariant is kept -----

  lemma MappingsAreBacked(pool: Pool, l: Ledger)
    requires BuffersMatch(pool, l) && MappingsMatch(pool, l)
    ensures MappingsBacked(l)
  {
    forall a | a in l.mappings ensures l.mappings[a].backing in l.buffers {
      var id :| id in pool && HoldsMapping(pool[id]) && pool[id].buf.address == a;
      assert MappingListed(pool[id], l);
    }
  }

  /** A mapping of the memory behind a buffer is the mapping of that buffer. */
  lemma MappingOwner(pool: Pool, l: Ledger, id: nat, a: nat)
    requires BuffersMatch(pool, l) && MappingsMatch(pool, l)
    requires id in pool && a in l.mappings && l.mappings[a].backing == pool[id].buf.backing
    ensures HoldsMapping(pool[id]) && a == pool[id].buf.address
  {
    var owner :| owner in pool && HoldsMapping(pool[owner]) && pool[owner].buf.address == a;
    assert MappingListed(pool[owner], l);
  }

  lemma AddressesDiffer(pool: Pool, l: Ledger, i: nat, j: nat)
    requires BuffersMatch(pool, l) && AllListed(pool, l)
    requires i in pool && j in pool && i != j && HoldsMapping(pool[i]) && HoldsMapping(pool[j])
    ensures pool[i].buf.address != pool[j].buf.address
  {
    assert MappingListed(pool[i], l) && MappingListed(pool[j], l);
  }

  lemma ReplacedBuffersMatch(pool: Pool, l: Ledger, id: nat, o': Owned, l': Ledger)
    requires BuffersMatch(pool, l) && id in pool
    requires o'.buf.backing == pool[id].buf.backing && l'.buffers == l.buffers
    ensures BuffersMatch(pool[id := o'], l')
  {
    var pool' := pool[id := o'];
    forall backing | backing in l'.buffers
      ensures exists i :: i in pool' && pool'[i].buf.backing == backing
    {
      var i :| i in pool && pool[i].buf.backing == backing;
      assert i in pool' && pool'[i].buf.backing == backing;
    }
  }

  /** How the mappings of the ledger change when a buffer becomes mapped, or unmapped, or neither. */
  ghost predicate MappingsFollow(l: Ledger, o: Owned, o': Owned, l': Ledger) {
    var b, b' := o.buf, o'.buf;
    if !HoldsMapping(o) && HoldsMapping(o') then
      && b'.address !in l.mappings
      && l'.mappings == l.mappings[b'.address := MappingRecord(b'.backing, b'.size, Flags.ProtectionOf(b'.flags))]
    else if HoldsMapping(o) && !HoldsMapping(o') then
      l'.mappings == l.mappings - {b.address}
    else
      && l'.mappings == l.mappings
      && (HoldsMapping(o) ==> SameBuffer(b, b') && b'.address == b.address && b'.flags == b.flags)
  }

  lemma ReplacedAllListed(pool: Pool, l: Ledger, id: nat, o': Owned, l': Ledger)
    requires BuffersMatch(pool, l) && AllListed(pool, l) && id in pool
    requires MappingsFollow(l, pool[id], o', l')
    ensures AllListed(pool[id := o'], l')
  {
    var pool' := pool[id := o'];
    forall i | i in pool' ensures MappingListed(pool'[i], l') {
      assert MappingListed(pool[i], l);
      if i != id && HoldsMapping(pool[i]) && HoldsMapping(pool[id]) {
        AddressesDiffer(pool, l, i, id);
      }
    }
  }

  lemma ReplacedAllOwned(pool: Pool, l: Ledger, id: nat, o': Owned, l': Ledger)
    requires AllOwned(pool, l) && id in pool
    requires MappingsFollow(l, pool[id], o', l')
    ensures AllOwned(pool[id := o'], l')
  {
    var pool' := pool[id := o'];
    forall x | x in l'.mappings
      ensures exists i :: i in pool' && HoldsMapping(pool'[i]) && pool'[i].buf.address == x
    {
      if x in l.mappings {
        var i :| i in pool && HoldsMapping(pool[i]) && pool[i].buf.address == x;
        assert i in pool' && HoldsMapping(pool'[i]) && pool'[i].buf.address == x;
      } else {
        assert HoldsMapping(pool'[id]) && pool'[id].buf.address == x;
      }
    }
  }

  /** What a use of a buffer comes to: the same buffer, sound, with mappings that follow. */
  lemma FollowsFrom(l: Ledger, o: Owned, o': Owned, l': Ledger)
    requires o'.request == o.request && SameBuffer(o.buf, o'.buf)
    requires StyleOf(o.request).CountsOnly() ==> o'.buf.address == o.buf.address
    requires HoldsMapping(o) && HoldsMapping(o') ==> o'.buf.address == o.buf.address && o'.buf.flags == o.buf.flags
    requires o.buf.address == 0 && o'.buf.address != 0 ==> o'.buf.address !in l.mappings
    requires l' == l.(mappings := MappingsThen(l, o.buf, o'.buf))
    ensures MappingsFollow(l, o, o', l')
  {}

  lemma UseFollows(m: nat, a: Audit, o: Owned, op: Op, length: nat)
    requires Behaved(a) && o.buf.backing in a.ledger.buffers && MappingListed(o, a.ledger) && Sound(m, o, length)
    ensures var o' := Owned(o.request, Next(StyleOf(o.request), o.buf, op).buf);
            var after := EnterAll(m, a, Next(StyleOf(o.request), o.buf, op).effects);
            && Behaved(after) && (after.honest ==> a.honest)
            && SameBuffer(o.buf, o'.buf) && Consistent(StyleOf(o.request), o'.buf)
            && after.ledger.buffers == a.ledger.buffers && after.ledger.handles == a.ledger.handles
            && (after.honest ==> MappingsFollow(a.ledger, o, o', after.ledger))
  {
    var style := StyleOf(o.request);
    UseEnters(m, a, style, o.buf, op);
    NextKeepsConsistent(style, o.buf, op);
    var o' := Owned(o.request, Next(style, o.buf, op).buf);
    if HoldsMapping(o) && HoldsMapping(o') {
      MappedStepIsStable(style, o.buf, op);
    }
    var after := EnterAll(m, a, Next(style, o.buf, op).effects);
    if after.honest {
      FollowsFrom(a.ledger, o, o', after.ledger);
    }
  }

  lemma UseKeepsAccounts(m: nat, pool: Pool, a: Audit, id: nat, op: Op)
    requires Accounts(m, pool, a.ledger) && id in pool && Behaved(a)
    ensures var after := EnterAll(m, a, EffectsOf(m, pool, Uses(id, op)));
            && Behaved(after) && (after.honest ==> a.honest)
            && (after.honest ==> Accounts(m, PoolAfter(m, pool, Uses(id, op)), after.ledger))
  {
    var o := pool[id];
    var length := a.ledger.buffers[o.buf.backing];
    assert MappingListed(o, a.ledger) && Sound(m, o, length);
    UseFollows(m, a, o, op, length);
    var o' := Owned(o.request, Next(StyleOf(o.request), o.buf, op).buf);
    var after := EnterAll(m, a, EffectsOf(m, pool, Uses(id, op)));
    if after.honest {
      UsedAccounts(m, pool, a.ledger, id, o', after.ledger);
    }
  }

  lemma UsedAccounts(m: nat, pool: Pool, l: Ledger, id: nat, o': Owned, l': Ledger)
    requires Accounts(m, pool, l) && id in pool && MappingsFollow(l, pool[id], o', l')
    requires o'.request == pool[id].request && SameBuffer(pool[id].buf, o'.buf)
    requires Consistent(StyleOf(o'.request), o'.buf)
    requires l'.buffers == l.buffers && l'.handles == l.handles
    ensures Accounts(m, pool[id := o'], l')
  {
    ReplacedBuffersMatch(pool, l, id, o', l');
    ReplacedAllListed(pool, l, id, o', l');
    ReplacedAllOwned(pool, l, id, o', l');
    StaysSound(m, pool[id], o', l.buffers[o'.buf.backing]);
  }

  lemma StaysSound(m: nat, o: Owned, o': Owned, length: nat)
    requires Sound(m, o, length) && o'.request == o.request
    requires SameBuffer(o.buf, o'.buf) && Consistent(StyleOf(o.request), o'.buf)
    ensures Sound(m, o', length)
  {}

  lemma FreedBuffersMatch(pool: Pool, l: Ledger, id: nat, l': Ledger)
    requires BuffersMatch(pool, l) && id in pool
    requires l'.buffers == l.buffers - {pool[id].buf.backing}
    ensures BuffersMatch(pool - {id}, l')
  {
    var pool' := pool - {id};
    forall backing | backing in l'.buffers
      ensures exists i :: i in pool' && pool'[i].buf.backing == backing
    {
      var i :| i in pool && pool[i].buf.backing == backing;
      assert i in pool' && pool'[i].buf.backing == backing;
    }
  }

  lemma FreedAllListed(pool: Pool, l: Ledger, id: nat, l': Ledger)
    requires BuffersMatch(pool, l) && AllListed(pool, l) && id in pool
    requires l'.mappings == if HoldsMapping(pool[id]) then l.mappings - {pool[id].buf.address} else l.mappings
    ensures AllListed(pool - {id}, l')
  {
    var pool' := pool - {id};
    forall i | i in pool' ensures MappingListed(pool'[i], l') {
      assert MappingListed(pool[i], l);
      if HoldsMapping(pool[i]) && HoldsMapping(pool[id]) {
        AddressesDiffer(pool, l, i, id);
      }
    }
  }

  lemma FreedAllOwned(pool: Pool, l: Ledger, id: nat, l': Ledger)
    requires AllOwned(pool, l) && id in pool
    requires l'.mappings == if HoldsMapping(pool[id]) then l.mappings - {pool[id].buf.address} else l.mappings
    ensures AllOwned(pool - {id}, l')
  {
    var pool' := pool - {id};
    forall x | x in l'.mappings
      ensures exists i :: i in pool' && HoldsMapping(pool'[i]) && pool'[i].buf.address == x
    {
      var i :| i in pool && HoldsMapping(pool[i]) && pool[i].buf.address == x;
      assert i in pool' && pool'[i].buf.address == x;
    }
  }

  lemma DeallocationKeepsAccounts(m: nat, pool: Pool, a: Audit, id: nat)
    requires Accounts(m, pool, a.ledger) && id in pool && Behaved(a)
    ensures var after := EnterAll(m, a, EffectsOf(m, pool, Deallocates(id)));
            && Behaved(after) && (after.honest ==> a.honest)
            && Accounts(m, PoolAfter(m, pool, Deallocates(id)), after.ledger)
  {
    var o := pool[id];
    assert MappingListed(o, a.ledger);
    forall x | x in a.ledger.mappings && a.ledger.mappings[x].backing == o.buf.backing
      ensures HoldsMapping(o) && x == o.buf.address
    {
      MappingOwner(pool, a.ledger, id, x);
    }
    DeallocationEnters(m, a, StyleOf(o.request), o.buf);
    var after := EnterAll(m, a, EffectsOf(m, pool, Deallocates(id)));
    FreedBuffersMatch(pool, a.ledger, id, after.ledger);
    FreedAllListed(pool, a.ledger, id, after.ledger);
    FreedAllOwned(pool, a.ledger, id, after.ledger);
  }

  lemma NewBuffersMatch(pool: Pool, l: Ledger, id: nat, o: Owned, length: nat)
    requires BuffersMatch(pool, l) && id !in pool && o.buf.backing !in l.buffers
    ensures BuffersMatch(pool[id := o], l.(buffers := l.buffers[o.buf.backing := length]))
  {
    var pool', l' := pool[id := o], l.(buffers := l.buffers[o.buf.backing := length]);
    forall backing | backing in l'.buffers
      ensures exists i :: i in pool' && pool'[i].buf.backing == backing
    {
      if backing == o.buf.backing {
        assert pool'[id].buf.backing == backing;
      } else {
        var i :| i in pool && pool[i].buf.backing == backing;
        assert i in pool' && pool'[i].buf.backing == backing;
      }
    }
  }

  lemma NewMappingsMatch(pool: Pool, l: Ledger, id: nat, o: Owned, l': Ledger)
    requires MappingsMatch(pool, l) && id !in pool && !HoldsMapping(o) && l'.mappings == l.mappings
    ensures MappingsMatch(pool[id := o], l')
  {
    var pool' := pool[id := o];
    forall i | i in pool' ensures MappingListed(pool'[i], l') {
      if i != id {
        assert MappingListed(pool[i], l);
      }
    }
    forall x | x in l'.mappings
      ensures exists i :: i in pool' && HoldsMapping(pool'[i]) && pool'[i].buf.address == x
    {
      var i :| i in pool && HoldsMapping(pool[i]) && pool[i].buf.address == x;
      assert i in pool' && pool'[i].buf.address == x;
    }
  }

  lemma AllocationKeepsAccounts(m: nat, pool: Pool, a: Audit, id: nat, r: Request, garbage: Flags.MapFlags)
    requires Accounts(m, pool, a.ledger) && id !in pool && Words(m, r) && Behaved(a)
    ensures var after := EnterAll(m, a, EffectsOf(m, pool, Allocates(id, r, garbage)));
            && Behaved(after) && (after.honest ==> a.honest)
            && (after.honest ==> Accounts(m, PoolAfter(m, pool, Allocates(id, r, garbage)), after.ledger))
  {
    MappingsAreBacked(pool, a.ledger);
    AllocateEnters(m, a, r);
    var after := EnterAll(m, a, EffectsOf(m, pool, Allocates(id, r, garbage)));
    var result := Allocate(m, r).result;
    if after.honest && result.Some? {
      AllocateYields(m, r);
      var o, length := Owned(r, result.value.(flags := garbage)), RequestedLength(m, r);
      NewBuffersMatch(pool, a.ledger, id, o, length);
      NewMappingsMatch(pool, a.ledger, id, o, after.ledger);
      NewRegionsDisjoint(m, a.ledger, o.buf.backing, length);
      var pool' := pool[id := o];
      forall i | i in pool' ensures Sound(m, pool'[i], after.ledger.buffers[pool'[i].buf.backing]) {
        if i != id {
          assert Sound(m, pool[i], a.ledger.buffers[pool[i].buf.backing]);
        }
      }
    }
  }

  lemma NewRegionsDisjoint(m: nat, l: Ledger, backing: Backing, length: nat)
    requires RegionsDisjoint(l) && Honest(m, l, Acquire(backing, length))
    ensures RegionsDisjoint(l.(buffers := l.buffers[backing := length]))
  {}

  // ----- whole runs -----

  /** A process starts with nothing. Buffers are named afresh, and used while they live. */
  predicate AllCallable(m: nat, calls: seq<Call>)
    decreases |calls|, 0
  {
    |calls| != 0 ==>
      && AllCallable(m, calls[..|calls| - 1])
      && Callable(m, PoolOf(m, calls[..|calls| - 1]), calls[|calls| - 1])
  }

  function PoolOf(m: nat, calls: seq<Call>): Pool
    requires AllCallable(m, calls)
    decreases |calls|, 1
  {
    if |calls| == 0 then map[] else PoolAfter(m, PoolOf(m, calls[..|calls| - 1]), calls[|calls| - 1])
  }

  ghost const EMPTY := Audit(Ledger(map[], {}, map[]), true, true)

  ghost function AuditOf(m: nat, calls: seq<Call>): Audit
    requires AllCallable(m, calls)
    decreases |calls|
  {
    if |calls| == 0 then EMPTY
    else
      EnterAll(m, AuditOf(m, calls[..|calls| - 1]), EffectsOf(m, PoolOf(m, calls[..|calls| - 1]), calls[|calls| - 1]))
  }

  /** Allocations that succeeded, less deallocations. */
  function Outstanding(m: nat, calls: seq<Call>): int
    requires AllCallable(m, calls)
    decreases |calls|
  {
    if |calls| == 0 then 0
    else
      Outstanding(m, calls[..|calls| - 1])
      + match calls[|calls| - 1]
        case Allocates(_, request, _) => if Allocate(m, request).result.Some? then 1 else 0
        case Deallocates(_) => -1
        case Uses(_, _) => 0
  }

  lemma {:induction false} RunKeepsAccounts(m: nat, calls: seq<Call>)
    requires AllCallable(m, calls)
    ensures Behaved(AuditOf(m, calls))
    ensures AuditOf(m, calls).honest ==> Accounts(m, PoolOf(m, calls), AuditOf(m, calls).ledger)
    ensures |PoolOf(m, calls)| == Outstanding(m, calls)
    decreases |calls|
  {
    if |calls| != 0 {
      var init := calls[..|calls| - 1];
      RunKeepsAccounts(m, init);
      var pool, a := PoolOf(m, init), AuditOf(m, init);
      PoolGrows(m, pool, calls[|calls| - 1]);
      if a.honest {
        match calls[|calls| - 1]
        case Allocates(id, request, garbage) => AllocationKeepsAccounts(m, pool, a, id, request, garbage);
        case Deallocates(id) => DeallocationKeepsAccounts(m, pool, a, id);
        case Uses(id, op) => UseKeepsAccounts(m, pool, a, id, op);
      } else {
        StaysDishonest(m, a, EffectsOf(m, pool, calls[|calls| - 1]));
      }
    }
  }

  lemma {:induction false} StaysDishonest(m: nat, a: Audit, es: seq<Effect>)
    requires !a.honest
    ensures !EnterAll(m, a, es).honest
  {
    if |es| != 0 {
      StaysDishonest(m, a, es[..|es| - 1]);
    }
  }

  lemma PoolGrows(m: nat, pool: Pool, call: Call)
    requires Callable(m, pool, call)
    ensures |PoolAfter(m, pool, call)|
         == |pool| + match call
                     case Allocates(_, request, _) => if Allocate(m, request).result.Some? then 1 else 0
                     case Deallocates(_) => -1
                     case Uses(_, _) => 0
  {
    match call
    case Allocates(id, request, garbage) =>
    case Deallocates(id) =>
      assert (pool - {id}).Keys == pool.Keys - {id};
    case Uses(id, op) =>
      assert PoolAfter(m, pool, call).Keys == pool.Keys;
  }

  lemma {:induction false} ImageSize<T>(ids: set<nat>, f: map<nat, T>)
    requires ids <= f.Keys
    requires forall i, j :: i in ids && j in ids && i != j ==> f[i] != f[j]
    ensures |set i | i in ids :: f[i]| == |ids|
  {
    if ids != {} {
      var i :| i in ids;
      ImageSize(ids - {i}, f);
      assert (set j | j in ids :: f[j]) == (set j | j in ids - {i} :: f[j]) + {f[i]};
    }
  }

  lemma AsManyBuffers(pool: Pool, l: Ledger)
    requires BuffersMatch(pool, l)
    ensures |l.buffers| == |pool|
  {
    var backings := map id | id in pool :: pool[id].buf.backing;
    ImageSize(pool.Keys, backings);
    assert (set id | id in pool.Keys :: backings[id]) == l.buffers.Keys;
  }

  lemma MappedAddresses(pool: Pool, l: Ledger, mapped: set<nat>, addresses: map<nat, nat>)
    requires MappingsMatch(pool, l)
    requires mapped == set id | id in pool && HoldsMapping(pool[id])
    requires mapped <= addresses.Keys && forall id :: id in mapped ==> addresses[id] == pool[id].buf.address
    ensures (set id | id in mapped :: addresses[id]) == l.mappings.Keys
  {
    forall id | id in mapped ensures addresses[id] in l.mappings {
      assert MappingListed(pool[id], l);
    }
    forall x | x in l.mappings ensures x in (set id | id in mapped :: addresses[id]) {
      var id :| id in pool && HoldsMapping(pool[id]) && pool[id].buf.address == x;
      assert id in mapped;
    }
  }

  lemma AsManyMappings(pool: Pool, l: Ledger)
    requires BuffersMatch(pool, l) && MappingsMatch(pool, l)
    ensures |l.mappings| == |set id | id in pool && HoldsMapping(pool[id])|
  {
    var mapped := set id | id in pool && HoldsMapping(pool[id]);
    var addresses := map id | id in pool :: pool[id].buf.address;
    forall i, j | i in mapped && j in mapped && i != j ensures addresses[i] != addresses[j] {
      AddressesDiffer(pool, l, i, j);
    }
    ImageSize(mapped, addresses);
    MappedAddresses(pool, l, mapped, addresses);
  }

  /** Conservation over every run of all six allocators, through every failure: as long as the
      kernel is honest, the library behaves properly; it holds as many kernel buffers as allocations
      succeeded and were not undone; it holds as many mappings as buffers have a mapped address; and
      it holds no user handles. */
  lemma Conservation(m: nat, calls: seq<Call>)
    requires AllCallable(m, calls) && AuditOf(m, calls).honest
    ensures AuditOf(m, calls).proper
    ensures Accounts(m, PoolOf(m, calls), AuditOf(m, calls).ledger)
    ensures |AuditOf(m, calls).ledger.buffers| == |PoolOf(m, calls)| == Outstanding(m, calls)
    ensures |AuditOf(m, calls).ledger.mappings|
         == |set id | id in PoolOf(m, calls) && HoldsMapping(PoolOf(m, calls)[id])|
    ensures AuditOf(m, calls).ledger.handles == {}
  {
    RunKeepsAccounts(m, calls);
    AsManyBuffers(PoolOf(m, calls), AuditOf(m, calls).ledger);
    AsManyMappings(PoolOf(m, calls), AuditOf(m, calls).ledger);
  }

  /** The physical windows of live buffers, over every run: each lies within the memory behind it
      exactly if its request was safe, and those that do never overlap. */
  lemma LiveWindows(m: nat, calls: seq<Call>, id1: nat, id2: nat)
    requires AllCallable(m, calls) && AuditOf(m, calls).honest
    requires var pool := PoolOf(m, calls);
             && id1 in pool && id2 in pool && id1 != id2
             && RegionBase(pool[id1].buf.backing).Some? && RegionBase(pool[id2].buf.backing).Some?
    ensures var l, o1, o2 := AuditOf(m, calls).ledger, PoolOf(m, calls)[id1], PoolOf(m, calls)[id2];
            && o1.buf.backing in l.buffers
            && PlacedAsRequested(m, o1, l.buffers[o1.buf.backing])
            && (Safe(m, o1.request) && Safe(m, o2.request) ==>
                  Disjoint(o1.buf.physical, o1.buf.size, o2.buf.physical, o2.buf.size))
  {
    RunKeepsAccounts(m, calls);
    var l, o1, o2 := AuditOf(m, calls).ledger, PoolOf(m, calls)[id1], PoolOf(m, calls)[id2];
    assert Sound(m, o1, l.buffers[o1.buf.backing]) && Sound(m, o2, l.buffers[o2.buf.backing]);
    assert Disjoint(RegionBase(o1.buf.backing).value, l.buffers[o1.buf.backing],
                    RegionBase(o2.buf.backing).value, l.buffers[o2.buf.backing]);
  }

  // ----- an unsafe window is not its own -----

  /** Two buffers of a process, and nothing else. */
  function TwoCalls(r1: Request, r2: Request): seq<Call> { [Allocates(0, r1, 0), Allocates(1, r2, 0)] }

  lemma TwoCallsRun(m: nat, r1: Request, r2: Request)
    requires Words(m, r1) && Words(m, r2) && Allocate(m, r1).result.Some? && Allocate(m, r2).result.Some?
    ensures AllCallable(m, TwoCalls(r1, r2))
    ensures PoolOf(m, TwoCalls(r1, r2))
         == map[0 := Owned(r1, Allocate(m, r1).result.value.(flags := 0)),
                1 := Owned(r2, Allocate(m, r2).result.value.(flags := 0))]
    ensures AuditOf(m, TwoCalls(r1, r2))
         == EnterAll(m, EnterAll(m, EMPTY, Allocate(m, r1).effects), Allocate(m, r2).effects)
  {
    var calls := TwoCalls(r1, r2);
    var first := calls[..1];
    assert first[..0] == [] && first == [calls[0]] && calls[..|calls| - 1] == first;
    assert AllCallable(m, []) && PoolOf(m, []) == map[] && AuditOf(m, []) == EMPTY;
    assert AllCallable(m, first) && PoolOf(m, first) == PoolAfter(m, map[], calls[0]);
    assert AuditOf(m, first) == EnterAll(m, EMPTY, Allocate(m, r1).effects);
    assert Callable(m, PoolOf(m, first), calls[1]);
  }

  /** A second buffer that the kernel may honestly serve besides the first: its memory begins on a page
      boundary, and its window lies within its memory. */
  ghost predicate HonestNeighbour(m: nat, page: nat, r1: Request, r2: Request)
    requires page > 0 && Words(m, r1) && Allocate(m, r1).result.Some?
  {
    && Words(m, r2) && Allocate(m, r2).result.Some? && RegionBase(Allocate(m, r2).result.value.backing).Some?
    && Safe(m, r2) && GivenAddress(r2) % page == 0
    && EnterAll(m, EnterAll(m, EMPTY, Allocate(m, r1).effects), Allocate(m, r2).effects).honest
  }

  /** The physical windows of the buffers that two requests yield have no byte in common. */
  predicate WindowsDisjoint(m: nat, r1: Request, r2: Request)
    requires Words(m, r1) && Words(m, r2) && Allocate(m, r1).result.Some? && Allocate(m, r2).result.Some?
  {
    var b1, b2 := Allocate(m, r1).result.value, Allocate(m, r2).result.value;
    Disjoint(b1.physical, b1.size, b2.physical, b2.size)
  }

  /** The end of the page that the memory up to `end` reaches into. */
  function PageEnd(page: nat, end: nat): nat
    requires page > 0
  {
    (end + page - 1) / page * page
  }

  /** The start of the page that an address lies on. */
  function PageStart(page: nat, address: nat): nat
    requires page > 0
  {
    address / page * page
  }

  lemma PageEndIs(page: nat, end: nat, next: nat)
    requires page > 0
    ensures end <= PageEnd(page, end)
    ensures next % page == 0 && end <= next ==> PageEnd(page, end) <= next
  {
    RoundDown(end + page - 1, page);
    if next % page == 0 && end <= next {
      NoMultipleBelow(end, page, PageEnd(page, end), next);
    }
  }

  lemma PageStartIs(page: nat, address: nat)
    requires page > 0
    ensures PageStart(page, address) % page == 0
    ensures PageStart(page, address) <= address < PageStart(page, address) + page
  {
    RoundDown(address, page);
  }

  lemma Multiples(k: nat, q: nat, page: nat)
    requires k * page < q * page + page
    ensures k * page <= q * page
  {
    if k > q {
      LargerQuotient(k, q, page);
    } else if q > k {
      LargerQuotient(q, k, page);
    }
  }

  /** The page that the last byte of a window lies on is behind the pages that it does not keep to. */
  lemma LastPage(page: nat, end: nat, last: nat)
    requires page > 0 && PageEnd(page, end) <= last
    ensures end <= PageStart(page, last)
  {
    PageStartIs(page, last);
    PageEndIs(page, end, 0);
    Multiples((end + page - 1) / page, last / page, page);
  }

  /** A PxP request served from a page boundary, whose base the macro aligns without wrapping, and whose
      window has room up to the end of a page in the address space. */
  predicate HasRoom(m: nat, page: nat, r: Request)
    requires page > 0 && r.PxpRequest? && r.base.Ok? && Words(m, r)
  {
    && r.base.value > 0 && r.base.value % page == 0 && r.base.value + r.size <= m
    && !Wraps(m, r.base.value, r.alignment)
    && Aligned(m, r.base.value, r.alignment) + r.size + page <= m
  }

  /** The window of a PxP buffer keeps to the pages that its memory reaches into. */
  predicate KeepsToPages(m: nat, page: nat, r: Request)
    requires page > 0 && r.PxpRequest? && r.base.Ok? && Words(m, r)
  {
    Aligned(m, r.base.value, r.alignment) + r.size <= PageEnd(page, r.base.value + r.size)
  }

  /** Memory of whole pages leaves no slack: the window keeps to them exactly if the request is safe. */
  lemma WholePagesIff(m: nat, page: nat, r: Request)
    requires page > 0 && r.PxpRequest? && r.base.Ok? && Words(m, r) && HasRoom(m, page, r) && r.size % page == 0
    ensures KeepsToPages(m, page, r) <==> Safe(m, r)
  {
    var base := r.base.value;
    Offset(m, base, EffectiveAlignment(r.alignment));
    RemainderOf(base, page);
    RemainderOf(r.size, page);
    assert base + r.size == (base / page + r.size / page) * page;
    DivMod(base + r.size, page, base / page + r.size / page, 0);
    PageEndIs(page, base + r.size, base + r.size);
  }

  /** A PxP window that does not keep to its pages has an honest neighbour, of one page, whose memory it
      runs into. */
  lemma StrayWindowOverlaps(m: nat, page: nat, r: Request) returns (neighbour: Request)
    requires 0 < page < m && r.PxpRequest? && r.base.Ok? && Words(m, r) && HasRoom(m, page, r)
    requires !KeepsToPages(m, page, r)
    ensures HonestNeighbour(m, page, r, neighbour) && neighbour.size == page && !WindowsDisjoint(m, r, neighbour)
  {
    var base, aligned := r.base.value, Aligned(m, r.base.value, r.alignment);
    LastPage(page, base + r.size, aligned + r.size - 1);
    PageStartIs(page, aligned + r.size - 1);
    var next := PageStart(page, aligned + r.size - 1);
    neighbour := PxpRequest(page, 1, Ok(next));
    Offset(m, next, 1);
    DivMod(next, 1, next, 0);
    EnterOne(m, EMPTY, Acquire(PxpRegion(base), r.size));
    EnterOne(m, Enter(m, EMPTY, Acquire(PxpRegion(base), r.size)), Acquire(PxpRegion(next), page));
  }

  /** What an honest kernel and a safe request keep apart. */
  lemma NeighbourKeepsOff(m: nat, page: nat, r: Request, r2: Request)
    requires page > 0 && r.PxpRequest? && r.base.Ok? && Words(m, r) && HonestNeighbour(m, page, r, r2)
    ensures var b2 := Allocate(m, r2).result.value;
            var base2 := RegionBase(b2.backing).value;
            && base2 % page == 0 && Within(base2, RequestedLength(m, r2), b2.physical, b2.size)
            && Disjoint(base2, RequestedLength(m, r2), r.base.value, r.size)
  {
    var b2, acquired := Allocate(m, r2).result.value, Acquire(PxpRegion(r.base.value), r.size);
    assert Allocate(m, r2).effects == [Acquire(b2.backing, RequestedLength(m, r2))];
    EnterOne(m, EMPTY, acquired);
    EnterOne(m, Enter(m, EMPTY, acquired), Acquire(b2.backing, RequestedLength(m, r2)));
    assert PxpRegion(r.base.value) in Enter(m, EMPTY, acquired).ledger.buffers;
    AllocateYields(m, r2);
  }

  /** The window of a PxP buffer is never overlapped by an honest neighbour exactly if it keeps to the
      pages that its memory reaches into. */
  lemma NeverOverlappedIff(m: nat, page: nat, r: Request)
    requires 0 < page < m && r.PxpRequest? && r.base.Ok? && Words(m, r) && HasRoom(m, page, r)
    ensures KeepsToPages(m, page, r) <==> forall r2 :: HonestNeighbour(m, page, r, r2) ==> WindowsDisjoint(m, r, r2)
  {
    if KeepsToPages(m, page, r) {
      Offset(m, r.base.value, EffectiveAlignment(r.alignment));
      forall r2 | HonestNeighbour(m, page, r, r2) ensures WindowsDisjoint(m, r, r2) {
        NeighbourKeepsOff(m, page, r, r2);
        PageEndIs(page, r.base.value + r.size, RegionBase(Allocate(m, r2).result.value.backing).value);
      }
    } else {
      var neighbour := StrayWindowOverlaps(m, page, r);
    }
  }

  /** For memory of whole pages, of any size, being safe is the exact condition. */
  lemma SafeIffNeverOverlapped(m: nat, page: nat, r: Request)
    requires 0 < page < m && r.PxpRequest? && r.base.Ok? && Words(m, r) && HasRoom(m, page, r)
    requires r.size % page == 0
    ensures Safe(m, r) <==> forall r2 :: HonestNeighbour(m, page, r, r2) ==> WindowsDisjoint(m, r, r2)
  {
    WholePagesIff(m, page, r);
    NeverOverlappedIff(m, page, r);
  }

  const PAGE := 4096

  /** A page at 4096 that is to be aligned to 8192, and the page behind it: the whole window of the
      first buffer is the memory of the second. */
  lemma PxpWindowsCanOverlap(m: nat)
    requires m >= 0x1_0000_0000
    ensures var r1, r2 := PxpRequest(PAGE, 2 * PAGE, Ok(PAGE)), PxpRequest(PAGE, 1, Ok(2 * PAGE));
            && AllCallable(m, TwoCalls(r1, r2)) && AuditOf(m, TwoCalls(r1, r2)).honest
            && var pool := PoolOf(m, TwoCalls(r1, r2));
               && 0 in pool && 1 in pool
               && pool[0].buf.physical == pool[1].buf.physical && pool[0].buf.size == pool[1].buf.size == PAGE
  {
    var r1, r2 := PxpRequest(PAGE, 2 * PAGE, Ok(PAGE)), PxpRequest(PAGE, 1, Ok(2 * PAGE));
    Offset(m, PAGE, 2 * PAGE);
    Offset(m, 2 * PAGE, 1);
    TwoCallsRun(m, r1, r2);
    EnterOne(m, EMPTY, Acquire(PxpRegion(PAGE), PAGE));
    EnterOne(m, Enter(m, EMPTY, Acquire(PxpRegion(PAGE), PAGE)), Acquire(PxpRegion(2 * PAGE), PAGE));
  }
}
