/** The map / unmap / sync / deallocate behaviour of the six allocators, as functions on values.

    A buffer class of any allocator abstracts to a `Buf`; its methods are proved to take the
    steps defined here, and runs of steps are what the theorems of this project are about. */
module Mapping {
  import opened Kernel
  import opened Flags

  /** Which allocator a buffer belongs to. A dma-heap allocator is cached or not. The code as it
      is written has `guarded == false`; with `guarded == true` the automatic start of a sync
      session would depend on the success of mmap(), a repair studied in module Sessions. */
  datatype Style = DmaHeap(cached: bool, guarded: bool) | Ion | Ipu | Pxp | Dwl | G2d
  {
    /** DWL and G2D memory is always mapped; these allocators only count. */
    predicate CountsOnly() { Dwl? || G2d? }

    predicate Syncs() { DmaHeap? && cached }

    /** The flags an allocator works with, given the ones its map function is passed. */
    function Normalise(flags: MapFlags): MapFlags {
      match this
      case DmaHeap(_, _) => if Access(flags) == 0 then WithFullAccess(flags) else flags
      case Ion | Dwl | G2d => if flags == 0 then WithFullAccess(0) else flags
      case Ipu | Pxp => flags
    }
  }

  /** `address` is the mapped virtual address, 0 standing for NULL. For an allocator that only
      counts it is the fixed aligned virtual address. `physical` is the physical address that users
      are told. */
  datatype Buf = Buf(backing: Backing, size: nat, physical: nat, address: nat, flags: MapFlags, count: int, sync: bool)

  /** The calls a user makes on a live buffer. A map call may or may not reach mmap(). */
  datatype Op = Map(flags: MapFlags, mmap: Reply<Pointer>) | Unmap | Start | Stop

  datatype Step = Step(buf: Buf, effects: seq<Effect>)

  function FdOf(backing: Backing): int {
    match backing
    case DmaBuf(fd) => fd
    case _ => -1
  }

  /** The offset passed to mmap(): the unaligned physical base for IPU and PxP memory. */
  function MmapOffset(backing: Backing): nat {
    match backing
    case IpuRegion(base) => base
    case PxpRegion(base) => base
    case _ => 0
  }

  function BeginSession(b: Buf): Step {
    Step(b.(sync := true), [BeginSync] + if Reads(b.flags) then [PhysIoctl(FdOf(b.backing))] else [])
  }

  function EndSession(b: Buf): Step {
    Step(b.(sync := false), [EndSync] + if Writes(b.flags) then [PhysIoctl(FdOf(b.backing))] else [])
  }

  function MapCounting(style: Style, b: Buf, flags: MapFlags): Step {
    if b.count > 0 then Step(b.(count := b.count + 1), [])
    else Step(b.(flags := style.Normalise(flags), count := 1), [])
  }

  function MapReal(style: Style, b: Buf, flags: MapFlags, mmap: Reply<Pointer>): Step {
    if b.address != 0 then Step(b.(count := b.count + 1), [])
    else
      var f := style.Normalise(flags);
      var tried := [Mmap(b.backing, MmapOffset(b.backing), b.size, ProtectionOf(f), mmap)];
      var b' := if mmap.Ok? then b.(flags := f, count := 1, address := mmap.value) else b.(flags := f);
      if style.Syncs() && !Manual(f) && (mmap.Ok? || !style.guarded) then
        var begun := BeginSession(b');
        Step(begun.buf, tried + begun.effects)
      else
        Step(b', tried)
  }

  function UnmapReal(style: Style, b: Buf): Step {
    if b.address == 0 then Step(b, [])
    else if b.count - 1 != 0 then Step(b.(count := b.count - 1), [])
    else
      var b' := b.(count := b.count - 1);
      var ended := if style.Syncs() && !Manual(b.flags) then EndSession(b') else Step(b', []);
      Step(ended.buf.(address := 0), ended.effects + [Munmap(b.address, b.size)])
  }

  function StartManual(b: Buf): Step {
    if b.sync || !Manual(b.flags) then Step(b, []) else BeginSession(b)
  }

  function StopManual(b: Buf): Step {
    if !b.sync || !Manual(b.flags) then Step(b, []) else EndSession(b)
  }

  /** One call. The pointer that a map call returns is the `address` of the resulting buffer. */
  function Next(style: Style, b: Buf, op: Op): Step {
    match op
    case Map(flags, mmap) =>
      if style.CountsOnly() then MapCounting(style, b, flags) else MapReal(style, b, flags, mmap)
    case Unmap =>
      if !style.CountsOnly() then UnmapReal(style, b)
      else if b.count > 0 then Step(b.(count := b.count - 1), []) else Step(b, [])
    case Start => if style.Syncs() then StartManual(b) else Step(b, [])
    case Stop => if style.Syncs() then StopManual(b) else Step(b, [])
  }

  /** Deallocation. A mapped dma-heap buffer goes through the real stop routine even if the
      allocator is uncached. The resulting `Buf` is the structure just before it is freed. */
  function Deallocated(style: Style, b: Buf): Step {
    if style.CountsOnly() || b.address == 0 then Step(b, [Release(b.backing)])
    else
      var stopped := if style.DmaHeap? then StopManual(b) else Step(b, []);
      var unmapped := UnmapReal(style, stopped.buf.(count := 1));
      Step(unmapped.buf, stopped.effects + unmapped.effects + [Release(b.backing)])
  }

  predicate Mapped(style: Style, b: Buf) {
    if style.CountsOnly() then b.count > 0 else b.address != 0
  }

  /** What the source asserts about a call (and the interface documents as the caller's duty). */
  predicate AssertionsHold(style: Style, b: Buf, op: Op) {
    match op
    case Map(flags, _) => Mapped(style, b) ==> Covers(b.flags, style.Normalise(flags))
    case Stop => style.Syncs() ==> b.address != 0
    case _ => true
  }

  /** A buffer as allocate() returns it. Its flags are not initialised. */
  predicate Fresh(style: Style, b: Buf) {
    b.count == 0 && !b.sync && (style.CountsOnly() <==> b.address != 0)
  }

  function Run(style: Style, b: Buf, ops: seq<Op>): Buf {
    if |ops| == 0 then b
    else Next(style, Run(style, b, ops[..|ops| - 1]), ops[|ops| - 1]).buf
  }

  function Trace(style: Style, b: Buf, ops: seq<Op>): seq<Effect> {
    if |ops| == 0 then []
    else Trace(style, b, ops[..|ops| - 1]) + Next(style, Run(style, b, ops[..|ops| - 1]), ops[|ops| - 1]).effects
  }

  /** What no call ever changes. */
  predicate SameBuffer(b: Buf, b': Buf) {
    b'.backing == b.backing && b'.size == b.size && b'.physical == b.physical
  }

  /** Holds of every reachable buffer of every allocator, whatever its user does. */
  predicate Consistent(style: Style, b: Buf) {
    && b.count >= 0
    && (!style.CountsOnly() ==> (b.address != 0 <==> b.count > 0))
    && (!style.Syncs() ==> !b.sync)
    && (style.Syncs() && b.address != 0 && !Manual(b.flags) ==> b.sync)
  }

  lemma NextKeepsConsistent(style: Style, b: Buf, op: Op)
    requires Consistent(style, b)
    ensures Consistent(style, Next(style, b, op).buf)
    ensures SameBuffer(b, Next(style, b, op).buf)
    ensures style.CountsOnly() ==> Next(style, b, op).buf.address == b.address
  {}

  lemma {:induction false} RunKeepsConsistent(style: Style, b: Buf, ops: seq<Op>)
    requires Consistent(style, b)
    ensures Consistent(style, Run(style, b, ops))
    ensures SameBuffer(b, Run(style, b, ops))
    ensures style.CountsOnly() ==> Run(style, b, ops).address == b.address
  {
    if |ops| != 0 {
      RunKeepsConsistent(style, b, ops[..|ops| - 1]);
      NextKeepsConsistent(style, Run(style, b, ops[..|ops| - 1]), ops[|ops| - 1]);
    }
  }

  predicate IsSync(e: Effect) { e.BeginSync? || e.EndSync? || e.PhysIoctl? }

  /** A synchronisation is always of the buffer whose call it belongs to. */
  lemma StepSyncsOwnBuffer(style: Style, b: Buf, op: Op)
    requires style.DmaHeap? ==> b.backing.DmaBuf?
    requires Consistent(style, b)
    ensures forall e <- Next(style, b, op).effects :: e.PhysIoctl? ==> b.backing == DmaBuf(e.fd)
    ensures forall e <- Deallocated(style, b).effects :: e.PhysIoctl? ==> b.backing == DmaBuf(e.fd)
  {}

  /** Over every run, and a deallocation after it, DMA_BUF_IOCTL_PHYS is only ever given the descriptor
      of the buffer itself. */
  lemma {:induction false} RunSyncsOwnBuffer(style: Style, b: Buf, ops: seq<Op>)
    requires style.DmaHeap? ==> b.backing.DmaBuf?
    requires Consistent(style, b)
    ensures forall e <- Trace(style, b, ops) + Deallocated(style, Run(style, b, ops)).effects ::
              e.PhysIoctl? ==> b.backing == DmaBuf(e.fd)
  {
    RunKeepsConsistent(style, b, ops);
    StepSyncsOwnBuffer(style, Run(style, b, ops), Unmap);
    if |ops| != 0 {
      var init := ops[..|ops| - 1];
      RunSyncsOwnBuffer(style, b, init);
      RunKeepsConsistent(style, b, init);
      StepSyncsOwnBuffer(style, Run(style, b, init), ops[|ops| - 1]);
    }
  }

  /** What a first map asks of the kernel, and what it records, spelled out on the bits that the caller
      passed. Flags that ask for nothing ask for everything: for dma-heap, if no access bit is set; for
      ION, DWL and G2D, if no bit is set; for IPU and PxP, never. */
  lemma FirstMapGrants(style: Style, b: Buf, flags: MapFlags, mmap: Reply<Pointer>)
    requires !Mapped(style, b)
    ensures var everything := match style
                              case DmaHeap(_, _) => flags & 3 == 0
                              case Ipu | Pxp => false
                              case _ => flags == 0;
            var step := Next(style, b, Map(flags, mmap));
            && step.buf.flags == (if everything then flags | 3 else flags)
            && (!style.CountsOnly() ==>
                  && |step.effects| > 0 && step.effects[0].Mmap?
                  && step.effects[0].backing == b.backing && step.effects[0].length == b.size
                  && step.effects[0].reply == mmap
                  && (step.effects[0].prot.read <==> flags & 2 != 0 || everything)
                  && (step.effects[0].prot.write <==> flags & 1 != 0 || everything)
                  && step.effects[0].offset == match b.backing
                                               case IpuRegion(base) => base
                                               case PxpRegion(base) => base
                                               case _ => 0)
    ensures forall k :: 0 < k < |Next(style, b, Map(flags, mmap)).effects| ==>
              IsSync(Next(style, b, Map(flags, mmap)).effects[k])
  {}

  /** What a call leaves alone. Only a first map touches the flags, and one that fails touches neither the
      count nor the address; a redundant map and an unmap that is not the last only count; starting and
      stopping a session touches nothing but the flag of the session. */
  lemma CallsTouchOnly(style: Style, b: Buf, op: Op)
    requires Consistent(style, b)
    ensures var step := Next(style, b, op);
            && (!(op.Map? && !Mapped(style, b)) ==> step.buf.flags == b.flags)
            && (op.Map? && Mapped(style, b) ==> step == Step(b.(count := b.count + 1), []))
            && (op.Map? && !style.CountsOnly() && b.address == 0 && op.mmap.Failed? ==>
                  step.buf == b.(flags := step.buf.flags, sync := step.buf.sync))
            && (op.Unmap? && b.count > 1 ==> step == Step(b.(count := b.count - 1), []))
            && (op.Unmap? && !Mapped(style, b) ==> step == Step(b, []))
            && (op.Start? || op.Stop? ==> step.buf == b.(sync := step.buf.sync))
            && (!style.Syncs() ==> step.buf.sync == b.sync)
  {}

  /** The system call that goes with becoming mapped, with becoming unmapped, and with neither (when
      there can only be a failed mmap). */
  predicate CallFits(b: Buf, b': Buf, call: seq<Effect>) {
    if b.address == 0 && b'.address != 0 then
      call == [Mmap(b.backing, MmapOffset(b.backing), b.size, ProtectionOf(b'.flags), Ok(b'.address))]
    else if b.address != 0 && b'.address == 0 then
      call == [Munmap(b.address, b.size)]
    else
      || call == []
      || (b.address == 0 && |call| == 1 && call[0].Mmap? && call[0].backing == b.backing && call[0].reply.Failed?)
  }

  predicate AllSync(es: seq<Effect>) { forall e <- es :: IsSync(e) }

  lemma MapShape(style: Style, b: Buf, flags: MapFlags, mmap: Reply<Pointer>)
    returns (call: seq<Effect>, post: seq<Effect>)
    ensures MapReal(style, b, flags, mmap).effects == call + post
    ensures CallFits(b, MapReal(style, b, flags, mmap).buf, call) && AllSync(post)
  {
    var es := MapReal(style, b, flags, mmap).effects;
    if b.address == 0 {
      call, post := es[..1], es[1..];
    } else {
      call, post := [], [];
    }
  }

  lemma UnmapShape(style: Style, b: Buf) returns (pre: seq<Effect>, call: seq<Effect>)
    ensures UnmapReal(style, b).effects == pre + call
    ensures CallFits(b, UnmapReal(style, b).buf, call) && AllSync(pre)
  {
    var es := UnmapReal(style, b).effects;
    if b.address == 0 || b.count - 1 != 0 {
      pre, call := [], [];
    } else {
      pre, call := es[..|es| - 1], es[|es| - 1..];
    }
  }

  /** Apart from synchronisation, a call makes at most one system call: the first map calls mmap(),
      and the last unmap unmaps exactly what that mapped. */
  lemma NextShape(style: Style, b: Buf, op: Op) returns (pre: seq<Effect>, call: seq<Effect>, post: seq<Effect>)
    ensures Next(style, b, op).effects == pre + call + post
    ensures AllSync(pre) && AllSync(post)
    ensures CallFits(b, Next(style, b, op).buf, call)
  {
    pre, call, post := [], [], [];
    if !style.CountsOnly() && op.Map? {
      call, post := MapShape(style, b, op.flags, op.mmap);
    } else if !style.CountsOnly() && op.Unmap? {
      pre, call := UnmapShape(style, b);
    } else {
      pre := Next(style, b, op).effects;
    }
  }

  /** Ending the session that is open, and the mapping. */
  function ClosingOf(b: Buf): seq<Effect> {
    if b.address == 0 then []
    else (if b.sync then EndSession(b).effects else []) + [Munmap(b.address, b.size)]
  }

  /** A deallocation closes an open session, unmaps once whatever the count, and releases once. */
  lemma DeallocationShape(style: Style, b: Buf)
    requires Consistent(style, b) && !style.CountsOnly()
    ensures Deallocated(style, b).effects
         == ClosingOf(b) + [Release(b.backing)]
    ensures b.address != 0 ==> !Deallocated(style, b).buf.sync
    ensures Deallocated(style, b).buf.address == 0 && SameBuffer(b, Deallocated(style, b).buf)
  {}

  lemma DmaHeapBits(cached: bool, guarded: bool, flags: MapFlags)
    ensures var f := DmaHeap(cached, guarded).Normalise(flags);
            && ProtectionOf(f) == Protection(flags & 2 != 0 || flags & 3 == 0, flags & 1 != 0 || flags & 3 == 0)
            && (Reads(f) <==> flags & 2 != 0 || flags & 3 == 0) && (Manual(f) <==> flags & 4 != 0)
  {}

  /** A map of a dma-heap buffer in any state: what a first map asks for, and whether it begins a session. */
  lemma DmaHeapMapIs(cached: bool, b: Buf, flags: MapFlags, mmap: Reply<Pointer>)
    requires b.backing.DmaBuf?
    ensures var first := b.address == 0;
            var begins := first && cached && flags & 4 == 0;
            var prot := Protection(flags & 2 != 0 || flags & 3 == 0, flags & 1 != 0 || flags & 3 == 0);
            var step := Next(DmaHeap(cached, false), b, Map(flags, mmap));
            && step.buf.sync == (b.sync || begins)
            && step.effects == (if first then [Mmap(b.backing, 0, b.size, prot, mmap)] else [])
                               + (if begins then [BeginSync] else [])
                               + (if begins && prot.read then [PhysIoctl(b.backing.fd)] else [])
  {
    DmaHeapBits(cached, false, flags);
    if b.address == 0 {
      assert Next(DmaHeap(cached, false), b, Map(flags, mmap)) == MapReal(DmaHeap(cached, false), b, flags, mmap);
    }
  }

  /** The deallocation of a dma-heap buffer in any state: the session that is ended is the manual one that
      is open, or the automatic one of cached memory. */
  lemma DmaHeapDeallocationIs(cached: bool, b: Buf)
    requires b.backing.DmaBuf?
    ensures var ends := b.address != 0 && if b.flags & 4 != 0 then b.sync else cached;
            var step := Deallocated(DmaHeap(cached, false), b);
            && step.buf.sync == (b.sync && !ends)
            && step.effects == (if ends then [EndSync] else [])
                               + (if ends && b.flags & 1 != 0 then [PhysIoctl(b.backing.fd)] else [])
                               + (if b.address != 0 then [Munmap(b.address, b.size)] else [])
                               + [Release(b.backing)]
  {}

  // ----- how many mappings a buffer has -----

  /** Successful mmap() calls, less munmap() calls. */
  function LiveMmaps(trace: seq<Effect>): int {
    if |trace| == 0 then 0
    else
      var e := trace[|trace| - 1];
      LiveMmaps(trace[..|trace| - 1])
      + (if e.Mmap? && e.reply.Ok? then 1 else 0) - (if e.Munmap? then 1 else 0)
  }

  lemma {:induction false} LiveMmapsConcat(s: seq<Effect>, t: seq<Effect>)
    ensures LiveMmaps(s + t) == LiveMmaps(s) + LiveMmaps(t)
  {
    if |t| == 0 {
      assert s + t == s;
    } else {
      assert (s + t)[..|s + t| - 1] == s + t[..|t| - 1];
      LiveMmapsConcat(s, t[..|t| - 1]);
    }
  }

  lemma {:induction false} SyncsMapNothing(es: seq<Effect>)
    requires AllSync(es)
    ensures LiveMmaps(es) == 0
  {
    if |es| != 0 {
      assert forall e <- es[..|es| - 1] :: e in es;
      SyncsMapNothing(es[..|es| - 1]);
      assert IsSync(es[|es| - 1]);
    }
  }

  lemma CallMaps(b: Buf, b': Buf, call: seq<Effect>)
    requires CallFits(b, b', call)
    ensures LiveMmaps(call) == (if b'.address != 0 then 1 else 0) - (if b.address != 0 then 1 else 0)
  {
    if |call| == 1 {
      assert LiveMmaps(call[..0]) == 0;
    }
  }

  /** In every reachable state of a really mapping allocator, whatever failed before, there is one
      mapping if the buffer has a mapped address, and otherwise none. */
  lemma {:induction false} AtMostOneMapping(style: Style, b: Buf, ops: seq<Op>)
    requires Fresh(style, b) && !style.CountsOnly()
    ensures LiveMmaps(Trace(style, b, ops)) == if Run(style, b, ops).address != 0 then 1 else 0
  {
    if |ops| != 0 {
      var init, last := ops[..|ops| - 1], ops[|ops| - 1];
      var before := Run(style, b, init);
      AtMostOneMapping(style, b, init);
      var pre, call, post := NextShape(style, before, last);
      LiveMmapsConcat(Trace(style, b, init), pre + call + post);
      LiveMmapsConcat(pre + call, post);
      LiveMmapsConcat(pre, call);
      SyncsMapNothing(pre);
      SyncsMapNothing(post);
      CallMaps(before, Next(style, before, last).buf, call);
    }
  }

  /** Deallocation leaves no mapping, whatever state it finds. */
  lemma DeallocationUnmaps(style: Style, b: Buf, ops: seq<Op>)
    requires Fresh(style, b) && !style.CountsOnly()
    ensures LiveMmaps(Trace(style, b, ops) + Deallocated(style, Run(style, b, ops)).effects) == 0
  {
    AtMostOneMapping(style, b, ops);
    RunKeepsConsistent(style, b, ops);
    var reached := Run(style, b, ops);
    LiveMmapsConcat(Trace(style, b, ops), Deallocated(style, reached).effects);
    DeallocationShape(style, reached);
    ClosingUnmaps(reached);
  }

  lemma ClosingUnmaps(b: Buf)
    ensures LiveMmaps(ClosingOf(b) + [Release(b.backing)]) == if b.address != 0 then -1 else 0
  {
    var sync := if b.sync then EndSession(b).effects else [];
    var munmap, release := [Munmap(b.address, b.size)], [Release(b.backing)];
    assert munmap[..0] == [] && release[..0] == [];
    SyncsMapNothing(sync);
    LiveMmapsConcat(sync, munmap);
    LiveMmapsConcat(sync + munmap, release);
    LiveMmapsConcat([], release);
  }

  // ----- one abstract machine for all six -----

  /** What a call is worth to the reference count, as far as its caller can tell: a map call that
      returned a pointer counts one, an unmap call takes one away. */
  function Worth(style: Style, b: Buf, op: Op): int {
    match op
    case Map(_, _) => if Next(style, b, op).buf.address != 0 then 1 else 0
    case Unmap => -1
    case _ => 0
  }

  lemma CountStep(style: Style, b: Buf, op: Op)
    requires Consistent(style, b) && (style.CountsOnly() ==> b.address != 0)
    ensures var n := b.count + Worth(style, b, op);
            Next(style, b, op).buf.count == if n < 0 then 0 else n
    ensures op.Map? && op.mmap.Ok? ==> Worth(style, b, op) == 1
  {}

  function Worths(style: Style, b: Buf, ops: seq<Op>): (ws: seq<int>)
    ensures |ws| == |ops|
  {
    if |ops| == 0 then []
    else Worths(style, b, ops[..|ops| - 1]) + [Worth(style, Run(style, b, ops[..|ops| - 1]), ops[|ops| - 1])]
  }

  function Sum(ws: seq<int>): int {
    if |ws| == 0 then 0 else Sum(ws[..|ws| - 1]) + ws[|ws| - 1]
  }

  /** The abstract machine: a counter that does not go below zero. */
  function Saturating(ws: seq<int>): nat {
    if |ws| == 0 then 0
    else
      var n := Saturating(ws[..|ws| - 1]) + ws[|ws| - 1];
      if n < 0 then 0 else n
  }

  /** The reference count of a real mapping and of a counting one are the same abstract counter. */
  lemma {:induction false} CountIsSaturating(style: Style, b: Buf, ops: seq<Op>)
    requires Fresh(style, b)
    ensures Run(style, b, ops).count == Saturating(Worths(style, b, ops))
  {
    if |ops| != 0 {
      var init := ops[..|ops| - 1];
      CountIsSaturating(style, b, init);
      RunKeepsConsistent(style, b, init);
      CountStep(style, Run(style, b, init), ops[|ops| - 1]);
      assert Worths(style, b, ops)[..|ops| - 1] == Worths(style, b, init);
    }
  }

  /** The saturating counter without a recursion on states: it is the largest excess of maps over
      unmaps that any final stretch of the calls shows. */
  lemma {:induction false} SaturatingIsLargestExcess(ws: seq<int>) returns (k: nat)
    ensures k <= |ws| && Saturating(ws) == Sum(ws[k..])
    ensures forall j :: 0 <= j <= |ws| ==> Sum(ws[j..]) <= Saturating(ws)
  {
    if |ws| == 0 {
      k := 0;
    } else {
      var n := |ws| - 1;
      var init := ws[..n];
      k := SaturatingIsLargestExcess(init);
      forall j | 0 <= j <= n ensures Sum(ws[j..]) == Sum(init[j..]) + ws[n] {
        assert ws[j..][..|ws[j..]| - 1] == init[j..];
      }
      if Saturating(init) + ws[n] < 0 {
        k := |ws|;
      }
    }
  }

  /** A buffer is unmapped exactly when every final stretch of its calls has at least as many
      unmaps as maps that returned a pointer. */
  lemma UnmappedIff(style: Style, b: Buf, ops: seq<Op>)
    requires Fresh(style, b)
    ensures !Mapped(style, Run(style, b, ops))
       <==> forall j :: 0 <= j <= |ops| ==> Sum(Worths(style, b, ops)[j..]) <= 0
  {
    CountIsSaturating(style, b, ops);
    RunKeepsConsistent(style, b, ops);
    var k := SaturatingIsLargestExcess(Worths(style, b, ops));
  }

  /** The abstract counter driven by the calls alone, for runs in which no mmap() fails. */
  function Balance(ops: seq<Op>): nat {
    if |ops| == 0 then 0
    else
      var n := Balance(ops[..|ops| - 1]);
      match ops[|ops| - 1]
      case Map(_, _) => n + 1
      case Unmap => if n > 0 then n - 1 else 0
      case _ => n
  }

  predicate MmapsSucceed(ops: seq<Op>) {
    forall k :: 0 <= k < |ops| && ops[k].Map? ==> ops[k].mmap.Ok?
  }

  /** All six allocators step in lockstep with one abstract counter, and hence with each other, as
      long as no mmap() fails. */
  lemma {:induction false} Lockstep(style: Style, b: Buf, ops: seq<Op>)
    requires Fresh(style, b)
    requires MmapsSucceed(ops)
    ensures Run(style, b, ops).count == Balance(ops)
    ensures Mapped(style, Run(style, b, ops)) <==> Balance(ops) > 0
  {
    RunKeepsConsistent(style, b, ops);
    if |ops| != 0 {
      Lockstep(style, b, ops[..|ops| - 1]);
      RunKeepsConsistent(style, b, ops[..|ops| - 1]);
      CountStep(style, Run(style, b, ops[..|ops| - 1]), ops[|ops| - 1]);
    }
  }

  predicate MappedThroughout(style: Style, b: Buf, ops: seq<Op>) {
    forall k :: 0 <= k <= |ops| ==> Mapped(style, Run(style, b, ops[..k]))
  }

  predicate AssertionsHoldThroughout(style: Style, b: Buf, ops: seq<Op>) {
    forall k :: 0 <= k < |ops| ==> AssertionsHold(style, Run(style, b, ops[..k]), ops[k])
  }

  lemma MappedStepIsStable(style: Style, b: Buf, op: Op)
    requires Consistent(style, b)
    requires Mapped(style, b) && Mapped(style, Next(style, b, op).buf)
    ensures Next(style, b, op).buf.address == b.address
    ensures Next(style, b, op).buf.flags == b.flags
    ensures forall e <- Next(style, b, op).effects :: !e.Mmap? && !e.Munmap?
  {}

  /** From a first map to the last unmap every map call returns the same address, the flags and
      with them the protection do not change, and nothing is mapped or unmapped underneath. */
  lemma {:induction false} MappingIsStable(style: Style, b: Buf, ops: seq<Op>)
    requires Consistent(style, b)
    requires MappedThroughout(style, b, ops)
    ensures Run(style, b, ops).address == b.address
    ensures Run(style, b, ops).flags == b.flags
    ensures forall e <- Trace(style, b, ops) :: !e.Mmap? && !e.Munmap?
  {
    if |ops| != 0 {
      var init := ops[..|ops| - 1];
      forall k | 0 <= k <= |init| ensures init[..k] == ops[..k] {}
      assert ops[..|ops|] == ops;
      MappingIsStable(style, b, init);
      RunKeepsConsistent(style, b, init);
      MappedStepIsStable(style, Run(style, b, init), ops[|ops| - 1]);
    }
  }

  /** If the caller keeps to the asserted rule, every right that any outstanding map call asked for
      is one the memory was mapped with. */
  lemma GrantsAreContained(style: Style, b: Buf, ops: seq<Op>, k: nat)
    requires Consistent(style, b)
    requires MappedThroughout(style, b, ops) && AssertionsHoldThroughout(style, b, ops)
    requires k < |ops| && ops[k].Map?
    ensures Reads(style.Normalise(ops[k].flags)) ==> ProtectionOf(b.flags).read
    ensures Writes(style.Normalise(ops[k].flags)) ==> ProtectionOf(b.flags).write
  {
    forall j | 0 <= j <= k ensures ops[..k][..j] == ops[..j] {}
    MappingIsStable(style, b, ops[..k]);
    assert AssertionsHold(style, Run(style, b, ops[..k]), ops[k]);
    CoversIsContainment(b.flags, style.Normalise(ops[k].flags));
  }

  /** From the first map on, as long as the memory stays mapped: the protection that mmap() was called
      with allows all that any later map call asked for, in the bits that its caller passed. */
  lemma LaterMapsAreGranted(style: Style, b: Buf, flags: MapFlags, address: Pointer, ops: seq<Op>, k: nat)
    requires Consistent(style, b) && !style.CountsOnly() && b.address == 0
    requires var first := Next(style, b, Map(flags, Ok(address))).buf;
             MappedThroughout(style, first, ops) && AssertionsHoldThroughout(style, first, ops)
    requires k < |ops| && ops[k].Map?
    ensures var asked, effects := ops[k].flags, Next(style, b, Map(flags, Ok(address))).effects;
            var everything := match style
                              case DmaHeap(_, _) => asked & 3 == 0
                              case Ipu | Pxp => false
                              case _ => asked == 0;
            && |effects| > 0 && effects[0].Mmap?
            && (asked & 2 != 0 || everything ==> effects[0].prot.read)
            && (asked & 1 != 0 || everything ==> effects[0].prot.write)
  {
    var first := Next(style, b, Map(flags, Ok(address)));
    NextKeepsConsistent(style, b, Map(flags, Ok(address)));
    GrantsAreContained(style, first.buf, ops, k);
    FirstMapGrants(style, b, flags, Ok(address));
    FirstMapGrants(style, b, ops[k].flags, Ok(address));
    assert first.effects[0].prot == ProtectionOf(first.buf.flags);
    assert Next(style, b, Map(ops[k].flags, Ok(address))).buf.flags == style.Normalise(ops[k].flags);
  }

  /** Two runs whose calls differ only in what redundant map calls pass: any flags, MANUAL_SYNC
      among them, and any reply of the mmap() that such a call does not make. */
  predicate DifferInRedundantMaps(style: Style, b: Buf, ops: seq<Op>, ops': seq<Op>) {
    && |ops| == |ops'|
    && (|ops| != 0 ==>
          var n := |ops| - 1;
          && DifferInRedundantMaps(style, b, ops[..n], ops'[..n])
          && (ops[n] == ops'[n] || (ops[n].Map? && ops'[n].Map? && Mapped(style, Run(style, b, ops[..n])))))
  }

  /** What a redundant map call passes never matters to anything that follows. */
  lemma {:induction false} RedundantMapsIgnoreFlags(style: Style, b: Buf, ops: seq<Op>, ops': seq<Op>)
    requires DifferInRedundantMaps(style, b, ops, ops')
    ensures Run(style, b, ops) == Run(style, b, ops')
    ensures Trace(style, b, ops) == Trace(style, b, ops')
  {
    if |ops| != 0 {
      RedundantMapsIgnoreFlags(style, b, ops[..|ops| - 1], ops'[..|ops| - 1]);
    }
  }

  // ----- allocators that agree step for step -----

  /** Two allocators that really map and never synchronise treat a map call alike exactly when
      the buffer is mapped already or they read its flags alike. */
  lemma MapAgreesIff(style1: Style, style2: Style, b: Buf, flags: MapFlags, mmap: Reply<Pointer>)
    requires !style1.CountsOnly() && !style1.Syncs() && !style2.CountsOnly() && !style2.Syncs()
    ensures Next(style1, b, Map(flags, mmap)) == Next(style2, b, Map(flags, mmap))
       <==> b.address != 0 || style1.Normalise(flags) == style2.Normalise(flags)
  {
    if b.address == 0 {
      assert Next(style1, b, Map(flags, mmap)).buf.flags == style1.Normalise(flags);
      assert Next(style2, b, Map(flags, mmap)).buf.flags == style2.Normalise(flags);
    }
  }

  /** dma-heap and ION read flags alike exactly when there are none or one asks for access; ION
      and IPU (or PxP, which is always like IPU) exactly when there are any. */
  lemma FlagsReadAlikeIff(flags: MapFlags, guarded: bool)
    ensures DmaHeap(false, guarded).Normalise(flags) == Ion.Normalise(flags)
       <==> flags == 0 || Reads(flags) || Writes(flags)
    ensures Ion.Normalise(flags) == Ipu.Normalise(flags) <==> flags != 0
    ensures Ipu.Normalise(flags) == Pxp.Normalise(flags)
  {
  }

  /** The interface promises read/write access for a map call without flags. Every allocator
      keeps that promise but IPU and PxP, which map without any access. */
  lemma NoFlagsMeansReadWriteIff(style: Style)
    ensures ProtectionOf(style.Normalise(0)) == Protection(true, true) <==> !style.Ipu? && !style.Pxp?
  {
  }

  /** An uncached dma-heap buffer is indistinguishable from an ION buffer, to its user and to the
      kernel, in every run whose map flags they read alike; it never synchronises, and this stays
      true through a deallocation at any point of the run. */
  lemma {:induction false} UncachedDmaHeapIsIon(b: Buf, ops: seq<Op>, guarded: bool)
    requires Fresh(Ion, b)
    requires forall k :: 0 <= k < |ops| && ops[k].Map? ==>
               ops[k].flags == 0 || Reads(ops[k].flags) || Writes(ops[k].flags)
    ensures Run(DmaHeap(false, guarded), b, ops) == Run(Ion, b, ops)
    ensures Trace(DmaHeap(false, guarded), b, ops) == Trace(Ion, b, ops)
    ensures Deallocated(DmaHeap(false, guarded), Run(Ion, b, ops)) == Deallocated(Ion, Run(Ion, b, ops))
  {
    RunKeepsConsistent(Ion, b, ops);
    if |ops| != 0 {
      var init, last := ops[..|ops| - 1], ops[|ops| - 1];
      UncachedDmaHeapIsIon(b, init, guarded);
      if last.Map? {
        FlagsReadAlikeIff(last.flags, guarded);
        MapAgreesIff(DmaHeap(false, guarded), Ion, Run(Ion, b, init), last.flags, last.mmap);
      }
    }
  }

  lemma UncachedStepNeverSyncs(style: Style, b: Buf, op: Op)
    requires !style.Syncs() && !b.sync
    ensures forall e <- Next(style, b, op).effects :: !IsSync(e)
    ensures forall e <- Deallocated(style, b).effects :: !IsSync(e)
  {}

  /** An allocator of uncached memory issues no synchronisation in any run whatsoever, not even
      through the stop routine that deallocation calls directly. */
  lemma {:induction false} UncachedNeverSyncs(style: Style, b: Buf, ops: seq<Op>)
    requires Consistent(style, b) && !style.Syncs()
    ensures !Run(style, b, ops).sync
    ensures forall e <- Trace(style, b, ops) :: !IsSync(e)
    ensures forall e <- Deallocated(style, Run(style, b, ops)).effects :: !IsSync(e)
  {
    RunKeepsConsistent(style, b, ops);
    UncachedStepNeverSyncs(style, Run(style, b, ops), Unmap);
    if |ops| != 0 {
      UncachedNeverSyncs(style, b, ops[..|ops| - 1]);
      UncachedStepNeverSyncs(style, Run(style, b, ops[..|ops| - 1]), ops[|ops| - 1]);
    }
  }
}
