/** Why the sync sessions exist: they make cached memory behave like plain shared memory.

    The memory behind a cached dma-heap buffer is seen by the CPU through a cache and by devices
    directly. The only tool the allocator has is DMA_BUF_IOCTL_PHYS, which flushes and repopulates
    the entire buffer. The cache keeps whole lines, and may on its own account, at any time, fetch
    a line or evict one. */
module Coherence {
  import opened Kernel
  import opened Flags
  import opened Mapping

  type Byte = b: int | 0 <= b < 256

  function LineIndex(width: nat, i: nat): nat requires width >= 1 { i / width }

  /** `width` is the size of a cache line; `lines` holds the cached value of each byte whose line
      is present. */
  datatype Memory = Memory(width: nat, dram: seq<Byte>, lines: seq<Byte>, present: set<nat>, dirty: set<nat>)
  {
    predicate Valid() { width >= 1 && |lines| == |dram| && dirty <= present }

    function LineOf(i: nat): nat requires Valid() { LineIndex(width, i) }

    /** A line is one byte, or there is but one byte. */
    predicate Single() { width == 1 || |dram| <= 1 }
  }

  /** Write back every dirty line, then repopulate the cache from DRAM. */
  function SyncAll(m: Memory): (m': Memory)
    requires m.Valid()
    ensures m'.Valid()
  {
    var written := seq(|m.dram|, i requires 0 <= i < |m.dram| =>
                         if m.LineOf(i) in m.dirty then m.lines[i] else m.dram[i]);
    m.(dram := written, lines := written, dirty := {})
  }

  function Fetch(m: Memory, line: nat): (m': Memory)
    requires m.Valid()
    ensures m'.Valid()
  {
    if line in m.present then m
    else
      m.(lines := seq(|m.dram|, i requires 0 <= i < |m.dram| =>
                        if m.LineOf(i) == line then m.dram[i] else m.lines[i]),
         present := m.present + {line})
  }

  function Evict(m: Memory, line: nat): (m': Memory)
    requires m.Valid()
    ensures m'.Valid()
  {
    var written := seq(|m.dram|, i requires 0 <= i < |m.dram| =>
                         if m.LineOf(i) == line && line in m.dirty then m.lines[i] else m.dram[i]);
    m.(dram := written, present := m.present - {line}, dirty := m.dirty - {line})
  }

  /** The sync operation acts on the buffer whose descriptor it is given. */
  predicate Syncs(backing: Backing, e: Effect) { e.PhysIoctl? && backing == DmaBuf(e.fd) }

  /** What the system calls of the allocator do to the memory of a buffer. */
  function Absorb(m: Memory, backing: Backing, effects: seq<Effect>): (m': Memory)
    requires m.Valid()
    ensures m'.Valid()
  {
    if |effects| == 0 then m
    else
      var before := Absorb(m, backing, effects[..|effects| - 1]);
      if Syncs(backing, effects[|effects| - 1]) then SyncAll(before) else before
  }

  // ----- a buffer, its memory, and everybody who uses it -----

  /** `style` is cached dma-heap memory, managed by the code as it is or by its repaired variant. */
  datatype System = System(style: Style, buf: Buf, memory: Memory)

  datatype Event =
    | Api(op: Op)
    | CpuRead(i: nat)
    | CpuWrite(i: nat, value: Byte)
    | DeviceRead(i: nat)
    | DeviceWrite(i: nat, value: Byte)
    | CacheFetches(line: nat)
    | CacheEvicts(line: nat)

  function After(s: System, e: Event): (s': System)
    requires s.memory.Valid()
    ensures s'.memory.Valid()
  {
    var m := s.memory;
    match e
    case Api(op) =>
      var step := Next(s.style, s.buf, op);
      s.(buf := step.buf, memory := Absorb(m, s.buf.backing, step.effects))
    case CpuRead(i) => s.(memory := Fetch(m, m.LineOf(i)))
    case CpuWrite(i, value) =>
      if i >= |m.dram| then s
      else
        var m' := Fetch(m, m.LineOf(i));
        s.(memory := m'.(lines := m'.lines[i := value], dirty := m'.dirty + {m.LineOf(i)}))
    case DeviceRead(_) => s
    case DeviceWrite(i, value) =>
      if i >= |m.dram| then s else s.(memory := m.(dram := m.dram[i := value]))
    case CacheFetches(line) => s.(memory := Fetch(m, line))
    case CacheEvicts(line) => s.(memory := Evict(m, line))
  }

  /** What a read returns. */
  function Seen(s: System, e: Event): Option<Byte>
    requires s.memory.Valid()
  {
    var m := s.memory;
    match e
    case CpuRead(i) => if i < |m.dram| then Some(Fetch(m, m.LineOf(i)).lines[i]) else None
    case DeviceRead(i) => if i < |m.dram| then Some(m.dram[i]) else None
    case _ => None
  }

  /** Plain memory: a write replaces a byte, a read returns it, and nothing else matters. */
  function PlainAfter(mem: seq<Byte>, e: Event): seq<Byte> {
    match e
    case CpuWrite(i, value) => if i < |mem| then mem[i := value] else mem
    case DeviceWrite(i, value) => if i < |mem| then mem[i := value] else mem
    case _ => mem
  }

  function PlainSeen(mem: seq<Byte>, e: Event): Option<Byte> {
    match e
    case CpuRead(i) => if i < |mem| then Some(mem[i]) else None
    case DeviceRead(i) => if i < |mem| then Some(mem[i]) else None
    case _ => None
  }

  function AfterAll(s: System, events: seq<Event>): (s': System)
    requires s.memory.Valid()
    ensures s'.memory.Valid()
    decreases |events|
  {
    if |events| == 0 then s else AfterAll(After(s, events[0]), events[1..])
  }

  function PlainAfterAll(mem: seq<Byte>, events: seq<Event>): seq<Byte>
    decreases |events|
  {
    if |events| == 0 then mem else PlainAfterAll(PlainAfter(mem, events[0]), events[1..])
  }

  function SeenAll(s: System, events: seq<Event>): seq<Option<Byte>>
    requires s.memory.Valid()
    decreases |events|
  {
    if |events| == 0 then [] else [Seen(s, events[0])] + SeenAll(After(s, events[0]), events[1..])
  }

  function PlainSeenAll(mem: seq<Byte>, events: seq<Event>): seq<Option<Byte>>
    decreases |events|
  {
    if |events| == 0 then [] else [PlainSeen(mem, events[0])] + PlainSeenAll(PlainAfter(mem, events[0]), events[1..])
  }

  /** Every read returns what it would return from plain memory. */
  predicate SeesPlain(s: System, events: seq<Event>)
    requires s.memory.Valid()
  {
    SeenAll(s, events) == PlainSeenAll(s.memory.dram, events)
  }

  /** What the users of the memory know: whether a session is open on the mapped memory, because it was
      mapped with automatic synchronisation, or because they started one; and which bytes the CPU has
      written in that session. */
  datatype Caller = Caller(open: bool, written: set<nat>)

  const OUTSIDE := Caller(false, {})

  function CallerAfterCall(b: Buf, b': Buf, op: Op, c: Caller): Caller {
    if b'.address == 0 then OUTSIDE
    else if b.address == 0 then Caller(!Manual(b'.flags), {})
    else if !Manual(b.flags) then c
    else if op.Start? then c.(open := true)
    else if op.Stop? then OUTSIDE
    else c
  }

  function CallerAfter(s: System, e: Event, c: Caller): Caller {
    match e
    case Api(op) => CallerAfterCall(s.buf, Next(s.style, s.buf, op).buf, op, c)
    case CpuWrite(i, _) => c.(written := c.written + {i})
    case _ => c
  }

  function CallerAfterAll(s: System, events: seq<Event>, c: Caller): Caller
    requires s.memory.Valid()
    decreases |events|
  {
    if |events| == 0 then c else CallerAfterAll(After(s, events[0]), events[1..], CallerAfter(s, events[0], c))
  }

  /** Manual sessions are started on mapped memory, and stopped before the last unmap. Nothing is said
      about the success of mmap(). */
  predicate MayCall(style: Style, b: Buf, op: Op, c: Caller) {
    && style.Syncs() && AssertionsHold(style, b, op)
    && (op.Start? ==> b.address != 0 || !Manual(b.flags))
    && (op.Unmap? && c.open && Manual(b.flags) ==> b.count != 1)
  }

  /** The documented protocol: the CPU touches mapped memory inside a session, within the rights of
      the mapping; devices touch the memory outside sessions, mapped or not. */
  predicate FollowsProtocol(s: System, e: Event, c: Caller) {
    match e
    case Api(op) => MayCall(s.style, s.buf, op, c)
    case CpuRead(i) => i < s.buf.size && s.buf.address != 0 && c.open && Reads(s.buf.flags)
    case CpuWrite(i, _) => i < s.buf.size && s.buf.address != 0 && c.open && Writes(s.buf.flags)
    case DeviceRead(i) => i < s.buf.size && !c.open
    case DeviceWrite(i, _) => i < s.buf.size && !c.open
    case _ => true
  }

  predicate FollowsProtocolThroughout(s: System, events: seq<Event>, c: Caller)
    requires s.memory.Valid()
    decreases |events|
  {
    |events| != 0 ==>
      && FollowsProtocol(s, events[0], c)
      && FollowsProtocolThroughout(After(s, events[0]), events[1..], CallerAfter(s, events[0], c))
  }

  /** A manual session of a reader is started while the library believes that one is open already. */
  predicate StartsStale(b: Buf, op: Op, c: Caller) {
    op.Start? && b.address != 0 && Manual(b.flags) && Reads(b.flags) && !c.open && b.sync
  }

  predicate MayBegin(s: System, e: Event, c: Caller) { e.Api? ==> !StartsStale(s.buf, e.op, c) }

  predicate SessionsMayBegin(s: System, events: seq<Event>, c: Caller)
    requires s.memory.Valid()
    decreases |events|
  {
    |events| != 0 ==>
      && MayBegin(s, events[0], c)
      && SessionsMayBegin(After(s, events[0]), events[1..], CallerAfter(s, events[0], c))
  }

  /** Of every line that has a byte in the set, the whole line is in it, as far as it is in the buffer. */
  predicate FillsLines(width: nat, n: nat, written: set<nat>)
    requires width >= 1
  {
    forall i, j :: i in written && 0 <= j < n && LineIndex(width, i) == LineIndex(width, j) ==> j in written
  }

  /** A session may end: it read what it wrote into, or wrote every line that it touched in full. */
  predicate MayEnd(s: System, c: Caller)
    requires s.memory.Valid()
  {
    Writes(s.buf.flags) && !Reads(s.buf.flags) ==> FillsLines(s.memory.width, |s.memory.dram|, c.written)
  }

  predicate Ends(s: System, e: Event, c: Caller) { e.Api? && c.open && !CallerAfter(s, e, c).open }

  /** Every session that ends may end. */
  predicate SessionsMayEnd(s: System, events: seq<Event>, c: Caller)
    requires s.memory.Valid()
    decreases |events|
  {
    |events| != 0 ==>
      && (Ends(s, events[0], c) ==> MayEnd(s, c))
      && SessionsMayEnd(After(s, events[0]), events[1..], CallerAfter(s, events[0], c))
  }

  /** The memory is really mapped by this event; a redundant map, and one that fails, map nothing. */
  predicate ReallyMaps(s: System, e: Event) { e.Api? && e.op.Map? && s.buf.address == 0 && e.op.mmap.Ok? }

  /** The memory is never mapped for writing only. */
  predicate WritersMayRead(s: System, events: seq<Event>)
    requires s.memory.Valid()
    decreases |events|
  {
    |events| != 0 ==>
      && (ReallyMaps(s, events[0]) && Writes(s.style.Normalise(events[0].op.flags)) ==>
            Reads(s.style.Normalise(events[0].op.flags)))
      && WritersMayRead(After(s, events[0]), events[1..])
  }

  /** Whenever the memory is mapped, it is mapped with these flags. */
  predicate MapsWith(s: System, events: seq<Event>, flags: MapFlags)
    requires s.memory.Valid()
    decreases |events|
  {
    |events| != 0 ==>
      && (ReallyMaps(s, events[0]) ==> events[0].op.flags == flags)
      && MapsWith(After(s, events[0]), events[1..], flags)
  }

  /** No first map with automatic synchronisation fails. */
  predicate AutomaticMapsSucceed(s: System, events: seq<Event>)
    requires s.memory.Valid()
    decreases |events|
  {
    |events| != 0 ==>
      && (events[0].Api? && events[0].op.Map? && s.buf.address == 0 && !Manual(events[0].op.flags) ==>
            events[0].op.mmap.Ok?)
      && AutomaticMapsSucceed(After(s, events[0]), events[1..])
  }

  /** A cached dma-heap buffer just allocated. */
  predicate NewDmabuf(style: Style, b: Buf) { style.Syncs() && Fresh(style, b) && b.backing.DmaBuf? }

  /** A buffer just allocated. The cache may hold leftovers of its memory, but none is dirty. */
  predicate Initial(s: System) {
    && s.memory.Valid() && |s.memory.dram| == s.buf.size
    && NewDmabuf(s.style, s.buf) && s.memory.dirty == {}
  }

  // ----- the invariant -----

  /** The CPU has written to the line in the current session. */
  predicate Touched(m: Memory, written: set<nat>, line: nat)
    requires m.Valid()
  {
    exists i :: i in written && m.LineOf(i) == line
  }

  /** The value of a byte once its line is written back. */
  function Merged(m: Memory, i: nat): Byte
    requires m.Valid() && i < |m.dram|
  {
    if m.LineOf(i) in m.dirty then m.lines[i] else m.dram[i]
  }

  /** What the cache does to a byte: fetching its line, evicting it, and the sync operation. Dirty bytes
      reach DRAM when their line goes, and nothing else does. */
  lemma CacheMovesLines(m: Memory, line: nat, i: nat)
    requires m.Valid() && i < |m.dram|
    ensures var fetched, evicted, synced := Fetch(m, line), Evict(m, line), SyncAll(m);
            && fetched.present == m.present + {line} && fetched.dirty == m.dirty && fetched.dram == m.dram
            && fetched.lines[i] == (if m.LineOf(i) == line && line !in m.present then m.dram[i] else m.lines[i])
            && evicted.present == m.present - {line} && evicted.dirty == m.dirty - {line} && evicted.lines == m.lines
            && evicted.dram[i] == (if m.LineOf(i) == line then Merged(m, i) else m.dram[i])
            && synced.present == m.present && synced.dirty == {}
            && synced.dram[i] == synced.lines[i] == Merged(m, i)
  {}

  /** An open session is known to the library. The converse fails: a failed map leaves the flag set. */
  predicate InStep(style: Style, b: Buf, c: Caller) {
    && style.Syncs() && b.backing.DmaBuf? && Consistent(style, b)
    && (c.open ==> b.address != 0 && b.sync)
    && (b.address != 0 && !Manual(b.flags) ==> c.open)
  }

  /** `mem` is what plain memory would hold. No byte is dirty outside a writing session. In a reading
      session the memory holds `mem` and every clean line agrees with DRAM; in a session that only
      writes this is so for the lines not touched, and for the bytes written of those that are. */
  predicate Coherent(s: System, mem: seq<Byte>, c: Caller) {
    var m, b := s.memory, s.buf;
    && InStep(s.style, b, c)
    && m.Valid() && |m.dram| == |mem| == b.size
    && (forall i :: i in c.written ==> i < |mem|)
    && (c.written != {} ==> c.open && Writes(b.flags))
    && (!(c.open && Writes(b.flags)) ==> m.dirty == {})
    && (forall i :: 0 <= i < |mem| && (Reads(b.flags) || i in c.written || !Touched(m, c.written, m.LineOf(i))) ==>
          mem[i] == Merged(m, i))
    && (c.open ==>
          forall i :: 0 <= i < |mem| && m.LineOf(i) in m.present && m.LineOf(i) !in m.dirty
                      && (Reads(b.flags) || Touched(m, c.written, m.LineOf(i))) ==>
            m.lines[i] == m.dram[i])
  }

  /** The buffer is synchronised. */
  predicate HasIoctl(backing: Backing, effects: seq<Effect>) {
    exists k :: 0 <= k < |effects| && Syncs(backing, effects[k])
  }

  lemma {:induction false} AbsorbIs(m: Memory, backing: Backing, effects: seq<Effect>)
    requires m.Valid()
    ensures Absorb(m, backing, effects) == if HasIoctl(backing, effects) then SyncAll(m) else m
  {
    if |effects| != 0 {
      var init := effects[..|effects| - 1];
      AbsorbIs(m, backing, init);
      assert effects == init + [effects[|effects| - 1]];
      assert SyncAll(SyncAll(m)) == SyncAll(m);
      if HasIoctl(backing, init) {
        var k :| 0 <= k < |init| && Syncs(backing, init[k]);
        assert Syncs(backing, effects[k]);
      }
    }
  }

  lemma CallKeepsInStep(style: Style, b: Buf, op: Op, c: Caller)
    requires InStep(style, b, c) && MayCall(style, b, op, c)
    ensures InStep(style, Next(style, b, op).buf, CallerAfterCall(b, Next(style, b, op).buf, op, c))
  {
    NextKeepsConsistent(style, b, op);
  }

  /** When a call synchronises: on entering a session that reads (if the flag is not stale), on leaving
      one that writes, and never inside a session. */
  lemma SyncsWhen(style: Style, b: Buf, op: Op, c: Caller)
    requires InStep(style, b, c) && MayCall(style, b, op, c)
    ensures var step := Next(style, b, op);
            var c' := CallerAfterCall(b, step.buf, op, c);
            && (c.open && c'.open ==> c' == c && step.buf.flags == b.flags && !HasIoctl(b.backing, step.effects))
            && (c'.open && !c.open && !StartsStale(b, op, c) ==>
                  (HasIoctl(b.backing, step.effects) <==> Reads(step.buf.flags)))
            && (c.open && !c'.open ==> c' == OUTSIDE && (HasIoctl(b.backing, step.effects) <==> Writes(b.flags)))
  {
    var step := Next(style, b, op);
    if |step.effects| > 1 {
      assert Syncs(b.backing, step.effects[1]) ==> HasIoctl(b.backing, step.effects);
      if |step.effects| > 2 {
        assert Syncs(b.backing, step.effects[2]) ==> HasIoctl(b.backing, step.effects);
      }
    }
  }

  /** When all that was written may be flushed, the memory holds what plain memory would. */
  lemma AllMerged(s: System, mem: seq<Byte>, c: Caller)
    requires Coherent(s, mem, c) && MayEnd(s, c)
    ensures forall i :: 0 <= i < |mem| ==> mem[i] == Merged(s.memory, i)
  {
    forall i | 0 <= i < |mem| ensures mem[i] == Merged(s.memory, i) {
      if Touched(s.memory, c.written, s.memory.LineOf(i)) && !Reads(s.buf.flags) {
        var j :| j in c.written && s.memory.LineOf(j) == s.memory.LineOf(i);
        assert i in c.written;
      }
    }
  }

  lemma SessionContinues(s: System, b': Buf, mem: seq<Byte>, c: Caller)
    requires Coherent(s, mem, c) && c.open && InStep(s.style, b', c)
    requires b'.size == s.buf.size && b'.flags == s.buf.flags
    ensures Coherent(s.(buf := b'), mem, c)
  {}

  lemma SessionEnds(s: System, b': Buf, mem: seq<Byte>, c: Caller)
    requires Coherent(s, mem, c) && c.open && MayEnd(s, c)
    requires InStep(s.style, b', OUTSIDE) && b'.size == s.buf.size
    ensures var m' := if Writes(s.buf.flags) then SyncAll(s.memory) else s.memory;
            Coherent(s.(buf := b', memory := m'), mem, OUTSIDE)
  {
    AllMerged(s, mem, c);
  }

  lemma SessionBegins(s: System, b': Buf, mem: seq<Byte>, c: Caller)
    requires Coherent(s, mem, c) && !c.open
    requires InStep(s.style, b', Caller(true, {})) && b'.size == s.buf.size
    ensures var m' := if Reads(b'.flags) then SyncAll(s.memory) else s.memory;
            Coherent(s.(buf := b', memory := m'), mem, Caller(true, {}))
  {
    AllMerged(s, mem, c);
  }

  /** Outside sessions nothing is dirty, and the sync operation does no harm. */
  lemma StaysOutside(s: System, b': Buf, mem: seq<Byte>, c: Caller, m': Memory)
    requires Coherent(s, mem, c) && !c.open && (m' == s.memory || m' == SyncAll(s.memory))
    requires InStep(s.style, b', OUTSIDE) && b'.size == s.buf.size
    ensures Coherent(s.(buf := b', memory := m'), mem, OUTSIDE)
  {
    AllMerged(s, mem, c);
  }

  lemma ApiKeepsCoherent(s: System, op: Op, mem: seq<Byte>, c: Caller)
    requires Coherent(s, mem, c) && MayCall(s.style, s.buf, op, c)
    requires !StartsStale(s.buf, op, c) && (Ends(s, Api(op), c) ==> MayEnd(s, c))
    ensures Coherent(After(s, Api(op)), mem, CallerAfter(s, Api(op), c))
  {
    var b, step := s.buf, Next(s.style, s.buf, op);
    var c' := CallerAfterCall(b, step.buf, op, c);
    NextKeepsConsistent(s.style, b, op);
    CallKeepsInStep(s.style, b, op, c);
    AbsorbIs(s.memory, s.buf.backing, step.effects);
    SyncsWhen(s.style, b, op, c);
    OutsideNothingIsWritten(b, step.buf, op, c);
    if c.open && c'.open {
      SessionContinues(s, step.buf, mem, c);
    } else if c.open {
      SessionEnds(s, step.buf, mem, c);
    } else if c'.open {
      SessionBegins(s, step.buf, mem, c);
    } else {
      StaysOutside(s, step.buf, mem, c, Absorb(s.memory, s.buf.backing, step.effects));
    }
  }

  lemma OutsideNothingIsWritten(b: Buf, b': Buf, op: Op, c: Caller)
    requires c.written != {} ==> c.open
    ensures !c.open ==> CallerAfterCall(b, b', op, c).written == {}
  {}

  /** What a write does to a byte of its line. */
  lemma WriteInLine(s: System, i: nat, value: Byte, mem: seq<Byte>, c: Caller, j: nat)
    requires Coherent(s, mem, c) && FollowsProtocol(s, CpuWrite(i, value), c)
    requires j < |mem| && s.memory.LineOf(j) == s.memory.LineOf(i) && (Reads(s.buf.flags) || j in c.written || j == i)
    ensures Merged(After(s, CpuWrite(i, value)).memory, j) == mem[i := value][j]
  {
    var m, m' := s.memory, After(s, CpuWrite(i, value)).memory;
    assert m'.LineOf(j) in m'.dirty;
    if j != i {
      assert j in c.written ==> Touched(m, c.written, m.LineOf(j));
      assert mem[j] == Merged(m, j);
    }
  }

  /** And to a byte of another line: nothing. */
  lemma WriteElsewhere(s: System, i: nat, value: Byte, written: set<nat>, j: nat)
    requires s.memory.Valid() && i < |s.memory.dram| && j < |s.memory.dram|
    requires s.memory.LineOf(j) != s.memory.LineOf(i)
    ensures var m, m' := s.memory, After(s, CpuWrite(i, value)).memory;
            && Merged(m', j) == Merged(m, j) && m'.lines[j] == m.lines[j] && m'.dram[j] == m.dram[j]
            && (m.LineOf(j) in m'.present <==> m.LineOf(j) in m.present)
            && (m.LineOf(j) in m'.dirty <==> m.LineOf(j) in m.dirty)
            && (Touched(m', written + {i}, m.LineOf(j)) <==> Touched(m, written, m.LineOf(j)))
  {
    var m, m' := s.memory, After(s, CpuWrite(i, value)).memory;
    if Touched(m, written, m.LineOf(j)) {
      var k :| k in written && m.LineOf(k) == m.LineOf(j);
      assert k in written + {i} && m'.LineOf(k) == m.LineOf(j);
    }
  }

  lemma WriteKeepsCoherent(s: System, i: nat, value: Byte, mem: seq<Byte>, c: Caller)
    requires Coherent(s, mem, c) && FollowsProtocol(s, CpuWrite(i, value), c)
    ensures Coherent(After(s, CpuWrite(i, value)), mem[i := value], c.(written := c.written + {i}))
  {
    var m, m' := s.memory, After(s, CpuWrite(i, value)).memory;
    var mem', written', mayRead := mem[i := value], c.written + {i}, Reads(s.buf.flags);
    assert i in written' && m'.LineOf(i) == m.LineOf(i) && m.LineOf(i) in m'.dirty;
    assert Touched(m', written', m.LineOf(i));
    forall j | 0 <= j < |mem| && (mayRead || j in written' || !Touched(m', written', m'.LineOf(j)))
      ensures mem'[j] == Merged(m', j)
    {
      if m.LineOf(j) == m.LineOf(i) {
        WriteInLine(s, i, value, mem, c, j);
      } else {
        WriteElsewhere(s, i, value, c.written, j);
      }
    }
    forall j | 0 <= j < |mem| && m'.LineOf(j) in m'.present && m'.LineOf(j) !in m'.dirty
               && (mayRead || Touched(m', written', m'.LineOf(j)))
      ensures m'.lines[j] == m'.dram[j]
    {
      WriteElsewhere(s, i, value, c.written, j);
    }
  }

  lemma StepKeepsCoherent(s: System, e: Event, mem: seq<Byte>, c: Caller)
    requires Coherent(s, mem, c) && FollowsProtocol(s, e, c)
    requires MayBegin(s, e, c) && (Ends(s, e, c) ==> MayEnd(s, c))
    ensures Coherent(After(s, e), PlainAfter(mem, e), CallerAfter(s, e, c))
    ensures Seen(s, e) == PlainSeen(mem, e)
  {
    match e
    case Api(op) => ApiKeepsCoherent(s, op, mem, c);
    case CpuWrite(i, value) => WriteKeepsCoherent(s, i, value, mem, c);
    case CpuRead(i) => FetchKeepsCoherent(s, s.memory.LineOf(i), mem, c);
    case CacheFetches(line) => FetchKeepsCoherent(s, line, mem, c);
    case CacheEvicts(line) => EvictKeepsCoherent(s, line, mem, c);
    case DeviceRead(_) =>
    case DeviceWrite(_, _) =>
  }

  lemma FetchKeepsCoherent(s: System, line: nat, mem: seq<Byte>, c: Caller)
    requires Coherent(s, mem, c)
    ensures Coherent(s.(memory := Fetch(s.memory, line)), mem, c)
  {
    var m, m' := s.memory, Fetch(s.memory, line);
    forall i | 0 <= i < |mem| ensures Merged(m', i) == Merged(m, i) {}
    forall l: nat ensures Touched(m', c.written, l) <==> Touched(m, c.written, l) {
      SameTouched(m, m', c.written, l);
    }
  }

  lemma EvictKeepsCoherent(s: System, line: nat, mem: seq<Byte>, c: Caller)
    requires Coherent(s, mem, c)
    ensures Coherent(s.(memory := Evict(s.memory, line)), mem, c)
  {
    var m, m' := s.memory, Evict(s.memory, line);
    forall i | 0 <= i < |mem| ensures Merged(m', i) == Merged(m, i) {}
    forall l: nat ensures Touched(m', c.written, l) <==> Touched(m, c.written, l) {
      SameTouched(m, m', c.written, l);
    }
  }

  lemma SameTouched(m: Memory, m': Memory, written: set<nat>, line: nat)
    requires m.Valid() && m'.Valid() && m'.width == m.width
    ensures Touched(m', written, line) <==> Touched(m, written, line)
  {
    if Touched(m, written, line) {
      var i :| i in written && m.LineOf(i) == line;
      assert m'.LineOf(i) == line;
    }
    if Touched(m', written, line) {
      var i :| i in written && m'.LineOf(i) == line;
      assert m.LineOf(i) == line;
    }
  }

  /** The core of the refinement, from any coherent state. */
  lemma {:induction false} RunKeepsCoherent(s: System, events: seq<Event>, mem: seq<Byte>, c: Caller)
    requires Coherent(s, mem, c) && FollowsProtocolThroughout(s, events, c)
    requires SessionsMayBegin(s, events, c) && SessionsMayEnd(s, events, c)
    ensures Coherent(AfterAll(s, events), PlainAfterAll(mem, events), CallerAfterAll(s, events, c))
    ensures SeenAll(s, events) == PlainSeenAll(mem, events)
    decreases |events|
  {
    if |events| != 0 {
      var e, rest := events[0], events[1..];
      StepKeepsCoherent(s, e, mem, c);
      RunKeepsCoherent(After(s, e), rest, PlainAfter(mem, e), CallerAfter(s, e, c));
    }
  }

  lemma CallKeepsSizes(s: System, op: Op)
    requires s.memory.Valid()
    ensures var s' := After(s, Api(op));
            && s'.memory.width == s.memory.width && |s'.memory.dram| == |s.memory.dram| && s'.buf.size == s.buf.size
  {
    var step := Next(s.style, s.buf, op);
    assert step.buf.size == s.buf.size;
    AbsorbIs(s.memory, s.buf.backing, step.effects);
  }

  lemma SizesStay(s: System, e: Event)
    requires s.memory.Valid()
    ensures After(s, e).memory.width == s.memory.width
    ensures |After(s, e).memory.dram| == |s.memory.dram|
    ensures After(s, e).buf.size == s.buf.size && After(s, e).style == s.style
  {
    if e.Api? {
      CallKeepsSizes(s, e.op);
    }
  }

  /** Cached memory is plain shared memory: in any interleaving of calls, failed ones included, of CPU
      accesses, device accesses, and fetches and evictions of the cache that follows the protocol, every
      read of the CPU and of a device returns the latest write to that byte; and a deallocation at the
      end leaves all that was written in DRAM, whatever mappings and sessions it finds. Two things are
      asked for: that no reader starts a manual session while the flag that a failed map has set is
      still set, and that a session of memory mapped for writing only fills every line that it writes to. */
  lemma CachedMemoryIsPlain(s: System, events: seq<Event>)
    requires Initial(s) && FollowsProtocolThroughout(s, events, OUTSIDE)
    requires SessionsMayBegin(s, events, OUTSIDE) && SessionsMayEnd(s, events, OUTSIDE)
    ensures SeesPlain(s, events)
    ensures var last := AfterAll(s, events);
            MayEnd(last, CallerAfterAll(s, events, OUTSIDE)) ==>
              var freed := Absorb(last.memory, last.buf.backing, Deallocated(last.style, last.buf).effects);
              freed.dirty == {} && freed.dram == PlainAfterAll(s.memory.dram, events)
  {
    RunKeepsCoherent(s, events, s.memory.dram, OUTSIDE);
    var last, c := AfterAll(s, events), CallerAfterAll(s, events, OUTSIDE);
    if MayEnd(last, c) {
      DeallocationFlushes(last, PlainAfterAll(s.memory.dram, events), c);
    }
  }

  lemma DeallocationFlushes(s: System, mem: seq<Byte>, c: Caller)
    requires Coherent(s, mem, c) && MayEnd(s, c)
    ensures var freed := Absorb(s.memory, s.buf.backing, Deallocated(s.style, s.buf).effects);
            freed.dirty == {} && freed.dram == mem
  {
    DeallocationShape(s.style, s.buf);
    ClosingFlushes(s, mem, c, Deallocated(s.style, s.buf).effects);
  }

  lemma ClosingFlushes(s: System, mem: seq<Byte>, c: Caller, es: seq<Effect>)
    requires Coherent(s, mem, c) && MayEnd(s, c)
    requires s.buf.address != 0 && s.buf.sync && Writes(s.buf.flags) ==>
               |es| > 1 && es[..2] == EndSession(s.buf).effects
    ensures Absorb(s.memory, s.buf.backing, es).dirty == {} && Absorb(s.memory, s.buf.backing, es).dram == mem
  {
    AbsorbIs(s.memory, s.buf.backing, es);
    AllMerged(s, mem, c);
    if s.buf.address != 0 && s.buf.sync && Writes(s.buf.flags) {
      assert es[1] == es[..2][1];
    }
  }

  // ----- when every session may begin, and may end -----

  lemma InSyncStep(style: Style, b: Buf, op: Op, c: Caller)
    requires InStep(style, b, c) && MayCall(style, b, op, c) && b.sync == c.open
    requires style.guarded || (op.Map? && b.address == 0 && !Manual(op.flags) ==> op.mmap.Ok?)
    ensures var b' := Next(style, b, op).buf;
            b'.sync == CallerAfterCall(b, b', op, c).open
  {}

  /** If no automatic map fails, or in the repaired variant, every session may begin. */
  lemma {:induction false} SucceedingMapsMayBegin(s: System, events: seq<Event>, c: Caller)
    requires s.memory.Valid() && InStep(s.style, s.buf, c) && s.buf.sync == c.open
    requires FollowsProtocolThroughout(s, events, c) && (s.style.guarded || AutomaticMapsSucceed(s, events))
    ensures SessionsMayBegin(s, events, c)
    decreases |events|
  {
    if |events| != 0 {
      var e := events[0];
      if e.Api? {
        CallKeepsInStep(s.style, s.buf, e.op, c);
        InSyncStep(s.style, s.buf, e.op, c);
      }
      SucceedingMapsMayBegin(After(s, e), events[1..], CallerAfter(s, e, c));
    }
  }

  lemma CallKeepsFlags(style: Style, b: Buf, op: Op)
    requires style.Syncs()
    ensures var b' := Next(style, b, op).buf;
            && (b.address != 0 && b'.address != 0 ==> b'.flags == b.flags)
            && (b.address == 0 && b'.address != 0 ==> op.Map? && op.mmap.Ok? && b'.flags == style.Normalise(op.flags))
  {}

  /** If the memory is only ever mapped with flags for automatic sessions, or not for reading, so may it. */
  lemma {:induction false} FlagsMayBegin(s: System, events: seq<Event>, c: Caller, flags: MapFlags)
    requires s.memory.Valid() && s.style.Syncs() && MapsWith(s, events, flags)
    requires s.buf.address != 0 ==> s.buf.flags == s.style.Normalise(flags)
    requires !Manual(flags) || !Reads(s.style.Normalise(flags))
    ensures SessionsMayBegin(s, events, c)
    decreases |events|
  {
    NormaliseKeepsManual(s.style, flags);
    if |events| != 0 {
      var e := events[0];
      if e.Api? {
        CallKeepsFlags(s.style, s.buf, e.op);
      }
      FlagsMayBegin(After(s, e), events[1..], CallerAfter(s, e, c), flags);
    }
  }

  lemma NormaliseKeepsManual(style: Style, flags: MapFlags)
    requires style.Syncs()
    ensures Manual(style.Normalise(flags)) == Manual(flags)
    ensures WriteOnly(flags) ==> style.Normalise(flags) == flags
    ensures WriteOnly(style.Normalise(flags)) ==> style.Normalise(flags) == flags
  {}

  lemma SingleFillsLines(s: System, c: Caller)
    requires s.memory.Valid() && s.memory.Single() && forall i :: i in c.written ==> i < |s.memory.dram|
    ensures MayEnd(s, c)
  {
    forall i, j | i in c.written && 0 <= j < |s.memory.dram| && s.memory.LineOf(i) == s.memory.LineOf(j)
      ensures i == j
    {
      if s.memory.width == 1 {
        assert LineIndex(1, i) == i && LineIndex(1, j) == j;
      }
    }
  }

  lemma WrittenInBuffer(s: System, e: Event, c: Caller)
    requires FollowsProtocol(s, e, c) && forall i :: i in c.written ==> i < s.buf.size
    ensures forall i :: i in CallerAfter(s, e, c).written ==> i < s.buf.size
  {}

  /** If no two bytes share a line, every session may end. */
  lemma {:induction false} SingleMayEnd(s: System, events: seq<Event>, c: Caller)
    requires s.memory.Valid() && s.memory.Single() && |s.memory.dram| == s.buf.size
    requires forall i :: i in c.written ==> i < s.buf.size
    requires FollowsProtocolThroughout(s, events, c)
    ensures SessionsMayEnd(s, events, c)
    decreases |events|
  {
    if |events| != 0 {
      SingleFillsLines(s, c);
      SizesStay(s, events[0]);
      WrittenInBuffer(s, events[0], c);
      SingleMayEnd(After(s, events[0]), events[1..], CallerAfter(s, events[0], c));
    }
  }

  /** If the memory is never mapped for writing only, every session may end. */
  lemma {:induction false} ReadersMayEnd(s: System, events: seq<Event>, c: Caller)
    requires s.memory.Valid() && s.style.Syncs() && (c.open ==> s.buf.address != 0)
    requires s.buf.address != 0 && Writes(s.buf.flags) ==> Reads(s.buf.flags)
    requires WritersMayRead(s, events)
    ensures SessionsMayEnd(s, events, c)
    decreases |events|
  {
    if |events| != 0 {
      var e := events[0];
      if e.Api? {
        CallKeepsFlags(s.style, s.buf, e.op);
      }
      ReadersMayEnd(After(s, e), events[1..], CallerAfter(s, e, c));
    }
  }

  // ----- runs, event by event -----

  lemma First(s: System, mem: seq<Byte>, c: Caller, e: Event, rest: seq<Event>)
    requires s.memory.Valid()
    ensures AfterAll(s, [e] + rest) == AfterAll(After(s, e), rest)
    ensures PlainAfterAll(mem, [e] + rest) == PlainAfterAll(PlainAfter(mem, e), rest)
    ensures SeenAll(s, [e] + rest) == [Seen(s, e)] + SeenAll(After(s, e), rest)
    ensures PlainSeenAll(mem, [e] + rest) == [PlainSeen(mem, e)] + PlainSeenAll(PlainAfter(mem, e), rest)
    ensures CallerAfterAll(s, [e] + rest, c) == CallerAfterAll(After(s, e), rest, CallerAfter(s, e, c))
  {
    assert ([e] + rest)[0] == e && ([e] + rest)[1..] == rest;
  }

  /** A run follows the protocol, and its real maps use the given flags. */
  predicate Allowed(s: System, events: seq<Event>, c: Caller, flags: MapFlags)
    requires s.memory.Valid()
  {
    FollowsProtocolThroughout(s, events, c) && MapsWith(s, events, flags)
  }

  predicate EventAllowed(s: System, e: Event, c: Caller, flags: MapFlags) {
    FollowsProtocol(s, e, c) && (ReallyMaps(s, e) ==> e.op.flags == flags)
  }

  lemma FirstRules(s: System, c: Caller, flags: MapFlags, e: Event, rest: seq<Event>)
    requires s.memory.Valid()
    ensures Allowed(s, [e] + rest, c, flags)
       <==> EventAllowed(s, e, c, flags) && Allowed(After(s, e), rest, CallerAfter(s, e, c), flags)
    ensures SessionsMayBegin(s, [e] + rest, c)
       <==> MayBegin(s, e, c) && SessionsMayBegin(After(s, e), rest, CallerAfter(s, e, c))
    ensures SessionsMayEnd(s, [e] + rest, c)
       <==> (Ends(s, e, c) ==> MayEnd(s, c)) && SessionsMayEnd(After(s, e), rest, CallerAfter(s, e, c))
  {
    assert ([e] + rest)[0] == e && ([e] + rest)[1..] == rest;
  }

  /** What is seen after a run is seen from the state after the run. */
  lemma {:induction false} ConcatSeen(s: System, es: seq<Event>, fs: seq<Event>)
    requires s.memory.Valid()
    ensures SeenAll(s, es + fs) == SeenAll(s, es) + SeenAll(AfterAll(s, es), fs)
    decreases |es|
  {
    if |es| == 0 {
      assert es + fs == fs;
    } else {
      assert (es + fs)[0] == es[0] && (es + fs)[1..] == es[1..] + fs;
      ConcatSeen(After(s, es[0]), es[1..], fs);
    }
  }

  lemma {:induction false} ConcatPlainSeen(mem: seq<Byte>, es: seq<Event>, fs: seq<Event>)
    ensures PlainSeenAll(mem, es + fs) == PlainSeenAll(mem, es) + PlainSeenAll(PlainAfterAll(mem, es), fs)
    decreases |es|
  {
    if |es| == 0 {
      assert es + fs == fs;
    } else {
      assert (es + fs)[0] == es[0] && (es + fs)[1..] == es[1..] + fs;
      ConcatPlainSeen(PlainAfter(mem, es[0]), es[1..], fs);
    }
  }

  /** And what is asked of it is asked in that state. */
  lemma {:induction false} ConcatRules(s: System, c: Caller, flags: MapFlags, es: seq<Event>, fs: seq<Event>)
    requires s.memory.Valid()
    ensures Allowed(s, es + fs, c, flags)
       <==> Allowed(s, es, c, flags) && Allowed(AfterAll(s, es), fs, CallerAfterAll(s, es, c), flags)
    ensures SessionsMayEnd(s, es + fs, c)
       <==> SessionsMayEnd(s, es, c) && SessionsMayEnd(AfterAll(s, es), fs, CallerAfterAll(s, es, c))
    ensures SessionsMayBegin(s, es + fs, c)
       <==> SessionsMayBegin(s, es, c) && SessionsMayBegin(AfterAll(s, es), fs, CallerAfterAll(s, es, c))
    decreases |es|
  {
    if |es| == 0 {
      assert es + fs == fs;
    } else {
      var e, rest := es[0], es[1..];
      assert es == [e] + rest && es + fs == [e] + (rest + fs);
      First(s, [], c, e, rest);
      FirstRules(s, c, flags, e, rest);
      FirstRules(s, c, flags, e, rest + fs);
      ConcatRules(After(s, e), CallerAfter(s, e, c), flags, rest, fs);
    }
  }

  // ----- sessions of memory mapped for writing only -----

  predicate WriteOnly(flags: MapFlags) { Writes(flags) && !Reads(flags) }

  predicate OnlyWrites(n: nat, events: seq<Event>) {
    forall e <- events :: e.CpuWrite? && e.i < n
  }

  function Indices(events: seq<Event>): set<nat> {
    set e <- events | e.CpuWrite? :: e.i
  }

  /** A device writes byte `j`; the memory is mapped, the given writes are made in a session, and the
      memory is unmapped; and the device reads byte `j` back. The calls that start and stop a session
      do nothing if sessions are automatic. */
  function Opening(j: nat, value: Byte, flags: MapFlags): seq<Event> {
    [DeviceWrite(j, value)] + ([Api(Map(flags, Ok(4096)))] + ([Api(Start)] + []))
  }

  function Closing(j: nat): seq<Event> {
    [Api(Stop)] + ([Api(Unmap)] + ([DeviceRead(j)] + []))
  }

  function SessionRun(j: nat, value: Byte, flags: MapFlags, writes: seq<Event>): seq<Event> {
    Opening(j, value, flags) + (writes + Closing(j))
  }

  /** The buffer inside a session. */
  function InSession(b: Buf, flags: MapFlags): Buf { b.(flags := flags, address := 4096, count := 1, sync := true) }

  lemma OpeningCalls(style: Style, b: Buf, flags: MapFlags)
    requires NewDmabuf(style, b) && WriteOnly(flags)
    ensures var map1 := Next(style, b, Map(flags, Ok(4096)));
            var start := Next(style, map1.buf, Start);
            var c1 := CallerAfterCall(b, map1.buf, Map(flags, Ok(4096)), OUTSIDE);
            && start.buf == InSession(b, flags) && map1.buf.address != 0 && map1.buf.flags == flags
            && MayCall(style, b, Map(flags, Ok(4096)), OUTSIDE) && MayCall(style, map1.buf, Start, c1)
            && c1 == Caller(!Manual(flags), {})
            && CallerAfterCall(map1.buf, start.buf, Start, c1) == Caller(true, {})
            && !HasIoctl(b.backing, map1.effects) && !HasIoctl(b.backing, start.effects)
  {
    var map1 := Next(style, b, Map(flags, Ok(4096)));
    NormaliseKeepsManual(style, flags);
    SyncsWhen(style, b, Map(flags, Ok(4096)), OUTSIDE);
    SyncsWhen(style, map1.buf, Start, Caller(!Manual(flags), {}));
  }

  lemma ClosingCalls(style: Style, b: Buf, flags: MapFlags, written: set<nat>)
    requires NewDmabuf(style, b) && WriteOnly(flags)
    ensures var b2, c := InSession(b, flags), Caller(true, written);
            var stop := Next(style, b2, Stop);
            var unmap := Next(style, stop.buf, Unmap);
            var c1 := CallerAfterCall(b2, stop.buf, Stop, c);
            && MayCall(style, b2, Stop, c) && MayCall(style, stop.buf, Unmap, c1)
            && stop.buf.flags == flags && unmap.buf.size == b.size
            && c1 == (if Manual(flags) then OUTSIDE else c)
            && CallerAfterCall(stop.buf, unmap.buf, Unmap, c1) == OUTSIDE
            && (HasIoctl(b.backing, stop.effects) <==> Manual(flags))
            && (HasIoctl(b.backing, unmap.effects) <==> !Manual(flags))
  {
    var b2, c := InSession(b, flags), Caller(true, written);
    var stop := Next(style, b2, Stop);
    SyncsWhen(style, b2, Stop, c);
    SyncsWhen(style, stop.buf, Unmap, if Manual(flags) then OUTSIDE else c);
  }

  lemma OpeningStates(s: System, j: nat, value: Byte, flags: MapFlags)
    requires Initial(s) && j < s.buf.size && WriteOnly(flags)
    ensures var s1 := After(s, DeviceWrite(j, value));
            var s2, c2 := After(s1, Api(Map(flags, Ok(4096)))), CallerAfter(s1, Api(Map(flags, Ok(4096))), OUTSIDE);
            && After(s2, Api(Start)) == System(s.style, InSession(s.buf, flags), s1.memory)
            && CallerAfter(s2, Api(Start), c2) == Caller(true, {})
            && s1 == s.(memory := s.memory.(dram := s.memory.dram[j := value]))
            && EventAllowed(s1, Api(Map(flags, Ok(4096))), OUTSIDE, flags) && EventAllowed(s2, Api(Start), c2, flags)
  {
    var s1 := After(s, DeviceWrite(j, value));
    OpeningCalls(s.style, s.buf, flags);
    AbsorbIs(s1.memory, s1.buf.backing, Next(s.style, s1.buf, Map(flags, Ok(4096))).effects);
    var s2 := After(s1, Api(Map(flags, Ok(4096))));
    AbsorbIs(s2.memory, s2.buf.backing, Next(s.style, s2.buf, Start).effects);
  }

  lemma Opens(s: System, mem: seq<Byte>, j: nat, value: Byte, flags: MapFlags)
    requires Initial(s) && j < s.buf.size == |mem| && WriteOnly(flags)
    ensures var es := Opening(j, value, flags);
            && AfterAll(s, es)
               == System(s.style, InSession(s.buf, flags), s.memory.(dram := s.memory.dram[j := value]))
            && PlainAfterAll(mem, es) == mem[j := value]
            && |SeenAll(s, es)| == |PlainSeenAll(mem, es)| == 3
            && Allowed(s, es, OUTSIDE, flags) && SessionsMayEnd(s, es, OUTSIDE)
            && CallerAfterAll(s, es, OUTSIDE) == Caller(true, {})
  {
    var e0, e1, e2 := DeviceWrite(j, value), Api(Map(flags, Ok(4096))), Api(Start);
    OpeningStates(s, j, value, flags);
    var s1, mem1 := After(s, e0), PlainAfter(mem, e0);
    var s2, c2 := After(s1, e1), CallerAfter(s1, e1, OUTSIDE);
    First(s, mem, OUTSIDE, e0, [e1] + ([e2] + []));
    First(s1, mem1, OUTSIDE, e1, [e2] + []);
    First(s2, mem1, c2, e2, []);
    FirstRules(s, OUTSIDE, flags, e0, [e1] + ([e2] + []));
    FirstRules(s1, OUTSIDE, flags, e1, [e2] + []);
    FirstRules(s2, c2, flags, e2, []);
  }

  lemma {:induction false} WritesInSession(s: System, mem: seq<Byte>, writes: seq<Event>,
                                           c: Caller, flags: MapFlags)
    requires s.memory.Valid() && |s.memory.dram| == s.buf.size == |mem| && OnlyWrites(s.buf.size, writes)
    requires s.buf.address != 0 && c.open && Writes(s.buf.flags)
    ensures var s' := AfterAll(s, writes);
            && s'.style == s.style && s'.buf == s.buf
            && s'.memory.width == s.memory.width && |s'.memory.dram| == |s.memory.dram|
            && Allowed(s, writes, c, flags) && SessionsMayEnd(s, writes, c)
            && CallerAfterAll(s, writes, c) == Caller(true, c.written + Indices(writes))
            && |PlainAfterAll(mem, writes)| == |mem|
            && forall j :: 0 <= j < |mem| && j !in Indices(writes) ==> PlainAfterAll(mem, writes)[j] == mem[j]
    ensures |SeenAll(s, writes)| == |PlainSeenAll(mem, writes)|
    decreases |writes|
  {
    if |writes| == 0 {
      assert c.written + Indices(writes) == c.written;
    } else {
      var e, rest := writes[0], writes[1..];
      assert writes == [e] + rest && e in writes;
      First(s, mem, c, e, rest);
      FirstRules(s, c, flags, e, rest);
      WritesInSession(After(s, e), PlainAfter(mem, e), rest, CallerAfter(s, e, c), flags);
      assert Indices(writes) == {e.i} + Indices(rest);
      assert (c.written + {e.i}) + Indices(rest) == c.written + Indices(writes);
    }
  }

  lemma ClosingStates(s: System, b: Buf, flags: MapFlags, written: set<nat>)
    requires s.memory.Valid() && NewDmabuf(s.style, b)
    requires WriteOnly(flags) && s.buf == InSession(b, flags)
    ensures var c := Caller(true, written);
            var s1, c1 := After(s, Api(Stop)), CallerAfter(s, Api(Stop), c);
            var s2, c2 := After(s1, Api(Unmap)), CallerAfter(s1, Api(Unmap), c1);
            && EventAllowed(s, Api(Stop), c, flags) && EventAllowed(s1, Api(Unmap), c1, flags)
            && s1.buf.flags == flags && s1.memory.width == s.memory.width
            && |s1.memory.dram| == |s.memory.dram| && (c1.open ==> c1 == c) && c2 == OUTSIDE
            && s2.memory == SyncAll(s.memory) && s2.buf.size == b.size
  {
    ClosingCalls(s.style, b, flags, written);
    AbsorbIs(s.memory, s.buf.backing, Next(s.style, s.buf, Stop).effects);
    var s1 := After(s, Api(Stop));
    AbsorbIs(s1.memory, s1.buf.backing, Next(s.style, s1.buf, Unmap).effects);
  }

  lemma ClosingSeen(s: System, b: Buf, mem: seq<Byte>, j: nat, flags: MapFlags)
    requires s.memory.Valid() && |s.memory.dram| == b.size == |mem| && j < b.size
    requires NewDmabuf(s.style, b) && WriteOnly(flags) && s.buf == InSession(b, flags)
    ensures SeenAll(s, Closing(j)) == [None, None, Some(Merged(s.memory, j))]
    ensures PlainSeenAll(mem, Closing(j)) == [None, None, Some(mem[j])]
  {
    var e0, e1, e2 := Api(Stop), Api(Unmap), DeviceRead(j);
    ClosingStates(s, b, flags, {});
    var s1 := After(s, e0);
    First(s, mem, OUTSIDE, e0, [e1] + ([e2] + []));
    First(s1, mem, OUTSIDE, e1, [e2] + []);
    First(After(s1, e1), mem, OUTSIDE, e2, []);
    assert SeenAll(After(s1, e1), [e2] + []) == [Some(Merged(s.memory, j))];
  }

  lemma ClosingFollows(s: System, b: Buf, written: set<nat>, j: nat, flags: MapFlags)
    requires s.memory.Valid() && j < b.size
    requires NewDmabuf(s.style, b) && WriteOnly(flags) && s.buf == InSession(b, flags)
    ensures Allowed(s, Closing(j), Caller(true, written), flags)
    ensures MayEnd(s, Caller(true, written)) ==> SessionsMayEnd(s, Closing(j), Caller(true, written))
  {
    var e0, e1, e2, c := Api(Stop), Api(Unmap), DeviceRead(j), Caller(true, written);
    ClosingStates(s, b, flags, written);
    var s1, c1 := After(s, e0), CallerAfter(s, e0, c);
    FirstRules(s, c, flags, e0, [e1] + ([e2] + []));
    FirstRules(s1, c1, flags, e1, [e2] + []);
    FirstRules(After(s1, e1), CallerAfter(s1, e1, c1), flags, e2, []);
  }

  /** A line that is in the cache stays there, and keeps the values it was fetched with, while other
      bytes are written. */
  lemma {:induction false} StaleByteStays(s: System, writes: seq<Event>, j: nat)
    requires s.memory.Valid() && OnlyWrites(|s.memory.dram|, writes)
    requires j < |s.memory.dram| && s.memory.LineOf(j) in s.memory.present && j !in Indices(writes)
    ensures var m, m' := s.memory, AfterAll(s, writes).memory;
            && |m'.dram| == |m.dram| && m'.lines[j] == m.lines[j]
            && (m.LineOf(j) in m.dirty || (exists i :: i in Indices(writes) && m.LineOf(i) == m.LineOf(j)) ==>
                  Merged(m', j) == m.lines[j])
    decreases |writes|
  {
    if |writes| != 0 {
      var e, rest := writes[0], writes[1..];
      assert e in writes && Indices(writes) == {e.i} + Indices(rest);
      StaleByteStays(After(s, e), rest, j);
    }
  }

  /** All sessions with these writes, on memory mapped with these flags, are plain: whatever the cache
      holds before, and whatever byte a device has written. */
  ghost predicate AlwaysPlainSession(style: Style, width: nat, n: nat, flags: MapFlags, writes: seq<Event>) {
    forall s: System, j: nat, value: Byte ::
      Initial(s) && s.style == style && s.memory.width == width && s.buf.size == n && j < n ==>
        SeesPlain(s, SessionRun(j, value, flags, writes))
  }

  lemma SessionFollows(s: System, j: nat, value: Byte, flags: MapFlags, writes: seq<Event>)
    requires Initial(s) && j < s.buf.size && WriteOnly(flags) && OnlyWrites(s.buf.size, writes)
    ensures var run := SessionRun(j, value, flags, writes);
            && Allowed(s, run, OUTSIDE, flags)
            && (FillsLines(s.memory.width, s.buf.size, Indices(writes)) ==> SessionsMayEnd(s, run, OUTSIDE))
  {
    var opening, closing, mem, c := Opening(j, value, flags), Closing(j), s.memory.dram, Caller(true, {});
    Opens(s, mem, j, value, flags);
    var s1 := AfterAll(s, opening);
    WritesInSession(s1, mem, writes, c, flags);
    var s2 := AfterAll(s1, writes);
    ClosingFollows(s2, s.buf, Indices(writes), j, flags);
    ConcatRules(s1, c, flags, writes, closing);
    ConcatRules(s, OUTSIDE, flags, opening, writes + closing);
    assert {} + Indices(writes) == Indices(writes);
  }

  /** What the device reads back at the end, of cached and of plain memory. */
  lemma LastSeen(s: System, j: nat, value: Byte, flags: MapFlags, writes: seq<Event>) returns (k: nat)
    requires Initial(s) && j < s.buf.size && WriteOnly(flags) && OnlyWrites(s.buf.size, writes)
    requires j !in Indices(writes)
    ensures var run, mem := SessionRun(j, value, flags, writes), s.memory.dram;
            var inside := AfterAll(AfterAll(s, Opening(j, value, flags)), writes);
            && k < |SeenAll(s, run)| && k < |PlainSeenAll(mem, run)| && |inside.memory.dram| == s.buf.size
            && SeenAll(s, run)[k] == Some(Merged(inside.memory, j))
            && PlainSeenAll(mem, run)[k] == Some(value)
  {
    var opening, closing, mem := Opening(j, value, flags), Closing(j), s.memory.dram;
    Opens(s, mem, j, value, flags);
    var s1, mem1 := AfterAll(s, opening), mem[j := value];
    WritesInSession(s1, mem1, writes, Caller(true, {}), flags);
    var s2, mem2 := AfterAll(s1, writes), PlainAfterAll(mem1, writes);
    ClosingSeen(s2, s.buf, mem2, j, flags);
    ConcatSeen(s, opening, writes + closing);
    ConcatSeen(s1, writes, closing);
    ConcatPlainSeen(mem, opening, writes + closing);
    ConcatPlainSeen(mem1, writes, closing);
    k := 3 + |SeenAll(s1, writes)| + 2;
  }

  function Zeros(n: nat): (z: seq<Byte>)
    ensures |z| == n && forall i :: 0 <= i < n ==> z[i] == 0
  {
    seq(n, _ => 0)
  }

  /** Memory of zeros, with one line in the cache. */
  function ZeroSystem(style: Style, width: nat, n: nat, line: nat): System {
    System(style, Buf(DmaBuf(3), n, 8192, 0, 0, 0, false), Memory(width, Zeros(n), Zeros(n), {line}, {}))
  }

  /** Byte j is not written by the session, but its line is: the device that wrote it reads back what
      was in the cache before. */
  lemma UnfilledLineLosesDeviceWrite(style: Style, width: nat, n: nat, flags: MapFlags,
                                     writes: seq<Event>, i: nat, j: nat)
    requires style.Syncs() && width >= 1 && WriteOnly(flags) && OnlyWrites(n, writes)
    requires i in Indices(writes) && LineIndex(width, i) == LineIndex(width, j) && j < n && j !in Indices(writes)
    ensures var s, run := ZeroSystem(style, width, n, LineIndex(width, j)), SessionRun(j, 7, flags, writes);
            && Initial(s) && FollowsProtocolThroughout(s, run, OUTSIDE) && MapsWith(s, run, flags)
            && !SeesPlain(s, run)
  {
    var s := ZeroSystem(style, width, n, LineIndex(width, j));
    SessionFollows(s, j, 7, flags, writes);
    var k := LastSeen(s, j, 7, flags, writes);
    Opens(s, s.memory.dram, j, 7, flags);
    StaleByteStays(AfterAll(s, Opening(j, 7, flags)), writes, j);
  }

  /** A session of memory mapped for writing only is plain for every state of the cache exactly if it
      fills every line that it writes to. */
  lemma PlainSessionIff(style: Style, width: nat, n: nat, flags: MapFlags, writes: seq<Event>)
    requires style.Syncs() && width >= 1 && WriteOnly(flags) && OnlyWrites(n, writes)
    ensures AlwaysPlainSession(style, width, n, flags, writes) <==> FillsLines(width, n, Indices(writes))
  {
    if FillsLines(width, n, Indices(writes)) {
      forall s: System, j: nat, value: Byte |
          Initial(s) && s.style == style && s.memory.width == width && s.buf.size == n && j < n
        ensures SeesPlain(s, SessionRun(j, value, flags, writes))
      {
        SessionFollows(s, j, value, flags, writes);
        FlagsMayBegin(s, SessionRun(j, value, flags, writes), OUTSIDE, flags);
        CachedMemoryIsPlain(s, SessionRun(j, value, flags, writes));
      }
    } else {
      var i, j :| i in Indices(writes) && 0 <= j < n && j !in Indices(writes)
                  && LineIndex(width, i) == LineIndex(width, j);
      UnfilledLineLosesDeviceWrite(style, width, n, flags, writes, i, j);
    }
  }

  // ----- a map that fails, and is tried again -----

  /** A first map fails, a device writes a byte, and the map is tried again, perhaps with other flags. */
  function Retrying(flags: MapFlags, errno: int, i: nat, value: Byte, again: MapFlags, address: Pointer): seq<Event> {
    [Api(Map(flags, Failed(errno)))] + ([DeviceWrite(i, value)] + ([Api(Map(again, Ok(address)))] + []))
  }

  /** A session is started (which does nothing if sessions are automatic), and the CPU reads the byte. */
  function Reading(i: nat): seq<Event> { [Api(Start)] + ([CpuRead(i)] + []) }

  function Retry(flags: MapFlags, errno: int, i: nat, value: Byte, again: MapFlags, address: Pointer): seq<Event> {
    Retrying(flags, errno, i, value, again, address) + Reading(i)
  }

  /** The flag of an automatic session is left set by the map that failed, and a manual one is next. */
  predicate LeavesFlag(style: Style, flags: MapFlags, again: MapFlags)
    requires style.Syncs()
  {
    !style.guarded && !Manual(flags) && Manual(again)
  }

  /** The buffer when the second map has succeeded. */
  function Retried(style: Style, b: Buf, flags: MapFlags, errno: int, again: MapFlags, address: Pointer): Buf {
    Next(style, Next(style, b, Map(flags, Failed(errno))).buf, Map(again, Ok(address))).buf
  }

  lemma RetryCalls(style: Style, b: Buf, flags: MapFlags, errno: int, again: MapFlags, address: Pointer)
    requires NewDmabuf(style, b)
    ensures var op1, op2, c := Map(flags, Failed(errno)), Map(again, Ok(address)), Caller(!Manual(again), {});
            var fail, again2 := Next(style, b, op1).buf, Retried(style, b, flags, errno, again, address);
            && fail.address == 0 && fail.size == again2.size == b.size
            && again2.address == address && again2.flags == style.Normalise(again)
            && MayCall(style, b, op1, OUTSIDE) && MayCall(style, fail, op2, OUTSIDE)
            && CallerAfterCall(b, fail, op1, OUTSIDE) == OUTSIDE && CallerAfterCall(fail, again2, op2, OUTSIDE) == c
            && (Reads(again2.flags) ==> (StartsStale(again2, Start, c) <==> LeavesFlag(style, flags, again)))
  {
    NormaliseKeepsManual(style, flags);
    NormaliseKeepsManual(style, again);
  }

  lemma RetryingFollows(s: System, flags: MapFlags, errno: int, i: nat, value: Byte, again: MapFlags, address: Pointer)
    requires Initial(s) && i < s.buf.size
    ensures var es, s' := Retrying(flags, errno, i, value, again, address),
                          AfterAll(s, Retrying(flags, errno, i, value, again, address));
            && s'.style == s.style && s'.buf == Retried(s.style, s.buf, flags, errno, again, address)
            && CallerAfterAll(s, es, OUTSIDE) == Caller(!Manual(again), {})
            && Allowed(s, es, OUTSIDE, again) && SessionsMayBegin(s, es, OUTSIDE) && SessionsMayEnd(s, es, OUTSIDE)
  {
    var e0, e1, e2 := Api(Map(flags, Failed(errno))), DeviceWrite(i, value), Api(Map(again, Ok(address)));
    RetryCalls(s.style, s.buf, flags, errno, again, address);
    var s1 := After(s, e0);
    CallKeepsSizes(s, e0.op);
    var s2 := After(s1, e1);
    First(s, [], OUTSIDE, e0, [e1] + ([e2] + []));
    First(s1, [], OUTSIDE, e1, [e2] + []);
    First(s2, [], OUTSIDE, e2, []);
    FirstRules(s, OUTSIDE, again, e0, [e1] + ([e2] + []));
    FirstRules(s1, OUTSIDE, again, e1, [e2] + []);
    FirstRules(s2, OUTSIDE, again, e2, []);
  }

  lemma ReadingFollows(s: System, c: Caller, flags: MapFlags, i: nat)
    requires s.memory.Valid() && s.style.Syncs() && i < s.buf.size && s.buf.address != 0 && Reads(s.buf.flags)
    requires c.open <==> !Manual(s.buf.flags)
    ensures Allowed(s, Reading(i), c, flags) && SessionsMayEnd(s, Reading(i), c)
    ensures SessionsMayBegin(s, Reading(i), c) <==> !StartsStale(s.buf, Start, c)
  {
    var e0, e1 := Api(Start), CpuRead(i);
    var s1, c1 := After(s, e0), CallerAfter(s, e0, c);
    FirstRules(s, c, flags, e0, [e1] + []);
    FirstRules(s1, c1, flags, e1, []);
  }

  lemma RetryFollows(s: System, flags: MapFlags, errno: int, i: nat, value: Byte, again: MapFlags, address: Pointer)
    requires Initial(s) && i < s.buf.size && Reads(s.style.Normalise(again))
    ensures var run := Retry(flags, errno, i, value, again, address);
            && Allowed(s, run, OUTSIDE, again) && SessionsMayEnd(s, run, OUTSIDE)
            && (SessionsMayBegin(s, run, OUTSIDE) <==> !LeavesFlag(s.style, flags, again))
  {
    var es, c := Retrying(flags, errno, i, value, again, address), Caller(!Manual(again), {});
    RetryCalls(s.style, s.buf, flags, errno, again, address);
    RetryingFollows(s, flags, errno, i, value, again, address);
    NormaliseKeepsManual(s.style, again);
    ReadingFollows(AfterAll(s, es), c, again, i);
    ConcatRules(s, OUTSIDE, again, es, Reading(i));
  }

  lemma StaleEffects(style: Style, b: Buf, flags: MapFlags, errno: int, again: MapFlags, address: Pointer)
    requires NewDmabuf(style, b) && LeavesFlag(style, flags, again)
    ensures var fail := Next(style, b, Map(flags, Failed(errno)));
            && (HasIoctl(b.backing, fail.effects) <==> Reads(style.Normalise(flags)))
            && !HasIoctl(b.backing, Next(style, fail.buf, Map(again, Ok(address))).effects)
            && Next(style, Retried(style, b, flags, errno, again, address), Start).effects == []
  {
    NormaliseKeepsManual(style, flags);
    NormaliseKeepsManual(style, again);
    var fail := Next(style, b, Map(flags, Failed(errno)));
    assert Reads(style.Normalise(flags)) ==> Syncs(b.backing, fail.effects[2]);
  }

  /** The memory when the second map has succeeded, and nothing has told the cache of the device's write. */
  lemma RetryingSeen(s: System, flags: MapFlags, errno: int, i: nat, value: Byte, again: MapFlags, address: Pointer)
    requires Initial(s) && i < s.buf.size && LeavesFlag(s.style, flags, again)
    ensures var es, m := Retrying(flags, errno, i, value, again, address), s.memory;
            var m1 := if Reads(s.style.Normalise(flags)) then SyncAll(m) else m;
            && AfterAll(s, es).memory == m1.(dram := m1.dram[i := value])
            && SeenAll(s, es) == PlainSeenAll(m.dram, es) == [None, None, None]
            && PlainAfterAll(m.dram, es) == m.dram[i := value]
  {
    var e0, e1, e2 := Api(Map(flags, Failed(errno))), DeviceWrite(i, value), Api(Map(again, Ok(address)));
    var mem := s.memory.dram;
    StaleEffects(s.style, s.buf, flags, errno, again, address);
    var s1 := After(s, e0);
    AbsorbIs(s.memory, s.buf.backing, Next(s.style, s.buf, e0.op).effects);
    var s2 := After(s1, e1);
    AbsorbIs(s2.memory, s2.buf.backing, Next(s.style, s2.buf, e2.op).effects);
    First(s, mem, OUTSIDE, e0, [e1] + ([e2] + []));
    First(s1, mem, OUTSIDE, e1, [e2] + []);
    First(s2, mem[i := value], OUTSIDE, e2, []);
  }

  lemma ReadingSeen(s: System, mem: seq<Byte>, i: nat)
    requires s.memory.Valid() && i < |s.memory.dram| == |mem| && s.memory.LineOf(i) in s.memory.present
    requires Next(s.style, s.buf, Start).effects == []
    ensures SeenAll(s, Reading(i)) == [None, Some(s.memory.lines[i])]
    ensures PlainSeenAll(mem, Reading(i)) == [None, Some(mem[i])]
  {
    First(s, mem, OUTSIDE, Api(Start), [CpuRead(i)] + []);
    First(After(s, Api(Start)), mem, OUTSIDE, CpuRead(i), []);
  }

  /** What the flag left by a failed map does to a reader with manual sessions: any byte that sits in
      the cache is read with the value that the cache held when the first map failed, or, if that map
      was to read, with the value in memory at that time; and not with the value the device wrote. */
  lemma FailedMapMakesStaleRead(s: System, flags: MapFlags, errno: int, i: nat, value: Byte,
                                again: MapFlags, address: Pointer)
    requires Initial(s) && i < s.buf.size && s.memory.LineOf(i) in s.memory.present
    requires LeavesFlag(s.style, flags, again)
    ensures var run := Retry(flags, errno, i, value, again, address);
            var stale := if Reads(s.style.Normalise(flags)) then s.memory.dram[i] else s.memory.lines[i];
            && SeenAll(s, run) == [None, None, None, None, Some(stale)]
            && PlainSeenAll(s.memory.dram, run) == [None, None, None, None, Some(value)]
  {
    var es, mem := Retrying(flags, errno, i, value, again, address), s.memory.dram;
    RetryingFollows(s, flags, errno, i, value, again, address);
    RetryingSeen(s, flags, errno, i, value, again, address);
    StaleEffects(s.style, s.buf, flags, errno, again, address);
    ReadingSeen(AfterAll(s, es), mem[i := value], i);
    ConcatSeen(s, es, Reading(i));
    ConcatPlainSeen(mem, es, Reading(i));
  }

  /** Every retry of this kind reads what the device wrote. */
  ghost predicate AlwaysPlainRetry(style: Style, n: nat, flags: MapFlags, again: MapFlags) {
    forall s: System, errno: int, i: nat, value: Byte, address: Pointer ::
      Initial(s) && s.style == style && s.buf.size == n && i < n ==>
        SeesPlain(s, Retry(flags, errno, i, value, again, address))
  }

  /** A reader who tries a failed map again sees plain memory, for every state of the cache and every
      byte, exactly if sessions were manual the first time, or are automatic now. (In the repaired
      variant always.) */
  lemma RetryPlainIff(style: Style, n: nat, flags: MapFlags, again: MapFlags)
    requires style.Syncs() && n >= 1 && Reads(style.Normalise(again))
    ensures AlwaysPlainRetry(style, n, flags, again) <==> style.guarded || Manual(flags) || !Manual(again)
  {
    if style.guarded || Manual(flags) || !Manual(again) {
      forall s: System, errno: int, i: nat, value: Byte, address: Pointer |
          Initial(s) && s.style == style && s.buf.size == n && i < n
        ensures SeesPlain(s, Retry(flags, errno, i, value, again, address))
      {
        RetryFollows(s, flags, errno, i, value, again, address);
        CachedMemoryIsPlain(s, Retry(flags, errno, i, value, again, address));
      }
    } else {
      RetryLosesDeviceWrite(style, 1, n, flags, again);
    }
  }

  lemma RetryLosesDeviceWrite(style: Style, width: nat, n: nat, flags: MapFlags, again: MapFlags)
    requires style.Syncs() && width >= 1 && n >= 1 && LeavesFlag(style, flags, again)
    ensures var s, run := ZeroSystem(style, width, n, LineIndex(width, 0)), Retry(flags, 12, 0, 7, again, 4096);
            Initial(s) && !SeesPlain(s, run)
  {
    var s := ZeroSystem(style, width, n, LineIndex(width, 0));
    FailedMapMakesStaleRead(s, flags, 12, 0, 7, again, 4096);
  }

  // ----- the promise, flag by flag -----

  /** Every run that follows the protocol and maps the memory with these flags (whatever the flags of
      maps that fail), on a buffer of `n` bytes with lines of `width` bytes, reads what plain memory
      would hold. */
  ghost predicate AlwaysPlain(style: Style, width: nat, n: nat, flags: MapFlags) {
    forall s: System, events: seq<Event> ::
      Initial(s) && s.style == style && s.memory.width == width && s.buf.size == n
      && FollowsProtocolThroughout(s, events, OUTSIDE) && MapsWith(s, events, flags)
      ==> SeesPlain(s, events)
  }

  lemma {:induction false} MapsWithReaders(s: System, events: seq<Event>, flags: MapFlags)
    requires s.memory.Valid() && MapsWith(s, events, flags)
    requires Writes(s.style.Normalise(flags)) ==> Reads(s.style.Normalise(flags))
    ensures WritersMayRead(s, events)
    decreases |events|
  {
    if |events| != 0 {
      MapsWithReaders(After(s, events[0]), events[1..], flags);
    }
  }

  /** There is nothing to see in a buffer without bytes. */
  lemma {:induction false} EmptyIsPlain(s: System, events: seq<Event>)
    requires s.memory.Valid() && |s.memory.dram| == 0
    ensures SeesPlain(s, events)
    decreases |events|
  {
    if |events| != 0 {
      SizesStay(s, events[0]);
      EmptyIsPlain(After(s, events[0]), events[1..]);
      assert After(s, events[0]).memory.dram == [] == PlainAfter(s.memory.dram, events[0]);
    }
  }

  /** Sessions that may end: memory that is not mapped for writing only, or no two bytes in a line.
      Sessions that may begin: automatic ones, those that do not read, and all in the repaired variant. */
  predicate Keeps(style: Style, width: nat, n: nat, flags: MapFlags)
    requires style.Syncs()
  {
    && (WriteOnly(style.Normalise(flags)) ==> width == 1 || n <= 1)
    && (Manual(flags) && Reads(style.Normalise(flags)) ==> style.guarded || n == 0)
  }

  lemma KeepsIsEnough(s: System, events: seq<Event>, flags: MapFlags)
    requires Initial(s) && Keeps(s.style, s.memory.width, s.buf.size, flags)
    requires FollowsProtocolThroughout(s, events, OUTSIDE) && MapsWith(s, events, flags)
    ensures SeesPlain(s, events)
  {
    if s.buf.size == 0 {
      EmptyIsPlain(s, events);
    } else {
      if s.style.guarded {
        SucceedingMapsMayBegin(s, events, OUTSIDE);
      } else {
        FlagsMayBegin(s, events, OUTSIDE, flags);
      }
      if s.memory.Single() {
        SingleMayEnd(s, events, OUTSIDE);
      } else {
        MapsWithReaders(s, events, flags);
        ReadersMayEnd(s, events, OUTSIDE);
      }
      CachedMemoryIsPlain(s, events);
    }
  }

  /** The documentation promises coherence for every combination of flags. Since a session without the
      READ flag begins without repopulating the cache, and a failed automatic map keeps the next manual
      session from beginning at all, that promise holds exactly for: flags that do not map for writing
      only, or memory of which no line holds two bytes; and flags for automatic sessions, or not for
      reading, or the repaired variant. */
  lemma AlwaysPlainIff(style: Style, width: nat, n: nat, flags: MapFlags)
    requires style.Syncs() && width >= 1
    ensures AlwaysPlain(style, width, n, flags) <==> Keeps(style, width, n, flags)
  {
    NormaliseKeepsManual(style, flags);
    if Keeps(style, width, n, flags) {
      forall s: System, events: seq<Event> |
          Initial(s) && s.style == style && s.memory.width == width && s.buf.size == n
          && FollowsProtocolThroughout(s, events, OUTSIDE) && MapsWith(s, events, flags)
        ensures SeesPlain(s, events)
      {
        KeepsIsEnough(s, events, flags);
      }
    } else if WriteOnly(style.Normalise(flags)) {
      var writes := [CpuWrite(0, 5)];
      assert CpuWrite(0, 5) in writes && Indices(writes) == {0};
      assert LineIndex(width, 0) == LineIndex(width, 1) == 0;
      UnfilledLineLosesDeviceWrite(style, width, n, flags, writes, 0, 1);
    } else {
      RetryLosesDeviceWrite(style, width, n, 0, flags);
      RetryFollows(ZeroSystem(style, width, n, LineIndex(width, 0)), 0, 12, 0, 7, flags, 4096);
    }
  }
}
