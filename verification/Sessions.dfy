/** The bracketing of sync sessions over whole runs of a cached dma-heap buffer. */
module Sessions {
  import opened Kernel
  import opened Flags
  import opened Mapping

  /** What the documentation demands of the calls a buffer makes: a session is opened only on
      mapped memory with no session open, closed only if it is open, and memory is unmapped only
      if it is mapped and no session is open. */
  datatype Protocol = Obeyed(mapped: bool, open: bool) | Violated

  function Observe(p: Protocol, e: Effect): Protocol {
    if p.Violated? then Violated
    else
      match e
      case Mmap(_, _, _, _, reply) =>
        if reply.Failed? then p else if p.mapped then Violated else p.(mapped := true)
      case Munmap(_, _) => if p.mapped && !p.open then p.(mapped := false) else Violated
      case BeginSync => if p.mapped && !p.open then p.(open := true) else Violated
      case EndSync => if p.mapped && p.open then p.(open := false) else Violated
      case _ => p
  }

  function ObserveAll(p: Protocol, trace: seq<Effect>): Protocol {
    if |trace| == 0 then p else Observe(ObserveAll(p, trace[..|trace| - 1]), trace[|trace| - 1])
  }

  const START := Obeyed(false, false)

  /** Every session routine that was begun before, and not yet ended. */
  function OpenSessions(trace: seq<Effect>): int {
    if |trace| == 0 then 0
    else
      var e := trace[|trace| - 1];
      OpenSessions(trace[..|trace| - 1]) + if e.BeginSync? then 1 else if e.EndSync? then -1 else 0
  }

  /** A trace that obeys the protocol alternates: in each of its prefixes the number of begun
      sessions exceeds the number of ended ones by one or by none. */
  lemma {:induction false} ObeyedAlternates(trace: seq<Effect>, k: nat)
    requires k <= |trace| && ObserveAll(START, trace).Obeyed?
    ensures ObserveAll(START, trace[..k]).Obeyed?
    ensures OpenSessions(trace[..k]) == if ObserveAll(START, trace[..k]).open then 1 else 0
    decreases |trace|, k
  {
    if k < |trace| {
      ObeyedAlternates(trace[..|trace| - 1], k);
      assert trace[..|trace| - 1][..k] == trace[..k];
    } else {
      assert trace[..k] == trace;
      if |trace| != 0 {
        ObeyedAlternates(trace[..|trace| - 1], |trace| - 1);
        assert trace[..|trace| - 1][..|trace| - 1] == trace[..|trace| - 1];
      }
    }
  }

  lemma {:induction false} ObserveAllConcat(p: Protocol, s: seq<Effect>, t: seq<Effect>)
    ensures ObserveAll(p, s + t) == ObserveAll(ObserveAll(p, s), t)
  {
    if |t| == 0 {
      assert s + t == s;
    } else {
      assert (s + t)[..|s + t| - 1] == s + t[..|t| - 1];
      ObserveAllConcat(p, s, t[..|t| - 1]);
    }
  }

  lemma ObserveShort(p: Protocol, es: seq<Effect>)
    requires |es| <= 3
    ensures ObserveAll(p, es)
         == if |es| == 0 then p
            else if |es| == 1 then Observe(p, es[0])
            else if |es| == 2 then Observe(Observe(p, es[0]), es[1])
            else Observe(Observe(Observe(p, es[0]), es[1]), es[2])
  {
    assert forall k :: 0 <= k < |es| ==> |es[..k]| == k;
    if |es| > 1 { assert es[..|es| - 1][..|es| - 2] == es[..|es| - 2]; }
    if |es| > 2 { assert es[..1][..0] == []; assert ObserveAll(p, es[..1]) == Observe(p, es[0]); }
  }

  lemma {:induction false} ViolatedForever(trace: seq<Effect>)
    ensures ObserveAll(Violated, trace) == Violated
  {
    if |trace| != 0 {
      ViolatedForever(trace[..|trace| - 1]);
    }
  }

  /** What a buffer looks like to the protocol. */
  function PhaseOf(b: Buf): Protocol { Obeyed(b.address != 0, b.sync) }

  /** Holds while nothing went wrong: the flag of an open session is only set on mapped memory. */
  predicate Orderly(style: Style, b: Buf) {
    style.Syncs() && Consistent(style, b) && (b.sync ==> b.address != 0)
  }

  /** The rule a caller must keep to, decided before the call: start sessions on mapped memory,
      stop a manual session before the last unmap, and (in the code as it is) have mmap() succeed
      when a first map is to start a session automatically. */
  predicate Disciplined(style: Style, b: Buf, op: Op)
    requires style.DmaHeap?
  {
    match op
    case Map(flags, mmap) =>
      b.address != 0 || Manual(style.Normalise(flags)) || mmap.Ok? || style.guarded
    case Unmap => !(b.address != 0 && b.count == 1 && Manual(b.flags) && b.sync)
    case Start => b.address != 0 || !Manual(b.flags)
    case Stop => true
  }

  predicate DisciplinedThroughout(style: Style, b: Buf, ops: seq<Op>)
    requires style.DmaHeap?
  {
    |ops| != 0 ==>
      && DisciplinedThroughout(style, b, ops[..|ops| - 1])
      && Disciplined(style, Run(style, b, ops[..|ops| - 1]), ops[|ops| - 1])
  }

  /** One call keeps the buffer orderly exactly when it is disciplined. */
  lemma OrderlyStepIff(style: Style, b: Buf, op: Op)
    requires Orderly(style, b)
    ensures Orderly(style, Next(style, b, op).buf) <==> Disciplined(style, b, op)
  {
    NextKeepsConsistent(style, b, op);
  }

  lemma BracketedMap(style: Style, b: Buf, flags: MapFlags, mmap: Reply<Pointer>)
    requires Orderly(style, b)
    ensures ObserveAll(PhaseOf(b), MapReal(style, b, flags, mmap).effects)
         == if Disciplined(style, b, Map(flags, mmap)) then PhaseOf(MapReal(style, b, flags, mmap).buf) else Violated
  {
    ObserveShort(PhaseOf(b), MapReal(style, b, flags, mmap).effects);
  }

  lemma BracketedUnmap(style: Style, b: Buf)
    requires Orderly(style, b)
    ensures ObserveAll(PhaseOf(b), UnmapReal(style, b).effects)
         == if Disciplined(style, b, Unmap) then PhaseOf(UnmapReal(style, b).buf) else Violated
  {
    ObserveShort(PhaseOf(b), UnmapReal(style, b).effects);
  }

  lemma BracketedStart(style: Style, b: Buf)
    requires Orderly(style, b)
    ensures ObserveAll(PhaseOf(b), StartManual(b).effects)
         == if Disciplined(style, b, Start) then PhaseOf(StartManual(b).buf) else Violated
  {
    ObserveShort(PhaseOf(b), StartManual(b).effects);
  }

  lemma BracketedStop(b: Buf)
    requires b.sync ==> b.address != 0
    ensures ObserveAll(PhaseOf(b), StopManual(b).effects) == PhaseOf(StopManual(b).buf)
  {
    ObserveShort(PhaseOf(b), StopManual(b).effects);
  }

  /** One call obeys the protocol exactly when it is disciplined. */
  lemma BracketedStepIff(style: Style, b: Buf, op: Op)
    requires Orderly(style, b)
    ensures ObserveAll(PhaseOf(b), Next(style, b, op).effects)
         == if Disciplined(style, b, op) then PhaseOf(Next(style, b, op).buf) else Violated
  {
    match op
    case Map(flags, mmap) => BracketedMap(style, b, flags, mmap);
    case Unmap => BracketedUnmap(style, b);
    case Start => BracketedStart(style, b);
    case Stop => BracketedStop(b);
  }

  lemma {:induction false} DisciplineIsEnough(style: Style, b: Buf, ops: seq<Op>)
    requires style.Syncs() && Fresh(style, b) && DisciplinedThroughout(style, b, ops)
    ensures Orderly(style, Run(style, b, ops))
    ensures ObserveAll(START, Trace(style, b, ops)) == PhaseOf(Run(style, b, ops))
  {
    if |ops| != 0 {
      var init, last := ops[..|ops| - 1], ops[|ops| - 1];
      var before := Run(style, b, init);
      DisciplineIsEnough(style, b, init);
      ObserveAllConcat(START, Trace(style, b, init), Next(style, before, last).effects);
      OrderlyStepIff(style, before, last);
      BracketedStepIff(style, before, last);
    }
  }

  lemma {:induction false} DisciplineIsNeeded(style: Style, b: Buf, ops: seq<Op>)
    requires style.Syncs() && Fresh(style, b) && !DisciplinedThroughout(style, b, ops)
    ensures ObserveAll(START, Trace(style, b, ops)) == Violated
  {
    var init, last := ops[..|ops| - 1], ops[|ops| - 1];
    var before := Run(style, b, init);
    var effects := Next(style, before, last).effects;
    ObserveAllConcat(START, Trace(style, b, init), effects);
    if DisciplinedThroughout(style, b, init) {
      DisciplineIsEnough(style, b, init);
      BracketedStepIff(style, before, last);
    } else {
      DisciplineIsNeeded(style, b, init);
      ViolatedForever(effects);
    }
  }

  /** Over a whole run from a fresh buffer, the protocol is obeyed exactly when every call was
      disciplined; and then the fields of the buffer tell the phase the protocol is in. */
  lemma BracketedIffDisciplined(style: Style, b: Buf, ops: seq<Op>)
    requires style.Syncs() && Fresh(style, b)
    ensures ObserveAll(START, Trace(style, b, ops)).Obeyed? <==> DisciplinedThroughout(style, b, ops)
    ensures DisciplinedThroughout(style, b, ops) ==>
              && Orderly(style, Run(style, b, ops))
              && ObserveAll(START, Trace(style, b, ops)) == PhaseOf(Run(style, b, ops))
  {
    if DisciplinedThroughout(style, b, ops) {
      DisciplineIsEnough(style, b, ops);
    } else {
      DisciplineIsNeeded(style, b, ops);
    }
  }

  lemma ClosingObeys(b: Buf, released: Effect)
    requires released.Release? && (b.sync ==> b.address != 0)
    ensures ObserveAll(PhaseOf(b), ClosingOf(b) + [released]) == START
  {
    ObserveShort(PhaseOf(b), [released]);
    if b.address != 0 {
      ObserveShort(PhaseOf(b), ClosingOf(b));
      ObserveAllConcat(PhaseOf(b), ClosingOf(b), [released]);
      ObserveShort(START, [released]);
    }
  }

  /** Deallocation after a disciplined run ends the protocol where it began, whatever reference
      count and whatever open session it finds. */
  lemma DeallocationBalances(style: Style, b: Buf, ops: seq<Op>)
    requires style.Syncs() && Fresh(style, b) && DisciplinedThroughout(style, b, ops)
    ensures ObserveAll(START, Trace(style, b, ops) + Deallocated(style, Run(style, b, ops)).effects) == START
  {
    BracketedIffDisciplined(style, b, ops);
    var last := Run(style, b, ops);
    ObserveAllConcat(START, Trace(style, b, ops), Deallocated(style, last).effects);
    DeallocationShape(style, last);
    ClosingObeys(last, Release(last.backing));
  }

  // ----- the failed automatic map, and its repair -----

  /** The code as it is: take any cached dma-heap buffer that is not mapped, let a map with
      automatic synchronisation fail, and map it again with manual synchronisation. Then the next
      start of a session does nothing at all; it stays undone for however many starts follow. */
  lemma StaleSession(b: Buf, flags: MapFlags, errno: int, again: MapFlags, address: Pointer)
    requires b.address == 0 && !Manual(flags) && Manual(again)
    ensures var style := DmaHeap(true, false);
            var ops := [Map(flags, Failed(errno)), Map(again, Ok(address))];
            var b2 := Run(style, b, ops);
            && b2.address == address && b2.sync && Manual(b2.flags)
            && Next(style, b2, Start) == Step(b2, [])
  {
    var style := DmaHeap(true, false);
    var ops := [Map(flags, Failed(errno)), Map(again, Ok(address))];
    assert ops[..1] == [ops[0]] && ops[..1][..0] == [];
    assert Run(style, b, ops[..1]) == Next(style, b, ops[0]).buf;
    assert Run(style, b, ops) == Next(style, Next(style, b, ops[0]).buf, ops[1]).buf;
    assert !Manual(style.Normalise(flags)) && Manual(style.Normalise(again));
  }

  /** A caller who starts sessions on mapped memory only, and stops a manual session before the
      last unmap. Nothing is asked of mmap(). */
  predicate PoliteThroughout(style: Style, b: Buf, ops: seq<Op>)
    requires style.DmaHeap?
  {
    |ops| != 0 ==>
      && PoliteThroughout(style, b, ops[..|ops| - 1])
      && (!ops[|ops| - 1].Map? ==> Disciplined(style, Run(style, b, ops[..|ops| - 1]), ops[|ops| - 1]))
  }

  /** In the repaired variant, which begins an automatic session only if mmap() succeeded, polite
      callers obey the protocol in every run, however many of their maps fail. */
  lemma {:induction false} RepairNeedsNoLuck(b: Buf, ops: seq<Op>)
    requires Fresh(DmaHeap(true, true), b) && PoliteThroughout(DmaHeap(true, true), b, ops)
    ensures Orderly(DmaHeap(true, true), Run(DmaHeap(true, true), b, ops))
    ensures DisciplinedThroughout(DmaHeap(true, true), b, ops)
    ensures ObserveAll(START, Trace(DmaHeap(true, true), b, ops)) == PhaseOf(Run(DmaHeap(true, true), b, ops))
  {
    if |ops| != 0 {
      RepairNeedsNoLuck(b, ops[..|ops| - 1]);
    }
    BracketedIffDisciplined(DmaHeap(true, true), b, ops);
  }
}
