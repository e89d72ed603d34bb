/** The ION heap id mask, found by querying the heaps once and kept in a static variable. */
module IonHeaps {
  import opened Kernel

  /** What the kernel tells about a heap; `isDma` stands for a type of ION_HEAP_TYPE_DMA. */
  datatype Heap = Heap(isDma: bool, id: bv32)

  /** Heap ids are bit positions of a 32-bit mask. */
  predicate ValidIds(heaps: seq<Heap>) {
    forall k :: 0 <= k < |heaps| ==> heaps[k].id < 32
  }

  predicate HasBit(mask: bv32, id: bv32)
    requires id < 32
  {
    mask & (1 << id) != 0
  }

  /** One turn of the loop that computes the mask. */
  function Include(mask: bv32, heap: Heap): bv32
    requires heap.id < 32
  {
    if heap.isDma then mask | (1 << heap.id) else mask
  }

  function MaskOf(heaps: seq<Heap>): bv32
    requires ValidIds(heaps)
  {
    if |heaps| == 0 then 0 else Include(MaskOf(heaps[..|heaps| - 1]), heaps[|heaps| - 1])
  }

  lemma OrBit(mask: bv32, id: bv32, k: bv32)
    requires id < 32 && k < 32
    ensures (mask | (1 << id)) & (1 << k) != 0 <==> mask & (1 << k) != 0 || k == id
  {}

  lemma MaskStep(mask: bv32, last: Heap, k: bv32)
    requires last.id < 32 && k < 32
    ensures HasBit(Include(mask, last), k)
       <==> HasBit(mask, k) || (last.isDma && last.id == k)
  {
    OrBit(mask, last.id, k);
  }

  /** A DMA heap with that id is among the queried ones. */
  predicate HasDmaHeap(heaps: seq<Heap>, id: bv32) { Heap(true, id) in heaps }

  /** Bit k of the mask is set exactly when there is a DMA heap with id k. */
  lemma {:induction false} MaskOfIff(heaps: seq<Heap>, k: bv32)
    requires ValidIds(heaps) && k < 32
    ensures HasBit(MaskOf(heaps), k) <==> HasDmaHeap(heaps, k)
  {
    if |heaps| == 0 {
      assert (0 as bv32) & (1 << k) == 0;
    } else {
      var init, last := heaps[..|heaps| - 1], heaps[|heaps| - 1];
      MaskOfIff(init, k);
      MaskStep(MaskOf(init), last, k);
      assert heaps == init + [last];
    }
  }

  // ----- the cache -----

  /** The replies to the two queries a lookup may make: how many heaps there are, and which. `errno`
      is what errno holds if the first query succeeds but counts no heaps. */
  datatype Query = Query(count: Reply<nat>, heaps: Reply<seq<Heap>>, errno: int)
  {
    predicate Valid() {
      count.Ok? && heaps.Ok? ==> |heaps.value| == count.value && ValidIds(heaps.value)
    }

    predicate Succeeds() { count.Ok? && count.value != 0 && heaps.Ok? }
  }

  /** A mask of 0 is a failure. */
  datatype Answer = Answer(mask: bv32, error: Option<int>)

  function Lookup(cache: bv32, q: Query): Answer
    requires q.Valid()
  {
    if cache != 0 then Answer(cache, None)
    else if q.count.Failed? then Answer(0, Some(q.count.errno))
    else if q.count.value == 0 then Answer(0, Some(q.errno))
    else if q.heaps.Failed? then Answer(0, Some(q.heaps.errno))
    else Answer(MaskOf(q.heaps.value), None)
  }

  /** A lookup reports an error only if it has to ask, and then that of the query that failed. */
  lemma LookupErrorIff(cache: bv32, q: Query, e: int)
    requires q.Valid()
    ensures Lookup(cache, q).error == Some(e)
       <==> && cache == 0
            && (q.count == Failed(e)
                || (q.count == Ok(0) && e == q.errno)
                || (q.count.Ok? && q.count.value > 0 && q.heaps == Failed(e)))
    ensures Lookup(cache, q).error.Some? ==> Lookup(cache, q).mask == 0
  {}

  lemma MaskOfOneMore(heaps: seq<Heap>, i: nat)
    requires i < |heaps| && ValidIds(heaps)
    ensures MaskOf(heaps[..i + 1]) == Include(MaskOf(heaps[..i]), heaps[i])
  {
    assert heaps[..i + 1][..i] == heaps[..i];
  }

  /** The static variable and the function that fills it. */
  class HeapIdMask {
    var heapIdMask: bv32

    constructor ()
      ensures heapIdMask == 0
    {
      heapIdMask := 0;
    }

    /** Whatever the answer is, the next lookup finds it in the cache. */
    method Get(q: Query) returns (answer: Answer)
      requires q.Valid()
      modifies this
      ensures answer == Lookup(old(heapIdMask), q)
      ensures heapIdMask == answer.mask
    {
      if heapIdMask != 0 {
        return Answer(heapIdMask, None);
      }
      if q.count.Failed? {
        return Answer(0, Some(q.count.errno));
      }
      if q.count.value == 0 {
        return Answer(0, Some(q.errno));
      }
      var heapCount := q.count.value;
      if q.heaps.Failed? {
        return Answer(0, Some(q.heaps.errno));
      }
      var heaps := q.heaps.value;
      for i := 0 to heapCount
        invariant heapIdMask == MaskOf(heaps[..i])
      {
        MaskOfOneMore(heaps, i);
        if heaps[i].isDma {
          heapIdMask := heapIdMask | (1 << heaps[i].id);
        }
      }
      assert heaps[..heapCount] == heaps;
      return Answer(heapIdMask, None);
    }
  }

  /** The cache after a series of lookups. */
  function CacheAfter(queries: seq<Query>): bv32
    requires forall q <- queries :: q.Valid()
  {
    if |queries| == 0 then 0
    else Lookup(CacheAfter(queries[..|queries| - 1]), queries[|queries| - 1]).mask
  }

  predicate SomeSucceeded(queries: seq<Query>) { exists q <- queries :: q.Succeeds() }

  /** While the set of heaps stays the same, every lookup that succeeds, or comes after one that
      did, answers what a fresh computation would, and failed queries change nothing. (A system
      without DMA heaps has a mask of 0, and is queried again every time.) */
  lemma {:induction false} CacheIsFresh(queries: seq<Query>, heaps: seq<Heap>)
    requires forall q <- queries :: q.Valid()
    requires ValidIds(heaps)
    requires forall q <- queries :: q.Succeeds() ==> q.heaps.value == heaps
    ensures CacheAfter(queries) == if SomeSucceeded(queries) then MaskOf(heaps) else 0
  {
    if |queries| != 0 {
      var init, last := queries[..|queries| - 1], queries[|queries| - 1];
      CacheIsFresh(init, heaps);
      assert queries == init + [last];
      assert SomeSucceeded(queries) <==> SomeSucceeded(init) || last.Succeeds();
    }
  }

  // ----- allocating a DMA-BUF -----

  /** The replies to an allocation. Since kernel 4.14 the heap id mask is looked up and the kernel
      returns a file descriptor; before, it returns a user handle that must be mapped to a file
      descriptor and then freed. A mapping to a negative descriptor is a failed one. */
  datatype Path =
    | Modern(lookup: Answer, alloc: Reply<nat>)
    | Legacy(alloc: Reply<nat>, mapped: Reply<nat>)

  datatype Dmabuf = Dmabuf(fd: Option<nat>, effects: seq<Effect>, error: Option<int>)

  /** What a caller asks for. */
  datatype Wish = Wish(size: nat, alignment: nat, heapIdMask: bv32, heapFlags: bv32)

  /** A modern kernel is not told the alignment, and is given the mask that was looked up. */
  function AskIon(w: Wish, path: Path): Effect {
    match path
    case Modern(lookup, _) => IonAlloc(w.size, None, lookup.mask, w.heapFlags)
    case Legacy(_, _) => IonAlloc(w.size, Some(w.alignment), w.heapIdMask, w.heapFlags)
  }

  function AllocateDmabuf(w: Wish, path: Path): Dmabuf {
    if path.Modern? && path.lookup.mask == 0 then Dmabuf(None, [], path.lookup.error)
    else if path.alloc.Failed? then Dmabuf(None, [AskIon(w, path)], Some(path.alloc.errno))
    else
      match path
      case Modern(_, alloc) =>
        Dmabuf(Some(alloc.value), [AskIon(w, path)] + [Acquire(DmaBuf(alloc.value), w.size)], None)
      case Legacy(alloc, mapped) =>
        var acquired := if mapped.Ok? then [Acquire(DmaBuf(mapped.value), w.size)] else [];
        Dmabuf(if mapped.Ok? then Some(mapped.value) else None,
               [AskIon(w, path)] + ([AcquireHandle(alloc.value)] + acquired + [FreeHandle(alloc.value)]),
               if mapped.Ok? then None else Some(mapped.errno))
  }

  /** On a modern kernel the mask and the alignment that the caller passes make no difference. The
      kernel is asked for memory of exactly the DMA heaps, at the latest lookup that succeeded. */
  lemma MaskIsAutodetected(cache: bv32, q: Query, alloc: Reply<nat>, w: Wish, w': Wish)
    requires q.Valid() && w'.size == w.size && w'.heapFlags == w.heapFlags
    ensures AllocateDmabuf(w, Modern(Lookup(cache, q), alloc)) == AllocateDmabuf(w', Modern(Lookup(cache, q), alloc))
    ensures forall e <- AllocateDmabuf(w, Modern(Lookup(cache, q), alloc)).effects :: e.IonAlloc? ==>
              && e.length == w.size && e.alignment.None? && e.heapFlags == w.heapFlags && e.heapIdMask != 0
              && (cache != 0 ==> e.heapIdMask == cache)
              && (cache == 0 ==>
                    && q.Succeeds()
                    && forall k: bv32 :: k < 32 ==> (HasBit(e.heapIdMask, k) <==> HasDmaHeap(q.heaps.value, k)))
  {
    if cache == 0 && q.Succeeds() {
      forall k: bv32 | k < 32 ensures HasBit(MaskOf(q.heaps.value), k) <==> HasDmaHeap(q.heaps.value, k) {
        MaskOfIff(q.heaps.value, k);
      }
    }
  }

  /** An allocation fails without reporting an error exactly if the heaps could be queried and none
      of them is a DMA heap. */
  lemma SilentFailureIff(cache: bv32, q: Query, alloc: Reply<nat>, w: Wish)
    requires q.Valid()
    ensures AllocateDmabuf(w, Modern(Lookup(cache, q), alloc)).fd.None?
            && AllocateDmabuf(w, Modern(Lookup(cache, q), alloc)).error.None?
       <==> cache == 0 && q.Succeeds() && forall k: bv32 :: k < 32 ==> !HasDmaHeap(q.heaps.value, k)
  {
    if q.Succeeds() {
      var mask := MaskOf(q.heaps.value);
      forall k: bv32 | k < 32 ensures HasBit(mask, k) <==> HasDmaHeap(q.heaps.value, k) {
        MaskOfIff(q.heaps.value, k);
      }
      MaskZeroIff(mask);
    }
  }

  lemma MaskZeroIff(mask: bv32)
    ensures mask == 0 <==> forall k: bv32 :: k < 32 ==> !HasBit(mask, k)
  {
    if mask == 0 {
      forall k: bv32 | k < 32 ensures !HasBit(mask, k) {
        assert (0 as bv32) & (1 << k) == 0;
      }
    } else {
      var k := LowestBit(mask);
      assert HasBit(mask, k);
    }
  }

  lemma LowestBit(mask: bv32) returns (k: bv32)
    requires mask != 0
    ensures k < 32 && HasBit(mask, k)
    decreases mask
  {
    if mask & 1 != 0 {
      k := 0;
      FirstBit(mask);
    } else {
      Halve(mask);
      var j := LowestBit(mask >> 1);
      ShiftBit(mask, j);
      k := j + 1;
    }
  }

  lemma FirstBit(mask: bv32)
    requires mask & 1 != 0
    ensures HasBit(mask, 0)
  {}

  lemma Halve(mask: bv32)
    requires mask != 0 && mask & 1 == 0
    ensures mask >> 1 != 0 && mask >> 1 < mask
  {}

  lemma ShiftBit(mask: bv32, j: bv32)
    requires j < 32 && mask & 1 == 0 && HasBit(mask >> 1, j)
    ensures j + 1 < 32 && HasBit(mask, j + 1)
  {}
}
