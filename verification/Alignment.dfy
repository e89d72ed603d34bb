/** Aligning the base of a region that was allocated with some slack, on machine words.

    `m` is the number of values of a machine word; sizes, alignments and addresses are words, and
    word arithmetic wraps around. */
module Alignment {

  /** Addition on words. The sum of two words wraps at most once. */
  function AddWords(m: nat, x: nat, y: nat): (z: nat)
    requires x < m && y < m
    ensures z < m
  {
    if x + y < m then x + y else x + y - m
  }

  /** The alignment macro: add, subtract one, divide and multiply on words. The final product cannot
      exceed the word it was divided from. */
  function AlignValTo(m: nat, base: nat, alignment: nat): (r: nat)
    requires base < m && 1 <= alignment < m
    ensures r < m
  {
    var x := AddWords(m, AddWords(m, base, alignment), m - 1);
    assert x / alignment * alignment <= x by { RoundDown(x, alignment); }
    x / alignment * alignment
  }

  /** An alignment of 0 means no alignment, like 1. */
  function EffectiveAlignment(alignment: nat): nat { if alignment == 0 then 1 else alignment }

  /** The size that is requested so that an aligned window fits. */
  function ActualSize(m: nat, size: nat, alignment: nat): nat
    requires size < m && alignment < m
  {
    if alignment > 1 then AddWords(m, size, alignment) else size
  }

  function Aligned(m: nat, base: nat, alignment: nat): nat
    requires base < m && alignment < m && 1 < m
  {
    AlignValTo(m, base, EffectiveAlignment(alignment))
  }

  predicate MultipleOf(x: nat, alignment: nat) requires alignment > 0 { x % alignment == 0 }

  ghost predicate LeastMultipleFrom(r: nat, base: nat, alignment: nat)
    requires alignment > 0
  {
    && MultipleOf(r, alignment) && base <= r
    && forall x: nat :: MultipleOf(x, alignment) && base <= x ==> r <= x
  }

  /** A window lies within a region. */
  predicate Within(base: nat, length: nat, start: nat, size: nat) {
    base <= start && start + size <= base + length
  }

  // ----- quotients and remainders -----

  lemma LargerQuotient(k: int, q: int, a: nat)
    requires k > q
    ensures k * a >= q * a + a
  {
    assert k * a == (k - q - 1) * a + (q * a + a);
    assert (k - q - 1) * a >= 0;
  }

  lemma DivisionIsUnique(a: nat, q: nat, r: nat, k: nat, s: nat)
    requires r < a && s < a && q * a + r == k * a + s
    ensures k == q && s == r
  {
    if k > q { LargerQuotient(k, q, a); }
    if k < q { LargerQuotient(q, k, a); }
  }

  lemma DivMod(x: nat, a: nat, q: nat, r: nat)
    requires r < a && x == q * a + r
    ensures x / a == q && x % a == r
  {
    var k, s := x / a, x % a;
    DivisionIsUnique(a, q, r, k, s);
  }

  lemma RoundDown(x: nat, a: nat)
    requires a > 0
    ensures x / a * a % a == 0 && x - a < x / a * a <= x
  {
    var q := x / a;
    assert x == q * a + x % a;
    DivMod(q * a, a, q, 0);
  }

  lemma RemainderOf(x: nat, a: nat)
    requires a > 0
    ensures x == x / a * a + x % a
  {}

  // ----- the macro -----

  /** The sum inside the macro wraps at most once in all. */
  lemma InnerSum(m: nat, base: nat, alignment: nat)
    requires base < m && 1 <= alignment < m
    ensures var x := base + alignment - 1;
            AddWords(m, AddWords(m, base, alignment), m - 1) == if x < m then x else x - m
  {}

  lemma RoundsUp(m: nat, base: nat, alignment: nat)
    requires base < m && 1 <= alignment < m && base + alignment - 1 < m
    ensures var r := AlignValTo(m, base, alignment);
            r % alignment == 0 && base <= r <= base + alignment - 1
  {
    InnerSum(m, base, alignment);
    RoundDown(base + alignment - 1, alignment);
  }

  lemma NoMultipleBelow(base: nat, alignment: nat, r: nat, x: nat)
    requires alignment > 0 && MultipleOf(r, alignment) && MultipleOf(x, alignment)
    requires r <= base + alignment - 1 && base <= x
    ensures r <= x
  {
    var k, q := r / alignment, x / alignment;
    assert r == k * alignment && x == q * alignment;
    if k > q { LargerQuotient(k, q, alignment); }
    if k < q { LargerQuotient(q, k, alignment); }
  }

  /** The macro rounds up to the least multiple exactly when the sum inside it does not wrap; when
      it wraps, the result is always 0. */
  lemma AlignValToIff(m: nat, base: nat, alignment: nat)
    requires base < m && 1 <= alignment < m
    ensures LeastMultipleFrom(AlignValTo(m, base, alignment), base, alignment) <==> base + alignment - 1 < m
    ensures base + alignment - 1 >= m ==> AlignValTo(m, base, alignment) == 0
  {
    var r := AlignValTo(m, base, alignment);
    if base + alignment - 1 < m {
      RoundsUp(m, base, alignment);
      forall x: nat | MultipleOf(x, alignment) && base <= x ensures r <= x {
        NoMultipleBelow(base, alignment, r, x);
      }
    } else {
      InnerSum(m, base, alignment);
      DivMod(base + alignment - 1 - m, alignment, 0, base + alignment - 1 - m);
      assert r == 0;
    }
  }

  lemma AlwaysMultiple(m: nat, base: nat, alignment: nat)
    requires base < m && 1 <= alignment < m
    ensures MultipleOf(AlignValTo(m, base, alignment), alignment)
  {
    RoundDown(AddWords(m, AddWords(m, base, alignment), m - 1), alignment);
  }

  /** From q a + s up to the next multiple k a of a. */
  lemma Distance(a: nat, q: nat, s: nat, k: nat)
    requires s < a && q * a + s <= k * a <= q * a + s + a - 1
    ensures k * a - (q * a + s) == if s == 0 then 0 else a - s
  {
    assert (q + 1) * a == q * a + a;
    if k > q + 1 {
      LargerQuotient(k, q + 1, a);
    } else if q > k {
      LargerQuotient(q, k, a);
    } else if k == q + 1 && s == 0 {
      assert false;
    }
  }

  /** How far the base moves: up to the next multiple, or, if the sum wraps, down to 0. */
  lemma Offset(m: nat, base: nat, alignment: nat)
    requires base < m && 1 <= alignment < m
    ensures AlignValTo(m, base, alignment)
         == if base + alignment - 1 >= m then 0
            else if base % alignment == 0 then base else base + alignment - base % alignment
  {
    if base + alignment - 1 >= m {
      AlignValToIff(m, base, alignment);
    } else {
      RoundsUp(m, base, alignment);
      var k := AddWords(m, AddWords(m, base, alignment), m - 1) / alignment;
      assert AlignValTo(m, base, alignment) == k * alignment;
      RemainderOf(base, alignment);
      Distance(alignment, base / alignment, base % alignment, k);
    }
  }

  /** Slack of one less than the alignment is enough for every base, and no less is. */
  lemma SlackIff(m: nat, alignment: nat, slack: nat)
    requires 1 <= alignment < m
    ensures (forall base: nat :: base + alignment - 1 < m ==> AlignValTo(m, base, alignment) <= base + slack)
       <==> slack >= alignment - 1
  {
    forall base: nat | base + alignment - 1 < m
      ensures AlignValTo(m, base, alignment) <= base + alignment - 1
    {
      RoundsUp(m, base, alignment);
    }
    if alignment > 1 {
      Offset(m, 1, alignment);
      DivMod(1, alignment, 0, 1);
    }
  }

  // ----- padded and unpadded requests -----

  /** IPU, DWL and G2D request the padded size. If the region fits the address space, the aligned
      window lies in it exactly when the padded size did not wrap; with an alignment there is then
      even a byte to spare. */
  lemma PaddedFitsIff(m: nat, base: nat, size: nat, alignment: nat)
    requires 1 <= size < m && alignment < m && base < m
    requires base + ActualSize(m, size, alignment) <= m
    ensures Within(base, ActualSize(m, size, alignment), Aligned(m, base, alignment), size)
       <==> alignment <= 1 || size + alignment < m
    ensures alignment > 1 && size + alignment < m ==>
              Aligned(m, base, alignment) + size <= base + ActualSize(m, size, alignment) - 1
  {
    if alignment <= 1 || size + alignment < m {
      RoundsUp(m, base, EffectiveAlignment(alignment));
    }
  }

  /** PxP requests the bare size. Its aligned window lies in the region exactly when the base it was
      given is aligned already (and the macro does not wrap). */
  lemma UnpaddedFitsIff(m: nat, base: nat, size: nat, alignment: nat)
    requires base < m && alignment < m && 1 < m
    ensures Within(base, size, Aligned(m, base, alignment), size)
       <==> base % EffectiveAlignment(alignment) == 0 && base + EffectiveAlignment(alignment) - 1 < m
  {
    Offset(m, base, EffectiveAlignment(alignment));
  }

  // ----- offsets within a region -----

  /** Where byte `i` from `pointer` on lies within a region that begins at `base`. */
  function Place(base: nat, pointer: nat, i: nat): int { pointer + i - base }

  /** The sum inside the macro wraps for this base. */
  predicate Wraps(m: nat, base: nat, alignment: nat) { base + EffectiveAlignment(alignment) - 1 >= m }

  /** Two bases that are aligned independently move by the same distance exactly when they are
      congruent, or, if one of the sums wraps, equal. */
  lemma SameOffsetIff(m: nat, base1: nat, base2: nat, alignment: nat)
    requires alignment < m && 1 < m && base1 < m && base2 < m
    ensures Place(base1, Aligned(m, base1, alignment), 0) == Place(base2, Aligned(m, base2, alignment), 0)
       <==> if Wraps(m, base1, alignment) || Wraps(m, base2, alignment) then base1 == base2
            else base1 % EffectiveAlignment(alignment) == base2 % EffectiveAlignment(alignment)
  {
    Offset(m, base1, EffectiveAlignment(alignment));
    Offset(m, base2, EffectiveAlignment(alignment));
  }

  // ----- pages -----

  /** What lies on a page boundary is aligned to whatever divides the page. */
  lemma PagesAreAligned(base: nat, page: nat, alignment: nat)
    requires alignment > 0 && page > 0 && base % page == 0 && page % alignment == 0
    ensures base % alignment == 0
  {
    RemainderOf(base, page);
    RemainderOf(page, alignment);
    MultipleOfMultiple(base / page, page / alignment, alignment);
  }

  lemma MultipleOfMultiple(pages: nat, parts: nat, alignment: nat)
    requires alignment > 0
    ensures pages * (parts * alignment) % alignment == 0
  {
    assert pages * (parts * alignment) == (pages * parts) * alignment;
    DivMod(pages * (parts * alignment), alignment, pages * parts, 0);
  }

  /** In an address space of whole pages, a base on a page boundary is followed by a whole page. */
  lemma PageFits(m: nat, base: nat, page: nat)
    requires page > 0 && base < m && base % page == 0 && m % page == 0
    ensures base + page <= m
  {
    var k, q := m / page, base / page;
    RemainderOf(m, page);
    RemainderOf(base, page);
    if k > q {
      LargerQuotient(k, q, page);
    } else if k < q {
      LargerQuotient(q, k, page);
    }
  }

  lemma DividesAtMost(page: nat, alignment: nat)
    requires alignment > 0 && page > 0 && page % alignment == 0
    ensures alignment <= page
  {
    if alignment > page {
      DivMod(page, alignment, 0, page);
    }
  }
}
