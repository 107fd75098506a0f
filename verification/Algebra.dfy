/** Laws between the allocator's operations. */
module Algebra {
  import opened Bits
  import opened Words
  import opened PageSpec
  import opened Conservation

  /** Freeing the block that was just allocated restores every flag word and the counter. */
  lemma AllocThenFree(s: State, n: u64)
    requires Sized(s) && Choice(s, n).Some?
    ensures FreePages(AllocPages(s, n), AllocResult(s, n), n) == s
  {
    AllocCounts(s, n);
    var p := AllocResult(s, n);
    var s' := AllocPages(s, n);
    forall i | p <= i < p + n
      ensures ClearBit(PG_ALLOCATED, s'.flags[i]) == s.flags[i]
    {
      ClearUndoesSet(PG_ALLOCATED, s.flags[i]);
    }
    assert ClearRange(PG_ALLOCATED, s'.flags, p, n) == s.flags;
  }

  /** Frees commute, whatever blocks they name. */
  lemma FreesCommute(s: State, base: u64, n: u64, base': u64, n': u64)
    ensures FreePages(FreePages(s, base, n), base', n')
         == FreePages(FreePages(s, base', n'), base, n)
  {
    assert ClearRange(PG_ALLOCATED, ClearRange(PG_ALLOCATED, s.flags, base, n), base', n')
        == ClearRange(PG_ALLOCATED, ClearRange(PG_ALLOCATED, s.flags, base', n'), base, n);
  }

  /** One accepted free of `a + b` pages is two adjacent frees. */
  lemma FreeSplits(s: State, base: u64, a: u64, b: u64)
    requires Sized(s) && 0 < a && 0 < b && a + b < TWO64
    requires FreeAccepted(s, base, a + b)
    ensures base + a < TWO64
    ensures FreePages(s, base, a + b) == FreePages(FreePages(s, base, a), base + a, b)
  {
    assert ClearRange(PG_ALLOCATED, s.flags, base, a + b)
        == ClearRange(PG_ALLOCATED, ClearRange(PG_ALLOCATED, s.flags, base, a), base + a, b);
  }

  /** After freeing an allocated, unreserved block a request of its size succeeds, no
      later in memory than the block. */
  lemma FreeThenAlloc(s: State, p: u64, n: u64)
    requires Sized(s) && FreeAccepted(s, p, n)
    requires forall i :: 0 <= i < |s.flags| && InRange(i, p, n) ==> Unreserved(s.flags[i])
    ensures AllocResult(FreePages(s, p, n), n) <= p
    ensures Choice(FreePages(s, p, n), n).Some?
  {
    var s' := FreePages(s, p, n);
    ClearAllocatedReads(s.flags, p, n);
    FindIsFirstFit(s'.flags, n);
    assert FreeRun(s'.flags, p, n);
  }
}
