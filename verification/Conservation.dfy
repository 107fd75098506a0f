/** The free counter against the page flags: what each operation does to the number of
    available pages, and exactly when it keeps `nr_free` equal to it. */
module Conservation {
  import opened Bits
  import opened Words
  import opened Counting
  import opened PageSpec

  function Availables(s: State): nat {
    Count(Available, s.flags, 0, |s.flags|)
  }

  function Unreserveds(s: State): nat {
    Count(Unreserved, s.flags, 0, |s.flags|)
  }

  predicate NrFreeEq(s: State) {
    Availables(s) == s.nrFree
  }

  // ----- What the range updates do to each page -----

  lemma SetAllocatedReads(flags: seq<bv64>, base: nat, n: nat)
    ensures var r := SetRange(PG_ALLOCATED, flags, base, n);
      forall i :: 0 <= i < |flags| ==>
        && Reserved(r[i]) == Reserved(flags[i])
        && Allocated(r[i]) == (InRange(i, base, n) || Allocated(flags[i]))
        && (!InRange(i, base, n) ==> r[i] == flags[i])
  {
    forall i | 0 <= i < |flags|
      ensures Reserved(SetBit(PG_ALLOCATED, flags[i])) == Reserved(flags[i])
           && Allocated(SetBit(PG_ALLOCATED, flags[i]))
    {
      SetBitReads(PG_ALLOCATED, PG_RESERVED, flags[i]);
      SetBitReads(PG_ALLOCATED, PG_ALLOCATED, flags[i]);
    }
  }

  lemma ClearAllocatedReads(flags: seq<bv64>, base: nat, n: nat)
    ensures var r := ClearRange(PG_ALLOCATED, flags, base, n);
      forall i :: 0 <= i < |flags| ==>
        && Reserved(r[i]) == Reserved(flags[i])
        && Allocated(r[i]) == (!InRange(i, base, n) && Allocated(flags[i]))
        && (!InRange(i, base, n) ==> r[i] == flags[i])
  {
    forall i | 0 <= i < |flags|
      ensures Reserved(ClearBit(PG_ALLOCATED, flags[i])) == Reserved(flags[i])
           && !Allocated(ClearBit(PG_ALLOCATED, flags[i]))
    {
      ClearBitReads(PG_ALLOCATED, PG_RESERVED, flags[i]);
      ClearBitReads(PG_ALLOCATED, PG_ALLOCATED, flags[i]);
    }
  }

  lemma ClearReservedReads(flags: seq<bv64>, base: nat, n: nat)
    ensures var r := ClearRange(PG_RESERVED, flags, base, n);
      forall i :: 0 <= i < |flags| ==>
        && Reserved(r[i]) == (!InRange(i, base, n) && Reserved(flags[i]))
        && Allocated(r[i]) == Allocated(flags[i])
        && (!InRange(i, base, n) ==> r[i] == flags[i])
  {
    forall i | 0 <= i < |flags|
      ensures !Reserved(ClearBit(PG_RESERVED, flags[i]))
           && Allocated(ClearBit(PG_RESERVED, flags[i])) == Allocated(flags[i])
    {
      ClearBitReads(PG_RESERVED, PG_RESERVED, flags[i]);
      ClearBitReads(PG_RESERVED, PG_ALLOCATED, flags[i]);
    }
  }

  lemma ZeroIsAvailable()
    ensures Available(0) && !Available(1)
  {
    assert TestBit(PG_RESERVED, 1);
  }

  lemma OneIsReserved()
    ensures Reserved(1) && !Allocated(1)
    ensures SetBit(PG_RESERVED, 0) == 1 && ClearBit(PG_RESERVED, 1) == 0 && !Reserved(0)
  {
    assert TestBit(PG_RESERVED, 1);
  }

  // ----- init_memmap -----

  /** What the guards of `init_memmap` and `free_pages` accept, in unbounded arithmetic. */
  lemma AcceptedIff(s: State, base: u64, n: u64)
    requires Sized(s)
    ensures InitStatus(s, base, n) == 0 <==>
      && 0 < n && base + n <= |s.flags|
      && forall i :: base <= i < base + n ==> Reserved(s.flags[i]) && !Allocated(s.flags[i])
    ensures FreeAccepted(s, base, n) <==> 0 < n && base + n <= |s.flags|
  {
    if InitStatus(s, base, n) == 0 {
      assert AllReserved(s.flags, base, n) && !SomeAllocated(s.flags, base, n);
    }
  }

  /** Which code `init_memmap` returns, in unbounded arithmetic. */
  lemma StatusCodes(s: State, base: u64, n: u64)
    requires Sized(s)
    ensures var code, npage := InitStatus(s, base, n), |s.flags|;
      && code <= 6
      && (code == 1 <==> n == 0)
      && (code == 2 <==> npage < n)
      && (code == 3 <==> 0 < n <= npage < base)
      && (code == 4 <==> 0 < n <= npage && base <= npage < base + n)
      && (code == 5 <==> 0 < n && base + n <= npage
                         && exists i :: base <= i < base + n && !Reserved(s.flags[i]))
      && (code == 6 <==> 0 < n && base + n <= npage
                         && (forall i :: base <= i < base + n ==> Reserved(s.flags[i]))
                         && exists i :: base <= i < base + n && Allocated(s.flags[i]))
  {
    if InitStatus(s, base, n) == 6 {
      assert SomeAllocated(s.flags, base, n);
    }
  }

  lemma UnreserveCounts(flags: seq<bv64>, p: bv64 -> bool, base: nat, n: nat)
    requires base + n <= |flags| && (p == Available || p == Unreserved)
    requires forall i :: base <= i < base + n ==> Reserved(flags[i]) && !Allocated(flags[i])
    ensures var t := ClearRange(PG_RESERVED, flags, base, n);
      Count(p, t, 0, |t|) == Count(p, flags, 0, |t|) + n
  {
    var t := ClearRange(PG_RESERVED, flags, base, n);
    ClearReservedReads(flags, base, n);
    CountBlock(p, flags, t, base, n);
    CountAll(p, t, base, base + n);
    CountNone(p, flags, base, base + n);
  }

  /** An accepted `init_memmap` turns exactly its `n` pages from reserved to available. */
  lemma InitCounts(s: State, base: u64, n: u64)
    requires Sized(s) && InitStatus(s, base, n) == 0
    ensures var s' := InitMemmap(s, base, n);
      && base + n <= |s.flags|
      && Availables(s') == Availables(s) + n
      && Unreserveds(s') == Unreserveds(s) + n
  {
    UnreserveCounts(s.flags, Available, base, n);
    UnreserveCounts(s.flags, Unreserved, base, n);
  }

  // ----- alloc_pages -----

  lemma ChoiceIsRun(s: State, n: u64)
    requires Sized(s) && Choice(s, n).Some?
    ensures 0 < n && FreeRun(s.flags, Choice(s, n).value, n)
  {
    FindIsFirstFit(s.flags, n);
  }

  lemma TakeCounts(flags: seq<bv64>, p: nat, n: nat)
    requires FreeRun(flags, p, n)
    ensures var t := SetRange(PG_ALLOCATED, flags, p, n);
      && Count(Available, t, 0, |t|) == Count(Available, flags, 0, |t|) - n
      && Count(Unreserved, t, 0, |t|) == Count(Unreserved, flags, 0, |t|)
  {
    var t := SetRange(PG_ALLOCATED, flags, p, n);
    SetAllocatedReads(flags, p, n);
    CountBlock(Available, flags, t, p, n);
    CountSame(Unreserved, flags, t, 0, |t|);
    CountAll(Available, flags, p, p + n);
    CountNone(Available, t, p, p + n);
  }

  /** A successful allocation takes an available block and removes exactly `n` from the
      available pages. */
  lemma AllocCounts(s: State, n: u64)
    requires Sized(s) && Choice(s, n).Some?
    ensures var p := Choice(s, n).value;
      var s' := AllocPages(s, n);
      && FreeRun(s.flags, p, n)
      && AllocResult(s, n) == p < NULLPAGE
      && Availables(s') == Availables(s) - n
      && Unreserveds(s') == Unreserveds(s)
  {
    var p := Choice(s, n).value;
    ChoiceIsRun(s, n);
    TakeCounts(s.flags, p, n);
  }

  // ----- free_pages -----

  ghost predicate AllAllocatedUnreserved(flags: seq<bv64>, base: nat, n: nat)
    requires base + n <= |flags|
  {
    forall i :: base <= i < base + n ==> Allocated(flags[i]) && Unreserved(flags[i])
  }

  /** The block's share of the change is `n` exactly when no page of it was available
      before and every page of it is available after. */
  lemma FreeBlockShare(flags: seq<bv64>, t: seq<bv64>, base: nat, n: nat)
    requires |t| == |flags| && base + n <= |flags|
    requires forall i :: base <= i < base + n ==>
      Reserved(t[i]) == Reserved(flags[i]) && !Allocated(t[i])
    ensures var d := Count(Available, t, base, base + n) - Count(Available, flags, base, base + n);
      d <= n && (d == n <==> AllAllocatedUnreserved(flags, base, n))
  {
    CountAll(Available, t, base, base + n);
    CountNone(Available, flags, base, base + n);
  }

  /** An accepted `free_pages` makes available the unreserved pages of its block. */
  lemma FreeCounts(s: State, base: u64, n: u64)
    requires Sized(s) && FreeAccepted(s, base, n)
    ensures var s' := FreePages(s, base, n);
      && base + n <= |s.flags|
      && Unreserveds(s') == Unreserveds(s)
      && Availables(s') - Availables(s) <= n
      && (Availables(s') - Availables(s) == n <==> AllAllocatedUnreserved(s.flags, base, n))
  {
    var t := FreePages(s, base, n).flags;
    ClearAllocatedReads(s.flags, base, n);
    CountBlock(Available, s.flags, t, base, n);
    CountSame(Unreserved, s.flags, t, 0, |t|);
    FreeBlockShare(s.flags, t, base, n);
  }

  // ----- The counter invariant -----

  /** `init_memmap` and `alloc_pages` keep the counter equal to the available pages on
      every input. */
  lemma InitAndAllocKeepCounter(s: State, base: u64, n: u64)
    requires Sized(s) && NrFreeEq(s)
    ensures NrFreeEq(InitMemmap(s, base, n))
    ensures NrFreeEq(AllocPages(s, n))
  {
    if InitStatus(s, base, n) == 0 {
      InitCounts(s, base, n);
    }
    if Choice(s, n).Some? {
      AllocCounts(s, n);
    }
  }

  /** `free_pages` checks nothing about the pages: an accepted call keeps the counter if
      and only if every page of the block was allocated and unreserved. */
  lemma FreeKeepsCounterIff(s: State, base: u64, n: u64)
    requires Sized(s) && NrFreeEq(s) && FreeAccepted(s, base, n)
    ensures base + n <= |s.flags|
    ensures NrFreeEq(FreePages(s, base, n)) <==> AllAllocatedUnreserved(s.flags, base, n)
  {
    FreeCounts(s, base, n);
  }
}
