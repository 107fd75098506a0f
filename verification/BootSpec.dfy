/** What the boot path leaves behind, in terms of the address where the kernel image ends
    (kern/mm/pmm.c, page_init). */
module BootSpec {
  import opened Words
  import opened Counting
  import opened PageSpec
  import opened Conservation
  import opened Layout

  /** First page boundary at or above the end of the kernel image. */
  function MemBegin(end: u64): u64 {
    RoundUp(Paddr(end), PGSIZE)
  }

  /** The image ends inside the last managed page: there is free memory, but no free page
      starts in it. */
  predicate EndsInLastPage(count: u64, end: u64)
    requires MacrosDefined(count)
  {
    Paddr(end) < MemEnd(count) <= MemBegin(end)
  }

  /** Every page between the image and the end of memory is available, the others reserved. */
  function BootFlags(count: u64, end: u64): seq<bv64>
    requires MacrosDefined(count)
  {
    seq(count, p requires 0 <= p < count =>
      if Paddr(end) <= Page2pa(NBASE, p) < MemEnd(count) then 0 else 1)
  }

  function FreePageCount(count: u64, end: u64): nat
    requires MacrosDefined(count)
  {
    if MemBegin(end) < MemEnd(count) then (MemEnd(count) - MemBegin(end)) / PGSIZE else 0
  }

  function BootState(count: u64, end: u64): State
    requires MacrosDefined(count)
  {
    State(BootFlags(count, end), FreePageCount(count, end))
  }

  // ----- The end of memory -----

  /** A wrapped end of memory lies below the kernel, so that nothing is free. */
  lemma WrappedEndIsLow(count: u64, end: u64)
    requires MacrosDefined(count) && KERNBASE <= end && !MemoryFits(count)
    ensures MemEnd(count) < KERNEL_BEGIN_PADDR <= Paddr(end)
    ensures FreePageCount(count, end) == 0
    ensures BootFlags(count, end) == seq(count, _ => 1)
  {
    NoneFree(count, end);
  }

  /** The end of memory as page_init computes it. */
  lemma MemEndIsAligned(count: u64)
    requires MacrosDefined(count)
    ensures RoundDown(MemEnd(count), PGSIZE) == MemEnd(count) <= Mul64(NBASE + count, PGSIZE)
    ensures Mul64(NBASE + count, PGSIZE) == KERNEL_BEGIN_PADDR + count * PGSIZE
  {
    assert KERNEL_BEGIN_PADDR + count * 4096 == 4096 * (NBASE + count);
    if !MemoryFits(count) {
      assert MemEnd(count) == 4096 * (NBASE + count - 0x10_0000);
    }
  }

  lemma PageBelowMemEnd(count: u64, page: u64)
    requires page < count <= NULLPAGE
    ensures Page2pa(NBASE, page) < Mul64(NBASE + count, PGSIZE)
  {
    PageOfAddressOf(count, page);
  }

  // ----- The first free page -----

  /** Number of pages below the first free boundary. */
  function FirstFree(end: u64): nat
    requires KERNBASE <= end
  {
    PaddrRange(end);
    PageRoundUp(Paddr(end), KERNEL_BEGIN_PADDR);
    (MemBegin(end) - KERNEL_BEGIN_PADDR) / PGSIZE
  }

  lemma FirstFreeIsAddress(count: u64, end: u64)
    requires MacrosDefined(count) && MemoryFits(count) && KERNBASE <= end
    ensures MemBegin(end) == KERNEL_BEGIN_PADDR + FirstFree(end) * PGSIZE
    ensures MemEnd(count) == KERNEL_BEGIN_PADDR + count * PGSIZE
    ensures FirstFree(end) < count <==> MemBegin(end) < MemEnd(count)
    ensures FreePageCount(count, end) == if FirstFree(end) < count then count - FirstFree(end) else 0
  {
    PaddrRange(end);
    PageRoundUp(Paddr(end), KERNEL_BEGIN_PADDR);
    var k := MemBegin(end) / 4096;
    assert MemBegin(end) == 4096 * k;
    assert MemBegin(end) - KERNEL_BEGIN_PADDR == 4096 * (k - NBASE);
  }

  /** A page is free after boot exactly from the first boundary above the image on. */
  lemma FreeFromFirst(count: u64, end: u64, p: u64)
    requires MacrosDefined(count) && MemoryFits(count) && p < count && KERNBASE <= end
    ensures Page2pa(NBASE, p) < MemEnd(count)
    ensures Page2pa(NBASE, p) >= Paddr(end) <==> FirstFree(end) <= p
  {
    PaddrRange(end);
    PageOfAddressOf(count, p);
    FirstFreeIsAddress(count, end);
    var a := Page2pa(NBASE, p);
    assert a % PGSIZE == 0 by {
      assert a == 4096 * (NBASE + p);
    }
    PageRoundUp(Paddr(end), a);
  }

  /** After boot no page is allocated.  If the end of memory did not wrap, a page is
      unreserved exactly when its address is at or above the image's end, which is from the
      first boundary on; if it did, every page stays reserved. */
  lemma BootFlagReads(count: u64, end: u64, p: u64)
    requires MacrosDefined(count) && KERNBASE <= end && p < count
    ensures !Allocated(BootFlags(count, end)[p])
    ensures MemoryFits(count) ==>
      && (Unreserved(BootFlags(count, end)[p]) <==> Page2pa(NBASE, p) >= Paddr(end))
      && (Unreserved(BootFlags(count, end)[p]) <==> FirstFree(end) <= p)
    ensures !MemoryFits(count) ==> Reserved(BootFlags(count, end)[p])
  {
    OneIsReserved();
    ZeroIsAvailable();
    if MemoryFits(count) {
      FreeFromFirst(count, end, p);
    } else {
      WrappedEndIsLow(count, end);
    }
  }

  /** After boot the counter is right, and a request of `n` pages succeeds exactly when
      `n` pages are free: the free pages are one block. */
  lemma BootStateServes(count: u64, end: u64, n: u64)
    requires MacrosDefined(count) && KERNBASE <= end && 0 < n
    ensures NrFreeEq(BootState(count, end))
    ensures Choice(BootState(count, end), n).Some? <==> n <= FreePageCount(count, end)
  {
    var s := BootState(count, end);
    BootCount(count, end);
    FindIsFirstFit(s.flags, n);
    if n <= FreePageCount(count, end) {
      BootBlockIsFree(count, end);
      assert FreeRun(s.flags, FirstFree(end), n);
    } else if Choice(s, n).Some? {
      AllocCounts(s, n);
    }
  }

  lemma BootBlockIsFree(count: u64, end: u64)
    requires MacrosDefined(count) && KERNBASE <= end && FreePageCount(count, end) > 0
    ensures MemoryFits(count)
    ensures FreeRun(BootFlags(count, end), FirstFree(end), FreePageCount(count, end))
  {
    if !MemoryFits(count) {
      WrappedEndIsLow(count, end);
    }
    FirstFreeIsAddress(count, end);
    forall p | FirstFree(end) <= p < count
      ensures Available(BootFlags(count, end)[p])
    {
      BootFlagReads(count, end, p);
    }
  }

  lemma BootCount(count: u64, end: u64)
    requires MacrosDefined(count) && KERNBASE <= end
    ensures Availables(BootState(count, end)) == FreePageCount(count, end)
  {
    var flags := BootFlags(count, end);
    var k := count - BoundedFreePageCount(count, end);
    forall p: nat | p < k
      ensures !Available(flags[p])
    {
      BootFlagReads(count, end, p);
    }
    CountSplit(Available, flags, 0, k, count);
    CountNone(Available, flags, 0, k);
    CountAll(Available, flags, k, count);
    if FreePageCount(count, end) > 0 {
      BootBlockIsFree(count, end);
      FirstFreeIsAddress(count, end);
    }
  }

  /** `FreePageCount`, known not to exceed the number of pages. */
  function BoundedFreePageCount(count: u64, end: u64): (r: nat)
    requires MacrosDefined(count) && KERNBASE <= end
    ensures r == FreePageCount(count, end) <= count
    ensures MemoryFits(count) ==> count - r == if FirstFree(end) < count then FirstFree(end) else count
  {
    if MemoryFits(count) then
      FirstFreeIsAddress(count, end);
      FreePageCount(count, end)
    else
      WrappedEndIsLow(count, end);
      0
  }

  // ----- The calls of page_init -----

  /** `init_memmap` of the free block turns the all-reserved array into the boot state. */
  lemma InitAllAbove(count: u64, end: u64, nr: u64)
    requires MacrosDefined(count) && KERNBASE <= end && MemBegin(end) < MemEnd(count)
    ensures var s := State(seq(count, _ => 1), nr);
      var base := Pa2page(NBASE, MemBegin(end));
      var n := Sub64(MemEnd(count), MemBegin(end)) / PGSIZE;
      && InitStatus(s, base, n) == 0
      && InitMemmap(s, base, n) == State(BootFlags(count, end), Add64(nr, FreePageCount(count, end)))
  {
    StartsBelowEnd(count, end);
    InitArguments(count, end);
    FirstFreeIsAddress(count, end);
    InitFromFirst(count, end, nr);
  }

  lemma StartsBelowEnd(count: u64, end: u64)
    requires MacrosDefined(count) && KERNBASE <= end
    requires Paddr(end) < MemEnd(count) || MemBegin(end) < MemEnd(count)
    ensures MemoryFits(count)
  {
    PaddrRange(end);
    PageRoundUp(Paddr(end), 0);
  }

  lemma InitFromFirst(count: u64, end: u64, nr: u64)
    requires MacrosDefined(count) && MemoryFits(count) && KERNBASE <= end && FirstFree(end) < count
    ensures var s := State(seq(count, _ => 1), nr);
      var k := FirstFree(end);
      && InitStatus(s, k, count - k) == 0
      && InitMemmap(s, k, count - k) == State(BootFlags(count, end), Add64(nr, count - k))
  {
    OneIsReserved();
    var flags, k := seq(count, _ => 1), FirstFree(end);
    forall p | 0 <= p < count
      ensures ClearRange(PG_RESERVED, flags, k, count - k)[p] == BootFlags(count, end)[p]
    {
      FreeFromFirst(count, end, p);
    }
    assert ClearRange(PG_RESERVED, flags, k, count - k) == BootFlags(count, end);
  }

  lemma NoneFree(count: u64, end: u64)
    requires MacrosDefined(count) && KERNBASE <= end && MemEnd(count) <= Paddr(end)
    ensures BootFlags(count, end) == seq(count, _ => 1)
    ensures FreePageCount(count, end) == 0
  {
    PaddrRange(end);
    PageRoundUp(Paddr(end), 0);
  }

  /** pa2page rejects the first free boundary exactly when it is the end of memory. */
  lemma LastPagePanics(count: u64, end: u64)
    requires MacrosDefined(count) && MemoryFits(count) && KERNBASE <= end
    ensures Pa2pagePanics(NBASE + count, MemBegin(end)) <==> MemEnd(count) <= MemBegin(end)
  {
    FirstFreeIsAddress(count, end);
    assert Ppn(MemBegin(end)) == NBASE + FirstFree(end) by {
      assert MemBegin(end) == 4096 * (NBASE + FirstFree(end));
    }
  }

  /** The arguments page_init passes to init_memmap. */
  lemma InitArguments(count: u64, end: u64)
    requires MacrosDefined(count) && MemoryFits(count)
    requires KERNBASE <= end && MemBegin(end) < MemEnd(count)
    ensures Pa2page(NBASE, MemBegin(end)) == FirstFree(end)
    ensures Sub64(MemEnd(count), MemBegin(end)) / PGSIZE == count - FirstFree(end)
  {
    FirstFreeIsAddress(count, end);
    assert Ppn(MemBegin(end)) == NBASE + FirstFree(end) by {
      assert MemBegin(end) == 4096 * (NBASE + FirstFree(end));
    }
  }

  // ----- Inputs on which the two conditions fail -----

  /** The image ends in the last page exactly when it ends strictly between that page's
      start and the end of memory ... */
  lemma EndsInLastPageIff(count: u64, end: u64)
    requires MacrosDefined(count) && KERNBASE <= end
    ensures EndsInLastPage(count, end) <==> MemEnd(count) - PGSIZE < Paddr(end) < MemEnd(count)
  {
    PaddrRange(end);
    MemEndIsAligned(count);
    var e := MemEnd(count);
    assert e % PGSIZE == 0;
    PageRoundUp(Paddr(end), e);
    if e >= PGSIZE {
      PageRoundUp(Paddr(end), e - PGSIZE);
    }
  }

  /** ... for instance one byte before the end of memory. */
  lemma SomeImageEndsInLastPage(count: u64)
    requires 0 < count && KERNBASE + count * PGSIZE < TWO64
    ensures MacrosDefined(count) && EndsInLastPage(count, KERNBASE + count * PGSIZE - 1)
  {
    EndsInLastPageIff(count, KERNBASE + count * PGSIZE - 1);
  }

  /** Right after boot a free of a page that nobody allocated breaks the counter. */
  lemma StrayFreeAfterBoot(count: u64, end: u64)
    requires MacrosDefined(count) && KERNBASE <= end && FreePageCount(count, end) > 0
    ensures var s := BootState(count, end);
      && FirstFree(end) < count && NrFreeEq(s) && FreeAccepted(s, FirstFree(end), 1)
      && !NrFreeEq(FreePages(s, FirstFree(end), 1))
  {
    var s := BootState(count, end);
    BootStateServes(count, end, 1);
    BootBlockIsFree(count, end);
    FirstFreeIsAddress(count, end);
    FreeKeepsCounterIff(s, FirstFree(end), 1);
    assert Available(s.flags[FirstFree(end)]);
  }
}
