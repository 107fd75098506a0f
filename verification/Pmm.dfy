/** The page allocator as the kernel runs it: an array of flag words and the globals of
    pmm.c, updated in place (kern/mm/default_pmm.c, kern/mm/pmm.c). */
module Pmm {
  import opened Bits
  import opened Words
  import opened Counting
  import opened Layout
  import opened Conservation
  import opened Algebra
  import opened BootSpec
  import opened SelfCheck
  import Spec = PageSpec

  class PageAllocator {
    const pages: array<bv64>
    var nrFree: u64
    var npage: u64
    var nbase: u64
    var vaPaOffset: u64

    /** `NPAGE` is `pages.Length`. */
    constructor (count: u64)
      requires 0 < count <= NULLPAGE
      ensures Valid() && fresh(pages) && pages.Length == count
    {
      pages := new bv64[count];
    }

    ghost predicate Valid() {
      0 < pages.Length <= NULLPAGE
    }

    ghost function Abs(): Spec.State
      reads this, pages
    {
      Spec.State(pages[..], nrFree)
    }

    // ----- The flag macros of memlayout.h -----

    method SetFlag(nr: bv6, p: u64)
      requires p < pages.Length
      modifies pages
      ensures pages[..] == old(pages[..])[p := SetBit(nr, old(pages[p]))]
    {
      pages[p] := pages[p] | BitMask(nr);
    }

    method ClearFlag(nr: bv6, p: u64)
      requires p < pages.Length
      modifies pages
      ensures pages[..] == old(pages[..])[p := ClearBit(nr, old(pages[p]))]
    {
      pages[p] := pages[p] & !BitMask(nr);
    }

    /** The loop over all pages that sets bit `nr` of the pages in `[base, base + n)`. */
    method SetFlags(nr: bv6, base: u64, n: u64)
      requires Valid()
      requires base + n < TWO64
      modifies pages
      ensures pages[..] == Spec.SetRange(nr, old(pages[..]), base, n)
    {
      var p := 0;
      while p < pages.Length
        invariant p <= pages.Length
        invariant forall i :: 0 <= i < p ==>
          pages[i] == (if Spec.InRange(i, base, n) then SetBit(nr, old(pages[i])) else old(pages[i]))
        invariant forall i :: p <= i < pages.Length ==> pages[i] == old(pages[i])
      {
        if p >= base && p < Add64(base, n) {
          SetFlag(nr, p);
        }
        p := p + 1;
      }
    }

    method ClearFlags(nr: bv6, base: u64, n: u64)
      requires Valid()
      requires base + n < TWO64
      modifies pages
      ensures pages[..] == Spec.ClearRange(nr, old(pages[..]), base, n)
    {
      var p := 0;
      while p < pages.Length
        invariant p <= pages.Length
        invariant forall i :: 0 <= i < p ==>
          pages[i] == (if Spec.InRange(i, base, n) then ClearBit(nr, old(pages[i])) else old(pages[i]))
        invariant forall i :: p <= i < pages.Length ==> pages[i] == old(pages[i])
      {
        if base <= p && p < Add64(base, n) {
          ClearFlag(nr, p);
        }
        p := p + 1;
      }
    }

    // ----- default_pmm.c -----

    method DefaultInit()
      modifies `nrFree
      ensures nrFree == 0
    {
      nrFree := 0;
    }

    method InitMemmap(base: u64, n: u64) returns (ret: u64)
      requires Valid()
      modifies `nrFree, pages
      ensures ret == Spec.InitStatus(old(Abs()), base, n)
      ensures Abs() == Spec.InitMemmap(old(Abs()), base, n)
    {
      if !(n > 0) { return 1; }
      if !(n <= pages.Length) { return 2; }
      if !(base <= pages.Length) { return 3; }
      if !(Add64(base, n) <= pages.Length) { return 4; }
      var p := 0;
      while p < pages.Length
        invariant p <= pages.Length
        invariant forall i :: 0 <= i < p && Spec.InRange(i, base, n) ==> Reserved(pages[i])
      {
        if base <= p && p < Add64(base, n) {
          if !Reserved(pages[p]) {
            return 5;
          }
        }
        p := p + 1;
      }
      p := 0;
      while p < pages.Length
        invariant p <= pages.Length
        invariant forall i :: 0 <= i < p && Spec.InRange(i, base, n) ==> !Allocated(pages[i])
      {
        if base <= p && p < Add64(base, n) {
          if Allocated(pages[p]) {
            return 6;
          }
        }
        p := p + 1;
      }
      ClearFlags(PG_RESERVED, base, n);
      nrFree := Add64(nrFree, n);
      return 0;
    }

    /** The one-pass scan refines the accumulator recursion of the specification. */
    method AllocPages(n: u64) returns (page: u64)
      requires Valid()
      modifies `nrFree, pages
      ensures page == Spec.AllocResult(old(Abs()), n)
      ensures Abs() == Spec.AllocPages(old(Abs()), n)
    {
      if !(n > 0) { return NULLPAGE; }
      if !(n <= pages.Length) { return NULLPAGE; }
      page := NULLPAGE;
      var firstUsable := 0;
      var p := 0;
      Spec.FindIsFirstFit(pages[..], n);
      while p < pages.Length
        invariant firstUsable <= p <= pages.Length && p - firstUsable < n
        invariant Spec.FindFreePages(pages[..], n)
          == Spec.FindFrom(pages[..], n, p, p - firstUsable, if firstUsable < p then firstUsable else 0)
      {
        if Reserved(pages[p]) || Allocated(pages[p]) {
          firstUsable := p + 1;
        } else {
          if p - firstUsable + 1 == n {
            page := firstUsable;
            break;
          }
        }
        p := p + 1;
      }
      if page != NULLPAGE {
        SetFlags(PG_ALLOCATED, page, n);
        nrFree := Sub64(nrFree, n);
      }
    }

    method FreePages(base: u64, n: u64)
      requires Valid()
      modifies `nrFree, pages
      ensures Abs() == Spec.FreePages(old(Abs()), base, n)
    {
      if base >= pages.Length { return; }
      if n == 0 { return; }
      if n > pages.Length { return; }
      if Add64(base, n) > pages.Length { return; }
      ClearFlags(PG_ALLOCATED, base, n);
      nrFree := Add64(nrFree, n);
    }

    /** The two counting loops of default_check: unreserved pages, and available ones. */
    method CountPages() returns (notReserved: u64, notAllocated: u64)
      requires Valid()
      ensures notReserved == Unreserveds(Abs()) && notAllocated == Availables(Abs())
    {
      notReserved, notAllocated := 0, 0;
      var p := 0;
      while p < pages.Length
        invariant p <= pages.Length
        invariant notReserved == Count(Unreserved, pages[..], 0, p)
        invariant notAllocated == Count(Available, pages[..], 0, p)
      {
        CountSplit(Unreserved, pages[..], 0, p, p + 1);
        CountSplit(Available, pages[..], 0, p, p + 1);
        if !Reserved(pages[p]) {
          notReserved := notReserved + 1;
          if !Allocated(pages[p]) {
            notAllocated := notAllocated + 1;
          }
        }
        p := p + 1;
      }
    }

    /** The address assertion of basic_check, which holds of every managed page. */
    method AddressBelowEnd(p: u64) returns (ok: bool)
      requires Valid() && nbase == NBASE && npage == NBASE + pages.Length
      requires p < pages.Length
      ensures ok
    {
      PageBelowMemEnd(pages.Length, p);
      ok := Page2pa(nbase, p) < Mul64(npage, PGSIZE);
    }

    /** `ok` is false when an assertion of the check fails, which panics.  It passes
        exactly when three pages are available, and then leaves no trace. */
    method BasicCheck() returns (ok: bool)
      requires Valid() && nbase == NBASE && npage == NBASE + pages.Length
      modifies `nrFree, pages
      ensures ok <==> Availables(old(Abs())) >= 3
      ensures ok ==> Abs() == old(Abs())
    {
      ThreeSingles(Abs());
      var p0 := AllocPages(1);
      if p0 == NULLPAGE { return false; }
      var p1 := AllocPages(1);
      if p1 == NULLPAGE { return false; }
      var p2 := AllocPages(1);
      if p2 == NULLPAGE { return false; }
      if !(p0 != p1 && p0 != p2 && p1 != p2) { return false; }
      var a0 := AddressBelowEnd(p0);
      var a1 := AddressBelowEnd(p1);
      var a2 := AddressBelowEnd(p2);
      if !(a0 && a1 && a2) { return false; }
      FreePages(p0, 1);
      FreePages(p1, 1);
      FreePages(p2, 1);
      return true;
    }

    /** The check passes exactly when the counter is right and five pages in a row are
        available, and then every flag word and the counter are as before. */
    method DefaultCheck() returns (ok: bool)
      requires Valid() && nbase == NBASE && npage == NBASE + pages.Length
      modifies `nrFree, pages
      ensures ok <==> NrFreeEq(old(Abs())) && Spec.Choice(old(Abs()), 5).Some?
      ensures ok ==> Abs() == old(Abs())
    {
      ghost var s := Abs();
      var notReserved, notAllocated := CountPages();
      if notAllocated != nrFree { return false; }
      if Spec.Choice(s, 5).Some? {
        FiveGivesThree(s);
        AllocatedPageIsAllocated(s, 5);
        AllocThenFree(s, 5);
        AllocCounts(s, 5);
      }
      var basic := BasicCheck();
      if !basic { return false; }
      var p0 := AllocPages(5);
      if p0 == NULLPAGE { return false; }
      if !Allocated(pages[p0]) { return false; }
      FreePages(p0, 5);
      var r, a := CountPages();
      notReserved := Sub64(notReserved, r);
      notAllocated := Sub64(notAllocated, a);
      if notReserved != 0 { return false; }
      if notAllocated != 0 { return false; }
      return true;
    }

    // ----- pmm.c -----

    /** `ok` is false when the code panics: on an image end below `KERNBASE`, and when the
        image ends inside the last page, where pa2page rejects the end of memory. */
    method PageInit(end: u64) returns (ok: bool)
      requires Valid() && MacrosDefined(pages.Length)
      modifies this, pages
      ensures ok <==> KERNBASE <= end && !EndsInLastPage(pages.Length, end)
      ensures ok ==> nbase == NBASE && npage == NBASE + pages.Length
      ensures ok ==> pages[..] == BootFlags(pages.Length, end)
      ensures ok ==> nrFree == Add64(old(nrFree), FreePageCount(pages.Length, end))
    {
      vaPaOffset := PHYSICAL_MEMORY_OFFSET;
      nbase := NBASE;
      npage := NBASE + pages.Length;
      var memEnd: u64 := MemEnd(pages.Length);
      ReserveAll();
      if end < KERNBASE { return false; }
      var freemem := Sub64(end, vaPaOffset);
      var memBegin := RoundUp(freemem, PGSIZE);
      memEnd := RoundDown(memEnd, PGSIZE);
      var limit: u64 := Mul64(npage, PGSIZE);
      if memEnd > limit {
        memEnd := limit;
      }
      MemEndIsAligned(pages.Length);
      if freemem < memEnd {
        StartsBelowEnd(pages.Length, end);
        ok := InitFreeMemory(memBegin, memEnd, end);
      } else {
        NoneFree(pages.Length, end);
        ok := true;
      }
    }

    /** The call of init_memmap in page_init, with its panics. */
    method InitFreeMemory(memBegin: u64, memEnd: u64, ghost end: u64) returns (ok: bool)
      requires Valid() && nbase == NBASE && npage == NBASE + pages.Length
      requires MacrosDefined(pages.Length) && MemoryFits(pages.Length)
      requires KERNBASE <= end && memBegin == MemBegin(end) && memEnd == MemEnd(pages.Length)
      requires pages[..] == seq(pages.Length, _ => 1)
      modifies `nrFree, pages
      ensures ok <==> memBegin < memEnd
      ensures ok ==> pages[..] == BootFlags(pages.Length, end)
      ensures ok ==> nrFree == Add64(old(nrFree), FreePageCount(pages.Length, end))
    {
      LastPagePanics(pages.Length, end);
      if Pa2pagePanics(npage, memBegin) { return false; }
      InitAllAbove(pages.Length, end, nrFree);
      ghost var s := Abs();
      assert s.flags == seq(pages.Length, _ => 1);
      var base := Pa2page(nbase, memBegin);
      var n := Sub64(memEnd, memBegin) / PGSIZE;
      var ret := InitMemmap(base, n);
      ok := ret == 0;
    }

    /** The flag loop of page_init: clear every flag, then reserve the page. */
    method ReserveAll()
      requires Valid()
      modifies pages
      ensures pages[..] == seq(pages.Length, _ => 1)
    {
      var i := 0;
      while i < pages.Length
        invariant i <= pages.Length
        invariant forall j :: 0 <= j < i ==> pages[j] == 1
      {
        pages[i] := 0;
        SetFlag(PG_RESERVED, i);
        OneIsReserved();
        i := i + 1;
      }
    }

    /** The boot sequence of pmm_init fails no assertion exactly when the image ends in
        kernel space with at least five free pages above it, and then memory is left with
        precisely the pages above the image available. */
    method PmmInit(end: u64) returns (ok: bool)
      requires Valid() && MacrosDefined(pages.Length)
      modifies this, pages
      ensures ok <==> KERNBASE <= end && FreePageCount(pages.Length, end) >= 5
      ensures ok ==> Abs() == BootState(pages.Length, end)
    {
      DefaultInit();
      var booted := PageInit(end);
      if !booted { return false; }
      BootStateServes(pages.Length, end, 5);
      ok := DefaultCheck();
    }
  }
}
