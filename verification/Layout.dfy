/** Physical memory layout and the address arithmetic of the page allocator
    (libs/defs.h, kern/mm/mmu.h, kern/mm/memlayout.h, kern/mm/pmm.h). */
module Layout {
  import opened Arithmetic
  import opened Words

  const PGSIZE: u32 := 4096
  const KERNEL_BEGIN_PADDR: u32 := 0x8020_0000
  const PHYSICAL_MEMORY_OFFSET: u64 := 0xFFFF_FFFF_4000_0000
  const KERNBASE: u64 := KERNEL_BEGIN_PADDR + PHYSICAL_MEMORY_OFFSET
  const NBASE: u32 := KERNEL_BEGIN_PADDR / PGSIZE

  /** `KMEMSIZE` is the product of two `int` constants, which must not overflow. */
  predicate MacrosDefined(count: u64) {
    0 < count && count * PGSIZE < TWO31
  }

  /** `KERNEL_MEMEND_PADDR` when the kernel manages `count` pages: an `unsigned int`. */
  function MemEnd(count: u64): u32
    requires MacrosDefined(count)
  {
    Add32(KERNEL_BEGIN_PADDR, count * PGSIZE)
  }

  /** The end of memory did not wrap. */
  predicate MemoryFits(count: u64) {
    KERNEL_BEGIN_PADDR + count * PGSIZE < TWO32
  }

  function RoundDown(a: u64, n: u64): u64
    requires 0 < n
  {
    a - a % n
  }

  function RoundUp(a: u64, n: u64): u64
    requires 0 < n
  {
    RoundDown(Sub64(Add64(a, n), 1), n)
  }

  /** The translation of `PADDR`; it panics on an address below `KERNBASE`. */
  function Paddr(kva: u64): u64 {
    Sub64(kva, PHYSICAL_MEMORY_OFFSET)
  }

  function Ppn(la: u64): u64 {
    la / PGSIZE
  }

  function Page2pa(nbase: u64, page: u64): u64 {
    Mul64(Add64(page, nbase), PGSIZE)
  }

  /** `pa2page` panics when this holds. */
  predicate Pa2pagePanics(npage: u64, pa: u64) {
    Ppn(pa) >= npage
  }

  function Pa2page(nbase: u64, pa: u64): u64 {
    Sub64(Ppn(pa), nbase)
  }

  /** `ROUNDUP` is the least multiple not below its argument, unless the sum inside it wraps;
      then its result is below the argument. */
  lemma RoundUpIsLeast(a: u64, n: u64, j: nat) returns (q: nat)
    requires 0 < n
    ensures RoundUp(a, n) == n * q
    ensures a <= RoundUp(a, n) <==> a + n - 1 < TWO64
    ensures a + n - 1 < TWO64 && a <= n * j ==> RoundUp(a, n) <= n * j
  {
    var x := Sub64(Add64(a, n), 1);
    q := x / n;
    DivMod(x, n);
    if a + n - 1 < TWO64 && a <= n * j {
      Expand(n, j);
      MulBelow(n, q, j + 1);
    }
  }

  /** To the page size it is the least page boundary not below its argument. */
  lemma PageRoundUp(a: u64, m: nat)
    requires a + PGSIZE < TWO64
    ensures var r := RoundUp(a, PGSIZE);
      && r % PGSIZE == 0 && a <= r
      && (m % PGSIZE == 0 && a <= m ==> r <= m)
  {
    var x, k := a + 4095, (a + 4095) / 4096;
    assert x - x % 4096 == 4096 * k;
    assert (4096 * k) % 4096 == 0;
    if m % 4096 == 0 && a <= m {
      var j := m / 4096;
      assert m == 4096 * j;
      assert k <= j;
    }
  }

  /** `pa2page` undoes `page2pa` on the managed pages, and nothing wraps. */
  lemma PageOfAddressOf(count: u64, page: u64)
    requires page < count <= NULLPAGE
    ensures Page2pa(NBASE, page) == KERNEL_BEGIN_PADDR + page * PGSIZE
    ensures !Pa2pagePanics(NBASE + count, Page2pa(NBASE, page))
    ensures Pa2page(NBASE, Page2pa(NBASE, page)) == page
  {
    assert Ppn(KERNEL_BEGIN_PADDR + page * PGSIZE) == NBASE + page;
  }

  /** `page2pa` undoes `pa2page` on the page-aligned addresses of the managed memory. */
  lemma AddressOfPageOf(count: u64, pa: u64)
    requires 0 < count <= NULLPAGE
    requires KERNEL_BEGIN_PADDR <= pa < KERNEL_BEGIN_PADDR + count * PGSIZE && pa % PGSIZE == 0
    ensures !Pa2pagePanics(NBASE + count, pa)
    ensures Pa2page(NBASE, pa) < count
    ensures Page2pa(NBASE, Pa2page(NBASE, pa)) == pa
  {
    assert NBASE <= Ppn(pa) < NBASE + count;
  }

  /** Addresses from `KERNBASE` up translate without wrapping. */
  lemma PaddrRange(end: u64)
    requires KERNBASE <= end
    ensures Paddr(end) == end - PHYSICAL_MEMORY_OFFSET
    ensures KERNEL_BEGIN_PADDR <= Paddr(end) < 0xC000_0000
  {
  }
}
