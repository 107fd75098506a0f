/** 64-bit machine words as the allocator uses them: `size_t` arithmetic that wraps
    modulo 2^64, and the two flag bits of a page descriptor. */
module Words {
  import opened Bits

  const TWO64: int := 0x1_0000_0000_0000_0000

  const TWO63: int := 0x8000_0000_0000_0000
  const TWO32: int := 0x1_0000_0000
  const TWO31: int := 0x8000_0000

  /** `size_t` and `uint64_t`. */
  type u64 = x: int | 0 <= x < TWO64

  /** `unsigned int`. */
  type u32 = x: int | 0 <= x < TWO32

  /** `int`. */
  type int32 = x: int | -TWO31 <= x < TWO31

  const NULLPAGE: u64 := 0x23333333

  // Sums, differences and products of unsigned words wrap.

  function Add64(a: u64, b: u64): (r: u64)
    ensures r == (a + b) % TWO64
  {
    if a + b < TWO64 then a + b else a + b - TWO64
  }

  function Sub64(a: u64, b: u64): (r: u64)
    ensures r == (a - b) % TWO64
  {
    if b <= a then a - b else a - b + TWO64
  }

  function Add32(a: u32, b: u32): (r: u32)
    ensures r == (a + b) % TWO32
  {
    if a + b < TWO32 then a + b else a + b - TWO32
  }

  function Mul64(a: u64, b: u64): u64 {
    (a * b) % TWO64
  }

  // ----- Page flags (kern/mm/memlayout.h) -----

  const PG_RESERVED: bv6 := 0
  const PG_ALLOCATED: bv6 := 1

  predicate Reserved(w: bv64) {
    TestBit(PG_RESERVED, w)
  }

  predicate Allocated(w: bv64) {
    TestBit(PG_ALLOCATED, w)
  }

  predicate Unreserved(w: bv64) {
    !Reserved(w)
  }

  predicate Available(w: bv64) {
    !Reserved(w) && !Allocated(w)
  }
}
