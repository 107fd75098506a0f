/** The plain-C bit operations of libs/atomic.h on one 64-bit word. */
module Bits {
  function BitMask(nr: bv6): bv64 {
    1 << nr
  }

  function SetBit(nr: bv6, w: bv64): bv64 {
    w | BitMask(nr)
  }

  function ClearBit(nr: bv6, w: bv64): bv64 {
    w & !BitMask(nr)
  }

  predicate TestBit(nr: bv6, w: bv64) {
    (w >> nr) & 1 == 1
  }

  // The allocator only uses bits 0 and 1.

  lemma SetBitReads(nr: bv6, k: bv6, w: bv64)
    requires nr <= 1 && k <= 1
    ensures TestBit(k, SetBit(nr, w)) == (k == nr || TestBit(k, w))
  {
    if nr == 0 && k == 0 {
    } else if nr == 0 && k == 1 {
    } else if nr == 1 && k == 0 {
    } else {
    }
  }

  lemma ClearBitReads(nr: bv6, k: bv6, w: bv64)
    requires nr <= 1 && k <= 1
    ensures TestBit(k, ClearBit(nr, w)) == (k != nr && TestBit(k, w))
  {
    if nr == 0 && k == 0 {
    } else if nr == 0 && k == 1 {
    } else if nr == 1 && k == 0 {
    } else {
    }
  }

  lemma ClearUndoesSet(nr: bv6, w: bv64)
    requires nr <= 1 && !TestBit(nr, w)
    ensures ClearBit(nr, SetBit(nr, w)) == w
  {
    if nr == 0 {
    } else {
    }
  }
}
