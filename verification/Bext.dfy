/** The bit-extract loop of racket/test/bext.c: on sequences of bits for any word width, and
    with the C operators on 32-bit words. */
module Bext {
  import opened Arithmetic

  /** How many bits are set below position `i`. */
  function Rank(m: seq<bool>, i: nat): (r: nat)
    requires i <= |m|
    ensures r <= i
  {
    if i == 0 then 0 else Rank(m, i - 1) + if m[i - 1] then 1 else 0
  }

  function PopCount(m: seq<bool>): nat {
    Rank(m, |m|)
  }

  /** The position of the `k`-th set bit. */
  function Select(m: seq<bool>, k: nat): (p: nat)
    requires k < PopCount(m)
    ensures p < |m| && m[p] && Rank(m, p) == k
  {
    SelectFrom(m, k, |m|)
  }

  function SelectFrom(m: seq<bool>, k: nat, i: nat): (p: nat)
    requires i <= |m| && k < Rank(m, i)
    ensures p < i && m[p] && Rank(m, p) == k
  {
    if m[i - 1] && Rank(m, i - 1) == k then i - 1 else SelectFrom(m, k, i - 1)
  }

  lemma {:induction false} RankMonotone(m: seq<bool>, i: nat, j: nat)
    requires i <= j <= |m|
    ensures Rank(m, i) <= Rank(m, j)
    ensures i < j && m[i] ==> Rank(m, i) < Rank(m, j)
    decreases j
  {
    if i < j {
      RankMonotone(m, i, j - 1);
    }
  }

  /** Rank and Select are inverse on set bits. */
  lemma SelectRank(m: seq<bool>, p: nat)
    requires p < |m| && m[p]
    ensures Rank(m, p) < PopCount(m) && Select(m, Rank(m, p)) == p
  {
    RankMonotone(m, p, |m|);
    var q := Select(m, Rank(m, p));
    if q < p {
      RankMonotone(m, q, p);
    } else if p < q {
      RankMonotone(m, p, q);
    }
  }

  /** The bits of `x` at the set positions of `m`, packed to the low end, zeros above. */
  function Extract(x: seq<bool>, m: seq<bool>): (r: seq<bool>)
    requires |x| == |m|
  {
    seq(|m|, k requires 0 <= k < |m| => k < PopCount(m) && x[Select(m, k)])
  }

  /** The result of the loop before bit `i`: the selected bits below `i`, then zeros. */
  ghost predicate ExtractedSoFar(r: seq<bool>, x: seq<bool>, m: seq<bool>, i: nat)
    requires |x| == |m| && i <= |m|
  {
    && |r| == |m|
    && (forall p :: 0 <= p < i && m[p] ==> Rank(m, p) < Rank(m, i) && r[Rank(m, p)] == x[p])
    && (forall k :: Rank(m, i) <= k < |r| ==> !r[k])
  }

  lemma TakeBit(r: seq<bool>, x: seq<bool>, m: seq<bool>, i: nat)
    requires |x| == |m| && i < |m| && ExtractedSoFar(r, x, m, i) && m[i] && Rank(m, i) < |r|
    ensures ExtractedSoFar(r[Rank(m, i) := x[i]], x, m, i + 1)
  {
    forall p | 0 <= p < i && m[p]
      ensures r[Rank(m, i) := x[i]][Rank(m, p)] == x[p]
    {
      assert Rank(m, p) < Rank(m, i);
    }
  }

  lemma ExtractStep(r: seq<bool>, x: seq<bool>, m: seq<bool>, i: nat)
    requires |x| == |m| && i < |m| && ExtractedSoFar(r, x, m, i)
    ensures m[i] ==> Rank(m, i) < |r|
    ensures ExtractedSoFar(if m[i] && x[i] then r[Rank(m, i) := true] else r, x, m, i + 1)
  {
    if m[i] {
      RankMonotone(m, i, |m|);
      TakeBit(r, x, m, i);
      assert !x[i] ==> r[Rank(m, i) := x[i]] == r;
    }
  }

  lemma ExtractDone(r: seq<bool>, x: seq<bool>, m: seq<bool>)
    requires |x| == |m| && ExtractedSoFar(r, x, m, |m|)
    ensures r == Extract(x, m)
  {
    forall k | 0 <= k < |r|
      ensures r[k] == (k < PopCount(m) && x[Select(m, k)])
    {
      if k < PopCount(m) {
        assert r[Rank(m, Select(m, k))] == x[Select(m, k)];
      }
    }
  }

  /** The loop computes the extraction: bit `j` is the next free bit of the result. */
  method Bext(rs1: seq<bool>, rs2: seq<bool>) returns (r: seq<bool>)
    requires |rs1| == |rs2|
    ensures r == Extract(rs1, rs2)
  {
    r := seq(|rs2|, _ => false);
    var i, j := 0, 0;
    while i < |rs2|
      invariant i <= |rs2| && j == Rank(rs2, i)
      invariant ExtractedSoFar(r, rs1, rs2, i)
    {
      ExtractStep(r, rs1, rs2, i);
      if rs2[i] {
        if rs1[i] {
          r := r[j := true];
        }
        j := j + 1;
      }
      i := i + 1;
    }
    ExtractDone(r, rs1, rs2);
  }

  /** Two words extract to the same result under a mask if and only if they agree on the
      masked bits. */
  lemma ExtractEqualIff(x: seq<bool>, y: seq<bool>, m: seq<bool>)
    requires |x| == |y| == |m|
    ensures Extract(x, m) == Extract(y, m) <==> forall p :: 0 <= p < |m| && m[p] ==> x[p] == y[p]
  {
    if Extract(x, m) == Extract(y, m) {
      forall p | 0 <= p < |m| && m[p]
        ensures x[p] == y[p]
      {
        SelectRank(m, p);
        RankMonotone(m, 0, |m|);
        var k := Rank(m, p);
        assert Extract(x, m)[k] == x[p] && Extract(y, m)[k] == y[p];
      }
    }
  }

  /** The inverse scatter: low bits of `y` to the set positions of `m`. */
  function Deposit(y: seq<bool>, m: seq<bool>): seq<bool>
    requires |y| == |m|
  {
    seq(|m|, p requires 0 <= p < |m| => m[p] && y[Rank(m, p)])
  }

  /** Extracting and scattering back masks the word, and nothing is lost but that. */
  lemma DepositExtract(x: seq<bool>, m: seq<bool>)
    requires |x| == |m|
    ensures Deposit(Extract(x, m), m) == seq(|m|, p requires 0 <= p < |m| => m[p] && x[p])
  {
    forall p | 0 <= p < |m| && m[p]
      ensures Deposit(Extract(x, m), m)[p] == x[p]
    {
      SelectRank(m, p);
    }
  }

  /** Scattering and extracting keeps exactly the low `PopCount` bits. */
  lemma ExtractDeposit(y: seq<bool>, m: seq<bool>)
    requires |y| == |m|
    ensures Extract(Deposit(y, m), m)
         == seq(|m|, k requires 0 <= k < |m| => k < PopCount(m) && y[k])
  {
  }

  // ----- The numbers that bits stand for -----

  /** The bit at position `k` weighs 2^k. */
  function Number(bits: seq<bool>): nat {
    if bits == [] then 0 else (if bits[0] then 1 else 0) + 2 * Number(bits[1..])
  }

  lemma NumberCons(low: bool, high: seq<bool>)
    ensures Number([low] + high) == (if low then 1 else 0) + 2 * Number(high)
  {
    assert ([low] + high)[1..] == high;
  }

  lemma {:induction false} NumberBit(bits: seq<bool>, k: nat)
    requires k < |bits|
    ensures bits[k] <==> (Number(bits) / Power2(k)) % 2 == 1
    decreases k
  {
    if k > 0 {
      NumberBit(bits[1..], k - 1);
      HalveFirst(Number(bits), Power2(k - 1));
    }
  }

  lemma {:induction false} NumberAppendZero(bits: seq<bool>)
    ensures Number(bits + [false]) == Number(bits)
    decreases |bits|
  {
    var s := bits + [false];
    if bits == [] {
      assert s[1..] == [];
    } else {
      NumberAppendZero(bits[1..]);
      assert s[1..] == bits[1..] + [false];
    }
  }

  /** The extraction on numbers: the mask decides, lowest bit first, which bits of `x` are
      packed. */
  function Gather(x: nat, m: nat): nat {
    if m == 0 then 0
    else if m % 2 == 1 then x % 2 + 2 * Gather(x / 2, m / 2)
    else Gather(x / 2, m / 2)
  }

  lemma {:induction false} RankTail(m: seq<bool>, i: nat)
    requires i < |m|
    ensures Rank(m, i + 1) == (if m[0] then 1 else 0) + Rank(m[1..], i)
  {
    if i > 0 {
      RankTail(m, i - 1);
    }
  }

  lemma SelectTail(m: seq<bool>, k: nat)
    requires m != [] && k < PopCount(m[1..])
    ensures var d := if m[0] then 1 else 0;
      k + d < PopCount(m) && Select(m, k + d) == Select(m[1..], k) + 1
  {
    var p := Select(m[1..], k);
    RankTail(m, p);
    SelectRank(m, p + 1);
  }

  lemma ExtractTailAt(x: seq<bool>, m: seq<bool>, k: nat)
    requires |x| == |m| && k + 1 < |m|
    ensures Extract(x, m)[if m[0] then k + 1 else k] == Extract(x[1..], m[1..])[k]
  {
    RankTail(m, |m| - 1);
    if k < PopCount(m[1..]) {
      SelectTail(m, k);
    }
  }

  /** How the lowest bit of the mask takes part in the extraction. */
  lemma ExtractTail(x: seq<bool>, m: seq<bool>)
    requires |x| == |m| > 0
    ensures var rest := Extract(x[1..], m[1..]);
      Extract(x, m) == if m[0] then [x[0]] + rest else rest + [false]
  {
    RankTail(m, |m| - 1);
    if m[0] {
      SelectRank(m, 0);
    }
    forall k | 0 <= k < |m| - 1
      ensures Extract(x, m)[if m[0] then k + 1 else k] == Extract(x[1..], m[1..])[k]
    {
      ExtractTailAt(x, m, k);
    }
  }

  /** Extraction of bits is extraction of numbers. */
  lemma {:induction false} ExtractIsGather(x: seq<bool>, m: seq<bool>)
    requires |x| == |m|
    ensures Number(Extract(x, m)) == Gather(Number(x), Number(m))
    decreases |m|
  {
    if m != [] {
      var rest := Extract(x[1..], m[1..]);
      ExtractTail(x, m);
      ExtractIsGather(x[1..], m[1..]);
      if m[0] {
        assert Extract(x, m)[1..] == rest;
      } else {
        NumberAppendZero(rest);
      }
    }
  }

  /** A mask of `n` ones above `p` zeros cuts out a bit field. */
  lemma {:induction false} GatherField(x: nat, m: nat, p: nat, n: nat)
    requires m == Power2(p + n) - Power2(p)
    ensures Gather(x, m) == (x / Power2(p)) % Power2(n)
    decreases p + n
  {
    if p > 0 {
      assert m == 2 * (Power2(p - 1 + n) - Power2(p - 1));
      GatherField(x / 2, m / 2, p - 1, n);
      HalveFirst(x, Power2(p - 1));
    } else if n > 0 {
      GatherField(x / 2, m / 2, 0, n - 1);
      HalveFirst(x, Power2(n - 1));
    }
  }

  // ----- 32-bit words -----

  const XLEN: nat := 32

  predicate Bit(w: bv32, i: bv5) {
    (w >> i) & 1 == 1
  }

  function SetBit(w: bv32, i: bv5): bv32 {
    w | (1 << i)
  }

  /** A shift amount. */
  function Amount(k: nat): bv5
    requires k < XLEN
  {
    k as bv5
  }

  function BitsOf(w: bv32): (bits: seq<bool>)
    ensures |bits| == XLEN
  {
    seq(XLEN, k requires 0 <= k < XLEN => Bit(w, Amount(k)))
  }

  lemma SetBitReads(r: bv32, j: bv5, k: bv5)
    ensures Bit(SetBit(r, j), k) == (k == j || Bit(r, k))
  {
  }

  lemma AmountsDiffer(j: nat, k: nat)
    requires j < XLEN && k < XLEN
    ensures Amount(j) == Amount(k) <==> j == k
  {
    assert Amount(j) as int == j && Amount(k) as int == k;
  }

  lemma SetBitAt(r: bv32, j: nat, k: nat)
    requires j < XLEN && k < XLEN
    ensures BitsOf(SetBit(r, Amount(j)))[k] == (k == j || BitsOf(r)[k])
  {
    AmountsDiffer(j, k);
    SetBitReads(r, Amount(j), Amount(k));
  }

  /** `r |= 1 << j` sets bit `j` and no other. */
  lemma SetBitSets(r: bv32, j: nat)
    requires j < XLEN
    ensures BitsOf(SetBit(r, Amount(j))) == BitsOf(r)[j := true]
  {
    var a, b := BitsOf(SetBit(r, Amount(j))), BitsOf(r);
    forall k | 0 <= k < XLEN
      ensures a[k] == b[j := true][k]
    {
      SetBitAt(r, j, k);
    }
  }

  lemma ZeroHasNoBits()
    ensures forall k :: 0 <= k < XLEN ==> !BitsOf(0)[k]
  {
    forall k | 0 <= k < XLEN
      ensures !BitsOf(0)[k]
    {
      ZeroBit(Amount(k));
    }
  }

  lemma ZeroBit(k: bv5)
    ensures !Bit(0, k)
  {
  }

  /** A word is its upper 31 bits and its lowest bit. */
  lemma HighAndLow(high: bv31, low: bv1)
    ensures (((high as bv32) << 1) | (low as bv32)) as int == 2 * (high as int) + low as int
    ensures (high as bv32) as int == high as int
  {
  }

  lemma Halves(w: bv32)
    ensures w == ((((w >> 1) as bv31) as bv32) << 1) | (((w & 1) as bv1) as bv32)
    ensures ((w >> 1) as bv31) as bv32 == w >> 1
  {
  }

  lemma LowBit(w: bv32)
    ensures ((w & 1) as bv1) as int == if Bit(w, 0) then 1 else 0
  {
  }

  /** Shifting a word right by one halves its value and drops the lowest bit. */
  lemma ShiftHalves(w: bv32)
    ensures w as int == 2 * ((w >> 1) as int) + (if Bit(w, 0) then 1 else 0)
  {
    Halves(w);
    LowBit(w);
    HighAndLow((w >> 1) as bv31, (w & 1) as bv1);
  }

  lemma ShiftMovesBit(w: bv32, i: bv5, j: bv5)
    requires i < 31 && j == i + 1
    ensures Bit(w >> 1, i) == Bit(w, j)
  {
  }

  lemma NextAmount(k: nat)
    requires k + 1 < XLEN
    ensures Amount(k) < 31 && Amount(k + 1) == Amount(k) + 1
  {
  }

  lemma ShiftMovesBits(w: bv32, n: nat)
    requires n < XLEN
    ensures BitsOf(w)[..n + 1] == [Bit(w, 0)] + BitsOf(w >> 1)[..n]
  {
    var a, b := BitsOf(w), BitsOf(w >> 1);
    forall k | 0 <= k < n
      ensures a[k + 1] == b[k]
    {
      NextAmount(k);
      ShiftMovesBit(w, Amount(k), Amount(k + 1));
    }
  }

  /** The word without its lowest bit. */
  lemma HalfWord(w: bv32, n: nat) returns (half: bv32, low: bool)
    requires n < XLEN
    ensures w as int == 2 * (half as int) + if low then 1 else 0
    ensures BitsOf(w)[..n + 1] == [low] + BitsOf(half)[..n]
  {
    half, low := w >> 1, Bit(w, 0);
    ShiftHalves(w);
    ShiftMovesBits(w, n);
  }

  lemma {:induction false} LowBitsNumber(w: bv32, n: nat)
    requires n <= XLEN && w as int < Power2(n)
    ensures Number(BitsOf(w)[..n]) == w as int
    decreases n
  {
    if n > 0 {
      var half, low := HalfWord(w, n - 1);
      LowBitsNumber(half, n - 1);
      NumberCons(low, BitsOf(half)[..n - 1]);
    } else {
      assert w as int == 0;
      assert BitsOf(w)[..0] == [];
    }
  }

  /** Bit `k` of a word weighs 2^k: the bits stand for the word's value. */
  lemma BitsWeigh(w: bv32)
    ensures Number(BitsOf(w)) == w as int
    ensures forall k :: 0 <= k < XLEN ==> (BitsOf(w)[k] <==> (w as int / Power2(k)) % 2 == 1)
  {
    Power2Of32();
    LowBitsNumber(w, XLEN);
    var bits := BitsOf(w);
    assert bits[..XLEN] == bits;
    forall k | 0 <= k < XLEN
      ensures bits[k] <==> (w as int / Power2(k)) % 2 == 1
    {
      NumberBit(bits, k);
    }
  }

  /** A mask of `n` ones above `p` zeros. */
  ghost predicate IsField(m: bv32, p: nat, n: nat) {
    p + n <= XLEN && m as int == Power2(p + n) - Power2(p)
  }

  lemma WordsGather(r: bv32, x: bv32, m: bv32)
    requires BitsOf(r) == Extract(BitsOf(x), BitsOf(m))
    ensures r as int == Gather(x as int, m as int)
    ensures forall p, n :: IsField(m, p, n) ==>
      r as int == (x as int / Power2(p)) % Power2(n)
  {
    BitsWeigh(r);
    BitsWeigh(x);
    BitsWeigh(m);
    ExtractIsGather(BitsOf(x), BitsOf(m));
    forall p, n | IsField(m, p, n)
      ensures r as int == (x as int / Power2(p)) % Power2(n)
    {
      GatherField(x as int, m as int, p, n);
    }
  }

  /** The C loop on machine words computes the extraction of their bits; on their values it
      packs the bits that the mask selects, and under a mask of adjacent ones cuts out that
      bit field. */
  method BextWord(rs1: bv32, rs2: bv32) returns (r: bv32)
    ensures BitsOf(r) == Extract(BitsOf(rs1), BitsOf(rs2))
    ensures r as int == Gather(rs1 as int, rs2 as int)
    ensures forall p, n :: IsField(rs2, p, n) ==>
      r as int == (rs1 as int / Power2(p)) % Power2(n)
  {
    ghost var x, m := BitsOf(rs1), BitsOf(rs2);
    r := 0;
    ZeroHasNoBits();
    var i, j := 0, 0;
    while i < XLEN
      invariant i <= XLEN && j == Rank(m, i)
      invariant ExtractedSoFar(BitsOf(r), x, m, i)
    {
      ExtractStep(BitsOf(r), x, m, i);
      if Bit(rs2, Amount(i)) {
        if Bit(rs1, Amount(i)) {
          SetBitSets(r, j);
          r := SetBit(r, Amount(j));
        }
        j := j + 1;
      }
      i := i + 1;
    }
    ExtractDone(BitsOf(r), x, m);
    WordsGather(r, rs1, rs2);
  }
}
