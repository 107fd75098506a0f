/** Whole runs of the allocator from boot, with a ledger of the outstanding blocks. */
module Ledger {
  import opened Bits
  import opened Words
  import opened Counting
  import opened PageSpec
  import opened Conservation
  import opened Layout
  import opened BootSpec

  datatype Block = Block(start: u64, n: u64)

  /** The allocator's state and the blocks its callers hold, oldest first. */
  datatype Sys = Sys(st: State, blocks: seq<Block>)

  /** What the rest of the kernel may do: any `init_memmap`, any `alloc_pages`, and
      `free_pages` of the `k`-th outstanding block. */
  datatype Op = Init(base: u64, n: u64) | Alloc(n: u64) | Free(k: nat)

  function Step(s: Sys, op: Op): (s': Sys)
    requires Sized(s.st)
    ensures Sized(s'.st)
  {
    match op
    case Init(base, n) => Sys(InitMemmap(s.st, base, n), s.blocks)
    case Alloc(n) =>
      Sys(AllocPages(s.st, n),
          if AllocResult(s.st, n) == NULLPAGE then s.blocks
          else s.blocks + [Block(AllocResult(s.st, n), n)])
    case Free(k) =>
      if k < |s.blocks|
      then Sys(FreePages(s.st, s.blocks[k].start, s.blocks[k].n), Remove(s.blocks, k))
      else s
  }

  function Remove(blocks: seq<Block>, k: nat): seq<Block>
    requires k < |blocks|
  {
    blocks[..k] + blocks[k + 1..]
  }

  function Run(s: Sys, ops: seq<Op>): Sys
    requires Sized(s.st)
    decreases |ops|
  {
    if ops == [] then s else Run(Step(s, ops[0]), ops[1..])
  }

  /** After default_init and the flag loop of page_init. */
  function Boot(npage: u64): Sys {
    Sys(State(seq(npage, _ => SetBit(PG_RESERVED, 0)), 0), [])
  }

  function Sum(blocks: seq<Block>): nat {
    if blocks == [] then 0 else blocks[0].n + Sum(blocks[1..])
  }

  predicate Holds(b: Block, i: int) {
    InRange(i, b.start, b.n)
  }

  ghost predicate Covered(blocks: seq<Block>, i: int) {
    exists k :: 0 <= k < |blocks| && Holds(blocks[k], i)
  }

  ghost predicate Fits(flags: seq<bv64>, b: Block) {
    0 < b.n && b.start + b.n <= |flags|
  }

  ghost predicate Disjoint(b: Block, c: Block) {
    b.start + b.n <= c.start || c.start + c.n <= b.start
  }

  /** The outstanding blocks lie inside the array and are pairwise disjoint ... */
  ghost predicate BlocksApart(s: Sys) {
    && (forall k :: 0 <= k < |s.blocks| ==> Fits(s.st.flags, s.blocks[k]))
    && (forall j, k :: 0 <= j < k < |s.blocks| ==> Disjoint(s.blocks[j], s.blocks[k]))
  }

  /** ... the allocated pages are exactly their union, none of them reserved ... */
  ghost predicate UnionIsAllocated(s: Sys) {
    forall i :: 0 <= i < |s.st.flags| ==>
      && (Allocated(s.st.flags[i]) <==> Covered(s.blocks, i))
      && (Allocated(s.st.flags[i]) ==> Unreserved(s.st.flags[i]))
  }

  /** ... and the counter accounts for every unreserved page. */
  ghost predicate Accounted(s: Sys) {
    && s.st.nrFree == Availables(s.st)
    && s.st.nrFree + Sum(s.blocks) == Unreserveds(s.st)
  }

  ghost predicate Inv(s: Sys) {
    Sized(s.st) && BlocksApart(s) && UnionIsAllocated(s) && Accounted(s)
  }

  lemma BootInv(npage: u64)
    requires 0 < npage <= NULLPAGE
    ensures Inv(Boot(npage))
  {
    var s := Boot(npage);
    SetBitReads(PG_RESERVED, PG_RESERVED, 0);
    SetBitReads(PG_RESERVED, PG_ALLOCATED, 0);
    CountNone(Available, s.st.flags, 0, npage);
    CountNone(Unreserved, s.st.flags, 0, npage);
    ZeroIsAvailable();
  }

  lemma InitKeeps(s: Sys, base: u64, n: u64)
    requires Inv(s)
    ensures Inv(Step(s, Init(base, n)))
  {
    if InitStatus(s.st, base, n) == 0 {
      InitCounts(s.st, base, n);
      ClearReservedReads(s.st.flags, base, n);
    }
  }

  lemma {:induction false} SumSnoc(blocks: seq<Block>, b: Block)
    ensures Sum(blocks + [b]) == Sum(blocks) + b.n
  {
    if blocks == [] {
    } else {
      assert (blocks + [b])[1..] == blocks[1..] + [b];
      SumSnoc(blocks[1..], b);
    }
  }

  lemma {:induction false} SumRemove(blocks: seq<Block>, k: nat)
    requires k < |blocks|
    ensures Sum(Remove(blocks, k)) == Sum(blocks) - blocks[k].n
  {
    if k == 0 {
      assert Remove(blocks, 0) == blocks[1..];
    } else {
      assert Remove(blocks, k)[1..] == Remove(blocks[1..], k - 1);
      SumRemove(blocks[1..], k - 1);
    }
  }

  /** Every page of an outstanding block is allocated, so none is available. */
  lemma HeldIsAllocated(s: Sys, k: nat, i: nat)
    requires Inv(s) && k < |s.blocks| && Holds(s.blocks[k], i)
    ensures i < |s.st.flags| && Allocated(s.st.flags[i]) && Unreserved(s.st.flags[i])
  {
    assert Fits(s.st.flags, s.blocks[k]);
    assert Covered(s.blocks, i);
  }

  lemma AllocKeeps(s: Sys, n: u64)
    requires Inv(s)
    ensures Inv(Step(s, Alloc(n)))
  {
    if Choice(s.st, n).Some? {
      AllocCounts(s.st, n);
      SumSnoc(s.blocks, Block(AllocResult(s.st, n), n));
      AllocKeepsApart(s, n);
      AllocKeepsUnion(s, n);
    }
  }

  lemma AllocKeepsApart(s: Sys, n: u64)
    requires Inv(s) && Choice(s.st, n).Some?
    ensures BlocksApart(Step(s, Alloc(n)))
  {
    AllocCounts(s.st, n);
    var b := Block(AllocResult(s.st, n), n);
    forall k | 0 <= k < |s.blocks|
      ensures Disjoint(s.blocks[k], b)
    {
      if !Disjoint(s.blocks[k], b) {
        var i := if s.blocks[k].start < b.start then b.start else s.blocks[k].start;
        assert Fits(s.st.flags, s.blocks[k]);
        HeldIsAllocated(s, k, i);
        assert false;
      }
    }
  }

  lemma AllocKeepsUnion(s: Sys, n: u64)
    requires Inv(s) && Choice(s.st, n).Some?
    ensures UnionIsAllocated(Step(s, Alloc(n)))
  {
    AllocCounts(s.st, n);
    var s', b := Step(s, Alloc(n)), Block(AllocResult(s.st, n), n);
    SetAllocatedReads(s.st.flags, b.start, n);
    forall i | 0 <= i < |s.st.flags|
      ensures Covered(s'.blocks, i) <==> Covered(s.blocks, i) || Holds(b, i)
    {
      CoveredSnoc(s.blocks, b, i);
    }
  }

  lemma CoveredSnoc(blocks: seq<Block>, b: Block, i: int)
    ensures Covered(blocks + [b], i) <==> Covered(blocks, i) || Holds(b, i)
  {
    assert (blocks + [b])[|blocks|] == b;
    if Covered(blocks, i) {
      var k :| 0 <= k < |blocks| && Holds(blocks[k], i);
      assert Holds((blocks + [b])[k], i);
    }
  }

  lemma FreeKeeps(s: Sys, k: nat)
    requires Inv(s) && k < |s.blocks|
    ensures Inv(Step(s, Free(k)))
  {
    var b := s.blocks[k];
    assert Fits(s.st.flags, b);
    assert AllAllocatedUnreserved(s.st.flags, b.start, b.n) by {
      forall i | b.start <= i < b.start + b.n
        ensures Allocated(s.st.flags[i]) && Unreserved(s.st.flags[i])
      {
        HeldIsAllocated(s, k, i);
      }
    }
    FreeCounts(s.st, b.start, b.n);
    SumRemove(s.blocks, k);
    FreeKeepsUnion(s, k);
    RemoveKeepsApart(s, k);
  }

  lemma RemoveKeepsApart(s: Sys, k: nat)
    requires Sized(s.st) && BlocksApart(s) && k < |s.blocks|
    ensures BlocksApart(Step(s, Free(k)))
  {
  }

  lemma FreeKeepsUnion(s: Sys, k: nat)
    requires BlocksApart(s) && UnionIsAllocated(s) && Sized(s.st) && k < |s.blocks|
    ensures UnionIsAllocated(Step(s, Free(k)))
  {
    var s', b := Step(s, Free(k)), s.blocks[k];
    assert Fits(s.st.flags, b);
    ClearAllocatedReads(s.st.flags, b.start, b.n);
    forall i | 0 <= i < |s.st.flags|
      ensures Allocated(s'.st.flags[i]) <==> Covered(s'.blocks, i)
      ensures Allocated(s'.st.flags[i]) ==> Unreserved(s'.st.flags[i])
    {
      CoveredAfterRemove(s, k, i);
    }
  }

  lemma CoveredAfterRemove(s: Sys, k: nat, i: nat)
    requires BlocksApart(s) && k < |s.blocks|
    ensures Covered(Remove(s.blocks, k), i) <==> Covered(s.blocks, i) && !Holds(s.blocks[k], i)
  {
    if Covered(Remove(s.blocks, k), i) {
      StillCovered(s, k, i);
    }
    if Covered(s.blocks, i) && !Holds(s.blocks[k], i) {
      var j :| 0 <= j < |s.blocks| && Holds(s.blocks[j], i);
      RemoveReads(s.blocks, k, if j < k then j else j - 1);
    }
  }

  lemma StillCovered(s: Sys, k: nat, i: nat)
    requires BlocksApart(s) && k < |s.blocks| && Covered(Remove(s.blocks, k), i)
    ensures Covered(s.blocks, i) && !Holds(s.blocks[k], i)
  {
    var j :| 0 <= j < |Remove(s.blocks, k)| && Holds(Remove(s.blocks, k)[j], i);
    RemoveReads(s.blocks, k, j);
    var j' := if j < k then j else j + 1;
    assert Holds(s.blocks[j'], i);
    assert Disjoint(s.blocks[j'], s.blocks[k]) || Disjoint(s.blocks[k], s.blocks[j']);
  }

  lemma RemoveReads(blocks: seq<Block>, k: nat, j: nat)
    requires k < |blocks| && j < |blocks| - 1
    ensures |Remove(blocks, k)| == |blocks| - 1
    ensures Remove(blocks, k)[j] == blocks[if j < k then j else j + 1]
  {
  }

  lemma StepKeeps(s: Sys, op: Op)
    requires Inv(s)
    ensures Inv(Step(s, op))
  {
    match op
    case Init(base, n) => InitKeeps(s, base, n);
    case Alloc(n) => AllocKeeps(s, n);
    case Free(k) =>
      if k < |s.blocks| {
        FreeKeeps(s, k);
      }
  }

  lemma {:induction false} RunKeeps(s: Sys, ops: seq<Op>)
    requires Inv(s)
    ensures Inv(Run(s, ops))
    decreases |ops|
  {
    if ops != [] {
      StepKeeps(s, ops[0]);
      RunKeeps(Step(s, ops[0]), ops[1..]);
    }
  }

  /** Safety of every run from boot. */
  lemma EveryRunIsSafe(npage: u64, ops: seq<Op>)
    requires 0 < npage <= NULLPAGE
    ensures Inv(Run(Boot(npage), ops))
  {
    BootInv(npage);
    RunKeeps(Boot(npage), ops);
  }

  /** The state that a successful pmm_init leaves behind is where safe runs start. */
  lemma EveryRunAfterPmmInitIsSafe(count: u64, end: u64, ops: seq<Op>)
    requires MacrosDefined(count) && KERNBASE <= end && FreePageCount(count, end) > 0
    ensures Inv(Run(Sys(BootState(count, end), []), ops))
  {
    BootBlockIsFree(count, end);
    FirstFreeIsAddress(count, end);
    var k := FirstFree(end);
    OneIsReserved();
    InitFromFirst(count, end, 0);
    BootInv(count);
    assert Boot(count).st.flags == seq(count, _ => 1);
    StepKeeps(Boot(count), Init(k, count - k));
    RunKeeps(Step(Boot(count), Init(k, count - k)), ops);
  }
}
