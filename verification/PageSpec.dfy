/** The functional specification of the page allocator, after verif/llvm-spec.rkt, for
    any number of pages.  A state is the flag word of every page and the free counter. */
module PageSpec {
  import opened Bits
  import opened Options
  import opened Words

  datatype State = State(flags: seq<bv64>, nrFree: u64)

  /** `NPAGE` is a build-time constant; `NULLPAGE` must not be a page number. */
  ghost predicate Sized(s: State) {
    0 < |s.flags| <= NULLPAGE
  }

  predicate InRange(i: int, base: int, n: int) {
    base <= i < base + n
  }

  function SetRange(nr: bv6, flags: seq<bv64>, base: nat, n: nat): (r: seq<bv64>)
    ensures |r| == |flags|
  {
    seq(|flags|, i requires 0 <= i < |flags| =>
      if InRange(i, base, n) then SetBit(nr, flags[i]) else flags[i])
  }

  function ClearRange(nr: bv6, flags: seq<bv64>, base: nat, n: nat): (r: seq<bv64>)
    ensures |r| == |flags|
  {
    seq(|flags|, i requires 0 <= i < |flags| =>
      if InRange(i, base, n) then ClearBit(nr, flags[i]) else flags[i])
  }

  // ----- init_memmap -----

  predicate AllReserved(flags: seq<bv64>, base: u64, n: u64) {
    forall i :: 0 <= i < |flags| && InRange(i, base, n) ==> Reserved(flags[i])
  }

  predicate SomeAllocated(flags: seq<bv64>, base: u64, n: u64) {
    exists i :: 0 <= i < |flags| && InRange(i, base, n) && Allocated(flags[i])
  }

  function InitStatus(s: State, base: u64, n: u64): u64 {
    var npage := |s.flags|;
    if !(n > 0) then 1
    else if !(n <= npage) then 2
    else if !(base <= npage) then 3
    else if !(Add64(base, n) <= npage) then 4
    else if !AllReserved(s.flags, base, n) then 5
    else if SomeAllocated(s.flags, base, n) then 6
    else 0
  }

  function InitMemmap(s: State, base: u64, n: u64): (s': State)
    ensures |s'.flags| == |s.flags|
  {
    if InitStatus(s, base, n) == 0
    then State(ClearRange(PG_RESERVED, s.flags, base, n), Add64(s.nrFree, n))
    else s
  }

  // ----- alloc_pages -----

  /** The accumulator recursion: `acc` pages ending just before `p` are available and
      `ans` is where they start. */
  function FindFrom(flags: seq<bv64>, n: u64, p: nat, acc: nat, ans: nat)
    : (r: Option<nat>)
    requires p <= |flags| && ans <= |flags|
    ensures r.Some? ==> r.value <= |flags|
    decreases |flags| - p
  {
    if n == acc then Some(ans)
    else if p == |flags| then None
    else if Available(flags[p]) then
      FindFrom(flags, n, p + 1, acc + 1, if acc == 0 then p else ans)
    else
      FindFrom(flags, n, p + 1, 0, 0)
  }

  function FindFreePages(flags: seq<bv64>, n: u64): Option<nat> {
    FindFrom(flags, n, 0, 0, 0)
  }

  /** The block an allocation takes, if any. */
  function Choice(s: State, n: u64): Option<nat> {
    if !(0 < n) || !(n <= |s.flags|) then None else FindFreePages(s.flags, n)
  }

  /** A block: `n` pages from `start` lie inside the array and are all available. */
  ghost predicate FreeRun(flags: seq<bv64>, start: nat, n: nat) {
    && start + n <= |flags|
    && forall i :: start <= i < start + n ==> Available(flags[i])
  }

  /** What first fit means, without an algorithm. */
  ghost predicate IsFirstFit(flags: seq<bv64>, n: nat, r: Option<nat>) {
    match r
    case Some(p) => FreeRun(flags, p, n) && forall q: nat :: q < p ==> !FreeRun(flags, q, n)
    case None => forall q: nat :: !FreeRun(flags, q, n)
  }

  lemma {:induction false} FindFromIsFirstFit(flags: seq<bv64>, n: u64, p: nat, acc: nat, ans: nat)
    requires 0 < n && p <= |flags| && ans <= |flags| && acc <= p && acc <= n
    requires 0 < acc ==> ans == p - acc
    requires FreeRun(flags, p - acc, acc)
    requires forall q: nat :: q < p - acc ==> !FreeRun(flags, q, n)
    ensures IsFirstFit(flags, n, FindFrom(flags, n, p, acc, ans))
    decreases |flags| - p
  {
    if n == acc {
    } else if p == |flags| {
    } else if Available(flags[p]) {
      FindFromIsFirstFit(flags, n, p + 1, acc + 1, if acc == 0 then p else ans);
    } else {
      forall q: nat | q < p + 1
        ensures !FreeRun(flags, q, n)
      {
        if p - acc <= q {
          assert q + n <= p || !Available(flags[p]);
        }
      }
      FindFromIsFirstFit(flags, n, p + 1, 0, 0);
    }
  }

  /** `find-free-pages` finds the least start of `n` consecutive available pages, and
      reports failure exactly when there is none. */
  lemma FindIsFirstFit(flags: seq<bv64>, n: u64)
    requires 0 < n
    ensures IsFirstFit(flags, n, FindFreePages(flags, n))
  {
    FindFromIsFirstFit(flags, n, 0, 0, 0);
  }

  function AllocResult(s: State, n: u64): u64
    requires Sized(s)
  {
    match Choice(s, n)
    case Some(p) => p
    case None => NULLPAGE
  }

  function AllocPages(s: State, n: u64): (s': State)
    ensures |s'.flags| == |s.flags|
  {
    match Choice(s, n)
    case Some(p) => State(SetRange(PG_ALLOCATED, s.flags, p, n), Sub64(s.nrFree, n))
    case None => s
  }

  // ----- free_pages -----

  predicate FreeAccepted(s: State, base: u64, n: u64) {
    var npage := |s.flags|;
    base < npage && n != 0 && n <= npage && Add64(base, n) <= npage
  }

  function FreePages(s: State, base: u64, n: u64): (s': State)
    ensures |s'.flags| == |s.flags|
  {
    if FreeAccepted(s, base, n)
    then State(ClearRange(PG_ALLOCATED, s.flags, base, n), Add64(s.nrFree, n))
    else s
  }
}
