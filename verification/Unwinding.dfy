/** The unwinding conditions of verif/llvm-ni.rkt for any number of pages, and what they
    give for whole runs.  Each page is a domain that sees its own flag word. */
module Unwinding {
  import opened Bits
  import opened Words
  import opened PageSpec
  import opened FirstFit
  import opened Conservation

  /** States `s` and `t` look the same to page `u`. */
  predicate Unwound(u: nat, s: State, t: State)
    requires u < |s.flags| && u < |t.flags|
  {
    s.flags[u] == t.flags[u]
  }

  /** Page `u` is in the range a call names, in the 64-bit arithmetic of the call. */
  predicate Touches(u: int, base: u64, n: u64) {
    base <= u < Add64(base, n)
  }

  ghost predicate RangeUnwound(base: u64, n: u64, s: State, t: State) {
    |s.flags| == |t.flags| &&
    forall x: nat :: x < |s.flags| && Touches(x, base, n) ==> Unwound(x, s, t)
  }

  /** A free's effect on page `u` depends on nothing but that page's own flag word. */
  lemma FreeAt(s: State, base: u64, n: u64, u: nat)
    requires Sized(s) && u < |s.flags|
    ensures FreePages(s, base, n).flags[u]
         == if FreeAccepted(s, base, n) && Touches(u, base, n)
            then ClearBit(PG_ALLOCATED, s.flags[u]) else s.flags[u]
  {
  }

  lemma InitAt(s: State, base: u64, n: u64, u: nat)
    requires Sized(s) && u < |s.flags|
    ensures InitMemmap(s, base, n).flags[u]
         == if InitStatus(s, base, n) == 0 && Touches(u, base, n)
            then ClearBit(PG_RESERVED, s.flags[u]) else s.flags[u]
  {
  }

  lemma AllocAt(s: State, n: u64, u: nat)
    requires Sized(s) && u < |s.flags|
    ensures AllocPages(s, n).flags[u]
         == if Choice(s, n).Some? && InRange(u, Choice(s, n).value, n)
            then SetBit(PG_ALLOCATED, s.flags[u]) else s.flags[u]
  {
    if Choice(s, n).Some? {
      FindIsFirstFit(s.flags, n);
    }
  }

  // ----- Weak step consistency -----

  /** `free_pages` needs only page `u` itself to look the same. */
  lemma FreeWeakStep(u: nat, s: State, t: State, base: u64, n: u64)
    requires Sized(s) && |s.flags| == |t.flags| && u < |s.flags| && Unwound(u, s, t)
    ensures Unwound(u, FreePages(s, base, n), FreePages(t, base, n))
  {
    FreeAt(s, base, n, u);
    FreeAt(t, base, n, u);
  }

  /** `init_memmap` inspects every page of its range, so the range must look the same. */
  lemma InitWeakStep(u: nat, s: State, t: State, base: u64, n: u64)
    requires Sized(s) && |s.flags| == |t.flags| && u < |s.flags|
    requires Unwound(u, s, t) && RangeUnwound(base, n, s, t)
    ensures Unwound(u, InitMemmap(s, base, n), InitMemmap(t, base, n))
    ensures InitStatus(s, base, n) == InitStatus(t, base, n)
  {
    if 0 < n <= |s.flags| && base <= |s.flags| {
      forall i: nat | i < |s.flags| && InRange(i, base, n)
        ensures s.flags[i] == t.flags[i]
      {
        assert Touches(i, base, n) && Unwound(i, s, t);
      }
    }
    InitAt(s, base, n, u);
    InitAt(t, base, n, u);
  }

  /** An allocation's effect on page `u` depends on that page and on which pages below
      `u + n` are available. */
  lemma AllocWeakStep(u: nat, s: State, t: State, n: u64)
    requires Sized(s) && |s.flags| == |t.flags| && u < |s.flags| && Unwound(u, s, t)
    requires forall i :: 0 <= i < |s.flags| && i < u + n ==>
      Available(s.flags[i]) == Available(t.flags[i])
    ensures Unwound(u, AllocPages(s, n), AllocPages(t, n))
  {
    AllocAt(s, n, u);
    AllocAt(t, n, u);
    if Choice(s, n).Some? && Choice(s, n).value <= u {
      FindIsFirstFit(s.flags, n);
      AllocLocal(s, t, n);
    } else if Choice(t, n).Some? && Choice(t, n).value <= u {
      FindIsFirstFit(t.flags, n);
      AllocLocal(t, s, n);
    }
  }

  // ----- Local respect -----

  lemma LocalRespect(u: nat, s: State, base: u64, n: u64)
    requires Sized(s) && u < |s.flags| && !Touches(u, base, n)
    ensures Unwound(u, FreePages(s, base, n), s)
    ensures Unwound(u, InitMemmap(s, base, n), s)
  {
    FreeAt(s, base, n, u);
    InitAt(s, base, n, u);
  }

  // ----- Runs -----

  datatype Call = Init(base: u64, n: u64) | Free(base: u64, n: u64)

  function Step(s: State, c: Call): (s': State)
    ensures |s'.flags| == |s.flags|
  {
    match c
    case Init(base, n) => InitMemmap(s, base, n)
    case Free(base, n) => FreePages(s, base, n)
  }

  function Run(s: State, calls: seq<Call>): (s': State)
    ensures |s'.flags| == |s.flags|
    decreases |calls|
  {
    if calls == [] then s else Run(Step(s, calls[0]), calls[1..])
  }

  predicate Omits(dom: set<nat>, c: Call) {
    forall u :: u in dom ==> !Touches(u, c.base, c.n)
  }

  /** The trace with every call deleted whose range omits the pages `dom`. */
  function Purge(dom: set<nat>, calls: seq<Call>): seq<Call> {
    if calls == [] then []
    else (if Omits(dom, calls[0]) then [] else [calls[0]]) + Purge(dom, calls[1..])
  }

  ghost predicate Agree(dom: set<nat>, s: State, t: State) {
    && Sized(s) && |s.flags| == |t.flags|
    && forall u :: u in dom && u < |s.flags| ==> Unwound(u, s, t)
  }

  /** The bounds of `init_memmap` and `free_pages` accept the call. */
  predicate InBounds(npage: nat, c: Call) {
    0 < c.n && c.base + c.n <= npage
  }

  /** An `init_memmap` in bounds whose range meets `dom` stays inside it. */
  ghost predicate Confined(npage: nat, dom: set<nat>, c: Call) {
    c.Init? && InBounds(npage, c) && !Omits(dom, c) ==>
      forall x: nat :: Touches(x, c.base, c.n) ==> x in dom
  }

  lemma OutOfBoundsIsRejected(s: State, c: Call)
    requires Sized(s) && !InBounds(|s.flags|, c)
    ensures Step(s, c) == s
  {
    AcceptedIff(s, c.base, c.n);
  }

  lemma StepAgrees(dom: set<nat>, s: State, t: State, c: Call)
    requires Agree(dom, s, t) && Confined(|s.flags|, dom, c)
    ensures Omits(dom, c) ==> Agree(dom, Step(s, c), t)
    ensures Agree(dom, Step(s, c), Step(t, c))
  {
    forall u | u in dom && u < |s.flags|
      ensures Omits(dom, c) ==> Unwound(u, Step(s, c), t)
      ensures Unwound(u, Step(s, c), Step(t, c))
    {
      assert Unwound(u, s, t);
      if Omits(dom, c) {
        LocalRespect(u, s, c.base, c.n);
        LocalRespect(u, t, c.base, c.n);
      } else if c.Init? {
        if InBounds(|s.flags|, c) {
          InitWeakStep(u, s, t, c.base, c.n);
        } else {
          OutOfBoundsIsRejected(s, c);
          OutOfBoundsIsRejected(t, c);
        }
      } else {
        FreeWeakStep(u, s, t, c.base, c.n);
      }
    }
  }

  /** Noninterference over runs: from states that agree on `dom`, a run and the same run
      without the calls that omit `dom` end in states that agree on `dom`. */
  lemma {:induction false} PurgedRunAgrees(dom: set<nat>, s: State, t: State, calls: seq<Call>)
    requires Agree(dom, s, t)
    requires forall c :: c in calls ==> Confined(|s.flags|, dom, c)
    ensures Agree(dom, Run(s, calls), Run(t, Purge(dom, calls)))
    decreases |calls|
  {
    if calls != [] {
      var c, rest := calls[0], calls[1..];
      StepAgrees(dom, s, t, c);
      if Omits(dom, c) {
        PurgedRunAgrees(dom, Step(s, c), t, rest);
        assert Purge(dom, calls) == Purge(dom, rest);
      } else {
        PurgedRunAgrees(dom, Step(s, c), Step(t, c), rest);
        assert Purge(dom, calls)[1..] == Purge(dom, rest);
      }
    }
  }

  /** In any sequence of frees the final flag word of page `u` is unchanged when all calls
      whose range omits `u` are deleted. */
  lemma PurgedFreesKeepPage(u: nat, s: State, calls: seq<Call>)
    requires Sized(s) && u < |s.flags|
    requires forall c :: c in calls ==> c.Free?
    ensures Unwound(u, Run(s, calls), Run(s, Purge({u}, calls)))
  {
    PurgedRunAgrees({u}, s, s, calls);
    assert u in {u};
  }

  // ----- Confinement is exactly what noninterference needs -----

  /** The state after the flag loop of page_init. */
  function AllReservedState(npage: nat): State {
    State(seq(npage, _ => 1), 0)
  }

  /** A straddling `init_memmap` touches page `u` of `dom` and page `x` outside it. */
  ghost predicate Straddles(npage: nat, dom: set<nat>, c: Call, u: nat, x: nat) {
    && c.Init? && InBounds(npage, c)
    && u in dom && x !in dom && Touches(u, c.base, c.n) && Touches(x, c.base, c.n)
  }

  /** From the all-reserved state a straddling call clears page `u`; once page `x` has been
      initialised it fails and leaves `u` reserved. */
  lemma StraddlingCallDepends(npage: u64, dom: set<nat>, c: Call, u: nat, x: u64)
    requires 0 < npage <= NULLPAGE && Straddles(npage, dom, c, u, x)
    ensures var s := AllReservedState(npage);
      var t := Step(s, Init(x, 1));
      && Omits(dom, Init(x, 1)) && Agree(dom, s, t)
      && !Unwound(u, Step(s, c), Step(t, c))
  {
    var s := AllReservedState(npage);
    OneIsReserved();
    AcceptedIff(s, c.base, c.n);
    AcceptedIff(s, x, 1);
    var t := Step(s, Init(x, 1));
    InitAt(s, x, 1, x);
    forall v | v in dom && v < npage
      ensures Unwound(v, s, t)
    {
      InitAt(s, x, 1, v);
    }
    AcceptedIff(t, c.base, c.n);
    assert !Reserved(t.flags[x]);
    InitAt(s, c.base, c.n, u);
    InitAt(t, c.base, c.n, u);
    InitAt(s, x, 1, u);
  }

  /** Every straddling `init_memmap` interferes: initialising the outside page first, a
      call that the purged run deletes, changes the page inside. */
  lemma StraddlingInitInterferes(npage: u64, dom: set<nat>, c: Call, u: nat, x: u64)
    requires 0 < npage <= NULLPAGE && Straddles(npage, dom, c, u, x)
    ensures var s := AllReservedState(npage);
      var calls := [Init(x, 1), c];
      !Unwound(u, Run(s, calls), Run(s, Purge(dom, calls)))
  {
    var s, a := AllReservedState(npage), Init(x, 1);
    StraddlingCallDepends(npage, dom, c, u, x);
    assert [a, c][1..] == [c] && [c][1..] == [];
    assert Purge(dom, [c]) == [c] + Purge(dom, [c][1..]) == [c];
    assert Purge(dom, [a, c]) == [] + Purge(dom, [a, c][1..]) == [c];
    RunOne(s, c);
    RunOne(Step(s, a), c);
  }

  lemma RunOne(s: State, c: Call)
    ensures Run(s, [c]) == Step(s, c)
  {
    assert [c][1..] == [];
  }

  lemma UnconfinedStraddles(npage: u64, dom: set<nat>, c: Call) returns (u: nat, x: u64)
    requires npage <= NULLPAGE && !Confined(npage, dom, c)
    ensures Straddles(npage, dom, c, u, x)
  {
    u :| u in dom && Touches(u, c.base, c.n);
    var y: nat :| Touches(y, c.base, c.n) && y !in dom;
    x := y;
  }

  /** A call keeps every two states that agree on `dom` in agreement if and only if it is
      confined. */
  lemma SafeCallIff(npage: u64, dom: set<nat>, c: Call)
    requires 0 < npage <= NULLPAGE
    ensures (forall s: State, t: State :: |s.flags| == npage && Agree(dom, s, t) ==>
               Agree(dom, Step(s, c), Step(t, c)))
       <==> Confined(npage, dom, c)
  {
    if Confined(npage, dom, c) {
      forall s: State, t: State | |s.flags| == npage && Agree(dom, s, t)
        ensures Agree(dom, Step(s, c), Step(t, c))
      {
        StepAgrees(dom, s, t, c);
      }
    } else {
      var u, x := UnconfinedStraddles(npage, dom, c);
      StraddlingCallDepends(npage, dom, c, u, x);
      var s := AllReservedState(npage);
      assert Agree(dom, s, Step(s, Init(x, 1)));
    }
  }

  /** All runs made of confined calls and of `c` may be purged. */
  ghost predicate RunsMayBePurged(npage: nat, dom: set<nat>, c: Call) {
    forall s: State, calls: seq<Call> ::
      Sized(s) && |s.flags| == npage && (forall a :: a in calls ==> a == c || Confined(npage, dom, a)) ==>
        Agree(dom, Run(s, calls), Run(s, Purge(dom, calls)))
  }

  lemma ConfinedRunsMayBePurged(npage: u64, dom: set<nat>, c: Call)
    requires 0 < npage <= NULLPAGE && Confined(npage, dom, c)
    ensures RunsMayBePurged(npage, dom, c)
  {
    forall s: State, calls: seq<Call>
      | Sized(s) && |s.flags| == npage && (forall a :: a in calls ==> a == c || Confined(npage, dom, a))
      ensures Agree(dom, Run(s, calls), Run(s, Purge(dom, calls)))
    {
      PurgedRunAgrees(dom, s, s, calls);
    }
  }

  /** A run of confined calls and of an unconfined `c` that may not be purged. */
  lemma UnconfinedRun(npage: u64, dom: set<nat>, c: Call) returns (s: State, calls: seq<Call>)
    requires 0 < npage <= NULLPAGE && !Confined(npage, dom, c)
    ensures Sized(s) && |s.flags| == npage
    ensures forall a :: a in calls ==> a == c || Confined(npage, dom, a)
    ensures !Agree(dom, Run(s, calls), Run(s, Purge(dom, calls)))
  {
    var u, x := UnconfinedStraddles(npage, dom, c);
    StraddlingCallDepends(npage, dom, c, u, x);
    StraddlingInitInterferes(npage, dom, c, u, x);
    s, calls := AllReservedState(npage), [Init(x, 1), c];
  }

  /** The same for runs: a call may be added to runs of confined calls without breaking
      noninterference if and only if it is confined itself. */
  lemma SafeInRunsIff(npage: u64, dom: set<nat>, c: Call)
    requires 0 < npage <= NULLPAGE
    ensures RunsMayBePurged(npage, dom, c) <==> Confined(npage, dom, c)
  {
    if Confined(npage, dom, c) {
      ConfinedRunsMayBePurged(npage, dom, c);
    } else {
      var s, calls := UnconfinedRun(npage, dom, c);
    }
  }
}
