/** Properties of first fit that span requests, states and runs of pages. */
module FirstFit {
  import opened Options
  import opened Words
  import opened Counting
  import opened PageSpec
  import opened Conservation

  /** First fit is a specification: it leaves no choice of result. */
  lemma FirstFitUnique(flags: seq<bv64>, n: nat, r: Option<nat>, r': Option<nat>)
    requires IsFirstFit(flags, n, r) && IsFirstFit(flags, n, r')
    ensures r == r'
  {
    if r.Some? && r'.Some? {
      assert !(r.value < r'.value) && !(r'.value < r.value);
    }
  }

  /** An allocation returns the least start of `n` consecutive available pages, and
      NULLPAGE, which is no page number, exactly when there is none. */
  lemma AllocIsFirstFit(s: State, n: u64)
    requires Sized(s) && 1 <= n <= |s.flags|
    ensures IsFirstFit(s.flags, n, if AllocResult(s, n) == NULLPAGE then None else Some(AllocResult(s, n)))
  {
    FindIsFirstFit(s.flags, n);
  }

  /** The result depends only on the pages below the end of the block that is returned. */
  lemma AllocLocal(s: State, t: State, n: u64)
    requires Choice(s, n).Some?
    requires Choice(s, n).value + n <= |t.flags|
    requires forall i :: 0 <= i < Choice(s, n).value + n && i < |s.flags| ==>
      Available(s.flags[i]) == Available(t.flags[i])
    ensures Choice(t, n) == Choice(s, n)
  {
    var r := Choice(s, n);
    FindIsFirstFit(s.flags, n);
    FindIsFirstFit(t.flags, n);
    assert FreeRun(t.flags, r.value, n);
    forall q: nat | q < r.value
      ensures !FreeRun(t.flags, q, n)
    {
      assert !FreeRun(s.flags, q, n);
    }
    FirstFitUnique(t.flags, n, r, Choice(t, n));
  }

  /** A smaller request in the same state succeeds too, no later in memory. */
  lemma SmallerRequestSucceedsEarlier(s: State, n: u64, m: u64)
    requires 0 < m <= n && Choice(s, n).Some?
    ensures Choice(s, m).Some? && Choice(s, m).value <= Choice(s, n).value
  {
    FindIsFirstFit(s.flags, n);
    FindIsFirstFit(s.flags, m);
    assert FreeRun(s.flags, Choice(s, n).value, m);
  }

  // ----- Fragmentation -----

  /** Length of the available run that starts at page `p`. */
  function Lead(flags: seq<bv64>, p: nat): (r: nat)
    requires p <= |flags|
    ensures FreeRun(flags, p, r)
    decreases |flags| - p
  {
    if p < |flags| && Available(flags[p]) then 1 + Lead(flags, p + 1) else 0
  }

  ghost predicate NoRun(flags: seq<bv64>, n: nat) {
    forall q: nat :: !FreeRun(flags, q, n)
  }

  lemma LeadIsShort(flags: seq<bv64>, n: nat, p: nat)
    requires p <= |flags| && NoRun(flags, n)
    ensures Lead(flags, p) < n
  {
    assert !FreeRun(flags, p, n);
  }

  /** Without a run of `n`, each unavailable page closes at most `n - 1` available ones. */
  lemma {:induction false} NoRunBound(flags: seq<bv64>, n: nat, p: nat)
    requires 0 < n && p <= |flags| && NoRun(flags, n)
    ensures var free := Count(Available, flags, p, |flags|);
      free <= (n - 1) * (|flags| - p - free) + Lead(flags, p)
    decreases |flags| - p
  {
    if p < |flags| {
      NoRunBound(flags, n, p + 1);
      var free := Count(Available, flags, p + 1, |flags|);
      if !Available(flags[p]) {
        LeadIsShort(flags, n, p + 1);
        Distribute(n - 1, |flags| - p - 1 - free);
      }
    }
  }

  lemma Distribute(a: int, b: int)
    ensures a * (b + 1) == a * b + a
  {
  }

  /** Fragmentation bound: with a correct counter, a request of `n` pages succeeds when
      `nr_free > (n - 1) * (NPAGE - nr_free + 1)` and fails when `n > nr_free`. */
  lemma FragmentationBound(s: State, n: u64)
    requires Sized(s) && NrFreeEq(s) && 1 <= n <= |s.flags|
    ensures s.nrFree > (n - 1) * (|s.flags| - s.nrFree + 1) ==> AllocResult(s, n) != NULLPAGE
    ensures n > s.nrFree ==> AllocResult(s, n) == NULLPAGE
  {
    FindIsFirstFit(s.flags, n);
    if Choice(s, n).Some? {
      AllocCounts(s, n);
    } else {
      NoRunBound(s.flags, n, 0);
      LeadIsShort(s.flags, n, 0);
      Distribute(n - 1, |s.flags| - s.nrFree);
    }
  }

  /** `n - 1` available pages before each of `u` reserved ones, and after the last. */
  function Comb(n: nat, u: nat): (flags: seq<bv64>)
    requires 0 < n
    ensures |flags| == (n - 1) * (u + 1) + u
  {
    if u == 0 then seq(n - 1, _ => 0)
    else
      Distribute(n - 1, u);
      seq(n - 1, _ => 0) + [1] + Comb(n, u - 1)
  }

  lemma {:induction false} CombCounts(n: nat, u: nat)
    requires 0 < n
    ensures Count(Available, Comb(n, u), 0, |Comb(n, u)|) == (n - 1) * (u + 1)
  {
    ZeroIsAvailable();
    var f := Comb(n, u);
    CountAll(Available, f, 0, n - 1);
    if u > 0 {
      CombCounts(n, u - 1);
      CountSplit(Available, f, 0, n - 1, |f|);
      CountShift(f, Comb(n, u - 1), n, 0);
      Distribute(n - 1, u);
    }
  }

  lemma {:induction false} CombNoRun(n: nat, u: nat)
    requires 0 < n
    ensures NoRun(Comb(n, u), n)
  {
    ZeroIsAvailable();
    if u > 0 {
      var f, rest := Comb(n, u), Comb(n, u - 1);
      CombNoRun(n, u - 1);
      assert f[n - 1] == 1 && f[n..] == rest;
      forall q: nat
        ensures !FreeRun(f, q, n)
      {
        if n <= q && q + n <= |f| {
          assert !FreeRun(rest, q - n, n);
          var i :| q - n <= i < q && !Available(rest[i]);
          assert f[i + n] == rest[i];
        }
      }
    }
  }

  lemma {:induction false} CountShift(f: seq<bv64>, g: seq<bv64>, k: nat, lo: nat)
    requires k <= |f| && f[k..] == g && lo <= |g|
    ensures Count(Available, f, k + lo, |f|) == Count(Available, g, lo, |g|)
    decreases |g| - lo
  {
    if lo < |g| {
      assert g[lo] == f[k + lo];
      CountShift(f, g, k, lo + 1);
    }
  }

  /** The bound is sharp: for every `n` and number `u` of unavailable pages some array
      with exactly `(n - 1) * (u + 1)` available pages refuses a request of `n`. */
  lemma FragmentationBoundIsSharp(n: u64, u: nat)
    requires 1 <= n && 0 < (n - 1) * (u + 1) + u <= NULLPAGE
    ensures var s := State(Comb(n, u), (n - 1) * (u + 1));
      && Sized(s) && NrFreeEq(s)
      && s.nrFree == (n - 1) * (|s.flags| - s.nrFree + 1)
      && AllocResult(s, n) == NULLPAGE
  {
    CombCounts(n, u);
    CombNoRun(n, u);
    FindIsFirstFit(Comb(n, u), n);
  }
}
