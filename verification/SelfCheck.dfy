/** The allocator's start-up self check (basic_check and default_check of
    kern/mm/default_pmm.c) over the specification. */
module SelfCheck {
  import opened Words
  import opened Counting
  import opened PageSpec
  import opened Conservation
  import opened Algebra

  lemma SingleSucceedsIff(s: State)
    requires Sized(s)
    ensures AllocResult(s, 1) != NULLPAGE <==> Availables(s) > 0
    ensures Choice(s, 1).Some? <==> Availables(s) > 0
  {
    FindIsFirstFit(s.flags, 1);
    CountNone(Available, s.flags, 0, |s.flags|);
    if Choice(s, 1).Some? {
      AllocCounts(s, 1);
    } else if Availables(s) > 0 {
      var i: nat :| i < |s.flags| && Available(s.flags[i]);
      assert FreeRun(s.flags, i, 1);
    }
  }

  /** The pages of a block stay allocated through later allocations, so a later block
      starts elsewhere. */
  lemma LaterPageDiffers(s: State, p: u64)
    requires Sized(s) && p < |s.flags| && Allocated(s.flags[p])
    ensures |AllocPages(s, 1).flags| == |s.flags|
    ensures Choice(s, 1).Some? ==> AllocResult(s, 1) != p && Allocated(AllocPages(s, 1).flags[p])
  {
    if Choice(s, 1).Some? {
      AllocCounts(s, 1);
      SetAllocatedReads(s.flags, AllocResult(s, 1), 1);
    }
  }

  lemma AllocatedPageIsAllocated(s: State, n: u64)
    requires Sized(s) && Choice(s, n).Some?
    ensures AllocResult(s, n) < |s.flags| && |AllocPages(s, n).flags| == |s.flags|
    ensures Allocated(AllocPages(s, n).flags[AllocResult(s, n)])
  {
    AllocCounts(s, n);
    SetAllocatedReads(s.flags, AllocResult(s, n), n);
  }

  /** Three single-page allocations give three different pages, and freeing them first to
      last restores the state. */
  lemma ThreeSingles(s: State)
    requires Sized(s)
    ensures var s1 := AllocPages(s, 1);
      var s2 := AllocPages(s1, 1);
      var s3 := AllocPages(s2, 1);
      var (p0, p1, p2) := (AllocResult(s, 1), AllocResult(s1, 1), AllocResult(s2, 1));
      && (p0 != NULLPAGE && p1 != NULLPAGE && p2 != NULLPAGE <==> Availables(s) >= 3)
      && (Availables(s) >= 3 ==>
        && p0 < |s.flags| && p1 < |s.flags| && p2 < |s.flags|
        && p0 != p1 && p0 != p2 && p1 != p2
        && FreePages(FreePages(FreePages(s3, p0, 1), p1, 1), p2, 1) == s)
  {
    var s1 := AllocPages(s, 1);
    var s2 := AllocPages(s1, 1);
    SingleSucceedsIff(s);
    if Availables(s) >= 1 {
      AllocCounts(s, 1);
      SingleSucceedsIff(s1);
      if Availables(s) >= 2 {
        AllocCounts(s1, 1);
        SingleSucceedsIff(s2);
        if Availables(s) >= 3 {
          AllocCounts(s2, 1);
          ThreePagesDiffer(s);
          FreeThreeSingles(s);
        }
      }
    }
  }

  lemma ThreePagesDiffer(s: State)
    requires Sized(s) && Choice(s, 1).Some? && Choice(AllocPages(s, 1), 1).Some?
    requires Choice(AllocPages(AllocPages(s, 1), 1), 1).Some?
    ensures var s1 := AllocPages(s, 1);
      var s2 := AllocPages(s1, 1);
      var (p0, p1, p2) := (AllocResult(s, 1), AllocResult(s1, 1), AllocResult(s2, 1));
      && p0 < |s.flags| && p1 < |s.flags| && p2 < |s.flags|
      && p0 != p1 && p0 != p2 && p1 != p2
  {
    var s1 := AllocPages(s, 1);
    var s2 := AllocPages(s1, 1);
    AllocatedPageIsAllocated(s, 1);
    AllocatedPageIsAllocated(s1, 1);
    AllocatedPageIsAllocated(s2, 1);
    LaterPageDiffers(s1, AllocResult(s, 1));
    LaterPageDiffers(s2, AllocResult(s, 1));
    LaterPageDiffers(s2, AllocResult(s1, 1));
  }

  /** Frees commute, so the three pages can be given back last to first. */
  lemma FreeThreeSingles(s: State)
    requires Sized(s) && Choice(s, 1).Some? && Choice(AllocPages(s, 1), 1).Some?
    requires Choice(AllocPages(AllocPages(s, 1), 1), 1).Some?
    ensures var s1 := AllocPages(s, 1);
      var s2 := AllocPages(s1, 1);
      var s3 := AllocPages(s2, 1);
      FreePages(FreePages(FreePages(s3, AllocResult(s, 1), 1), AllocResult(s1, 1), 1),
                AllocResult(s2, 1), 1) == s
  {
    var s1 := AllocPages(s, 1);
    var s2 := AllocPages(s1, 1);
    var s3 := AllocPages(s2, 1);
    var p0, p1, p2 := AllocResult(s, 1), AllocResult(s1, 1), AllocResult(s2, 1);
    FreesCommute(FreePages(s3, p0, 1), p1, 1, p2, 1);
    FreesCommute(s3, p0, 1, p2, 1);
    AllocatedPageIsAllocated(s, 1);
    AllocatedPageIsAllocated(s1, 1);
    AllocThenFree(s2, 1);
    FreesCommute(s2, p0, 1, p1, 1);
    AllocThenFree(s1, 1);
    AllocThenFree(s, 1);
  }

  /** A successful request for five pages leaves room for three single ones. */
  lemma FiveGivesThree(s: State)
    requires Sized(s) && Choice(s, 5).Some?
    ensures Availables(s) >= 5
  {
    AllocCounts(s, 5);
  }
}
