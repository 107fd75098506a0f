/** Counting the positions of a sequence that satisfy a predicate, as `bvcount` does over
    the list of page numbers. */
module Counting {
  /** How many `i` in `[lo, hi)` have `p(s[i])`. */
  function Count<T>(p: T -> bool, s: seq<T>, lo: nat, hi: nat): (c: nat)
    requires lo <= hi <= |s|
    ensures c <= hi - lo
    decreases hi - lo
  {
    if lo == hi then 0 else Count(p, s, lo + 1, hi) + if p(s[lo]) then 1 else 0
  }

  lemma {:induction false} CountSplit<T>(p: T -> bool, s: seq<T>, lo: nat, mid: nat, hi: nat)
    requires lo <= mid <= hi <= |s|
    ensures Count(p, s, lo, hi) == Count(p, s, lo, mid) + Count(p, s, mid, hi)
    decreases mid - lo
  {
    if lo < mid {
      CountSplit(p, s, lo + 1, mid, hi);
    }
  }

  /** Two sequences that look the same to `p` count the same. */
  lemma {:induction false} CountSame<T>(p: T -> bool, s: seq<T>, t: seq<T>, lo: nat, hi: nat)
    requires lo <= hi <= |s| && hi <= |t|
    requires forall i :: lo <= i < hi ==> p(s[i]) == p(t[i])
    ensures Count(p, s, lo, hi) == Count(p, t, lo, hi)
    decreases hi - lo
  {
    if lo < hi {
      CountSame(p, s, t, lo + 1, hi);
    }
  }

  lemma {:induction false} CountAll<T>(p: T -> bool, s: seq<T>, lo: nat, hi: nat)
    requires lo <= hi <= |s|
    ensures Count(p, s, lo, hi) == hi - lo <==> forall i :: lo <= i < hi ==> p(s[i])
    decreases hi - lo
  {
    if lo < hi {
      CountAll(p, s, lo + 1, hi);
    }
  }

  lemma {:induction false} CountNone<T>(p: T -> bool, s: seq<T>, lo: nat, hi: nat)
    requires lo <= hi <= |s|
    ensures Count(p, s, lo, hi) == 0 <==> forall i :: lo <= i < hi ==> !p(s[i])
    decreases hi - lo
  {
    if lo < hi {
      CountNone(p, s, lo + 1, hi);
    }
  }

  /** Changing only the block `[base, base + n)` changes the count by the block's share. */
  lemma CountBlock<T>(p: T -> bool, s: seq<T>, t: seq<T>, base: nat, n: nat)
    requires |s| == |t| && base + n <= |s|
    requires forall i :: 0 <= i < |s| && !(base <= i < base + n) ==> p(s[i]) == p(t[i])
    ensures Count(p, t, 0, |t|) - Count(p, s, 0, |s|)
         == Count(p, t, base, base + n) - Count(p, s, base, base + n)
  {
    CountSplit(p, s, 0, base, |s|);
    CountSplit(p, s, base, base + n, |s|);
    CountSplit(p, t, 0, base, |t|);
    CountSplit(p, t, base, base + n, |t|);
    CountSame(p, s, t, 0, base);
    CountSame(p, s, t, base + n, |s|);
  }
}
