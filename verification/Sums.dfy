/** Sums of sequence ranges: the reference definition of a prefix sum. */
module Sums {

  function Sum(s: seq<int>, lo: nat, hi: nat): int
    requires lo <= hi <= |s|
    decreases hi - lo
  {
    if lo == hi then 0 else Sum(s, lo, hi - 1) + s[hi - 1]
  }

  lemma {:induction false} SumSplit(s: seq<int>, lo: nat, mid: nat, hi: nat)
    requires lo <= mid <= hi <= |s|
    ensures Sum(s, lo, hi) == Sum(s, lo, mid) + Sum(s, mid, hi)
    decreases hi - mid
  {
    if mid < hi {
      SumSplit(s, lo, mid, hi - 1);
    }
  }

  /** Equal ranges of two sequences, possibly shifted against each other, have equal sums. */
  lemma {:induction false} SumShifted(s: seq<int>, t: seq<int>, lo: nat, hi: nat, shift: nat)
    requires lo <= hi <= |s| && shift + hi <= |t|
    requires forall i :: lo <= i < hi ==> s[i] == t[shift + i]
    ensures Sum(s, lo, hi) == Sum(t, shift + lo, shift + hi)
    decreases hi - lo
  {
    if lo < hi {
      SumShifted(s, t, lo, hi - 1, shift);
    }
  }

  lemma {:induction false} SumOfZeros(s: seq<int>, lo: nat, hi: nat)
    requires lo <= hi <= |s|
    requires forall i :: lo <= i < hi ==> s[i] == 0
    ensures Sum(s, lo, hi) == 0
    decreases hi - lo
  {
    if lo < hi {
      SumOfZeros(s, lo, hi - 1);
    }
  }

  lemma {:induction false} SumOfOnes(s: seq<int>, n: nat)
    requires n <= |s| && forall i :: 0 <= i < |s| ==> s[i] == 1
    ensures Sum(s, 0, n) == n
  {
    if n > 0 {
      SumOfOnes(s, n - 1);
    }
  }
}
