/** The tiled traversal: an odometer per worker instead of a linear counter. */
module TiledMap {
  import opened Arithmetic
  import opened VecIndex
  import opened IndexMap

  function Zeros(n: nat): Vec { seq(n, _ => 0) }

  /** The odometer's next reading: the last position counts up, full positions carry, the first one never wraps. */
  function Succ(extents: Vec, q: Vec): (s: Vec)
    requires |q| == |extents| >= 1
    ensures |s| == |q|
  {
    if |q| == 1 then [q[0] + 1]
    else
      var t := Succ(extents[1..], q[1..]);
      if t[0] >= extents[1] then [q[0] + 1] + Zeros(|q| - 1) else [q[0]] + t
  }

  lemma {:induction false} UnlinearZero(extents: Vec)
    requires Positive(extents)
    ensures Unlinear(extents, 0) == Zeros(|extents|)
  {
    if |extents| > 1 {
      var p := Product(extents[1..]);
      ProductPositive(extents[1..]);
      UnlinearZero(extents[1..]);
      DivModUnique(0, p, 0, 0);
      assert Zeros(|extents|) == [0] + Zeros(|extents| - 1);
    }
  }

  /** The first component leaves its extent exactly when the linear number leaves the box. */
  lemma FirstComponent(extents: Vec, k: nat)
    requires Positive(extents)
    ensures Unlinear(extents, k)[0] < extents[0] <==> k < Product(extents)
  {
    if |extents| == 1 {
      assert extents[1..] == [];
    } else {
      ProductPositive(extents[1..]);
      QuotientBelow(k, Product(extents[1..]), extents[0]);
    }
  }

  /** Advancing the odometer is counting. */
  lemma {:induction false} SuccCounts(extents: Vec, k: nat)
    requires Positive(extents)
    ensures Succ(extents, Unlinear(extents, k)) == Unlinear(extents, k + 1)
  {
    if |extents| > 1 {
      var rest := extents[1..];
      var p := Product(rest);
      ProductPositive(rest);
      SuccCounts(rest, k % p);
      FirstComponent(rest, k % p + 1);
      assert Unlinear(extents, k)[1..] == Unlinear(rest, k % p);
      OneMore(k, p);
      UnlinearZero(rest);
    }
  }

  lemma OneMore(k: nat, p: nat)
    requires p >= 1
    ensures k % p + 1 < p ==> (k + 1) / p == k / p && (k + 1) % p == k % p + 1
    ensures k % p + 1 >= p ==> (k + 1) / p == k / p + 1 && (k + 1) % p == 0
  {
    var q, m := k / p, k % p;
    assert k == q * p + m;
    if m + 1 < p {
      DivModUnique(k + 1, p, q, m + 1);
    } else {
      assert (q + 1) * p == q * p + p;
      DivModUnique(k + 1, p, q + 1, 0);
    }
  }

  // ----- the iterator -----

  class TiledIterator {
    var current: Vec
    const stride: Vec
    const extent: Vec
    const first: Vec

    /** The worker's own range. */
    ghost function Sub(): IdxRange { IdxRange(first, extent, stride) }

    ghost predicate Dims(n: nat)
      reads this
    {
      n >= 1 && |current| == |stride| == |extent| == |first| == n
    }

    constructor (offset: Vec, start: Vec, size: Vec, stride: Vec)
      requires |offset| == |start| == |size| == |stride| >= 1
      ensures Dims(|offset|) && this.stride == stride
      ensures forall d :: 0 <= d < |offset| ==> extent[d] == size[d] + offset[d] && first[d] == start[d] + offset[d]
      ensures if forall d :: 1 <= d < |offset| ==> first[d] < extent[d] then current == first
              else current == first[0 := extent[0]]
    {
      var ext := seq(|offset|, d requires 0 <= d < |offset| => size[d] + offset[d]);
      var begin := seq(|offset|, d requires 0 <= d < |offset| => start[d] + offset[d]);
      this.stride, extent, first := stride, ext, begin;
      // invalidate the iterator if a dimension is out of range
      var isIndexValid := true;
      for d := 1 to |offset|
        invariant isIndexValid <==> forall k :: 1 <= k < d ==> begin[k] < ext[k]
      {
        isIndexValid := isIndexValid && begin[d] < ext[d];
      }
      current := if isIndexValid then begin else begin[0 := ext[0]];
    }

    /** operator++ : q is the reading in steps of the stride. */
    method Advance(ghost q: Vec)
      requires Dims(|q|) && WellFormed(Sub()) && current == At(Sub(), q)
      requires forall d :: 1 <= d < |q| ==> q[d] < Extents(Sub())[d]
      modifies this`current
      ensures current == At(Sub(), Succ(Extents(Sub()), q))
    {
      var idx := |current| - 1;
      var carry := true;
      while carry
        invariant -1 <= idx < |q| && Dims(|q|) && (idx < 0 ==> !carry)
        invariant carry ==> current == At(Sub(), Wrapped(q, idx + 1)) && Carries(Extents(Sub()), q, idx + 1)
        invariant !carry ==> current == At(Sub(), Succ(Extents(Sub()), q))
        decreases idx + (if carry then 1 else 0)
      {
        carry := Turn(q, idx);
        idx := idx - 1;
      }
    }

    /** One wheel of the odometer. */
    method Turn(ghost q: Vec, idx: nat) returns (carry: bool)
      requires Dims(|q|) && WellFormed(Sub()) && idx < |q| && current == At(Sub(), Wrapped(q, idx + 1))
      requires forall d :: 1 <= d < |q| ==> q[d] < Extents(Sub())[d]
      requires Carries(Extents(Sub()), q, idx + 1)
      modifies this`current
      ensures Dims(|q|) && (idx == 0 ==> !carry)
      ensures if carry then current == At(Sub(), Wrapped(q, idx)) && Carries(Extents(Sub()), q, idx)
              else current == At(Sub(), Succ(Extents(Sub()), q))
    {
      WheelTurns(Extents(Sub()), q, idx);
      WheelPositions(Sub(), q, idx);
      current := current[idx := current[idx] + stride[idx]];
      carry := idx >= 1 && current[idx] >= extent[idx];
      if carry {
        current := current[idx := first[idx]];
      }
    }
  }

  /** The reading with the wheels from m on back at zero. */
  ghost function Wrapped(q: Vec, m: nat): (v: Vec)
    requires m <= |q|
    ensures |v| == |q|
  {
    q[..m] + Zeros(|q| - m)
  }

  /** Counting up the wheels from m on wraps them all. */
  ghost predicate Carries(extents: Vec, q: Vec, m: nat)
    requires |extents| == |q| && m <= |q|
  {
    m < |q| ==> Succ(extents[m..], q[m..]) == [extents[m]] + Zeros(|q| - m - 1)
  }

  lemma WheelTurns(extents: Vec, q: Vec, idx: nat)
    requires |extents| == |q| && idx < |q| && Carries(extents, q, idx + 1)
    requires forall d :: 1 <= d < |q| ==> q[d] < extents[d]
    ensures idx >= 1 && q[idx] + 1 >= extents[idx] ==> Carries(extents, q, idx)
    ensures idx == 0 || q[idx] + 1 < extents[idx] ==> Succ(extents, q) == Wrapped(q, idx + 1)[idx := q[idx] + 1]
  {
    SuffixCounts(extents, q, idx);
    if idx == 0 || q[idx] + 1 < extents[idx] {
      PrefixStays(extents, q, idx, 0);
      WholeReading(extents, q, idx);
    }
  }

  lemma SuffixCounts(extents: Vec, q: Vec, idx: nat)
    requires |extents| == |q| && idx < |q| && Carries(extents, q, idx + 1)
    ensures Succ(extents[idx..], q[idx..]) == [q[idx] + 1] + Zeros(|q| - idx - 1)
  {
    var e, v := extents[idx..], q[idx..];
    if |v| > 1 {
      assert e[1..] == extents[idx + 1..] && v[1..] == q[idx + 1..];
      assert Succ(e[1..], v[1..])[0] >= e[1];
    }
  }

  lemma WholeReading(extents: Vec, q: Vec, idx: nat)
    requires |extents| == |q| && idx < |q|
    ensures extents[0..] == extents && q[0..] == q
    ensures q[0..idx] + [q[idx] + 1] + Zeros(|q| - idx - 1) == Wrapped(q, idx + 1)[idx := q[idx] + 1]
  {
  }

  lemma {:induction false} PrefixStays(extents: Vec, q: Vec, idx: nat, j: nat)
    requires |extents| == |q| && j <= idx < |q| && (idx == 0 || q[idx] + 1 < extents[idx])
    requires forall d :: 1 <= d < |q| ==> q[d] < extents[d]
    requires Succ(extents[idx..], q[idx..]) == [q[idx] + 1] + Zeros(|q| - idx - 1)
    ensures Succ(extents[j..], q[j..]) == q[j..idx] + [q[idx] + 1] + Zeros(|q| - idx - 1)
    decreases idx - j
  {
    if j < idx {
      PrefixStays(extents, q, idx, j + 1);
      assert extents[j..][1..] == extents[j + 1..] && q[j..][1..] == q[j + 1..];
      assert q[j..idx] == [q[j]] + q[j + 1..idx];
    }
  }

  /** What the wheel shows after counting up, after wrapping, and when it has to wrap. */
  lemma WheelPositions(r: IdxRange, q: Vec, idx: nat)
    requires WellFormed(r) && |q| == |r.begin| && idx < |q|
    ensures var p := At(r, Wrapped(q, idx + 1));
      && At(r, Wrapped(q, idx + 1)[idx := q[idx] + 1]) == p[idx := p[idx] + r.stride[idx]]
      && At(r, Wrapped(q, idx)) == p[idx := r.begin[idx]]
      && (p[idx] + r.stride[idx] >= r.end[idx] <==> q[idx] + 1 >= Extents(r)[idx])
  {
    var w := Wrapped(q, idx + 1);
    assert Wrapped(q, idx) == w[idx := 0] && w[idx] == q[idx];
    NextStep(r.begin[idx], q[idx], r.stride[idx], r.end[idx]);
    assert At(r, w[idx := 0]) == At(r, w)[idx := r.begin[idx]];
    assert At(r, w[idx := q[idx] + 1]) == At(r, w)[idx := At(r, w)[idx] + r.stride[idx]];
  }

  lemma NextStep(first: nat, q: nat, stride: nat, extent: nat)
    requires stride >= 1 && first <= extent
    ensures first + q * stride + stride == first + (q + 1) * stride
    ensures first + q * stride + stride >= extent <==> q + 1 >= DivCeil(extent - first, stride)
  {
    BelowCeil(q + 1, extent - first, stride);
  }

  // ----- one worker's range -----

  /** One dimension of a range. */
  ghost predicate InDim(begin: nat, end: nat, stride: nat, p: nat)
    requires stride >= 1
  {
    begin <= p < end && (p - begin) % stride == 0
  }

  lemma Spread(t: nat, j: nat, threads: nat, s: nat)
    ensures t * s + j * (threads * s) == (j * threads + t) * s
  {
    Associate(j, threads, s);
    Distribute(j, threads, t, s);
  }

  lemma StridedStep(a: nat, s: nat, threads: nat, t: nat, j: nat)
    requires s >= 1 && t < threads && a == t * s + j * (threads * s)
    ensures a % s == 0 && (a / s) % threads == t
  {
    Spread(t, j, threads, s);
    DivModUnique(a, s, j * threads + t, 0);
    DivModUnique(j * threads + t, threads, j, t);
  }

  lemma StepIsStrided(a: nat, s: nat, threads: nat, t: nat) returns (j: nat)
    requires s >= 1 && t < threads && a % s == 0 && (a / s) % threads == t
    ensures a == t * s + j * (threads * s)
  {
    j := a / s / threads;
    Spread(t, j, threads, s);
  }

  lemma StridedRemainder(a: nat, s: nat, threads: nat, t: nat, wide: nat, from: nat)
    requires s >= 1 && t < threads && wide == threads * s >= 1 && from == t * s
    ensures from <= a && (a - from) % wide == 0 <==> a % s == 0 && (a / s) % threads == t
  {
    if from <= a && (a - from) % wide == 0 {
      StridedStep(a, s, threads, t, (a - from) / wide);
    }
    if a % s == 0 && (a / s) % threads == t {
      var j := StepIsStrided(a, s, threads, t);
      Multiple(a - from, wide, j);
    }
  }

  lemma Multiple(a: int, wide: nat, j: nat)
    requires wide >= 1 && a == j * wide
    ensures a >= 0 && a % wide == 0
  {
    DivModUnique(a, wide, j, 0);
  }

  lemma StridedDim(b: nat, e: nat, s: nat, threads: nat, t: nat, p: nat)
    requires s >= 1 && t < threads
    ensures threads * s >= 1 && t * s >= 0
    ensures InDim(b + t * s, e, threads * s, p) <==> InDim(b, e, s, p) && ((p - b) / s) % threads == t
  {
    MulAtLeast(threads, s);
    assert t * s >= 0;
    if b <= p {
      StridedRemainder(p - b, s, threads, t, threads * s, t * s);
    }
  }

  lemma ContiguousDim(b: nat, e: nat, s: nat, lo: nat, hi: nat, first: nat, last: nat, p: nat)
    requires s >= 1 && b <= e && first == lo * s && last == hi * s
    ensures InDim(b + first, b + Min(e - b, last), s, p) <==> InDim(b, e, s, p) && lo <= (p - b) / s < hi
  {
    if b <= p {
      ShiftedRemainder(p - b, lo, hi, s);
    }
  }

  lemma SlotOfStep(a: nat, size: nat, s: nat, threads: nat, t: nat)
    requires s >= 1 && t < threads && a < size && a % s == 0
    ensures var n := DivCeil(size, s);
      SlotStart(n, threads, t) <= a / s < SlotStart(n, threads, t + 1) <==> SlotOf(n, threads, a / s, threads) == t
  {
    assert a == a / s * s;
    BelowCeil(a / s, size, s);
    OneSlotEach(DivCeil(size, s), threads, a / s, t);
  }

  /** Multiples of s between lo * s and hi * s. */
  lemma ShiftedRemainder(a: nat, lo: nat, hi: nat, s: nat)
    requires s >= 1
    ensures lo * s <= a < hi * s && (a - lo * s) % s == 0 <==> a % s == 0 && lo <= a / s < hi
  {
    var c := a / s;
    assert a == c * s + a % s;
    if lo * s <= a {
      var j := (a - lo * s) / s;
      assert a - lo * s == j * s + (a - lo * s) % s;
      assert (lo + j) * s == lo * s + j * s;
      DivModUnique(a, s, lo + j, (a - lo * s) % s);
    }
    if lo <= c { MulLeft(lo, c, s); }
    if c < hi { MulLeft(c + 1, hi, s); } else { MulLeft(hi, c, s); }
  }

  // ----- one worker's loop -----

  ghost predicate Group(r: IdxRange, numThreads: Vec, threadIdx: Vec) {
    WellFormed(r) && |numThreads| == |r.begin| && Positive(numThreads) && InBox(threadIdx, numThreads)
  }

  /** Coordinate p of dimension d is in the range and falls to the thread's d-th coordinate. */
  ghost predicate Falls(r: IdxRange, layout: Layout, numThreads: Vec, threadIdx: Vec, d: nat, p: nat)
    requires WellFormed(r) && |numThreads| == |threadIdx| == |r.begin| && Positive(numThreads) && d < |r.begin|
  {
    InDim(r.begin[d], r.end[d], r.stride[d], p)
    && Handler(layout, Extents(r)[d], numThreads[d], (p - r.begin[d]) / r.stride[d]) == threadIdx[d]
  }

  /** The thread gets index p of the range. */
  ghost predicate HandlesTiled(r: IdxRange, layout: Layout, numThreads: Vec, threadIdx: Vec, p: Vec)
    requires WellFormed(r) && |numThreads| == |threadIdx| == |r.begin| && Positive(numThreads)
  {
    |p| == |r.begin| && forall d :: 0 <= d < |p| ==> Falls(r, layout, numThreads, threadIdx, d, p[d])
  }

  /** Which indices these are: in every dimension the steps of the thread's coordinate. */
  lemma HandlesTiledIs(r: IdxRange, layout: Layout, numThreads: Vec, threadIdx: Vec, p: Vec)
    requires Group(r, numThreads, threadIdx)
    ensures HandlesTiled(r, layout, numThreads, threadIdx, p) <==>
      InRange(r, p) && forall d :: 0 <= d < |p| ==>
        Handler(layout, DivCeil(r.end[d] - r.begin[d], r.stride[d]), numThreads[d], (p[d] - r.begin[d]) / r.stride[d])
          == threadIdx[d]
  {
    if |p| == |r.begin| {
      forall d | 0 <= d < |p|
        ensures Falls(r, layout, numThreads, threadIdx, d, p[d]) <==>
          r.begin[d] <= p[d] < r.end[d] && (p[d] - r.begin[d]) % r.stride[d] == 0 &&
          Handler(layout, DivCeil(r.end[d] - r.begin[d], r.stride[d]), numThreads[d],
                  (p[d] - r.begin[d]) / r.stride[d]) == threadIdx[d]
      {
      }
    }
  }

  /** Each index of the range goes to exactly one thread. */
  lemma OneThreadEachTiled(r: IdxRange, layout: Layout, numThreads: Vec, p: Vec) returns (owner: Vec)
    requires WellFormed(r) && |numThreads| == |r.begin| && Positive(numThreads) && InRange(r, p)
    ensures InBox(owner, numThreads)
    ensures forall t: Vec :: InBox(t, numThreads) ==> (HandlesTiled(r, layout, numThreads, t, p) <==> t == owner)
  {
    var n := |p|;
    RangeHasSteps(r, p);
    owner := seq(n, d requires 0 <= d < n => Handler(layout, Extents(r)[d], numThreads[d], Steps(r, p)[d]));
    forall d | 0 <= d < n ensures owner[d] < numThreads[d] && InDim(r.begin[d], r.end[d], r.stride[d], p[d]) {
      assert Steps(r, p)[d] < Extents(r)[d];
      if layout == Contiguous {
        OneSlotEach(Extents(r)[d], numThreads[d], Steps(r, p)[d], 0);
      }
    }
    forall t: Vec | InBox(t, numThreads) ensures HandlesTiled(r, layout, numThreads, t, p) <==> t == owner {
      if HandlesTiled(r, layout, numThreads, t, p) {
        forall d | 0 <= d < n ensures t[d] == owner[d] {
          assert Falls(r, layout, numThreads, t, d, p[d]);
        }
      }
    }
  }

  /** The indices first, first + stride, ... below end are thread t's share of one dimension. */
  ghost predicate Share(b: nat, e: nat, s: nat, layout: Layout, threads: nat, t: nat,
                        first: nat, end: nat, stride: nat)
    requires b <= e && s >= 1 && threads >= 1 && stride >= 1
  {
    forall p: nat :: InDim(first, end, stride, p) <==>
      InDim(b, e, s, p) && Handler(layout, DivCeil(e - b, s), threads, (p - b) / s) == t
  }

  lemma StridedShare(b: nat, e: nat, s: nat, threads: nat, t: nat, start: nat, stride: nat)
    requires b <= e && s >= 1 && t < threads && start == t * s && stride == threads * s
    ensures stride >= 1 && Share(b, e, s, Strided, threads, t, start + b, e, stride)
  {
    MulAtLeast(threads, s);
    forall p: nat
      ensures InDim(start + b, e, stride, p) <==> InDim(b, e, s, p) && ((p - b) / s) % threads == t
    {
      StridedDim(b, e, s, threads, t, p);
    }
  }

  lemma ContiguousShare(b: nat, e: nat, s: nat, threads: nat, t: nat, n: nat, lo: nat, hi: nat, start: nat, last: nat)
    requires b <= e && s >= 1 && t < threads && n == DivCeil(e - b, s)
    requires lo == SlotStart(n, threads, t) && hi == SlotStart(n, threads, t + 1)
    requires start == lo * s && last == hi * s
    ensures Share(b, e, s, Contiguous, threads, t, start + b, Min(e - b, last) + b, s)
  {
    forall p: nat
      ensures InDim(start + b, Min(e - b, last) + b, s, p)
         <==> InDim(b, e, s, p) && SlotOf(n, threads, (p - b) / s, threads) == t
    {
      ContiguousDim(b, e, s, lo, hi, start, last, p);
      if InDim(b, e, s, p) {
        SlotOfStep(p - b, e - b, s, threads, t);
      }
    }
  }

  method StridedWheel(b: nat, e: nat, s: nat, threads: nat, t: nat) returns (start: nat, size: nat, stride: nat)
    requires b <= e && s >= 1 && t < threads
    ensures stride >= 1 && Share(b, e, s, Strided, threads, t, start + b, size + b, stride)
  {
    start, size, stride := t * s, e - b, threads * s;
    StridedShare(b, e, s, threads, t, start, stride);
  }

  function Scaled(logical: nat, s: nat): nat { logical * s }

  method SlotBounds(n: nat, slots: nat, slot: nat) returns (first: nat, end: nat)
    requires slot < slots
    ensures first == SlotStart(n, slots, slot) && end == SlotStart(n, slots, slot + 1)
  {
    // elements per slot; the remaining ones go to the slots with numbers below rem
    var base, rem := n / slots, n % slots;
    first := slot * base + Min(slot, rem);
    end := (slot + 1) * base + Min(slot + 1, rem);
    TimesIsProduct(slot, base);
    TimesIsProduct(slot + 1, base);
  }

  method ContiguousWheel(b: nat, e: nat, s: nat, threads: nat, t: nat) returns (start: nat, size: nat, stride: nat)
    requires b <= e && s >= 1 && t < threads
    ensures stride >= 1 && Share(b, e, s, Contiguous, threads, t, start + b, size + b, stride)
  {
    var n := DivCeil(e - b, s);
    var firstLogical, endLogical := SlotBounds(n, threads, t);
    var first, last := Scaled(firstLogical, s), Scaled(endLogical, s);
    start, size, stride := first, Min(e - b, last), s;
    ContiguousShare(b, e, s, threads, t, n, firstLogical, endLogical, first, last);
  }

  /** The iterator has this thread's share in every dimension. */
  ghost predicate Shares(r: IdxRange, layout: Layout, numThreads: Vec, threadIdx: Vec, sub: IdxRange)
    requires Group(r, numThreads, threadIdx)
  {
    && |sub.begin| == |sub.end| == |sub.stride| == |r.begin|
    && (forall d :: 0 <= d < |r.begin| ==> sub.stride[d] >= 1)
    && (forall d :: 0 <= d < |r.begin| ==>
         Share(r.begin[d], r.end[d], r.stride[d], layout, numThreads[d], threadIdx[d],
               sub.begin[d], sub.end[d], sub.stride[d]))
  }

  method Begin(r: IdxRange, layout: Layout, numThreads: Vec, threadIdx: Vec) returns (it: TiledIterator)
    requires Group(r, numThreads, threadIdx)
    ensures fresh(it) && it.Dims(|r.begin|) && Shares(r, layout, numThreads, threadIdx, it.Sub())
    ensures if forall d :: 1 <= d < |r.begin| ==> it.first[d] < it.extent[d] then it.current == it.first
            else it.current == it.first[0 := it.extent[0]]
  {
    var first: Vec, size: Vec, stride: Vec := [], [], [];
    for d := 0 to |r.begin|
      invariant |first| == |size| == |stride| == d
      invariant forall k :: 0 <= k < d ==> stride[k] >= 1
      invariant forall k :: 0 <= k < d ==>
        Share(r.begin[k], r.end[k], r.stride[k], layout, numThreads[k], threadIdx[k],
              first[k] + r.begin[k], size[k] + r.begin[k], stride[k])
    {
      var f, n, s;
      match layout {
        case Strided => f, n, s := StridedWheel(r.begin[d], r.end[d], r.stride[d], numThreads[d], threadIdx[d]);
        case Contiguous => f, n, s := ContiguousWheel(r.begin[d], r.end[d], r.stride[d], numThreads[d], threadIdx[d]);
      }
      first, size, stride := first + [f], size + [n], stride + [s];
    }
    it := new TiledIterator(r.begin, first, size, stride);
  }

  /** Every dimension of the thread's share has an index. */
  ghost predicate Live(sub: IdxRange) {
    && |sub.begin| == |sub.end| == |sub.stride| >= 1
    && forall d :: 0 <= d < |sub.begin| ==> sub.begin[d] < sub.end[d] && sub.stride[d] >= 1
  }

  /** The k-th reading of the odometer. */
  ghost function Reading(sub: IdxRange, k: nat): (p: Vec)
    requires Live(sub)
    ensures |p| == |sub.begin|
  {
    LiveExtents(sub);
    At(sub, Unlinear(Extents(sub), k))
  }

  lemma LiveExtents(sub: IdxRange)
    requires Live(sub)
    ensures Positive(Extents(sub))
  {
    forall d | 0 <= d < |sub.begin| ensures Extents(sub)[d] >= 1 {
      BelowCeil(0, sub.end[d] - sub.begin[d], sub.stride[d]);
    }
  }

  lemma FirstReading(sub: IdxRange)
    requires Live(sub)
    ensures Reading(sub, 0) == sub.begin
  {
    LiveExtents(sub);
    UnlinearZero(Extents(sub));
    assert At(sub, Zeros(|sub.begin|)) == sub.begin;
  }

  /** The slowest coordinate passes the end when all readings have been shown. */
  lemma ReadingsEnd(sub: IdxRange, k: nat)
    requires Live(sub) && Positive(Extents(sub))
    ensures Reading(sub, k)[0] < sub.end[0] <==> k < Product(Extents(sub))
    ensures k < Product(Extents(sub)) ==>
      forall d :: 0 <= d < |sub.begin| ==> Unlinear(Extents(sub), k)[d] < Extents(sub)[d]
  {
    LiveExtents(sub);
    FirstComponent(Extents(sub), k);
    BelowCeil(Unlinear(Extents(sub), k)[0], sub.end[0] - sub.begin[0], sub.stride[0]);
    if k < Product(Extents(sub)) {
      UnlinearInBox(Extents(sub), k);
    }
  }

  method NextReading(it: TiledIterator, ghost k: nat)
    requires Live(it.Sub()) && it.current == Reading(it.Sub(), k) && k < Product(Extents(it.Sub()))
    modifies it`current
    ensures it.current == Reading(it.Sub(), k + 1)
  {
    LiveExtents(it.Sub());
    ReadingsEnd(it.Sub(), k);
    SuccCounts(Extents(it.Sub()), k);
    it.Advance(Unlinear(Extents(it.Sub()), k));
  }

  /** All readings together are the thread's share, each index once. */
  lemma ReadingsAreShare(r: IdxRange, layout: Layout, numThreads: Vec, threadIdx: Vec, sub: IdxRange, visited: seq<Vec>)
    requires Group(r, numThreads, threadIdx) && Shares(r, layout, numThreads, threadIdx, sub) && Live(sub)
    requires |visited| == Product(Extents(sub)) && forall i :: 0 <= i < |visited| ==> visited[i] == Reading(sub, i)
    ensures forall p: Vec :: p in visited <==> HandlesTiled(r, layout, numThreads, threadIdx, p)
    ensures forall i, j :: 0 <= i < j < |visited| ==> visited[i] != visited[j]
  {
    LiveExtents(sub);
    forall i | 0 <= i < |visited|
      ensures InRange(sub, visited[i]) && Number(sub, visited[i]) == i
    {
      NumbersReachRange(sub, i);
    }
    forall p: Vec ensures p in visited <==> InRange(sub, p) {
      if InRange(sub, p) {
        NumberingIsBijective(sub, p, Number(sub, p));
        assert visited[Number(sub, p)] == p;
      }
    }
    forall p: Vec ensures InRange(sub, p) <==> HandlesTiled(r, layout, numThreads, threadIdx, p) {
      SubRangeIsShare(r, layout, numThreads, threadIdx, sub, p);
    }
  }

  lemma SubRangeIsShare(r: IdxRange, layout: Layout, numThreads: Vec, threadIdx: Vec, sub: IdxRange, p: Vec)
    requires Group(r, numThreads, threadIdx) && Shares(r, layout, numThreads, threadIdx, sub) && WellFormed(sub)
    ensures InRange(sub, p) <==> HandlesTiled(r, layout, numThreads, threadIdx, p)
  {
    if |p| == |r.begin| {
      forall d | 0 <= d < |p|
        ensures InDim(sub.begin[d], sub.end[d], sub.stride[d], p[d])
           <==> Falls(r, layout, numThreads, threadIdx, d, p[d])
      {
        assert Share(r.begin[d], r.end[d], r.stride[d], layout, numThreads[d], threadIdx[d],
                     sub.begin[d], sub.end[d], sub.stride[d]);
      }
    }
  }

  /** A share without index in some dimension is empty. */
  lemma DeadShare(r: IdxRange, layout: Layout, numThreads: Vec, threadIdx: Vec, sub: IdxRange, p: Vec)
    requires Group(r, numThreads, threadIdx) && Shares(r, layout, numThreads, threadIdx, sub) && !Live(sub)
    ensures !HandlesTiled(r, layout, numThreads, threadIdx, p)
  {
    var d :| 0 <= d < |sub.begin| && sub.begin[d] >= sub.end[d];
    if |p| == |r.begin| {
      assert !InDim(sub.begin[d], sub.end[d], sub.stride[d], p[d]);
      assert !Falls(r, layout, numThreads, threadIdx, d, p[d]);
    }
  }

  /** One worker's range-based loop. */
  method TraverseTiled(r: IdxRange, layout: Layout, numThreads: Vec, threadIdx: Vec) returns (visited: seq<Vec>)
    requires Group(r, numThreads, threadIdx)
    ensures forall p: Vec :: p in visited <==> HandlesTiled(r, layout, numThreads, threadIdx, p)
    ensures forall i, j :: 0 <= i < j < |visited| ==> visited[i] != visited[j]
  {
    var it := Begin(r, layout, numThreads, threadIdx);
    ghost var sub := it.Sub();
    visited := [];
    if Live(sub) {
      LiveExtents(sub);
      FirstReading(sub);
    }
    while it.current[0] < it.extent[0]
      invariant it.Dims(|r.begin|) && it.Sub() == sub && (Live(sub) ==> Positive(Extents(sub)))
      invariant if Live(sub) then it.current == Reading(sub, |visited|) && |visited| <= Product(Extents(sub))
                else it.current[0] >= it.extent[0] && visited == []
      invariant Live(sub) ==> forall i :: 0 <= i < |visited| ==> visited[i] == Reading(sub, i)
      decreases if Live(sub) then Product(Extents(sub)) - |visited| else 0
    {
      ReadingsEnd(sub, |visited|);
      visited := visited + [it.current];
      NextReading(it, |visited| - 1);
    }
    if Live(sub) {
      ReadingsEnd(sub, |visited|);
      ReadingsAreShare(r, layout, numThreads, threadIdx, sub, visited);
    } else {
      forall p: Vec ensures !HandlesTiled(r, layout, numThreads, threadIdx, p) {
        DeadShare(r, layout, numThreads, threadIdx, sub, p);
      }
    }
  }
}
