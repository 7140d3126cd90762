/** How an index range is shared out among the workers of a group: the flat traversal with its two layouts. */
module IndexMap {
  import opened Arithmetic
  import opened VecIndex

  datatype Layout = Strided | Contiguous

  datatype IdxRange = IdxRange(begin: Vec, end: Vec, stride: Vec)

  ghost predicate WellFormed(r: IdxRange) {
    && |r.begin| == |r.end| == |r.stride| >= 1
    && forall d :: 0 <= d < |r.begin| ==> r.begin[d] <= r.end[d] && r.stride[d] >= 1
  }

  /** What the range stands for: every stride-th index from begin on, in every dimension. */
  ghost predicate InRange(r: IdxRange, p: Vec)
    requires WellFormed(r)
  {
    |p| == |r.begin| && forall d :: 0 <= d < |p| ==>
      r.begin[d] <= p[d] < r.end[d] && (p[d] - r.begin[d]) % r.stride[d] == 0
  }

  // ----- numbering the range -----

  /** Number of indices in each dimension. */
  function Extents(r: IdxRange): (v: Vec)
    requires WellFormed(r)
    ensures |v| == |r.begin| && forall d :: 0 <= d < |v| ==> v[d] == DivCeil(r.end[d] - r.begin[d], r.stride[d])
  {
    seq(|r.begin|, d requires 0 <= d < |r.begin| => DivCeil(r.end[d] - r.begin[d], r.stride[d]))
  }

  /** The index with steps q from begin. */
  function At(r: IdxRange, q: Vec): (p: Vec)
    requires WellFormed(r) && |q| == |r.begin|
    ensures |p| == |q| && forall d :: 0 <= d < |p| ==> p[d] == r.begin[d] + q[d] * r.stride[d]
  {
    seq(|q|, d requires 0 <= d < |q| => r.begin[d] + q[d] * r.stride[d])
  }

  lemma BelowCeil(q: nat, a: nat, s: nat)
    requires s >= 1
    ensures q < DivCeil(a, s) <==> q * s < a
  {
    var c := DivCeil(a, s);
    DivCeilCovers(a, s);
    TimesIsProduct(q, s);
    TimesIsProduct(c, s);
    if q < c {
      TimesIsProduct(c - 1, s);
      MulLeft(q, c - 1, s);
    } else {
      MulLeft(c, q, s);
    }
  }

  /** Steps inside the extents reach the range and nothing else. */
  lemma StepsReachRange(r: IdxRange, q: Vec)
    requires WellFormed(r) && InBox(q, Extents(r))
    ensures InRange(r, At(r, q))
  {
    var p := At(r, q);
    forall d | 0 <= d < |p| ensures r.begin[d] <= p[d] < r.end[d] && (p[d] - r.begin[d]) % r.stride[d] == 0 {
      assert q[d] < Extents(r)[d];
      BelowCeil(q[d], r.end[d] - r.begin[d], r.stride[d]);
      DivModUnique(q[d] * r.stride[d], r.stride[d], q[d], 0);
      assert q[d] * r.stride[d] >= 0;
    }
  }

  /** The steps that reach an index of the range. */
  function Steps(r: IdxRange, p: Vec): (q: Vec)
    requires WellFormed(r) && |p| == |r.begin| && forall d :: 0 <= d < |p| ==> r.begin[d] <= p[d]
    ensures |q| == |p| && forall d :: 0 <= d < |q| ==> q[d] == (p[d] - r.begin[d]) / r.stride[d]
  {
    seq(|p|, d requires 0 <= d < |p| => (p[d] - r.begin[d]) / r.stride[d])
  }

  lemma RangeHasSteps(r: IdxRange, p: Vec)
    requires WellFormed(r) && InRange(r, p)
    ensures InBox(Steps(r, p), Extents(r)) && At(r, Steps(r, p)) == p
  {
    var q := Steps(r, p);
    forall d | 0 <= d < |p| ensures q[d] < Extents(r)[d] && q[d] * r.stride[d] == p[d] - r.begin[d] {
      BelowCeil(q[d], r.end[d] - r.begin[d], r.stride[d]);
    }
  }

  lemma StepsUnique(r: IdxRange, q: Vec)
    requires WellFormed(r) && |q| == |r.begin|
    ensures (forall d :: 0 <= d < |q| ==> r.begin[d] <= At(r, q)[d]) && Steps(r, At(r, q)) == q
  {
    forall d | 0 <= d < |q|
      ensures r.begin[d] <= At(r, q)[d] && (At(r, q)[d] - r.begin[d]) / r.stride[d] == q[d]
    {
      assert q[d] * r.stride[d] >= 0;
      DivModUnique(q[d] * r.stride[d], r.stride[d], q[d], 0);
    }
  }

  lemma {:induction false} NonZeroFactors(v: Vec)
    requires |v| >= 1 && Product(v) >= 1
    ensures Positive(v)
  {
    if |v| > 1 {
      NonZeroFactors(v[1..]);
      forall d | 0 <= d < |v| ensures v[d] >= 1 {
        assert d >= 1 ==> v[d] == v[1..][d - 1];
      }
    } else {
      assert v[1..] == [];
    }
  }

  /** Linear number of an index in its range. */
  function Number(r: IdxRange, p: Vec): nat
    requires WellFormed(r) && InRange(r, p)
  {
    Linear(Extents(r), Steps(r, p))
  }

  /** Numbering is a bijection between the range and [0, product of the extents). */
  lemma NumberingIsBijective(r: IdxRange, p: Vec, k: nat)
    requires WellFormed(r) && InRange(r, p)
    ensures Number(r, p) < Product(Extents(r)) && Positive(Extents(r))
    ensures k == Number(r, p) <==> At(r, Unlinear(Extents(r), k)) == p
  {
    var e, q := Extents(r), Steps(r, p);
    RangeHasSteps(r, p);
    LinearInRange(e, q);
    NonZeroFactors(e);
    UnlinearLinear(e, q);
    LinearUnlinear(e, k);
    StepsUnique(r, Unlinear(e, k));
  }

  lemma NumbersReachRange(r: IdxRange, k: nat)
    requires WellFormed(r) && k < Product(Extents(r)) && Positive(Extents(r))
    ensures var p := At(r, Unlinear(Extents(r), k)); InRange(r, p) && Number(r, p) == k
  {
    var q := Unlinear(Extents(r), k);
    UnlinearInBox(Extents(r), k);
    StepsReachRange(r, q);
    NumberingIsBijective(r, At(r, q), k);
  }

  // ----- sharing the numbers out -----

  /** First number of slot w when every slot gets base numbers and the first rem slots one more. */
  function SlotFrom(base: nat, rem: nat, w: nat): nat {
    Times(w, base) + Min(w, rem)
  }

  lemma {:induction false} SlotFromOrdered(base: nat, rem: nat, a: nat, b: nat)
    requires a <= b
    ensures SlotFrom(base, rem, a) <= SlotFrom(base, rem, b)
    decreases b - a
  {
    if a < b {
      SlotFromOrdered(base, rem, a, b - 1);
    }
  }

  /** n numbers split evenly. */
  function SlotStart(n: nat, slots: nat, w: nat): nat
    requires slots >= 1
  {
    SlotFrom(n / slots, n % slots, w)
  }

  lemma WholeSlots(n: nat, slots: nat)
    requires slots >= 1
    ensures SlotFrom(n / slots, n % slots, slots) == n
  {
    TimesIsProduct(slots, n / slots);
  }

  lemma NextSlotFrom(base: nat, rem: nat, w: nat)
    ensures SlotFrom(base, rem, 0) == 0
    ensures SlotFrom(base, rem, w + 1) - SlotFrom(base, rem, w) == base + if w < rem then 1 else 0
  {
  }

  /** Slots follow each other without gap or overlap, fill [0, n) exactly and differ in size by at most one. */
  lemma SlotsPartition(n: nat, slots: nat, w: nat)
    requires slots >= 1
    ensures SlotStart(n, slots, 0) == 0 && SlotStart(n, slots, slots) == n
    ensures n / slots <= SlotStart(n, slots, w + 1) - SlotStart(n, slots, w) <= n / slots + 1
  {
    WholeSlots(n, slots);
    NextSlotFrom(n / slots, n % slots, w);
  }

  lemma SlotsOrdered(n: nat, slots: nat, a: nat, b: nat)
    requires slots >= 1 && a <= b
    ensures SlotStart(n, slots, a) <= SlotStart(n, slots, b)
  {
    SlotFromOrdered(n / slots, n % slots, a, b);
  }

  /** The slot that holds k: the last one, among the first `slots`, that does not start behind it. */
  function SlotOf(n: nat, slots: nat, k: nat, upTo: nat): nat
    requires slots >= 1
  {
    if upTo == 0 then 0 else if SlotStart(n, slots, upTo - 1) <= k then upTo - 1 else SlotOf(n, slots, k, upTo - 1)
  }

  lemma {:induction false} SlotOfUpTo(n: nat, slots: nat, k: nat, upTo: nat)
    requires slots >= 1 && upTo >= 1
    ensures var s := SlotOf(n, slots, k, upTo);
      && s < upTo && SlotStart(n, slots, s) <= k
      && (s + 1 < upTo ==> k < SlotStart(n, slots, s + 1))
  {
    if SlotStart(n, slots, upTo - 1) <= k {
    } else if upTo == 1 {
      SlotsPartition(n, slots, 0);
    } else {
      SlotOfUpTo(n, slots, k, upTo - 1);
    }
  }

  /** Every number below n has exactly one slot. */
  lemma OneSlotEach(n: nat, slots: nat, k: nat, w: nat)
    requires slots >= 1 && k < n && w < slots
    ensures SlotStart(n, slots, w) <= k < SlotStart(n, slots, w + 1) <==> w == SlotOf(n, slots, k, slots)
    ensures SlotOf(n, slots, k, slots) < slots
  {
    var s := SlotOf(n, slots, k, slots);
    SlotOfUpTo(n, slots, k, slots);
    SlotsPartition(n, slots, 0);
    if w < s {
      SlotsOrdered(n, slots, w + 1, s);
    } else if w > s {
      SlotsOrdered(n, slots, s + 1, w);
    }
  }

  /** Linear number of the worker that handles number k of n. */
  function Handler(layout: Layout, n: nat, workers: nat, k: nat): nat
    requires workers >= 1
  {
    match layout
    case Strided => k % workers
    case Contiguous => SlotOf(n, workers, k, workers)
  }

  /** The two layouts in the source's own arithmetic: remainders, or slots of base numbers, the first rem of them
      with one more. */
  lemma HandlerIs(layout: Layout, n: nat, workers: nat, slot: nat, k: nat)
    requires k < n && slot < workers
    ensures var base, rem := n / workers, n % workers;
      Handler(layout, n, workers, k) == slot <==>
        match layout
        case Strided => k % workers == slot
        case Contiguous => slot * base + Min(slot, rem) <= k < (slot + 1) * base + Min(slot + 1, rem)
  {
    if layout == Contiguous {
      OneSlotEach(n, workers, k, slot);
      SlotStartIs(n, workers, slot);
      SlotStartIs(n, workers, slot + 1);
    }
  }

  lemma SlotStartIs(n: nat, slots: nat, w: nat)
    requires slots >= 1
    ensures SlotStart(n, slots, w) == w * (n / slots) + Min(w, n % slots)
  {
    TimesIsProduct(w, n / slots);
  }

  lemma OneNumberEach(layout: Layout, n: nat, workers: nat, k: nat)
    requires k < n <= workers
    ensures Handler(layout, n, workers, k) == k
  {
    match layout
    case Strided =>
      DivModUnique(k, workers, 0, k);
    case Contiguous =>
      if n < workers { DivModUnique(n, workers, 0, n); } else { DivModUnique(n, workers, 1, 0); }
      TimesIsProduct(k, n / workers);
      TimesIsProduct(k + 1, n / workers);
      OneSlotEach(n, workers, k, k);
  }

  /** Two numbers that meet at one worker when there are more numbers than workers. */
  lemma SharedWorker(layout: Layout, n: nat, workers: nat) returns (j: nat, k: nat)
    requires 1 <= workers < n
    ensures j < k < n && Handler(layout, n, workers, j) == Handler(layout, n, workers, k)
  {
    match layout
    case Strided =>
      j, k := 0, workers;
      DivModUnique(workers, workers, 1, 0);
    case Contiguous =>
      j, k := 0, 1;
      SecondSlot(n, workers);
      OneSlotEach(n, workers, 0, 0);
      OneSlotEach(n, workers, 1, 0);
  }

  lemma SecondSlot(n: nat, workers: nat)
    requires 1 <= workers < n
    ensures SlotStart(n, workers, 0) == 0 && SlotStart(n, workers, 1) >= 2
  {
    var base, rem := n / workers, n % workers;
    WholeSlots(n, workers);
    NextSlotFrom(base, rem, 0);
    if base == 0 {
      TimesIsProduct(workers, 0);
    } else if base == 1 {
      TimesIsProduct(workers, 1);
    }
  }

  /** No worker gets two numbers exactly when there are enough workers; then worker k gets number k. What a worker
      keeps from one loop to the next belongs to the same number only under this condition. */
  lemma OneEachExactlyWhen(layout: Layout, n: nat, workers: nat)
    requires workers >= 1
    ensures (forall j: nat, k: nat :: j < k < n ==> Handler(layout, n, workers, j) != Handler(layout, n, workers, k))
            <==> n <= workers
  {
    if n <= workers {
      forall j: nat, k: nat | j < k < n
        ensures Handler(layout, n, workers, j) != Handler(layout, n, workers, k)
      {
        OneNumberEach(layout, n, workers, j);
        OneNumberEach(layout, n, workers, k);
      }
    } else {
      var j, k := SharedWorker(layout, n, workers);
    }
  }

  /** Worker `slot` is the one that gets index p of the range. */
  ghost predicate Handles(r: IdxRange, layout: Layout, workers: nat, slot: nat, p: Vec)
    requires WellFormed(r) && workers >= 1
  {
    InRange(r, p) && Handler(layout, Product(Extents(r)), workers, Number(r, p)) == slot
  }

  /** Each index of the range goes to exactly one thread of the group. */
  lemma OneThreadEach(r: IdxRange, layout: Layout, numThreads: Vec, p: Vec) returns (owner: Vec)
    requires WellFormed(r) && Positive(numThreads) && InRange(r, p)
    ensures Product(numThreads) >= 1 && InBox(owner, numThreads)
    ensures forall t: Vec :: InBox(t, numThreads) ==>
      (Handles(r, layout, Product(numThreads), Linear(numThreads, t), p) <==> t == owner)
  {
    ProductPositive(numThreads);
    NumberingIsBijective(r, p, 0);
    var workers := Product(numThreads);
    var slot := Handler(layout, Product(Extents(r)), workers, Number(r, p));
    if layout == Contiguous {
      OneSlotEach(Product(Extents(r)), workers, Number(r, p), 0);
    }
    owner := Unlinear(numThreads, slot);
    UnlinearInBox(numThreads, slot);
    LinearUnlinear(numThreads, slot);
    forall t: Vec | InBox(t, numThreads) ensures Linear(numThreads, t) == slot <==> t == owner {
      LinearOrderIsLexicographic(numThreads, t, owner);
    }
  }

  // ----- one worker's loop -----

  /** k is one of the n numbers and handled by worker `slot`. */
  ghost predicate Mine(layout: Layout, n: nat, workers: nat, slot: nat, k: nat)
    requires workers >= 1
  {
    k < n && Handler(layout, n, workers, k) == slot
  }

  /** A worker's linear counter stands on the first of its numbers from `lo` on, or behind them all. */
  ghost predicate Counter(layout: Layout, n: nat, workers: nat, slot: nat, lo: nat, current: nat, end: nat)
    requires workers >= 1
  {
    && lo <= current
    && match layout {
         case Strided => end == n && current % workers == slot
         case Contiguous => end <= n && forall k :: current <= k < end ==> Mine(layout, n, workers, slot, k)
       }
    && (forall k: nat :: Mine(layout, n, workers, slot, k) && lo <= k ==> current <= k < end)
  }

  method StridedBounds(n: nat, workers: nat, slot: nat) returns (current: nat, end: nat, stride: nat)
    requires slot < workers
    ensures current == slot && end == n && stride == workers
    ensures Counter(Strided, n, workers, slot, 0, current, end)
  {
    current, end, stride := slot, n, workers;
    forall k: nat | Mine(Strided, n, workers, slot, k) ensures current <= k < end {
      assert k / workers * workers >= 0;
    }
    DivModUnique(slot, workers, 0, slot);
  }

  method ContiguousBounds(n: nat, slots: nat, slot: nat) returns (current: nat, end: nat, stride: nat)
    requires slot < slots
    ensures current == slot * (n / slots) + Min(slot, n % slots) && stride == 1
    ensures end == Min((slot + 1) * (n / slots) + Min(slot + 1, n % slots), n)
    ensures Counter(Contiguous, n, slots, slot, 0, current, end)
  {
    // elements per slot; the remaining ones go to the slots with numbers below rem
    var base, rem := n / slots, n % slots;
    current := slot * base + Min(slot, rem);
    var linearEnd := (slot + 1) * base + Min(slot + 1, rem);
    TimesIsProduct(slot, base);
    TimesIsProduct(slot + 1, base);
    end, stride := Min(linearEnd, n), 1;
    ContiguousCounter(n, slots, slot);
  }

  lemma ContiguousCounter(n: nat, slots: nat, slot: nat)
    requires slot < slots
    ensures Counter(Contiguous, n, slots, slot, 0, SlotStart(n, slots, slot), Min(SlotStart(n, slots, slot + 1), n))
  {
    SlotsPartition(n, slots, slot);
    SlotsPartition(n, slots, 0);
    SlotsOrdered(n, slots, slot + 1, slots);
    forall k: nat | k < n
      ensures SlotStart(n, slots, slot) <= k < SlotStart(n, slots, slot + 1) <==> Mine(Contiguous, n, slots, slot, k)
    {
      OneSlotEach(n, slots, k, slot);
    }
  }

  lemma NextCounter(layout: Layout, n: nat, workers: nat, slot: nat, lo: nat, current: nat, end: nat, stride: nat)
    requires workers >= 1 && Counter(layout, n, workers, slot, lo, current, end) && current < end
    requires stride == match layout case Strided => workers case Contiguous => 1
    ensures Counter(layout, n, workers, slot, current + 1, current + stride, end)
  {
    match layout
    case Strided =>
      SameRemainder(current, workers);
      forall k: nat | Mine(layout, n, workers, slot, k) && current + 1 <= k ensures current + workers <= k {
        NextSameRemainder(current, k, workers);
      }
    case Contiguous =>
  }

  /** Numbers handled so far, in order, and where they lie in the range. */
  ghost predicate VisitedSoFar(layout: Layout, n: nat, workers: nat, slot: nat, lo: nat, nums: seq<nat>)
    requires workers >= 1
  {
    && (forall i, j :: 0 <= i < j < |nums| ==> nums[i] < nums[j])
    && (forall k: nat :: k in nums <==> k < lo && Mine(layout, n, workers, slot, k))
  }

  lemma VisitNext(layout: Layout, n: nat, workers: nat, slot: nat, lo: nat, current: nat, end: nat, nums: seq<nat>)
    requires workers >= 1 && Counter(layout, n, workers, slot, lo, current, end)
    requires VisitedSoFar(layout, n, workers, slot, lo, nums)
    ensures current >= end ==> VisitedSoFar(layout, n, workers, slot, n, nums)
    ensures current < end ==> current < n && VisitedSoFar(layout, n, workers, slot, current + 1, nums + [current])
  {
    if current < end {
      assert Mine(layout, n, workers, slot, current);
      forall i, j | 0 <= i < j < |nums| + 1 ensures (nums + [current])[i] < (nums + [current])[j] {
        assert nums[i] in nums;
      }
    }
  }

  ghost predicate Dereferenced(r: IdxRange, nums: seq<nat>, visited: seq<Vec>)
    requires WellFormed(r) && (nums != [] ==> Positive(Extents(r)))
  {
    && |visited| == |nums|
    && forall i {:trigger nums[i]} :: 0 <= i < |nums| ==> visited[i] == At(r, Unlinear(Extents(r), nums[i]))
  }

  method Dereference(r: IdxRange, extents: Vec, current: nat, visited: seq<Vec>, ghost nums: seq<nat>)
    returns (visited': seq<Vec>)
    requires WellFormed(r) && extents == Extents(r) && Positive(extents) && Dereferenced(r, nums, visited)
    ensures Dereferenced(r, nums + [current], visited')
  {
    var q := MapToND(extents, current);
    visited' := visited + [At(r, q)];
  }

  method Bounds(layout: Layout, n: nat, workers: nat, slot: nat) returns (current: nat, end: nat, stride: nat)
    requires slot < workers
    ensures Counter(layout, n, workers, slot, 0, current, end)
    ensures stride == match layout case Strided => workers case Contiguous => 1
  {
    match layout
    case Strided => current, end, stride := StridedBounds(n, workers, slot);
    case Contiguous => current, end, stride := ContiguousBounds(n, workers, slot);
  }

  /** One worker's iteration: dereference and advance until the end. */
  method Traverse(r: IdxRange, layout: Layout, numThreads: Vec, threadIdx: Vec) returns (visited: seq<Vec>)
    requires WellFormed(r) && Positive(numThreads) && InBox(threadIdx, numThreads)
    ensures Product(numThreads) >= 1
    ensures forall p: Vec :: p in visited <==>
      Handles(r, layout, Product(numThreads), Linear(numThreads, threadIdx), p)
    ensures forall p: Vec :: p in visited <==> (InRange(r, p) &&
      Handler(layout, Product(Extents(r)), Product(numThreads), Number(r, p)) == Linear(numThreads, threadIdx))
    ensures forall i, j :: 0 <= i < j < |visited| ==> visited[i] != visited[j]
  {
    ProductPositive(numThreads);
    LinearInRange(numThreads, threadIdx);
    var extents := Extents(r);
    var n := ProductOf(extents);
    var workers := ProductOf(numThreads);
    var slot := Linearize(numThreads, threadIdx);
    visited := TraverseSlot(r, layout, extents, n, workers, slot);
  }

  method TraverseSlot(r: IdxRange, layout: Layout, extents: Vec, n: nat, workers: nat, slot: nat)
    returns (visited: seq<Vec>)
    requires WellFormed(r) && extents == Extents(r) && n == Product(extents) && slot < workers
    ensures forall p: Vec :: p in visited <==> Handles(r, layout, workers, slot, p)
    ensures forall i, j :: 0 <= i < j < |visited| ==> visited[i] != visited[j]
  {
    var current, end, stride := Bounds(layout, n, workers, slot);
    visited := [];
    ghost var nums: seq<nat>, lo := [], 0;
    while current < end
      invariant Counter(layout, n, workers, slot, lo, current, end)
      invariant VisitedSoFar(layout, n, workers, slot, lo, nums)
      invariant nums != [] ==> n >= 1 && Positive(extents)
      invariant Dereferenced(r, nums, visited)
    {
      VisitNext(layout, n, workers, slot, lo, current, end, nums);
      NextCounter(layout, n, workers, slot, lo, current, end, stride);
      NonZeroFactors(extents);
      visited := Dereference(r, extents, current, visited, nums);
      nums, lo, current := nums + [current], current + 1, current + stride;
    }
    VisitNext(layout, n, workers, slot, lo, current, end, nums);
    VisitedPositions(r, layout, n, workers, slot, nums, visited);
  }

  /** A loop over the numbers in [first, end). */
  method TraverseSpan(r: IdxRange, first: nat, end: nat) returns (visited: seq<Vec>)
    requires WellFormed(r) && end <= Product(Extents(r))
    ensures forall p: Vec :: p in visited <==> InRange(r, p) && first <= Number(r, p) < end
    ensures forall i, j :: 0 <= i < j < |visited| ==> visited[i] != visited[j]
  {
    var extents := Extents(r);
    var current := first;
    visited := [];
    ghost var nums: seq<nat> := [];
    while current < end
      invariant first <= current && (current <= end || nums == [])
      invariant |nums| == current - first && forall i :: 0 <= i < |nums| ==> nums[i] == first + i
      invariant nums != [] ==> Positive(extents)
      invariant Dereferenced(r, nums, visited)
    {
      NonZeroFactors(extents);
      visited := Dereference(r, extents, current, visited, nums);
      nums, current := nums + [current], current + 1;
    }
    VisitedNumbers(r, nums, visited);
    forall k: nat ensures k in nums <==> first <= k < end {
      assert first <= k < end ==> nums[k - first] == k;
    }
  }

  /** Dereferencing distinct numbers reaches the indices that have these numbers. */
  lemma VisitedNumbers(r: IdxRange, nums: seq<nat>, visited: seq<Vec>)
    requires WellFormed(r) && (nums != [] ==> Positive(Extents(r))) && Dereferenced(r, nums, visited)
    requires forall i :: 0 <= i < |nums| ==> nums[i] < Product(Extents(r))
    requires forall i, j :: 0 <= i < j < |nums| ==> nums[i] != nums[j]
    ensures forall p: Vec :: p in visited <==> InRange(r, p) && Number(r, p) in nums
    ensures forall i, j :: 0 <= i < j < |visited| ==> visited[i] != visited[j]
  {
    forall i | 0 <= i < |nums| ensures InRange(r, visited[i]) && Number(r, visited[i]) == nums[i] {
      NumbersReachRange(r, nums[i]);
    }
    forall p: Vec | InRange(r, p) && Number(r, p) in nums ensures p in visited {
      NumberingIsBijective(r, p, Number(r, p));
    }
  }

  /** The worker's indices are the ones with its numbers. */
  lemma VisitedPositions(r: IdxRange, layout: Layout, n: nat, workers: nat, slot: nat, nums: seq<nat>,
                         visited: seq<Vec>)
    requires WellFormed(r) && n == Product(Extents(r)) && workers >= 1
    requires (nums != [] ==> Positive(Extents(r))) && Dereferenced(r, nums, visited)
    requires VisitedSoFar(layout, n, workers, slot, n, nums)
    ensures forall p: Vec :: p in visited <==> Handles(r, layout, workers, slot, p)
    ensures forall i, j :: 0 <= i < j < |visited| ==> visited[i] != visited[j]
  {
    forall i | 0 <= i < |nums| ensures nums[i] < n {
      assert nums[i] in nums;
    }
    VisitedNumbers(r, nums, visited);
    forall p: Vec | InRange(r, p)
      ensures Number(r, p) in nums <==> Handler(layout, n, workers, Number(r, p)) == slot
    {
      NumberingIsBijective(r, p, 0);
      assert Number(r, p) in nums <==> Mine(layout, n, workers, slot, Number(r, p));
    }
  }
}
