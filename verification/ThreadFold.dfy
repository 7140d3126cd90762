/** Folding a thread space onto some of its dimensions: ThreadSpace::mapTo gives the threads of the other dimensions
    to the slowest selected one. */
module ThreadFold {
  import opened Arithmetic
  import opened VecIndex
  import Sums

  /** A selection names each of its dimensions once. */
  ghost predicate Selection(n: nat, sel: seq<nat>) {
    && |sel| >= 1 && (forall i :: 0 <= i < |sel| ==> sel[i] < n)
    && (forall i, j :: 0 <= i < j < |sel| ==> sel[i] != sel[j])
  }

  /** The other dimensions, in order. */
  function Others(n: nat, sel: seq<nat>): (r: seq<nat>)
    ensures forall d: nat :: d in r <==> d < n && d !in sel
    ensures forall i :: 0 <= i < |r| ==> r[i] < n && r[i] !in sel
    ensures forall i, j :: 0 <= i < j < |r| ==> r[i] != r[j]
  {
    if n == 0 then [] else Others(n - 1, sel) + if n - 1 in sel then [] else [n - 1]
  }

  /** With as many dimensions selected as there are, nothing is folded. */
  function Rest(n: nat, sel: seq<nat>): (r: seq<nat>)
    ensures forall i :: 0 <= i < |r| ==> r[i] < n && r[i] !in sel
    ensures forall i, j :: 0 <= i < j < |r| ==> r[i] != r[j]
  {
    if |sel| >= n then [] else Others(n, sel)
  }

  function Pick(v: Vec, dims: seq<nat>): (r: Vec)
    requires forall i :: 0 <= i < |dims| ==> dims[i] < |v|
    ensures |r| == |dims| && forall i :: 0 <= i < |r| ==> r[i] == v[dims[i]]
  {
    seq(|dims|, i requires 0 <= i < |dims| => v[dims[i]])
  }

  function SumOf(v: Vec): nat {
    if v == [] then 0 else SumOf(v[..|v| - 1]) + v[|v| - 1]
  }

  lemma {:induction false} SumOfIsSum(v: Vec)
    ensures SumOf(v) == Sums.Sum(v, 0, |v|)
  {
    if v != [] {
      var k := |v| - 1;
      SumOfIsSum(v[..k]);
      Sums.SumShifted(v[..k], v, 0, k, 0);
    }
  }

  // ----- folding the thread space -----

  /** v with `first` at the slowest selected dimension and `fill` at the dimensions in rest. */
  function Fold(v: Vec, at: nat, rest: seq<nat>, first: nat, fill: nat): (r: Vec)
    ensures |r| == |v|
    ensures forall d :: 0 <= d < |v| ==> r[d] == if d == at then first else if d in rest then fill else v[d]
  {
    seq(|v|, d requires 0 <= d < |v| => if d == at then first else if d in rest then fill else v[d])
  }

  lemma FoldOneMore(v: Vec, at: nat, rest: seq<nat>, x: nat, first: nat, first': nat, fill: nat)
    requires x < |rest| && rest[x] < |v| && at < |v| && at !in rest && rest[x] !in rest[..x]
    ensures Fold(v, at, rest[..x], first, fill)[rest[x]] == v[rest[x]] && rest[x] != at
    ensures Fold(v, at, rest[..x + 1], first', fill)
         == Fold(v, at, rest[..x], first, fill)[rest[x] := fill][at := first']
  {
    assert rest[..x + 1] == rest[..x] + [rest[x]];
  }

  ghost predicate Within(dims: seq<nat>, n: nat) { forall i :: 0 <= i < |dims| ==> dims[i] < n }

  /** The slowest selected coordinate takes up the other ones ... */
  function FirstIdx(idx: Vec, count: Vec, at: nat, rest: seq<nat>): nat
    requires |idx| == |count| && at < |idx| && Within(rest, |idx|)
  {
    idx[at] + SumOf(Pick(idx, rest)) * count[at]
  }

  /** ... and their counts. */
  function FirstCount(count: Vec, at: nat, rest: seq<nat>): nat
    requires at < |count| && Within(rest, |count|)
  {
    count[at] * Product(Pick(count, rest))
  }

  function FoldedIdx(idx: Vec, count: Vec, sel: seq<nat>): (r: Vec)
    requires |idx| == |count| && Selection(|idx|, sel)
    ensures |r| == |idx|
  {
    var rest := Rest(|idx|, sel);
    Fold(idx, sel[0], rest, FirstIdx(idx, count, sel[0], rest), 0)
  }

  function FoldedCount(count: Vec, sel: seq<nat>): (r: Vec)
    requires Selection(|count|, sel)
    ensures |r| == |count|
  {
    var rest := Rest(|count|, sel);
    Fold(count, sel[0], rest, FirstCount(count, sel[0], rest), 1)
  }

  /** One dimension of the first loop of mapTo. */
  method FoldIdx(idx: Vec, count: Vec, at: nat, rest: seq<nat>, x: nat, threadIndex: Vec) returns (threadIndex': Vec)
    requires |idx| == |count| && at < |idx| && Within(rest, |idx|) && at !in rest
    requires x < |rest| && rest[x] !in rest[..x]
    requires threadIndex == Fold(idx, at, rest[..x], FirstIdx(idx, count, at, rest[..x]), 0)
    ensures threadIndex' == Fold(idx, at, rest[..x + 1], FirstIdx(idx, count, at, rest[..x + 1]), 0)
  {
    var d := rest[x];
    var before := threadIndex[d];
    FoldOneMore(idx, at, rest, x, FirstIdx(idx, count, at, rest[..x]), FirstIdx(idx, count, at, rest[..x + 1]), 0);
    AddOne(idx, count, at, rest, x);
    threadIndex' := threadIndex[d := 0];
    threadIndex' := threadIndex'[at := threadIndex'[at] + before * count[at]];
  }

  lemma AddOne(idx: Vec, count: Vec, at: nat, rest: seq<nat>, x: nat)
    requires |idx| == |count| && at < |idx| && Within(rest, |idx|) && x < |rest|
    ensures FirstIdx(idx, count, at, rest[..x + 1]) == FirstIdx(idx, count, at, rest[..x]) + idx[rest[x]] * count[at]
  {
    PickNext(idx, rest, x);
    Spread(SumOf(Pick(idx, rest[..x])), idx[rest[x]], count[at]);
  }

  lemma Spread(a: nat, b: nat, c: nat)
    ensures (a + b) * c == a * c + b * c
  {
  }

  /** The first loop: the thread index. */
  method MapIdx(idx: Vec, count: Vec, sel: seq<nat>) returns (threadIndex: Vec)
    requires |idx| == |count| && Selection(|idx|, sel)
    ensures threadIndex == FoldedIdx(idx, count, sel)
  {
    threadIndex := idx;
    var rest, s := Rest(|idx|, sel), sel[0];
    NothingFolded(idx, count, s);
    assert rest[..0] == [];
    for x := 0 to |rest|
      invariant threadIndex == Fold(idx, s, rest[..x], FirstIdx(idx, count, s, rest[..x]), 0)
    {
      threadIndex := FoldIdx(idx, count, s, rest, x, threadIndex);
    }
    assert rest[..|rest|] == rest;
  }

  lemma NothingFolded(idx: Vec, count: Vec, at: nat)
    requires |idx| == |count| && at < |idx|
    ensures Fold(idx, at, [], FirstIdx(idx, count, at, []), 0) == idx
    ensures Fold(count, at, [], FirstCount(count, at, []), 1) == count
  {
  }

  /** One dimension of the second loop. */
  method FoldCount(count: Vec, at: nat, rest: seq<nat>, x: nat, numThreads: Vec) returns (numThreads': Vec)
    requires at < |count| && Within(rest, |count|) && at !in rest && x < |rest| && rest[x] !in rest[..x]
    requires numThreads == Fold(count, at, rest[..x], FirstCount(count, at, rest[..x]), 1)
    ensures numThreads' == Fold(count, at, rest[..x + 1], FirstCount(count, at, rest[..x + 1]), 1)
  {
    var d := rest[x];
    var before := numThreads[d];
    FoldOneMore(count, at, rest, x, FirstCount(count, at, rest[..x]), FirstCount(count, at, rest[..x + 1]), 1);
    MultiplyOne(count, at, rest, x);
    numThreads' := numThreads[d := 1];
    numThreads' := numThreads'[at := numThreads'[at] * before];
  }

  lemma MultiplyOne(count: Vec, at: nat, rest: seq<nat>, x: nat)
    requires at < |count| && Within(rest, |count|) && x < |rest|
    ensures FirstCount(count, at, rest[..x + 1]) == FirstCount(count, at, rest[..x]) * count[rest[x]]
  {
    PickNext(count, rest, x);
    Associate(count[at], Product(Pick(count, rest[..x])), count[rest[x]]);
  }

  /** The second loop: the thread count. */
  method MapCount(count: Vec, sel: seq<nat>) returns (numThreads: Vec)
    requires Selection(|count|, sel)
    ensures numThreads == FoldedCount(count, sel)
  {
    numThreads := count;
    var rest, s := Rest(|count|, sel), sel[0];
    NothingFolded(count, count, s);
    assert rest[..0] == [];
    for x := 0 to |rest|
      invariant numThreads == Fold(count, s, rest[..x], FirstCount(count, s, rest[..x]), 1)
    {
      numThreads := FoldCount(count, s, rest, x, numThreads);
    }
    assert rest[..|rest|] == rest;
  }

  lemma PickNext(v: Vec, rest: seq<nat>, x: nat)
    requires x < |rest| && forall i :: 0 <= i < |rest| ==> rest[i] < |v|
    ensures SumOf(Pick(v, rest[..x + 1])) == SumOf(Pick(v, rest[..x])) + v[rest[x]]
    ensures Product(Pick(v, rest[..x + 1])) == Product(Pick(v, rest[..x])) * v[rest[x]]
  {
    var p := Pick(v, rest[..x + 1]);
    assert p[..x] == Pick(v, rest[..x]);
    ProductBack(p);
  }

  // ----- when folding is one to one -----

  /** At most one of the folded dimensions has more than one thread. */
  ghost predicate AtMostOneFolded(count: Vec, rest: seq<nat>)
    requires Within(rest, |count|)
  {
    forall i, j :: 0 <= i < j < |rest| ==> count[rest[i]] == 1 || count[rest[j]] == 1
  }

  ghost predicate Space(count: Vec, sel: seq<nat>) { Positive(count) && Selection(|count|, sel) }

  lemma {:induction false} SumBelowProduct(o: Vec, count: Vec)
    requires InBox(o, count)
    ensures SumOf(o) < Product(count)
  {
    if o != [] {
      var k := |o| - 1;
      assert o[k] < count[k] && InBox(o[..k], count[..k]);
      SumBelowProduct(o[..k], count[..k]);
      ProductBack(count);
      BelowProduct(SumOf(o[..k]), o[k], Product(count[..k]), count[k]);
    }
  }

  lemma BelowProduct(s: nat, x: nat, p: nat, c: nat)
    requires s < p && x < c
    ensures s + x < p * c
  {
    MulLeft(s + 1, p, c);
    MulLeft(1, c, s);
    assert (s + 1) * c == s * c + c;
  }

  /** A folded index lies in the folded box. */
  lemma FoldInBox(idx: Vec, count: Vec, sel: seq<nat>)
    requires Space(count, sel) && InBox(idx, count)
    ensures Positive(FoldedCount(count, sel)) && InBox(FoldedIdx(idx, count, sel), FoldedCount(count, sel))
  {
    var rest, at := Rest(|idx|, sel), sel[0];
    FirstInRange(idx, count, at, rest);
    FoldKeepsBox(idx, count, at, rest, FirstIdx(idx, count, at, rest), FirstCount(count, at, rest));
  }

  lemma FirstInRange(idx: Vec, count: Vec, at: nat, rest: seq<nat>)
    requires InBox(idx, count) && at < |idx| && Within(rest, |idx|)
    ensures FirstIdx(idx, count, at, rest) < FirstCount(count, at, rest)
  {
    forall i | 0 <= i < |rest| ensures Pick(idx, rest)[i] < Pick(count, rest)[i] {
      assert idx[rest[i]] < count[rest[i]];
    }
    SumBelowProduct(Pick(idx, rest), Pick(count, rest));
    assert idx[at] < count[at];
    FirstBelow(idx[at], count[at], SumOf(Pick(idx, rest)), Product(Pick(count, rest)));
  }

  lemma FoldKeepsBox(idx: Vec, count: Vec, at: nat, rest: seq<nat>, i: nat, c: nat)
    requires InBox(idx, count) && Positive(count) && i < c
    ensures Positive(Fold(count, at, rest, c, 1)) && InBox(Fold(idx, at, rest, i, 0), Fold(count, at, rest, c, 1))
  {
    forall d | 0 <= d < |idx| ensures Fold(idx, at, rest, i, 0)[d] < Fold(count, at, rest, c, 1)[d] {
      assert idx[d] < count[d];
    }
  }

  lemma FirstBelow(x: nat, c: nat, s: nat, p: nat)
    requires x < c && s < p
    ensures x + s * c < c * p && c * p >= 1
  {
    MulLeft(s + 1, p, c);
    assert (s + 1) * c == s * c + c && c * p == p * c;
  }

  lemma OnlyZeros(a: Vec, count: Vec, k: nat)
    requires InBox(a, count) && k < |a| && forall i :: 0 <= i < k ==> count[i] == 1
    ensures SumOf(a[..k]) == 0
  {
    forall i | 0 <= i < k ensures a[i] == 0 {
      assert a[i] < count[i];
    }
    SumOfZeros(a[..k]);
  }

  /** The last component is zero, or the ones before it are. */
  lemma LastDetermined(a: Vec, b: Vec, count: Vec, k: nat)
    requires InBox(a, count) && InBox(b, count) && SumOf(a) == SumOf(b) && |a| == k + 1
    requires forall i :: 0 <= i < k ==> count[i] == 1 || count[k] == 1
    ensures a[k] == b[k]
  {
    assert a[k] < count[k] && b[k] < count[k];
    if count[k] > 1 {
      OnlyZeros(a, count, k);
      OnlyZeros(b, count, k);
    }
  }

  lemma {:induction false} SumDetermines(a: Vec, b: Vec, count: Vec)
    requires InBox(a, count) && InBox(b, count) && SumOf(a) == SumOf(b)
    requires forall i, j :: 0 <= i < j < |count| ==> count[i] == 1 || count[j] == 1
    ensures a == b
  {
    if a != [] {
      var k := |a| - 1;
      LastDetermined(a, b, count, k);
      BoxPrefix(a, count, k);
      BoxPrefix(b, count, k);
      SumDetermines(a[..k], b[..k], count[..k]);
      assert a == a[..k] + [a[k]] && b == b[..k] + [b[k]];
    }
  }

  lemma BoxPrefix(a: Vec, count: Vec, k: nat)
    requires InBox(a, count) && k <= |a|
    ensures InBox(a[..k], count[..k])
  {
  }

  lemma {:induction false} SumOfZeros(v: Vec)
    requires forall i :: 0 <= i < |v| ==> v[i] == 0
    ensures SumOf(v) == 0
  {
    if v != [] {
      SumOfZeros(v[..|v| - 1]);
    }
  }

  lemma {:induction false} SumOfSingle(v: Vec, i: nat)
    requires i < |v| && forall j :: 0 <= j < |v| && j != i ==> v[j] == 0
    ensures SumOf(v) == v[i]
  {
    var k := |v| - 1;
    if i == k {
      SumOfZeros(v[..k]);
    } else {
      SumOfSingle(v[..k], i);
    }
  }

  lemma {:induction false} ProductOfSingle(v: Vec, i: nat)
    requires i < |v| && forall j :: 0 <= j < |v| && j != i ==> v[j] == 1
    ensures Product(v) == v[i]
  {
    if i == 0 {
      ProductOfOnes(v[1..]);
    } else {
      ProductOfSingle(v[1..], i - 1);
    }
  }

  lemma FoldedApart(a: Vec, b: Vec, count: Vec, sel: seq<nat>)
    requires Space(count, sel) && InBox(a, count) && InBox(b, count) && AtMostOneFolded(count, Rest(|count|, sel))
    requires FoldedIdx(a, count, sel) == FoldedIdx(b, count, sel)
    ensures a == b
  {
    var rest, at := Rest(|a|, sel), sel[0];
    var pa, pb, pc := Pick(a, rest), Pick(b, rest), Pick(count, rest);
    assert a[at] < count[at] && b[at] < count[at];
    var first := FoldedIdx(a, count, sel)[at];
    DivModUnique(first, count[at], SumOf(pa), a[at]);
    DivModUnique(first, count[at], SumOf(pb), b[at]);
    forall i | 0 <= i < |rest| ensures pa[i] < pc[i] && pb[i] < pc[i] {
      assert a[rest[i]] < count[rest[i]] && b[rest[i]] < count[rest[i]];
    }
    SumDetermines(pa, pb, pc);
    forall d | 0 <= d < |a| ensures a[d] == b[d] {
      if d in rest {
        var i :| 0 <= i < |rest| && rest[i] == d;
        assert pa[i] == pb[i];
      } else if d != at {
        assert FoldedIdx(a, count, sel)[d] == FoldedIdx(b, count, sel)[d];
      }
    }
  }

  function Same(n: nat, x: nat): (r: Vec)
    ensures |r| == n && forall d :: 0 <= d < n ==> r[d] == x
  {
    seq(n, d => x)
  }

  function Unit(n: nat, k: nat): (r: Vec)
    ensures |r| == n && forall d :: 0 <= d < n ==> r[d] == if d == k then 1 else 0
  {
    seq(n, d => if d == k then 1 else 0)
  }

  lemma UnitInBox(count: Vec, k: nat)
    requires Positive(count) && k < |count| && count[k] > 1
    ensures InBox(Unit(|count|, k), count)
  {
  }

  /** A step in a folded dimension counts like a whole row of the slowest selected one. */
  lemma UnitFirst(count: Vec, at: nat, rest: seq<nat>, i: nat)
    requires at < |count| && Within(rest, |count|) && at !in rest
    requires i < |rest| && forall j :: 0 <= j < |rest| && j != i ==> rest[j] != rest[i]
    ensures FirstIdx(Unit(|count|, rest[i]), count, at, rest) == count[at]
  {
    var u := Unit(|count|, rest[i]);
    SumOfSingle(Pick(u, rest), i);
    assert u[at] == 0;
  }

  lemma FoldedUnit(n: nat, at: nat, rest: seq<nat>, i: nat, first: nat)
    requires i < |rest| && Within(rest, n) && at < n
    ensures Fold(Unit(n, rest[i]), at, rest, first, 0) == Same(n, 0)[at := first]
  {
    var f, g := Fold(Unit(n, rest[i]), at, rest, first, 0), Same(n, 0)[at := first];
    forall d | 0 <= d < n ensures f[d] == g[d] {
    }
  }

  lemma UnitFolded(count: Vec, sel: seq<nat>, i: nat)
    requires Space(count, sel) && i < |Rest(|count|, sel)|
    ensures FoldedIdx(Unit(|count|, Rest(|count|, sel)[i]), count, sel) == Same(|count|, 0)[sel[0] := count[sel[0]]]
  {
    var rest, at := Rest(|count|, sel), sel[0];
    UnitFirst(count, at, rest, i);
    FoldedUnit(|count|, at, rest, i, count[at]);
  }

  /** Two thread indices that mapTo takes to one. */
  ghost predicate FoldedAlike(a: Vec, b: Vec, count: Vec, sel: seq<nat>)
    requires Space(count, sel)
  {
    InBox(a, count) && InBox(b, count) && FoldedIdx(a, count, sel) == FoldedIdx(b, count, sel)
  }

  /** One step in either of two folded dimensions leads to the same folded index. */
  lemma FoldedTogether(count: Vec, sel: seq<nat>) returns (a: Vec, b: Vec)
    requires Space(count, sel) && !AtMostOneFolded(count, Rest(|count|, sel))
    ensures a != b && FoldedAlike(a, b, count, sel)
  {
    var n, rest := |count|, Rest(|count|, sel);
    var i, j :| 0 <= i < j < |rest| && count[rest[i]] != 1 && count[rest[j]] != 1;
    a, b := Unit(n, rest[i]), Unit(n, rest[j]);
    UnitInBox(count, rest[i]);
    UnitInBox(count, rest[j]);
    UnitFolded(count, sel, i);
    UnitFolded(count, sel, j);
    assert a[rest[i]] == 1 && b[rest[i]] == 0;
  }

  /** mapTo keeps the threads apart exactly when at most one of the folded dimensions has more than one thread. */
  lemma MapToOneToOneExactlyWhen(count: Vec, sel: seq<nat>)
    requires Space(count, sel)
    ensures (forall a: Vec, b: Vec :: FoldedAlike(a, b, count, sel) ==> a == b)
            <==> AtMostOneFolded(count, Rest(|count|, sel))
  {
    if AtMostOneFolded(count, Rest(|count|, sel)) {
      forall a: Vec, b: Vec | FoldedAlike(a, b, count, sel) ensures a == b {
        FoldedApart(a, b, count, sel);
      }
    } else {
      var a, b := FoldedTogether(count, sel);
    }
  }
  // ----- every folded index has a thread -----

  lemma {:induction false} CardOfIndices(n: nat)
    ensures |Indices(n)| == n
  {
    if n > 0 {
      CardOfIndices(n - 1);
    }
  }

  ghost function Elements(sel: seq<nat>): (s: set<int>)
    ensures forall x :: x in s <==> x in sel
  {
    set d <- sel :: d as int
  }

  lemma {:induction false} CardOfDistinct(sel: seq<nat>)
    requires forall i, j :: 0 <= i < j < |sel| ==> sel[i] != sel[j]
    ensures |Elements(sel)| == |sel|
  {
    if sel != [] {
      var k := |sel| - 1;
      CardOfDistinct(sel[..k]);
      assert sel[k] !in sel[..k];
      assert Elements(sel) == Elements(sel[..k]) + {sel[k]};
    }
  }

  lemma SubsetOfEqualSize(a: set<int>, b: set<int>)
    requires a <= b && |a| >= |b|
    ensures a == b
  {
    assert b == a + (b - a);
    assert |b| == |a| + |b - a|;
  }

  /** Every dimension is selected or folded. */
  lemma SelectedOrFolded(n: nat, sel: seq<nat>, d: nat)
    requires Selection(n, sel) && d < n
    ensures d in sel || d in Rest(n, sel)
  {
    if |sel| >= n {
      CardOfIndices(n);
      CardOfDistinct(sel);
      assert Elements(sel) <= Indices(n);
      SubsetOfEqualSize(Elements(sel), Indices(n));
    }
  }

  /** The thread that folds to a given index of the folded box. */
  function Unfolded(count: Vec, at: nat, rest: seq<nat>, target: Vec): (t: Vec)
    requires Positive(count) && |target| == |count| && at < |count|
    ensures |t| == |count|
  {
    seq(|count|, d requires 0 <= d < |count| =>
      if d == at then target[at] % count[at]
      else if d !in rest then target[d]
      else if count[d] > 1 then target[at] / count[at] else 0)
  }

  lemma FoldOnto(count: Vec, sel: seq<nat>, target: Vec) returns (t: Vec)
    requires Space(count, sel) && AtMostOneFolded(count, Rest(|count|, sel))
    requires InBox(target, FoldedCount(count, sel))
    ensures InBox(t, count) && FoldedIdx(t, count, sel) == target
  {
    var rest, at := Rest(|count|, sel), sel[0];
    t := Unfolded(count, at, rest, target);
    assert target[at] < FoldedCount(count, sel)[at];
    UnfoldedFirst(count, at, rest, target);
    UnfoldedInBox(count, at, rest, target, FirstCount(count, at, rest));
    FoldedBack(count, sel, target, t);
  }

  lemma UnfoldedInBox(count: Vec, at: nat, rest: seq<nat>, target: Vec, first: nat)
    requires Positive(count) && at < |count| && at !in rest && Within(rest, |count|)
    requires InBox(target, Fold(count, at, rest, first, 1))
    requires InBox(Pick(Unfolded(count, at, rest, target), rest), Pick(count, rest))
    ensures InBox(Unfolded(count, at, rest, target), count)
  {
    var t := Unfolded(count, at, rest, target);
    forall d | 0 <= d < |count| ensures t[d] < count[d] {
      assert target[d] < Fold(count, at, rest, first, 1)[d];
      if d in rest {
        var i :| 0 <= i < |rest| && rest[i] == d;
        assert Pick(t, rest)[i] < Pick(count, rest)[i];
      }
    }
  }

  lemma FoldedBack(count: Vec, sel: seq<nat>, target: Vec, t: Vec)
    requires Space(count, sel) && InBox(target, FoldedCount(count, sel))
    requires t == Unfolded(count, sel[0], Rest(|count|, sel), target)
    requires FirstIdx(t, count, sel[0], Rest(|count|, sel)) == target[sel[0]]
    ensures FoldedIdx(t, count, sel) == target
  {
    var rest := Rest(|count|, sel);
    forall d | 0 <= d < |count| && d in rest && d != sel[0] ensures target[d] == 0 {
      assert target[d] < FoldedCount(count, sel)[d];
    }
    FoldUnfolded(count, sel[0], rest, target);
  }

  lemma FoldUnfolded(count: Vec, at: nat, rest: seq<nat>, target: Vec)
    requires Positive(count) && |target| == |count| && at < |count|
    requires forall d :: 0 <= d < |count| && d in rest && d != at ==> target[d] == 0
    ensures Fold(Unfolded(count, at, rest, target), at, rest, target[at], 0) == target
  {
  }

  /** The one folded dimension with threads takes the quotient. */
  lemma UnfoldedFirst(count: Vec, at: nat, rest: seq<nat>, target: Vec)
    requires Positive(count) && |target| == |count| && at < |count| && at !in rest && Within(rest, |count|)
    requires AtMostOneFolded(count, rest) && target[at] < FirstCount(count, at, rest)
    ensures var t := Unfolded(count, at, rest, target);
      && FirstIdx(t, count, at, rest) == target[at] && t[at] < count[at]
      && InBox(Pick(t, rest), Pick(count, rest))
  {
    var t, q, pc := Unfolded(count, at, rest, target), target[at] / count[at], Pick(count, rest);
    DivRemainder(target[at], count[at], Product(pc));
    if i: nat :| i < |rest| && count[rest[i]] > 1 {
      OnlyOneFolded(count, rest, Pick(t, rest), i, q);
    } else {
      NoneFolded(pc, Pick(t, rest), q);
    }
  }

  lemma DivRemainder(k: nat, c: nat, p: nat)
    requires c >= 1 && k < c * p
    ensures k / c < p && k % c + (k / c) * c == k
  {
    QuotientBelow(k, c, p);
  }

  lemma OnlyOneFolded(count: Vec, rest: seq<nat>, pt: Vec, i: nat, q: nat)
    requires Positive(count) && Within(rest, |count|) && AtMostOneFolded(count, rest)
    requires i < |rest| == |pt| && count[rest[i]] > 1 && q < Product(Pick(count, rest))
    requires forall j :: 0 <= j < |rest| ==> pt[j] == if count[rest[j]] > 1 then q else 0
    ensures SumOf(pt) == q && InBox(pt, Pick(count, rest))
  {
    var pc := Pick(count, rest);
    forall j | 0 <= j < |rest| && j != i ensures pc[j] == 1 && pt[j] == 0 {
      assert count[rest[if i < j then i else j]] == 1 || count[rest[if i < j then j else i]] == 1;
    }
    SumOfSingle(pt, i);
    ProductOfSingle(pc, i);
  }

  lemma NoneFolded(pc: Vec, pt: Vec, q: nat)
    requires |pt| == |pc| && q < Product(pc) && forall j :: 0 <= j < |pc| ==> pc[j] == 1 && pt[j] == 0
    ensures SumOf(pt) == q && InBox(pt, pc)
  {
    SumOfZeros(pt);
    ProductOfOnes(pc);
  }

  // ----- the folded vectors, component by component -----

  lemma NotInRest(n: nat, sel: seq<nat>, d: nat)
    requires d in sel
    ensures d !in Rest(n, sel)
  {
  }

  lemma FoldAt(v: Vec, at: nat, rest: seq<nat>, first: nat, fill: nat, d: nat)
    requires d < |v|
    ensures d == at ==> Fold(v, at, rest, first, fill)[d] == first
    ensures d != at && d in rest ==> Fold(v, at, rest, first, fill)[d] == fill
    ensures d != at && d !in rest ==> Fold(v, at, rest, first, fill)[d] == v[d]
  {
  }

  /** The other coordinates, summed up, count whole rows of the slowest selected dimension. */
  lemma FoldedIdxIs(idx: Vec, count: Vec, sel: seq<nat>)
    requires |idx| == |count| && Selection(|idx|, sel)
    ensures var f, others := FoldedIdx(idx, count, sel), Pick(idx, Rest(|idx|, sel));
      && f[sel[0]] == idx[sel[0]] + Sums.Sum(others, 0, |others|) * count[sel[0]]
      && (forall i :: 1 <= i < |sel| ==> f[sel[i]] == idx[sel[i]])
      && forall d: nat :: d < |idx| && d !in sel ==> f[d] == 0
  {
    var rest, first := Rest(|idx|, sel), FirstIdx(idx, count, sel[0], Rest(|idx|, sel));
    SumOfIsSum(Pick(idx, rest));
    FoldAt(idx, sel[0], rest, first, 0, sel[0]);
    forall i | 1 <= i < |sel| ensures FoldedIdx(idx, count, sel)[sel[i]] == idx[sel[i]] {
      NotInRest(|idx|, sel, sel[i]);
      FoldAt(idx, sel[0], rest, first, 0, sel[i]);
    }
    forall d: nat | d < |idx| && d !in sel ensures FoldedIdx(idx, count, sel)[d] == 0 {
      SelectedOrFolded(|idx|, sel, d);
      FoldAt(idx, sel[0], rest, first, 0, d);
    }
  }

  lemma FoldedCountIs(count: Vec, sel: seq<nat>)
    requires Selection(|count|, sel)
    ensures var f := FoldedCount(count, sel);
      && f[sel[0]] == count[sel[0]] * Product(Pick(count, Rest(|count|, sel)))
      && (forall i :: 1 <= i < |sel| ==> f[sel[i]] == count[sel[i]])
      && forall d: nat :: d < |count| && d !in sel ==> f[d] == 1
  {
    var rest, first := Rest(|count|, sel), FirstCount(count, sel[0], Rest(|count|, sel));
    FoldAt(count, sel[0], rest, first, 1, sel[0]);
    forall i | 1 <= i < |sel| ensures FoldedCount(count, sel)[sel[i]] == count[sel[i]] {
      NotInRest(|count|, sel, sel[i]);
      FoldAt(count, sel[0], rest, first, 1, sel[i]);
    }
    forall d: nat | d < |count| && d !in sel ensures FoldedCount(count, sel)[d] == 1 {
      SelectedOrFolded(|count|, sel, d);
      FoldAt(count, sel[0], rest, first, 1, d);
    }
  }

  // ----- what folding does to the counts -----

  lemma {:induction false} FactorAtMost(v: Vec, i: nat)
    requires i < |v| && forall d :: 0 <= d < |v| ==> v[d] >= 1
    ensures 1 <= v[i] <= Product(v)
  {
    var p := Product(v[1..]);
    ProductPositive(v[1..]);
    if i == 0 {
      MulAtLeast(p, v[0]);
    } else {
      FactorAtMost(v[1..], i - 1);
      MulAtLeast(v[0], p);
    }
  }

  /** Folding dimensions of one thread each changes nothing ... */
  lemma NothingToFold(count: Vec, sel: seq<nat>)
    requires Space(count, sel) && forall i :: 0 <= i < |Rest(|count|, sel)| ==> count[Rest(|count|, sel)[i]] == 1
    ensures FoldedCount(count, sel) == count
  {
    var rest, at := Rest(|count|, sel), sel[0];
    ProductOfOnes(Pick(count, rest));
    FoldOnes(count, at, rest, count[at]);
  }

  lemma FoldOnes(count: Vec, at: nat, rest: seq<nat>, first: nat)
    requires at < |count| && Within(rest, |count|) && first == count[at]
    requires forall i :: 0 <= i < |rest| ==> count[rest[i]] == 1
    ensures Fold(count, at, rest, first, 1) == count
  {
  }

  /** ... and any other folded dimension makes the slowest selected one larger. */
  lemma FoldingGrows(count: Vec, sel: seq<nat>, i: nat)
    requires Space(count, sel) && i < |Rest(|count|, sel)| && count[Rest(|count|, sel)[i]] > 1
    ensures count[sel[0]] < FoldedCount(count, sel)[sel[0]]
  {
    var pc := Pick(count, Rest(|count|, sel));
    FactorAtMost(pc, i);
    MulLeft(2, Product(pc), count[sel[0]]);
    assert count[sel[0]] * Product(pc) == Product(pc) * count[sel[0]];
  }
}
