/** N-dimensional index arithmetic: linearize, mapToND, rshrink and product. */
module VecIndex {
  import opened Arithmetic

  type Vec = seq<nat>

  function Product(v: Vec): nat {
    if v == [] then 1 else v[0] * Product(v[1..])
  }

  /** idx lies in the box spanned by the extents. */
  ghost predicate InBox(idx: Vec, extents: Vec) {
    |idx| == |extents| && forall d :: 0 <= d < |idx| ==> idx[d] < extents[d]
  }

  ghost predicate Positive(v: Vec) {
    |v| >= 1 && forall d :: 0 <= d < |v| ==> v[d] >= 1
  }

  /** Positions can be divided up: the first extent is never a divisor and may be zero. */
  ghost predicate PositiveBehind(extents: Vec) {
    |extents| >= 1 && forall d :: 1 <= d < |extents| ==> extents[d] >= 1
  }

  /** Row-major position: the first component counts whole slices. */
  function Linear(extents: Vec, idx: Vec): nat
    requires |idx| == |extents| >= 1
  {
    if |idx| == 1 then idx[0] else idx[0] * Product(extents[1..]) + Linear(extents[1..], idx[1..])
  }

  function Unlinear(extents: Vec, k: nat): (idx: Vec)
    requires PositiveBehind(extents)
    ensures |idx| == |extents|
  {
    if |extents| == 1 then [k]
    else
      ProductPositive(extents[1..]);
      [k / Product(extents[1..])] + Unlinear(extents[1..], k % Product(extents[1..]))
  }

  lemma {:induction false} ProductPositive(v: Vec)
    requires forall d :: 0 <= d < |v| ==> v[d] >= 1
    ensures Product(v) >= 1
  {
    if v != [] {
      ProductPositive(v[1..]);
      MulAtLeast(v[0], Product(v[1..]));
    }
  }

  // ----- the loops -----

  lemma {:induction false} ProductAppend(v: Vec, x: nat)
    ensures Product(v + [x]) == Product(v) * x
  {
    if v == [] {
      assert ([] + [x])[1..] == [];
    } else {
      ProductAppend(v[1..], x);
      assert (v + [x])[1..] == v[1..] + [x];
      Associate(v[0], Product(v[1..]), x);
    }
  }

  lemma ProductBack(v: Vec)
    requires v != []
    ensures Product(v) == Product(v[..|v| - 1]) * v[|v| - 1]
  {
    ProductAppend(v[..|v| - 1], v[|v| - 1]);
    assert v[..|v| - 1] + [v[|v| - 1]] == v;
  }

  lemma {:induction false} ProductOfOnes(v: Vec)
    requires forall i :: 0 <= i < |v| ==> v[i] == 1
    ensures Product(v) == 1
  {
    if v != [] {
      ProductOfOnes(v[1..]);
    }
  }

  lemma Associate(a: nat, b: nat, c: nat)
    ensures a * (b * c) == (a * b) * c
  {
  }

  method ProductOf(v: Vec) returns (result: nat)
    requires |v| >= 1
    ensures result == Product(v)
  {
    result := v[0];
    assert v[..1] == [] + [v[0]];
    ProductAppend([], v[0]);
    for i := 1 to |v|
      invariant result == Product(v[..i])
    {
      assert v[..i + 1] == v[..i] + [v[i]];
      ProductAppend(v[..i], v[i]);
      result := result * v[i];
    }
    assert v[..|v|] == v;
  }

  method RShrink(v: Vec, n: nat) returns (result: Vec)
    requires n <= |v|
    ensures result == v[|v| - n..]
  {
    result := seq(n, _ => 0);
    for i := 0 to n
      invariant |result| == n && result[n - i..] == v[|v| - i..]
    {
      var at, from := n - 1 - i, |v| - 1 - i;
      assert v[from..] == [v[from]] + v[from + 1..];
      result := result[at := v[from]];
      assert result[at..] == [result[at]] + result[at + 1..];
    }
  }

  /** One more dimension at the back: Horner's rule. */
  lemma {:induction false} LinearAppend(extents: Vec, idx: Vec, e: nat, i: nat)
    requires |idx| == |extents| >= 1
    ensures Linear(extents + [e], idx + [i]) == Linear(extents, idx) * e + i
  {
    var ex, ix := extents + [e], idx + [i];
    if |idx| == 1 {
      assert ex[1..] == [] + [e] && ix[1..] == [i];
      ProductAppend([], e);
    } else {
      assert ex[1..] == extents[1..] + [e] && ix[1..] == idx[1..] + [i];
      LinearAppend(extents[1..], idx[1..], e, i);
      ProductAppend(extents[1..], e);
      Distribute(idx[0], Product(extents[1..]), Linear(extents[1..], idx[1..]), e);
    }
  }

  lemma Distribute(a: nat, p: nat, l: nat, e: nat)
    ensures (a * p + l) * e == a * (p * e) + l * e
  {
  }

  /** The loop over a dimension vector that has one component less than the index. */
  method LinearizeReduced(dim: Vec, idx: Vec, ghost first: nat) returns (linearIdx: nat)
    requires |idx| == |dim| + 1 >= 2
    ensures linearIdx == Linear([first] + dim, idx)
  {
    linearIdx := idx[0];
    ghost var ex := [first] + dim;
    for d := 1 to |idx|
      invariant linearIdx == Linear(ex[..d], idx[..d])
    {
      assert ex[..d + 1] == ex[..d] + [dim[d - 1]] && idx[..d + 1] == idx[..d] + [idx[d]];
      LinearAppend(ex[..d], idx[..d], dim[d - 1], idx[d]);
      linearIdx := linearIdx * dim[d - 1] + idx[d];
    }
    assert ex[..|idx|] == ex && idx[..|idx|] == idx;
  }

  method Linearize(extents: Vec, idx: Vec) returns (linearIdx: nat)
    requires |idx| == |extents| >= 1
    ensures linearIdx == Linear(extents, idx)
  {
    if |idx| == 1 {
      linearIdx := idx[0];
    } else {
      var reduced := RShrink(extents, |extents| - 1);
      assert [extents[0]] + reduced == extents;
      linearIdx := LinearizeReduced(reduced, idx, extents[0]);
    }
  }

  method MapToND(extents: Vec, linearIdx: nat) returns (result: Vec)
    requires PositiveBehind(extents)
    ensures result == Unlinear(extents, linearIdx)
  {
    if |extents| == 1 {
      return [linearIdx];
    }
    var pitchExtents := PitchExtents(extents);
    result := [];
    var rest := linearIdx;
    for d := 0 to |extents| - 1
      invariant |result| == d
      invariant result + Unlinear(extents[d..], rest) == Unlinear(extents, linearIdx)
    {
      UnlinearStep(extents, d, rest);
      var q := rest / pitchExtents[d];
      result, rest := result + [q], rest - pitchExtents[d] * q;
    }
    result := result + [rest];
  }

  /** Product of the extents behind dimension d. */
  function Behind(extents: Vec, d: nat): nat
    requires d < |extents|
  {
    Product(extents[d + 1..])
  }

  lemma BehindStep(extents: Vec, d: nat)
    requires d < |extents|
    ensures if d == |extents| - 1 then Behind(extents, d) == 1
            else Behind(extents, d) == extents[d + 1] * Behind(extents, d + 1)
  {
    if d + 1 < |extents| {
      assert extents[d + 1..][1..] == extents[d + 2..];
    }
  }

  lemma BehindPositive(extents: Vec, d: nat)
    requires PositiveBehind(extents) && d < |extents|
    ensures Behind(extents, d) >= 1
  {
    ProductPositive(extents[d + 1..]);
  }

  lemma UnlinearStep(extents: Vec, d: nat, rest: nat)
    requires PositiveBehind(extents) && d + 1 < |extents|
    ensures var p := Behind(extents, d);
      && p >= 1 && rest >= p * (rest / p)
      && Unlinear(extents[d..], rest) == [rest / p] + Unlinear(extents[d + 1..], rest - p * (rest / p))
  {
    assert extents[d..][1..] == extents[d + 1..];
    BehindPositive(extents, d);
    DivRest(rest, Behind(extents, d));
  }

  lemma DivRest(rest: nat, p: nat)
    requires p >= 1
    ensures rest - p * (rest / p) == rest % p
  {
  }

  /** Products of the extents behind each dimension, filled from the back. */
  method PitchExtents(extents: Vec) returns (pitchExtents: Vec)
    requires |extents| >= 2
    ensures |pitchExtents| == |extents| - 1
    ensures forall d :: 0 <= d < |pitchExtents| ==> pitchExtents[d] == Behind(extents, d)
  {
    var reducedDim := |extents| - 1;
    pitchExtents := seq(reducedDim, _ => 0)[reducedDim - 1 := extents[reducedDim]];
    BehindStep(extents, reducedDim - 1);
    BehindStep(extents, reducedDim);
    for d := 1 to reducedDim
      invariant |pitchExtents| == reducedDim
      invariant forall k :: reducedDim - d <= k < reducedDim ==> pitchExtents[k] == Behind(extents, k)
    {
      BehindStep(extents, reducedDim - 1 - d);
      pitchExtents := pitchExtents[reducedDim - 1 - d := extents[reducedDim - d] * pitchExtents[reducedDim - d]];
    }
  }

  // ----- what they mean -----

  lemma {:induction false} LinearInRange(extents: Vec, idx: Vec)
    requires |extents| >= 1 && InBox(idx, extents)
    ensures Linear(extents, idx) < Product(extents)
  {
    if |idx| == 1 {
      assert extents[1..] == [];
    } else {
      LinearInRange(extents[1..], idx[1..]);
      var p := Product(extents[1..]);
      MulLeft(idx[0] + 1, extents[0], p);
      assert (idx[0] + 1) * p == idx[0] * p + p;
    }
  }

  lemma {:induction false} UnlinearInBox(extents: Vec, k: nat)
    requires PositiveBehind(extents) && k < Product(extents)
    ensures InBox(Unlinear(extents, k), extents)
  {
    if |extents| == 1 {
      assert extents[1..] == [];
    } else {
      var p := Product(extents[1..]);
      ProductPositive(extents[1..]);
      UnlinearInBox(extents[1..], k % p);
      QuotientBelow(k, p, extents[0]);
    }
  }

  /** mapToND undoes linearize on the box. */
  lemma {:induction false} UnlinearLinear(extents: Vec, idx: Vec)
    requires |extents| >= 1 && InBox(idx, extents)
    ensures Positive(extents) && Unlinear(extents, Linear(extents, idx)) == idx
  {
    forall d | 0 <= d < |extents| ensures extents[d] >= 1 {
      assert idx[d] < extents[d];
    }
    if |idx| > 1 {
      UnlinearLinear(extents[1..], idx[1..]);
      LinearInRange(extents[1..], idx[1..]);
      DivModUnique(Linear(extents, idx), Product(extents[1..]), idx[0], Linear(extents[1..], idx[1..]));
    }
  }

  /** linearize undoes mapToND, also for positions behind the end. */
  lemma {:induction false} LinearUnlinear(extents: Vec, k: nat)
    requires PositiveBehind(extents)
    ensures Linear(extents, Unlinear(extents, k)) == k
  {
    if |extents| > 1 {
      var p := Product(extents[1..]);
      ProductPositive(extents[1..]);
      LinearUnlinear(extents[1..], k % p);
      assert Unlinear(extents, k)[1..] == Unlinear(extents[1..], k % p);
    }
  }

  ghost predicate LexLess(a: Vec, b: Vec)
    requires |a| == |b|
  {
    a != [] && (a[0] < b[0] || (a[0] == b[0] && LexLess(a[1..], b[1..])))
  }

  /** Linear order is lexicographic order; in particular distinct indices have distinct positions. */
  lemma {:induction false} LinearOrderIsLexicographic(extents: Vec, a: Vec, b: Vec)
    requires |extents| >= 1 && InBox(a, extents) && InBox(b, extents)
    ensures Linear(extents, a) < Linear(extents, b) <==> LexLess(a, b)
    ensures Linear(extents, a) == Linear(extents, b) <==> a == b
  {
    if |a| == 1 {
    } else {
      LinearOrderIsLexicographic(extents[1..], a[1..], b[1..]);
      LinearInRange(extents[1..], a[1..]);
      LinearInRange(extents[1..], b[1..]);
      SliceOrder(a[0], b[0], Product(extents[1..]), Linear(extents[1..], a[1..]), Linear(extents[1..], b[1..]));
      if a[0] == b[0] && a[1..] == b[1..] {
        assert a == [a[0]] + a[1..] && b == [b[0]] + b[1..];
      }
    }
  }

  lemma SliceOrder(x: nat, y: nat, p: nat, r: nat, s: nat)
    requires r < p && s < p
    ensures x < y ==> x * p + r < y * p + s
    ensures y < x ==> y * p + s < x * p + r
  {
    if x < y {
      MulLeft(x + 1, y, p);
      assert (x + 1) * p == x * p + p;
    } else if y < x {
      MulLeft(y + 1, x, p);
      assert (y + 1) * p == y * p + p;
    }
  }

  /** The first extent never influences linearize. */
  lemma FirstExtentIrrelevant(e: nat, f: nat, rest: Vec, idx: Vec)
    requires |idx| == |rest| + 1
    ensures Linear([e] + rest, idx) == Linear([f] + rest, idx)
  {
    assert ([e] + rest)[1..] == rest == ([f] + rest)[1..];
  }
}
