/** Runtime adjustToLimit: halve the largest component until the product is within the limit. */
module AdjustToLimit {
  import opened Arithmetic
  import opened VecIndex

  /** The quotient, but never 0. */
  function DivExZero(a: nat, b: nat): (r: nat)
    requires b >= 1
    ensures a >= b ==> r * b <= a < (r + 1) * b
    ensures a < b ==> r == 1
  {
    QuotientBounds(a, b);
    if a / b > 1 then a / b else 1
  }

  lemma QuotientBounds(a: nat, b: nat)
    requires b >= 1
    ensures (a / b) * b <= a < (a / b + 1) * b
    ensures a >= b ==> a / b >= 1
    ensures a < b ==> a / b == 0
  {
    if a < b {
      DivModUnique(a, b, 0, a);
    } else {
      DivMonotone(b, a, b);
      DivModUnique(b, b, 1, 0);
    }
  }

  ghost predicate IsMaxAt(v: Vec, m: nat) {
    m < |v| && forall i :: 0 <= i < |v| ==> v[i] <= v[m]
  }

  /** The first of the largest among the first n components. */
  function FirstMax(v: Vec, n: nat): (m: nat)
    requires 1 <= n <= |v|
    ensures m < n && forall i :: 0 <= i < n ==> v[i] <= v[m] && (i < m ==> v[i] < v[m])
  {
    if n == 1 then 0 else var m := FirstMax(v, n - 1); if v[m] < v[n - 1] then n - 1 else m
  }

  function HalveLargest(v: Vec): (v': Vec)
    requires |v| >= 1
    ensures |v'| == |v|
  {
    v[FirstMax(v, |v|) := DivExZero(v[FirstMax(v, |v|)], 2)]
  }

  /** The vector after k iterations of the loop body. */
  function After(v: Vec, k: nat): (v': Vec)
    requires |v| >= 1
    ensures |v'| == |v|
  {
    if k == 0 then v else HalveLargest(After(v, k - 1))
  }

  /** One step of the sequence in terms of its effect: the first of the largest components is halved, rounding
      down. */
  lemma HalvingSequence(v: Vec, k: nat)
    requires |v| >= 1
    ensures After(v, 0) == v
    ensures exists m :: 0 <= m < |v| && var u, u' := After(v, k), After(v, k + 1);
      && (forall i :: 0 <= i < |v| ==> u[i] <= u[m] && (i < m ==> u[i] < u[m]))
      && (forall i :: 0 <= i < |v| && i != m ==> u'[i] == u[i])
      && (u[m] >= 2 ==> 2 * u'[m] <= u[m] <= 2 * u'[m] + 1) && (u[m] < 2 ==> u'[m] == 1)
  {
    var u := After(v, k);
    var m := FirstMax(u, |u|);
    assert After(v, k + 1) == HalveLargest(u) == u[m := DivExZero(u[m], 2)];
  }

  method MaxIndex(v: Vec) returns (maxIdx: nat)
    requires |v| >= 1
    ensures maxIdx == FirstMax(v, |v|)
  {
    maxIdx := 0;
    var maxValue := v[0];
    for i := 0 to |v|
      invariant maxIdx == FirstMax(v, if i == 0 then 1 else i) && maxValue == v[maxIdx]
    {
      if maxValue < v[i] {
        maxIdx, maxValue := i, v[i];
      }
    }
  }

  lemma {:induction false} ProductZero(v: Vec)
    requires 0 in v
    ensures Product(v) == 0
  {
    if v[0] != 0 {
      ProductZero(v[1..]);
    }
  }

  /** Halving one component of at least two loses at most two thirds of the product. */
  lemma {:induction false} ProductAfterHalving(v: Vec, m: nat, h: nat)
    requires m < |v| && v[m] <= 3 * h && h <= v[m]
    ensures Product(v[m := h]) <= Product(v) <= 3 * Product(v[m := h])
  {
    if m == 0 {
      assert v[0 := h][1..] == v[1..];
      var p := Product(v[1..]);
      MulLeft(v[0], 3 * h, p);
      MulLeft(h, v[0], p);
      Associate(3, h, p);
    } else {
      ProductAfterHalving(v[1..], m - 1, h);
      assert v[m := h][1..] == v[1..][m - 1 := h];
      var p, q := Product(v[1..]), Product(v[1..][m - 1 := h]);
      MulLeft(q, p, v[0]);
      MulLeft(p, 3 * q, v[0]);
      Associate(v[0], 3, q);
      Associate(3, v[0], q);
    }
  }

  function Total(v: Vec): nat {
    if v == [] then 0 else v[0] + Total(v[1..])
  }

  lemma {:induction false} TotalUpdate(v: Vec, m: nat, h: nat)
    requires m < |v|
    ensures Total(v[m := h]) == Total(v) - v[m] + h
  {
    if m == 0 {
      assert v[0 := h][1..] == v[1..];
    } else {
      TotalUpdate(v[1..], m - 1, h);
      assert v[m := h][1..] == v[1..][m - 1 := h];
    }
  }

  /** Invariant of the halving loop: which components were halved, and how they compare to the rest. */
  ghost predicate Adjusted(input: Vec, v: Vec, limit: nat, halved: set<int>) {
    && |v| == |input|
    && (forall i :: 0 <= i < |v| ==> (if i in halved then 1 <= v[i] < input[i] else v[i] == input[i]))
    && (forall h :: h in halved ==> 0 <= h < |v|)
    && (forall i, h :: 0 <= i < |v| && h in halved ==> v[i] <= 2 * v[h] + 1)
    && (halved != {} ==> limit < 3 * Product(v))
  }

  lemma StillAdjusted(input: Vec, v: Vec, limit: nat, halved: set<int>, m: nat, h: nat)
    requires Adjusted(input, v, limit, halved) && IsMaxAt(v, m) && v[m] >= 2 && h == v[m] / 2
    requires limit < 3 * Product(v[m := h])
    ensures Adjusted(input, v[m := h], limit, halved + {m})
  {
  }

  lemma HalvingStep(input: Vec, v: Vec, limit: nat, halved: set<int>, m: nat)
    requires Adjusted(input, v, limit, halved) && IsMaxAt(v, m) && v[m] >= 2 && Product(v) > limit
    ensures Adjusted(input, v[m := DivExZero(v[m], 2)], limit, halved + {m})
    ensures Total(v[m := DivExZero(v[m], 2)]) < Total(v)
  {
    var h := DivExZero(v[m], 2);
    ProductAfterHalving(v, m, h);
    StillAdjusted(input, v, limit, halved, m, h);
    TotalUpdate(v, m, h);
  }

  lemma LargeEnoughToHalve(v: Vec, m: nat, limit: nat)
    requires IsMaxAt(v, m) && Product(v) > limit >= 1
    ensures v[m] >= 2
  {
    if v[m] < 2 {
      if 0 in v {
        ProductZero(v);
      } else {
        ProductOfOnes(v);
      }
    }
  }

  ghost predicate AllTooLarge(input: Vec, limit: nat, k: nat)
    requires |input| >= 1
  {
    forall j: nat :: j < k ==> Product(After(input, j)) > limit
  }

  lemma NextHalving(input: Vec, limit: nat, halved: set<int>, k: nat)
    requires |input| >= 1 && AllTooLarge(input, limit, k) && Adjusted(input, After(input, k), limit, halved)
    requires Product(After(input, k)) > limit >= 1
    ensures var v := After(input, k);
            var m := FirstMax(v, |v|);
            && After(input, k + 1) == v[m := DivExZero(v[m], 2)] && AllTooLarge(input, limit, k + 1)
            && Adjusted(input, After(input, k + 1), limit, halved + {m})
            && Total(After(input, k + 1)) < Total(v)
  {
    var v := After(input, k);
    var m := FirstMax(v, |v|);
    LargeEnoughToHalve(v, m, limit);
    HalvingStep(input, v, limit, halved, m);
    OneMoreTooLarge(input, limit, k);
  }

  lemma OneMoreTooLarge(input: Vec, limit: nat, k: nat)
    requires |input| >= 1 && AllTooLarge(input, limit, k) && Product(After(input, k)) > limit
    ensures AllTooLarge(input, limit, k + 1)
  {
  }

  /** y is x divided by the power of two p, rounded down. */
  ghost predicate DividedBy(x: nat, y: nat, p: nat) { IsPow2(p) && y == x / p }

  lemma DividedByIs(x: nat, y: nat, p: nat)
    ensures DividedBy(x, y, p) <==> IsPow2(p) && y * p <= x < (y + 1) * p
  {
    if IsPow2(p) {
      QuotientBounds(x, p);
      if y * p <= x < (y + 1) * p {
        DivModUnique(x, p, y, x - y * p);
      }
    }
  }

  lemma HalvedAgain(x: nat, y: nat, h: nat, p: nat)
    requires DividedBy(x, y, p) && 2 * h <= y <= 2 * h + 1
    ensures DividedBy(x, h, 2 * p)
  {
    DoubleIsPow2(p);
    var r := x % p + (y - 2 * h) * p;
    assert x == y * p + x % p;
    assert y * p == h * (2 * p) + (y - 2 * h) * p;
    DivModUnique(x, 2 * p, h, r);
  }

  /** Every component was halved a whole number of times. */
  lemma {:induction false} AllHalved(input: Vec, limit: nat, k: nat) returns (p: Vec)
    requires |input| >= 1 && (limit >= 1 || k == 0) && AllTooLarge(input, limit, k)
    ensures |p| == |input| && forall i :: 0 <= i < |input| ==> DividedBy(input[i], After(input, k)[i], p[i])
  {
    if k == 0 {
      p := seq(|input|, _ => 1);
    } else {
      p := AllHalved(input, limit, k - 1);
      var u := After(input, k - 1);
      var m := FirstMax(u, |u|);
      LargeEnoughToHalve(u, m, limit);
      HalvedAgain(input[m], u[m], DivExZero(u[m], 2), p[m]);
      p := p[m := 2 * p[m]];
    }
  }

  /** With a zero component the product is within every limit at once. */
  lemma NoneToHalve(input: Vec, limit: nat, k: nat)
    requires |input| >= 1 && (limit >= 1 || 0 in input) && AllTooLarge(input, limit, k)
    ensures limit >= 1 || k == 0
  {
    if limit == 0 {
      ProductZero(input);
      assert Product(After(input, 0)) == 0;
    }
  }

  /** The loop: returns the first vector of the halving sequence that is within the limit. */
  method Adjust(input: Vec, limit: nat) returns (v: Vec, ghost k: nat, ghost halved: set<int>)
    requires |input| >= 1 && (limit >= 1 || 0 in input)
    ensures v == After(input, k) && Product(v) <= limit && AllTooLarge(input, limit, k)
    ensures Adjusted(input, v, limit, halved)
  {
    v, k, halved := input, 0, {};
    if 0 in input { ProductZero(input); }
    var product := ProductOf(v);
    while product > limit
      invariant product == Product(v) && Adjusted(input, v, limit, halved)
      invariant limit >= 1 || Product(v) == 0
      invariant v == After(input, k) && AllTooLarge(input, limit, k)
      decreases Total(v)
    {
      var maxIdx := MaxIndex(v);
      NextHalving(input, limit, halved, k);
      v, k, halved := v[maxIdx := DivExZero(v[maxIdx], 2)], k + 1, halved + {maxIdx};
      product := ProductOf(v);
    }
  }

  /** What callers rely on: every component divided by a power of two, within the limit, at most a factor of three
      below it, and balanced. */
  method AdjustToLimit(input: Vec, limit: nat) returns (v: Vec, ghost k: nat, ghost p: Vec)
    requires |input| >= 1 && (limit >= 1 || 0 in input)
    ensures |v| == |input| == |p|
    ensures forall i :: 0 <= i < |v| ==> DividedBy(input[i], v[i], p[i])
    ensures Product(v) <= limit
    ensures v == After(input, k) && forall j: nat :: j < k ==> Product(After(input, j)) > limit
    ensures forall i :: 0 <= i < |v| ==> v[i] <= input[i] && (input[i] >= 1 ==> v[i] >= 1)
    ensures Product(input) <= limit ==> v == input
    ensures v != input ==> limit < 3 * Product(v)
    ensures forall i, h :: 0 <= i < |v| && 0 <= h < |v| && v[h] < input[h] ==> v[i] <= 2 * v[h] + 1
  {
    ghost var halved;
    v, k, halved := Adjust(input, limit);
    NoneToHalve(input, limit, k);
    p := AllHalved(input, limit, k);
    if Product(input) <= limit {
      assert After(input, 0) == input;
    }
  }

  lemma Terminates(v: Vec, limit: nat, k: nat) returns (n: nat)
    requires |v| >= 1 && (limit >= 1 || Product(After(v, k)) == 0)
    ensures Product(After(v, n)) <= limit
    decreases Total(After(v, k))
  {
    var u := After(v, k);
    if Product(u) <= limit {
      n := k;
    } else {
      var m := FirstMax(u, |u|);
      LargeEnoughToHalve(u, m, limit);
      TotalUpdate(u, m, DivExZero(u[m], 2));
      n := Terminates(v, limit, k + 1);
    }
  }

  lemma {:induction false} StaysPositive(v: Vec, k: nat)
    requires |v| >= 1 && forall i :: 0 <= i < |v| ==> v[i] >= 1
    ensures forall i :: 0 <= i < |v| ==> After(v, k)[i] >= 1
    ensures Product(After(v, k)) >= 1
  {
    if k > 0 {
      StaysPositive(v, k - 1);
    }
    ProductPositive(After(v, k));
  }

  /** The loop ends exactly for a limit of at least 1 or a vector with a zero component. */
  lemma EndsExactlyWhen(v: Vec, limit: nat)
    requires |v| >= 1
    ensures (exists k :: Product(After(v, k)) <= limit) <==> limit >= 1 || 0 in v
  {
    if limit >= 1 || 0 in v {
      if 0 in v { ProductZero(v); }
      assert After(v, 0) == v;
      var k := Terminates(v, limit, 0);
    } else {
      forall k: nat ensures Product(After(v, k)) > limit {
        StaysPositive(v, k);
      }
    }
  }
}
