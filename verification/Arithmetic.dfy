/** Division, remainder and power-of-two facts shared by all other modules. */
module Arithmetic {

  lemma MulAtLeast(k: int, b: int)
    requires 1 <= k && 0 < b
    ensures k * b >= b
  {
    assert (k - 1) * b >= 0;
  }

  lemma DivModUnique(a: int, b: int, q: int, r: int)
    requires 0 < b && 0 <= r < b && a == q * b + r
    ensures a / b == q && a % b == r
  {
    var p := a / b;
    var e := a % b;
    assert a == p * b + e;
    if q > p {
      MulAtLeast(q - p, b);
    } else if q < p {
      MulAtLeast(p - q, b);
    }
  }

  /** n is a power of two. */
  predicate IsPow2(n: nat) {
    n == 1 || (n > 1 && n % 2 == 0 && IsPow2(n / 2))
  }

  lemma DoubleIsPow2(n: nat)
    requires IsPow2(n)
    ensures IsPow2(2 * n)
  {
    assert 2 * n / 2 == n;
  }

  lemma {:induction false} Pow2Divides(w: nat, n: nat)
    requires IsPow2(w) && IsPow2(n) && w <= n
    ensures n % w == 0 && IsPow2(n / w)
    decreases n
  {
    if w == n {
      DivModUnique(n, w, 1, 0);
    } else if w == 1 {
    } else {
      Pow2Divides(w / 2, n / 2);
      var q := (n / 2) / (w / 2);
      assert n / 2 == q * (w / 2);
      calc { n; 2 * (n / 2); 2 * (q * (w / 2)); q * (2 * (w / 2)); q * w; }
      DivModUnique(n, w, q, 0);
    }
  }

  lemma MulLeft(a: nat, b: nat, k: nat)
    requires a <= b
    ensures a * k <= b * k && k * a <= k * b
  {
    assert (b - a) * k >= 0;
  }

  function Min(a: nat, b: nat): nat { if a < b then a else b }

  /** ceil(a / b), as the repository computes it. */
  function DivCeil(a: nat, b: nat): nat
    requires b >= 1
  {
    (a + b - 1) / b
  }

  /** q blocks of size b are just enough for a elements. */
  ghost predicate JustCover(a: nat, b: nat, q: nat) {
    a <= Times(q, b) && (q >= 1 ==> Times(q - 1, b) < a)
  }

  lemma DivCeilCovers(a: nat, b: nat)
    requires b >= 1
    ensures JustCover(a, b, DivCeil(a, b))
    ensures b >= 2 && DivCeil(a, b) > 1 ==> DivCeil(a, b) < a
  {
    var q := DivCeil(a, b);
    TimesIsProduct(q, b);
    var r := (a + b - 1) % b;
    assert a + b - 1 == q * b + r;
    if q >= 1 {
      TimesIsProduct(q - 1, b);
      assert q * b == (q - 1) * b + b;
    }
    if b >= 2 && q > 1 {
      MulLeft(2, b, q - 1);
    }
  }

  lemma DivMonotone(a: nat, b: nat, c: nat)
    requires a <= b && c >= 1
    ensures a / c <= b / c
  {
    var p, q := a / c, b / c;
    assert a == p * c + a % c && b == q * c + b % c;
    if p > q {
      MulAtLeast(p - q, c);
    }
  }

  /** The indices one loop hands to its workers. */
  function Indices(n: nat): (s: set<int>)
    ensures forall k :: k in s <==> 0 <= k < n
  {
    if n == 0 then {} else Indices(n - 1) + {n - 1}
  }

  /** k copies of every natural below n. */
  function Copies(n: nat, k: nat): (m: multiset<nat>)
    ensures forall j: nat :: m[j] == if j < n then k else 0
  {
    if n == 0 then multiset{} else Copies(n - 1, k)[n - 1 := k]
  }

  /** n * b by repeated addition, for contracts that should not start non-linear reasoning. */
  function Times(n: nat, b: nat): nat {
    if n == 0 then 0 else Times(n - 1, b) + b
  }

  lemma {:induction false} TimesIsProduct(n: nat, b: nat)
    ensures Times(n, b) == n * b
  {
    if n > 0 {
      TimesIsProduct(n - 1, b);
      assert n * b == (n - 1) * b + b;
    }
  }

  lemma TimesAdd(a: nat, b: nat, m: nat)
    ensures Times(a + b, m) == Times(a, m) + Times(b, m)
  {
    TimesIsProduct(a + b, m);
    TimesIsProduct(a, m);
    TimesIsProduct(b, m);
  }

  lemma {:induction false} TimesTimes(a: nat, b: nat, m: nat)
    ensures Times(a, Times(b, m)) == Times(Times(a, b), m)
  {
    if a > 0 {
      TimesTimes(a - 1, b, m);
      TimesAdd(Times(a - 1, b), b, m);
    }
  }

  lemma TimesSwap(a: nat, b: nat)
    ensures Times(a, b) == Times(b, a)
  {
    TimesIsProduct(a, b);
    TimesIsProduct(b, a);
  }

  lemma TimesOrder(a: nat, b: nat, m: nat)
    requires m >= 1
    ensures Times(a, m) < Times(b, m) <==> a < b
    ensures a < b ==> Times(a, m) + m <= Times(b, m)
    ensures Times(a, m) / m == a && Times(a, m) % m == 0
  {
    TimesIsProduct(a, m);
    TimesIsProduct(b, m);
    DivModUnique(Times(a, m), m, a, 0);
    if a < b {
      MulLeft(a + 1, b, m);
    } else {
      MulLeft(b, a, m);
    }
  }

  lemma DivTimes(a: nat, b: nat)
    requires b >= 1
    ensures a == Times(a / b, b) + a % b
  {
    TimesIsProduct(a / b, b);
  }

  /** Start of the aligned block of size b that holds k. */
  function Start(k: nat, b: nat): (s: nat)
    requires b >= 1
    ensures s <= k < s + b
  {
    if k < b then 0 else Start(k - b, b) + b
  }

  lemma {:induction false} StartOf(q: nat, x: nat, b: nat)
    requires x < b
    ensures Start(Times(q, b) + x, b) == Times(q, b)
  {
    if q > 0 {
      StartOf(q - 1, x, b);
    }
  }

  /** Number of the aligned block of size b that holds k. */
  function BlockOf(k: nat, b: nat): (q: nat)
    requires b >= 1
    ensures q <= k
  {
    if k < b then 0 else BlockOf(k - b, b) + 1
  }

  lemma {:induction false} BlockOfIsQuotient(k: nat, b: nat)
    requires b >= 1
    ensures BlockOf(k, b) == k / b
  {
    if k >= b {
      BlockOfIsQuotient(k - b, b);
      var q := (k - b) / b;
      assert k == (q + 1) * b + (k - b) % b;
      DivModUnique(k, b, q + 1, (k - b) % b);
    } else {
      DivModUnique(k, b, 0, k);
    }
  }

  lemma {:induction false} InBlock(k: nat, c: nat, b: nat)
    requires b >= 1
    ensures BlockOf(k, b) == c <==> Times(c, b) <= k < Times(c, b) + b
    ensures Start(k, b) == Times(BlockOf(k, b), b)
  {
    if k >= b {
      InBlock(k - b, if c == 0 then 0 else c - 1, b);
    }
  }

  lemma QuotientBelow(k: nat, b: nat, m: nat)
    requires b >= 1
    ensures k < m * b <==> k / b < m
  {
    var q := k / b;
    assert k == q * b + k % b;
    if q < m {
      MulLeft(q + 1, m, b);
    } else {
      MulLeft(m, q, b);
    }
  }

  /** Numbers with equal remainders are at least a stride apart. */
  lemma NextSameRemainder(i: nat, j: nat, stride: nat)
    requires stride >= 1 && i < j && i % stride == j % stride
    ensures i + stride <= j
  {
    var p, q := i / stride, j / stride;
    assert i == p * stride + i % stride && j == q * stride + j % stride;
    NextMultiple(p, q, stride);
  }

  lemma NextMultiple(p: nat, q: nat, d: nat)
    requires p * d < q * d
    ensures p * d + d <= q * d
  {
    if q <= p { MulLeft(q, p, d); }
    MulLeft(p + 1, q, d);
    assert (p + 1) * d == p * d + d;
  }

  lemma SameRemainder(i: nat, stride: nat)
    requires stride >= 1
    ensures (i + stride) % stride == i % stride
  {
    assert i + stride == (i / stride + 1) * stride + i % stride;
    DivModUnique(i + stride, stride, i / stride + 1, i % stride);
  }
}
