/** Integer powers, roots and power-of-two rounding. */
module IntegerPowers {
  import opened Arithmetic

  function Pow(b: nat, n: nat): nat {
    if n == 0 then 1 else Pow(b, n - 1) * b
  }

  /** The laws that make Pow the power. */
  lemma {:induction false} PowAdd(b: nat, m: nat, n: nat)
    ensures Pow(b, 0) == 1 && Pow(b, 1) == b
    ensures Pow(b, m + n) == Pow(b, m) * Pow(b, n)
  {
    assert Pow(b, 1) == Pow(b, 0) * b;
    if n > 0 {
      PowAdd(b, m, n - 1);
      Regroup(Pow(b, m), Pow(b, n - 1), b);
    }
  }

  lemma Regroup(x: nat, y: nat, z: nat)
    ensures (x * y) * z == x * (y * z)
  {
  }

  lemma {:induction false} PowGrows(a: nat, b: nat, n: nat)
    requires a <= b
    ensures Pow(a, n) <= Pow(b, n)
    ensures n >= 1 ==> Pow(b, n) >= b
  {
    if n > 0 {
      PowGrows(a, b, n - 1);
      MulLeft(Pow(a, n - 1), Pow(b, n - 1), a);
      MulLeft(a, b, Pow(b, n - 1));
      if n > 1 && b >= 1 {
        MulLeft(1, Pow(b, n - 1), b);
      }
    }
  }

  method IntPow(base: nat, n: nat) returns (r: nat)
    ensures r == Pow(base, n)
  {
    if n == 0 {
      return 1;
    }
    r := base;
    assert Pow(base, 1) == Pow(base, 0) * base;
    for i := 1 to n
      invariant r == Pow(base, i)
    {
      r := r * base;
    }
  }

  /** Exponentiation by squaring computes the same power. */
  function IPow(base: nat, exponent: nat): (result: nat)
    ensures result == Pow(base, exponent)
  {
    if exponent == 0 then 1
    else
      var half := IPow(base, exponent / 2);
      PowAdd(base, exponent / 2, exponent / 2);
      var square := half * half;
      if exponent % 2 != 0 then square * base else square
  }

  /** Bisection; for n == 0 every candidate passes the test and the value itself comes back. */
  method NthRootFloor(value: nat, n: nat) returns (l: nat)
    ensures n >= 1 ==> Pow(l, n) <= value < Pow(l + 1, n)
    ensures n == 0 ==> l == value
  {
    l := 0;
    var r := value + 1;
    PowGrows(0, r, n);
    if n >= 1 { assert Pow(0, n) == 0; }
    while l != r - 1
      invariant l < r <= value + 1
      invariant n >= 1 ==> Pow(l, n) <= value < Pow(r, n)
      invariant n == 0 ==> r == value + 1
      decreases r - l
    {
      var m := (l + r) / 2;
      var p := IntPow(m, n);
      if p <= value {
        l := m;
      } else {
        r := m;
      }
    }
  }

  /** The root is determined by its defining inequalities. */
  lemma RootIsUnique(value: nat, n: nat, r: nat, s: nat)
    requires Pow(r, n) <= value < Pow(r + 1, n) && Pow(s, n) <= value < Pow(s + 1, n)
    ensures r == s
  {
    if r < s {
      PowGrows(r + 1, s, n);
    } else if s < r {
      PowGrows(s + 1, r, n);
    }
  }

  /** The defining inequalities can be met exactly for n >= 1; with n == 0 the routine has no root to find. */
  lemma RootExists(value: nat, n: nat)
    ensures (exists r: nat :: Pow(r, n) <= value < Pow(r + 1, n)) <==> n >= 1
  {
    if n >= 1 {
      var r := FindRoot(value, n, 0);
    }
  }

  lemma FindRoot(value: nat, n: nat, from: nat) returns (r: nat)
    requires n >= 1 && from <= value && Pow(from, n) <= value
    ensures Pow(r, n) <= value < Pow(r + 1, n)
    decreases value - from
  {
    if value < Pow(from + 1, n) {
      r := from;
    } else {
      PowGrows(0, from + 1, n);
      r := FindRoot(value, n, from + 1);
    }
  }

  // ----- rounding down to a power of two -----

  const TWO32: nat := 0x1_0000_0000

  /** p is the largest power of two that is at most v. */
  predicate RoundsDown(p: nat, v: nat) { IsPow2(p) && p <= v < 2 * p }

  lemma {:induction false} RoundsDownUnique(p: nat, q: nat, v: nat)
    requires RoundsDown(p, v) && RoundsDown(q, v)
    ensures p == q
    decreases v
  {
    if v > 1 {
      assert p > 1 && q > 1;
      RoundsDownUnique(p / 2, q / 2, v / 2);
    }
  }

  /** std::countl_zero on the given number of bits. */
  function CountlZero(bits: nat, v: nat): (z: nat)
    ensures z <= bits && (v >= 1 && v < Pow(2, bits) ==> z < bits)
  {
    if bits == 0 || v >= Pow(2, bits - 1) then 0 else 1 + CountlZero(bits - 1, v)
  }

  function FirstSetBit(bits: nat, v: nat): nat
    requires 1 <= v < Pow(2, bits)
  {
    bits - 1 - CountlZero(bits, v)
  }

  function RoundDownToPowerOfTwo(bits: nat, v: nat): nat
    requires 1 <= v < Pow(2, bits)
  {
    Pow(2, FirstSetBit(bits, v))
  }

  lemma {:induction false} PowOfTwo(k: nat)
    ensures IsPow2(Pow(2, k))
  {
    if k > 0 {
      PowOfTwo(k - 1);
      DoubleIsPow2(Pow(2, k - 1));
    }
  }

  lemma {:induction false} RoundDownRoundsDown(bits: nat, v: nat)
    requires 1 <= v < Pow(2, bits)
    ensures RoundsDown(RoundDownToPowerOfTwo(bits, v), v)
  {
    if v >= Pow(2, bits - 1) {
      PowOfTwo(bits - 1);
    } else {
      RoundDownRoundsDown(bits - 1, v);
    }
  }

  /** result << 1 on 32 bits. */
  function Shl(result: nat): nat { result * 2 % TWO32 }

  lemma ShlDoubles(result: nat)
    ensures result < 0x8000_0000 ==> Shl(result) == 2 * result
    ensures result == 0x8000_0000 || result == 0 ==> Shl(result) == 0
  {
  }

  /** The loop on 32-bit values. It ends exactly below 2^31 (see HighestPowerEndsExactlyWhen). */
  method HighestPowerOfTwo(value: nat) returns (result: nat)
    requires value < 0x8000_0000
    ensures value >= 1 ==> RoundsDown(result, value)
    ensures value >= 1 ==> value < Pow(2, 32) && result == RoundDownToPowerOfTwo(32, value)
    ensures value == 0 ==> result == 1
  {
    result := 1;
    while Shl(result) <= value
      invariant IsPow2(result) && result < TWO32 / 2 + 1 && (result == 1 || result <= value)
      decreases TWO32 - result
    {
      ShlDoubles(result);
      DoubleIsPow2(result);
      result := Shl(result);
    }
    if value >= 1 {
      PowFits(31);
      assert Pow(2, 32) == Pow(2, 31) * 2;
      RoundDownRoundsDown(32, value);
      RoundsDownUnique(result, RoundDownToPowerOfTwo(32, value), value);
    }
  }

  /** The loop variable after k iterations. */
  function Shifted(k: nat): nat {
    if k == 0 then 1 else Shl(Shifted(k - 1))
  }

  lemma {:induction false} ShiftedIsPower(k: nat)
    ensures Shifted(k) == if k <= 31 then Pow(2, k) else 0
    ensures k <= 31 ==> Pow(2, k) <= 0x8000_0000
  {
    if k > 0 {
      ShiftedIsPower(k - 1);
      ShlDoubles(Shifted(k - 1));
      if k <= 31 {
        PowFits(k);
      } else if k == 32 {
        PowFits(31);
      }
    }
  }

  lemma PowFits(k: nat)
    requires k <= 31
    ensures Pow(2, k) <= 0x8000_0000 && (k == 31 ==> Pow(2, k) == 0x8000_0000)
  {
    assert Pow(2, 4) == 16;
    assert Pow(2, 8) == 256 by { PowAdd(2, 4, 4); }
    assert Pow(2, 16) == 0x1_0000 by { PowAdd(2, 8, 8); }
    assert Pow(2, 15) == 0x8000;
    assert Pow(2, 31) == 0x8000_0000 by { PowAdd(2, 16, 15); }
    PowAdd(2, k, 31 - k);
    PowGrows(1, 2, 31 - k);
    PowOfOne(31 - k);
    MulLeft(1, Pow(2, 31 - k), Pow(2, k));
  }

  lemma {:induction false} PowOfOne(n: nat)
    ensures Pow(1, n) == 1
  {
    if n > 0 { PowOfOne(n - 1); }
  }

  /** For values from 2^31 on, the shifted-out bit turns the variable into 0 and the loop runs forever. */
  lemma HighestPowerEndsExactlyWhen(value: nat)
    requires value < TWO32
    ensures (exists k: nat :: Shl(Shifted(k)) > value) <==> value < 0x8000_0000
  {
    if value < 0x8000_0000 {
      ShiftedIsPower(31);
      PowFits(31);
      assert Shifted(31) == Shl(Shifted(30));
    } else {
      forall k: nat ensures Shl(Shifted(k)) <= value {
        ShiftedIsPower(k + 1);
        if k + 1 <= 31 { PowFits(k + 1); }
      }
    }
  }
}
