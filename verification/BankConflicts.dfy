/** What the padding of the shared memory is for: the threads of a tree level hit different banks. */
module BankConflicts {
  import opened Arithmetic
  import opened SharedMemory

  /** The memory bank that thread i of group g hits when its logical cell is a multiple of the stride, plus c. */
  function Hit(banks: nat, stride: nat, g: nat, c: nat, i: nat): nat
    requires banks >= 1
  {
    ConflictFree(banks, (g * banks + i) * stride + c) % banks
  }

  /** Groups of `banks` neighbouring threads hit as many different banks. */
  ghost predicate NoConflict(banks: nat, stride: nat)
    requires banks >= 1
  {
    forall g: nat, c: nat, i: nat, k: nat :: c < stride && i < k < banks ==>
      Hit(banks, stride, g, c, i) != Hit(banks, stride, g, c, k)
  }

  lemma AddMultiple(a: nat, z: nat, banks: nat)
    requires banks >= 1
    ensures (a * banks + z) % banks == z % banks
  {
    var q := z / banks;
    assert (a + q) * banks == a * banks + q * banks;
    DivModUnique(a * banks + z, banks, a + q, z % banks);
  }

  /** Threads i = q * m + r of a group fill m * s cells: q rows of banks were passed. */
  lemma RowOfCell(s: nat, m: nat, g: nat, q: nat, r: nat, c: nat)
    ensures (g * (m * s) + (q * m + r)) * s + c == (g * s + q) * (m * s) + (r * s + c)
  {
    calc {
      (g * (m * s) + (q * m + r)) * s + c;
      (g * (m * s)) * s + (q * m) * s + r * s + c;
      (g * s) * (m * s) + q * (m * s) + r * s + c;
      (g * s + q) * (m * s) + (r * s + c);
    }
  }

  lemma BelowProduct(r: nat, c: nat, m: nat, s: nat)
    requires r < m && c < s
    ensures r * s + c < m * s
  {
    MulLeft(r + 1, m, s);
    assert (r + 1) * s == r * s + s;
  }

  lemma CellInRow(banks: nat, s: nat, m: nat, g: nat, c: nat, q: nat, r: nat)
    requires banks == m * s && c < s && r < m
    ensures var n := (g * banks + (q * m + r)) * s + c;
      banks >= 1 && n / banks == g * s + q && n == (g * s + q) * banks + (r * s + c)
  {
    RowOfCell(s, m, g, q, r, c);
    BelowProduct(r, c, m, s);
    DivModUnique((g * s + q) * banks + (r * s + c), banks, g * s + q, r * s + c);
  }

  /** Where thread i of a group goes, up to a rotation of the banks. */
  function Slot(s: nat, m: nat, i: nat): nat
    requires m >= 1
  {
    (i % m) * s + i / m
  }

  lemma Rotated(banks: nat, n: nat, a: nat, z: nat)
    requires banks >= 1 && n == a * banks + z && n / banks == a
    ensures ConflictFree(banks, n) % banks == (z + a) % banks
  {
    AddMultiple(a, z + a, banks);
  }

  lemma HitIs(banks: nat, s: nat, m: nat, g: nat, c: nat, i: nat)
    requires m >= 1 && banks == m * s && c < s
    ensures banks >= 1 && Hit(banks, s, g, c, i) == (Slot(s, m, i) + (c + g * s)) % banks
  {
    var q, r := i / m, i % m;
    CellInRow(banks, s, m, g, c, q, r);
    assert q * m + r == i;
    Rotated(banks, (g * banks + i) * s + c, g * s + q, r * s + c);
  }

  lemma SlotsApart(banks: nat, s: nat, m: nat, i: nat, k: nat)
    requires s >= 1 && m >= 1 && banks == m * s && i < banks && k < banks && i != k
    ensures Slot(s, m, i) < banks && Slot(s, m, k) < banks && Slot(s, m, i) != Slot(s, m, k)
  {
    SlotIs(banks, s, m, i);
    SlotIs(banks, s, m, k);
  }

  lemma SlotIs(banks: nat, s: nat, m: nat, i: nat)
    requires s >= 1 && m >= 1 && banks == m * s && i < banks
    ensures Slot(s, m, i) < banks && i == (Slot(s, m, i) % s) * m + Slot(s, m, i) / s
  {
    assert s * m == banks;
    QuotientBelow(i, m, s);
    BelowProduct(i % m, i / m, m, s);
    DivModUnique(Slot(s, m, i), s, i % m, i / m);
  }

  lemma DifferentRemainders(x: nat, y: nat, e: nat, banks: nat)
    requires x < y < banks
    ensures (x + e) % banks != (y + e) % banks
  {
    if (x + e) % banks == (y + e) % banks {
      NextSameRemainder(x + e, y + e, banks);
    }
  }

  lemma HitsApart(banks: nat, s: nat, m: nat, g: nat, c: nat, i: nat, k: nat)
    requires s >= 1 && m >= 1 && banks == m * s && c < s && i < k < banks
    ensures Hit(banks, s, g, c, i) != Hit(banks, s, g, c, k)
  {
    HitIs(banks, s, m, g, c, i);
    HitIs(banks, s, m, g, c, k);
    SlotsApart(banks, s, m, i, k);
    var x, y := Slot(s, m, i), Slot(s, m, k);
    DifferentRemainders(if x < y then x else y, if x < y then y else x, c + g * s, banks);
  }

  /** Strides of an even number of rows: thread 0 and the thread half a group away meet. */
  lemma HitsMeet(h: nat, u: nat)
    requires h >= 1
    ensures Hit(2 * h, (2 * u) * (2 * h), 0, 0, 0) == Hit(2 * h, (2 * u) * (2 * h), 0, 0, h)
  {
    var banks, rows := 2 * h, h * (2 * u);
    var n := h * ((2 * u) * banks);
    assert n == rows * banks;
    DivModUnique(n, banks, rows, 0);
    assert rows == u * banks;
    AddMultiple(rows, rows, banks);
    AddMultiple(u, 0, banks);
    assert (0 * banks + h) * ((2 * u) * banks) + 0 == n && (0 * banks + 0) * ((2 * u) * banks) + 0 == 0;
  }

  lemma EvenQuotient(banks: nat, stride: nat) returns (h: nat, u: nat)
    requires banks >= 2 && IsPow2(banks) && IsPow2(stride) && stride > banks
    ensures h >= 1 && u >= 1 && banks == 2 * h && stride == (2 * u) * (2 * h)
  {
    Pow2Divides(banks, stride);
    var t := stride / banks;
    assert stride == t * banks;
    h, u := banks / 2, t / 2;
  }

  lemma AllApart(banks: nat, stride: nat, m: nat)
    requires stride >= 1 && m >= 1 && banks == m * stride && banks >= 1
    ensures NoConflict(banks, stride)
  {
    forall g: nat, c: nat, i: nat, k: nat | c < stride && i < k < banks
      ensures Hit(banks, stride, g, c, i) != Hit(banks, stride, g, c, k)
    {
      HitsApart(banks, stride, m, g, c, i, k);
    }
  }

  lemma Multiple(w: nat, n: nat) returns (m: nat)
    requires IsPow2(w) && IsPow2(n) && w <= n
    ensures m >= 1 && n == m * w
  {
    Pow2Divides(w, n);
    m := n / w;
    assert IsPow2(m);
  }

  /** The padding avoids all conflicts of a tree level exactly while its stride is at most the number of banks. */
  lemma NoConflictExactlyWhen(banks: nat, stride: nat)
    requires banks >= 2 && IsPow2(banks) && IsPow2(stride)
    ensures NoConflict(banks, stride) <==> stride <= banks
  {
    if stride <= banks {
      var m := Multiple(stride, banks);
      AllApart(banks, stride, m);
    } else {
      var h, u := EvenQuotient(banks, stride);
      HitsMeet(h, u);
      assert Hit(banks, stride, 0, 0, 0) == Hit(banks, stride, 0, 0, h);
    }
  }
}
