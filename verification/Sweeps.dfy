/** The up-sweep and down-sweep of the work-efficient scan, on the logical contents of a block. */
module Sweeps {
  import opened Arithmetic
  import opened Sums

  // ----- pairs of a level -----

  /** The two cells one worker touches in one iteration of a level. */
  datatype Pair = Pair(left: int, right: int)

  /** The pairs of a level, in the order of the loop index idx == 2 * j. */
  function LevelPairs(offset: nat, d: nat): (ps: seq<Pair>)
    ensures |ps| == d
  {
    seq(d, j requires 0 <= j < d => Pair(offset * (2 * j + 1) - 1, offset * (2 * j + 2) - 1))
  }

  predicate IsRight(offset: nat, i: nat)
    requires offset >= 1
  {
    (i + 1) % (2 * offset) == 0
  }

  predicate IsLeft(offset: nat, i: nat)
    requires offset >= 1
  {
    (i + 1) % (2 * offset) == offset
  }

  lemma PairProducts(offset: nat, j: nat)
    ensures offset * (2 * j + 1) == j * (2 * offset) + offset
    ensures offset * (2 * j + 2) == j * (2 * offset) + 2 * offset == (j + 1) * (2 * offset)
    ensures j * (2 * offset) >= 0
  {
  }

  lemma PairCells(n: nat, offset: nat, d: nat, j: nat)
    requires offset >= 1 && j < d && Times(d, 2 * offset) == n
    ensures var p := LevelPairs(offset, d)[j];
            && 0 <= p.left < p.right < n && p.right == p.left + offset
            && IsRight(offset, p.right) && (p.right + 1) / (2 * offset) == j + 1
            && IsLeft(offset, p.left) && (p.left + 1) / (2 * offset) == j
  {
    var p := LevelPairs(offset, d)[j];
    PairProducts(offset, j);
    TimesIsProduct(d, 2 * offset);
    DivModUnique(p.right + 1, 2 * offset, j + 1, 0);
    DivModUnique(p.left + 1, 2 * offset, j, offset);
    MulLeft(j + 1, d, 2 * offset);
  }

  function Lefts(ps: seq<Pair>): set<int> { set p <- ps :: p.left }

  function Rights(ps: seq<Pair>): set<int> { set p <- ps :: p.right }

  /** Pairs of one level never share a cell: the reason why no order of the workers matters. */
  ghost predicate DisjointPairs(ps: seq<Pair>, n: nat) {
    && (forall j :: 0 <= j < |ps| ==> 0 <= ps[j].left < n && 0 <= ps[j].right < n)
    && (forall j, k :: 0 <= j < |ps| && 0 <= k < |ps| ==> ps[j].left != ps[k].right)
    && (forall j, k :: 0 <= j < k < |ps| ==> ps[j].left != ps[k].left && ps[j].right != ps[k].right)
  }

  /** ps holds exactly the left and right cells of a level. */
  ghost predicate CoversLevel(ps: seq<Pair>, offset: nat, n: nat)
    requires offset >= 1
  {
    && (forall j :: 0 <= j < |ps| ==>
         && 0 <= ps[j].left < n && 0 <= ps[j].right < n && ps[j].right == ps[j].left + offset
         && IsRight(offset, ps[j].right) && IsLeft(offset, ps[j].left))
    && (forall i: nat :: i < n && IsRight(offset, i) ==> i in Rights(ps))
    && (forall i: nat :: i < n && IsLeft(offset, i) ==> i in Lefts(ps))
  }

  lemma LevelPairsDisjoint(n: nat, offset: nat, d: nat)
    requires offset >= 1 && Times(d, 2 * offset) == n
    ensures DisjointPairs(LevelPairs(offset, d), n)
  {
    var ps := LevelPairs(offset, d);
    forall j, k | 0 <= j < d && 0 <= k < d
      ensures 0 <= ps[j].left < n && 0 <= ps[j].right < n && ps[j].left != ps[k].right
      ensures j != k ==> ps[j].left != ps[k].left && ps[j].right != ps[k].right
    {
      PairCells(n, offset, d, j);
      PairCells(n, offset, d, k);
    }
  }

  lemma LevelPairsCover(n: nat, offset: nat, d: nat)
    requires offset >= 1 && Times(d, 2 * offset) == n
    ensures DisjointPairs(LevelPairs(offset, d), n) && CoversLevel(LevelPairs(offset, d), offset, n)
  {
    LevelPairsDisjoint(n, offset, d);
    var ps := LevelPairs(offset, d);
    forall j | 0 <= j < d
      ensures ps[j].right == ps[j].left + offset && IsRight(offset, ps[j].right) && IsLeft(offset, ps[j].left)
    {
      PairCells(n, offset, d, j);
    }
    forall i: nat | i < n
      ensures (IsRight(offset, i) ==> i in Rights(ps)) && (IsLeft(offset, i) ==> i in Lefts(ps))
    {
      CellHasPair(n, offset, d, i);
    }
  }

  lemma CellHasPair(n: nat, offset: nat, d: nat, i: nat)
    requires offset >= 1 && Times(d, 2 * offset) == n && i < n
    ensures IsRight(offset, i) ==> i in Rights(LevelPairs(offset, d))
    ensures IsLeft(offset, i) ==> i in Lefts(LevelPairs(offset, d))
  {
    DivTimes(i + 1, 2 * offset);
    if IsRight(offset, i) {
      RightCell(n, offset, d, i, (i + 1) / (2 * offset));
    } else if IsLeft(offset, i) {
      LeftCell(n, offset, d, i, (i + 1) / (2 * offset));
    }
  }

  lemma RightCell(n: nat, offset: nat, d: nat, i: nat, q: nat)
    requires offset >= 1 && Times(d, 2 * offset) == n && i < n && i + 1 == Times(q, 2 * offset)
    ensures i in Rights(LevelPairs(offset, d))
  {
    TimesOrder(d, q, 2 * offset);
    PairOf(n, offset, d, q - 1);
    assert LevelPairs(offset, d)[q - 1].right == i;
  }

  lemma LeftCell(n: nat, offset: nat, d: nat, i: nat, q: nat)
    requires offset >= 1 && Times(d, 2 * offset) == n && i < n && i + 1 == Times(q, 2 * offset) + offset
    ensures i in Lefts(LevelPairs(offset, d))
  {
    TimesOrder(q, d, 2 * offset);
    PairOf(n, offset, d, q);
    assert LevelPairs(offset, d)[q].left == i;
  }

  lemma PairOf(n: nat, offset: nat, d: nat, j: nat)
    requires offset >= 1 && j < d && Times(d, 2 * offset) == n
    ensures var p := LevelPairs(offset, d)[j];
      p.right + 1 == Times(j + 1, 2 * offset) && p.left + 1 == Times(j, 2 * offset) + offset
  {
    var p := LevelPairs(offset, d)[j];
    PairCells(n, offset, d, j);
    DivTimes(p.right + 1, 2 * offset);
    DivTimes(p.left + 1, 2 * offset);
  }

  // ----- one level -----

  /** t is s after `tmp[right] += tmp[left]` for every pair. */
  ghost predicate AddedPairs(s: seq<int>, ps: seq<Pair>, t: seq<int>)
    requires DisjointPairs(ps, |s|)
  {
    && |t| == |s|
    && (forall i :: 0 <= i < |s| && i !in Rights(ps) ==> t[i] == s[i])
    && (forall j :: 0 <= j < |ps| ==> t[ps[j].right] == s[ps[j].right] + s[ps[j].left])
  }

  /** t is s after every pair moved its right cell to the left one and the sum to the right one. */
  ghost predicate SwappedPairs(s: seq<int>, ps: seq<Pair>, t: seq<int>)
    requires DisjointPairs(ps, |s|)
  {
    && |t| == |s|
    && (forall i :: 0 <= i < |s| && i !in Lefts(ps) && i !in Rights(ps) ==> t[i] == s[i])
    && (forall j :: 0 <= j < |ps| ==>
         t[ps[j].left] == s[ps[j].right] && t[ps[j].right] == s[ps[j].right] + s[ps[j].left])
  }

  function UpLevel(s: seq<int>, offset: nat): (t: seq<int>)
    requires offset >= 1
    ensures |t| == |s|
  {
    seq(|s|, i requires 0 <= i < |s| =>
      if IsRight(offset, i) && offset <= i then s[i] + s[i - offset] else s[i])
  }

  function DownLevel(s: seq<int>, offset: nat): (t: seq<int>)
    requires offset >= 1
    ensures |t| == |s|
  {
    seq(|s|, i requires 0 <= i < |s| =>
      if IsRight(offset, i) && offset <= i then s[i] + s[i - offset]
      else if IsLeft(offset, i) && i + offset < |s| then s[i + offset]
      else s[i])
  }

  lemma PairOfRight(ps: seq<Pair>, i: int) returns (j: nat)
    requires i in Rights(ps)
    ensures j < |ps| && ps[j].right == i
  {
    var p :| p in ps && p.right == i;
    j :| 0 <= j < |ps| && ps[j] == p;
  }

  lemma PairOfLeft(ps: seq<Pair>, i: int) returns (j: nat)
    requires i in Lefts(ps)
    ensures j < |ps| && ps[j].left == i
  {
    var p :| p in ps && p.left == i;
    j :| 0 <= j < |ps| && ps[j] == p;
  }

  lemma AddedPairsIsUpLevel(s: seq<int>, ps: seq<Pair>, offset: nat, t: seq<int>)
    requires offset >= 1 && DisjointPairs(ps, |s|) && CoversLevel(ps, offset, |s|) && AddedPairs(s, ps, t)
    ensures t == UpLevel(s, offset)
  {
    forall i: nat | i < |s| ensures t[i] == UpLevel(s, offset)[i] {
      if i in Rights(ps) {
        AddedRight(s, ps, offset, t, i);
      }
    }
  }

  lemma AddedRight(s: seq<int>, ps: seq<Pair>, offset: nat, t: seq<int>, i: nat)
    requires offset >= 1 && DisjointPairs(ps, |s|) && CoversLevel(ps, offset, |s|) && AddedPairs(s, ps, t)
    requires i < |s| && i in Rights(ps)
    ensures t[i] == UpLevel(s, offset)[i]
  {
    var j := PairOfRight(ps, i);
  }

  lemma SwappedPairsIsDownLevel(s: seq<int>, ps: seq<Pair>, offset: nat, t: seq<int>)
    requires offset >= 1 && DisjointPairs(ps, |s|) && CoversLevel(ps, offset, |s|) && SwappedPairs(s, ps, t)
    ensures t == DownLevel(s, offset)
  {
    forall i: nat | i < |s| ensures t[i] == DownLevel(s, offset)[i] {
      SwappedPairsAt(s, ps, offset, t, i);
    }
  }

  lemma SwappedPairsAt(s: seq<int>, ps: seq<Pair>, offset: nat, t: seq<int>, i: nat)
    requires offset >= 1 && DisjointPairs(ps, |s|) && CoversLevel(ps, offset, |s|) && SwappedPairs(s, ps, t)
    requires i < |s|
    ensures t[i] == DownLevel(s, offset)[i]
  {
    if i in Rights(ps) {
      SwappedRight(s, ps, offset, t, i);
    } else if i in Lefts(ps) {
      SwappedLeft(s, ps, offset, t, i);
    } else {
      Untouched(s, ps, offset, t, i);
    }
  }

  lemma Untouched(s: seq<int>, ps: seq<Pair>, offset: nat, t: seq<int>, i: nat)
    requires offset >= 1 && DisjointPairs(ps, |s|) && CoversLevel(ps, offset, |s|) && SwappedPairs(s, ps, t)
    requires i < |s| && i !in Rights(ps) && i !in Lefts(ps)
    ensures t[i] == DownLevel(s, offset)[i]
  {
    assert !IsRight(offset, i) && !IsLeft(offset, i);
  }

  lemma SwappedRight(s: seq<int>, ps: seq<Pair>, offset: nat, t: seq<int>, i: nat)
    requires offset >= 1 && DisjointPairs(ps, |s|) && CoversLevel(ps, offset, |s|) && SwappedPairs(s, ps, t)
    requires i < |s| && i in Rights(ps)
    ensures t[i] == DownLevel(s, offset)[i]
  {
    var j := PairOfRight(ps, i);
  }

  lemma SwappedLeft(s: seq<int>, ps: seq<Pair>, offset: nat, t: seq<int>, i: nat)
    requires offset >= 1 && DisjointPairs(ps, |s|) && CoversLevel(ps, offset, |s|) && SwappedPairs(s, ps, t)
    requires i < |s| && i in Lefts(ps)
    ensures t[i] == DownLevel(s, offset)[i]
  {
    var j := PairOfLeft(ps, i);
  }

  // ----- what the levels mean -----

  /** The largest o, o/2, o/4, ... that divides n. */
  function Width(n: nat, o: nat): (w: nat)
    requires n >= 1 && o >= 1
    ensures 1 <= w <= o && w <= n && n % w == 0
  {
    if n % o == 0 then o else Width(n, o / 2)
  }

  /** After the levels below o, each cell holds the sum of the subtree it closes. */
  ghost predicate SubtreeSums(a: seq<int>, t: seq<int>, o: nat)
    requires o >= 1
  {
    |t| == |a| && forall i: nat :: i < |a| ==> t[i] == Sum(a, i + 1 - Width(i + 1, o), i + 1)
  }

  /** Last cells of blocks of size b hold the prefix before their block, the others still subtree sums. */
  ghost predicate BlockPrefixes(a: seq<int>, t: seq<int>, b: nat)
    requires b >= 1
  {
    |t| == |a| && forall i: nat :: i < |a| ==>
      t[i] == if (i + 1) % b == 0 then Sum(a, 0, i + 1 - Width(i + 1, b))
              else Sum(a, i + 1 - Width(i + 1, b), i + 1)
  }

  lemma HalfStep(n: nat, o: nat)
    requires o >= 1 && n >= 1
    ensures n % (2 * o) == 0 ==> n >= 2 * o && (n - o) % o == 0 && (n - o) % (2 * o) == o && n % o == 0
    ensures n % (2 * o) == o ==> n % o == 0 && (n + o) % (2 * o) == 0
    ensures n % o == 0 ==> n % (2 * o) == 0 || n % (2 * o) == o
  {
    var q, r := n / (2 * o), n % (2 * o);
    if r == 0 {
      WholeStep(n, o, q);
    } else if r == o {
      OddStep(n, o, q);
    } else if r < o {
      DivModUnique(n, o, 2 * q, r);
    } else {
      DivModUnique(n, o, 2 * q + 1, r - o);
    }
  }

  lemma WholeStep(n: nat, o: nat, q: nat)
    requires o >= 1 && n >= 1 && n == q * (2 * o)
    ensures n >= 2 * o && (n - o) % o == 0 && (n - o) % (2 * o) == o && n % o == 0
  {
    MulAtLeast(q, 2 * o);
    DivModUnique(n - o, 2 * o, q - 1, o);
    DivModUnique(n - o, o, 2 * q - 1, 0);
    DivModUnique(n, o, 2 * q, 0);
  }

  lemma OddStep(n: nat, o: nat, q: nat)
    requires o >= 1 && n == q * (2 * o) + o
    ensures n % o == 0 && (n + o) % (2 * o) == 0
  {
    DivModUnique(n, o, 2 * q + 1, 0);
    DivModUnique(n + o, 2 * o, q + 1, 0);
  }

  lemma UpLevelSums(a: seq<int>, t: seq<int>, o: nat)
    requires o >= 1 && SubtreeSums(a, t, o)
    ensures SubtreeSums(a, UpLevel(t, o), 2 * o)
  {
    var u := UpLevel(t, o);
    forall i: nat | i < |a| ensures u[i] == Sum(a, i + 1 - Width(i + 1, 2 * o), i + 1) {
      if IsRight(o, i) {
        RightSum(a, t, o, i);
      } else {
        SameWidth(i + 1, o);
      }
    }
  }

  lemma RightSum(a: seq<int>, t: seq<int>, o: nat, i: nat)
    requires o >= 1 && SubtreeSums(a, t, o) && i < |a| && IsRight(o, i)
    ensures o <= i && t[i] + t[i - o] == Sum(a, i + 1 - Width(i + 1, 2 * o), i + 1)
  {
    HalfStep(i + 1, o);
    SumSplit(a, i + 1 - 2 * o, i + 1 - o, i + 1);
    assert Width(i + 1, o) == o == Width(i + 1 - o, o);
  }

  lemma SameWidth(n: nat, o: nat)
    requires o >= 1 && n >= 1 && n % (2 * o) != 0
    ensures Width(n, 2 * o) == Width(n, o)
  {
  }

  lemma DownLevelPrefixes(a: seq<int>, t: seq<int>, o: nat)
    requires o >= 1 && BlockPrefixes(a, t, 2 * o) && |a| % (2 * o) == 0
    ensures BlockPrefixes(a, DownLevel(t, o), o)
  {
    var u := DownLevel(t, o);
    forall i: nat | i < |a|
      ensures u[i] == if (i + 1) % o == 0 then Sum(a, 0, i + 1 - Width(i + 1, o))
                      else Sum(a, i + 1 - Width(i + 1, o), i + 1)
    {
      HalfStep(i + 1, o);
      if IsRight(o, i) {
        RightPrefix(a, t, o, i);
      } else if IsLeft(o, i) {
        LeftPrefix(a, t, o, i);
      }
    }
  }

  lemma RightPrefix(a: seq<int>, t: seq<int>, o: nat, i: nat)
    requires o >= 1 && BlockPrefixes(a, t, 2 * o) && i < |a| && IsRight(o, i)
    ensures i >= o && t[i] + t[i - o] == Sum(a, 0, i + 1 - o)
  {
    RightWidths(i + 1, o);
    SumSplit(a, 0, i + 1 - 2 * o, i + 1 - o);
  }

  lemma LeftPrefix(a: seq<int>, t: seq<int>, o: nat, i: nat)
    requires o >= 1 && BlockPrefixes(a, t, 2 * o) && |a| % (2 * o) == 0 && i < |a| && IsLeft(o, i)
    ensures i + o < |a| && i + 1 >= o && t[i + o] == Sum(a, 0, i + 1 - o)
  {
    LeftHasPartner(|a|, o, i);
    HalfStep(i + 1, o);
    assert Width(i + 1 + o, 2 * o) == 2 * o;
  }

  lemma RightWidths(n: nat, o: nat)
    requires o >= 1 && n >= 1 && n % (2 * o) == 0
    ensures n >= 2 * o && (n - o) % (2 * o) == o && Width(n, 2 * o) == 2 * o && Width(n - o, 2 * o) == o
  {
    HalfStep(n, o);
  }

  lemma LeftHasPartner(n: nat, o: nat, i: nat)
    requires o >= 1 && n % (2 * o) == 0 && i < n && IsLeft(o, i)
    ensures i + o < n
  {
    var o2 := 2 * o;
    var q, m := (i + 1) / o2, n / o2;
    assert i + 1 == q * o2 + o && n == m * o2;
    if m <= q { MulLeft(m, q, o2); }
    MulLeft(q + 1, m, o2);
    assert (q + 1) * o2 == q * o2 + o2;
  }

  /** Clearing the last cell after the full up-sweep starts the down-sweep. */
  lemma ClearedRoot(a: seq<int>, t: seq<int>)
    requires |a| >= 1 && SubtreeSums(a, t, |a|)
    ensures t[|a| - 1] == Sum(a, 0, |a|)
    ensures BlockPrefixes(a, t[|a| - 1 := 0], |a|)
  {
    var n := |a|;
    DivModUnique(n, n, 1, 0);
    assert Width(n, n) == n;
    forall i: nat | i < n - 1 ensures t[i] == Sum(a, i + 1 - Width(i + 1, n), i + 1) && (i + 1) % n != 0 {
      DivModUnique(i + 1, n, 0, i + 1);
    }
  }

  lemma LeafPrefixes(a: seq<int>, t: seq<int>)
    ensures SubtreeSums(a, a, 1)
    ensures BlockPrefixes(a, t, 1) ==> |t| == |a| && forall i: nat :: i < |a| ==> t[i] == Sum(a, 0, i)
  {
    forall i: nat | i < |a| ensures a[i] == Sum(a, i, i + 1) && Width(i + 1, 1) == 1 {
      assert Sum(a, i, i + 1) == Sum(a, i, i) + a[i];
    }
  }
}
