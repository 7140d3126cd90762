/** The sequential work-efficient scan of one register mini-block, in place inside a thread's memory. */
module MiniBlock {
  import opened Arithmetic
  import opened Sums
  import opened Sweeps
  import opened TreeScan

  /** a with the part from base on replaced by c. */
  function Splice(a: seq<int>, base: nat, c: seq<int>): (r: seq<int>)
    requires base + |c| <= |a|
    ensures |r| == |a|
  {
    a[..base] + c + a[base + |c|..]
  }

  lemma SpliceStore(a: seq<int>, base: nat, c: seq<int>, k: nat, v: int)
    requires base + |c| <= |a| && k < |c|
    ensures Splice(a, base, c)[base + k] == c[k]
    ensures Splice(a, base, c)[base + k := v] == Splice(a, base, c[k := v])
  {
  }

  /** One iteration of the up-sweep's inner loop. */
  method MiniAdd(reg: array<int>, base: nat, p: Pair, ghost before: seq<int>, ghost c: seq<int>)
    requires base + |c| <= reg.Length == |before| && reg[..] == Splice(before, base, c)
    requires 0 <= p.left < |c| && 0 <= p.right < |c|
    modifies reg
    ensures reg[..] == Splice(before, base, c[p.right := c[p.right] + c[p.left]])
  {
    SpliceStore(before, base, c, p.left, 0);
    SpliceStore(before, base, c, p.right, c[p.right] + c[p.left]);
    reg[base + p.right] := reg[base + p.right] + reg[base + p.left];
  }

  /** c is s after the first `next` pairs of an up-sweep level. */
  ghost predicate AddedUpTo(s: seq<int>, ps: seq<Pair>, next: nat, c: seq<int>)
    requires DisjointPairs(ps, |s|)
  {
    && |c| == |s|
    && (forall i :: 0 <= i < |s| && i !in Rights(ps) ==> c[i] == s[i])
    && (forall j :: 0 <= j < |ps| ==>
         c[ps[j].right] == if j < next then s[ps[j].right] + s[ps[j].left] else s[ps[j].right])
  }

  lemma AddNext(s: seq<int>, ps: seq<Pair>, next: nat, c: seq<int>)
    requires DisjointPairs(ps, |s|) && AddedUpTo(s, ps, next, c) && next < |ps|
    ensures var p := ps[next]; AddedUpTo(s, ps, next + 1, c[p.right := c[p.right] + c[p.left]])
  {
    LeftIsNoRight(ps, |s|, next);
  }

  lemma AddedToEnds(s: seq<int>, ps: seq<Pair>, c: seq<int>)
    requires DisjointPairs(ps, |s|)
    ensures AddedUpTo(s, ps, 0, s) && (AddedUpTo(s, ps, |ps|, c) ==> AddedPairs(s, ps, c))
  {
  }

  method MiniAddIteration(reg: array<int>, base: nat, ps: seq<Pair>, j: nat, ghost before: seq<int>, ghost c: seq<int>,
                          ghost now: seq<int>) returns (ghost now': seq<int>)
    requires DisjointPairs(ps, |c|) && AddedUpTo(c, ps, j, now) && j < |ps|
    requires base + |c| <= reg.Length == |before| && reg[..] == Splice(before, base, now)
    modifies reg
    ensures AddedUpTo(c, ps, j + 1, now') && reg[..] == Splice(before, base, now')
  {
    AddNext(c, ps, j, now);
    MiniAdd(reg, base, ps[j], before, now);
    now' := now[ps[j].right := now[ps[j].right] + now[ps[j].left]];
  }

  method MiniAddPairs(reg: array<int>, base: nat, ps: seq<Pair>, ghost before: seq<int>, ghost c: seq<int>)
    returns (ghost now: seq<int>)
    requires base + |c| <= reg.Length == |before| && reg[..] == Splice(before, base, c)
    requires DisjointPairs(ps, |c|)
    modifies reg
    ensures AddedPairs(c, ps, now) && reg[..] == Splice(before, base, now)
  {
    now := c;
    var frameElem := 0;
    ghost var j := 0;
    AddedToEnds(c, ps, now);
    while frameElem < 2 * |ps|
      invariant frameElem == 2 * j && j <= |ps|
      invariant AddedUpTo(c, ps, j, now)
      invariant reg[..] == Splice(before, base, now)
    {
      now := MiniAddIteration(reg, base, ps, frameElem / 2, before, c, now);
      frameElem, j := frameElem + 2, j + 1;
    }
    AddedToEnds(c, ps, now);
  }

  method MiniUpLevel(reg: array<int>, base: nat, m: nat, d: nat, offset: nat,
                     ghost before: seq<int>, ghost c: seq<int>)
    requires base + m <= reg.Length == |before| && |c| == m && reg[..] == Splice(before, base, c)
    requires offset >= 1 && Times(d, 2 * offset) == m
    modifies reg
    ensures reg[..] == Splice(before, base, UpLevel(c, offset))
  {
    LevelPairsCover(m, offset, d);
    ghost var now := MiniAddPairs(reg, base, LevelPairs(offset, d), before, c);
    AddedPairsIsUpLevel(c, LevelPairs(offset, d), offset, now);
  }

  /** One iteration of the down-sweep's inner loop. */
  method MiniSwap(reg: array<int>, base: nat, p: Pair, ghost before: seq<int>, ghost c: seq<int>)
    requires base + |c| <= reg.Length == |before| && reg[..] == Splice(before, base, c)
    requires 0 <= p.left < |c| && 0 <= p.right < |c| && p.left != p.right
    modifies reg
    ensures reg[..] == Splice(before, base, c[p.left := c[p.right]][p.right := c[p.right] + c[p.left]])
  {
    SpliceStore(before, base, c, p.right, 0);
    SpliceStore(before, base, c, p.left, c[p.right]);
    SpliceStore(before, base, c[p.left := c[p.right]], p.right, c[p.right] + c[p.left]);
    var t := reg[base + p.left];
    reg[base + p.left] := reg[base + p.right];
    reg[base + p.right] := reg[base + p.right] + t;
  }

  /** c is s after the first `next` pairs of a down-sweep level. */
  ghost predicate SwappedUpTo(s: seq<int>, ps: seq<Pair>, next: nat, c: seq<int>)
    requires DisjointPairs(ps, |s|)
  {
    && |c| == |s|
    && (forall i :: 0 <= i < |s| && i !in Lefts(ps) && i !in Rights(ps) ==> c[i] == s[i])
    && (forall j :: 0 <= j < |ps| ==> c[ps[j].left] == if j < next then s[ps[j].right] else s[ps[j].left])
    && (forall j :: 0 <= j < |ps| ==>
         c[ps[j].right] == if j < next then s[ps[j].right] + s[ps[j].left] else s[ps[j].right])
  }

  lemma SwapNext(s: seq<int>, ps: seq<Pair>, next: nat, c: seq<int>)
    requires DisjointPairs(ps, |s|) && SwappedUpTo(s, ps, next, c) && next < |ps|
    ensures var p := ps[next];
            SwappedUpTo(s, ps, next + 1, c[p.left := c[p.right]][p.right := c[p.right] + c[p.left]])
  {
    LeftIsNoRight(ps, |s|, next);
    var p := ps[next];
    var c' := c[p.left := c[p.right]][p.right := c[p.right] + c[p.left]];
    forall j | 0 <= j < |ps|
      ensures j != next ==> c'[ps[j].left] == c[ps[j].left] && c'[ps[j].right] == c[ps[j].right]
    {
      if j != next { OthersKept(s, ps, next, c, j); }
    }
    forall i | 0 <= i < |s| && i !in Lefts(ps) && i !in Rights(ps) ensures c'[i] == s[i] {
      assert i != p.left && i != p.right;
    }
  }

  lemma OthersKept(s: seq<int>, ps: seq<Pair>, next: nat, c: seq<int>, j: nat)
    requires DisjointPairs(ps, |s|) && |c| == |s| && next < |ps| && j < |ps| && j != next
    ensures ps[j].left != ps[next].left && ps[j].left != ps[next].right
    ensures ps[j].right != ps[next].left && ps[j].right != ps[next].right
  {
    assert if j < next then ps[j].left != ps[next].left && ps[j].right != ps[next].right
           else ps[next].left != ps[j].left && ps[next].right != ps[j].right;
  }

  lemma SwappedToEnds(s: seq<int>, ps: seq<Pair>, c: seq<int>)
    requires DisjointPairs(ps, |s|)
    ensures SwappedUpTo(s, ps, 0, s) && (SwappedUpTo(s, ps, |ps|, c) ==> SwappedPairs(s, ps, c))
  {
  }

  method MiniSwapIteration(reg: array<int>, base: nat, ps: seq<Pair>, j: nat, ghost before: seq<int>, ghost c: seq<int>,
                           ghost now: seq<int>) returns (ghost now': seq<int>)
    requires DisjointPairs(ps, |c|) && SwappedUpTo(c, ps, j, now) && j < |ps|
    requires base + |c| <= reg.Length == |before| && reg[..] == Splice(before, base, now)
    modifies reg
    ensures SwappedUpTo(c, ps, j + 1, now') && reg[..] == Splice(before, base, now')
  {
    SwapNext(c, ps, j, now);
    MiniSwap(reg, base, ps[j], before, now);
    now' := now[ps[j].left := now[ps[j].right]][ps[j].right := now[ps[j].right] + now[ps[j].left]];
  }

  method MiniSwapPairs(reg: array<int>, base: nat, ps: seq<Pair>, ghost before: seq<int>, ghost c: seq<int>)
    returns (ghost now: seq<int>)
    requires base + |c| <= reg.Length == |before| && reg[..] == Splice(before, base, c)
    requires DisjointPairs(ps, |c|)
    modifies reg
    ensures SwappedPairs(c, ps, now) && reg[..] == Splice(before, base, now)
  {
    now := c;
    var frameElem := 0;
    ghost var j := 0;
    SwappedToEnds(c, ps, now);
    while frameElem < 2 * |ps|
      invariant frameElem == 2 * j && j <= |ps|
      invariant SwappedUpTo(c, ps, j, now)
      invariant reg[..] == Splice(before, base, now)
    {
      now := MiniSwapIteration(reg, base, ps, frameElem / 2, before, c, now);
      frameElem, j := frameElem + 2, j + 1;
    }
    SwappedToEnds(c, ps, now);
  }

  method MiniDownLevel(reg: array<int>, base: nat, m: nat, d: nat, offset: nat,
                       ghost before: seq<int>, ghost c: seq<int>)
    requires base + m <= reg.Length == |before| && |c| == m && reg[..] == Splice(before, base, c)
    requires offset >= 1 && Times(d, 2 * offset) == m
    modifies reg
    ensures reg[..] == Splice(before, base, DownLevel(c, offset))
  {
    LevelPairsCover(m, offset, d);
    ghost var now := MiniSwapPairs(reg, base, LevelPairs(offset, d), before, c);
    SwappedPairsIsDownLevel(c, LevelPairs(offset, d), offset, now);
  }

  method MiniUpSweep(reg: array<int>, base: nat, m: nat) returns (ghost t: seq<int>)
    requires base + m <= reg.Length && IsPow2(m)
    modifies reg
    ensures |t| == m && SubtreeSums(old(reg[base..base + m]), t, m)
    ensures reg[..] == Splice(old(reg[..]), base, t)
  {
    ghost var a, before := reg[base..base + m], reg[..];
    t := a;
    LeafPrefixes(a, a);
    TimesIsProduct(m / 2, 2);
    var d, offset := m / 2, 1;
    while d > 0
      invariant d >= 0 && offset >= 1 && |t| == m && SubtreeSums(a, t, offset)
      invariant if d == 0 then offset == m else IsPow2(d) && Times(d, 2 * offset) == m
      invariant reg[..] == Splice(before, base, t)
    {
      UpLevelSums(a, t, offset);
      MiniUpLevel(reg, base, m, d, offset, before, t);
      t := UpLevel(t, offset);
      HalvedPairs(m, d, offset);
      d, offset := d / 2, 2 * offset;
    }
  }

  method MiniDownSweep(reg: array<int>, base: nat, m: nat, ghost a: seq<int>) returns (ghost t: seq<int>)
    requires base + m <= reg.Length && IsPow2(m)
    requires BlockPrefixes(a, reg[base..base + m], m)
    modifies reg
    ensures |t| == m && BlockPrefixes(a, t, 1)
    ensures reg[..] == Splice(old(reg[..]), base, t)
  {
    ghost var before := reg[..];
    t := reg[base..base + m];
    TimesIsProduct(1, m);
    var d, offset := 1, m / 2;
    ghost var b := m;
    while d < m
      invariant b >= 1 && IsPow2(b) && Times(d, b) == m && offset == b / 2 && d >= 1
      invariant |t| == m && BlockPrefixes(a, t, b) && reg[..] == Splice(before, base, t)
    {
      HalvedBlocks(m, d, b);
      DownLevelPrefixes(a, t, offset);
      MiniDownLevel(reg, base, m, d, offset, before, t);
      t := DownLevel(t, offset);
      d, offset, b := d * 2, offset / 2, b / 2;
    }
    if b != 1 { TimesIsProduct(d, b); MulLeft(2, b, d); }
  }

  /** r with the exclusive prefix sums of [base, base + m) in their place. */
  function PrefixedAt(r: seq<int>, base: nat, m: nat): (r': seq<int>)
    requires base + m <= |r|
    ensures |r'| == |r|
  {
    seq(|r|, i requires 0 <= i < |r| => if base <= i < base + m then Sum(r, base, i) else r[i])
  }

  /** scanMiniBlock: returns the block's total and leaves its exclusive prefix sums in place. */
  method ScanMiniBlock(reg: array<int>, base: nat, m: nat) returns (blockSum: int)
    requires base + m <= reg.Length && IsPow2(m)
    modifies reg
    ensures blockSum == Sum(old(reg[..]), base, base + m)
    ensures reg[..] == PrefixedAt(old(reg[..]), base, m)
    ensures forall i: nat :: i < reg.Length ==>
      reg[i] == if base <= i < base + m then Sum(old(reg[..]), base, i) else old(reg[i])
  {
    ghost var a, s := reg[base..base + m], reg[..];
    ghost var t := MiniUpSweep(reg, base, m);
    blockSum := ClearRoot(reg, base, m, s, a, t);
    ghost var p := MiniDownSweep(reg, base, m, a);
    LeafPrefixes(a, p);
    PrefixSums(s, base, m, p);
    SplicedPrefixes(s, base, m, t[m - 1 := 0], p);
    assert forall i: nat :: i < reg.Length ==> reg[..][i] == reg[i];
  }

  method ClearRoot(reg: array<int>, base: nat, m: nat, ghost s: seq<int>, ghost a: seq<int>, ghost t: seq<int>)
    returns (blockSum: int)
    requires base + m <= reg.Length == |s| && m >= 1 && a == s[base..base + m] && |t| == m
    requires SubtreeSums(a, t, m) && reg[..] == Splice(s, base, t)
    modifies reg
    ensures blockSum == Sum(s, base, base + m)
    ensures reg[..] == Splice(s, base, t[m - 1 := 0])
    ensures reg[base..base + m] == t[m - 1 := 0] && BlockPrefixes(a, t[m - 1 := 0], m)
  {
    ClearedRoot(a, t);
    SumShifted(a, s, 0, m, base);
    blockSum := reg[base + m - 1];
    SpliceStore(s, base, t, m - 1, 0);
    reg[base + m - 1] := 0;
    assert reg[base..base + m] == t[m - 1 := 0];
  }

  lemma PrefixSums(s: seq<int>, base: nat, m: nat, t: seq<int>)
    requires base + m <= |s| && |t| == m
    requires forall i: nat :: i < m ==> t[i] == Sum(s[base..base + m], 0, i)
    ensures forall i: nat :: i < m ==> t[i] == Sum(s, base, base + i)
  {
    forall i: nat | i < m ensures t[i] == Sum(s, base, base + i) {
      SumShifted(s[base..base + m], s, 0, i, base);
    }
  }

  /** Splicing twice at the same place, the second time with the prefix sums. */
  lemma SplicedPrefixes(s: seq<int>, base: nat, m: nat, u: seq<int>, t: seq<int>)
    requires base + m <= |s| && |u| == |t| == m
    requires forall i: nat :: i < m ==> t[i] == Sum(s, base, base + i)
    ensures Splice(Splice(s, base, u), base, t) == PrefixedAt(s, base, m)
  {
    var r, q := Splice(Splice(s, base, u), base, t), PrefixedAt(s, base, m);
    forall i | 0 <= i < |s| ensures r[i] == q[i] {
      if base <= i < base + m {
        assert r[i] == t[i - base];
      }
    }
  }

  /** addIncrements: the same sum onto every element of a mini-block. */
  method AddToMiniBlock(reg: array<int>, base: nat, m: nat, blockSum: int)
    requires base + m <= reg.Length
    modifies reg
    ensures forall i :: 0 <= i < reg.Length ==>
      reg[i] == old(reg[i]) + if base <= i < base + m then blockSum else 0
  {
    for i := 0 to m
      invariant forall k :: 0 <= k < reg.Length ==>
        reg[k] == old(reg[k]) + if base <= k < base + i then blockSum else 0
    {
      reg[base + i] := reg[base + i] + blockSum;
    }
  }
}
