/** Tree reductions: Vec::reduce_range and the warp shuffle sum. */
module Reduction {
  import opened Arithmetic
  import opened Sums

  ghost predicate Associative<T(!new)>(f: (T, T) -> T) {
    forall a, b, c {:trigger f(f(a, b), c)} :: f(f(a, b), c) == f(a, f(b, c))
  }

  /** The sequential order: ((v[lo] f v[lo+1]) f ...) f v[hi-1]. */
  function LeftFold<T>(f: (T, T) -> T, v: seq<T>, lo: nat, hi: nat): T
    requires lo < hi <= |v|
  {
    if hi == lo + 1 then v[lo] else f(LeftFold(f, v, lo, hi - 1), v[hi - 1])
  }

  /** The recursive variant, split at the midpoint. */
  function ReduceRange<T>(f: (T, T) -> T, v: seq<T>, lo: nat, hi: nat): T
    requires lo < hi <= |v|
    decreases hi - lo
  {
    var size := hi - lo;
    if size == 1 then v[lo]
    else
      var mid := lo + size / 2;
      f(ReduceRange(f, v, lo, mid), ReduceRange(f, v, mid, hi))
  }

  /** The loop variant used where recursion is not available. */
  method ReduceLoop<T>(f: (T, T) -> T, v: seq<T>, lo: nat, hi: nat) returns (result: T)
    requires lo < hi <= |v|
    ensures result == LeftFold(f, v, lo, hi)
  {
    result := v[lo];
    for i := lo + 1 to hi
      invariant result == LeftFold(f, v, lo, i)
    {
      result := f(result, v[i]);
    }
  }

  lemma {:induction false} FoldSplit<T(!new)>(f: (T, T) -> T, v: seq<T>, lo: nat, mid: nat, hi: nat)
    requires lo < mid < hi <= |v| && Associative(f)
    ensures LeftFold(f, v, lo, hi) == f(LeftFold(f, v, lo, mid), LeftFold(f, v, mid, hi))
    decreases hi
  {
    if hi > mid + 1 {
      FoldSplit(f, v, lo, mid, hi - 1);
    }
  }

  /** Both variants agree for every associative operation. */
  lemma {:induction false} TreeIsFold<T(!new)>(f: (T, T) -> T, v: seq<T>, lo: nat, hi: nat)
    requires lo < hi <= |v| && Associative(f)
    ensures ReduceRange(f, v, lo, hi) == LeftFold(f, v, lo, hi)
    decreases hi - lo
  {
    if hi - lo > 1 {
      var mid := lo + (hi - lo) / 2;
      TreeIsFold(f, v, lo, mid);
      TreeIsFold(f, v, mid, hi);
      FoldSplit(f, v, lo, mid, hi);
    }
  }

  /** With addition both are the sum. */
  lemma {:induction false} AddingIsSum(v: seq<int>, lo: nat, hi: nat)
    requires lo < hi <= |v|
    ensures LeftFold((a: int, b: int) => a + b, v, lo, hi) == Sum(v, lo, hi)
    ensures ReduceRange((a: int, b: int) => a + b, v, lo, hi) == Sum(v, lo, hi)
    decreases hi - lo
  {
    if hi > lo + 1 {
      var mid := lo + (hi - lo) / 2;
      AddingIsSum(v, lo, hi - 1);
      AddingIsSum(v, lo, mid);
      AddingIsSum(v, mid, hi);
      SumSplit(v, lo, mid, hi);
    } else {
      assert Sum(v, lo, hi) == Sum(v, lo, lo) + v[lo];
    }
  }

  /** And only for those: agreement on all vectors is associativity. */
  lemma AgreementNeedsAssociativity<T(!new)>(f: (T, T) -> T)
    requires forall v: seq<T> :: |v| == 3 ==> ReduceRange(f, v, 0, 3) == LeftFold(f, v, 0, 3)
    ensures Associative(f)
  {
    forall a, b, c ensures f(f(a, b), c) == f(a, f(b, c)) {
      var v := [a, b, c];
      assert ReduceRange(f, v, 1, 3) == f(ReduceRange(f, v, 1, 2), ReduceRange(f, v, 2, 3));
      assert ReduceRange(f, v, 0, 3) == f(a, f(b, c));
      assert LeftFold(f, v, 0, 2) == f(a, b);
    }
  }

  // ----- warp shuffle -----

  /** value += shflDown(value, offset) on all lanes at once; `outside` is what out-of-range lanes deliver. */
  function ShuffleRound(value: seq<int>, offset: nat, outside: (nat, nat) -> int): (r: seq<int>)
    ensures |r| == |value|
  {
    seq(|value|, lane requires 0 <= lane < |value| =>
      value[lane] + if lane + offset < |value| then value[lane + offset] else outside(offset, lane))
  }

  function Shuffles(value: seq<int>, offset: nat, outside: (nat, nat) -> int): (r: seq<int>)
    ensures |r| == |value|
    decreases offset
  {
    if offset == 0 then value else Shuffles(ShuffleRound(value, offset, outside), offset / 2, outside)
  }

  lemma {:induction false} HalvesFold(value: seq<int>, offset: nat, outside: (nat, nat) -> int, n: nat)
    requires n <= offset && 2 * offset <= |value|
    ensures Sum(ShuffleRound(value, offset, outside), 0, n) == Sum(value, 0, n) + Sum(value, offset, offset + n)
  {
    if n > 0 {
      HalvesFold(value, offset, outside, n - 1);
    }
  }

  /** For a power-of-two number of live lanes, lane 0 ends with their sum whatever the others deliver. */
  lemma {:induction false} LaneZeroSums(value: seq<int>, offset: nat, outside: (nat, nat) -> int)
    requires offset == 0 || (IsPow2(offset) && 2 * offset <= |value|)
    requires |value| >= 1
    ensures Shuffles(value, offset, outside)[0] == Sum(value, 0, if offset == 0 then 1 else 2 * offset)
    decreases offset
  {
    if offset == 0 {
      assert Sum(value, 0, 1) == Sum(value, 0, 0) + value[0];
    } else {
      var next := ShuffleRound(value, offset, outside);
      LaneZeroSums(next, offset / 2, outside);
      HalvesFold(value, offset, outside, offset);
      SumSplit(value, 0, offset, 2 * offset);
    }
  }

  /** All lanes start with 1: lane 0 then counts the lanes it has seen, a power of two. */
  lemma {:induction false} LaneZeroCounts(value: seq<int>, offset: nat, outside: (nat, nat) -> int, seen: nat)
    requires |value| >= 1 && 2 * offset <= |value| && IsPow2(seen)
    requires forall lane: nat :: lane < (if offset == 0 then 1 else 2 * offset) ==> value[lane] == seen
    ensures var r := Shuffles(value, offset, outside)[0]; r >= 1 && IsPow2(r)
    decreases offset
  {
    if offset > 0 {
      var next := ShuffleRound(value, offset, outside);
      forall lane: nat | lane < offset ensures next[lane] == 2 * seen {
        assert value[lane] == seen && value[lane + offset] == seen;
      }
      DoubleIsPow2(seen);
      LaneZeroCounts(next, offset / 2, outside, 2 * seen);
    } else {
      assert value[0] == seen;
    }
  }

  ghost predicate WarpSumRight(value: seq<int>, outside: (nat, nat) -> int)
    requires |value| >= 1
  {
    Shuffles(value, |value| / 2, outside)[0] == Sum(value, 0, |value|)
  }

  /** The reduction is right for all inputs exactly when the warp size is a power of two. */
  lemma WarpSumRightExactlyWhen(warpSize: nat, outside: (nat, nat) -> int)
    requires warpSize >= 1
    ensures (forall value: seq<int> :: |value| == warpSize ==> WarpSumRight(value, outside)) <==> IsPow2(warpSize)
  {
    if IsPow2(warpSize) {
      forall value: seq<int> | |value| == warpSize ensures WarpSumRight(value, outside) {
        LaneZeroSums(value, warpSize / 2, outside);
      }
    } else {
      var ones := WrongOnOnes(warpSize, outside);
    }
  }

  lemma WrongOnOnes(warpSize: nat, outside: (nat, nat) -> int) returns (ones: seq<int>)
    requires warpSize >= 1 && !IsPow2(warpSize)
    ensures |ones| == warpSize && !WarpSumRight(ones, outside)
  {
    ones := seq(warpSize, _ => 1);
    LaneZeroCounts(ones, warpSize / 2, outside, 1);
    SumOfOnes(ones, warpSize);
  }

  /** One warp: the loop over halving offsets, all lanes in lockstep. */
  method WarpSum(lanes: seq<int>, outside: (nat, nat) -> int) returns (value: seq<int>)
    ensures value == Shuffles(lanes, |lanes| / 2, outside)
  {
    value := lanes;
    var offset: nat := |lanes| / 2;
    while offset > 0
      invariant |value| == |lanes|
      invariant Shuffles(value, offset, outside) == Shuffles(lanes, |lanes| / 2, outside)
    {
      value := ShuffleRound(value, offset, outside);
      offset := offset / 2;
    }
  }

  function BlockSum(input: seq<int>, b: nat, warpSize: nat): int {
    if Times(b, warpSize) + warpSize <= |input| then Sum(input, Times(b, warpSize), Times(b, warpSize) + warpSize)
    else 0
  }

  lemma BlockSumIs(input: seq<int>, blocks: nat, b: nat, warpSize: nat)
    requires |input| == Times(blocks, warpSize) && b < blocks && warpSize >= 1
    ensures b * warpSize + warpSize <= |input|
    ensures BlockSum(input, b, warpSize) == Sum(input, b * warpSize, b * warpSize + warpSize)
  {
    TimesOrder(b, blocks, warpSize);
    TimesIsProduct(b, warpSize);
  }

  /** One pass of the kernel's loop: the warp that owns block b. */
  method WarpSumBlock(input: seq<int>, output: array<int>, warpSize: nat, blocks: nat, b: nat,
                      outside: (nat, nat) -> int)
    requires IsPow2(warpSize) && |input| == Times(blocks, warpSize) && b < blocks <= output.Length
    modifies output
    ensures output[..] == old(output[..])[b := BlockSum(input, b, warpSize)]
  {
    TimesOrder(b, blocks, warpSize);
    TimesIsProduct(b, warpSize);
    var blockBase := b * warpSize;
    var lanes := input[blockBase..blockBase + warpSize];
    var value := WarpSum(lanes, outside);
    LaneZeroSums(lanes, warpSize / 2, outside);
    SumShifted(lanes, input, 0, warpSize, blockBase);
    output[blockBase / warpSize] := value[0];
  }

  /** The warps in any order. */
  method WarpSums(input: seq<int>, output: array<int>, warpSize: nat, blocks: nat, outside: (nat, nat) -> int)
    requires IsPow2(warpSize) && |input| == Times(blocks, warpSize) && blocks <= output.Length
    modifies output
    ensures forall b: nat :: b < output.Length ==>
      output[b] == if b < blocks then BlockSum(input, b, warpSize) else old(output[b])
  {
    var todo: multiset<nat> := Copies(blocks, 1);
    while todo != multiset{}
      invariant forall b: nat :: b in todo ==> b < blocks && todo[b] == 1
      invariant forall b: nat :: b < output.Length ==>
        output[b] == if b < blocks && b !in todo then BlockSum(input, b, warpSize) else old(output[b])
      decreases |todo|
    {
      var b :| b in todo;
      ghost var before := output[..];
      WarpSumBlock(input, output, warpSize, blocks, b, outside);
      assert forall i: nat :: i < output.Length && i != b ==> output[i] == before[i];
      todo := todo - multiset{b};
    }
  }

  /** The kernel: out[b] is the sum of the b-th block of warpSize inputs. */
  method WarpSumKernel(input: seq<int>, output: array<int>, warpSize: nat, blocks: nat, outside: (nat, nat) -> int)
    requires IsPow2(warpSize) && |input| == Times(blocks, warpSize) && blocks <= output.Length
    modifies output
    ensures forall b: nat :: b < blocks ==>
      b * warpSize + warpSize <= |input| && output[b] == Sum(input, b * warpSize, b * warpSize + warpSize)
    ensures forall b: nat :: blocks <= b < output.Length ==> output[b] == old(output[b])
  {
    WarpSums(input, output, warpSize, blocks, outside);
    forall b: nat | b < blocks
      ensures b * warpSize + warpSize <= |input| && output[b] == Sum(input, b * warpSize, b * warpSize + warpSize)
    {
      BlockSumIs(input, blocks, b, warpSize);
    }
  }
}
