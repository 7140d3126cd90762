/** The host-side scan: all chunks, then recursively the chunk totals, then the increments. */
module HostScan {
  import opened Arithmetic
  import opened Sums
  import opened ScanChunk
  import opened Increments
  import TwoLevelChunk
  import IndexMap

  /** The two implementations of the block kernel. */
  datatype Kernel = Basic | TwoLevel(threads: nat, maxMini: nat, layout: IndexMap.Layout)

  /** The kernel's template parameters fit the chunk size. */
  predicate Supports(kernel: Kernel, size: nat) {
    && size >= 2 && IsPow2(size)
    && (kernel.TwoLevel? ==> IsPow2(kernel.threads) && kernel.threads <= size && IsPow2(kernel.maxMini))
  }

  // ----- the block kernel over all chunks -----

  /** Outputs of the chunks not in `todo`, everything else untouched. */
  ghost predicate ChunksScanned(s: seq<int>, outs: seq<int>, out: seq<int>, todo: set<int>, size: nat, inclusive: bool)
    requires size >= 1 && |s| <= |outs| == |out|
  {
    forall i: nat {:trigger out[i]} :: i < |out| ==>
      out[i] == if i < |s| && BlockOf(i, size) !in todo then ScanFrom(s, Start(i, size), i, inclusive) else outs[i]
  }

  function ChunkTotal(s: seq<int>, c: nat, size: nat): (r: int)
    ensures Times(c, size) <= |s| ==> r == Sum(s, Times(c, size), Min(Times(c, size) + size, |s|))
  {
    if Times(c, size) <= |s| then Sum(s, Times(c, size), Min(Times(c, size) + size, |s|)) else 0
  }

  lemma ChunkStep(s: seq<int>, cur: seq<int>, outs: seq<int>, before: seq<int>, after: seq<int>, todo: set<int>,
                  c: nat, size: nat, inclusive: bool)
    requires size >= 1 && |cur| == |s| <= |outs| == |before| && Times(c, size) <= |s| && c in todo
    requires ChunksScanned(s, outs, before, todo, size, inclusive)
    requires ChunkScanned(cur, before, after, Times(c, size), size, inclusive)
    requires var hi := Min(Times(c, size) + size, |s|); cur[Times(c, size)..hi] == s[Times(c, size)..hi]
    ensures ChunksScanned(s, outs, after, todo - {c}, size, inclusive)
    ensures Sum(cur, Times(c, size), Min(Times(c, size) + size, |s|)) == ChunkTotal(s, c, size)
  {
    var off, hi := Times(c, size), Min(Times(c, size) + size, |s|);
    TwoLevelChunk.RangeSum(s, cur, off, hi, hi);
    forall i: nat | i < |after|
      ensures after[i] == if i < |s| && BlockOf(i, size) !in todo - {c} then ScanFrom(s, Start(i, size), i, inclusive)
                          else outs[i]
    {
      InBlock(i, c, size);
      assert before[i] == before[i];
      if off <= i < hi {
        TwoLevelChunk.RangeSum(s, cur, off, hi, i);
        assert cur[off..hi][i - off] == s[off..hi][i - off];
      }
    }
  }

  method RunChunk(kernel: Kernel, input: array<int>, output: array<int>, n: nat, size: nat, banks: nat,
                  inclusive: bool, numChunks: nat, chunkIdx: nat) returns (total: int)
    requires 1 <= n <= input.Length && n <= output.Length && Supports(kernel, size)
    requires JustCover(n, size, numChunks) && chunkIdx < numChunks
    modifies output
    ensures Times(chunkIdx, size) <= n
    ensures ChunkScanned(old(input[..n]), old(output[..]), output[..], Times(chunkIdx, size), size, inclusive)
    ensures total == Sum(old(input[..n]), Times(chunkIdx, size), Min(Times(chunkIdx, size) + size, n))
  {
    TimesIsProduct(chunkIdx, size);
    TwoLevelChunk.FullChunk(n, size, numChunks, chunkIdx);
    var off := size * chunkIdx;
    match kernel
    case Basic =>
      total := ScanOneChunk(input, output, n, off, size, banks, inclusive);
    case TwoLevel(threads, maxMini, layout) =>
      total := TwoLevelChunk.ScanChunkInTwoLevels(layout, input, output, n, size, banks, inclusive, threads, maxMini,
                                                  numChunks, chunkIdx, off);
  }

  /** One chunk of a grid in progress; with input == output the chunk's own input is still intact. */
  method NextChunk(kernel: Kernel, input: array<int>, output: array<int>, n: nat, size: nat, banks: nat,
                   inclusive: bool, numChunks: nat, c: nat,
                   ghost s: seq<int>, ghost outs: seq<int>, ghost todo: set<int>) returns (total: int)
    requires 1 <= n <= input.Length && n <= output.Length == |outs| && |s| == n && Supports(kernel, size)
    requires JustCover(n, size, numChunks) && c < numChunks && c in todo
    requires if input == output then s == outs[..n] else input[..n] == s
    requires ChunksScanned(s, outs, output[..], todo, size, inclusive)
    modifies output
    ensures ChunksScanned(s, outs, output[..], todo - {c}, size, inclusive)
    ensures total == ChunkTotal(s, c, size)
    ensures input != output ==> input[..n] == s
  {
    ghost var cur, before := input[..n], output[..];
    total := RunChunk(kernel, input, output, n, size, banks, inclusive, numChunks, c);
    ghost var off, hi := Times(c, size), Min(Times(c, size) + size, n);
    forall i: nat | off <= i < hi ensures cur[i] == s[i] {
      InBlock(i, c, size);
      assert before[i] == before[i];
    }
    assert cur[off..hi] == s[off..hi];
    ChunkStep(s, cur, outs, before, output[..], todo, c, size, inclusive);
  }

  /** Scan_ScanBlocksKernel on the whole grid, the blocks in any order. */
  method ScanBlocks(kernel: Kernel, input: array<int>, output: array<int>, n: nat, size: nat, banks: nat,
                    inclusive: bool, numChunks: nat, sums: array?<int>)
    requires n <= input.Length && n <= output.Length && Supports(kernel, size) && numChunks == DivCeil(n, size)
    requires sums != null ==> sums != input && sums != output && numChunks <= sums.Length
    modifies output, sums
    ensures ChunksScanned(old(input[..n]), old(output[..]), output[..], {}, size, inclusive)
    ensures forall i: nat :: i < output.Length ==>
      output[i] == if i < n then Sum(old(input[..n]), Start(i, size), if inclusive then i + 1 else i)
                   else old(output[i])
    ensures sums != null ==> forall c: nat :: c < numChunks ==> sums[c] == ChunkTotal(old(input[..n]), c, size)
  {
    ghost var s, outs := input[..n], output[..];
    var todo := Indices(numChunks);
    DivCeilCovers(n, size);
    forall i: nat | i < n ensures BlockOf(i, size) in todo {
      InBlock(i, 0, size);
      TimesOrder(BlockOf(i, size), numChunks, size);
    }
    while todo != {}
      invariant todo <= Indices(numChunks)
      invariant if input == output then s == outs[..n] else input[..n] == s
      invariant ChunksScanned(s, outs, output[..], todo, size, inclusive)
      invariant sums != null ==>
        forall c: nat :: c < numChunks && c !in todo ==> sums[c] == ChunkTotal(s, c, size)
      decreases todo
    {
      var c :| c in todo;
      var total := NextChunk(kernel, input, output, n, size, banks, inclusive, numChunks, c, s, outs, todo);
      if sums != null {
        StoreTotal(sums, c, total, output, input);
      }
      todo := todo - {c};
    }
    assert forall i: nat :: i < output.Length ==> output[..][i] == output[i];
  }

  method StoreTotal(sums: array<int>, c: nat, total: int, ghost output: array<int>, ghost input: array<int>)
    requires c < sums.Length && sums != output && sums != input
    modifies sums
    ensures sums[..] == old(sums[..])[c := total]
    ensures output[..] == old(output[..]) && input[..] == old(input[..])
  {
    sums[c] := total;
  }

  // ----- the recursion -----

  lemma {:induction false} TotalsAdd(s: seq<int>, totals: seq<int>, size: nat, c: nat)
    requires size >= 1 && c <= |totals| && (c >= 1 ==> Times(c - 1, size) <= |s|)
    requires forall i: nat {:trigger totals[i]} :: i < |totals| ==> totals[i] == ChunkTotal(s, i, size)
    ensures Sum(totals, 0, c) == Sum(s, 0, Min(Times(c, size), |s|))
  {
    if c > 0 {
      if c > 1 { TimesOrder(c - 2, c - 1, size); }
      TotalsAdd(s, totals, size, c - 1);
      SumSplit(s, 0, Times(c - 1, size), Min(Times(c, size), |s|));
    }
  }

  lemma GlobalElement(s: seq<int>, totals: seq<int>, size: nat, i: nat, inclusive: bool)
    requires size >= 1 && i < |s| && BlockOf(i, size) < |totals|
    requires forall c: nat {:trigger totals[c]} :: c < |totals| ==> totals[c] == ChunkTotal(s, c, size)
    ensures ScanFrom(s, Start(i, size), i, inclusive) + Sum(totals, 0, BlockOf(i, size)) == ScanFrom(s, 0, i, inclusive)
  {
    var c := BlockOf(i, size);
    InBlock(i, c, size);
    if c >= 1 { TimesOrder(c - 1, c, size); }
    TotalsAdd(s, totals, size, c);
    SumSplit(s, 0, Start(i, size), i);
  }

  // ----- when the output view is longer than the input -----

  lemma MoreThanOne(n: nat, size: nat)
    requires size >= 1
    ensures DivCeil(n, size) > 1 <==> n > size
  {
    DivCeilCovers(n, size);
    TimesOrder(0, 1, size);
    var q := DivCeil(n, size);
    if q > 1 { TimesOrder(0, q - 1, size); }
  }

  /** What the increments kernel adds behind the input: it takes its extent from the output. */
  function Excess(s: seq<int>, size: nat, m: nat, i: nat): (r: int)
    requires size >= 1
    ensures i < |s| || i >= m || |s| <= size ==> r == 0
    ensures |s| <= i < m && |s| > size ==> var q := DivCeil(|s|, size) - 1;
      0 <= q && Times(q, size) < |s| && r == Sum(s, 0, Times(q, size))
  {
    DivCeilCovers(|s|, size);
    MoreThanOne(|s|, size);
    var q := DivCeil(|s|, size);
    if |s| <= i < m && q > 1 && Times(q - 1, size) <= |s| then Sum(s, 0, Times(q - 1, size)) else 0
  }

  ghost predicate NothingPastInput(s: seq<int>, size: nat, m: nat)
    requires size >= 1
  {
    forall i: nat :: i >= |s| ==> Excess(s, size, m, i) == 0
  }

  /** Nothing behind the input changes, whatever the data, exactly when both views have one extent or one chunk
      holds the input. */
  lemma NothingPastInputExactlyWhen(n: nat, m: nat, size: nat)
    requires size >= 1 && n <= m
    ensures (forall s: seq<int> :: |s| == n ==> NothingPastInput(s, size, m)) <==> m == n || DivCeil(n, size) <= 1
  {
    var q := DivCeil(n, size);
    DivCeilCovers(n, size);
    if n < m && q > 1 {
      var ones: seq<int> := seq(n, _ => 1);
      SumOfOnes(ones, Times(q - 1, size));
      TimesOrder(0, q - 1, size);
      assert Excess(ones, size, m, n) == Times(q - 1, size) > 0;
      assert !NothingPastInput(ones, size, m);
    }
  }

  /** The increments kernel looks up an increment for every output chunk; they all exist exactly when the output
      view ends inside the last chunk of the input. */
  lemma LookupsExactlyWhen(n: nat, m: nat, size: nat)
    requires size >= 1
    ensures (forall i: nat :: i < m ==> BlockOf(i, size) < DivCeil(n, size)) <==> m <= Times(DivCeil(n, size), size)
  {
    var q := DivCeil(n, size);
    if m <= Times(q, size) {
      forall i: nat | i < m ensures BlockOf(i, size) < q {
        InBlock(i, 0, size);
        TimesOrder(BlockOf(i, size), q, size);
      }
    } else {
      InBlock(Times(q, size), q, size);
    }
  }

  lemma LastChunk(s: seq<int>, totals: seq<int>, size: nat, m: nat, i: nat)
    requires size >= 1 && |s| <= i < m <= Times(|totals|, size) && |totals| == DivCeil(|s|, size) > 1
    requires forall c: nat {:trigger totals[c]} :: c < |totals| ==> totals[c] == ChunkTotal(s, c, size)
    ensures BlockOf(i, size) < |totals| && Sum(totals, 0, BlockOf(i, size)) == Excess(s, size, m, i)
  {
    var c := |totals| - 1;
    DivCeilCovers(|s|, size);
    InBlock(i, c, size);
    TimesOrder(c - 1, c, size);
    TotalsAdd(s, totals, size, c);
  }

  // ----- the host function -----

  /** What the three kernels leave in element i: with the excess behind the input. */
  ghost predicate Scanned(s: seq<int>, outs: seq<int>, out: seq<int>, size: nat, m: nat, inclusive: bool)
    requires size >= 1 && |s| <= |outs| == |out|
  {
    forall i: nat {:trigger out[i]} :: i < |out| ==>
      out[i] == if i < |s| then ScanFrom(s, 0, i, inclusive) else outs[i] + Excess(s, size, m, i)
  }

  lemma OneChunkScanned(s: seq<int>, outs: seq<int>, out: seq<int>, size: nat, m: nat, inclusive: bool)
    requires size >= 1 && |s| <= |outs| == |out| && DivCeil(|s|, size) <= 1
    requires ChunksScanned(s, outs, out, {}, size, inclusive)
    ensures Scanned(s, outs, out, size, m, inclusive)
  {
    DivCeilCovers(|s|, size);
    TimesOrder(0, 1, size);
    forall i: nat | i < |out|
      ensures out[i] == if i < |s| then ScanFrom(s, 0, i, inclusive) else outs[i] + Excess(s, size, m, i)
    {
      InBlock(i, 0, size);
    }
  }

  lemma AllChunksScanned(s: seq<int>, outs: seq<int>, local: seq<int>, out: seq<int>, totals: seq<int>, sums: seq<int>,
                         size: nat, m: nat, w: nat, packsEnd: nat, inclusive: bool)
    requires w >= 1 && size >= 1 && size % w == 0 && |s| <= m <= |outs| == |local| == |out|
    requires 1 < |totals| == |sums| == DivCeil(|s|, size) && m <= Times(|sums|, size)
    requires ChunksScanned(s, outs, local, {}, size, inclusive)
    requires forall c: nat {:trigger totals[c]} :: c < |totals| ==> totals[c] == ChunkTotal(s, c, size)
    requires forall c: nat {:trigger sums[c]} :: c < |sums| ==> sums[c] == Sum(totals, 0, c)
    requires forall i: nat {:trigger BlockOf(i, size)} :: i < m ==> BlockOf(i, size) < |sums|
    requires forall i: nat {:trigger out[i]} :: i < |out| ==>
      out[i] == local[i] + if i < m then Increment(sums, size, w, packsEnd, i) else 0
    ensures Scanned(s, outs, out, size, m, inclusive)
  {
    forall i: nat | i < |out|
      ensures out[i] == if i < |s| then ScanFrom(s, 0, i, inclusive) else outs[i] + Excess(s, size, m, i)
    {
      assert local[i] == local[i];
      SameChunkAsPack(size, w, i);
      if i < |s| {
        GlobalElement(s, totals, size, i, inclusive);
      } else if i < m {
        LastChunk(s, totals, size, m, i);
      }
    }
  }

  /** Leaves the prefix sums of the n elements of the input view in the output view, whose extent is m, also when
      both are the same buffer. With m == n nothing else changes; a longer output view gets an excess. */
  method Scan(kernel: Kernel, input: array<int>, output: array<int>, n: nat, m: nat, size: nat, banks: nat,
              inclusive: bool, w: nat, perCall: nat, workers: nat, layout: IndexMap.Layout)
    requires n <= input.Length && n <= m <= output.Length && Supports(kernel, size)
    requires DivCeil(n, size) > 1 ==> m <= Times(DivCeil(n, size), size)
    requires w >= 1 && size % w == 0 && perCall >= 1 && workers >= 1
    modifies output
    ensures forall i: nat :: i < output.Length ==>
      output[i] == if i < n then Sum(old(input[..n]), 0, if inclusive then i + 1 else i)
                   else old(output[i]) + Excess(old(input[..n]), size, m, i)
    decreases n
  {
    ghost var s, outs := input[..n], output[..];
    var numChunks := DivCeil(n, size);
    if numChunks > 1 {
      DivCeilCovers(n, size);
      DivCeilCovers(numChunks, size);
      LookupsExactlyWhen(n, m, size);
      var increments, blockSums := new int[numChunks], new int[numChunks];
      ScanBlocks(kernel, input, output, n, size, banks, inclusive, numChunks, increments);
      ghost var totals, local := increments[..], output[..];
      Scan(kernel, increments, blockSums, numChunks, numChunks, size, banks, false, w, perCall, workers, layout);
      assert output[..] == local && increments[..numChunks] == totals;
      AddIncrements(output, m, blockSums, size, w, perCall, workers, layout);
      AllChunksScanned(s, outs, local, output[..], totals, blockSums[..], size, m, w,
                       Times(NumPacks(m, w, perCall, workers), w), inclusive);
    } else {
      ScanBlocks(kernel, input, output, n, size, banks, inclusive, numChunks, null);
      OneChunkScanned(s, outs, output[..], size, m, inclusive);
    }
    assert forall i: nat :: i < output.Length ==> output[..][i] == output[i];
  }
}
