/** One chunk of the improved kernel: every thread scans register mini-blocks, a shared tree scans
    their sums, and the results are added back. */
module TwoLevelChunk {
  import opened Arithmetic
  import opened Sums
  import opened SharedMemory
  import opened TreeScan
  import opened MiniBlock
  import opened ScanChunk
  import VecIndex
  import IndexMap

  /** Element k of a thread's memory after the mini-block scans. */
  function Local(w: seq<int>, k: nat, m: nat): int
    requires m >= 1 && k <= |w|
  {
    Sum(w, Start(k, m), k)
  }

  // ----- phase 1: load, scan the mini-blocks, publish their sums -----

  /** Scalar loads with zero padding, or unguarded packs of four. */
  method LoadElements(input: array<int>, n: nat, off: nat, reg: array<int>, frameElem: nat, els: nat, guarded: bool,
                      ghost w: seq<int>)
    requires n <= input.Length && reg != input && frameElem + els <= reg.Length == |w|
    requires w == Window(input[..n], off, |w|)
    requires !guarded ==> els % 4 == 0 && off + frameElem + els <= n
    modifies reg
    ensures forall k :: 0 <= k < reg.Length ==>
      reg[k] == if frameElem <= k < frameElem + els then w[k] else old(reg[k])
  {
    var i := 0;
    if guarded {
      while i < els
        invariant i <= els
        invariant forall k :: 0 <= k < reg.Length ==>
          reg[k] == if frameElem <= k < frameElem + i then w[k] else old(reg[k])
      {
        if off + frameElem + i < n {
          reg[frameElem + i] := input[off + frameElem + i];
        } else {
          reg[frameElem + i] := 0;
        }
        i := i + 1;
      }
    } else {
      while i < els
        invariant i <= els && i % 4 == 0
        invariant forall k :: 0 <= k < reg.Length ==>
          reg[k] == if frameElem <= k < frameElem + i then w[k] else old(reg[k])
      {
        forall p | 0 <= p < 4 {
          reg[frameElem + i + p] := input[off + frameElem + i + p];
        }
        i := i + 4;
      }
    }
  }

  /** Memory of the thread at frameElem while its mini-blocks before `upTo` are scanned. */
  ghost predicate ThreadScanned(w: seq<int>, before: seq<int>, reg: seq<int>, frameElem: nat, upTo: nat, els: nat,
                                m: nat)
    requires m >= 1 && |before| == |reg| == |w|
  {
    forall k: nat {:trigger reg[k]} :: k < |reg| ==>
      reg[k] == if frameElem <= k < upTo then Local(w, k, m)
                else if upTo <= k < frameElem + els then w[k]
                else before[k]
  }

  lemma PrefixIsLocal(w: seq<int>, r: seq<int>, b: nat, m: nat, k: nat)
    requires Times(b, m) <= k < Times(b, m) + m <= |w| == |r|
    requires r[Times(b, m)..Times(b, m) + m] == w[Times(b, m)..Times(b, m) + m]
    ensures PrefixedAt(r, Times(b, m), m)[k] == Local(w, k, m)
  {
    var s := Times(b, m);
    StartOf(b, k - s, m);
    RangeSum(w, r, s, s + m, k);
  }

  lemma RangeSum(w: seq<int>, r: seq<int>, lo: nat, hi: nat, k: nat)
    requires lo <= k <= hi <= |w| == |r| && r[lo..hi] == w[lo..hi]
    ensures Sum(r, lo, k) == Sum(w, lo, k)
  {
    forall i | lo <= i < k ensures r[i] == w[i] {
      assert r[i] == r[lo..hi][i - lo] && w[i] == w[lo..hi][i - lo];
    }
    SumShifted(r, w, lo, k, 0);
  }

  lemma ScannedOneMore(w: seq<int>, before: seq<int>, r: seq<int>, frameElem: nat, b: nat, els: nat, m: nat)
    requires m >= 1 && |before| == |r| == |w| && ThreadScanned(w, before, r, frameElem, Times(b, m), els, m)
    requires frameElem <= Times(b, m) && Times(b, m) + m <= frameElem + els <= |w|
    ensures ThreadScanned(w, before, PrefixedAt(r, Times(b, m), m), frameElem, Times(b, m) + m, els, m)
  {
    var s := Times(b, m);
    assert r[s..s + m] == w[s..s + m];
    var p := PrefixedAt(r, s, m);
    forall k: nat | s <= k < s + m ensures p[k] == Local(w, k, m) {
      PrefixIsLocal(w, r, b, m, k);
    }
    forall k: nat | k < |r| && !(s <= k < s + m) ensures p[k] == r[k] {
    }
  }

  lemma ScannedTotal(w: seq<int>, before: seq<int>, r: seq<int>, frameElem: nat, b: nat, els: nat, m: nat)
    requires m >= 1 && |before| == |r| == |w| && ThreadScanned(w, before, r, frameElem, Times(b, m), els, m)
    requires frameElem <= Times(b, m) && Times(b, m) + m <= frameElem + els <= |w|
    ensures Sum(r, Times(b, m), Times(b, m) + m) == Sum(w, Times(b, m), Times(b, m) + m)
  {
    var s := Times(b, m);
    assert r[s..s + m] == w[s..s + m];
    RangeSum(w, r, s, s + m, s + m);
  }

  /** Sum of mini-block b. */
  function MiniTotal(w: seq<int>, b: nat, m: nat): (r: int)
    ensures Times(b, m) + m <= |w| ==> r == Sum(w, Times(b, m), Times(b, m) + m)
  {
    if Times(b, m) + m <= |w| then Sum(w, Times(b, m), Times(b, m) + m) else 0
  }

  /** Shared cells once the mini-blocks in [from, to) have published their sums. */
  ghost predicate Published(w: seq<int>, before: seq<int>, t: seq<int>, from: nat, to: nat, m: nat) {
    && |before| == |t|
    && forall b: nat {:trigger t[b]} :: b < |t| ==> t[b] == if from <= b < to then MiniTotal(w, b, m) else before[b]
  }

  method ScanRegisters(reg: array<int>, s: nat, m: nat, frameElem: nat, els: nat,
                       ghost w: seq<int>, ghost r0: seq<int>, ghost b: nat) returns (blockSum: int)
    requires IsPow2(m) && reg.Length == |w| == |r0|
    requires s == Times(b, m) && frameElem <= s && s + m <= frameElem + els <= |w|
    requires ThreadScanned(w, r0, reg[..], frameElem, s, els, m)
    modifies reg
    ensures ThreadScanned(w, r0, reg[..], frameElem, s + m, els, m)
    ensures blockSum == MiniTotal(w, b, m)
  {
    ghost var r := reg[..];
    blockSum := ScanMiniBlock(reg, s, m);
    AfterMiniBlock(w, r0, r, reg[..], frameElem, s, b, els, m, blockSum);
  }

  lemma AfterMiniBlock(w: seq<int>, r0: seq<int>, r: seq<int>, r': seq<int>, frameElem: nat, s: nat, b: nat, els: nat,
                       m: nat, blockSum: int)
    requires m >= 1 && |r0| == |r| == |w| && s == Times(b, m) && ThreadScanned(w, r0, r, frameElem, s, els, m)
    requires frameElem <= s && s + m <= frameElem + els <= |w|
    requires r' == PrefixedAt(r, s, m) && blockSum == Sum(r, s, s + m)
    ensures ThreadScanned(w, r0, r', frameElem, s + m, els, m) && blockSum == MiniTotal(w, b, m)
  {
    ScannedOneMore(w, r0, r, frameElem, b, els, m);
    ScannedTotal(w, r0, r, frameElem, b, els, m);
  }

  method ScanOneMiniBlock(reg: array<int>, tmp: array<int>, banks: nat, s: nat, cell: nat, m: nat,
                          frameElem: nat, els: nat,
                          ghost w: seq<int>, ghost r0: seq<int>, ghost t0: seq<int>, ghost from: nat)
    requires reg != tmp && IsPow2(m) && reg.Length == |w| == |r0| && Fits(tmp, banks, |t0|)
    requires s == Times(cell, m) && from <= cell < |t0| && frameElem <= s && s + m <= frameElem + els <= |w|
    requires ThreadScanned(w, r0, reg[..], frameElem, s, els, m)
    requires Published(w, t0, Cells(tmp, banks, |t0|), from, cell, m)
    modifies reg, tmp
    ensures ThreadScanned(w, r0, reg[..], frameElem, s + m, els, m)
    ensures Published(w, t0, Cells(tmp, banks, |t0|), from, cell + 1, m)
  {
    ghost var c := Cells(tmp, banks, |t0|);
    var blockSum := ScanRegisters(reg, s, m, frameElem, els, w, r0, cell);
    assert Cells(tmp, banks, |t0|) == c;
    Store(tmp, banks, |t0|, cell, blockSum);
  }

  method ScanNextMiniBlock(reg: array<int>, tmp: array<int>, banks: nat, frameElem: nat, miniBlockOffset: nat,
                           els: nat, m: nat, ghost w: seq<int>, ghost r0: seq<int>, ghost t0: seq<int>,
                           ghost from: nat, ghost q: nat, ghost r: nat)
    requires reg != tmp && IsPow2(m) && reg.Length == |w| == |r0| && |w| == Times(|t0|, m) && Fits(tmp, banks, |t0|)
    requires frameElem == Times(from, m) && els == Times(q, m) && frameElem + els <= |w|
    requires miniBlockOffset == Times(r, m) < els
    requires ThreadScanned(w, r0, reg[..], frameElem, frameElem + miniBlockOffset, els, m)
    requires Published(w, t0, Cells(tmp, banks, |t0|), from, from + r, m)
    modifies reg, tmp
    ensures r < q && miniBlockOffset + m == Times(r + 1, m) <= els
    ensures ThreadScanned(w, r0, reg[..], frameElem, frameElem + miniBlockOffset + m, els, m)
    ensures Published(w, t0, Cells(tmp, banks, |t0|), from, from + r + 1, m)
  {
    MiniBlockAt(from, r, q, |t0|, m);
    ScanOneMiniBlock(reg, tmp, banks, frameElem + miniBlockOffset, (frameElem + miniBlockOffset) / m, m,
                     frameElem, els, w, r0, t0, from);
  }

  /** The mini-blocks of one thread: q of them, the first being number `from` of the chunk. */
  method ScanMiniBlocks(reg: array<int>, tmp: array<int>, banks: nat, frameElem: nat, els: nat, m: nat,
                        ghost w: seq<int>, ghost r0: seq<int>, ghost t0: seq<int>, ghost from: nat, ghost q: nat)
    requires reg != tmp && IsPow2(m) && reg.Length == |w| == |r0| && |w| == Times(|t0|, m) && Fits(tmp, banks, |t0|)
    requires frameElem == Times(from, m) && els == Times(q, m) && frameElem + els <= |w|
    requires ThreadScanned(w, r0, reg[..], frameElem, frameElem, els, m) && t0 == Cells(tmp, banks, |t0|)
    modifies reg, tmp
    ensures ThreadScanned(w, r0, reg[..], frameElem, frameElem + els, els, m)
    ensures Published(w, t0, Cells(tmp, banks, |t0|), from, from + q, m)
  {
    var miniBlockOffset := 0;
    ghost var r := 0;
    while miniBlockOffset < els
      invariant miniBlockOffset == Times(r, m) <= els && r <= q
      invariant ThreadScanned(w, r0, reg[..], frameElem, frameElem + miniBlockOffset, els, m)
      invariant Published(w, t0, Cells(tmp, banks, |t0|), from, from + r, m)
      decreases q - r
    {
      ScanNextMiniBlock(reg, tmp, banks, frameElem, miniBlockOffset, els, m, w, r0, t0, from, q, r);
      miniBlockOffset, r := miniBlockOffset + m, r + 1;
    }
    TimesOrder(r, q, m);
  }

  lemma MiniBlockAt(from: nat, r: nat, q: nat, cells: nat, m: nat)
    requires m >= 1 && Times(r, m) < Times(q, m) && Times(from, m) + Times(q, m) <= Times(cells, m)
    ensures r < q && from + r < cells && Times(r + 1, m) == Times(r, m) + m <= Times(q, m)
    ensures Times(from, m) + Times(r, m) == Times(from + r, m)
    ensures (Times(from, m) + Times(r, m)) / m == from + r
  {
    TimesAdd(from, r, m);
    TimesOrder(r, q, m);
    BlockNumber(from + r, Times(from, m) + Times(r, m), cells, m);
  }

  lemma BlockNumber(b: nat, k: nat, cells: nat, m: nat)
    requires m >= 1 && k == Times(b, m) < Times(cells, m)
    ensures b < cells && k / m == b
  {
    TimesOrder(b, cells, m);
  }

  method ScanThread(input: array<int>, n: nat, off: nat, reg: array<int>, tmp: array<int>, banks: nat,
                    frameElem: nat, els: nat, m: nat, minis: nat, guarded: bool,
                    ghost w: seq<int>, ghost from: nat, ghost q: nat)
    requires n <= input.Length && reg != input && tmp != input && reg != tmp
    requires IsPow2(m) && reg.Length == |w| == Times(minis, m) && Fits(tmp, banks, minis)
    requires w == Window(input[..n], off, |w|)
    requires frameElem == Times(from, m) && els == Times(q, m) && frameElem + els <= |w|
    requires !guarded ==> els % 4 == 0 && off + frameElem + els <= n
    modifies reg, tmp
    ensures ThreadScanned(w, old(reg[..]), reg[..], frameElem, frameElem + els, els, m)
    ensures Published(w, old(Cells(tmp, banks, minis)), Cells(tmp, banks, minis), from, from + q, m)
  {
    ghost var r0, t0 := reg[..], Cells(tmp, banks, minis);
    LoadElements(input, n, off, reg, frameElem, els, guarded, w);
    assert Cells(tmp, banks, minis) == t0;
    ScanMiniBlocks(reg, tmp, banks, frameElem, els, m, w, r0, t0, from, q);
  }

  // ----- all threads of the block -----

  /** First element of each of the given number of threads. */
  function FrameElems(threads: nat, els: nat): (s: set<int>)
    ensures forall e :: e in s ==> e >= 0
  {
    if threads == 0 then {} else FrameElems(threads - 1, els) + {Times(threads - 1, els)}
  }

  lemma {:induction false} FrameElemIs(threads: nat, els: nat, e: int) returns (t: nat)
    requires e in FrameElems(threads, els)
    ensures t < threads && e == Times(t, els) && e + els <= Times(threads, els)
  {
    if e == Times(threads - 1, els) {
      t := threads - 1;
    } else {
      t := FrameElemIs(threads - 1, els, e);
    }
  }

  lemma {:induction false} StartIsFrameElem(threads: nat, els: nat, k: nat)
    requires els >= 1 && k < Times(threads, els)
    ensures Start(k, els) in FrameElems(threads, els)
  {
    if k < Times(threads - 1, els) {
      StartIsFrameElem(threads - 1, els, k);
    } else {
      StartOf(threads - 1, k - Times(threads - 1, els), els);
    }
  }

  lemma InThread(k: nat, t: nat, els: nat)
    requires els >= 1
    ensures Times(t, els) <= k < Times(t, els) + els <==> Start(k, els) == Times(t, els)
  {
    if Times(t, els) <= k < Times(t, els) + els {
      StartOf(t, k - Times(t, els), els);
    }
  }

  // ----- which thread holds which frame element -----

  /** The kernel's index map over the frame elements of a chunk, one number per thread. */
  function FrameRange(size: nat, els: nat): IndexMap.IdxRange { IndexMap.IdxRange([0], [size], [els]) }

  lemma FrameNumbers(threads: nat, els: nat, p: VecIndex.Vec)
    requires threads >= 1 && els >= 1
    ensures var r := FrameRange(Times(threads, els), els);
      && IndexMap.WellFormed(r) && IndexMap.Extents(r) == [threads]
      && (IndexMap.InRange(r, p) <==> |p| == 1 && p[0] < Times(threads, els) && p[0] % els == 0)
      && (IndexMap.InRange(r, p) ==> IndexMap.Number(r, p) == p[0] / els)
  {
    var size := Times(threads, els);
    TimesIsProduct(threads, els);
    DivModUnique(size + els - 1, els, threads, els - 1);
  }

  /** The thread's range-based loop sees exactly one frame element, the one with the thread's own number: what the
      thread keeps in registers in phase one is what it finds there in phase three. */
  method FrameElemOf(layout: IndexMap.Layout, threads: nat, els: nat, size: nat, t: nat) returns (frameElem: nat)
    requires t < threads && els >= 1 && size == Times(threads, els)
    ensures frameElem == Times(t, els) && frameElem in FrameElems(threads, els)
  {
    var mine := OwnFrameElems(layout, threads, els, size, t);
    frameElem := mine[0][0];
    TimesOrder(t, threads, els);
    StartIsFrameElem(threads, els, frameElem);
    StartOf(t, 0, els);
  }

  method OwnFrameElems(layout: IndexMap.Layout, threads: nat, els: nat, size: nat, t: nat)
    returns (mine: seq<VecIndex.Vec>)
    requires t < threads && els >= 1 && size == Times(threads, els)
    ensures mine == [[Times(t, els)]]
  {
    var r := FrameRange(size, els);
    FrameNumbers(threads, els, [0]);
    assert VecIndex.Positive([threads]) && VecIndex.InBox([t], [threads]);
    mine := IndexMap.Traverse(r, layout, [threads], [t]);
    forall p: VecIndex.Vec ensures p in mine <==> p == [Times(t, els)] {
      OneFrameElem(layout, threads, els, t, p);
    }
    OnlyOne(mine, [Times(t, els)]);
  }

  lemma OneThread(threads: nat, t: nat)
    ensures VecIndex.Product([threads]) == threads && VecIndex.Linear([threads], [t]) == t
  {
    assert [threads][1..] == [];
  }

  /** With a thread for every number, the thread is the number. */
  lemma FrameHandler(layout: IndexMap.Layout, threads: nat, els: nat, t: nat, p: VecIndex.Vec)
    requires t < threads && els >= 1 && |p| == 1 && p[0] < Times(threads, els) && p[0] % els == 0
    ensures var r := FrameRange(Times(threads, els), els);
      IndexMap.WellFormed(r) && (IndexMap.Handles(r, layout, threads, t, p) <==> p[0] / els == t)
  {
    FrameNumbers(threads, els, p);
    OneThread(threads, t);
    FrameStep(threads, els, t, p[0]);
    IndexMap.OneNumberEach(layout, threads, threads, p[0] / els);
  }

  lemma OneFrameElem(layout: IndexMap.Layout, threads: nat, els: nat, t: nat, p: VecIndex.Vec)
    requires t < threads && els >= 1
    ensures var r := FrameRange(Times(threads, els), els);
      && IndexMap.WellFormed(r) && VecIndex.Product([threads]) == threads && VecIndex.Linear([threads], [t]) == t
      && (IndexMap.Handles(r, layout, threads, t, p) <==> p == [Times(t, els)])
  {
    OneThread(threads, t);
    FrameNumbers(threads, els, p);
    if |p| == 1 {
      FrameStep(threads, els, t, p[0]);
      if p[0] < Times(threads, els) && p[0] % els == 0 {
        FrameHandler(layout, threads, els, t, p);
      }
      assert p == [p[0]];
    }
  }

  lemma FrameStep(threads: nat, els: nat, t: nat, e: nat)
    requires t < threads && els >= 1
    ensures e < Times(threads, els) ==> e / els < threads
    ensures e < Times(threads, els) && e % els == 0 && e / els == t <==> e == Times(t, els)
  {
    DivTimes(e, els);
    TimesOrder(e / els, threads, els);
    TimesOrder(t, threads, els);
  }

  lemma OnlyOne<T(!new)>(s: seq<T>, x: T)
    requires forall i, j :: 0 <= i < j < |s| ==> s[i] != s[j]
    ensures (forall p :: p in s <==> p == x) ==> s == [x]
  {
    if |s| > 1 {
      assert s[0] in s && s[1] in s && s[0] != s[1];
    } else if |s| == 1 {
      assert s[0] in s;
    } else {
      assert x !in s;
    }
  }

  /** The threads not in `todo` have scanned their memory. */
  ghost predicate RegistersScanned(w: seq<int>, reg: seq<int>, todo: set<int>, els: nat, m: nat)
    requires els >= 1 && m >= 1 && |reg| == |w|
  {
    forall k: nat {:trigger reg[k]} :: k < |reg| && Start(k, els) !in todo ==> reg[k] == Local(w, k, m)
  }

  /** ... and published their sums. */
  ghost predicate SumsPublished(w: seq<int>, t: seq<int>, todo: set<int>, els: nat, m: nat)
    requires els >= 1 && m >= 1
  {
    forall b: nat {:trigger t[b]} :: b < |t| && Start(Times(b, m), els) !in todo ==> t[b] == MiniTotal(w, b, m)
  }

  lemma RegistersOfThread(w: seq<int>, r0: seq<int>, r: seq<int>, todo: set<int>, th: nat, els: nat, m: nat)
    requires m >= 1 && els >= 1 && |r0| == |r| == |w| && RegistersScanned(w, r0, todo, els, m)
    requires ThreadScanned(w, r0, r, Times(th, els), Times(th, els) + els, els, m)
    ensures RegistersScanned(w, r, todo - {Times(th, els)}, els, m)
  {
    forall k: nat | k < |r| && Start(k, els) !in todo - {Times(th, els)} ensures r[k] == Local(w, k, m) {
      InThread(k, th, els);
      assert r0[k] == r0[k];
    }
  }

  lemma SumsOfThread(w: seq<int>, t0: seq<int>, t: seq<int>, todo: set<int>,
                     th: nat, els: nat, m: nat, from: nat, q: nat)
    requires m >= 1 && els >= 1 && SumsPublished(w, t0, todo, els, m)
    requires Times(th, els) == Times(from, m) && els == Times(q, m)
    requires Published(w, t0, t, from, from + q, m)
    ensures SumsPublished(w, t, todo - {Times(th, els)}, els, m)
  {
    forall b: nat | b < |t| && Start(Times(b, m), els) !in todo - {Times(th, els)} ensures t[b] == MiniTotal(w, b, m) {
      if !(from <= b < from + q) {
        OutsideThread(b, th, els, m, from, q);
        assert t0[b] == t[b];
      }
    }
  }

  lemma OutsideThread(b: nat, th: nat, els: nat, m: nat, from: nat, q: nat)
    requires m >= 1 && els >= 1 && Times(th, els) == Times(from, m) && els == Times(q, m)
    requires !(from <= b < from + q)
    ensures Start(Times(b, m), els) != Times(th, els)
  {
    OutsideBlocks(b, from, q, m);
    InThread(Times(b, m), th, els);
  }

  lemma OutsideBlocks(b: nat, from: nat, q: nat, m: nat)
    requires m >= 1 && !(from <= b < from + q)
    ensures !(Times(from, m) <= Times(b, m) < Times(from, m) + Times(q, m))
  {
    TimesAdd(from, q, m);
    TimesOrder(b, from, m);
    TimesOrder(b, from + q, m);
  }

  /** The threads in `todo` are the ones whose frame elements are in `open`. */
  ghost predicate ThreadsOpen(threads: nat, els: nat, todo: set<int>, open: set<int>) {
    && todo <= Indices(threads) && open <= FrameElems(threads, els)
    && forall t: nat {:trigger Times(t, els)} :: t < threads ==> (t in todo <==> Times(t, els) in open)
  }

  lemma AllThreadsOpen(threads: nat, els: nat)
    requires els >= 1
    ensures ThreadsOpen(threads, els, Indices(threads), FrameElems(threads, els))
  {
    forall t: nat | t < threads ensures Times(t, els) in FrameElems(threads, els) {
      TimesOrder(t, threads, els);
      StartIsFrameElem(threads, els, Times(t, els));
      StartOf(t, 0, els);
    }
  }

  lemma CloseThread(threads: nat, els: nat, todo: set<int>, open: set<int>, t: nat)
    requires els >= 1 && ThreadsOpen(threads, els, todo, open) && t in todo
    ensures Times(t, els) in open && ThreadsOpen(threads, els, todo - {t}, open - {Times(t, els)})
  {
    forall u: nat | u < threads ensures u in todo - {t} <==> Times(u, els) in open - {Times(t, els)} {
      TimesOrder(u, t, els);
      TimesOrder(t, u, els);
    }
  }

  lemma NoThreadOpen(threads: nat, els: nat, open: set<int>)
    requires ThreadsOpen(threads, els, {}, open)
    ensures open == {}
  {
    forall e ensures e !in open {
      if e in open {
        var t := FrameElemIs(threads, els, e);
      }
    }
  }

  /** Phase 1, the threads in any order. */
  method ScanThreads(layout: IndexMap.Layout, input: array<int>, n: nat, off: nat, reg: array<int>, tmp: array<int>,
                     banks: nat, threads: nat, els: nat, m: nat, minis: nat, guarded: bool,
                     ghost w: seq<int>, ghost q: nat)
    requires n <= input.Length && reg != input && tmp != input && reg != tmp
    requires IsPow2(m) && reg.Length == |w| == Times(minis, m) && Fits(tmp, banks, minis)
    requires w == Window(input[..n], off, |w|) && els >= 1 && els == Times(q, m) && |w| == Times(threads, els)
    requires !guarded ==> els % 4 == 0 && off + |w| <= n
    modifies reg, tmp
    ensures forall k: nat :: k < |w| ==> reg[k] == Local(w, k, m) == Sum(w, Start(k, m), k)
    ensures forall b: nat :: b < minis ==> Cells(tmp, banks, minis)[b] == MiniTotal(w, b, m)
  {
    var todo := Indices(threads);
    ghost var open := FrameElems(threads, els);
    AllThreadsOpen(threads, els);
    AllToDo(w, reg[..], Cells(tmp, banks, minis), threads, els, m);
    while todo != {}
      invariant ThreadsOpen(threads, els, todo, open)
      invariant RegistersScanned(w, reg[..], open, els, m)
      invariant SumsPublished(w, Cells(tmp, banks, minis), open, els, m)
      decreases todo
    {
      var t :| t in todo;
      CloseThread(threads, els, todo, open, t);
      var frameElem := FrameElemOf(layout, threads, els, reg.Length, t);
      ScanNextThread(input, n, off, reg, tmp, banks, frameElem, threads, els, m, minis, guarded, w, q, open);
      todo, open := todo - {t}, open - {frameElem};
    }
    NoThreadOpen(threads, els, open);
    assert forall k: nat :: k < |w| ==> reg[..][k] == Local(w, k, m);
  }

  lemma AllToDo(w: seq<int>, reg: seq<int>, t: seq<int>, threads: nat, els: nat, m: nat)
    requires els >= 1 && m >= 1 && |reg| == |w| == Times(threads, els) == Times(|t|, m)
    ensures RegistersScanned(w, reg, FrameElems(threads, els), els, m)
    ensures SumsPublished(w, t, FrameElems(threads, els), els, m)
  {
    forall k: nat | k < |w| ensures Start(k, els) in FrameElems(threads, els) {
      StartIsFrameElem(threads, els, k);
    }
    forall b: nat | b < |t| ensures Start(Times(b, m), els) in FrameElems(threads, els) {
      TimesOrder(b, |t|, m);
      StartIsFrameElem(threads, els, Times(b, m));
    }
  }

  method ScanNextThread(input: array<int>, n: nat, off: nat, reg: array<int>, tmp: array<int>, banks: nat,
                        frameElem: nat, threads: nat, els: nat, m: nat, minis: nat, guarded: bool,
                        ghost w: seq<int>, ghost q: nat, ghost todo: set<int>)
    requires n <= input.Length && reg != input && tmp != input && reg != tmp
    requires IsPow2(m) && reg.Length == |w| == Times(minis, m) && Fits(tmp, banks, minis)
    requires w == Window(input[..n], off, |w|) && els >= 1 && els == Times(q, m) && |w| == Times(threads, els)
    requires !guarded ==> els % 4 == 0 && off + |w| <= n
    requires frameElem in FrameElems(threads, els)
    requires RegistersScanned(w, reg[..], todo, els, m)
    requires SumsPublished(w, Cells(tmp, banks, minis), todo, els, m)
    modifies reg, tmp
    ensures RegistersScanned(w, reg[..], todo - {frameElem}, els, m)
    ensures SumsPublished(w, Cells(tmp, banks, minis), todo - {frameElem}, els, m)
  {
    ghost var th := FrameElemIs(threads, els, frameElem);
    TimesTimes(th, q, m);
    ScanThread(input, n, off, reg, tmp, banks, frameElem, els, m, minis, guarded, w, Times(th, q), q);
    RegistersOfThread(w, old(reg[..]), reg[..], todo, th, els, m);
    SumsOfThread(w, old(Cells(tmp, banks, minis)), Cells(tmp, banks, minis), todo, th, els, m, Times(th, q), q);
  }

  // ----- phase 2: the scanned sums are the prefixes before the mini-blocks -----

  lemma {:induction false} MiniTotalsAdd(w: seq<int>, a: seq<int>, m: nat, b: nat)
    requires m >= 1 && |w| == Times(|a|, m) && b <= |a|
    requires forall i: nat {:trigger a[i]} :: i < |a| ==> a[i] == MiniTotal(w, i, m)
    ensures Times(b, m) <= |w| && Sum(a, 0, b) == Sum(w, 0, Times(b, m))
  {
    TimesOrder(b, |a|, m);
    if b > 0 {
      TimesOrder(b - 1, |a|, m);
      MiniTotalsAdd(w, a, m, b - 1);
      SumSplit(w, 0, Times(b - 1, m), Times(b, m));
    }
  }

  // ----- phase 3: add them back and write the output -----

  /** Element k after the prefix before its mini-block was added; the kernel adds 0 behind the end. */
  function Finished(w: seq<int>, k: nat, m: nat, valid: nat): int
    requires m >= 1 && k <= |w|
  {
    Local(w, k, m) + if Start(k, m) < valid then Sum(w, 0, Start(k, m)) else 0
  }

  lemma FinishedIsPrefix(w: seq<int>, k: nat, m: nat, valid: nat)
    requires m >= 1 && k <= |w| && k < valid
    ensures Finished(w, k, m, valid) == Sum(w, 0, k)
  {
    SumSplit(w, 0, Start(k, m), k);
  }

  /** Memory of the thread at frameElem while the mini-blocks before upTo have been completed. */
  ghost predicate ThreadFinished(w: seq<int>, before: seq<int>, reg: seq<int>, frameElem: nat, upTo: nat, els: nat,
                                 m: nat, valid: nat)
    requires m >= 1 && |before| == |reg| == |w|
  {
    forall k: nat {:trigger reg[k]} :: k < |reg| ==>
      reg[k] == if frameElem <= k < upTo then Finished(w, k, m, valid)
                else if upTo <= k < frameElem + els then Local(w, k, m)
                else before[k]
  }

  method FinishOneMiniBlock(reg: array<int>, s: nat, m: nat, blockSum: int, frameElem: nat, els: nat, valid: nat,
                            ghost w: seq<int>, ghost r0: seq<int>, ghost b: nat)
    requires m >= 1 && reg.Length == |w| == |r0|
    requires s == Times(b, m) && frameElem <= s && s + m <= frameElem + els <= |w|
    requires blockSum == if s < valid then Sum(w, 0, s) else 0
    requires ThreadFinished(w, r0, reg[..], frameElem, s, els, m, valid)
    modifies reg
    ensures ThreadFinished(w, r0, reg[..], frameElem, s + m, els, m, valid)
  {
    ghost var r := reg[..];
    AddToMiniBlock(reg, s, m, blockSum);
    forall k: nat | k < reg.Length
      ensures reg[..][k] == if s <= k < s + m then Finished(w, k, m, valid) else r[k]
    {
      assert reg[k] == r[k] + if s <= k < s + m then blockSum else 0;
      if s <= k < s + m { StartOf(b, k - s, m); }
    }
  }

  /** The tree holds the chunk's prefixes at the starts of the mini-blocks. */
  ghost predicate PrefixesInTree(w: seq<int>, t: seq<int>, m: nat) {
    forall b: nat {:trigger t[b]} :: b < |t| ==> Times(b, m) <= |w| && t[b] == Sum(w, 0, Times(b, m))
  }

  /** The prefix before the mini-block at s, unless it lies behind the data. */
  method PrefixBefore(tmp: array<int>, banks: nat, minis: nat, s: nat, m: nat, off: nat, n: nat,
                      ghost w: seq<int>, ghost b: nat) returns (blockSum: int)
    requires m >= 1 && off <= n && Fits(tmp, banks, minis) && b < minis && s == Times(b, m) <= |w| && s / m == b
    requires Cells(tmp, banks, minis)[b] == Sum(w, 0, s)
    ensures blockSum == if s < n - off then Sum(w, 0, s) else 0
  {
    blockSum := 0;
    if off + s < n {
      blockSum := Load(tmp, banks, minis, s / m);
    }
  }

  method FinishNextMiniBlock(reg: array<int>, tmp: array<int>, banks: nat, frameElem: nat, miniBlockOffset: nat,
                             els: nat, m: nat, minis: nat, off: nat, n: nat,
                             ghost w: seq<int>, ghost r0: seq<int>, ghost from: nat, ghost q: nat, ghost r: nat)
    requires reg != tmp && m >= 1 && off <= n && reg.Length == |w| == |r0| == Times(minis, m) && Fits(tmp, banks, minis)
    requires frameElem == Times(from, m) && els == Times(q, m) && frameElem + els <= |w|
    requires miniBlockOffset == Times(r, m) < els
    requires ThreadFinished(w, r0, reg[..], frameElem, frameElem + miniBlockOffset, els, m, n - off)
    requires PrefixesInTree(w, Cells(tmp, banks, minis), m)
    modifies reg
    ensures r < q && miniBlockOffset + m == Times(r + 1, m) <= els
    ensures ThreadFinished(w, r0, reg[..], frameElem, frameElem + miniBlockOffset + m, els, m, n - off)
    ensures Cells(tmp, banks, minis) == old(Cells(tmp, banks, minis))
  {
    MiniBlockAt(from, r, q, minis, m);
    var blockSum := PrefixBefore(tmp, banks, minis, frameElem + miniBlockOffset, m, off, n, w, from + r);
    FinishOneMiniBlock(reg, frameElem + miniBlockOffset, m, blockSum, frameElem, els, n - off, w, r0, from + r);
  }

  method FinishMiniBlocks(reg: array<int>, tmp: array<int>, banks: nat, frameElem: nat, els: nat, m: nat, minis: nat,
                          off: nat, n: nat,
                          ghost w: seq<int>, ghost r0: seq<int>, ghost from: nat, ghost q: nat)
    requires reg != tmp && m >= 1 && off <= n && reg.Length == |w| == |r0| == Times(minis, m) && Fits(tmp, banks, minis)
    requires frameElem == Times(from, m) && els == Times(q, m) && frameElem + els <= |w|
    requires ThreadFinished(w, r0, reg[..], frameElem, frameElem, els, m, n - off)
    requires PrefixesInTree(w, Cells(tmp, banks, minis), m)
    modifies reg
    ensures ThreadFinished(w, r0, reg[..], frameElem, frameElem + els, els, m, n - off)
    ensures forall k: nat :: frameElem <= k < frameElem + els ==>
      reg[k] == Sum(w, Start(k, m), k) + if Start(k, m) < n - off then Sum(w, 0, Start(k, m)) else 0
  {
    var miniBlockOffset := 0;
    ghost var r := 0;
    ghost var t := Cells(tmp, banks, minis);
    while miniBlockOffset < els
      invariant miniBlockOffset == Times(r, m) <= els && r <= q
      invariant ThreadFinished(w, r0, reg[..], frameElem, frameElem + miniBlockOffset, els, m, n - off)
      invariant Cells(tmp, banks, minis) == t
      decreases q - r
    {
      FinishNextMiniBlock(reg, tmp, banks, frameElem, miniBlockOffset, els, m, minis, off, n, w, r0, from, q, r);
      miniBlockOffset, r := miniBlockOffset + m, r + 1;
    }
  }

  /** Output of the thread at frameElem, elements below upTo written. */
  ghost predicate ThreadWritten(ins: seq<int>, outs: seq<int>, out: seq<int>, n: nat, off: nat, reg: seq<int>,
                                frameElem: nat, upTo: nat, inclusive: bool)
    requires n <= |ins| && n <= |outs| == |out| && upTo <= |reg|
  {
    forall i: nat {:trigger out[i]} :: i < |out| ==>
      out[i] == if off + frameElem <= i < off + upTo && i < n then (if inclusive then ins[i] else 0) + reg[i - off]
                else outs[i]
  }

  method WriteElements(input: array<int>, output: array<int>, n: nat, off: nat, reg: array<int>,
                       frameElem: nat, els: nat, guarded: bool, inclusive: bool)
    requires n <= input.Length && n <= output.Length && reg != output && frameElem + els <= reg.Length
    requires !guarded ==> els % 4 == 0 && off + frameElem + els <= n
    modifies output
    ensures ThreadWritten(old(input[..]), old(output[..]), output[..], n, off, reg[..], frameElem, frameElem + els,
                          inclusive)
    ensures forall i: nat :: i < output.Length ==>
      output[i] == if off + frameElem <= i < off + frameElem + els && i < n
                   then reg[i - off] + if inclusive then old(input[i]) else 0
                   else old(output[i])
  {
    ghost var ins, outs, r := input[..], output[..], reg[..];
    var i := 0;
    while i < els
      invariant i <= els && reg[..] == r && (guarded || i % 4 == 0)
      invariant input != output ==> input[..] == ins
      invariant ThreadWritten(ins, outs, output[..], n, off, r, frameElem, frameElem + i, inclusive)
      decreases els - i
    {
      if guarded {
        if off + frameElem + i < n {
          WriteOne(input, output, n, off, reg, frameElem, i, inclusive, ins, outs, r);
        }
        i := i + 1;
      } else {
        WritePack(input, output, n, off, reg, frameElem, i, inclusive, ins, outs, r);
        i := i + 4;
      }
    }
    assert forall i: nat :: i < output.Length ==> output[..][i] == output[i];
  }

  /** One SIMD pack of four, its lanes unrolled. */
  method WritePack(input: array<int>, output: array<int>, n: nat, off: nat, reg: array<int>, frameElem: nat, i: nat,
                   inclusive: bool, ghost ins: seq<int>, ghost outs: seq<int>, ghost r: seq<int>)
    requires n <= input.Length == |ins| && n <= output.Length == |outs| && reg != output
    requires reg[..] == r && frameElem + i + 4 <= |r| && off + frameElem + i + 4 <= n
    requires if input == output then ins == outs else input[..] == ins
    requires ThreadWritten(ins, outs, output[..], n, off, r, frameElem, frameElem + i, inclusive)
    modifies output
    ensures reg[..] == r && (input != output ==> input[..] == ins)
    ensures ThreadWritten(ins, outs, output[..], n, off, r, frameElem, frameElem + i + 4, inclusive)
  {
    WriteOne(input, output, n, off, reg, frameElem, i, inclusive, ins, outs, r);
    WriteOne(input, output, n, off, reg, frameElem, i + 1, inclusive, ins, outs, r);
    WriteOne(input, output, n, off, reg, frameElem, i + 2, inclusive, ins, outs, r);
    WriteOne(input, output, n, off, reg, frameElem, i + 3, inclusive, ins, outs, r);
  }

  method WriteOne(input: array<int>, output: array<int>, n: nat, off: nat, reg: array<int>, frameElem: nat, i: nat,
                  inclusive: bool, ghost ins: seq<int>, ghost outs: seq<int>, ghost r: seq<int>)
    requires n <= input.Length == |ins| && n <= output.Length == |outs| && reg != output
    requires reg[..] == r && frameElem + i < |r| && off + frameElem + i < n
    requires if input == output then ins == outs else input[..] == ins
    requires ThreadWritten(ins, outs, output[..], n, off, r, frameElem, frameElem + i, inclusive)
    modifies output
    ensures reg[..] == r && (input != output ==> input[..] == ins)
    ensures ThreadWritten(ins, outs, output[..], n, off, r, frameElem, frameElem + i + 1, inclusive)
  {
    var p := off + frameElem + i;
    ghost var before := output[..];
    assert input[p] == ins[p] by {
      assert output[..][p] == outs[p];
      assert input != output ==> input[..][p] == ins[p];
    }
    assert reg[frameElem + i] == r[frameElem + i];
    output[p] := if inclusive then input[p] + reg[frameElem + i] else reg[frameElem + i];
    assert output[..] == before[p := (if inclusive then ins[p] else 0) + r[frameElem + i]];
  }

  /** The threads in `todo` still hold their mini-block scans. */
  ghost predicate Unfinished(w: seq<int>, reg: seq<int>, todo: set<int>, els: nat, m: nat)
    requires els >= 1 && m >= 1 && |reg| == |w|
  {
    forall k: nat {:trigger reg[k]} :: k < |reg| && Start(k, els) in todo ==> reg[k] == Local(w, k, m)
  }

  /** The other threads have written their part of the window at off. */
  ghost predicate Written(ins: seq<int>, outs: seq<int>, out: seq<int>, n: nat, off: nat, w: seq<int>,
                          todo: set<int>, els: nat, inclusive: bool)
    requires els >= 1 && n <= |ins| && n <= |outs| == |out|
  {
    forall i: nat {:trigger out[i]} :: i < |out| ==>
      out[i] == if off <= i < off + |w| && i < n && Start(i - off, els) !in todo
                then (if inclusive then ins[i] else 0) + Sum(w, 0, i - off) else outs[i]
  }

  lemma WrittenByThread(ins: seq<int>, outs: seq<int>, ins': seq<int>, out: seq<int>, out': seq<int>, n: nat, off: nat,
                        w: seq<int>, r0: seq<int>, reg: seq<int>, todo: set<int>, th: nat, els: nat, m: nat,
                        inclusive: bool)
    requires m >= 1 && els >= 1 && off <= n && n <= |ins| == |ins'| && n <= |outs| == |out| == |out'|
    requires |reg| == |w| == |r0| && Times(th, els) + els <= |w| && Times(th, els) in todo
    requires Written(ins, outs, out, n, off, w, todo, els, inclusive)
    requires ThreadFinished(w, r0, reg, Times(th, els), Times(th, els) + els, els, m, n - off)
    requires ThreadWritten(ins', out, out', n, off, reg, Times(th, els), Times(th, els) + els, inclusive)
    requires ins' == ins || (ins' == out && ins == outs)
    ensures Written(ins, outs, out', n, off, w, todo - {Times(th, els)}, els, inclusive)
  {
    forall i: nat | i < |out|
      ensures out'[i] == if off <= i < off + |w| && i < n && Start(i - off, els) !in todo - {Times(th, els)}
                         then (if inclusive then ins[i] else 0) + Sum(w, 0, i - off) else outs[i]
    {
      assert out[i] == out[i];
      if off <= i < off + |w| && i < n {
        InThread(i - off, th, els);
        if Start(i - off, els) == Times(th, els) {
          FinishedIsPrefix(w, i - off, m, n - off);
          assert reg[i - off] == Sum(w, 0, i - off);
        }
      }
    }
  }

  lemma StartOfThread(w: seq<int>, reg: seq<int>, todo: set<int>, th: nat, els: nat, m: nat, valid: nat)
    requires m >= 1 && els >= 1 && |reg| == |w| && Unfinished(w, reg, todo, els, m) && Times(th, els) in todo
    ensures ThreadFinished(w, reg, reg, Times(th, els), Times(th, els), els, m, valid)
  {
    forall k: nat | Times(th, els) <= k < Times(th, els) + els && k < |reg| ensures reg[k] == Local(w, k, m) {
      InThread(k, th, els);
    }
  }

  lemma RestUnfinished(w: seq<int>, r0: seq<int>, reg: seq<int>, todo: set<int>, th: nat, els: nat, m: nat, valid: nat)
    requires m >= 1 && els >= 1 && |reg| == |w| == |r0| && Unfinished(w, r0, todo, els, m)
    requires ThreadFinished(w, r0, reg, Times(th, els), Times(th, els) + els, els, m, valid)
    ensures Unfinished(w, reg, todo - {Times(th, els)}, els, m)
  {
    forall k: nat | k < |reg| && Start(k, els) in todo - {Times(th, els)} ensures reg[k] == Local(w, k, m) {
      InThread(k, th, els);
      assert r0[k] == r0[k];
    }
  }

  method FinishNextThread(input: array<int>, output: array<int>, n: nat, off: nat, reg: array<int>, tmp: array<int>,
                          banks: nat, frameElem: nat, threads: nat, els: nat, m: nat, minis: nat, guarded: bool,
                          inclusive: bool, ghost w: seq<int>, ghost q: nat, ghost todo: set<int>,
                          ghost ins: seq<int>, ghost outs: seq<int>)
    requires off <= n <= input.Length == |ins| && n <= output.Length == |outs|
    requires reg != input && reg != output && reg != tmp && tmp != output
    requires m >= 1 && reg.Length == |w| == Times(minis, m) && Fits(tmp, banks, minis)
    requires els >= 1 && els == Times(q, m) && |w| == Times(threads, els)
    requires !guarded ==> els % 4 == 0 && off + |w| <= n
    requires frameElem in FrameElems(threads, els) && frameElem in todo
    requires PrefixesInTree(w, Cells(tmp, banks, minis), m)
    requires Unfinished(w, reg[..], todo, els, m)
    requires Written(ins, outs, output[..], n, off, w, todo, els, inclusive)
    requires if input == output then ins == outs else input[..] == ins
    modifies reg, output
    ensures Unfinished(w, reg[..], todo - {frameElem}, els, m)
    ensures Written(ins, outs, output[..], n, off, w, todo - {frameElem}, els, inclusive)
    ensures input != output ==> input[..] == ins
  {
    ghost var th := FrameElemIs(threads, els, frameElem);
    ghost var r0 := reg[..];
    StartOfThread(w, r0, todo, th, els, m, n - off);
    TimesTimes(th, q, m);
    FinishMiniBlocks(reg, tmp, banks, frameElem, els, m, minis, off, n, w, r0, Times(th, q), q);
    RestUnfinished(w, r0, reg[..], todo, th, els, m, n - off);
    ghost var ins', out := input[..], output[..];
    WriteElements(input, output, n, off, reg, frameElem, els, guarded, inclusive);
    WrittenByThread(ins, outs, ins', out, output[..], n, off, w, r0, reg[..], todo, th, els, m, inclusive);
  }

  lemma NothingWritten(ins: seq<int>, outs: seq<int>, n: nat, off: nat, w: seq<int>, threads: nat, els: nat,
                       inclusive: bool)
    requires els >= 1 && n <= |ins| && n <= |outs| && |w| == Times(threads, els)
    ensures Written(ins, outs, outs, n, off, w, FrameElems(threads, els), els, inclusive)
  {
    forall k: nat | k < |w| ensures Start(k, els) in FrameElems(threads, els) {
      StartIsFrameElem(threads, els, k);
    }
  }

  /** Phase 3, the threads in any order. */
  method FinishThreads(layout: IndexMap.Layout, input: array<int>, output: array<int>, n: nat, off: nat,
                       reg: array<int>, tmp: array<int>, banks: nat, threads: nat, els: nat, m: nat, minis: nat,
                       guarded: bool, inclusive: bool,
                       ghost w: seq<int>, ghost q: nat)
    requires off <= n <= input.Length && n <= output.Length
    requires reg != input && reg != output && reg != tmp && tmp != output
    requires m >= 1 && reg.Length == |w| == Times(minis, m) && Fits(tmp, banks, minis)
    requires els >= 1 && els == Times(q, m) && |w| == Times(threads, els)
    requires !guarded ==> els % 4 == 0 && off + |w| <= n
    requires PrefixesInTree(w, Cells(tmp, banks, minis), m)
    requires forall k: nat {:trigger reg[k]} :: k < |w| ==> reg[k] == Local(w, k, m)
    modifies reg, output
    ensures Written(old(input[..]), old(output[..]), output[..], n, off, w, {}, els, inclusive)
  {
    ghost var ins, outs, t := input[..], output[..], Cells(tmp, banks, minis);
    var todo := Indices(threads);
    ghost var open := FrameElems(threads, els);
    AllThreadsOpen(threads, els);
    NothingWritten(ins, outs, n, off, w, threads, els, inclusive);
    while todo != {}
      invariant ThreadsOpen(threads, els, todo, open) && Cells(tmp, banks, minis) == t
      invariant Unfinished(w, reg[..], open, els, m)
      invariant Written(ins, outs, output[..], n, off, w, open, els, inclusive)
      invariant if input == output then ins == outs else input[..] == ins
      decreases todo
    {
      var th :| th in todo;
      CloseThread(threads, els, todo, open, th);
      var frameElem := FrameElemOf(layout, threads, els, reg.Length, th);
      FinishNextThread(input, output, n, off, reg, tmp, banks, frameElem, threads, els, m, minis, guarded, inclusive,
                       w, q, open, ins, outs);
      todo, open := todo - {th}, open - {frameElem};
    }
    NoThreadOpen(threads, els, open);
  }

  // ----- the whole chunk -----

  /** The kernel's compile-time split of a chunk: threads, elements per thread, mini-blocks. */
  lemma Split(size: nat, threads: nat, maxMini: nat, els: nat, m: nat) returns (minis: nat, perThread: nat)
    requires IsPow2(size) && IsPow2(threads) && threads <= size && IsPow2(maxMini)
    requires els == size / threads && m == Min(maxMini, els)
    ensures els >= 1 && m >= 1 && minis == size / m && perThread == els / m && IsPow2(m) && IsPow2(minis)
    ensures Times(threads, els) == size && Times(perThread, m) == els && Times(minis, m) == size
  {
    Pow2Quotient(threads, size);
    Pow2Quotient(els, size);
    Pow2Quotient(m, els);
    Pow2Quotient(m, size);
    minis, perThread := size / m, els / m;
  }

  lemma ExactQuotient(n: nat, w: nat)
    requires 1 <= w <= n && n % w == 0
    ensures 1 <= n / w <= n && n == (n / w) * w == w * (n / w)
  {
    var q := n / w;
    assert n == q * w;
    assert q != 0;
    MulLeft(1, w, q);
  }

  lemma Pow2Quotient(w: nat, n: nat)
    requires IsPow2(w) && IsPow2(n) && w <= n
    ensures w >= 1 && 1 <= n / w <= n && IsPow2(n / w) && Times(n / w, w) == n == Times(w, n / w)
  {
    Pow2Divides(w, n);
    var q := n / w;
    TimesIsProduct(q, w);
    TimesIsProduct(w, q);
    ExactQuotient(n, w);
  }

  /** Unguarded accesses happen only in chunks that lie completely inside the data. */
  lemma FullChunk(n: nat, size: nat, numChunks: nat, chunkIdx: nat)
    requires size >= 1 && n >= 1 && JustCover(n, size, numChunks) && chunkIdx < numChunks
    ensures Times(chunkIdx, size) < n
    ensures chunkIdx < numChunks - 1 || (n - 1) % size + 1 == size ==> Times(chunkIdx, size) + size <= n
  {
    var c1 := numChunks - 1;
    TimesOrder(chunkIdx, c1, size);
    if chunkIdx == c1 {
      TimesIsProduct(c1, size);
      DivModUnique(n - 1, size, c1, n - 1 - Times(c1, size));
    }
  }

  method ScanChunkInTwoLevels(layout: IndexMap.Layout, input: array<int>, output: array<int>, n: nat, size: nat,
                              banks: nat, inclusive: bool, threads: nat, maxMini: nat, numChunks: nat, chunkIdx: nat,
                              off: nat) returns (total: int)
    requires 1 <= n <= input.Length && n <= output.Length && IsPow2(size)
    requires IsPow2(threads) && threads <= size && IsPow2(maxMini)
    requires JustCover(n, size, numChunks) && chunkIdx < numChunks && off == Times(chunkIdx, size)
    modifies output
    ensures off <= n
    ensures ChunkScanned(old(input[..n]), old(output[..]), output[..], off, size, inclusive)
    ensures forall i: nat :: i < output.Length ==>
      output[i] == if off <= i < off + size && i < n then Sum(old(input[..n]), off, if inclusive then i + 1 else i)
                   else old(output[i])
    ensures total == Sum(old(input[..n]), off, Min(off + size, n))
  {
    var els := size / threads;
    var m := Min(maxMini, els);
    ghost var minis, perThread := Split(size, threads, maxMini, els, m);
    FullChunk(n, size, numChunks, chunkIdx);
    var lastFrameFull := (n - 1) % size + 1 == size;
    var guarded := (!lastFrameFull && chunkIdx == numChunks - 1) || els % 4 != 0;
    total := ScanSplitChunk(layout, input, output, n, off, size, banks, inclusive, threads, els, m, size / m, guarded);
  }

  /** Phase 2: the tree scan turns the mini-block sums into the prefixes before the mini-blocks. */
  method ScanMiniTotals(tmp: array<int>, banks: nat, minis: nat, m: nat, ghost w: seq<int>) returns (total: int)
    requires m >= 1 && IsPow2(minis) && Fits(tmp, banks, minis) && |w| == Times(minis, m)
    requires forall b: nat :: b < minis ==> Cells(tmp, banks, minis)[b] == MiniTotal(w, b, m)
    modifies tmp
    ensures PrefixesInTree(w, Cells(tmp, banks, minis), m) && total == Sum(w, 0, |w|)
  {
    ghost var a := Cells(tmp, banks, minis);
    total := ScanTree(tmp, banks, minis);
    forall b: nat | b <= minis ensures Times(b, m) <= |w| && Sum(a, 0, b) == Sum(w, 0, Times(b, m)) {
      MiniTotalsAdd(w, a, m, b);
    }
  }

  method ScanSplitChunk(layout: IndexMap.Layout, input: array<int>, output: array<int>, n: nat, off: nat, size: nat,
                        banks: nat, inclusive: bool, threads: nat, els: nat, m: nat, minis: nat, guarded: bool)
    returns (total: int)
    requires off <= n <= input.Length && n <= output.Length
    requires els >= 1 && IsPow2(m) && IsPow2(minis)
    requires Times(threads, els) == size == Times(minis, m) && Times(els / m, m) == els
    requires !guarded ==> els % 4 == 0 && off + size <= n
    modifies output
    ensures ChunkScanned(old(input[..n]), old(output[..]), output[..], off, size, inclusive)
    ensures forall i: nat :: i < output.Length ==>
      output[i] == if off <= i < off + size && i < n then Sum(old(input[..n]), off, if inclusive then i + 1 else i)
                   else old(output[i])
    ensures total == Sum(old(input[..n]), off, Min(off + size, n))
  {
    ghost var s, ins, outs := input[..n], input[..], output[..];
    ghost var w := Window(s, off, size);
    var reg := new int[size];
    var tmp := new int[ConflictFree(banks, minis - 1) + 1];
    ScanThreads(layout, input, n, off, reg, tmp, banks, threads, els, m, minis, guarded, w, els / m);
    total := ScanMiniTotals(tmp, banks, minis, m, w);
    WindowSum(s, off, size, size);
    FinishThreads(layout, input, output, n, off, reg, tmp, banks, threads, els, m, minis, guarded, inclusive,
                  w, els / m);
    WrittenIsScan(s, ins, outs, output[..], off, w, els, inclusive);
    ChunkScannedAt(s, outs, output[..], off, size, inclusive);
    assert forall i: nat :: i < output.Length ==> output[..][i] == output[i];
  }

  lemma WrittenIsScan(s: seq<int>, ins: seq<int>, outs: seq<int>, out: seq<int>, off: nat, w: seq<int>, els: nat,
                      inclusive: bool)
    requires els >= 1 && off <= |s| <= |ins| && |s| <= |outs| == |out| && s == ins[..|s|]
    requires w == Window(s, off, |w|) && Written(ins, outs, out, |s|, off, w, {}, els, inclusive)
    ensures ChunkScanned(s, outs, out, off, |w|, inclusive)
  {
    forall i: nat | off <= i < off + |w| && i < |s| ensures out[i] == ScanFrom(s, off, i, inclusive) {
      WindowSum(s, off, |w|, i - off);
    }
  }
}
