/** Traversing only some dimensions of an index range by a folded thread space. */
module SelectedDims {
  import opened Arithmetic
  import opened VecIndex
  import opened IndexMap
  import opened ThreadFold
  import TiledMap

  // ----- the selected part of a range -----

  /** Base with the selected components replaced. */
  function Embed(base: Vec, sel: seq<nat>, q: Vec): (p: Vec)
    requires |sel| == |q| && Within(sel, |base|)
    ensures |p| == |base| && forall d: nat :: d < |base| && d !in sel ==> p[d] == base[d]
  {
    if sel == [] then base
    else Embed(base, sel[..|sel| - 1], q[..|q| - 1])[sel[|sel| - 1] := q[|q| - 1]]
  }

  lemma {:induction false} EmbedAt(base: Vec, sel: seq<nat>, q: Vec, i: nat)
    requires |sel| == |q| && Within(sel, |base|) && i < |sel|
    requires forall i, j :: 0 <= i < j < |sel| ==> sel[i] != sel[j]
    ensures Embed(base, sel, q)[sel[i]] == q[i]
  {
    var k := |sel| - 1;
    if i < k {
      EmbedAt(base, sel[..k], q[..k], i);
    }
  }

  lemma EmbedPicks(base: Vec, sel: seq<nat>, q: Vec)
    requires |sel| == |q| && Selection(|base|, sel)
    ensures Pick(Embed(base, sel, q), sel) == q
  {
    forall i | 0 <= i < |sel| ensures Embed(base, sel, q)[sel[i]] == q[i] {
      EmbedAt(base, sel, q, i);
    }
  }

  /** p agrees with base outside the selected dimensions. */
  ghost predicate Beside(base: Vec, sel: seq<nat>, p: Vec) {
    |p| == |base| && forall d: nat :: d < |p| && d !in sel ==> p[d] == base[d]
  }

  lemma PickDetermines(base: Vec, sel: seq<nat>, p: Vec)
    requires Selection(|base|, sel) && Beside(base, sel, p)
    ensures p == Embed(base, sel, Pick(p, sel))
  {
    var e := Embed(base, sel, Pick(p, sel));
    EmbedPicks(base, sel, Pick(p, sel));
    forall d: nat | d < |p| ensures p[d] == e[d] {
      if d in sel {
        var i :| 0 <= i < |sel| && sel[i] == d;
        assert Pick(e, sel)[i] == Pick(p, sel)[i];
      }
    }
  }

  function SelectedRange(r: IdxRange, sel: seq<nat>): IdxRange
    requires WellFormed(r) && Selection(|r.begin|, sel)
  {
    IdxRange(Pick(r.begin, sel), Pick(r.end, sel), Pick(r.stride, sel))
  }

  lemma SelectedWellFormed(r: IdxRange, sel: seq<nat>)
    requires WellFormed(r) && Selection(|r.begin|, sel)
    ensures WellFormed(SelectedRange(r, sel))
  {
  }

  /** The indices that a traversal of the selected dimensions stands for: the others stay at their begin. */
  ghost predicate InSelected(r: IdxRange, sel: seq<nat>, p: Vec)
    requires WellFormed(r) && Selection(|r.begin|, sel)
  {
    SelectedWellFormed(r, sel);
    && Beside(r.begin, sel, p)
    && InRange(SelectedRange(r, sel), Pick(p, sel))
  }

  ghost predicate Threads(r: IdxRange, sel: seq<nat>, count: Vec, t: Vec) {
    WellFormed(r) && |count| == |r.begin| && Space(count, sel) && InBox(t, count)
  }

  lemma PickInBox(v: Vec, c: Vec, sel: seq<nat>)
    requires Within(sel, |c|) && |sel| >= 1 && Positive(c) && InBox(v, c)
    ensures Positive(Pick(c, sel)) && InBox(Pick(v, sel), Pick(c, sel))
  {
    forall k | 0 <= k < |sel| ensures Pick(c, sel)[k] >= 1 && Pick(v, sel)[k] < Pick(c, sel)[k] {
      assert v[sel[k]] < c[sel[k]];
    }
  }

  lemma SelectedThreads(count: Vec, sel: seq<nat>, t: Vec)
    requires Space(count, sel) && InBox(t, count)
    ensures var c, i := Pick(FoldedCount(count, sel), sel), Pick(FoldedIdx(t, count, sel), sel);
      Positive(c) && InBox(i, c) && Product(c) >= 1 && Linear(c, i) < Product(c)
    ensures Positive(Pick(count, sel)) && Product(Pick(count, sel)) >= 1
  {
    FoldInBox(t, count, sel);
    PickInBox(FoldedIdx(t, count, sel), FoldedCount(count, sel), sel);
    ProductPositive(Pick(FoldedCount(count, sel), sel));
    LinearInRange(Pick(FoldedCount(count, sel), sel), Pick(FoldedIdx(t, count, sel), sel));
    PickInBox(t, count, sel);
    ProductPositive(Pick(count, sel));
  }

  /** The numbers of slot `slot` out of n. The contiguous layout starts where a division among `unfolded` slots puts
      the start and ends where one among `folded` slots puts the end. */
  ghost predicate Takes(layout: Layout, n: nat, unfolded: nat, folded: nat, slot: nat, k: nat)
    requires unfolded >= 1 && folded >= 1
  {
    match layout
    case Strided => k % folded == slot
    case Contiguous => SlotStart(n, unfolded, slot) <= k < Min(SlotStart(n, folded, slot + 1), n)
  }

  lemma TakesLikeHandler(layout: Layout, n: nat, workers: nat, slot: nat, k: nat)
    requires k < n && slot < workers
    ensures Takes(layout, n, workers, workers, slot, k) <==> Handler(layout, n, workers, k) == slot
  {
    OneSlotEach(n, workers, k, slot);
  }

  /** Thread t gets the selected coordinates q in the flat traversal ... */
  ghost predicate HandlesQ(r: IdxRange, layout: Layout, sel: seq<nat>, count: Vec, t: Vec, q: Vec)
    requires Threads(r, sel, count, t)
  {
    SelectedThreads(count, sel, t);
    SelectedWellFormed(r, sel);
    var c, i, part := Pick(FoldedCount(count, sel), sel), Pick(FoldedIdx(t, count, sel), sel), SelectedRange(r, sel);
    && InRange(part, q)
    && Takes(layout, Product(Extents(part)), Product(Pick(count, sel)), Product(c), Linear(c, i), Number(part, q))
  }

  /** ... and in the tiled one. */
  ghost predicate HandlesTiledQ(r: IdxRange, layout: Layout, sel: seq<nat>, count: Vec, t: Vec, q: Vec)
    requires Threads(r, sel, count, t)
  {
    SelectedThreads(count, sel, t);
    SelectedWellFormed(r, sel);
    var c, i := Pick(FoldedCount(count, sel), sel), Pick(FoldedIdx(t, count, sel), sel);
    TiledMap.HandlesTiled(SelectedRange(r, sel), layout, c, i, q)
  }

  /** Thread t gets index p: the unselected coordinates of p are those of the begin. */
  ghost predicate HandlesSelected(r: IdxRange, layout: Layout, sel: seq<nat>, count: Vec, t: Vec, p: Vec)
    requires Threads(r, sel, count, t)
  {
    Beside(r.begin, sel, p) && HandlesQ(r, layout, sel, count, t, Pick(p, sel))
  }

  ghost predicate HandlesTiledSelected(r: IdxRange, layout: Layout, sel: seq<nat>, count: Vec, t: Vec, p: Vec)
    requires Threads(r, sel, count, t)
  {
    Beside(r.begin, sel, p) && HandlesTiledQ(r, layout, sel, count, t, Pick(p, sel))
  }

  /** Which numbers a slot takes, in the source's own arithmetic. */
  lemma TakesIs(layout: Layout, n: nat, unfolded: nat, folded: nat, slot: nat, k: nat)
    requires unfolded >= 1 && folded >= 1
    ensures Takes(layout, n, unfolded, folded, slot, k) <==>
      match layout
      case Strided => k % folded == slot
      case Contiguous =>
        slot * (n / unfolded) + Min(slot, n % unfolded) <= k
        && k < (slot + 1) * (n / folded) + Min(slot + 1, n % folded) && k < n
  {
    SlotStartIs(n, unfolded, slot);
    SlotStartIs(n, folded, slot + 1);
  }

  /** Which indices the flat traversal gives to thread t. */
  lemma HandlesSelectedIs(r: IdxRange, layout: Layout, sel: seq<nat>, count: Vec, t: Vec, p: Vec)
    requires Threads(r, sel, count, t)
    ensures var part, c, u := SelectedRange(r, sel), Pick(FoldedCount(count, sel), sel), Pick(count, sel);
      && WellFormed(part) && Product(u) >= 1 && Product(c) >= 1
      && (HandlesSelected(r, layout, sel, count, t, p) <==>
          |p| == |r.begin| && (forall d: nat :: d < |p| && d !in sel ==> p[d] == r.begin[d]) &&
          InRange(part, Pick(p, sel)) &&
          Takes(layout, Product(Extents(part)), Product(u), Product(c), Linear(c, Pick(FoldedIdx(t, count, sel), sel)),
                Number(part, Pick(p, sel))))
  {
    SelectedThreads(count, sel, t);
    SelectedWellFormed(r, sel);
  }

  lemma HandlesTiledSelectedIs(r: IdxRange, layout: Layout, sel: seq<nat>, count: Vec, t: Vec, p: Vec)
    requires Threads(r, sel, count, t)
    ensures var c, i := Pick(FoldedCount(count, sel), sel), Pick(FoldedIdx(t, count, sel), sel);
      var part := SelectedRange(r, sel);
      && TiledMap.Group(part, c, i)
      && (HandlesTiledSelected(r, layout, sel, count, t, p) <==>
          |p| == |r.begin| && (forall d: nat :: d < |p| && d !in sel ==> p[d] == r.begin[d]) &&
          TiledMap.HandlesTiled(part, layout, c, i, Pick(p, sel)))
  {
    SelectedThreads(count, sel, t);
    SelectedWellFormed(r, sel);
  }

  // ----- one thread's loop -----

  /** The visited indices have the picked coordinates. */
  ghost predicate Picks(base: Vec, sel: seq<nat>, picked: seq<Vec>, visited: seq<Vec>)
    requires Within(sel, |base|)
  {
    && |visited| == |picked|
    && forall i :: 0 <= i < |visited| ==> Beside(base, sel, visited[i]) && Pick(visited[i], sel) == picked[i]
  }

  /** Dereferencing puts the selected coordinates back among the others. */
  method EmbedAll(base: Vec, sel: seq<nat>, picked: seq<Vec>) returns (visited: seq<Vec>)
    requires Selection(|base|, sel) && forall q :: q in picked ==> |q| == |sel|
    requires forall i, j :: 0 <= i < j < |picked| ==> picked[i] != picked[j]
    ensures forall i, j :: 0 <= i < j < |visited| ==> visited[i] != visited[j]
    ensures forall p: Vec :: p in visited <==> Beside(base, sel, p) && Pick(p, sel) in picked
  {
    visited := [];
    for k := 0 to |picked|
      invariant Picks(base, sel, picked[..k], visited)
    {
      assert picked[k] in picked;
      PicksNext(base, sel, picked, k, visited);
      visited := visited + [Embed(base, sel, picked[k])];
    }
    assert picked[..|picked|] == picked;
    AllPicked(base, sel, picked, visited);
  }

  lemma PicksNext(base: Vec, sel: seq<nat>, picked: seq<Vec>, k: nat, visited: seq<Vec>)
    requires Selection(|base|, sel) && k < |picked| && |picked[k]| == |sel| && Picks(base, sel, picked[..k], visited)
    ensures Picks(base, sel, picked[..k + 1], visited + [Embed(base, sel, picked[k])])
  {
    EmbedPicks(base, sel, picked[k]);
  }

  lemma AllPicked(base: Vec, sel: seq<nat>, picked: seq<Vec>, visited: seq<Vec>)
    requires Selection(|base|, sel) && Picks(base, sel, picked, visited)
    requires forall i, j :: 0 <= i < j < |picked| ==> picked[i] != picked[j]
    ensures forall i, j :: 0 <= i < j < |visited| ==> visited[i] != visited[j]
    ensures forall p: Vec :: p in visited <==> Beside(base, sel, p) && Pick(p, sel) in picked
  {
    forall p: Vec ensures p in visited <==> Beside(base, sel, p) && Pick(p, sel) in picked {
      OnePicked(base, sel, picked, visited, p);
    }
  }

  lemma OnePicked(base: Vec, sel: seq<nat>, picked: seq<Vec>, visited: seq<Vec>, p: Vec)
    requires Selection(|base|, sel) && Picks(base, sel, picked, visited)
    ensures p in visited <==> Beside(base, sel, p) && Pick(p, sel) in picked
  {
    if p in visited {
      var i :| 0 <= i < |visited| && visited[i] == p;
      assert Pick(p, sel) == picked[i];
    } else if Beside(base, sel, p) && Pick(p, sel) in picked {
      var i :| 0 <= i < |picked| && picked[i] == Pick(p, sel);
      PickDetermines(base, sel, p);
      PickDetermines(base, sel, visited[i]);
      assert false;
    }
  }

  /** Folding leaves the faster selected counts alone. */
  lemma SameTail(count: Vec, sel: seq<nat>)
    requires Space(count, sel)
    ensures Pick(count, sel)[1..] == Pick(FoldedCount(count, sel), sel)[1..]
  {
    var rest, u, c := Rest(|count|, sel), Pick(count, sel), Pick(FoldedCount(count, sel), sel);
    forall i | 1 <= i < |sel| ensures u[i] == c[i] {
      NotInRest(|count|, sel, sel[i]);
      FoldAt(count, sel[0], rest, FirstCount(count, sel[0], rest), 1, sel[i]);
    }
    TailsEqual(u, c);
  }

  lemma TailsEqual(u: Vec, c: Vec)
    requires |u| == |c| >= 1 && forall i :: 1 <= i < |u| ==> u[i] == c[i]
    ensures u[1..] == c[1..]
  {
  }

  /** One thread's flat iteration over the selected dimensions. */
  method TraverseSelected(r: IdxRange, layout: Layout, sel: seq<nat>, count: Vec, t: Vec) returns (visited: seq<Vec>)
    requires Threads(r, sel, count, t)
    ensures forall p: Vec :: p in visited <==> HandlesSelected(r, layout, sel, count, t, p)
    ensures forall i, j :: 0 <= i < j < |visited| ==> visited[i] != visited[j]
  {
    var picked := TraversePicked(r, layout, sel, count, t);
    visited := EmbedAll(r.begin, sel, picked);
  }

  method TraversePicked(r: IdxRange, layout: Layout, sel: seq<nat>, count: Vec, t: Vec) returns (picked: seq<Vec>)
    requires Threads(r, sel, count, t)
    ensures forall q: Vec :: q in picked <==> HandlesQ(r, layout, sel, count, t, q)
    ensures forall q: Vec :: q in picked ==> |q| == |sel|
    ensures forall i, j :: 0 <= i < j < |picked| ==> picked[i] != picked[j]
  {
    var threadIdx := MapIdx(t, count, sel);
    var numThreads := MapCount(count, sel);
    SelectedThreads(count, sel, t);
    SelectedWellFormed(r, sel);
    SameTail(count, sel);
    var part := SelectedRange(r, sel);
    picked := TraversePart(part, layout, Pick(count, sel), Pick(numThreads, sel), Pick(threadIdx, sel));
  }

  method TraversePart(part: IdxRange, layout: Layout, unfolded: Vec, numThreads: Vec, threadIdx: Vec)
    returns (picked: seq<Vec>)
    requires WellFormed(part) && Positive(numThreads) && InBox(threadIdx, numThreads)
    requires Positive(unfolded) && |unfolded| == |numThreads| && unfolded[1..] == numThreads[1..]
    ensures Product(numThreads) >= 1 && Product(unfolded) >= 1
    ensures forall q: Vec :: q in picked <==> InRange(part, q) && Takes(layout, Product(Extents(part)),
      Product(unfolded), Product(numThreads), Linear(numThreads, threadIdx), Number(part, q))
    ensures forall i, j :: 0 <= i < j < |picked| ==> picked[i] != picked[j]
  {
    ProductPositive(numThreads);
    ProductPositive(unfolded);
    match layout
    case Strided => picked := Traverse(part, Strided, numThreads, threadIdx);
    case Contiguous => picked := TraverseSlots(part, unfolded, numThreads, threadIdx);
  }

  /** begin() of the contiguous layout counts its slots with the thread count before folding, end() with the one
      after it. */
  method TraverseSlots(part: IdxRange, unfolded: Vec, numThreads: Vec, threadIdx: Vec) returns (picked: seq<Vec>)
    requires WellFormed(part) && |threadIdx| == |unfolded| == |numThreads| >= 1 && unfolded[1..] == numThreads[1..]
    requires Product(numThreads) >= 1 && Product(unfolded) >= 1
    ensures forall q: Vec :: q in picked <==> InRange(part, q) && Takes(Contiguous, Product(Extents(part)),
      Product(unfolded), Product(numThreads), Linear(numThreads, threadIdx), Number(part, q))
    ensures forall i, j :: 0 <= i < j < |picked| ==> picked[i] != picked[j]
  {
    var n := ProductOf(Extents(part));
    var slots := ProductOf(unfolded);
    var numWorkerSlots := ProductOf(numThreads);
    var slot := Linearize(unfolded, threadIdx);
    var linearSlotIdx := Linearize(numThreads, threadIdx);
    var current := StartOfSlot(n, slots, slot);
    var linearEnd := StartOfSlot(n, numWorkerSlots, linearSlotIdx + 1);
    SameLinear(unfolded, numThreads, threadIdx);
    picked := TraverseSpan(part, current, Min(linearEnd, n));
  }

  /** The first numbers of the slots: each gets base of them, the first rem ones one more. */
  method StartOfSlot(n: nat, slots: nat, slot: nat) returns (start: nat)
    requires slots >= 1
    ensures start == SlotStart(n, slots, slot)
  {
    var base, rem := n / slots, n % slots;
    start := slot * base + Min(slot, rem);
    TimesIsProduct(slot, base);
  }

  lemma SameLinear(u: Vec, c: Vec, idx: Vec)
    requires |idx| == |u| == |c| >= 1 && u[1..] == c[1..]
    ensures Linear(u, idx) == Linear(c, idx)
  {
    FirstExtentIrrelevant(u[0], c[0], c[1..], idx);
    assert u == [u[0]] + c[1..] && c == [c[0]] + c[1..];
  }

  /** One thread's tiled iteration over the selected dimensions. */
  method TraverseTiledSelected(r: IdxRange, layout: Layout, sel: seq<nat>, count: Vec, t: Vec)
    returns (visited: seq<Vec>)
    requires Threads(r, sel, count, t)
    ensures forall p: Vec :: p in visited <==> HandlesTiledSelected(r, layout, sel, count, t, p)
    ensures forall i, j :: 0 <= i < j < |visited| ==> visited[i] != visited[j]
  {
    var picked := TraverseTiledPicked(r, layout, sel, count, t);
    visited := EmbedAll(r.begin, sel, picked);
  }

  method TraverseTiledPicked(r: IdxRange, layout: Layout, sel: seq<nat>, count: Vec, t: Vec)
    returns (picked: seq<Vec>)
    requires Threads(r, sel, count, t)
    ensures forall q: Vec :: q in picked <==> HandlesTiledQ(r, layout, sel, count, t, q)
    ensures forall q: Vec :: q in picked ==> |q| == |sel|
    ensures forall i, j :: 0 <= i < j < |picked| ==> picked[i] != picked[j]
  {
    var threadIdx := MapIdx(t, count, sel);
    var numThreads := MapCount(count, sel);
    SelectedThreads(count, sel, t);
    SelectedWellFormed(r, sel);
    picked := TiledMap.TraverseTiled(SelectedRange(r, sel), layout, Pick(numThreads, sel), Pick(threadIdx, sel));
  }

  // ----- each selected index to exactly one thread -----

  /** Folded indices differ exactly when their selected coordinates do. */
  lemma SameFolded(t: Vec, count: Vec, sel: seq<nat>, q: Vec)
    requires Space(count, sel) && InBox(t, count) && |q| == |sel|
    ensures Pick(FoldedIdx(t, count, sel), sel) == q
       <==> FoldedIdx(t, count, sel) == Embed(Same(|count|, 0), sel, q)
  {
    var f, zero := FoldedIdx(t, count, sel), Same(|count|, 0);
    EmbedPicks(zero, sel, q);
    if Pick(f, sel) == q {
      forall d: nat | d < |f| && d !in sel ensures f[d] == 0 {
        SelectedOrFolded(|count|, sel, d);
      }
      PickDetermines(zero, sel, f);
    }
  }

  lemma EmbedInBox(base: Vec, sel: seq<nat>, q: Vec, c: Vec)
    requires |sel| == |q| && Selection(|base|, sel) && InBox(base, c) && InBox(q, Pick(c, sel))
    ensures InBox(Embed(base, sel, q), c)
  {
    var e := Embed(base, sel, q);
    EmbedPicks(base, sel, q);
    forall d: nat | d < |c| ensures e[d] < c[d] {
      if d in sel {
        var i :| 0 <= i < |sel| && sel[i] == d;
        assert Pick(e, sel)[i] == q[i] < Pick(c, sel)[i];
      } else {
        assert e[d] == base[d];
      }
    }
  }

  lemma ZeroInBox(c: Vec)
    requires Positive(c)
    ensures InBox(Same(|c|, 0), c)
  {
  }

  lemma OwnerOf(count: Vec, sel: seq<nat>, q: Vec) returns (owner: Vec)
    requires Space(count, sel) && AtMostOneFolded(count, Rest(|count|, sel))
    requires Positive(FoldedCount(count, sel)) && InBox(q, Pick(FoldedCount(count, sel), sel))
    ensures InBox(owner, count) && FoldedIdx(owner, count, sel) == Embed(Same(|count|, 0), sel, q)
  {
    ZeroInBox(FoldedCount(count, sel));
    EmbedInBox(Same(|count|, 0), sel, q, FoldedCount(count, sel));
    owner := FoldOnto(count, sel, Embed(Same(|count|, 0), sel, q));
  }

  /** The one thread with the given selected coordinates after folding. */
  lemma ThreadWith(count: Vec, sel: seq<nat>, q: Vec) returns (owner: Vec)
    requires Space(count, sel) && AtMostOneFolded(count, Rest(|count|, sel))
    requires Positive(FoldedCount(count, sel)) && InBox(q, Pick(FoldedCount(count, sel), sel))
    ensures InBox(owner, count)
    ensures forall t: Vec :: InBox(t, count) ==> (Pick(FoldedIdx(t, count, sel), sel) == q <==> t == owner)
  {
    owner := OwnerOf(count, sel, q);
    forall t: Vec | InBox(t, count) ensures Pick(FoldedIdx(t, count, sel), sel) == q <==> t == owner {
      OnlyThread(count, sel, q, owner, t);
    }
  }

  lemma OnlyThread(count: Vec, sel: seq<nat>, q: Vec, owner: Vec, t: Vec)
    requires Space(count, sel) && AtMostOneFolded(count, Rest(|count|, sel)) && |q| == |sel|
    requires InBox(owner, count) && FoldedIdx(owner, count, sel) == Embed(Same(|count|, 0), sel, q) && InBox(t, count)
    ensures Pick(FoldedIdx(t, count, sel), sel) == q <==> t == owner
  {
    SameFolded(t, count, sel, q);
    if FoldedIdx(t, count, sel) == FoldedIdx(owner, count, sel) {
      FoldedApart(t, owner, count, sel);
    }
  }

  lemma SelectedCounts(count: Vec, sel: seq<nat>)
    requires Space(count, sel)
    ensures Positive(FoldedCount(count, sel)) && Positive(Pick(FoldedCount(count, sel), sel))
  {
    FoldInBox(Same(|count|, 0), count, sel);
    SelectedThreads(count, sel, Same(|count|, 0));
  }

  /** When the flat traversal is a partition: folding must keep the threads apart, and the contiguous layout, which
      counts slots with both thread counts, cannot stand any folding. */
  ghost predicate FlatFolds(layout: Layout, count: Vec, sel: seq<nat>)
    requires Space(count, sel)
  {
    var rest := Rest(|count|, sel);
    match layout
    case Strided => AtMostOneFolded(count, rest)
    case Contiguous => forall i :: 0 <= i < |rest| ==> count[rest[i]] == 1
  }

  /** The selected index p of some range that goes with these threads. */
  ghost predicate Visits(r: IdxRange, sel: seq<nat>, count: Vec, p: Vec) {
    WellFormed(r) && |count| == |r.begin| && Space(count, sel) && InSelected(r, sel, p)
  }

  ghost predicate Owns(r: IdxRange, layout: Layout, sel: seq<nat>, count: Vec, p: Vec, owner: Vec)
    requires Visits(r, sel, count, p)
  {
    && InBox(owner, count)
    && forall t: Vec :: InBox(t, count) ==> (HandlesSelected(r, layout, sel, count, t, p) <==> t == owner)
  }

  ghost predicate OwnsTiled(r: IdxRange, layout: Layout, sel: seq<nat>, count: Vec, p: Vec, owner: Vec)
    requires Visits(r, sel, count, p)
  {
    && InBox(owner, count)
    && forall t: Vec :: InBox(t, count) ==> (HandlesTiledSelected(r, layout, sel, count, t, p) <==> t == owner)
  }

  /** Without a difference between the counts a thread takes what the flat traversal of the part gives it. */
  lemma AgreedSlots(r: IdxRange, layout: Layout, sel: seq<nat>, count: Vec, t: Vec, q: Vec)
    requires Threads(r, sel, count, t) && FlatFolds(layout, count, sel)
    requires WellFormed(SelectedRange(r, sel)) && InRange(SelectedRange(r, sel), q)
    ensures var c, i := Pick(FoldedCount(count, sel), sel), Pick(FoldedIdx(t, count, sel), sel);
      && Positive(c) && InBox(i, c) && Product(c) >= 1
      && (HandlesQ(r, layout, sel, count, t, q)
          <==> Handles(SelectedRange(r, sel), layout, Product(c), Linear(c, i), q))
  {
    var c, i, part := Pick(FoldedCount(count, sel), sel), Pick(FoldedIdx(t, count, sel), sel), SelectedRange(r, sel);
    SelectedThreads(count, sel, t);
    if layout == Contiguous {
      NothingToFold(count, sel);
      NumberingIsBijective(part, q, 0);
      TakesLikeHandler(layout, Product(Extents(part)), Product(c), Linear(c, i), Number(part, q));
    }
  }

  lemma FlatFoldsApart(layout: Layout, count: Vec, sel: seq<nat>)
    requires Space(count, sel) && FlatFolds(layout, count, sel)
    ensures AtMostOneFolded(count, Rest(|count|, sel))
  {
  }

  /** Each index of the selected part goes to exactly one thread, in the flat traversal ... */
  lemma OneThreadEachSelected(r: IdxRange, layout: Layout, sel: seq<nat>, count: Vec, p: Vec) returns (owner: Vec)
    requires Visits(r, sel, count, p) && FlatFolds(layout, count, sel)
    ensures Owns(r, layout, sel, count, p, owner)
  {
    SelectedCounts(count, sel);
    SelectedWellFormed(r, sel);
    FlatFoldsApart(layout, count, sel);
    var c := Pick(FoldedCount(count, sel), sel);
    var q := OneThreadEach(SelectedRange(r, sel), layout, c, Pick(p, sel));
    owner := ThreadWith(count, sel, q);
    forall t: Vec | InBox(t, count) ensures HandlesSelected(r, layout, sel, count, t, p) <==> t == owner {
      AgreedSlots(r, layout, sel, count, t, Pick(p, sel));
    }
  }

  /** ... and in the tiled one. */
  lemma OneThreadEachTiledSelected(r: IdxRange, layout: Layout, sel: seq<nat>, count: Vec, p: Vec)
    returns (owner: Vec)
    requires Visits(r, sel, count, p) && AtMostOneFolded(count, Rest(|count|, sel))
    ensures OwnsTiled(r, layout, sel, count, p, owner)
  {
    SelectedCounts(count, sel);
    SelectedWellFormed(r, sel);
    var c := Pick(FoldedCount(count, sel), sel);
    var q := TiledMap.OneThreadEachTiled(SelectedRange(r, sel), layout, c, Pick(p, sel));
    owner := ThreadWith(count, sel, q);
    forall t: Vec | InBox(t, count) ensures HandlesTiledSelected(r, layout, sel, count, t, p) <==> t == owner {
      SelectedThreads(count, sel, t);
    }
  }

  // ----- where it is not -----

  /** A range with as many indices as threads in the selected dimensions. */
  function CountRange(count: Vec, sel: seq<nat>): IdxRange
    requires Selection(|count|, sel)
  {
    IdxRange(Same(|count|, 0), FoldedCount(count, sel), Same(|count|, 1))
  }

  ghost predicate Counts(part: IdxRange, c: Vec) {
    && |part.begin| == |part.end| == |part.stride| == |c| && Positive(c)
    && forall d :: 0 <= d < |c| ==> part.begin[d] == 0 && part.end[d] == c[d] && part.stride[d] == 1
  }

  lemma CountRangeCounts(count: Vec, sel: seq<nat>)
    requires Space(count, sel)
    ensures WellFormed(CountRange(count, sel))
    ensures Counts(SelectedRange(CountRange(count, sel), sel), Pick(FoldedCount(count, sel), sel))
  {
    SelectedCounts(count, sel);
    CountsPicked(FoldedCount(count, sel), sel);
  }

  lemma CountsPicked(c: Vec, sel: seq<nat>)
    requires Selection(|c|, sel) && Positive(Pick(c, sel))
    ensures var r := IdxRange(Same(|c|, 0), c, Same(|c|, 1));
      WellFormed(r) && Counts(SelectedRange(r, sel), Pick(c, sel))
  {
    assert sel[0] < |c|;
  }

  lemma StepsOfCounts(part: IdxRange, c: Vec, q: Vec)
    requires Counts(part, c) && InBox(q, c)
    ensures WellFormed(part) && InRange(part, q) && Extents(part) == c && Number(part, q) == Linear(c, q)
  {
    forall d | 0 <= d < |q| ensures q[d] < part.end[d] && (q[d] - 0) % 1 == 0 {
    }
    assert Extents(part) == c && Steps(part, q) == q;
  }

  /** There a thread's own coordinates fall to it, in the flat strided traversal ... */
  lemma OwnNumber(part: IdxRange, c: Vec, q: Vec)
    requires Counts(part, c) && InBox(q, c)
    ensures WellFormed(part) && Product(c) >= 1 && InRange(part, q)
    ensures Takes(Strided, Product(Extents(part)), 1, Product(c), Linear(c, q), Number(part, q))
  {
    StepsOfCounts(part, c, q);
    ProductPositive(c);
    LinearInRange(c, q);
    OneNumberEach(Strided, Product(c), Product(c), Linear(c, q));
  }

  /** ... and in the tiled one. */
  lemma OwnCoordinates(part: IdxRange, layout: Layout, c: Vec, q: Vec)
    requires Counts(part, c) && InBox(q, c)
    ensures WellFormed(part) && TiledMap.HandlesTiled(part, layout, c, q, q)
  {
    forall d | 0 <= d < |q| ensures TiledMap.Falls(part, layout, c, q, d, q[d]) {
      assert q[d] < c[d];
      OneNumberEach(layout, c[d], c[d], q[d]);
    }
  }

  /** Two threads that fold together share the index with their coordinates. */
  lemma SharedIndex(layout: Layout, sel: seq<nat>, count: Vec) returns (a: Vec, b: Vec, p: Vec)
    requires Space(count, sel) && !AtMostOneFolded(count, Rest(|count|, sel))
    ensures a != b && InBox(a, count) && InBox(b, count) && Visits(CountRange(count, sel), sel, count, p)
    ensures var r := CountRange(count, sel);
      && HandlesSelected(r, Strided, sel, count, a, p) && HandlesSelected(r, Strided, sel, count, b, p)
      && HandlesTiledSelected(r, layout, sel, count, a, p) && HandlesTiledSelected(r, layout, sel, count, b, p)
  {
    a, b := FoldedTogether(count, sel);
    var r, q := CountRange(count, sel), Pick(FoldedIdx(a, count, sel), sel);
    p := Embed(r.begin, sel, q);
    CountRangeCounts(count, sel);
    SelectedThreads(count, sel, a);
    EmbedPicks(r.begin, sel, q);
    OwnNumber(SelectedRange(r, sel), Pick(FoldedCount(count, sel), sel), q);
    OwnCoordinates(SelectedRange(r, sel), layout, Pick(FoldedCount(count, sel), sel), q);
  }

  /** With more slots at the end than at the start, slot 0 ends after number 0 and slot 1 starts behind number 1. */
  lemma NobodysNumber(unfolded: nat, folded: nat, slot: nat)
    requires 1 <= unfolded < folded
    ensures !Takes(Contiguous, folded, unfolded, folded, slot, 1)
  {
    SecondSlot(folded, unfolded);
    if slot >= 1 {
      SlotsOrdered(folded, unfolded, 1, slot);
    }
    DivModUnique(folded, folded, 1, 0);
    TimesIsProduct(slot + 1, 1);
  }

  lemma FoldedProduct(count: Vec, sel: seq<nat>, i: nat)
    requires Space(count, sel) && i < |Rest(|count|, sel)| && count[Rest(|count|, sel)[i]] > 1
    ensures 1 <= Product(Pick(count, sel)) < Product(Pick(FoldedCount(count, sel), sel))
  {
    SelectedThreads(count, sel, Same(|count|, 0));
    FoldingGrows(count, sel, i);
    SameTail(count, sel);
    LargerFirst(Pick(count, sel), Pick(FoldedCount(count, sel), sel));
  }

  lemma LargerFirst(u: Vec, c: Vec)
    requires Positive(u) && |u| == |c| && u[1..] == c[1..] && u[0] < c[0]
    ensures 1 <= Product(u) < Product(c)
  {
    var p := Product(u[1..]);
    ProductPositive(u[1..]);
    ProductPositive(u);
    MulLeft(u[0] + 1, c[0], p);
    Spread(u[0], 1, p);
  }

  /** An index that no thread gets in the contiguous layout. */
  lemma LostIndex(sel: seq<nat>, count: Vec, i: nat) returns (p: Vec)
    requires Space(count, sel) && i < |Rest(|count|, sel)| && count[Rest(|count|, sel)[i]] > 1
    ensures Visits(CountRange(count, sel), sel, count, p)
    ensures forall t: Vec :: InBox(t, count) ==> !HandlesSelected(CountRange(count, sel), Contiguous, sel, count, t, p)
  {
    var r, c, u := CountRange(count, sel), Pick(FoldedCount(count, sel), sel), Product(Pick(count, sel));
    CountRangeCounts(count, sel);
    FoldedProduct(count, sel, i);
    var part := SelectedRange(r, sel);
    StepsOfCounts(part, c, Same(|c|, 0));
    NumbersReachRange(part, 1);
    var q := At(part, Unlinear(c, 1));
    p := Embed(r.begin, sel, q);
    EmbedPicks(r.begin, sel, q);
    forall t: Vec | InBox(t, count) ensures !HandlesSelected(r, Contiguous, sel, count, t, p) {
      NobodysNumber(u, Product(c), Linear(c, Pick(FoldedIdx(t, count, sel), sel)));
    }
  }

  /** Every range's selected indices go to exactly one thread each under the stated condition only: the flat
      traversal ... */
  lemma FlatPartitionExactlyWhen(layout: Layout, sel: seq<nat>, count: Vec)
    requires Space(count, sel)
    ensures (forall r: IdxRange, p: Vec :: Visits(r, sel, count, p) ==>
               exists owner: Vec :: Owns(r, layout, sel, count, p, owner))
            <==> FlatFolds(layout, count, sel)
  {
    if FlatFolds(layout, count, sel) {
      forall r: IdxRange, p: Vec | Visits(r, sel, count, p)
        ensures exists owner: Vec :: Owns(r, layout, sel, count, p, owner)
      {
        var owner := OneThreadEachSelected(r, layout, sel, count, p);
      }
    } else if layout == Strided {
      var a, b, p := SharedIndex(layout, sel, count);
      assert !exists owner: Vec :: Owns(CountRange(count, sel), layout, sel, count, p, owner);
    } else {
      SelectedCounts(count, sel);
      var i :| 0 <= i < |Rest(|count|, sel)| && count[Rest(|count|, sel)[i]] != 1;
      var p := LostIndex(sel, count, i);
      assert !exists owner: Vec :: Owns(CountRange(count, sel), layout, sel, count, p, owner);
    }
  }

  /** ... and the tiled one. */
  lemma TiledPartitionExactlyWhen(layout: Layout, sel: seq<nat>, count: Vec)
    requires Space(count, sel)
    ensures (forall r: IdxRange, p: Vec :: Visits(r, sel, count, p) ==>
               exists owner: Vec :: OwnsTiled(r, layout, sel, count, p, owner))
            <==> AtMostOneFolded(count, Rest(|count|, sel))
  {
    if AtMostOneFolded(count, Rest(|count|, sel)) {
      forall r: IdxRange, p: Vec | Visits(r, sel, count, p)
        ensures exists owner: Vec :: OwnsTiled(r, layout, sel, count, p, owner)
      {
        var owner := OneThreadEachTiledSelected(r, layout, sel, count, p);
      }
    } else {
      var a, b, p := SharedIndex(layout, sel, count);
      assert !exists owner: Vec :: OwnsTiled(CountRange(count, sel), layout, sel, count, p, owner);
    }
  }
}
