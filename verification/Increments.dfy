/** The second kernel of the scan: one increment per SIMD pack, the packs shared out among the workers. */
module Increments {
  import opened Arithmetic
  import opened IndexMap

  // ----- which increment an element gets -----

  /** Every element of a pack lies in the chunk of the pack's first element, the one the kernel looks up. */
  ghost predicate PacksStayInChunks(w: nat, size: nat)
    requires size >= 1
  {
    forall p: nat, x: nat {:trigger BlockOf(Times(p, w) + x, size)} ::
      x < w ==> BlockOf(Times(p, w) + x, size) == BlockOf(Times(p, w), size)
  }

  lemma PackRuleExact(w: nat, size: nat)
    requires w >= 1 && size >= 1
    ensures PacksStayInChunks(w, size) <==> size % w == 0
  {
    if size % w == 0 {
      TimesIsProduct(size / w, w);
      forall p: nat, x: nat {:trigger BlockOf(Times(p, w) + x, size)} | x < w
        ensures BlockOf(Times(p, w) + x, size) == BlockOf(Times(p, w), size)
      {
        PackInChunk(w, size, size / w, p, x);
      }
      assert PacksStayInChunks(w, size);
    } else {
      var p, x := StraddlingPack(w, size);
      assert BlockOf(Times(p, w) + x, size) != BlockOf(Times(p, w), size);
    }
  }

  /** The pack that straddles the end of the first chunk. */
  lemma StraddlingPack(w: nat, size: nat) returns (p: nat, x: nat)
    requires w >= 1 && size >= 1 && size % w != 0
    ensures x < w && BlockOf(Times(p, w) + x, size) == 1 && BlockOf(Times(p, w), size) == 0
  {
    p, x := size / w, size % w;
    TimesIsProduct(p, w);
    assert Times(p, w) + x == size;
  }

  lemma PackInChunk(w: nat, size: nat, k: nat, p: nat, x: nat)
    requires w >= 1 && size >= 1 && size == Times(k, w) && x < w
    ensures BlockOf(Times(p, w) + x, size) == BlockOf(Times(p, w), size)
  {
    var c := BlockOf(Times(p, w), size);
    InBlock(Times(p, w), c, size);
    InBlock(Times(p, w) + x, c, size);
    TimesTimes(c, k, w);
    TimesAdd(Times(c, k), k, w);
    TimesOrder(p, Times(c, k) + k, w);
  }

  /** Packs handled in full SIMD calls: perCall per call, every worker making the same number of calls. */
  function NumPacks(m: nat, w: nat, perCall: nat, workers: nat): nat
    requires w >= 1 && perCall >= 1 && workers >= 1
  {
    if w == 1 then 0 else Times(Times(Calls(m, w, perCall, workers), perCall), workers)
  }

  function Calls(m: nat, w: nat, perCall: nat, workers: nat): nat
    requires w >= 1 && perCall >= 1 && workers >= 1
  {
    MulAtLeast(w, perCall);
    m / (w * perCall) / workers
  }

  /** The packs end inside the data and leave less than one more round of calls. */
  lemma PacksInside(m: nat, w: nat, perCall: nat, workers: nat)
    requires w >= 1 && perCall >= 1 && workers >= 1
    ensures Times(NumPacks(m, w, perCall, workers), w) <= m
    ensures w > 1 ==> m < Times(NumPacks(m, w, perCall, workers), w) + Times(workers, w * perCall)
  {
    MulAtLeast(w, perCall);
    RoundsCover(m, w * perCall, workers);
    RoundOrder(Calls(m, w, perCall, workers), perCall, workers, w);
  }

  lemma RoundsCover(m: nat, e: nat, workers: nat)
    requires e >= 1 && workers >= 1
    ensures var c := Times(m / e / workers, workers); Times(c, e) <= m < Times(c, e) + Times(workers, e)
  {
    var q := m / e;
    var loops := q / workers;
    var c := Times(loops, workers);
    Quotient(m, e);
    Quotient(q, workers);
    TimesAdd(c, workers, e);
    if c < q { TimesOrder(c, q, e); }
    if q + 1 < c + workers { TimesOrder(q + 1, c + workers, e); }
  }

  lemma Quotient(a: nat, b: nat)
    requires b >= 1
    ensures Times(a / b, b) <= a < Times(a / b, b) + b && Times(a / b + 1, b) == Times(a / b, b) + b
  {
    TimesIsProduct(a / b, b);
  }

  lemma RoundOrder(loops: nat, perCall: nat, workers: nat, w: nat)
    ensures Times(Times(Times(loops, perCall), workers), w) == Times(Times(loops, workers), w * perCall)
  {
    TimesIsProduct(perCall, w);
    TimesTimes(Times(loops, workers), perCall, w);
    TimesTimes(loops, workers, perCall);
    TimesSwap(workers, perCall);
    TimesTimes(loops, perCall, workers);
  }

  lemma RemainderBegin(loops: nat, w: nat, perCall: nat, workers: nat)
    ensures loops * (w * perCall) * workers == Times(Times(Times(loops, perCall), workers), w)
  {
    RoundOrder(loops, perCall, workers, w);
    TimesIsProduct(loops, workers);
    TimesIsProduct(loops * workers, w * perCall);
    Regrouped(loops, w * perCall, workers);
  }

  lemma Regrouped(x: nat, y: nat, z: nat)
    ensures x * y * z == (x * z) * y
  {
  }

  /** What the kernel adds to element i: in a pack, the increment of the pack's first element. */
  function Increment(sums: seq<int>, size: nat, w: nat, packsEnd: nat, i: nat): int
    requires w >= 1 && size >= 1 && forall j: nat :: j <= i ==> BlockOf(j, size) < |sums|
  {
    sums[BlockOf(if i < packsEnd then Start(i, w) else i, size)]
  }

  /** The looked-up position is the source's quotient; the packs end at its remainderBegin. */
  lemma IncrementLookup(sums: seq<int>, size: nat, w: nat, packsEnd: nat, i: nat)
    requires w >= 1 && size >= 1 && forall j: nat :: j <= i ==> BlockOf(j, size) < |sums|
    ensures var j := if i < packsEnd then i / w * w else i;
      0 <= j / size < |sums| && Increment(sums, size, w, packsEnd, i) == sums[j / size]
  {
    InBlock(i, BlockOf(i, w), w);
    BlockOfIsQuotient(i, w);
    TimesIsProduct(i / w, w);
    BlockOfIsQuotient(if i < packsEnd then Start(i, w) else i, size);
  }

  lemma PacksEnd(m: nat, w: nat, perCall: nat, workers: nat)
    requires w >= 1 && perCall >= 1 && workers >= 1
    ensures w * perCall >= 1
    ensures Times(NumPacks(m, w, perCall, workers), w)
         == if w == 1 then 0 else m / (w * perCall) / workers * (w * perCall) * workers
  {
    MulAtLeast(w, perCall);
    RemainderBegin(Calls(m, w, perCall, workers), w, perCall, workers);
  }

  /** The kernel adds to each of n elements the increment of the element's own chunk. */
  ghost predicate OwnIncrements(size: nat, w: nat, perCall: nat, workers: nat, n: nat, sums: seq<int>)
    requires w >= 1 && size >= 1 && perCall >= 1 && workers >= 1 && n <= |sums|
  {
    forall i: nat :: i < n ==>
      Increment(sums, size, w, Times(NumPacks(n, w, perCall, workers), w), i) == sums[BlockOf(i, size)]
  }

  /** One increment per pack is right for all data exactly when the width divides the chunk. */
  lemma OwnIncrementsExactlyWhen(size: nat, w: nat, perCall: nat, workers: nat)
    requires w >= 1 && size >= 1 && perCall >= 1 && workers >= 1
    ensures (forall n: nat, sums: seq<int> :: n <= |sums| ==> OwnIncrements(size, w, perCall, workers, n, sums))
            <==> size % w == 0
  {
    if size % w == 0 {
      forall n: nat, sums: seq<int> | n <= |sums| ensures OwnIncrements(size, w, perCall, workers, n, sums) {
        forall i: nat | i < n ensures BlockOf(Start(i, w), size) == BlockOf(i, size) {
          SameChunkAsPack(size, w, i);
        }
      }
    } else {
      var n, sums := WrongIncrement(size, w, perCall, workers);
      assert !OwnIncrements(size, w, perCall, workers, n, sums);
    }
  }

  lemma SameChunkAsPack(size: nat, w: nat, i: nat)
    requires w >= 1 && size >= 1 && size % w == 0
    ensures BlockOf(Start(i, w), size) == BlockOf(i, size)
  {
    var p := BlockOf(i, w);
    InBlock(i, p, w);
    TimesIsProduct(size / w, w);
    PackInChunk(w, size, size / w, p, i - Times(p, w));
  }

  /** Data on which the straddling pack gives an element the increment of the chunk before its own. */
  lemma WrongIncrement(size: nat, w: nat, perCall: nat, workers: nat) returns (n: nat, sums: seq<int>)
    requires w >= 1 && size >= 1 && perCall >= 1 && workers >= 1 && size % w != 0
    ensures n <= |sums| && !OwnIncrements(size, w, perCall, workers, n, sums)
  {
    var p, x := StraddlingPack(w, size);
    n := FullRounds(p, w, perCall, workers);
    sums := seq(n, c => c);
    var i := Times(p, w) + x;
    StartOf(p, x, w);
    assert Increment(sums, size, w, Times(NumPacks(n, w, perCall, workers), w), i) == 0;
    assert sums[BlockOf(i, size)] == 1;
  }

  /** So many elements that the SIMD calls cover exactly them, pack p among them. */
  lemma FullRounds(p: nat, w: nat, perCall: nat, workers: nat) returns (n: nat)
    requires w > 1 && perCall >= 1 && workers >= 1
    ensures n == Times(NumPacks(n, w, perCall, workers), w) && Times(p, w) + w <= n
  {
    var e := w * perCall;
    MulAtLeast(w, perCall);
    var c := Times(p + 1, workers);
    n := Times(c, e);
    TimesOrder(c, c + 1, e);
    TimesOrder(p + 1, p + 2, workers);
    RoundOrder(p + 1, perCall, workers, w);
    AtLeastOnce(p + 1, perCall);
    AtLeastOnce(Times(p + 1, perCall), workers);
    if p + 1 < NumPacks(n, w, perCall, workers) {
      TimesOrder(p + 1, NumPacks(n, w, perCall, workers), w);
    }
  }

  lemma AtLeastOnce(a: nat, b: nat)
    requires b >= 1
    ensures Times(a, b) >= a
  {
    TimesIsProduct(a, b);
    MulLeft(1, b, a);
  }

  // ----- the packs of one worker -----

  /** The c-th pack of a worker that makes `own` pack steps; every worker makes as many. */
  function PackAt(layout: Layout, own: nat, workers: nat, slot: nat, c: nat): nat {
    match layout
    case Strided => slot + Times(c, workers)
    case Contiguous => Times(slot, own) + c
  }

  lemma PackPosition(layout: Layout, own: nat, workers: nat, slot: nat, c: nat)
    ensures PackAt(layout, own, workers, slot, c) ==
            match layout case Strided => slot + c * workers case Contiguous => slot * own + c
  {
    TimesIsProduct(c, workers);
    TimesIsProduct(slot, own);
  }

  /** A worker's packs are its first `own` positions, and no other pack is its. */
  lemma OwnPacks(layout: Layout, own: nat, workers: nat, slot: nat, k: nat)
    requires slot < workers
    ensures k < Times(own, workers) && Handler(layout, Times(own, workers), workers, k) == slot
            <==> exists c: nat :: c < own && PackAt(layout, own, workers, slot, c) == k
  {
    match layout
    case Strided => StridedPacks(own, workers, slot, k);
    case Contiguous => ContiguousPacks(own, workers, slot, k);
  }

  lemma StridedPacks(own: nat, workers: nat, slot: nat, k: nat)
    requires slot < workers
    ensures k < Times(own, workers) && k % workers == slot
            <==> exists c: nat :: c < own && PackAt(Strided, own, workers, slot, c) == k
  {
    forall c: nat | c < own && PackAt(Strided, own, workers, slot, c) == k
      ensures k < Times(own, workers) && k % workers == slot
    {
      TimesIsProduct(c, workers);
      DivModUnique(k, workers, c, slot);
      TimesOrder(c, own, workers);
    }
    if k < Times(own, workers) && k % workers == slot {
      StridedPosition(own, workers, slot, k);
    }
  }

  lemma StridedPosition(own: nat, workers: nat, slot: nat, k: nat)
    requires slot < workers && k < Times(own, workers) && k % workers == slot
    ensures k / workers < own && PackAt(Strided, own, workers, slot, k / workers) == k
  {
    TimesIsProduct(k / workers, workers);
    TimesIsProduct(own, workers);
    QuotientBelow(k, workers, own);
  }

  lemma ContiguousPacks(own: nat, workers: nat, slot: nat, k: nat)
    requires slot < workers
    ensures k < Times(own, workers) && SlotOf(Times(own, workers), workers, k, workers) == slot
            <==> exists c: nat :: c < own && PackAt(Contiguous, own, workers, slot, c) == k
  {
    var n := Times(own, workers);
    TimesOrder(own, own, workers);
    TimesSwap(own, workers);
    if slot + 1 < workers && own >= 1 { TimesOrder(slot + 1, workers, own); }
    if k < n {
      OneSlotEach(n, workers, k, slot);
    }
    if Times(slot, own) <= k < Times(slot, own) + own {
      assert PackAt(Contiguous, own, workers, slot, k - Times(slot, own)) == k;
    }
  }

  /** Where an iterator over the packs stands, and when it has reached its end. */
  lemma CounterStandsAt(layout: Layout, own: nat, workers: nat, slot: nat, current: nat, end: nat)
    requires slot < workers && Counter(layout, Times(own, workers), workers, slot, 0, current, end)
    ensures own == 0 ==> current >= end
    ensures own > 0 ==> current == PackAt(layout, own, workers, slot, 0)
    ensures own > 0 ==> forall c: nat :: c <= own ==> (PackAt(layout, own, workers, slot, c) < end <==> c < own)
  {
    if own == 0 {
      if current < end {
        OwnPacks(layout, own, workers, slot, current);
      }
    } else {
      match layout
      case Strided => StridedStand(own, workers, slot, current, end);
      case Contiguous => ContiguousStand(own, workers, slot, current, end);
    }
  }

  lemma StridedStand(own: nat, workers: nat, slot: nat, current: nat, end: nat)
    requires slot < workers && own > 0 && Counter(Strided, Times(own, workers), workers, slot, 0, current, end)
    ensures current == slot && end == Times(own, workers)
    ensures forall c: nat :: c <= own ==> (PackAt(Strided, own, workers, slot, c) < end <==> c < own)
  {
    TimesOrder(0, own, workers);
    DivModUnique(slot, workers, 0, slot);
    assert Mine(Strided, Times(own, workers), workers, slot, slot);
    DivModUnique(current, workers, 0, current);
    forall c: nat | c <= own ensures PackAt(Strided, own, workers, slot, c) < end <==> c < own {
      TimesOrder(c, own, workers);
    }
  }

  lemma ContiguousStand(own: nat, workers: nat, slot: nat, current: nat, end: nat)
    requires slot < workers && own > 0 && Counter(Contiguous, Times(own, workers), workers, slot, 0, current, end)
    ensures current == Times(slot, own) && end == Times(slot, own) + own
  {
    var n, first := Times(own, workers), Times(slot, own);
    forall k: nat ensures Mine(Contiguous, n, workers, slot, k) <==> first <= k < first + own {
      InOwnSlot(own, workers, slot, k);
    }
    assert Mine(Contiguous, n, workers, slot, first);
    assert Mine(Contiguous, n, workers, slot, first + own - 1);
    assert !Mine(Contiguous, n, workers, slot, first + own);
    assert Mine(Contiguous, n, workers, slot, current) <==> first <= current < first + own;
  }

  lemma InOwnSlot(own: nat, workers: nat, slot: nat, k: nat)
    requires slot < workers
    ensures Mine(Contiguous, Times(own, workers), workers, slot, k) <==> Times(slot, own) <= k < Times(slot, own) + own
  {
    OwnPacks(Contiguous, own, workers, slot, k);
    if Times(slot, own) <= k < Times(slot, own) + own {
      assert PackAt(Contiguous, own, workers, slot, k - Times(slot, own)) == k;
    }
  }

  /** The iterator after perCall steps; none of the packs it stood on lies behind its end. */
  method OneCall(layout: Layout, perCall: nat, workers: nat, ghost slot: nat, ghost own: nat, current: nat,
                 ghost end: nat, stride: nat, packs: seq<nat>) returns (current': nat, packs': seq<nat>)
    requires |packs| + perCall <= own && current == PackAt(layout, own, workers, slot, |packs|)
    requires stride == match layout case Strided => workers case Contiguous => 1
    requires forall c: nat :: c <= own ==> (PackAt(layout, own, workers, slot, c) < end <==> c < own)
    ensures |packs'| == |packs| + perCall && packs <= packs'
    ensures forall c :: |packs| <= c < |packs'| ==> packs'[c] == PackAt(layout, own, workers, slot, c) < end
    ensures current' == PackAt(layout, own, workers, slot, |packs'|)
  {
    current', packs' := current, packs;
    for rep := 0 to perCall
      invariant |packs'| == |packs| + rep && packs <= packs'
      invariant current' == PackAt(layout, own, workers, slot, |packs'|)
      invariant forall c :: |packs| <= c < |packs'| ==> packs'[c] == PackAt(layout, own, workers, slot, c) < end
    {
      packs' := packs' + [current'];
      current' := current' + stride;
    }
  }

  /** One worker's SIMD loop: perCall packs per call, the end looked at only between the calls. */
  method WorkerPacks(layout: Layout, loops: nat, perCall: nat, workers: nat, slot: nat) returns (packs: seq<nat>)
    requires slot < workers && perCall >= 1
    ensures |packs| == Times(loops, perCall)
    ensures forall c :: 0 <= c < |packs| ==> packs[c] == PackAt(layout, Times(loops, perCall), workers, slot, c)
  {
    TimesIsProduct(loops, perCall);
    TimesIsProduct(Times(loops, perCall), workers);
    var current, end, stride := Bounds(layout, loops * perCall * workers, workers, slot);
    ghost var own, calls := Times(loops, perCall), 0;
    CounterStandsAt(layout, own, workers, slot, current, end);
    TimesOrder(0, loops, perCall);
    packs := [];
    while current < end
      invariant calls <= loops && |packs| == Times(calls, perCall) <= own
      invariant if own == 0 then current >= end else current == PackAt(layout, own, workers, slot, |packs|)
      invariant forall c :: 0 <= c < |packs| ==> packs[c] == PackAt(layout, own, workers, slot, c)
      decreases loops - calls
    {
      TimesOrder(calls, loops, perCall);
      current, packs := OneCall(layout, perCall, workers, slot, own, current, end, stride, packs);
      calls := calls + 1;
    }
    TimesOrder(calls, loops, perCall);
  }

  // ----- the kernel -----

  /** Increments added to the elements of finished packs and to the finished part of the remainder. */
  ghost predicate Incremented(sums: seq<int>, outs: seq<int>, out: seq<int>, m: nat, size: nat, w: nat,
                              packsEnd: nat, packs: set<int>, rest: set<int>)
    requires size >= 1 && w >= 1 && m <= |outs| == |out|
    requires forall i: nat :: i < m ==> BlockOf(i, size) < |sums|
  {
    forall i: nat {:trigger out[i]} :: i < |out| ==>
      out[i] == outs[i] + if i < m && (if i < packsEnd then BlockOf(i, w) !in packs else i !in rest)
                          then Increment(sums, size, w, packsEnd, i) else 0
  }

  method AddPack(output: array<int>, m: nat, sums: array<int>, size: nat, w: nat, p: nat,
                 ghost packsEnd: nat, ghost packs: set<int>, ghost rest: set<int>, ghost outs: seq<int>)
    requires sums != output && m <= output.Length == |outs| && w >= 1 && size >= 1
    requires forall i: nat :: i < m ==> BlockOf(i, size) < sums.Length
    requires p in packs && Times(p, w) + w <= packsEnd <= m
    requires Incremented(sums[..], outs, output[..], m, size, w, packsEnd, packs, rest)
    modifies output
    ensures Incremented(sums[..], outs, output[..], m, size, w, packsEnd, packs - {p}, rest)
  {
    ghost var before := output[..];
    TimesIsProduct(p, w);
    var idx := p * w;
    BlockOfIsQuotient(idx, size);
    var increment := sums[idx / size];
    forall x | 0 <= x < w {
      output[idx + x] := output[idx + x] + increment;
    }
    PackAdded(sums[..], outs, before, output[..], m, size, w, p, packsEnd, packs, rest);
  }

  lemma PackAdded(sums: seq<int>, outs: seq<int>, before: seq<int>, after: seq<int>, m: nat, size: nat, w: nat, p: nat,
                  packsEnd: nat, packs: set<int>, rest: set<int>)
    requires size >= 1 && w >= 1 && m <= |outs| == |before| == |after|
    requires forall i: nat :: i < m ==> BlockOf(i, size) < |sums|
    requires p in packs && Times(p, w) + w <= packsEnd <= m
    requires Incremented(sums, outs, before, m, size, w, packsEnd, packs, rest)
    requires forall i: nat :: i < |after| ==>
      after[i] == before[i] + if Times(p, w) <= i < Times(p, w) + w then sums[BlockOf(Times(p, w), size)] else 0
    ensures Incremented(sums, outs, after, m, size, w, packsEnd, packs - {p}, rest)
  {
    forall i: nat | i < |after|
      ensures after[i] == outs[i] + if i < m && (if i < packsEnd then BlockOf(i, w) !in packs - {p} else i !in rest)
                                    then Increment(sums, size, w, packsEnd, i) else 0
    {
      InBlock(i, p, w);
    }
  }

  /** What the workers' iterators still have to visit: the packs in `todo`, each at its handler, none twice. */
  ghost predicate Queued(layout: Layout, n: nat, workers: nat, queues: seq<seq<nat>>, todo: set<int>)
    requires workers >= 1
  {
    && |queues| == workers && todo <= Indices(n)
    && forall slot: nat :: slot < workers ==> QueueOf(layout, n, workers, slot, queues[slot], todo)
  }

  ghost predicate QueueOf(layout: Layout, n: nat, workers: nat, slot: nat, queue: seq<nat>, todo: set<int>)
    requires workers >= 1
  {
    && (forall i, j :: 0 <= i < j < |queue| ==> queue[i] != queue[j])
    && (forall k: nat :: k in queue <==> k in todo && Handler(layout, n, workers, k) == slot)
  }

  lemma QueueFilled(layout: Layout, own: nat, workers: nat, slot: nat, queue: seq<nat>)
    requires slot < workers && |queue| == own
    requires forall c :: 0 <= c < own ==> queue[c] == PackAt(layout, own, workers, slot, c)
    ensures QueueOf(layout, Times(own, workers), workers, slot, queue, Indices(Times(own, workers)))
  {
    forall i, j | 0 <= i < j < own ensures queue[i] != queue[j] {
      TimesOrder(i, j, workers);
    }
    forall k: nat ensures k in queue
      <==> k < Times(own, workers) && Handler(layout, Times(own, workers), workers, k) == slot
    {
      OwnPacks(layout, own, workers, slot, k);
    }
  }

  lemma TakePack(layout: Layout, n: nat, workers: nat, queues: seq<seq<nat>>, todo: set<int>, slot: nat)
    requires workers >= 1 && Queued(layout, n, workers, queues, todo) && slot < workers && queues[slot] != []
    ensures queues[slot][0] in todo
    ensures Queued(layout, n, workers, queues[slot := queues[slot][1..]], todo - {queues[slot][0]})
  {
    var q := queues[slot];
    assert QueueOf(layout, n, workers, slot, q, todo) && q[0] in q;
    var queues' := queues[slot := q[1..]];
    forall s: nat | s < workers ensures QueueOf(layout, n, workers, s, queues'[s], todo - {q[0]}) {
      assert QueueOf(layout, n, workers, s, queues[s], todo);
      if s == slot {
        QueueTail(layout, n, workers, slot, q, todo);
      }
    }
  }

  lemma QueueTail(layout: Layout, n: nat, workers: nat, slot: nat, q: seq<nat>, todo: set<int>)
    requires workers >= 1 && q != [] && QueueOf(layout, n, workers, slot, q, todo)
    ensures QueueOf(layout, n, workers, slot, q[1..], todo - {q[0]})
  {
    forall k: nat ensures k in q[1..] <==> k in q && k != q[0] {
      assert q == [q[0]] + q[1..];
      if k in q[1..] {
        var j :| 0 <= j < |q[1..]| && q[1..][j] == k;
        assert q[j + 1] == k;
      }
    }
  }

  lemma QueuesEmpty(layout: Layout, n: nat, workers: nat, queues: seq<seq<nat>>, todo: set<int>)
    requires workers >= 1 && Queued(layout, n, workers, queues, todo)
    requires forall slot :: 0 <= slot < |queues| ==> queues[slot] == []
    ensures todo == {}
  {
    forall k: nat | k < n ensures k !in todo {
      HandlerInRange(layout, n, workers, k);
      var slot := Handler(layout, n, workers, k);
      assert QueueOf(layout, n, workers, slot, queues[slot], todo);
    }
  }

  lemma HandlerInRange(layout: Layout, n: nat, workers: nat, k: nat)
    requires workers >= 1 && k < n
    ensures Handler(layout, n, workers, k) < workers
  {
    if layout == Contiguous {
      OneSlotEach(n, workers, k, 0);
    }
  }

  method Queues(layout: Layout, loops: nat, perCall: nat, workers: nat) returns (queues: seq<seq<nat>>)
    requires workers >= 1 && perCall >= 1
    ensures var n := Times(Times(loops, perCall), workers); Queued(layout, n, workers, queues, Indices(n))
    ensures forall slot :: 0 <= slot < workers ==> |queues[slot]| == Times(loops, perCall)
  {
    queues := [];
    for slot := 0 to workers
      invariant |queues| == slot
      invariant forall s :: 0 <= s < slot ==> |queues[s]| == Times(loops, perCall)
      invariant forall s: nat :: s < slot ==>
        QueueOf(layout, Times(Times(loops, perCall), workers), workers, s, queues[s],
                Indices(Times(Times(loops, perCall), workers)))
    {
      var packs := WorkerPacks(layout, loops, perCall, workers, slot);
      QueueFilled(layout, Times(loops, perCall), workers, slot, packs);
      queues := queues + [packs];
    }
  }

  /** The SIMD loops of all workers: at any time any worker with packs left handles its next one. */
  method AddPacks(output: array<int>, m: nat, sums: array<int>, size: nat, w: nat, layout: Layout, loops: nat,
                  perCall: nat, workers: nat, ghost packsEnd: nat, ghost outs: seq<int>)
    requires sums != output && m <= output.Length && w >= 1 && size >= 1 && perCall >= 1 && workers >= 1
    requires packsEnd == Times(Times(Times(loops, perCall), workers), w) <= m && outs == output[..]
    requires forall i: nat :: i < m ==> BlockOf(i, size) < sums.Length
    modifies output
    ensures Incremented(sums[..], outs, output[..], m, size, w, packsEnd, {}, Indices(m))
  {
    var queues := Queues(layout, loops, perCall, workers);
    ghost var n := Times(Times(loops, perCall), workers);
    ghost var todo := Indices(n);
    AllPacks(n, w, m, packsEnd);
    while exists slot :: 0 <= slot < |queues| && queues[slot] != []
      invariant Queued(layout, n, workers, queues, todo)
      invariant Incremented(sums[..], outs, output[..], m, size, w, packsEnd, todo, Indices(m))
      decreases todo
    {
      var slot :| 0 <= slot < |queues| && queues[slot] != [];
      var p := queues[slot][0];
      TakePack(layout, n, workers, queues, todo, slot);
      TimesOrder(p, n, w);
      AddPack(output, m, sums, size, w, p, packsEnd, todo, Indices(m), outs);
      queues, todo := queues[slot := queues[slot][1..]], todo - {p};
    }
    QueuesEmpty(layout, n, workers, queues, todo);
  }

  lemma AllPacks(n: nat, w: nat, m: nat, packsEnd: nat)
    requires w >= 1 && packsEnd == Times(n, w)
    ensures forall i: nat :: i < packsEnd ==> BlockOf(i, w) in Indices(n)
    ensures forall i: nat :: i < m ==> i in Indices(m)
  {
    forall i: nat | i < packsEnd ensures BlockOf(i, w) in Indices(n) {
      InBlock(i, 0, w);
      TimesOrder(BlockOf(i, w), n, w);
    }
  }

  /** The scalar loop over the remainder. */
  method AddRest(output: array<int>, m: nat, sums: array<int>, size: nat, w: nat, remainderBegin: nat,
                 ghost outs: seq<int>)
    requires sums != output && m <= output.Length == |outs| && w >= 1 && size >= 1
    requires forall i: nat :: i < m ==> BlockOf(i, size) < sums.Length
    requires Incremented(sums[..], outs, output[..], m, size, w, remainderBegin, {}, Indices(m))
    modifies output
    ensures Incremented(sums[..], outs, output[..], m, size, w, remainderBegin, {}, {})
  {
    var rest := Indices(m);
    while rest != {}
      invariant rest <= Indices(m)
      invariant Incremented(sums[..], outs, output[..], m, size, w, remainderBegin, {}, rest)
      decreases rest
    {
      var i :| i in rest;
      if remainderBegin <= i {
        BlockOfIsQuotient(i, size);
        output[i] := output[i] + sums[i / size];
      }
      rest := rest - {i};
    }
  }

  /** The kernel over an output of extent m: packs of width w, then single elements. */
  method AddIncrements(output: array<int>, m: nat, sums: array<int>, size: nat, w: nat, perCall: nat, workers: nat,
                       layout: Layout)
    requires sums != output && m <= output.Length && w >= 1 && perCall >= 1 && workers >= 1 && size >= 1
    requires forall i: nat :: i < m ==> BlockOf(i, size) < sums.Length
    modifies output
    ensures forall i: nat :: i < output.Length ==>
      output[i] == old(output[i]) +
                   if i < m then Increment(sums[..], size, w, Times(NumPacks(m, w, perCall, workers), w), i) else 0
  {
    ghost var outs := output[..];
    var remainderBegin := 0;
    PacksInside(m, w, perCall, workers);
    if w != 1 {
      var loops := Calls(m, w, perCall, workers);
      remainderBegin := loops * (w * perCall) * workers;
      RemainderBegin(loops, w, perCall, workers);
      AddPacks(output, m, sums, size, w, layout, loops, perCall, workers, remainderBegin, outs);
    }
    AddRest(output, m, sums, size, w, remainderBegin, outs);
    assert forall i: nat :: i < output.Length ==> output[..][i] == output[i];
  }
}
