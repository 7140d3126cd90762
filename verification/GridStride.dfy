/** The grid-stride vector additions: who visits which data index, and how often. */
module GridStride {
  import opened Arithmetic
  import opened VecIndex

  /** Indices reached by `for(i = start; i < size; i += stride)`. */
  ghost predicate Visits(start: nat, stride: nat, size: nat, i: nat)
    requires stride >= 1
  {
    start <= i < size && (i - start) % stride == 0
  }

  lemma VisitsIffRemainder(start: nat, stride: nat, size: nat, i: nat)
    requires start < stride
    ensures Visits(start, stride, size, i) <==> i < size && i % stride == start
  {
    if start <= i && (i - start) % stride == 0 {
      StepsFromStart(start, stride, i);
    }
    if i % stride == start {
      StepsToStart(stride, i);
    }
  }

  lemma StepsFromStart(start: nat, stride: nat, i: nat)
    requires start < stride && start <= i && (i - start) % stride == 0
    ensures i % stride == start
  {
    DivModUnique(i, stride, (i - start) / stride, start);
  }

  lemma StepsToStart(stride: nat, i: nat)
    requires stride >= 1
    ensures i % stride <= i && (i - i % stride) % stride == 0
  {
    var q := i / stride;
    assert i - i % stride == q * stride >= 0;
    DivModUnique(q * stride, stride, q, 0);
  }

  /** Every data index has exactly one visitor among the threads of an N-dimensional grid. */
  lemma UniqueVisitor(numThreads: Vec, size: nat, i: nat) returns (owner: Vec)
    requires Positive(numThreads) && i < size
    ensures Product(numThreads) >= 1 && InBox(owner, numThreads)
    ensures forall t: Vec :: InBox(t, numThreads) ==>
      (Visits(Linear(numThreads, t), Product(numThreads), size, i) <==> t == owner)
  {
    ProductPositive(numThreads);
    var g := Product(numThreads);
    owner := Unlinear(numThreads, i % g);
    UnlinearInBox(numThreads, i % g);
    LinearUnlinear(numThreads, i % g);
    forall t: Vec | InBox(t, numThreads)
      ensures Visits(Linear(numThreads, t), g, size, i) <==> t == owner
    {
      LinearInRange(numThreads, t);
      VisitsIffRemainder(Linear(numThreads, t), g, size, i);
      LinearOrderIsLexicographic(numThreads, t, owner);
    }
  }

  // ----- one-dimensional data -----

  /** Cursors of all threads in linear order; the data indices before a thread's cursor are done. */
  ghost predicate Cursors(cursor: seq<nat>, size: nat, open: set<int>) {
    && |cursor| >= 1
    && (forall t :: 0 <= t < |cursor| ==> cursor[t] % |cursor| == t)
    && (forall i :: i in open <==> 0 <= i < size && cursor[i % |cursor|] <= i)
  }

  lemma AdvanceCursor(cursor: seq<nat>, size: nat, open: set<int>, t: nat)
    requires Cursors(cursor, size, open) && t < |cursor| && cursor[t] < size
    ensures cursor[t] in open
    ensures Cursors(cursor[t := cursor[t] + |cursor|], size, open - {cursor[t]})
  {
    var g, i0 := |cursor|, cursor[t];
    var cursor' := cursor[t := i0 + g];
    SameRemainder(i0, g);
    forall i ensures i in open - {i0} <==> 0 <= i < size && cursor'[i % g] <= i {
      if i >= 0 && i % g == t && i > i0 { NextSameRemainder(i0, i, g); }
    }
  }

  lemma NothingVisited(cursor: seq<nat>, size: nat)
    requires |cursor| >= 1 && forall t :: 0 <= t < |cursor| ==> cursor[t] == t
    ensures Cursors(cursor, size, Indices(size))
  {
    forall t | 0 <= t < |cursor| ensures cursor[t] % |cursor| == t {
      DivModUnique(t, |cursor|, 0, t);
    }
    forall i: nat ensures i % |cursor| <= i {
      assert i / |cursor| * |cursor| >= 0;
    }
  }

  method VectorAddStep(in1: seq<int>, in2: seq<int>, output: array<int>, i: nat, ghost size: nat, ghost open: set<int>,
                       ghost outs: seq<int>)
    requires i < size <= |in1| && size <= |in2| && size <= output.Length == |outs|
    requires Added(in1, in2, outs, output[..], size, open)
    modifies output
    ensures Added(in1, in2, outs, output[..], size, open - {i})
  {
    ghost var before := output[..];
    output[i] := in1[i] + in2[i];
    assert output[..] == before[i := in1[i] + in2[i]];
  }

  ghost predicate Added(in1: seq<int>, in2: seq<int>, outs: seq<int>, out: seq<int>, size: nat, open: set<int>)
    requires size <= |in1| && size <= |in2| && size <= |outs| == |out|
  {
    forall i: nat :: i < |out| ==> out[i] == if i < size && i !in open then in1[i] + in2[i] else outs[i]
  }

  lemma LogOne(log: seq<nat>, all: set<int>, open: set<int>, i: nat)
    requires i in open && open <= all && multiset(log) == multiset(all - open)
    ensures multiset(log + [i]) == multiset(all - (open - {i}))
  {
    assert all - (open - {i}) == (all - open) + {i};
  }

  /** All threads at once: at any time any thread with work left makes its next iteration. `log` lists the
      data indices in the order in which they were written. */
  method VectorAdd1D(in1: seq<int>, in2: seq<int>, output: array<int>, size: nat, numThreads: Vec)
    returns (ghost log: seq<nat>)
    requires Positive(numThreads)
    requires size <= |in1| && size <= |in2| && size <= output.Length
    modifies output
    ensures forall i :: 0 <= i < output.Length ==>
      output[i] == if i < size then in1[i] + in2[i] else old(output[i])
    ensures multiset(log) == multiset(Indices(size))
  {
    var cursor: seq<nat> := StartIndices(numThreads);
    var gridSize := ProductOf(numThreads);
    ghost var all := Indices(size);
    ghost var open, outs := all, output[..];
    log := [];
    NothingVisited(cursor, size);
    while exists t :: 0 <= t < |cursor| && cursor[t] < size
      invariant |cursor| == gridSize && open <= all && Cursors(cursor, size, open)
      invariant Added(in1, in2, outs, output[..], size, open)
      invariant multiset(log) == multiset(all - open)
      decreases open
    {
      var t :| 0 <= t < |cursor| && cursor[t] < size;
      var i := cursor[t];
      cursor := NextIteration(in1, in2, output, size, gridSize, cursor, t, open, outs);
      LogOne(log, all, open, i);
      log, open := log + [i], open - {i};
    }
    AllVisited(cursor, size, open);
    assert all - open == all;
  }

  method NextIteration(in1: seq<int>, in2: seq<int>, output: array<int>, size: nat, gridSize: nat,
                       cursor: seq<nat>, t: nat, ghost open: set<int>, ghost outs: seq<int>) returns (cursor': seq<nat>)
    requires size <= |in1| && size <= |in2| && size <= output.Length == |outs|
    requires gridSize == |cursor| && Cursors(cursor, size, open) && t < |cursor| && cursor[t] < size
    requires Added(in1, in2, outs, output[..], size, open)
    modifies output
    ensures |cursor'| == |cursor| && cursor[t] in open && Cursors(cursor', size, open - {cursor[t]})
    ensures Added(in1, in2, outs, output[..], size, open - {cursor[t]})
  {
    AdvanceCursor(cursor, size, open, t);
    VectorAddStep(in1, in2, output, cursor[t], size, open, outs);
    cursor' := cursor[t := cursor[t] + gridSize];
  }

  lemma AllVisited(cursor: seq<nat>, size: nat, open: set<int>)
    requires Cursors(cursor, size, open) && forall t :: 0 <= t < |cursor| ==> cursor[t] >= size
    ensures open == {}
  {
    forall i ensures i !in open {
      var t := i % |cursor|;
      assert cursor[t] >= size;
    }
  }

  /** Every thread's first index: its linear position in the grid. */
  method StartIndices(numThreads: Vec) returns (cursor: seq<nat>)
    requires Positive(numThreads)
    ensures |cursor| == Product(numThreads) >= 1 && forall t :: 0 <= t < |cursor| ==> cursor[t] == t
  {
    ProductPositive(numThreads);
    var total := ProductOf(numThreads);
    cursor := [];
    for t := 0 to total
      invariant |cursor| == t && forall k :: 0 <= k < t ==> cursor[k] == k
    {
      var threadIdx := MapToND(numThreads, t);
      LinearUnlinear(numThreads, t);
      var start := Linearize(numThreads, threadIdx);
      cursor := cursor + [start];
    }
  }

  // ----- three-dimensional data -----

  /** Block and thread indices correspond one to one to the threads of the whole grid. */
  lemma GridThread(blocks: nat, threads: nat, g: nat, b: nat, t: nat)
    requires threads >= 1
    ensures g < blocks * threads <==> g / threads < blocks
    ensures t < threads && threads * b + t == g <==> b == g / threads && t == g % threads
  {
    var q := g / threads;
    assert g == q * threads + g % threads;
    QuotientBelow(g, threads, blocks);
    if t < threads && threads * b + t == g {
      DivModUnique(g, threads, b, t);
    }
  }

  ghost predicate Visits3D(g: Vec, grid: Vec, size: Vec, z: nat, y: nat, x: nat)
    requires |g| == |grid| == |size| == 3 && forall d :: 0 <= d < 3 ==> grid[d] >= 1
  {
    Visits(g[0], grid[0], size[0], z) && Visits(g[1], grid[1], size[1], y) && Visits(g[2], grid[2], size[2], x)
  }

  lemma UniqueVisitor3D(grid: Vec, size: Vec, g: Vec, z: nat, y: nat, x: nat)
    requires |grid| == |size| == 3 && (forall d :: 0 <= d < 3 ==> grid[d] >= 1) && InBox(g, grid)
    requires InBox([z, y, x], size)
    ensures Visits3D(g, grid, size, z, y, x) <==> g == [z % grid[0], y % grid[1], x % grid[2]]
  {
    assert z < size[0] && y < size[1] && x < size[2] by {
      var p := [z, y, x];
      assert p[0] < size[0] && p[1] < size[1] && p[2] < size[2];
    }
    VisitsIffRemainder(g[0], grid[0], size[0], z);
    VisitsIffRemainder(g[1], grid[1], size[1], y);
    VisitsIffRemainder(g[2], grid[2], size[2], x);
  }

  predicate Positive3(v: Vec) { |v| == 3 && v[0] >= 1 && v[1] >= 1 && v[2] >= 1 }

  lemma NoVisitBetween(start: nat, stride: nat, size: nat, i: nat, j: nat)
    requires stride >= 1 && start < stride && start <= i && i % stride == start && i < j < i + stride
    ensures !Visits(start, stride, size, j)
  {
    VisitsIffRemainder(start, stride, size, j);
    if j % stride == i % stride {
      NextSameRemainder(i, j, stride);
    }
  }

  datatype Cell = Cell(z: nat, y: nat, x: nat)

  /** Cells written by the three loops of a thread while their indices are below the given bounds. */
  ghost function ThreadCells(g: Vec, grid: Vec, size: Vec, z: nat): (s: set<Cell>)
    requires |g| == |size| == 3 && Positive3(grid)
    ensures forall p: Cell :: p in s <==> p.z < z && Visits3D(g, grid, size, p.z, p.y, p.x)
  {
    set c: nat, b: nat, a: nat | c < size[0] && b < size[1] && a < size[2]
                                 && c < z && Visits3D(g, grid, size, c, b, a) :: Cell(c, b, a)
  }

  ghost function PlaneCells(g: Vec, grid: Vec, size: Vec, z: nat, y: nat): (s: set<Cell>)
    requires |g| == |size| == 3 && Positive3(grid)
    ensures forall p: Cell :: p in s <==>
      p.z == z && p.y < y && Visits(g[1], grid[1], size[1], p.y) && Visits(g[2], grid[2], size[2], p.x)
  {
    set b: nat, a: nat | b < size[1] && a < size[2]
                         && b < y && Visits(g[1], grid[1], size[1], b) && Visits(g[2], grid[2], size[2], a)
                         :: Cell(z, b, a)
  }

  ghost function RowCells(z: nat, y: nat, start: nat, stride: nat, size: nat, x: nat): (s: set<Cell>)
    requires stride >= 1
    ensures forall p: Cell :: p in s <==> p.z == z && p.y == y && p.x < x && Visits(start, stride, size, p.x)
  {
    set a: nat | a < size && a < x && Visits(start, stride, size, a) :: Cell(z, y, a)
  }

  lemma NextVisitOnly(start: nat, stride: nat, size: nat, i: nat)
    requires start < stride && start <= i < size && i % stride == start
    ensures forall j: nat :: j < i + stride ==>
      (Visits(start, stride, size, j) <==> (j < i && Visits(start, stride, size, j)) || j == i)
  {
    VisitsIffRemainder(start, stride, size, i);
    forall j: nat | i < j < i + stride ensures !Visits(start, stride, size, j) {
      NoVisitBetween(start, stride, size, i, j);
    }
  }

  lemma RowGrows(z: nat, y: nat, start: nat, stride: nat, size: nat, x: nat)
    requires start < stride && start <= x < size && x % stride == start
    ensures multiset(RowCells(z, y, start, stride, size, x + stride))
         == multiset(RowCells(z, y, start, stride, size, x)) + multiset{Cell(z, y, x)}
  {
    NextVisitOnly(start, stride, size, x);
    var row, cell := RowCells(z, y, start, stride, size, x), Cell(z, y, x);
    assert RowCells(z, y, start, stride, size, x + stride) == row + {cell} && cell !in row;
  }

  lemma PlaneGrows(g: Vec, grid: Vec, size: Vec, z: nat, y: nat)
    requires |g| == |size| == 3 && Positive3(grid) && g[1] < grid[1] && g[1] <= y < size[1] && y % grid[1] == g[1]
    ensures multiset(PlaneCells(g, grid, size, z, y + grid[1]))
         == multiset(PlaneCells(g, grid, size, z, y)) + multiset(RowCells(z, y, g[2], grid[2], size[2], size[2]))
  {
    NextVisitOnly(g[1], grid[1], size[1], y);
    var plane, row := PlaneCells(g, grid, size, z, y), RowCells(z, y, g[2], grid[2], size[2], size[2]);
    assert PlaneCells(g, grid, size, z, y + grid[1]) == plane + row && plane !! row;
    Together(plane, row);
  }

  lemma ThreadGrows(g: Vec, grid: Vec, size: Vec, z: nat)
    requires |g| == |size| == 3 && Positive3(grid) && g[0] < grid[0] && g[0] <= z < size[0] && z % grid[0] == g[0]
    ensures multiset(ThreadCells(g, grid, size, z + grid[0]))
         == multiset(ThreadCells(g, grid, size, z)) + multiset(PlaneCells(g, grid, size, z, size[1]))
  {
    NextVisitOnly(g[0], grid[0], size[0], z);
    var cells, plane := ThreadCells(g, grid, size, z), PlaneCells(g, grid, size, z, size[1]);
    assert ThreadCells(g, grid, size, z + grid[0]) == cells + plane && cells !! plane;
    Together(cells, plane);
  }

  lemma PlaneEnds(g: Vec, grid: Vec, size: Vec, z: nat, y: nat)
    requires |g| == |size| == 3 && Positive3(grid)
    ensures PlaneCells(g, grid, size, z, g[1]) == {}
    ensures y >= size[1] ==> PlaneCells(g, grid, size, z, y) == PlaneCells(g, grid, size, z, size[1])
  {
  }

  lemma Together<T>(a: set<T>, b: set<T>)
    requires a !! b
    ensures multiset(a + b) == multiset(a) + multiset(b)
  {
  }

  predicate SameShape(a: array3<int>, b: array3<int>) {
    a.Length0 == b.Length0 && a.Length1 == b.Length1 && a.Length2 == b.Length2
  }

  /** The innermost loop: one row. `log` counts the writes. */
  method AddRow(in1: array3<int>, in2: array3<int>, output: array3<int>, z: nat, y: nat, start: nat, stride: nat)
    returns (ghost log: multiset<Cell>)
    requires SameShape(in1, output) && SameShape(in2, output) && in1 != output && in2 != output
    requires z < output.Length0 && y < output.Length1 && start < stride
    modifies output
    ensures log == multiset(RowCells(z, y, start, stride, output.Length2, output.Length2))
    ensures forall c: nat, b: nat, a: nat :: c < output.Length0 && b < output.Length1 && a < output.Length2 ==>
      output[c, b, a] == if c == z && b == y && Visits(start, stride, output.Length2, a)
                         then in1[c, b, a] + in2[c, b, a] else old(output[c, b, a])
  {
    var x := start;
    log := multiset{};
    DivModUnique(start, stride, 0, start);
    assert RowCells(z, y, start, stride, output.Length2, start) == {};
    while x < output.Length2
      invariant start <= x && x % stride == start
      invariant log == multiset(RowCells(z, y, start, stride, output.Length2, x))
      invariant forall c: nat, b: nat, a: nat :: c < output.Length0 && b < output.Length1 && a < output.Length2 ==>
        output[c, b, a] == if c == z && b == y && a < x && Visits(start, stride, output.Length2, a)
                           then in1[c, b, a] + in2[c, b, a] else old(output[c, b, a])
    {
      output[z, y, x] := in1[z, y, x] + in2[z, y, x];
      log := log + multiset{Cell(z, y, x)};
      RowGrows(z, y, start, stride, output.Length2, x);
      NextVisitOnly(start, stride, output.Length2, x);
      SameRemainder(x, stride);
      x := x + stride;
    }
    assert RowCells(z, y, start, stride, output.Length2, x)
        == RowCells(z, y, start, stride, output.Length2, output.Length2);
  }

  ghost function Shape(a: array3<int>): Vec { [a.Length0, a.Length1, a.Length2] }

  method NextRow(in1: array3<int>, in2: array3<int>, output: array3<int>, z: nat, y: nat, g: Vec, grid: Vec,
                 ghost log: multiset<Cell>) returns (ghost log': multiset<Cell>)
    requires SameShape(in1, output) && SameShape(in2, output) && in1 != output && in2 != output
    requires z < output.Length0 && Positive3(grid) && InBox(g, grid)
    requires g[1] <= y < output.Length1 && y % grid[1] == g[1]
    requires log == multiset(PlaneCells(g, grid, Shape(output), z, y))
    modifies output
    ensures (y + grid[1]) % grid[1] == g[1]
    ensures log' == multiset(PlaneCells(g, grid, Shape(output), z, y + grid[1]))
    ensures forall c: nat, b: nat, a: nat :: c < output.Length0 && b < output.Length1 && a < output.Length2 ==>
      output[c, b, a] == if c == z && b == y && Visits(g[2], grid[2], output.Length2, a)
                         then in1[c, b, a] + in2[c, b, a] else old(output[c, b, a])
  {
    ghost var row := AddRow(in1, in2, output, z, y, g[2], grid[2]);
    log' := log + row;
    PlaneGrows(g, grid, Shape(output), z, y);
    SameRemainder(y, grid[1]);
  }

  method AddPlane(in1: array3<int>, in2: array3<int>, output: array3<int>, z: nat, g: Vec, grid: Vec)
    returns (ghost log: multiset<Cell>)
    requires SameShape(in1, output) && SameShape(in2, output) && in1 != output && in2 != output
    requires z < output.Length0 && Positive3(grid) && InBox(g, grid)
    modifies output
    ensures log == multiset(PlaneCells(g, grid, Shape(output), z, output.Length1))
    ensures forall c: nat, b: nat, a: nat :: c < output.Length0 && b < output.Length1 && a < output.Length2 ==>
      output[c, b, a] == if c == z && Visits(g[1], grid[1], output.Length1, b)
                            && Visits(g[2], grid[2], output.Length2, a)
                         then in1[c, b, a] + in2[c, b, a] else old(output[c, b, a])
  {
    var y := g[1];
    log := multiset{};
    DivModUnique(g[1], grid[1], 0, g[1]);
    ghost var size := Shape(output);
    PlaneEnds(g, grid, size, z, 0);
    while y < output.Length1
      invariant g[1] <= y && y % grid[1] == g[1]
      invariant log == multiset(PlaneCells(g, grid, size, z, y))
      invariant forall c: nat, b: nat, a: nat :: c < output.Length0 && b < output.Length1 && a < output.Length2 ==>
        output[c, b, a] == if c == z && b < y && Visits(g[1], grid[1], output.Length1, b)
                              && Visits(g[2], grid[2], output.Length2, a)
                           then in1[c, b, a] + in2[c, b, a] else old(output[c, b, a])
    {
      log := NextRow(in1, in2, output, z, y, g, grid, log);
      NextVisitOnly(g[1], grid[1], output.Length1, y);
      y := y + grid[1];
    }
    PlaneEnds(g, grid, size, z, y);
  }

  lemma ThreadEnds(g: Vec, grid: Vec, size: Vec, z: nat)
    requires |g| == |size| == 3 && Positive3(grid)
    ensures ThreadCells(g, grid, size, g[0]) == {}
    ensures z >= size[0] ==> ThreadCells(g, grid, size, z) == ThreadCells(g, grid, size, size[0])
  {
  }

  method NextPlane(in1: array3<int>, in2: array3<int>, output: array3<int>, z: nat, g: Vec, grid: Vec,
                   ghost log: multiset<Cell>) returns (ghost log': multiset<Cell>)
    requires SameShape(in1, output) && SameShape(in2, output) && in1 != output && in2 != output
    requires Positive3(grid) && InBox(g, grid) && g[0] <= z < output.Length0 && z % grid[0] == g[0]
    requires log == multiset(ThreadCells(g, grid, Shape(output), z))
    modifies output
    ensures (z + grid[0]) % grid[0] == g[0]
    ensures log' == multiset(ThreadCells(g, grid, Shape(output), z + grid[0]))
    ensures forall c: nat, b: nat, a: nat :: c < output.Length0 && b < output.Length1 && a < output.Length2 ==>
      output[c, b, a] == if c == z && Visits(g[1], grid[1], output.Length1, b)
                            && Visits(g[2], grid[2], output.Length2, a)
                         then in1[c, b, a] + in2[c, b, a] else old(output[c, b, a])
  {
    ghost var plane := AddPlane(in1, in2, output, z, g, grid);
    log' := log + plane;
    ThreadGrows(g, grid, Shape(output), z);
    SameRemainder(z, grid[0]);
  }

  /** All iterations of one thread: exactly the cells it visits are written, each once. */
  method AddThread(in1: array3<int>, in2: array3<int>, output: array3<int>, g: Vec, grid: Vec)
    returns (ghost log: multiset<Cell>)
    requires SameShape(in1, output) && SameShape(in2, output) && in1 != output && in2 != output
    requires Positive3(grid) && InBox(g, grid)
    modifies output
    ensures log == multiset(ThreadCells(g, grid, Shape(output), output.Length0))
    ensures forall c: nat, b: nat, a: nat :: c < output.Length0 && b < output.Length1 && a < output.Length2 ==>
      output[c, b, a] == if Visits3D(g, grid, Shape(output), c, b, a)
                         then in1[c, b, a] + in2[c, b, a] else old(output[c, b, a])
  {
    var z := g[0];
    log := multiset{};
    DivModUnique(g[0], grid[0], 0, g[0]);
    ghost var size := Shape(output);
    ThreadEnds(g, grid, size, 0);
    while z < output.Length0
      invariant g[0] <= z && z % grid[0] == g[0]
      invariant log == multiset(ThreadCells(g, grid, size, z))
      invariant forall c: nat, b: nat, a: nat :: c < output.Length0 && b < output.Length1 && a < output.Length2 ==>
        output[c, b, a] == if c < z && Visits3D(g, grid, size, c, b, a)
                           then in1[c, b, a] + in2[c, b, a] else old(output[c, b, a])
    {
      log := NextPlane(in1, in2, output, z, g, grid, log);
      NextVisitOnly(g[0], grid[0], output.Length0, z);
      z := z + grid[0];
    }
    ThreadEnds(g, grid, size, z);
  }

  /** Linear number of the thread that owns a cell. */
  function Owner(grid: Vec, c: nat, b: nat, a: nat): nat
    requires Positive3(grid)
  {
    Linear(grid, [c % grid[0], b % grid[1], a % grid[2]])
  }

  lemma OwnerIsVisitor(grid: Vec, size: Vec, id: nat, c: nat, b: nat, a: nat)
    requires Positive3(grid) && |size| == 3 && InBox([c, b, a], size) && id < Product(grid)
    ensures InBox(Unlinear(grid, id), grid) && Owner(grid, c, b, a) < Product(grid)
    ensures Visits3D(Unlinear(grid, id), grid, size, c, b, a) <==> Owner(grid, c, b, a) == id
  {
    var g, o := Unlinear(grid, id), [c % grid[0], b % grid[1], a % grid[2]];
    UnlinearInBox(grid, id);
    LinearUnlinear(grid, id);
    assert InBox(o, grid);
    LinearInRange(grid, o);
    UniqueVisitor3D(grid, size, g, c, b, a);
    LinearOrderIsLexicographic(grid, g, o);
  }

  /** All cells whose owner has run. */
  ghost function CellsDone(grid: Vec, size: Vec, todo: set<int>): (s: set<Cell>)
    requires Positive3(grid) && |size| == 3
    ensures forall p: Cell :: p in s <==>
      p.z < size[0] && p.y < size[1] && p.x < size[2] && Owner(grid, p.z, p.y, p.x) !in todo
  {
    set c: nat, b: nat, a: nat | c < size[0] && b < size[1] && a < size[2] && Owner(grid, c, b, a) !in todo
                               :: Cell(c, b, a)
  }

  lemma OwnersInGrid(grid: Vec, size: Vec)
    requires Positive3(grid) && |size| == 3
    ensures CellsDone(grid, size, Indices(Product(grid))) == {}
  {
    forall p: Cell ensures p !in CellsDone(grid, size, Indices(Product(grid))) {
      LinearInRange(grid, [p.z % grid[0], p.y % grid[1], p.x % grid[2]]);
    }
  }

  /** One more thread: its cells join the ones that are done. */
  lemma ThreadDone(grid: Vec, size: Vec, todo: set<int>, id: nat, g: Vec)
    requires Positive3(grid) && |size| == 3 && id < Product(grid) && id in todo && g == Unlinear(grid, id)
    ensures InBox(g, grid)
    ensures CellsDone(grid, size, todo - {id}) == CellsDone(grid, size, todo) + ThreadCells(g, grid, size, size[0])
    ensures multiset(CellsDone(grid, size, todo - {id}))
         == multiset(CellsDone(grid, size, todo)) + multiset(ThreadCells(g, grid, size, size[0]))
  {
    UnlinearInBox(grid, id);
    var done, mine := CellsDone(grid, size, todo), ThreadCells(g, grid, size, size[0]);
    forall p: Cell ensures p in mine <==>
      p.z < size[0] && p.y < size[1] && p.x < size[2] && Owner(grid, p.z, p.y, p.x) == id
    {
      if p.z < size[0] && p.y < size[1] && p.x < size[2] {
        OwnerIsVisitor(grid, size, id, p.z, p.y, p.x);
      }
    }
    assert done !! mine;
    assert CellsDone(grid, size, todo - {id}) == done + mine;
    Together(done, mine);
  }

  /** The whole 3D kernel, its threads in any order, with their block and thread indices recomputed. */
  method VectorAdd3D(in1: array3<int>, in2: array3<int>, output: array3<int>, blocks: Vec, threads: Vec)
    returns (ghost log: multiset<Cell>)
    requires SameShape(in1, output) && SameShape(in2, output) && in1 != output && in2 != output
    requires Positive3(blocks) && Positive3(threads)
    modifies output
    ensures forall c: nat, b: nat, a: nat :: c < output.Length0 && b < output.Length1 && a < output.Length2 ==>
      output[c, b, a] == in1[c, b, a] + in2[c, b, a] && log[Cell(c, b, a)] == 1
    ensures forall p: Cell :: p in log ==> p.z < output.Length0 && p.y < output.Length1 && p.x < output.Length2
  {
    var grid := GridSize(blocks, threads);
    var total := ProductOf(grid);
    var todo := Indices(total);
    ghost var size := Shape(output);
    OwnersInGrid(grid, size);
    log := multiset{};
    while todo != {}
      invariant todo <= Indices(total) && log == multiset(CellsDone(grid, size, todo))
      invariant forall c: nat, b: nat, a: nat :: c < output.Length0 && b < output.Length1 && a < output.Length2 ==>
        Cell(c, b, a) in CellsDone(grid, size, todo) ==> output[c, b, a] == in1[c, b, a] + in2[c, b, a]
      decreases todo
    {
      var id :| id in todo;
      var g := GridThreadIndex(blocks, threads, grid, id);
      ghost var mine := AddThread(in1, in2, output, g, grid);
      ThreadDone(grid, size, todo, id, g);
      log, todo := log + mine, todo - {id};
    }
  }

  method GridSize(blocks: Vec, threads: Vec) returns (grid: Vec)
    requires Positive3(blocks) && Positive3(threads)
    ensures Positive3(grid) && forall d :: 0 <= d < 3 ==> grid[d] == blocks[d] * threads[d]
  {
    grid := [blocks[0] * threads[0], blocks[1] * threads[1], blocks[2] * threads[2]];
    MulAtLeast(blocks[0], threads[0]);
    MulAtLeast(blocks[1], threads[1]);
    MulAtLeast(blocks[2], threads[2]);
  }

  /** Block and thread index of a thread in one dimension are in their ranges. */
  method BlockAndThread(blocks: nat, threads: nat, at: nat) returns (blockIdx: nat, threadIdx: nat)
    requires threads >= 1 && at < blocks * threads
    ensures blockIdx < blocks && threadIdx < threads && threads * blockIdx + threadIdx == at
  {
    blockIdx, threadIdx := at / threads, at % threads;
    GridThread(blocks, threads, at, blockIdx, threadIdx);
  }

  /** blockDim * blockIdx + threadIdx for the id-th thread is that thread. */
  method GridThreadIndex(blocks: Vec, threads: Vec, grid: Vec, id: nat) returns (g: Vec)
    requires Positive3(blocks) && Positive3(threads) && Positive3(grid) && id < Product(grid)
    requires forall d :: 0 <= d < 3 ==> grid[d] == blocks[d] * threads[d]
    ensures InBox(g, grid) && g == Unlinear(grid, id)
  {
    var at := MapToND(grid, id);
    UnlinearInBox(grid, id);
    assert at[0] < grid[0] && at[1] < grid[1] && at[2] < grid[2];
    var b0, t0 := BlockAndThread(blocks[0], threads[0], at[0]);
    var b1, t1 := BlockAndThread(blocks[1], threads[1], at[1]);
    var b2, t2 := BlockAndThread(blocks[2], threads[2], at[2]);
    g := [threads[0] * b0 + t0, threads[1] * b1 + t1, threads[2] * b2 + t2];
  }
}
