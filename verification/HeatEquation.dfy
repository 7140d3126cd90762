/** The double-buffered, tiled five-point stencil: tiles through a shared array, border cells, time steps. */
module HeatEquation {
  import opened Arithmetic

  /** The numerics are left uninterpreted: the new value of a cell from itself and its west, east, north and south
      neighbours, and the known solution at column x, row y and time step t. */
  datatype Scheme<!T> = Scheme(update: (T, T, T, T, T) -> T, exact: (nat, nat, nat) -> T)

  datatype Pos = Pos(y: nat, x: nat)

  /** The index range [y0, y1) x [x0, x1). */
  function Box(y0: nat, y1: nat, x0: nat, x1: nat): (s: set<Pos>)
    ensures forall p: Pos :: p in s <==> y0 <= p.y < y1 && x0 <= p.x < x1
  {
    set y: nat, x: nat | y0 <= y < y1 && x0 <= x < x1 :: Pos(y, x)
  }

  ghost predicate SameShape<T>(a: array2<T>, b: array2<T>) {
    a.Length0 == b.Length0 && a.Length1 == b.Length1
  }

  /** One step of the scheme at an interior cell. */
  ghost function Updated<T>(s: Scheme<T>, u: array2<T>, y: nat, x: nat): T
    requires 1 <= y < u.Length0 - 1 && 1 <= x < u.Length1 - 1
    reads u
  {
    s.update(u[y, x], u[y, x - 1], u[y, x + 1], u[y - 1, x], u[y + 1, x])
  }

  // ----- one tile -----

  /** The tile with its halo, loaded from row sy and column sx on. */
  ghost predicate Loaded<T>(u: array2<T>, tile: array2<T>, sy: nat, sx: nat, todo: set<Pos>)
    requires sy + tile.Length0 <= u.Length0 && sx + tile.Length1 <= u.Length1
    reads u, tile
  {
    forall y: nat, x: nat :: y < tile.Length0 && x < tile.Length1 ==>
      Pos(y, x) in todo || tile[y, x] == u[y + sy, x + sx]
  }

  method LoadTile<T>(u: array2<T>, tile: array2<T>, sy: nat, sx: nat)
    requires u != tile && sy + tile.Length0 <= u.Length0 && sx + tile.Length1 <= u.Length1
    modifies tile
    ensures Loaded(u, tile, sy, sx, {})
    ensures forall y: nat, x: nat :: y < tile.Length0 && x < tile.Length1 ==> tile[y, x] == u[y + sy, x + sx]
  {
    var todo := Box(0, tile.Length0, 0, tile.Length1);
    while todo != {}
      invariant todo <= Box(0, tile.Length0, 0, tile.Length1)
      invariant Loaded(u, tile, sy, sx, todo)
      decreases todo
    {
      var p :| p in todo;
      tile[p.y, p.x] := u[p.y + sy, p.x + sx];
      todo := todo - {p};
    }
  }

  /** The core of the tile at (sy, sx): its cells without the halo, offset by one in each dimension. */
  predicate InTile(y: nat, x: nat, sy: nat, sx: nat, cy: nat, cx: nat) {
    sy < y <= sy + cy && sx < x <= sx + cx
  }

  /** Core cells of a tile that are not to do any more. */
  ghost predicate CoreDone(p: Pos, sy: nat, sx: nat, cy: nat, cx: nat, todo: set<Pos>) {
    InTile(p.y, p.x, sy, sx, cy, cx) && Pos(p.y - sy, p.x - sx) !in todo
  }

  method UpdateCell<T>(s: Scheme<T>, ghost u: array2<T>, tile: array2<T>, next: array2<T>, sy: nat, sx: nat, p: Pos)
    requires SameShape(u, next) && u != next && tile != next
    requires sy + tile.Length0 <= u.Length0 && sx + tile.Length1 <= u.Length1 && Loaded(u, tile, sy, sx, {})
    requires 1 <= p.y < tile.Length0 - 1 && 1 <= p.x < tile.Length1 - 1
    modifies next
    ensures forall y: nat, x: nat :: y < next.Length0 && x < next.Length1 ==>
      next[y, x] == if y == p.y + sy && x == p.x + sx then Updated(s, u, y, x) else old(next[y, x])
  {
    next[p.y + sy, p.x + sx] :=
      s.update(tile[p.y, p.x], tile[p.y, p.x - 1], tile[p.y, p.x + 1], tile[p.y - 1, p.x], tile[p.y + 1, p.x]);
  }

  /** The contents of a buffer. */
  ghost function Values<T>(a: array2<T>): (m: map<Pos, T>)
    reads a
    ensures forall p: Pos :: p in m <==> p.y < a.Length0 && p.x < a.Length1
    ensures forall y: nat, x: nat :: y < a.Length0 && x < a.Length1 ==> m[Pos(y, x)] == a[y, x]
  {
    map p: Pos | p in Box(0, a.Length0, 0, a.Length1) :: a[p.y, p.x]
  }

  /** `next` holds updated values at the cells in `done` and the values of `was` elsewhere. */
  ghost predicate UpdatedAt<T>(s: Scheme<T>, u: array2<T>, next: array2<T>, was: map<Pos, T>, done: set<Pos>)
    requires SameShape(u, next) && forall p: Pos :: p in was <==> p.y < next.Length0 && p.x < next.Length1
    reads u, next
  {
    && (forall p: Pos :: p in done ==> 1 <= p.y < u.Length0 - 1 && 1 <= p.x < u.Length1 - 1)
    && forall y: nat, x: nat :: y < next.Length0 && x < next.Length1 ==>
         next[y, x] == if Pos(y, x) in done then Updated(s, u, y, x) else was[Pos(y, x)]
  }

  method UpdateOne<T>(s: Scheme<T>, ghost u: array2<T>, tile: array2<T>, next: array2<T>, sy: nat, sx: nat, p: Pos,
                      ghost was: map<Pos, T>, ghost done: set<Pos>)
    requires SameShape(u, next) && u != next && tile != next
    requires sy + tile.Length0 <= u.Length0 && sx + tile.Length1 <= u.Length1 && Loaded(u, tile, sy, sx, {})
    requires 1 <= p.y < tile.Length0 - 1 && 1 <= p.x < tile.Length1 - 1
    requires forall q: Pos :: q in was <==> q.y < next.Length0 && q.x < next.Length1
    requires UpdatedAt(s, u, next, was, done)
    modifies next
    ensures UpdatedAt(s, u, next, was, done + {Pos(p.y + sy, p.x + sx)})
  {
    UpdateCell(s, u, tile, next, sy, sx, p);
  }

  /** One core cell, read from the tile and recorded in the log. */
  method NextCell<T>(s: Scheme<T>, ghost u: array2<T>, tile: array2<T>, next: array2<T>, sy: nat, sx: nat,
                     cy: nat, cx: nat, p: Pos, ghost was: map<Pos, T>, ghost todo: set<Pos>,
                     ghost log: multiset<Pos>, ghost log1: multiset<Pos>, ghost done: set<Pos>)
    returns (ghost log2: multiset<Pos>, ghost done': set<Pos>)
    requires SameShape(u, next) && u != next && tile != next && tile.Length0 == cy + 2 && tile.Length1 == cx + 2
    requires sy + cy + 2 <= u.Length0 && sx + cx + 2 <= u.Length1 && Loaded(u, tile, sy, sx, {})
    requires forall q: Pos :: q in was <==> q.y < next.Length0 && q.x < next.Length1
    requires p in todo && 1 <= p.y <= cy && 1 <= p.x <= cx && log1 == log + multiset(done)
    requires forall q: Pos :: q in done <==> CoreDone(q, sy, sx, cy, cx, todo)
    requires UpdatedAt(s, u, next, was, done)
    modifies next
    ensures UpdatedAt(s, u, next, was, done') && log2 == log + multiset(done')
    ensures forall q: Pos :: q in done' <==> CoreDone(q, sy, sx, cy, cx, todo - {p})
  {
    UpdateOne(s, u, tile, next, sy, sx, p, was, done);
    log2, done' := Record(p, sy, sx, cy, cx, todo, log, log1, done);
  }

  /** Updates the core cells, in any order. `log` receives the written positions. */
  method UpdateTile<T>(s: Scheme<T>, ghost u: array2<T>, tile: array2<T>, next: array2<T>, sy: nat, sx: nat,
                       cy: nat, cx: nat, ghost log: multiset<Pos>) returns (ghost log': multiset<Pos>)
    requires SameShape(u, next) && u != next && tile != next && tile.Length0 == cy + 2 && tile.Length1 == cx + 2
    requires sy + cy + 2 <= u.Length0 && sx + cx + 2 <= u.Length1 && Loaded(u, tile, sy, sx, {})
    modifies next
    ensures forall y: nat, x: nat :: y < next.Length0 && x < next.Length1 ==>
      next[y, x] == if InTile(y, x, sy, sx, cy, cx) then Updated(s, u, y, x) else old(next[y, x])
    ensures log' == log + multiset(Box(sy + 1, sy + cy + 1, sx + 1, sx + cx + 1))
  {
    // the range [0, chunkSize) shifted by one, past the upper and left halo
    var todo := Box(1, cy + 1, 1, cx + 1);
    ghost var was, done: set<Pos> := Values(next), {};
    log' := log;
    while todo != {}
      invariant forall p: Pos :: p in todo ==> 1 <= p.y <= cy && 1 <= p.x <= cx
      invariant forall p: Pos :: p in done <==> CoreDone(p, sy, sx, cy, cx, todo)
      invariant UpdatedAt(s, u, next, was, done) && log' == log + multiset(done)
      decreases todo
    {
      var p :| p in todo;
      log', done := NextCell(s, u, tile, next, sy, sx, cy, cx, p, was, todo, log, log', done);
      todo := todo - {p};
    }
    CoreComplete(sy, sx, cy, cx, done);
  }

  lemma CoreComplete(sy: nat, sx: nat, cy: nat, cx: nat, done: set<Pos>)
    requires forall p: Pos :: p in done <==> CoreDone(p, sy, sx, cy, cx, {})
    ensures done == Box(sy + 1, sy + cy + 1, sx + 1, sx + cx + 1)
    ensures forall y: nat, x: nat :: Pos(y, x) in done <==> InTile(y, x, sy, sx, cy, cx)
  {
    forall p: Pos ensures p in done <==> p in Box(sy + 1, sy + cy + 1, sx + 1, sx + cx + 1) {
    }
  }

  lemma Record(p: Pos, sy: nat, sx: nat, cy: nat, cx: nat, todo: set<Pos>, log: multiset<Pos>, log1: multiset<Pos>,
               done: set<Pos>) returns (log2: multiset<Pos>, done': set<Pos>)
    requires p in todo && 1 <= p.y <= cy && 1 <= p.x <= cx && log1 == log + multiset(done)
    requires forall q: Pos :: q in done <==> CoreDone(q, sy, sx, cy, cx, todo)
    ensures done' == done + {Pos(p.y + sy, p.x + sx)} && log2 == log + multiset(done')
    ensures forall q: Pos :: q in done' <==> CoreDone(q, sy, sx, cy, cx, todo - {p})
  {
    var q := Pos(p.y + sy, p.x + sx);
    assert q !in done;
    done', log2 := done + {q}, log1 + multiset{q};
  }

  // ----- the stencil kernel -----

  /** Tile b with its halo ends inside a buffer of `nodes` + 2 rows (or columns). */
  ghost predicate TileInside(b: nat, nodes: nat, chunk: nat) {
    Times(b, chunk) + chunk + 2 <= nodes + 2
  }

  /** All tiles the kernel visits stay inside exactly when the chunk divides the number of nodes. */
  lemma TilesInsideExactlyWhen(nodes: nat, chunk: nat)
    requires chunk >= 1
    ensures (forall b: nat :: b < DivCeil(nodes, chunk) ==> TileInside(b, nodes, chunk)) <==> nodes % chunk == 0
  {
    var q := DivCeil(nodes, chunk);
    DivCeilCovers(nodes, chunk);
    if nodes % chunk == 0 {
      DividesTimes(nodes, chunk);
      forall b: nat | b < q ensures TileInside(b, nodes, chunk) {
        TimesOrder(b, q, chunk);
      }
    } else {
      assert q >= 1 by {
        if q == 0 { DivModUnique(nodes, chunk, 0, 0); }
      }
      if TileInside(q - 1, nodes, chunk) {
        TimesOrder(q, q, chunk);
        assert false;
      }
    }
  }

  lemma DividesTimes(nodes: nat, chunk: nat)
    requires chunk >= 1 && nodes % chunk == 0
    ensures nodes == Times(DivCeil(nodes, chunk), chunk)
  {
    var q := nodes / chunk;
    assert nodes == q * chunk;
    TimesIsProduct(q, chunk);
    DivModUnique(nodes + chunk - 1, chunk, q, chunk - 1);
  }

  /** The interior cell (y, x) belongs to one tile: the one numbered here. */
  function TileOf(y: nat, x: nat, cy: nat, cx: nat): Pos
    requires 1 <= y && 1 <= x && 1 <= cy && 1 <= cx
  {
    Pos(BlockOf(y - 1, cy), BlockOf(x - 1, cx))
  }

  lemma OneTileEach(y: nat, x: nat, cy: nat, cx: nat, t: Pos)
    requires 1 <= y && 1 <= x && 1 <= cy && 1 <= cx
    ensures InTile(y, x, Times(t.y, cy), Times(t.x, cx), cy, cx) <==> TileOf(y, x, cy, cx) == t
  {
    InBlock(y - 1, t.y, cy);
    InBlock(x - 1, t.x, cx);
  }

  /** The cell is an interior one and its tile has been updated. */
  ghost predicate TilesDone(y: nat, x: nat, ny: nat, nx: nat, cy: nat, cx: nat, todo: set<Pos>)
    requires 1 <= cy && 1 <= cx
  {
    1 <= y <= ny && 1 <= x <= nx && TileOf(y, x, cy, cx) !in todo
  }

  /** One thread block: load the tile, then update its core. */
  method OneTile<T(0)>(s: Scheme<T>, u: array2<T>, next: array2<T>, sy: nat, sx: nat, cy: nat, cx: nat,
                       ghost log: multiset<Pos>) returns (ghost log': multiset<Pos>)
    requires u != next && SameShape(u, next) && sy + cy + 2 <= u.Length0 && sx + cx + 2 <= u.Length1
    modifies next
    ensures forall y: nat, x: nat :: y < next.Length0 && x < next.Length1 ==>
      next[y, x] == if InTile(y, x, sy, sx, cy, cx) then Updated(s, u, y, x) else old(next[y, x])
    ensures log' == log + multiset(Box(sy + 1, sy + cy + 1, sx + 1, sx + cx + 1))
  {
    var tile := new T[cy + 2, cx + 2];
    LoadTile(u, tile, sy, sx);
    log' := UpdateTile(s, u, tile, next, sy, sx, cy, cx, log);
  }

  /** The core of tile t, in the interior. */
  lemma TileCells(ny: nat, nx: nat, cy: nat, cx: nat, t: Pos, sy: nat, sx: nat)
    requires cy >= 1 && cx >= 1 && sy == Times(t.y, cy) && sx == Times(t.x, cx) && sy + cy <= ny && sx + cx <= nx
    ensures var core := Box(sy + 1, sy + cy + 1, sx + 1, sx + cx + 1);
      forall p: Pos :: p in core <==> InTileNumber(p, ny, nx, cy, cx, t)
  {
    var core := Box(sy + 1, sy + cy + 1, sx + 1, sx + cx + 1);
    forall p: Pos ensures p in core <==> InTileNumber(p, ny, nx, cy, cx, t) {
      if 1 <= p.y && 1 <= p.x {
        OneTileEach(p.y, p.x, cy, cx, t);
      }
    }
  }

  /** p is an interior cell of tile t. */
  ghost predicate InTileNumber(p: Pos, ny: nat, nx: nat, cy: nat, cx: nat, t: Pos)
    requires cy >= 1 && cx >= 1
  {
    1 <= p.y <= ny && 1 <= p.x <= nx && TileOf(p.y, p.x, cy, cx) == t
  }

  /** What the core of tile t adds to the written cells. */
  lemma TileJoins(ny: nat, nx: nat, cy: nat, cx: nat, t: Pos, core: set<Pos>, todo: set<Pos>, done: set<Pos>)
    requires cy >= 1 && cx >= 1 && t in todo
    requires forall p: Pos :: p in core <==> InTileNumber(p, ny, nx, cy, cx, t)
    requires forall p: Pos :: p in done <==> TilesDone(p.y, p.x, ny, nx, cy, cx, todo)
    ensures multiset(done + core) == multiset(done) + multiset(core)
    ensures forall p: Pos :: p in done + core <==> TilesDone(p.y, p.x, ny, nx, cy, cx, todo - {t})
  {
    assert done !! core;
    forall p: Pos ensures p in done + core <==> TilesDone(p.y, p.x, ny, nx, cy, cx, todo - {t}) {
      assert p in core <==> InTileNumber(p, ny, nx, cy, cx, t);
    }
  }

  /** Where tile t starts; it ends inside the grid. */
  method TileStart(ny: nat, nx: nat, cy: nat, cx: nat, t: Pos) returns (sy: nat, sx: nat)
    requires cy >= 1 && cx >= 1 && ny % cy == 0 && nx % cx == 0
    requires t.y < DivCeil(ny, cy) && t.x < DivCeil(nx, cx)
    ensures sy == Times(t.y, cy) && sx == Times(t.x, cx) && sy + cy <= ny && sx + cx <= nx
  {
    sy := StartIn(ny, cy, t.y);
    sx := StartIn(nx, cx, t.x);
  }

  method StartIn(nodes: nat, chunk: nat, b: nat) returns (start: nat)
    requires chunk >= 1 && nodes % chunk == 0 && b < DivCeil(nodes, chunk)
    ensures start == Times(b, chunk) && start + chunk <= nodes
  {
    TimesIsProduct(b, chunk);
    start := b * chunk;
    TilesInsideExactlyWhen(nodes, chunk);
    assert TileInside(b, nodes, chunk);
  }

  /** The whole kernel, its tiles in any order. The source's own check is that the chunk divides the nodes. */
  method StencilKernel<T(0)>(s: Scheme<T>, u: array2<T>, next: array2<T>, ny: nat, nx: nat, cy: nat, cx: nat)
    returns (ghost log: multiset<Pos>)
    requires u != next && SameShape(u, next) && u.Length0 == ny + 2 && u.Length1 == nx + 2
    requires cy >= 1 && cx >= 1 && ny % cy == 0 && nx % cx == 0
    modifies next
    ensures forall y: nat, x: nat :: y < ny + 2 && x < nx + 2 ==>
      next[y, x] == if 1 <= y <= ny && 1 <= x <= nx then Updated(s, u, y, x) else old(next[y, x])
    ensures forall y: nat, x: nat :: 1 <= y <= ny && 1 <= x <= nx ==>
      next[y, x] == s.update(u[y, x], u[y, x - 1], u[y, x + 1], u[y - 1, x], u[y + 1, x])
    ensures log == multiset(Box(1, ny + 1, 1, nx + 1))
  {
    var ty, tx := DivCeil(ny, cy), DivCeil(nx, cx);
    var todo := Box(0, ty, 0, tx);
    ghost var done: set<Pos> := {};
    log := multiset{};
    AllTilesToDo(ny, nx, cy, cx);
    while todo != {}
      invariant todo <= Box(0, ty, 0, tx)
      invariant forall p: Pos :: p in done <==> TilesDone(p.y, p.x, ny, nx, cy, cx, todo)
      invariant forall y: nat, x: nat :: y < ny + 2 && x < nx + 2 ==>
        next[y, x] == if Pos(y, x) in done then Updated(s, u, y, x) else old(next[y, x])
      invariant log == multiset(done)
      decreases todo
    {
      var t :| t in todo;
      var sy, sx := TileStart(ny, nx, cy, cx, t);
      ghost var core := Box(sy + 1, sy + cy + 1, sx + 1, sx + cx + 1);
      TileCells(ny, nx, cy, cx, t, sy, sx);
      TileJoins(ny, nx, cy, cx, t, core, todo, done);
      log := OneTile(s, u, next, sy, sx, cy, cx, log);
      done := done + core;
      todo := todo - {t};
    }
    assert done == Box(1, ny + 1, 1, nx + 1);
  }

  lemma AllTilesToDo(ny: nat, nx: nat, cy: nat, cx: nat)
    requires cy >= 1 && cx >= 1 && ny % cy == 0 && nx % cx == 0
    ensures forall y: nat, x: nat :: 1 <= y <= ny && 1 <= x <= nx ==>
      TileOf(y, x, cy, cx) in Box(0, DivCeil(ny, cy), 0, DivCeil(nx, cx))
  {
    forall y: nat, x: nat | 1 <= y <= ny && 1 <= x <= nx
      ensures TileOf(y, x, cy, cx) in Box(0, DivCeil(ny, cy), 0, DivCeil(nx, cx))
    {
      TileNumber(y - 1, ny, cy);
      TileNumber(x - 1, nx, cx);
    }
  }

  lemma TileNumber(k: nat, nodes: nat, chunk: nat)
    requires chunk >= 1 && nodes % chunk == 0 && k < nodes
    ensures BlockOf(k, chunk) < DivCeil(nodes, chunk)
  {
    DividesTimes(nodes, chunk);
    InBlock(k, BlockOf(k, chunk), chunk);
    TimesOrder(BlockOf(k, chunk), DivCeil(nodes, chunk), chunk);
  }

  // ----- the boundary kernel -----

  /** The cells the two boundary loops write, for `ny` rows and `nx` columns: the second loop's last column is
      taken from the number of rows. */
  function BoundaryWrites(ny: nat, nx: nat): (s: set<Pos>)
    requires ny >= 2
    ensures forall p: Pos :: p in s <==>
      ((p.y == 0 || p.y == ny - 1) && p.x < nx) || (1 <= p.y < ny - 1 && (p.x == 0 || p.x == ny - 1))
  {
    Box(0, 1, 0, nx) + Box(ny - 1, ny, 0, nx) + Box(1, ny - 1, 0, 1) + Box(1, ny - 1, ny - 1, ny)
  }

  ghost predicate OnBorder(p: Pos, ny: nat, nx: nat) {
    p.y < ny && p.x < nx && (p.y == 0 || p.y == ny - 1 || p.x == 0 || p.x == nx - 1)
  }

  /** The kernel stays inside the buffer exactly when the grid is not taller than wide (or has no inner rows), and
      writes the border and nothing else exactly when it is square (or has no inner rows). */
  lemma BoundaryExactlyWhen(ny: nat, nx: nat)
    requires ny >= 2 && nx >= 2
    ensures (forall p: Pos :: p in BoundaryWrites(ny, nx) ==> p.y < ny && p.x < nx) <==> ny <= nx || ny == 2
    ensures (forall p: Pos :: p in BoundaryWrites(ny, nx) <==> OnBorder(p, ny, nx)) <==> ny == nx || ny == 2
  {
    if ny > 2 {
      var last, end := Pos(1, ny - 1), Pos(1, nx - 1);
      assert last in BoundaryWrites(ny, nx) && OnBorder(end, ny, nx);
      assert ny != nx ==> end !in BoundaryWrites(ny, nx);
    }
  }

  /** Border cells whose loop iteration is no longer to do: columns of the first loop, rows of the second. */
  ghost predicate BorderDone(p: Pos, ny: nat, nx: nat, columns: set<int>, rows: set<int>)
    requires ny >= 2
  {
    p in BoundaryWrites(ny, nx) && if p.y == 0 || p.y == ny - 1 then p.x !in columns else p.y !in rows
  }

  /** u holds the known solution at the cells in `done` and the values of `was` elsewhere. */
  ghost predicate SolvedAt<T>(s: Scheme<T>, u: array2<T>, was: map<Pos, T>, step: nat, done: set<Pos>)
    requires forall p: Pos :: p in was <==> p.y < u.Length0 && p.x < u.Length1
    reads u
  {
    forall y: nat, x: nat :: y < u.Length0 && x < u.Length1 ==>
      u[y, x] == if Pos(y, x) in done then s.exact(x, y, step) else was[Pos(y, x)]
  }

  method WritePair<T>(s: Scheme<T>, u: array2<T>, a: Pos, b: Pos, step: nat, ghost was: map<Pos, T>,
                      ghost done: set<Pos>) returns (ghost done': set<Pos>)
    requires a.y < u.Length0 && a.x < u.Length1 && b.y < u.Length0 && b.x < u.Length1
    requires a != b && a !in done && b !in done
    requires forall p: Pos :: p in was <==> p.y < u.Length0 && p.x < u.Length1
    requires SolvedAt(s, u, was, step, done)
    modifies u
    ensures done' == done + {a, b} && multiset(done') == multiset(done) + multiset{a, b}
    ensures SolvedAt(s, u, was, step, done')
  {
    u[a.y, a.x] := s.exact(a.x, a.y, step);
    u[b.y, b.x] := s.exact(b.x, b.y, step);
    done' := done + {a, b};
  }

  ghost predicate BorderSoFar(ny: nat, nx: nat, columns: set<int>, rows: set<int>, done: set<Pos>)
    requires ny >= 2
  {
    forall p: Pos :: p in done <==> BorderDone(p, ny, nx, columns, rows)
  }

  lemma ColumnJoins(ny: nat, nx: nat, columns: set<int>, rows: set<int>, x: nat, done: set<Pos>)
    requires 2 <= ny && x < nx && x in columns && BorderSoFar(ny, nx, columns, rows, done)
    ensures Pos(0, x) !in done && Pos(ny - 1, x) !in done
    ensures BorderSoFar(ny, nx, columns - {x}, rows, done + {Pos(0, x), Pos(ny - 1, x)})
  {
  }

  lemma RowJoins(ny: nat, nx: nat, columns: set<int>, rows: set<int>, y: nat, done: set<Pos>)
    requires 2 <= ny && 1 <= y < ny - 1 && y in rows && BorderSoFar(ny, nx, columns, rows, done)
    ensures Pos(y, 0) !in done && Pos(y, ny - 1) !in done
    ensures BorderSoFar(ny, nx, columns, rows - {y}, done + {Pos(y, 0), Pos(y, ny - 1)})
  {
  }

  lemma BorderBegins(ny: nat, nx: nat)
    requires 2 <= ny
    ensures BorderSoFar(ny, nx, Indices(nx), Indices(ny - 1) - {0}, {})
  {
  }

  lemma BorderEnds(ny: nat, nx: nat, done: set<Pos>)
    requires 2 <= ny && BorderSoFar(ny, nx, {}, {}, done)
    ensures done == BoundaryWrites(ny, nx)
  {
    forall p: Pos ensures p in done <==> p in BoundaryWrites(ny, nx) {
      assert p in done <==> BorderDone(p, ny, nx, {}, {});
    }
  }

  method NextColumn<T>(s: Scheme<T>, u: array2<T>, ny: nat, nx: nat, step: nat, ghost was: map<Pos, T>,
                       ghost columns: set<int>, ghost rows: set<int>, x: nat,
                       ghost log: multiset<Pos>, ghost done: set<Pos>)
    returns (ghost log': multiset<Pos>, ghost done': set<Pos>)
    requires 2 <= ny == u.Length0 && 2 <= nx == u.Length1 && x in columns && x < nx && log == multiset(done)
    requires forall p: Pos :: p in was <==> p.y < u.Length0 && p.x < u.Length1
    requires BorderSoFar(ny, nx, columns, rows, done) && SolvedAt(s, u, was, step, done)
    modifies u
    ensures SolvedAt(s, u, was, step, done') && log' == multiset(done')
    ensures BorderSoFar(ny, nx, columns - {x}, rows, done')
  {
    ColumnJoins(ny, nx, columns, rows, x, done);
    done' := WritePair(s, u, Pos(0, x), Pos(ny - 1, x), step, was, done);
    log' := log + multiset{Pos(0, x), Pos(ny - 1, x)};
  }

  method NextRow<T>(s: Scheme<T>, u: array2<T>, ny: nat, nx: nat, step: nat, ghost was: map<Pos, T>,
                    ghost columns: set<int>, ghost rows: set<int>, y: nat,
                    ghost log: multiset<Pos>, ghost done: set<Pos>)
    returns (ghost log': multiset<Pos>, ghost done': set<Pos>)
    requires 2 <= ny == u.Length0 && 2 <= nx == u.Length1 && ny <= nx
    requires y in rows && 1 <= y < ny - 1 && log == multiset(done)
    requires forall p: Pos :: p in was <==> p.y < u.Length0 && p.x < u.Length1
    requires BorderSoFar(ny, nx, columns, rows, done) && SolvedAt(s, u, was, step, done)
    modifies u
    ensures SolvedAt(s, u, was, step, done') && log' == multiset(done')
    ensures BorderSoFar(ny, nx, columns, rows - {y}, done')
  {
    RowJoins(ny, nx, columns, rows, y, done);
    done' := WritePair(s, u, Pos(y, 0), Pos(y, ny - 1), step, was, done);
    log' := log + multiset{Pos(y, 0), Pos(y, ny - 1)};
  }

  /** Both loops of all threads: no barrier separates them, so their iterations mix freely. */
  method BoundaryKernel<T>(s: Scheme<T>, u: array2<T>, ny: nat, nx: nat, step: nat) returns (ghost log: multiset<Pos>)
    requires 2 <= ny == u.Length0 && 2 <= nx == u.Length1 && (ny <= nx || ny == 2)
    modifies u
    ensures forall y: nat, x: nat :: y < ny && x < nx ==>
      u[y, x] == if Pos(y, x) in BoundaryWrites(ny, nx) then s.exact(x, y, step) else old(u[y, x])
    ensures log == multiset(BoundaryWrites(ny, nx))
  {
    var columns, rows := Indices(nx), Indices(ny - 1) - {0};
    ghost var was, done: set<Pos> := Values(u), {};
    log := multiset{};
    BorderBegins(ny, nx);
    while columns != {} || rows != {}
      invariant columns <= Indices(nx) && rows <= Indices(ny - 1) - {0}
      invariant BorderSoFar(ny, nx, columns, rows, done)
      invariant SolvedAt(s, u, was, step, done) && log == multiset(done)
      decreases columns, rows
    {
      var first: bool := *;
      if columns != {} && (first || rows == {}) {
        var x :| x in columns;
        log, done := NextColumn(s, u, ny, nx, step, was, columns, rows, x, log, done);
        columns := columns - {x};
      } else {
        var y :| y in rows;
        log, done := NextRow(s, u, ny, nx, step, was, columns, rows, y, log, done);
        rows := rows - {y};
      }
    }
    BorderEnds(ny, nx, done);
  }

  // ----- time steps -----

  /** The untiled, single-buffer meaning: the value of a cell of an n * n grid with halo after `step` steps. */
  ghost function Cell<T>(s: Scheme<T>, n: nat, step: nat, y: nat, x: nat): T
    requires y < n + 2 && x < n + 2
    decreases step
  {
    if step == 0 || y == 0 || x == 0 || y == n + 1 || x == n + 1 then
      s.exact(x, y, step)
    else
      s.update(Cell(s, n, step - 1, y, x), Cell(s, n, step - 1, y, x - 1), Cell(s, n, step - 1, y, x + 1),
               Cell(s, n, step - 1, y - 1, x), Cell(s, n, step - 1, y + 1, x))
  }

  ghost predicate Holds<T>(s: Scheme<T>, n: nat, step: nat, u: array2<T>)
    requires u.Length0 == n + 2 && u.Length1 == n + 2
    reads u
  {
    forall y: nat, x: nat :: y < n + 2 && x < n + 2 ==> u[y, x] == Cell(s, n, step, y, x)
  }

  method InitializeBuffer<T>(s: Scheme<T>, n: nat, u: array2<T>)
    requires u.Length0 == n + 2 && u.Length1 == n + 2
    modifies u
    ensures forall y: nat, x: nat :: y < n + 2 && x < n + 2 ==> u[y, x] == s.exact(x, y, 0)
    ensures Holds(s, n, 0, u)
  {
    for j := 0 to n + 2
      invariant forall y: nat, x: nat :: y < j && x < n + 2 ==> u[y, x] == s.exact(x, y, 0)
    {
      for i := 0 to n + 2
        invariant forall y: nat, x: nat :: y < j && x < n + 2 ==> u[y, x] == s.exact(x, y, 0)
        invariant forall x: nat :: x < i ==> u[j, x] == s.exact(x, j, 0)
      {
        u[j, i] := s.exact(i, j, 0);
      }
    }
  }

  lemma InteriorAndBorder(n: nat)
    ensures multiset(Box(0, n + 2, 0, n + 2))
         == multiset(Box(1, n + 1, 1, n + 1)) + multiset(BoundaryWrites(n + 2, n + 2))
  {
    var i, b := Box(1, n + 1, 1, n + 1), BoundaryWrites(n + 2, n + 2);
    assert i !! b && i + b == Box(0, n + 2, 0, n + 2);
    assert multiset(i + b) == multiset(i) + multiset(b);
  }

  lemma NextCellValue<T>(s: Scheme<T>, n: nat, step: nat, u: array2<T>, y: nat, x: nat)
    requires u.Length0 == n + 2 && u.Length1 == n + 2 && step >= 1 && Holds(s, n, step - 1, u)
    requires 1 <= y <= n && 1 <= x <= n
    ensures Updated(s, u, y, x) == Cell(s, n, step, y, x)
  {
  }

  method InteriorStep<T(0)>(s: Scheme<T>, curr: array2<T>, next: array2<T>, n: nat, cy: nat, cx: nat, step: nat)
    returns (ghost log: multiset<Pos>)
    requires curr != next && curr.Length0 == curr.Length1 == next.Length0 == next.Length1 == n + 2
    requires cy >= 1 && cx >= 1 && n % cy == 0 && n % cx == 0 && step >= 1
    requires Holds(s, n, step - 1, curr)
    modifies next
    ensures forall y: nat, x: nat :: 1 <= y <= n && 1 <= x <= n ==> next[y, x] == Cell(s, n, step, y, x)
    ensures forall y: nat, x: nat :: 1 <= y <= n && 1 <= x <= n ==>
      next[y, x] == s.update(curr[y, x], curr[y, x - 1], curr[y, x + 1], curr[y - 1, x], curr[y + 1, x])
    ensures log == multiset(Box(1, n + 1, 1, n + 1))
  {
    log := StencilKernel(s, curr, next, n, n, cy, cx);
    forall y: nat, x: nat | 1 <= y <= n && 1 <= x <= n ensures next[y, x] == Cell(s, n, step, y, x) {
      NextCellValue(s, n, step, curr, y, x);
    }
  }

  /** Both kernels of one time step: every cell of the next buffer is written exactly once. */
  method TimeStep<T(0)>(s: Scheme<T>, curr: array2<T>, next: array2<T>, n: nat, cy: nat, cx: nat, step: nat)
    returns (ghost log: multiset<Pos>)
    requires curr != next && curr.Length0 == curr.Length1 == next.Length0 == next.Length1 == n + 2
    requires cy >= 1 && cx >= 1 && n % cy == 0 && n % cx == 0 && step >= 1
    requires Holds(s, n, step - 1, curr)
    modifies next
    ensures Holds(s, n, step, next)
    ensures forall y: nat, x: nat :: y < n + 2 && x < n + 2 ==>
      next[y, x] == if 1 <= y <= n && 1 <= x <= n
                    then s.update(curr[y, x], curr[y, x - 1], curr[y, x + 1], curr[y - 1, x], curr[y + 1, x])
                    else s.exact(x, y, step)
    ensures log == multiset(Box(0, n + 2, 0, n + 2))
  {
    ghost var inner := InteriorStep(s, curr, next, n, cy, cx, step);
    ghost var border := BoundaryKernel(s, next, n + 2, n + 2, step);
    InteriorAndBorder(n);
    log := inner + border;
  }

  /** The untiled iteration as a function of step, row and column. */
  ghost function Evolution<T>(s: Scheme<T>, n: nat): (nat, nat, nat) -> T {
    (k: nat, y: nat, x: nat) => if y < n + 2 && x < n + 2 then Cell(s, n, k, y, x) else s.exact(x, y, k)
  }

  lemma EvolutionAt<T>(s: Scheme<T>, n: nat, k: nat, y: nat, x: nat)
    requires y < n + 2 && x < n + 2
    ensures Evolution(s, n)(k, y, x) == Cell(s, n, k, y, x)
  {
  }

  lemma EvolutionSteps<T>(s: Scheme<T>, n: nat, k: nat, y: nat, x: nat)
    requires y < n + 2 && x < n + 2
    ensures var h := Evolution(s, n);
      h(k, y, x) == if 1 <= k && 1 <= y <= n && 1 <= x <= n
        then s.update(h(k - 1, y, x), h(k - 1, y, x - 1), h(k - 1, y, x + 1), h(k - 1, y - 1, x), h(k - 1, y + 1, x))
        else s.exact(x, y, k)
  {
    EvolutionAt(s, n, k, y, x);
    if 1 <= k && 1 <= y <= n && 1 <= x <= n {
      EvolutionAt(s, n, k - 1, y, x);
      EvolutionAt(s, n, k - 1, y, x - 1);
      EvolutionAt(s, n, k - 1, y, x + 1);
      EvolutionAt(s, n, k - 1, y - 1, x);
      EvolutionAt(s, n, k - 1, y + 1, x);
    }
  }

  /** The simulation loop; the buffers swap roles after every step. `h` is what the buffer holds from step to step: at
      first the known solution at time 0, then the known solution on the border and the update inside. */
  method Simulate<T(0)>(s: Scheme<T>, n: nat, cy: nat, cx: nat, numTimeSteps: nat)
    returns (u: array2<T>, ghost h: (nat, nat, nat) -> T)
    requires cy >= 1 && cx >= 1 && n % cy == 0 && n % cx == 0
    ensures u.Length0 == u.Length1 == n + 2 && Holds(s, n, numTimeSteps, u)
    ensures forall y: nat, x: nat :: y < n + 2 && x < n + 2 ==> u[y, x] == h(numTimeSteps, y, x)
    ensures forall y: nat, x: nat :: y < n + 2 && x < n + 2 ==> h(0, y, x) == s.exact(x, y, 0)
    ensures forall k: nat, y: nat, x: nat :: y < n + 2 && x < n + 2 && (y == 0 || x == 0 || y > n || x > n) ==>
      h(k, y, x) == s.exact(x, y, k)
    ensures forall k: nat, y: nat, x: nat :: 1 <= k && 1 <= y <= n && 1 <= x <= n ==>
      h(k, y, x) ==
        s.update(h(k - 1, y, x), h(k - 1, y, x - 1), h(k - 1, y, x + 1), h(k - 1, y - 1, x), h(k - 1, y + 1, x))
  {
    u := Iterate(s, n, cy, cx, numTimeSteps);
    h := Evolution(s, n);
    forall y: nat, x: nat | y < n + 2 && x < n + 2
      ensures u[y, x] == h(numTimeSteps, y, x) && h(0, y, x) == s.exact(x, y, 0)
    {
      EvolutionAt(s, n, numTimeSteps, y, x);
      EvolutionSteps(s, n, 0, y, x);
    }
    forall k: nat, y: nat, x: nat | y < n + 2 && x < n + 2 && (y == 0 || x == 0 || y > n || x > n)
      ensures h(k, y, x) == s.exact(x, y, k)
    {
      EvolutionSteps(s, n, k, y, x);
    }
    forall k: nat, y: nat, x: nat | 1 <= k && 1 <= y <= n && 1 <= x <= n
      ensures h(k, y, x) ==
        s.update(h(k - 1, y, x), h(k - 1, y, x - 1), h(k - 1, y, x + 1), h(k - 1, y - 1, x), h(k - 1, y + 1, x))
    {
      EvolutionSteps(s, n, k, y, x);
    }
  }

  method Iterate<T(0)>(s: Scheme<T>, n: nat, cy: nat, cx: nat, numTimeSteps: nat) returns (u: array2<T>)
    requires cy >= 1 && cx >= 1 && n % cy == 0 && n % cx == 0
    ensures u.Length0 == u.Length1 == n + 2 && Holds(s, n, numTimeSteps, u)
  {
    var curr, next := new T[n + 2, n + 2], new T[n + 2, n + 2];
    InitializeBuffer(s, n, curr);
    for step := 1 to numTimeSteps + 1
      invariant curr != next && fresh(curr) && fresh(next)
      invariant curr.Length0 == curr.Length1 == next.Length0 == next.Length1 == n + 2
      invariant Holds(s, n, step - 1, curr)
    {
      ghost var log := TimeStep(s, curr, next, n, cy, cx, step);
      curr, next := next, curr;
    }
    u := curr;
  }
}
