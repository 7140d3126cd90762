/** The two sweeps as the threads of a block execute them between barriers.
    `todo` holds, for every pair of a level, one copy of the pair for each memory access its worker
    still has to make. Any pair may make its next access at any time, so the contracts hold for
    every interleaving of the workers. */
module TreeScan {
  import opened Arithmetic
  import opened Sums
  import opened SharedMemory
  import opened Sweeps

  lemma LeftIsNoRight(ps: seq<Pair>, n: nat, j: int)
    requires DisjointPairs(ps, n) && 0 <= j < |ps|
    ensures ps[j].left !in Rights(ps) && ps[j].right in Rights(ps)
    ensures ps[j].right !in Lefts(ps) && ps[j].left in Lefts(ps)
  {
  }

  lemma SomeMember(todo: multiset<int>)
    ensures todo == multiset{} || exists j :: j in todo
  {
    if forall j :: j !in todo {
      assert todo == multiset{};
    }
  }

  /** The worker that happens to make the next access. */
  method AnyOf(todo: multiset<int>) returns (j: int)
    requires todo != multiset{}
    ensures j in todo
  {
    SomeMember(todo);
    j :| j in todo;
  }

  // ----- tmp[right] += tmp[left]: load left, load right, store right -----

  /** Cells of a level in progress, started from s. */
  ghost predicate AddingCells(s: seq<int>, ps: seq<Pair>, todo: multiset<int>, c: seq<int>)
    requires DisjointPairs(ps, |s|)
  {
    && |c| == |s|
    && (forall i :: 0 <= i < |s| && i !in Rights(ps) ==> c[i] == s[i])
    && (forall j :: 0 <= j < |ps| ==>
         c[ps[j].right] == if j in todo then s[ps[j].right] else s[ps[j].right] + s[ps[j].left])
  }

  /** Registers of its workers. */
  ghost predicate AddingRegisters(s: seq<int>, ps: seq<Pair>, todo: multiset<int>, l: map<int, int>, r: map<int, int>)
    requires DisjointPairs(ps, |s|)
  {
    && (forall j :: j in todo ==> 0 <= j < |ps| && todo[j] <= 3)
    && (forall j :: j in todo && todo[j] <= 2 ==> j in l && l[j] == s[ps[j].left])
    && (forall j :: j in todo && todo[j] == 1 ==> j in r && r[j] == s[ps[j].right])
  }

  lemma AddingOperands(s: seq<int>, ps: seq<Pair>, todo: multiset<int>, c: seq<int>, j: int)
    requires DisjointPairs(ps, |s|) && AddingCells(s, ps, todo, c) && j in todo && 0 <= j < |ps|
    ensures c[ps[j].left] == s[ps[j].left] && c[ps[j].right] == s[ps[j].right]
    ensures todo[j] > 1 ==> AddingCells(s, ps, todo - multiset{j}, c)
  {
    LeftIsNoRight(ps, |s|, j);
  }

  lemma AddingStore(s: seq<int>, ps: seq<Pair>, todo: multiset<int>, c: seq<int>, j: int, x: int)
    requires DisjointPairs(ps, |s|) && AddingCells(s, ps, todo, c) && 0 <= j < |ps| && todo[j] == 1
    requires x == s[ps[j].right] + s[ps[j].left]
    ensures AddingCells(s, ps, todo - multiset{j}, c[ps[j].right := x])
  {
    LeftIsNoRight(ps, |s|, j);
  }

  lemma AddingLoads(s: seq<int>, ps: seq<Pair>, todo: multiset<int>, l: map<int, int>, r: map<int, int>, j: int)
    requires DisjointPairs(ps, |s|) && AddingRegisters(s, ps, todo, l, r) && j in todo
    ensures 0 <= j < |ps| && 1 <= todo[j] <= 3
    ensures todo[j] == 3 ==> AddingRegisters(s, ps, todo - multiset{j}, l[j := s[ps[j].left]], r)
    ensures todo[j] == 2 ==> AddingRegisters(s, ps, todo - multiset{j}, l, r[j := s[ps[j].right]])
    ensures todo[j] == 1 ==> AddingRegisters(s, ps, todo - multiset{j}, l, r)
    ensures todo[j] == 1 ==> j in l && j in r && r[j] == s[ps[j].right] && l[j] == s[ps[j].left]
  {
  }

  /** The next access of pair j's worker. */
  method AddAccess(tmp: array<int>, banks: nat, n: nat, ps: seq<Pair>, todo: multiset<int>, j: int,
                   l: map<int, int>, r: map<int, int>, ghost s: seq<int>)
    returns (todo': multiset<int>, l': map<int, int>, r': map<int, int>)
    requires Fits(tmp, banks, n) && |s| == n && DisjointPairs(ps, |s|) && j in todo
    requires AddingCells(s, ps, todo, Cells(tmp, banks, n)) && AddingRegisters(s, ps, todo, l, r)
    modifies tmp
    ensures |todo'| < |todo|
    ensures AddingCells(s, ps, todo', Cells(tmp, banks, n)) && AddingRegisters(s, ps, todo', l', r')
  {
    todo', l', r' := todo - multiset{j}, l, r;
    AddingLoads(s, ps, todo, l, r, j);
    AddingOperands(s, ps, todo, Cells(tmp, banks, n), j);
    if todo[j] == 3 {
      l' := l[j := Load(tmp, banks, n, ps[j].left)];
    } else if todo[j] == 2 {
      r' := r[j := Load(tmp, banks, n, ps[j].right)];
    } else {
      AddingStore(s, ps, todo, Cells(tmp, banks, n), j, r[j] + l[j]);
      Store(tmp, banks, n, ps[j].right, r[j] + l[j]);
    }
  }

  lemma AddingBegins(s: seq<int>, ps: seq<Pair>)
    requires DisjointPairs(ps, |s|)
    ensures AddingCells(s, ps, Copies(|ps|, 3), s) && AddingRegisters(s, ps, Copies(|ps|, 3), map[], map[])
  {
  }

  lemma AddingEnds(s: seq<int>, ps: seq<Pair>, c: seq<int>)
    requires DisjointPairs(ps, |s|) && AddingCells(s, ps, multiset{}, c)
    ensures AddedPairs(s, ps, c)
  {
  }

  method AddPairs(tmp: array<int>, banks: nat, n: nat, ps: seq<Pair>)
    requires Fits(tmp, banks, n) && DisjointPairs(ps, n)
    modifies tmp
    ensures AddedPairs(old(Cells(tmp, banks, n)), ps, Cells(tmp, banks, n))
  {
    ghost var s := Cells(tmp, banks, n);
    var todo: multiset<int> := Copies(|ps|, 3);
    var l: map<int, int>, r: map<int, int> := map[], map[];
    AddingBegins(s, ps);
    while todo != multiset{}
      invariant AddingCells(s, ps, todo, Cells(tmp, banks, n))
      invariant AddingRegisters(s, ps, todo, l, r)
      decreases |todo|
    {
      var j := AnyOf(todo);
      todo, l, r := AddAccess(tmp, banks, n, ps, todo, j, l, r, s);
    }
    AddingEnds(s, ps, Cells(tmp, banks, n));
  }

  // ----- t = tmp[left]; tmp[left] = tmp[right]; tmp[right] += t: -----
  // ----- load left, load right, store left, load right, store right -----

  ghost predicate SwappingCells(s: seq<int>, ps: seq<Pair>, todo: multiset<int>, c: seq<int>)
    requires DisjointPairs(ps, |s|)
  {
    && |c| == |s|
    && (forall i :: 0 <= i < |s| && i !in Lefts(ps) && i !in Rights(ps) ==> c[i] == s[i])
    && (forall j :: 0 <= j < |ps| ==>
         c[ps[j].left] == if todo[j] >= 3 then s[ps[j].left] else s[ps[j].right])
    && (forall j :: 0 <= j < |ps| ==>
         c[ps[j].right] == if j in todo then s[ps[j].right] else s[ps[j].right] + s[ps[j].left])
  }

  ghost predicate SwappingRegisters(s: seq<int>, ps: seq<Pair>, todo: multiset<int>,
                                    t: map<int, int>, v: map<int, int>)
    requires DisjointPairs(ps, |s|)
  {
    && (forall j :: j in todo ==> 0 <= j < |ps| && todo[j] <= 5)
    && (forall j :: j in todo && todo[j] <= 4 ==> j in t && t[j] == s[ps[j].left])
    && (forall j :: j in todo && (todo[j] == 3 || todo[j] == 1) ==> j in v && v[j] == s[ps[j].right])
  }

  lemma SwappingOperands(s: seq<int>, ps: seq<Pair>, todo: multiset<int>, c: seq<int>, j: int)
    requires DisjointPairs(ps, |s|) && SwappingCells(s, ps, todo, c) && j in todo && 0 <= j < |ps|
    ensures todo[j] >= 3 ==> c[ps[j].left] == s[ps[j].left]
    ensures c[ps[j].right] == s[ps[j].right]
    ensures todo[j] != 3 && todo[j] != 1 ==> SwappingCells(s, ps, todo - multiset{j}, c)
  {
  }

  lemma SwappingStoreLeft(s: seq<int>, ps: seq<Pair>, todo: multiset<int>, c: seq<int>, j: int, x: int)
    requires DisjointPairs(ps, |s|) && SwappingCells(s, ps, todo, c) && 0 <= j < |ps| && todo[j] == 3
    requires x == s[ps[j].right]
    ensures SwappingCells(s, ps, todo - multiset{j}, c[ps[j].left := x])
  {
    LeftIsNoRight(ps, |s|, j);
  }

  lemma SwappingStoreRight(s: seq<int>, ps: seq<Pair>, todo: multiset<int>, c: seq<int>, j: int, x: int)
    requires DisjointPairs(ps, |s|) && SwappingCells(s, ps, todo, c) && 0 <= j < |ps| && todo[j] == 1
    requires x == s[ps[j].right] + s[ps[j].left]
    ensures SwappingCells(s, ps, todo - multiset{j}, c[ps[j].right := x])
  {
    LeftIsNoRight(ps, |s|, j);
  }

  lemma SwappingLoads(s: seq<int>, ps: seq<Pair>, todo: multiset<int>, t: map<int, int>, v: map<int, int>, j: int)
    requires DisjointPairs(ps, |s|) && SwappingRegisters(s, ps, todo, t, v) && j in todo
    ensures 0 <= j < |ps| && 1 <= todo[j] <= 5
    ensures todo[j] == 5 ==> SwappingRegisters(s, ps, todo - multiset{j}, t[j := s[ps[j].left]], v)
    ensures todo[j] == 4 || todo[j] == 2 ==>
      SwappingRegisters(s, ps, todo - multiset{j}, t, v[j := s[ps[j].right]])
    ensures todo[j] == 3 || todo[j] == 1 ==> SwappingRegisters(s, ps, todo - multiset{j}, t, v)
    ensures todo[j] == 3 ==> j in v && v[j] == s[ps[j].right]
    ensures todo[j] == 1 ==> j in t && j in v && v[j] == s[ps[j].right] && t[j] == s[ps[j].left]
  {
  }

  method SwapAccess(tmp: array<int>, banks: nat, n: nat, ps: seq<Pair>, todo: multiset<int>, j: int,
                    t: map<int, int>, v: map<int, int>, ghost s: seq<int>)
    returns (todo': multiset<int>, t': map<int, int>, v': map<int, int>)
    requires Fits(tmp, banks, n) && |s| == n && DisjointPairs(ps, |s|) && j in todo
    requires SwappingCells(s, ps, todo, Cells(tmp, banks, n)) && SwappingRegisters(s, ps, todo, t, v)
    modifies tmp
    ensures |todo'| < |todo|
    ensures SwappingCells(s, ps, todo', Cells(tmp, banks, n)) && SwappingRegisters(s, ps, todo', t', v')
  {
    todo', t', v' := todo - multiset{j}, t, v;
    SwappingLoads(s, ps, todo, t, v, j);
    SwappingOperands(s, ps, todo, Cells(tmp, banks, n), j);
    if todo[j] == 5 {
      t' := t[j := Load(tmp, banks, n, ps[j].left)];
    } else if todo[j] == 3 {
      SwappingStoreLeft(s, ps, todo, Cells(tmp, banks, n), j, v[j]);
      Store(tmp, banks, n, ps[j].left, v[j]);
    } else if todo[j] == 1 {
      SwappingStoreRight(s, ps, todo, Cells(tmp, banks, n), j, v[j] + t[j]);
      Store(tmp, banks, n, ps[j].right, v[j] + t[j]);
    } else {
      v' := v[j := Load(tmp, banks, n, ps[j].right)];
    }
  }

  lemma SwappingBegins(s: seq<int>, ps: seq<Pair>)
    requires DisjointPairs(ps, |s|)
    ensures SwappingCells(s, ps, Copies(|ps|, 5), s) && SwappingRegisters(s, ps, Copies(|ps|, 5), map[], map[])
  {
  }

  lemma SwappingEnds(s: seq<int>, ps: seq<Pair>, c: seq<int>)
    requires DisjointPairs(ps, |s|) && SwappingCells(s, ps, multiset{}, c)
    ensures SwappedPairs(s, ps, c)
  {
  }

  method SwapPairs(tmp: array<int>, banks: nat, n: nat, ps: seq<Pair>)
    requires Fits(tmp, banks, n) && DisjointPairs(ps, n)
    modifies tmp
    ensures SwappedPairs(old(Cells(tmp, banks, n)), ps, Cells(tmp, banks, n))
  {
    ghost var s := Cells(tmp, banks, n);
    var todo: multiset<int> := Copies(|ps|, 5);
    var t: map<int, int>, v: map<int, int> := map[], map[];
    SwappingBegins(s, ps);
    while todo != multiset{}
      invariant SwappingCells(s, ps, todo, Cells(tmp, banks, n))
      invariant SwappingRegisters(s, ps, todo, t, v)
      decreases |todo|
    {
      var j := AnyOf(todo);
      todo, t, v := SwapAccess(tmp, banks, n, ps, todo, j, t, v, s);
    }
    SwappingEnds(s, ps, Cells(tmp, banks, n));
  }

  method UpSweepLevel(tmp: array<int>, banks: nat, n: nat, d: nat, offset: nat)
    requires Fits(tmp, banks, n) && offset >= 1 && Times(d, 2 * offset) == n
    modifies tmp
    ensures Cells(tmp, banks, n) == UpLevel(old(Cells(tmp, banks, n)), offset)
  {
    LevelPairsCover(n, offset, d);
    AddPairs(tmp, banks, n, LevelPairs(offset, d));
    AddedPairsIsUpLevel(old(Cells(tmp, banks, n)), LevelPairs(offset, d), offset, Cells(tmp, banks, n));
  }

  method DownSweepLevel(tmp: array<int>, banks: nat, n: nat, d: nat, offset: nat)
    requires Fits(tmp, banks, n) && offset >= 1 && Times(d, 2 * offset) == n
    modifies tmp
    ensures Cells(tmp, banks, n) == DownLevel(old(Cells(tmp, banks, n)), offset)
  {
    LevelPairsCover(n, offset, d);
    SwapPairs(tmp, banks, n, LevelPairs(offset, d));
    SwappedPairsIsDownLevel(old(Cells(tmp, banks, n)), LevelPairs(offset, d), offset, Cells(tmp, banks, n));
  }

  /** All up-sweep levels: each cell ends up with the sum of the subtree it closes. */
  method UpSweep(tmp: array<int>, banks: nat, n: nat)
    requires IsPow2(n) && Fits(tmp, banks, n)
    modifies tmp
    ensures SubtreeSums(old(Cells(tmp, banks, n)), Cells(tmp, banks, n), n)
  {
    ghost var a := Cells(tmp, banks, n);
    LeafPrefixes(a, a);
    TimesIsProduct(n / 2, 2);
    TimesIsProduct(1, n);
    var d, offset := n / 2, 1;
    while d > 0
      invariant d >= 0 && offset >= 1 && SubtreeSums(a, Cells(tmp, banks, n), offset)
      invariant if d == 0 then offset == n else IsPow2(d) && Times(d, 2 * offset) == n
    {
      UpLevelSums(a, Cells(tmp, banks, n), offset);
      UpSweepLevel(tmp, banks, n, d, offset);
      HalvedPairs(n, d, offset);
      d, offset := d / 2, 2 * offset;
    }
  }

  /** All down-sweep levels: subtree sums become exclusive prefix sums. */
  method DownSweep(tmp: array<int>, banks: nat, n: nat, ghost a: seq<int>)
    requires IsPow2(n) && Fits(tmp, banks, n)
    requires BlockPrefixes(a, Cells(tmp, banks, n), n)
    modifies tmp
    ensures BlockPrefixes(a, Cells(tmp, banks, n), 1)
  {
    var d, offset := 1, n / 2;
    ghost var b := n;
    while d < n
      invariant b >= 1 && IsPow2(b) && Times(d, b) == n && offset == b / 2 && d >= 1
      invariant BlockPrefixes(a, Cells(tmp, banks, n), b)
    {
      HalvedBlocks(n, d, b);
      DownLevelPrefixes(a, Cells(tmp, banks, n), offset);
      DownSweepLevel(tmp, banks, n, d, offset);
      d, offset, b := d * 2, offset / 2, b / 2;
    }
    if b != 1 { TimesIsProduct(d, b); MulLeft(2, b, d); }
  }

  /** What the shared tree computes: the exclusive prefix sums of its contents, and their total. */
  method ScanTree(tmp: array<int>, banks: nat, n: nat) returns (total: int)
    requires IsPow2(n) && Fits(tmp, banks, n)
    modifies tmp
    ensures total == Sum(old(Cells(tmp, banks, n)), 0, n)
    ensures forall i: nat :: i < n ==> Cells(tmp, banks, n)[i] == Sum(old(Cells(tmp, banks, n)), 0, i)
  {
    ghost var a := Cells(tmp, banks, n);
    UpSweep(tmp, banks, n);
    ClearedRoot(a, Cells(tmp, banks, n));
    total := Load(tmp, banks, n, n - 1);
    Store(tmp, banks, n, n - 1, 0);
    DownSweep(tmp, banks, n, a);
    LeafPrefixes(a, Cells(tmp, banks, n));
  }

  lemma HalvedPairs(n: nat, d: nat, offset: nat)
    requires d >= 1 && IsPow2(d) && Times(d, 2 * offset) == n
    ensures d == 1 ==> offset * 2 == n
    ensures d != 1 ==> IsPow2(d / 2) && Times(d / 2, 2 * (2 * offset)) == n
  {
    TimesIsProduct(d, 2 * offset);
    if d != 1 {
      var h := d / 2;
      TimesIsProduct(h, 2 * (2 * offset));
      assert d == 2 * h;
      DoubleSwap(h, 2 * offset);
    }
  }

  lemma HalvedBlocks(n: nat, d: nat, b: nat)
    requires 1 <= d < n && b >= 1 && IsPow2(b) && Times(d, b) == n
    ensures b != 1 && IsPow2(b / 2) && 2 * (b / 2) == b
    ensures Times(d * 2, b / 2) == n && n % b == 0
  {
    TimesIsProduct(d, b);
    DivModUnique(n, b, d, 0);
    var h := b / 2;
    assert b != 1 && b == 2 * h;
    TimesIsProduct(d * 2, h);
    DoubleSwap(d, h);
  }

  lemma DoubleSwap(x: nat, y: nat)
    ensures (2 * x) * y == x * (2 * y) == (x * 2) * y
  {
  }
}
