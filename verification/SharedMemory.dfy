/** Block-shared memory with the padding that avoids bank conflicts. */
module SharedMemory {
  import opened Arithmetic

  /** Physical cell of logical cell n; banks == 0 stands for the CPU, which pads nothing. */
  function ConflictFree(banks: nat, n: nat): nat {
    if banks == 0 then n else n + n / banks
  }

  lemma ConflictFreeIncreasing(banks: nat, a: nat, b: nat)
    requires a < b
    ensures ConflictFree(banks, a) < ConflictFree(banks, b)
  {
    if banks != 0 {
      DivMonotone(a, b, banks);
    }
  }

  /** n logical cells fit into the physical array. */
  ghost predicate Fits(tmp: array<int>, banks: nat, n: nat) {
    n >= 1 ==> ConflictFree(banks, n - 1) < tmp.Length
  }

  lemma InBounds(tmp: array<int>, banks: nat, n: nat, k: nat)
    requires Fits(tmp, banks, n) && k < n
    ensures ConflictFree(banks, k) < tmp.Length
  {
    if k < n - 1 {
      ConflictFreeIncreasing(banks, k, n - 1);
    }
  }

  /** Both allocations used by the repository are large enough. */
  lemma AllocationsFit(banks: nat, n: nat)
    requires n >= 1
    ensures ConflictFree(banks, n - 1) < ConflictFree(banks, n)
    ensures ConflictFree(banks, n - 1) < ConflictFree(banks, n - 1) + 1
  {
    ConflictFreeIncreasing(banks, n - 1, n);
  }

  ghost function Cell(tmp: array<int>, banks: nat, n: nat, k: nat): int
    requires Fits(tmp, banks, n) && k < n
    reads tmp
  {
    InBounds(tmp, banks, n, k);
    tmp[ConflictFree(banks, k)]
  }

  /** The logical contents of the first n cells. */
  ghost function Cells(tmp: array<int>, banks: nat, n: nat): (s: seq<int>)
    requires Fits(tmp, banks, n)
    reads tmp
  {
    seq(n, k requires 0 <= k < n && Fits(tmp, banks, n) reads tmp => Cell(tmp, banks, n, k))
  }

  function Load(tmp: array<int>, banks: nat, ghost n: nat, k: nat): (v: int)
    requires Fits(tmp, banks, n) && k < n
    reads tmp
    ensures v == Cells(tmp, banks, n)[k]
  {
    InBounds(tmp, banks, n, k);
    tmp[ConflictFree(banks, k)]
  }

  /** Injectivity of the padding: a store changes one logical cell and no other. */
  method Store(tmp: array<int>, banks: nat, ghost n: nat, k: nat, v: int)
    requires Fits(tmp, banks, n) && k < n
    modifies tmp
    ensures Cells(tmp, banks, n) == old(Cells(tmp, banks, n))[k := v]
  {
    InBounds(tmp, banks, n, k);
    tmp[ConflictFree(banks, k)] := v;
    forall i | 0 <= i < n && i != k
      ensures Cell(tmp, banks, n, i) == old(Cell(tmp, banks, n, i))
    {
      InBounds(tmp, banks, n, i);
      ConflictFreeIncreasing(banks, if i < k then i else k, if i < k then k else i);
    }
  }
}
