/** One chunk of the basic kernel: load with zero padding, scan in shared memory, write back. */
module ScanChunk {
  import opened Arithmetic
  import opened Sums
  import opened SharedMemory
  import opened TreeScan

  /** size elements of s from off on, zeros behind its end. */
  function Window(s: seq<int>, off: nat, size: nat): (w: seq<int>)
    ensures |w| == size
  {
    seq(size, k requires 0 <= k => if off + k < |s| then s[off + k] else 0)
  }

  lemma WindowSum(s: seq<int>, off: nat, size: nat, k: nat)
    requires off <= |s| && k <= size
    ensures Sum(Window(s, off, size), 0, k) == Sum(s, off, Min(off + k, |s|))
  {
    var w, m := Window(s, off, size), Min(off + k, |s|) - off;
    SumSplit(w, 0, m, k);
    SumShifted(w, s, 0, m, off);
    SumOfZeros(w, m, k);
  }

  /** Element i of a scan of s that starts at lo: an inclusive scan counts the element itself. */
  function ScanFrom(s: seq<int>, lo: nat, i: nat, inclusive: bool): (r: int)
    requires lo <= i < |s|
    ensures r == Sum(s, lo, if inclusive then i + 1 else i)
  {
    Sum(s, lo, i) + if inclusive then s[i] else 0
  }

  method CopyToShared(input: array<int>, n: nat, off: nat, tmp: array<int>, banks: nat, size: nat)
    requires n <= input.Length && tmp != input && Fits(tmp, banks, size)
    modifies tmp
    ensures Cells(tmp, banks, size) == Window(input[..n], off, size)
  {
    var todo := Indices(size);
    while todo != {}
      invariant todo <= Indices(size)
      invariant forall k :: 0 <= k < size && k !in todo ==>
        Cells(tmp, banks, size)[k] == Window(input[..n], off, size)[k]
      decreases todo
    {
      var k :| k in todo;
      if off + k < n {
        Store(tmp, banks, size, k, input[off + k]);
      } else {
        Store(tmp, banks, size, k, 0);
      }
      todo := todo - {k};
    }
  }

  /** Output after the write-back of the window at off, given the scanned shared memory t. */
  ghost function WrittenBack(input: seq<int>, output: seq<int>, n: nat, off: nat, t: seq<int>, inclusive: bool,
                             todo: set<int>): (r: seq<int>)
    requires n <= |input| && n <= |output|
    ensures |r| == |output|
  {
    seq(|output|, i requires 0 <= i < |output| =>
      if off <= i < off + |t| && i < n && i - off !in todo then
        (if inclusive then input[i] else 0) + t[i - off]
      else output[i])
  }

  lemma WrittenBackAt(input: seq<int>, output: seq<int>, n: nat, off: nat, t: seq<int>, inclusive: bool)
    requires n <= |input| && n <= |output|
    ensures var r := WrittenBack(input, output, n, off, t, inclusive, {});
      forall i: nat {:trigger r[i]} :: i < |r| ==>
        r[i] == if off <= i < off + |t| && i < n then t[i - off] + if inclusive then input[i] else 0 else output[i]
  {
  }

  method StoreElement(input: array<int>, output: array<int>, n: nat, off: nat, tmp: array<int>, banks: nat, size: nat,
                      inclusive: bool, k: nat, ghost ins: seq<int>, ghost outs: seq<int>, ghost todo: set<int>)
    requires n <= input.Length == |ins| && n <= output.Length == |outs| && tmp != output && Fits(tmp, banks, size)
    requires k < size && k in todo && (if input == output then ins == outs else input[..] == ins)
    requires output[..] == WrittenBack(ins, outs, n, off, Cells(tmp, banks, size), inclusive, todo)
    modifies output
    ensures Cells(tmp, banks, size) == old(Cells(tmp, banks, size)) && (input != output ==> input[..] == ins)
    ensures output[..] == WrittenBack(ins, outs, n, off, Cells(tmp, banks, size), inclusive, todo - {k})
  {
    if off + k < n {
      assert input[off + k] == ins[off + k] by {
        assert output[..][off + k] == outs[off + k];
        assert input != output ==> input[..][off + k] == ins[off + k];
      }
      if inclusive {
        output[off + k] := input[off + k] + Load(tmp, banks, size, k);
      } else {
        output[off + k] := Load(tmp, banks, size, k);
      }
    }
  }

  method WriteBack(input: array<int>, output: array<int>, n: nat, off: nat, tmp: array<int>, banks: nat, size: nat,
                   inclusive: bool)
    requires n <= input.Length && n <= output.Length && tmp != output && Fits(tmp, banks, size)
    modifies output
    ensures output[..] == WrittenBack(old(input[..]), old(output[..]), n, off, Cells(tmp, banks, size), inclusive, {})
    ensures forall i: nat :: i < output.Length ==>
      output[i] == if off <= i < off + size && i < n
                   then Cells(tmp, banks, size)[i - off] + if inclusive then old(input[i]) else 0
                   else old(output[i])
  {
    ghost var t, ins, outs := Cells(tmp, banks, size), input[..], output[..];
    var todo := Indices(size);
    while todo != {}
      invariant todo <= Indices(size) && t == Cells(tmp, banks, size)
      invariant if input == output then ins == outs else input[..] == ins
      invariant output[..] == WrittenBack(ins, outs, n, off, t, inclusive, todo)
      decreases todo
    {
      var k :| k in todo;
      StoreElement(input, output, n, off, tmp, banks, size, inclusive, k, ins, outs, todo);
      todo := todo - {k};
    }
    WrittenBackAt(ins, outs, n, off, t, inclusive);
    assert forall i: nat :: i < output.Length ==> output[..][i] == output[i];
  }

  /** What either kernel does to the chunk at off. */
  ghost predicate ChunkScanned(s: seq<int>, before: seq<int>, after: seq<int>, off: nat, size: nat, inclusive: bool)
    requires off <= |s| <= |before|
  {
    && |after| == |before|
    && forall i: nat :: i < |after| ==>
         after[i] == if off <= i < off + size && i < |s| then ScanFrom(s, off, i, inclusive) else before[i]
  }

  lemma ChunkScannedAt(s: seq<int>, before: seq<int>, after: seq<int>, off: nat, size: nat, inclusive: bool)
    requires off <= |s| <= |before| && ChunkScanned(s, before, after, off, size, inclusive)
    ensures forall i: nat {:trigger after[i]} :: i < |after| ==>
      after[i] == if off <= i < off + size && i < |s| then Sum(s, off, if inclusive then i + 1 else i) else before[i]
  {
  }

  /** Two kernels that meet this leave the same output. */
  lemma ChunkScanIsUnique(s: seq<int>, before: seq<int>, a: seq<int>, b: seq<int>, off: nat, size: nat, inclusive: bool)
    requires off <= |s| <= |before|
    requires ChunkScanned(s, before, a, off, size, inclusive) && ChunkScanned(s, before, b, off, size, inclusive)
    ensures a == b
  {
    forall i | 0 <= i < |before| ensures a[i] == b[i] {
    }
  }

  lemma WrittenBackIsScan(s: seq<int>, input: seq<int>, output: seq<int>, off: nat, size: nat, t: seq<int>,
                          inclusive: bool)
    requires off <= |s| <= |input| && |s| <= |output| && s == input[..|s|] && |t| == size
    requires forall k: nat :: k < size ==> t[k] == Sum(Window(s, off, size), 0, k)
    ensures ChunkScanned(s, output, WrittenBack(input, output, |s|, off, t, inclusive, {}), off, size, inclusive)
  {
    forall k: nat | k < size && off + k < |s| ensures t[k] == Sum(s, off, off + k) {
      WindowSum(s, off, size, k);
    }
  }

  method ScanOneChunk(input: array<int>, output: array<int>, n: nat, off: nat, size: nat, banks: nat, inclusive: bool)
    returns (total: int)
    requires off <= n <= input.Length && n <= output.Length && IsPow2(size)
    modifies output
    ensures ChunkScanned(old(input[..n]), old(output[..]), output[..], off, size, inclusive)
    ensures forall i: nat :: i < output.Length ==>
      output[i] == if off <= i < off + size && i < n then Sum(old(input[..n]), off, if inclusive then i + 1 else i)
                   else old(output[i])
    ensures total == Sum(old(input[..n]), off, Min(off + size, n))
  {
    ghost var s := input[..n];
    var tmp := new int[ConflictFree(banks, size)];
    AllocationsFit(banks, size);
    CopyToShared(input, n, off, tmp, banks, size);
    WindowSum(s, off, size, size);
    total := ScanTree(tmp, banks, size);
    WriteBack(input, output, n, off, tmp, banks, size, inclusive);
    WrittenBackIsScan(s, old(input[..]), old(output[..]), off, size, Cells(tmp, banks, size), inclusive);
    ChunkScannedAt(s, old(output[..]), output[..], off, size, inclusive);
    assert forall i: nat :: i < output.Length ==> output[..][i] == output[i];
  }
}
