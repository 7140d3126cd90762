/** Pitches and line-wise aligned layout of multi-dimensional memory. */
module MemoryLayout {
  import opened Arithmetic
  import opened VecIndex

  /** Byte distances per dimension for a given row pitch: the last is the element size. */
  function Pitches(extents: Vec, elemSize: nat, rowPitch: nat): (p: Vec)
    requires |extents| >= 2
    ensures |p| == |extents|
  {
    if |extents| == 2 then [rowPitch, elemSize]
    else var rest := Pitches(extents[1..], elemSize, rowPitch);
         [extents[1] * rest[0]] + rest
  }

  /** The dot product used to address an element. */
  function Offset(idx: Vec, pitches: Vec): nat
    requires |idx| == |pitches|
  {
    if idx == [] then 0 else idx[0] * pitches[0] + Offset(idx[1..], pitches[1..])
  }

  method CalculatePitches(extents: Vec, elemSize: nat, rowPitch: nat) returns (pitchBytes: Vec)
    requires |extents| >= 2
    ensures pitchBytes == Pitches(extents, elemSize, rowPitch)
  {
    var dim := |extents|;
    pitchBytes := seq(dim, _ => 0)[dim - 1 := elemSize][dim - 2 := rowPitch];
    var i := dim - 2;
    while i > 0
      invariant 0 <= i <= dim - 2 && |pitchBytes| == dim
      invariant pitchBytes[i..] == Pitches(extents[i..], elemSize, rowPitch)
    {
      assert extents[i - 1..][1..] == extents[i..];
      pitchBytes := pitchBytes[i - 1 := extents[i] * pitchBytes[i]];
      assert pitchBytes[i - 1..] == [pitchBytes[i - 1]] + pitchBytes[i..];
      i := i - 1;
    }
  }

  method CalculatePitchesFromExtents(extents: Vec, elemSize: nat) returns (pitchBytes: Vec)
    requires |extents| >= 1
    ensures |pitchBytes| == |extents|
    ensures forall d :: 0 <= d < |extents| ==> pitchBytes[d] == Product(extents[d + 1..]) * elemSize
  {
    var dim := |extents|;
    pitchBytes := seq(dim, _ => 0)[dim - 1 := elemSize];
    assert extents[dim..] == [];
    var i := dim - 1;
    while i > 0
      invariant 0 <= i <= dim - 1 && |pitchBytes| == dim
      invariant forall d :: i <= d < dim ==> pitchBytes[d] == Product(extents[d + 1..]) * elemSize
    {
      assert extents[i..][1..] == extents[i + 1..];
      Associate(extents[i], Product(extents[i + 1..]), elemSize);
      pitchBytes := pitchBytes[i - 1 := extents[i] * pitchBytes[i]];
      i := i - 1;
    }
  }

  function RowPitch(x: nat, elemSize: nat, alignment: nat): nat
    requires alignment >= 1
  {
    DivCeil(x * elemSize, alignment) * alignment
  }

  method EmulatedAlignedMemDescription(elemSize: nat, alignment: nat, extents: Vec)
    returns (memSize: nat, pitches: Vec)
    requires |extents| >= 1 && alignment >= 1
    ensures |pitches| == |extents| && memSize == pitches[0] * extents[0]
    ensures |extents| == 1 ==> pitches == [elemSize]
    ensures |extents| >= 2 ==>
      pitches == Pitches(extents, elemSize, RowPitch(extents[|extents| - 1], elemSize, alignment))
  {
    var x := extents[|extents| - 1];
    if |extents| == 1 {
      memSize := x * elemSize;
      pitches := [elemSize];
      assert memSize == elemSize * x;
    } else {
      var rowExtent := x * elemSize;
      var rowPitch := DivCeil(rowExtent, alignment) * alignment;
      pitches := CalculatePitches(extents, elemSize, rowPitch);
      memSize := pitches[0] * extents[0];
    }
  }

  // ----- what the layout guarantees -----

  /** Rows are laid out one after the other, in linear order of the slower indices. */
  lemma {:induction false} OffsetForm(extents: Vec, idx: Vec, elemSize: nat, rowPitch: nat)
    requires |idx| == |extents| >= 2
    ensures var n := |extents| - 1;
            && Pitches(extents, elemSize, rowPitch)[0] == rowPitch * Product(extents[1..n])
            && Offset(idx, Pitches(extents, elemSize, rowPitch)) ==
                 rowPitch * Linear(extents[..n], idx[..n]) + elemSize * idx[n]
  {
    var n := |extents| - 1;
    var p := Pitches(extents, elemSize, rowPitch);
    if n == 1 {
      assert extents[1..1] == [];
      assert p[1..] == [elemSize] && idx[1..] == [idx[1]] && p[1..][1..] == [] && idx[1..][1..] == [];
      assert Offset(idx[1..], p[1..]) == idx[1] * elemSize;
      assert idx[..1] == [idx[0]];
    } else {
      OffsetForm(extents[1..], idx[1..], elemSize, rowPitch);
      assert extents[1..][..n - 1] == extents[1..n] == extents[..n][1..];
      assert idx[1..][..n - 1] == idx[1..n] == idx[..n][1..];
      assert extents[1..][1..n - 1] == extents[1..n][1..];
      assert p[1..] == Pitches(extents[1..], elemSize, rowPitch);
      OffsetProducts(idx[0], extents[1], rowPitch, Product(extents[1..n][1..]),
                     Linear(extents[1..n], idx[1..n]));
    }
  }

  lemma OffsetProducts(i: nat, e: nat, r: nat, p: nat, l: nat)
    ensures e * (r * p) == r * (e * p)
    ensures i * (r * (e * p)) + r * l == r * (i * (e * p) + l)
  {
  }

  lemma RowPitchFits(x: nat, elemSize: nat, alignment: nat)
    requires alignment >= 1
    ensures x * elemSize <= RowPitch(x, elemSize, alignment) < x * elemSize + alignment
    ensures RowPitch(x, elemSize, alignment) % alignment == 0
  {
    var q := DivCeil(x * elemSize, alignment);
    DivCeilCovers(x * elemSize, alignment);
    TimesIsProduct(q, alignment);
    if q >= 1 { TimesIsProduct(q - 1, alignment); assert q * alignment == (q - 1) * alignment + alignment; }
    DivModUnique(q * alignment, alignment, q, 0);
  }

  /** Every element lies inside the reported size. */
  lemma ElementInside(extents: Vec, idx: Vec, elemSize: nat, rowPitch: nat)
    requires |extents| >= 2 && InBox(idx, extents) && extents[|extents| - 1] * elemSize <= rowPitch
    ensures var p := Pitches(extents, elemSize, rowPitch);
            Offset(idx, p) + elemSize <= p[0] * extents[0]
  {
    var n := |extents| - 1;
    OffsetForm(extents, idx, elemSize, rowPitch);
    LinearInRange(extents[..n], idx[..n]);
    assert extents[..n][1..] == extents[1..n];
    SizeForm(rowPitch, Product(extents[1..n]), extents[0]);
    LastRowInside(Linear(extents[..n], idx[..n]), Product(extents[..n]), idx[n], extents[n], elemSize, rowPitch);
  }

  lemma SizeForm(rowPitch: nat, rows: nat, slices: nat)
    ensures (rowPitch * rows) * slices == rowPitch * (slices * rows)
  {
  }

  lemma LastRowInside(row: nat, rows: nat, column: nat, width: nat, elemSize: nat, rowPitch: nat)
    requires row < rows && column < width && width * elemSize <= rowPitch
    ensures rowPitch * row + elemSize * column + elemSize <= rowPitch * rows
  {
    ColumnInRow(column, width, elemSize, rowPitch);
    MulLeft(row + 1, rows, rowPitch);
    assert rowPitch * (row + 1) == rowPitch * row + rowPitch;
  }

  lemma ColumnInRow(c: nat, x: nat, elemSize: nat, rowPitch: nat)
    requires c < x && x * elemSize <= rowPitch
    ensures elemSize * c + elemSize <= rowPitch
  {
    MulLeft(c + 1, x, elemSize);
    assert (c + 1) * elemSize == elemSize * c + elemSize;
  }

  /** Distinct indices own disjoint byte ranges. */
  lemma ElementsDisjoint(extents: Vec, a: Vec, b: Vec, elemSize: nat, rowPitch: nat)
    requires |extents| >= 2 && InBox(a, extents) && InBox(b, extents) && LexLess(a, b)
    requires extents[|extents| - 1] * elemSize <= rowPitch
    ensures var p := Pitches(extents, elemSize, rowPitch);
            Offset(a, p) + elemSize <= Offset(b, p)
  {
    var n := |extents| - 1;
    OffsetForm(extents, a, elemSize, rowPitch);
    OffsetForm(extents, b, elemSize, rowPitch);
    var la, lb := Linear(extents[..n], a[..n]), Linear(extents[..n], b[..n]);
    RowThenColumn(extents, a, b);
    OffsetsApart(la, lb, a[n], b[n], extents[n], elemSize, rowPitch);
  }

  lemma OffsetsApart(la: nat, lb: nat, ca: nat, cb: nat, width: nat, elemSize: nat, rowPitch: nat)
    requires ca < width && width * elemSize <= rowPitch && (la < lb || (la == lb && ca < cb))
    ensures rowPitch * la + elemSize * ca + elemSize <= rowPitch * lb + elemSize * cb
  {
    if la < lb {
      ColumnInRow(ca, width, elemSize, rowPitch);
      MulLeft(la + 1, lb, rowPitch);
      assert rowPitch * (la + 1) == rowPitch * la + rowPitch;
      assert elemSize * cb >= 0;
    } else {
      MulLeft(ca + 1, cb, elemSize);
      assert elemSize * (ca + 1) == elemSize * ca + elemSize;
    }
  }

  lemma RowThenColumn(extents: Vec, a: Vec, b: Vec)
    requires |extents| >= 2 && InBox(a, extents) && InBox(b, extents) && LexLess(a, b)
    ensures var n := |extents| - 1;
            var la, lb := Linear(extents[..n], a[..n]), Linear(extents[..n], b[..n]);
            la < lb || (la == lb && a[n] < b[n])
  {
    var n := |extents| - 1;
    LinearOrderIsLexicographic(extents, a, b);
    assert extents == extents[..n] + [extents[n]] && a == a[..n] + [a[n]] && b == b[..n] + [b[n]];
    LinearAppend(extents[..n], a[..n], extents[n], a[n]);
    LinearAppend(extents[..n], b[..n], extents[n], b[n]);
    var la, lb := Linear(extents[..n], a[..n]), Linear(extents[..n], b[..n]);
    if la > lb {
      SliceOrder(lb, la, extents[n], b[n], a[n]);
    }
  }

  /** Every row starts at a multiple of the alignment. */
  lemma RowsAligned(extents: Vec, idx: Vec, elemSize: nat, alignment: nat)
    requires |idx| == |extents| >= 2 && alignment >= 1 && idx[|idx| - 1] == 0
    ensures var rowPitch := RowPitch(extents[|extents| - 1], elemSize, alignment);
            Offset(idx, Pitches(extents, elemSize, rowPitch)) % alignment == 0
  {
    var n := |extents| - 1;
    var x := extents[n];
    var rowPitch := RowPitch(x, elemSize, alignment);
    OffsetForm(extents, idx, elemSize, rowPitch);
    var l, q := Linear(extents[..n], idx[..n]), DivCeil(x * elemSize, alignment);
    Associate(l, q, alignment);
    assert rowPitch * l == (l * q) * alignment;
    DivModUnique(rowPitch * l, alignment, l * q, 0);
  }

  /** Without padding, the byte offset is the element size times the linear index. */
  lemma TightIsLinear(extents: Vec, idx: Vec, elemSize: nat)
    requires |idx| == |extents| >= 2
    ensures var n := |extents| - 1;
            Offset(idx, Pitches(extents, elemSize, extents[n] * elemSize)) == elemSize * Linear(extents, idx)
  {
    var n := |extents| - 1;
    OffsetForm(extents, idx, elemSize, extents[n] * elemSize);
    assert extents == extents[..n] + [extents[n]] && idx == idx[..n] + [idx[n]];
    LinearAppend(extents[..n], idx[..n], extents[n], idx[n]);
    TightProducts(extents[n], elemSize, Linear(extents[..n], idx[..n]), idx[n]);
  }

  lemma TightProducts(x: nat, e: nat, l: nat, c: nat)
    ensures (x * e) * l + e * c == e * (l * x + c)
  {
  }

  /** The two guarantees for the allocation as a whole, in every dimension. */
  method DescribeAllocation(elemSize: nat, alignment: nat, extents: Vec) returns (memSize: nat, pitches: Vec)
    requires |extents| >= 1 && alignment >= 1
    ensures |pitches| == |extents|
    ensures forall idx: Vec :: InBox(idx, extents) ==> Offset(idx, pitches) + elemSize <= memSize
    ensures forall a: Vec, b: Vec :: InBox(a, extents) && InBox(b, extents) && LexLess(a, b) ==>
      Offset(a, pitches) + elemSize <= Offset(b, pitches)
    ensures forall idx: Vec :: |idx| == |extents| >= 2 && idx[|idx| - 1] == 0 ==> Offset(idx, pitches) % alignment == 0
  {
    memSize, pitches := EmulatedAlignedMemDescription(elemSize, alignment, extents);
    var x := extents[|extents| - 1];
    ghost var rowPitch := RowPitch(x, elemSize, alignment);
    RowPitchFits(x, elemSize, alignment);
    forall idx: Vec | InBox(idx, extents) ensures Offset(idx, pitches) + elemSize <= memSize {
      if |extents| == 1 {
        OneDimension(idx, elemSize);
        ColumnInRow(idx[0], x, elemSize, x * elemSize);
        assert elemSize * x == x * elemSize;
      } else {
        ElementInside(extents, idx, elemSize, rowPitch);
      }
    }
    forall a: Vec, b: Vec | InBox(a, extents) && InBox(b, extents) && LexLess(a, b)
      ensures Offset(a, pitches) + elemSize <= Offset(b, pitches)
    {
      if |extents| == 1 {
        OneDimension(a, elemSize);
        OneDimension(b, elemSize);
        assert a[1..] == [] && !LexLess(a[1..], b[1..]);
        ColumnInRow(a[0], b[0], elemSize, b[0] * elemSize);
        assert b[0] * elemSize == elemSize * b[0];
      } else {
        ElementsDisjoint(extents, a, b, elemSize, rowPitch);
      }
    }
    forall idx: Vec | |idx| == |extents| >= 2 && idx[|idx| - 1] == 0 ensures Offset(idx, pitches) % alignment == 0 {
      RowsAligned(extents, idx, elemSize, alignment);
    }
  }

  lemma OneDimension(idx: Vec, elemSize: nat)
    requires |idx| == 1
    ensures Offset(idx, [elemSize]) == elemSize * idx[0]
  {
    assert idx[1..] == [] && [elemSize][1..] == [];
  }
}
