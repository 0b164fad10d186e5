/** Rows per chunk: by successive divisions for histograms, by one division for other datasets. */
module ChunkSize {
  import opened Common
  import opened Grid

  const INT64_LIMIT := 0x8000_0000_0000_0000

  /** A volume is zero exactly when one of the dimensions is. */
  lemma {:induction false} VolumeIsZeroIff(dims: seq<nat>)
    ensures Volume(dims) == 0 <==> 0 in dims
  {
    if dims != [] {
      VolumeIsZeroIff(dims[1..]);
      if dims[0] > 0 && Volume(dims[1..]) > 0 {
        PositiveProduct(dims[0], Volume(dims[1..]));
      }
      assert dims == [dims[0]] + dims[1..];
    }
  }

  lemma PositiveProduct(a: nat, b: nat)
    requires a > 0 && b > 0
    ensures a * b > 0
  {
  }

  lemma Regroup(u: nat, c: nat, v: nat, b: nat, r: nat)
    ensures (u * c + v) * b + r == u * (c * b) + (v * b + r)
  {
    assert (u * c + v) * b == (u * c) * b + v * b;
    ProductAssociates(u, c, b);
  }

  lemma DivMod(a: nat, b: nat)
    requires b > 0
    ensures a == a / b * b + a % b && a % b < b
  {
  }

  /** Dividing twice is dividing by the product. */
  lemma NestedDivision(a: nat, b: nat, c: nat)
    requires b > 0 && c > 0
    ensures c * b > 0 && a / b / c == a / (c * b)
  {
    PositiveProduct(c, b);
    var q, r := a / b, a % b;
    var u, v := q / c, q % c;
    DivMod(a, b);
    DivMod(q, c);
    Regroup(u, c, v, b, r);
    QuotientBound(v, c, r, b);
    DivModUnique(u, v * b + r, c * b);
  }

  lemma AtLeastOne(a: nat, b: nat)
    requires 0 < b <= a
    ensures a / b >= 1
  {
  }

  lemma SingleVolume(d: nat)
    ensures Volume([d]) == d
  {
    assert [d][1..] == [];
  }

  lemma Commutes(a: nat, b: nat)
    ensures a * b == b * a
  {
  }

  /** As many rows of `v` elements as fit into a chunk, but at least one. */
  function RowsPerChunk(chunkSize: nat, v: nat): (rows: nat)
    requires v > 0
    ensures rows >= 1 && chunkSize < (rows + 1) * v
    ensures if v <= chunkSize then rows * v <= chunkSize else rows == 1
  {
    RowsFit(chunkSize, v);
    if chunkSize / v == 0 then 1 else chunkSize / v
  }

  /**
   Rows of a histogram per chunk: the loop that divides by one dimension after the other.
   `None` is a division by zero.
   */
  method HistogramRows(chunkSize: nat, dims: seq<nat>) returns (rows: Option<nat>)
    ensures rows.None? <==> 0 in dims
    ensures rows.Some? ==> Volume(dims) > 0 && rows.value == RowsPerChunk(chunkSize, Volume(dims))
  {
    hide Volume;
    EmptyVolume();
    var n := chunkSize;
    DivModUnique(chunkSize, 0, 1);
    for i := 0 to |dims|
      invariant dims[..0] == [] && 0 !in dims[..i]
      invariant Volume(dims[..i]) > 0 && n == chunkSize / Volume(dims[..i])
    {
      if dims[i] == 0 {
        return None;
      }
      NextFactor(chunkSize, dims, i);
      n := n / dims[i];
    }
    assert dims[..|dims|] == dims;
    if n == 0 {
      n := 1;
    }
    return Some(n);
  }

  lemma NextFactor(chunkSize: nat, dims: seq<nat>, i: nat)
    requires i < |dims| && dims[i] > 0 && Volume(dims[..i]) > 0
    ensures Volume(dims[..i + 1]) > 0 && chunkSize / Volume(dims[..i]) / dims[i] == chunkSize / Volume(dims[..i + 1])
  {
    hide Volume;
    NextVolume(dims, i);
    NestedDivision(chunkSize, Volume(dims[..i]), dims[i]);
    Commutes(Volume(dims[..i]), dims[i]);
  }

  lemma RowsFit(chunkSize: nat, v: nat)
    requires v > 0
    ensures var q := chunkSize / v; q * v <= chunkSize < (q + 1) * v && (v <= chunkSize <==> q >= 1)
  {
    DivMod(chunkSize, v);
    OneMore(chunkSize / v, v);
    if v <= chunkSize {
      AtLeastOne(chunkSize, v);
    } else {
      DivModUnique(0, chunkSize, v);
    }
  }

  /** The size of a row, accumulated in a 32-bit `int`. */
  method ElementsPerRow(dims: seq<nat>) returns (n: int)
    ensures n == ToInt32(Volume(dims))
  {
    hide Volume, MulInt32, ToInt32;
    EmptyVolume();
    SmallInt32(1);
    n := 1;
    for i := 0 to |dims|
      invariant dims[..0] == [] && n == ToInt32(Volume(dims[..i]))
    {
      NextVolume(dims, i);
      Int32Product(Volume(dims[..i]), dims[i]);
      n := MulInt32(n, dims[i]);
    }
    assert dims[..|dims|] == dims;
  }

  /** What the row size is divided by: the `int`, converted to unsigned. */
  function Divisor(v: nat): nat
  {
    ToUint64(ToInt32(v))
  }

  /** The rows that the one-step computation gives for rows of `v` elements; `None` is a division by zero. */
  function OneStepRows(chunkSize: nat, v: nat): Option<nat>
  {
    if Divisor(v) == 0 then None else Some(RowsPerChunk(chunkSize, Divisor(v)))
  }

  /** Rows of a multi-dimensional dataset per chunk: one division by the size of a row. */
  method DatasetRows(chunkSize: nat, dims: seq<nat>) returns (rows: Option<nat>)
    ensures rows == OneStepRows(chunkSize, Volume(dims))
    ensures 0 in dims ==> rows == None
    ensures 0 < Volume(dims) < INT32_LIMIT ==> rows == Some(RowsPerChunk(chunkSize, Volume(dims)))
  {
    hide Volume, RowsPerChunk, ToInt32, ToUint64;
    VolumeIsZeroIff(dims);
    SmallRow(Volume(dims));
    var elementsPerRow := ElementsPerRow(dims);
    var divisor := ToUint64(elementsPerRow);
    if divisor == 0 {
      return None;
    }
    var n := AtLeastOneRow(chunkSize, divisor);
    return Some(n);
  }

  lemma SmallRow(v: nat)
    ensures v < INT32_LIMIT ==> Divisor(v) == v
  {
  }

  /** The divisor of a larger row is zero, less than a third of the row, or not below 2^64 - 2^31. */
  lemma LargeRow(v: nat)
    requires v >= INT32_LIMIT
    ensures 3 * Divisor(v) < v || Divisor(v) >= UINT64_LIMIT - INT32_LIMIT
  {
    var k := Int32Congruent(v);
    hide ToInt32;
    if ToInt32(v) >= 0 {
      assert k >= 1;
      Uint64Kept(ToInt32(v));
    } else {
      NegativeUint64(ToInt32(v));
    }
  }

  lemma NegativeUint64(x: int)
    requires -INT32_LIMIT <= x < 0
    ensures ToUint64(x) == x + UINT64_LIMIT
  {
  }

  lemma QuotientAtLeast(a: nat, d: nat, n: nat)
    requires d > 0 && n * d <= a
    ensures a / d >= n
  {
    RowsFit(a, d);
    var q := a / d;
    if q < n { ProductMonotone(q + 1, n, d, d); }
  }

  lemma QuotientBelow(a: nat, d: nat, n: nat)
    requires d > 0 && a < n * d
    ensures a / d < n
  {
    RowsFit(a, d);
    var q := a / d;
    if q >= n { ProductMonotone(n, q, d, d); }
  }

  /** A chunk of two rows, divided by a wrong row size. */
  lemma TwoRows(v: nat, d: nat)
    requires 0 < v < INT64_LIMIT && d > 0
    requires 3 * d < v || d >= UINT64_LIMIT - INT32_LIMIT
    ensures RowsPerChunk(2 * v, v) == 2 && RowsPerChunk(2 * v, d) != 2
  {
    QuotientAtLeast(2 * v, v, 2);
    QuotientBelow(2 * v, v, 3);
    if 3 * d < v {
      QuotientAtLeast(2 * v, d, 3);
    } else {
      QuotientBelow(2 * v, d, 2);
    }
  }

  /**
   The one-step computation gives the right number of rows for every chunk size exactly when a row
   has less than 2^31 elements.
   */
  lemma OneStepRightIff(v: nat)
    requires 0 < v < INT64_LIMIT
    ensures (forall c: nat :: c < UINT64_LIMIT ==> OneStepRows(c, v) == Some(RowsPerChunk(c, v))) <==> v < INT32_LIMIT
  {
    hide RowsPerChunk, Divisor;
    SmallRow(v);
    if v >= INT32_LIMIT {
      LargeRow(v);
      if Divisor(v) > 0 { TwoRows(v, Divisor(v)); }
      assert OneStepRows(2 * v, v) != Some(RowsPerChunk(2 * v, v));
    }
  }

  /** Rows of 65536 by 65536 elements: no dimension is zero, and yet the division is by zero. */
  lemma SquareRowsDivideByZero(chunkSize: nat)
    ensures Volume([65536, 65536]) == UINT32_LIMIT && OneStepRows(chunkSize, Volume([65536, 65536])) == None
  {
    assert [65536, 65536][1..] == [65536] && [65536][1..] == [];
    assert Volume([65536]) == 65536;
    Int32Periodic(UINT32_LIMIT, 1);
  }

  /** The division, with its result raised to one row. */
  method AtLeastOneRow(chunkSize: nat, v: nat) returns (n: nat)
    requires v > 0
    ensures n == RowsPerChunk(chunkSize, v)
  {
    n := chunkSize / v;
    if n == 0 {
      n := 1;
    }
  }

  lemma NextVolume(dims: seq<nat>, i: nat)
    requires i < |dims|
    ensures Volume(dims[..i + 1]) == Volume(dims[..i]) * dims[i]
  {
    hide Volume;
    assert dims[..i + 1] == dims[..i] + [dims[i]];
    VolumeSplit(dims[..i], [dims[i]]);
    SingleVolume(dims[i]);
  }
}
