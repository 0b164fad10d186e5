/**
 The linearisation loop of dense arrays. It multiplies strides in a 32-bit `int` and adds terms
 in 64-bit unsigned arithmetic; the main lemma says for which arrays that gives the row-major index.
 */
module LinearIndex {
  import opened Grid

  /** The stride of the dimension in front of these ones, as the source computes it. */
  function StrideOf(dims: seq<nat>): int
  {
    if dims == [] then 1 else MulInt32(StrideOf(dims[1..]), dims[0])
  }

  /** `index + stride * coordinate`; the stride is converted to unsigned first. */
  function AddTerm(index: nat, stride: int, coordinate: nat): nat
  {
    ToUint64(index + ToUint64(stride) * coordinate)
  }

  function CodeIndex(dims: seq<nat>, p: Pos): nat
    requires |p| == |dims|
  {
    if dims == [] then 0 else AddTerm(CodeIndex(dims[1..], p[1..]), StrideOf(dims[1..]), p[0])
  }

  /** The inner product: the stride of the `i`-th dimension counted from the end. */
  method Stride(dims: seq<nat>, i: nat) returns (stride: int)
    requires i < |dims|
    ensures stride == StrideOf(dims[|dims| - i..])
  {
    hide MulInt32;
    var n := |dims|;
    stride := 1;
    for j := 0 to i
      invariant stride == StrideOf(dims[n - j..])
    {
      assert dims[n - 1 - j..][1..] == dims[n - j..];
      stride := MulInt32(stride, dims[n - 1 - j]);
    }
  }

  /** The loop over reversed copies, adding one coordinate times its stride per round. */
  method PosToIndex(dims: seq<nat>, pos: Pos) returns (index: nat)
    requires |pos| == |dims|
    ensures index == CodeIndex(dims, pos)
    ensures StridesFit(dims) && InRange(dims, pos) ==> index == Index(dims, pos)
  {
    hide AddTerm, StrideOf, StridesFit, Index;
    index := 0;
    var n := |dims|;
    for i := 0 to n
      invariant index == CodeIndex(dims[n - i..], pos[n - i..])
    {
      var stride := Stride(dims, i);
      assert dims[n - 1 - i..][1..] == dims[n - i..] && pos[n - 1 - i..][1..] == pos[n - i..];
      index := AddTerm(index, stride, pos[n - 1 - i]);
    }
    assert dims[0..] == dims && pos[0..] == pos;
    if StridesFit(dims) && InRange(dims, pos) {
      IndexExact(dims, pos);
    }
  }

  // ----- When it is right

  /** No index overflows, and every stride that some coordinate is multiplied with fits in an `int`. */
  predicate StridesFit(dims: seq<nat>)
  {
    Volume(dims) < UINT64_LIMIT && (0 in dims || forall k :: 1 <= k <= |dims| && dims[k - 1] > 1 ==> Volume(dims[k..]) < INT32_LIMIT)
  }

  lemma Distribute(v: nat, k: int, d: nat, j: int)
    ensures (v - k * UINT32_LIMIT) * d - j * UINT32_LIMIT == d * v - (k * d + j) * UINT32_LIMIT
  {
    assert (k * UINT32_LIMIT) * d == k * d * UINT32_LIMIT;
    assert (k * d + j) * UINT32_LIMIT == k * d * UINT32_LIMIT + j * UINT32_LIMIT;
    assert (v - k * UINT32_LIMIT) * d == v * d - (k * UINT32_LIMIT) * d;
  }

  /** A stride is the volume behind it, off by a multiple of 2^32. */
  lemma {:induction false} StrideCongruent(dims: seq<nat>) returns (k: int)
    ensures StrideOf(dims) == Volume(dims) - k * UINT32_LIMIT && -INT32_LIMIT <= StrideOf(dims) < INT32_LIMIT
  {
    if dims == [] {
      k := 0;
    } else {
      hide ToInt32;
      var i := StrideCongruent(dims[1..]);
      var j := Int32Congruent(StrideOf(dims[1..]) * dims[0]);
      Distribute(Volume(dims[1..]), i, dims[0], j);
      k := i * dims[0] + j;
    }
  }

  lemma StrideExactIff(dims: seq<nat>)
    ensures -INT32_LIMIT <= StrideOf(dims) < INT32_LIMIT
    ensures StrideOf(dims) == Volume(dims) <==> Volume(dims) < INT32_LIMIT
  {
    hide StrideOf, Volume;
    var k := StrideCongruent(dims);
  }

  lemma ExactTerm(index: nat, stride: nat, coordinate: nat)
    requires index + coordinate * stride < UINT64_LIMIT && stride < INT32_LIMIT
    ensures AddTerm(index, stride, coordinate) == coordinate * stride + index
  {
    hide ToUint64;
    Uint64Kept(stride);
    Uint64Kept(index + stride * coordinate);
    assert stride * coordinate == coordinate * stride;
  }

  lemma NoTerm(index: nat, stride: int)
    requires index < UINT64_LIMIT
    ensures AddTerm(index, stride, 0) == index
  {
    hide ToUint64;
    Uint64Kept(index);
  }

  lemma FirstTerm(stride: int)
    ensures AddTerm(0, stride, 1) == ToUint64(stride)
  {
    hide ToUint64;
    Uint64Kept(ToUint64(stride));
    assert ToUint64(stride) < UINT64_LIMIT by { Uint64Small(stride); }
  }

  lemma Uint64Small(x: int)
    ensures ToUint64(x) < UINT64_LIMIT
  {
  }

  lemma StridesFitInside(dims: seq<nat>)
    requires dims != [] && StridesFit(dims) && 0 !in dims
    ensures StridesFit(dims[1..]) && 0 !in dims[1..]
    ensures dims[0] > 1 ==> Volume(dims[1..]) < INT32_LIMIT
  {
    var tail := dims[1..];
    forall k | 1 <= k <= |tail| && tail[k - 1] > 1 ensures Volume(tail[k..]) < INT32_LIMIT {
      assert tail[k..] == dims[k + 1..] && tail[k - 1] == dims[k];
    }
    ProductMonotone(1, dims[0], Volume(tail), Volume(tail));
  }

  /** One term of the sum, when its stride fits or is not used. */
  lemma TermExact(dims: seq<nat>, index: nat, coordinate: nat)
    requires coordinate * Volume(dims) + index < UINT64_LIMIT && index < UINT64_LIMIT
    requires coordinate > 0 ==> Volume(dims) < INT32_LIMIT
    ensures AddTerm(index, StrideOf(dims), coordinate) == coordinate * Volume(dims) + index
  {
    hide AddTerm, Volume, StrideOf;
    if coordinate > 0 {
      StrideExactIff(dims);
      ExactTerm(index, Volume(dims), coordinate);
    } else {
      NoTerm(index, StrideOf(dims));
    }
  }

  lemma IndexBelowLimit(dims: seq<nat>, p: Pos)
    requires Volume(dims) < UINT64_LIMIT && InRange(dims, p)
    ensures Index(dims, p) < UINT64_LIMIT
  {
    hide Volume, Index;
    IndexThenPosition(dims, p);
  }

  lemma TailInRange(dims: seq<nat>, p: Pos)
    requires dims != [] && InRange(dims, p)
    ensures 0 !in dims && p[0] < dims[0] && InRange(dims[1..], p[1..])
  {
  }

  lemma IndexUnfolds(dims: seq<nat>, p: Pos)
    requires dims != [] && |p| == |dims|
    ensures Index(dims, p) == p[0] * Volume(dims[1..]) + Index(dims[1..], p[1..])
    ensures CodeIndex(dims, p) == AddTerm(CodeIndex(dims[1..], p[1..]), StrideOf(dims[1..]), p[0])
  {
    hide AddTerm, Volume, StrideOf;
  }

  lemma FitsInMemory(dims: seq<nat>)
    requires StridesFit(dims)
    ensures Volume(dims) < UINT64_LIMIT
  {
    hide Volume;
  }

  lemma {:induction false} IndexExact(dims: seq<nat>, p: Pos)
    requires StridesFit(dims) && InRange(dims, p) && |p| == |dims|
    ensures CodeIndex(dims, p) == Index(dims, p)
    decreases dims, p, 1
  {
    if dims == [] {
    } else {
      IndexExactStep(dims, p);
    }
  }

  lemma {:induction false} IndexExactStep(dims: seq<nat>, p: Pos)
    requires dims != [] && StridesFit(dims) && InRange(dims, p) && |p| == |dims|
    ensures CodeIndex(dims, p) == Index(dims, p)
    decreases dims, p, 0
  {
    hide StridesFit, InRange, AddTerm, Volume, StrideOf, Index, CodeIndex;
    TailInRange(dims, p);
    StridesFitInside(dims);
    IndexExact(dims[1..], p[1..]);
    IndexUnfolds(dims, p);
    FitsInMemory(dims);
    FitsInMemory(dims[1..]);
    IndexBelowLimit(dims, p);
    IndexBelowLimit(dims[1..], p[1..]);
    TermExact(dims[1..], Index(dims[1..], p[1..]), p[0]);
  }

  /** The position with a single 1, at coordinate `k`. */
  function Unit(rank: nat, k: nat): (p: Pos)
    requires k < rank
    ensures |p| == rank && forall i :: 0 <= i < rank ==> p[i] == if i == k then 1 else 0
  {
    seq(rank, i => if i == k then 1 else 0)
  }

  lemma {:induction false} IndexOfZeros(dims: seq<nat>, p: Pos)
    requires |p| == |dims| && forall i :: 0 <= i < |p| ==> p[i] == 0
    ensures CodeIndex(dims, p) == 0 && Index(dims, p) == 0
  {
    hide AddTerm, StrideOf, Volume;
    if dims != [] {
      IndexOfZeros(dims[1..], p[1..]);
      NoTerm(0, StrideOf(dims[1..]));
    }
  }

  /** At a unit position both indexes are just the stride. */
  lemma {:induction false} IndexOfUnit(dims: seq<nat>, p: Pos, k: nat)
    requires |p| == |dims| && k < |dims| && forall i :: 0 <= i < |p| ==> p[i] == if i == k then 1 else 0
    ensures Index(dims, p) == Volume(dims[k + 1..])
    ensures CodeIndex(dims, p) == ToUint64(StrideOf(dims[k + 1..]))
  {
    hide AddTerm, StrideOf, Volume, ToUint64;
    if k == 0 {
      IndexOfZeros(dims[1..], p[1..]);
      FirstTerm(StrideOf(dims[1..]));
    } else {
      IndexOfUnit(dims[1..], p[1..], k - 1);
      assert dims[1..][k..] == dims[k + 1..];
      Uint64Small(StrideOf(dims[k + 1..]));
      NoTerm(CodeIndex(dims[1..], p[1..]), StrideOf(dims[1..]));
    }
  }

  lemma {:induction false} SuffixVolume(dims: seq<nat>, k: nat)
    requires k < |dims| && dims[k] > 1 && 0 !in dims
    ensures 2 * Volume(dims[k + 1..]) <= Volume(dims)
  {
    if k == 0 {
      ProductMonotone(2, dims[0], Volume(dims[1..]), Volume(dims[1..]));
    } else {
      SuffixVolume(dims[1..], k - 1);
      assert dims[1..][k..] == dims[k + 1..];
      ProductMonotone(1, dims[0], Volume(dims[1..]), Volume(dims[1..]));
    }
  }

  lemma WideStrideIsWrong(dims: seq<nat>, k: nat)
    requires Volume(dims) < UINT64_LIMIT && 0 !in dims
    requires 1 <= k <= |dims| && dims[k - 1] > 1 && Volume(dims[k..]) >= INT32_LIMIT
    ensures InRange(dims, Unit(|dims|, k - 1)) && CodeIndex(dims, Unit(|dims|, k - 1)) != Index(dims, Unit(|dims|, k - 1))
  {
    var p := Unit(|dims|, k - 1);
    forall i | 0 <= i < |dims| ensures p[i] < dims[i] {
      assert dims[i] in dims;
    }
    hide Volume, StrideOf, ToUint64, Index, CodeIndex, Unit;
    IndexOfUnit(dims, p, k - 1);
    SuffixVolume(dims, k - 1);
    StrideExactIff(dims[k..]);
    NotThisStride(StrideOf(dims[k..]), Volume(dims[k..]));
  }

  lemma NotThisStride(stride: int, v: nat)
    requires -INT32_LIMIT <= stride < INT32_LIMIT <= v && 2 * v < UINT64_LIMIT
    ensures ToUint64(stride) != v
  {
    if stride < 0 {
      assert ToUint64(stride) == stride + UINT64_LIMIT;
    }
  }

  /**
   For an array that fits in memory, the loop gives the row-major index of every position exactly
   when the strides fit. In an array of 2 by 2^31 elements, the second row already goes wrong.
   */
  lemma IndexRightIff(dims: seq<nat>)
    requires Volume(dims) < UINT64_LIMIT
    ensures (forall p :: InRange(dims, p) ==> CodeIndex(dims, p) == Index(dims, p)) <==> StridesFit(dims)
  {
    if StridesFit(dims) {
      forall p | InRange(dims, p) ensures CodeIndex(dims, p) == Index(dims, p) {
        IndexExact(dims, p);
      }
    } else {
      var k :| 1 <= k <= |dims| && dims[k - 1] > 1 && Volume(dims[k..]) >= INT32_LIMIT;
      WideStrideIsWrong(dims, k);
    }
  }

  /** Two rows of 2^31 elements: the start of the second row is computed far outside the array. */
  lemma SecondRowIsWrong()
    ensures var dims := [2, INT32_LIMIT];
            InRange(dims, [1, 0]) && Index(dims, [1, 0]) == INT32_LIMIT && CodeIndex(dims, [1, 0]) == UINT64_LIMIT - INT32_LIMIT
  {
    var dims, p: Pos := [2, INT32_LIMIT], [1, 0];
    assert dims[1..] == [INT32_LIMIT] && dims[1..][1..] == [];
    hide ToUint64, ToInt32;
    IndexOfUnit(dims, p, 0);
    assert Volume([INT32_LIMIT]) == INT32_LIMIT;
    HalfRange();
  }

  lemma HalfRange()
    ensures StrideOf([INT32_LIMIT]) == -INT32_LIMIT && ToUint64(-INT32_LIMIT) == UINT64_LIMIT - INT32_LIMIT
  {
    assert [INT32_LIMIT][1..] == [];
  }
}
