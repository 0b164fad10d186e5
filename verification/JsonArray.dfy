/**
 Turning a ragged nested JSON array into a dense multi-dimensional one: first the dimensions are
 collected, then every scalar is written at its position, missing trailing coordinates being zero.
 */
module JsonArray {
  import opened Common
  import opened Grid
  import opened LinearIndex

  datatype Json = Scalar(value: int) | Array(elements: seq<Json>)

  // ----- Dimensions

  /** Number of nested array levels. */
  function Depth(j: Json): nat
  {
    match j
    case Scalar(_) => 0
    case Array(es) => 1 + DepthOf(es)
  }

  function DepthOf(es: seq<Json>): nat
  {
    if es == [] then 0 else Max(DepthOf(es[..|es| - 1]), Depth(es[|es| - 1]))
  }

  /** Length of the longest array at a level, 0 if there is none. */
  function Longest(j: Json, level: nat): nat
  {
    match j
    case Scalar(_) => 0
    case Array(es) => if level == 0 then |es| else LongestOf(es, level - 1)
  }

  function LongestOf(es: seq<Json>, level: nat): nat
    decreases es
  {
    if es == [] then 0 else Max(LongestOf(es[..|es| - 1], level), Longest(es[|es| - 1], level))
  }

  /** The dimensions `dims` after an element at `level` has been taken into account. */
  ghost predicate Raised(dims: seq<nat>, j: Json, level: nat, after: seq<nat>)
  {
    && |after| == Max(|dims|, if j.Array? then level + Depth(j) else 0)
    && forall k :: 0 <= k < |after| ==>
         after[k] == Max(if k < |dims| then dims[k] else 0, if k >= level then Longest(j, k - level) else 0)
  }

  ghost predicate RaisedBy(dims: seq<nat>, es: seq<Json>, level: nat, after: seq<nat>)
  {
    && |after| == Max(|dims|, if DepthOf(es) > 0 then level + DepthOf(es) else 0)
    && forall k :: 0 <= k < |after| ==>
         after[k] == Max(if k < |dims| then dims[k] else 0, if k >= level then LongestOf(es, k - level) else 0)
  }

  lemma {:induction false} DeepestHasLength(j: Json, level: nat)
    requires level >= Depth(j)
    ensures Longest(j, level) == 0
  {
    match j
    case Scalar(_) =>
    case Array(es) => DeepestHasLengthOf(es, level - 1);
  }

  lemma {:induction false} DeepestHasLengthOf(es: seq<Json>, level: nat)
    requires level >= DepthOf(es)
    ensures LongestOf(es, level) == 0
    decreases es
  {
    if es != [] {
      DeepestHasLengthOf(es[..|es| - 1], level);
      DeepestHasLength(es[|es| - 1], level);
    }
  }

  lemma RaisedStep(dims: seq<nat>, es: seq<Json>, e: Json, level: nat, mid: seq<nat>, after: seq<nat>)
    requires RaisedBy(dims, es, level, mid) && Raised(mid, e, level, after)
    ensures RaisedBy(dims, es + [e], level, after)
  {
    assert (es + [e])[..|es|] == es;
    forall k | 0 <= k < |after|
      ensures after[k] == Max(if k < |dims| then dims[k] else 0, if k >= level then LongestOf(es + [e], k - level) else 0)
    {
      if k >= |mid| && k >= level {
        DeepestHasLengthOf(es, k - level);
      }
    }
  }

  lemma RaisedByNothing(dims: seq<nat>, level: nat)
    ensures RaisedBy(dims, [], level, dims)
  {
  }

  /** An array raises its own level and then, through its elements, the deeper ones. */
  lemma RaisedWhole(dims: seq<nat>, es: seq<Json>, level: nat, after: seq<nat>)
    requires |dims| >= level
    requires var own := if |dims| == level then dims + [|es|] else dims[level := Max(dims[level], |es|)];
             RaisedBy(own, es, level + 1, after)
    ensures Raised(dims, Array(es), level, after)
  {
    hide LongestOf, DepthOf;
  }

  /** Recursively raises the dimensions; each level appends its own entry on first visit. */
  method FindInnerSize(j: Json, dims: seq<nat>, level: nat) returns (after: seq<nat>)
    requires |dims| >= level
    ensures Raised(dims, j, level, after)
    decreases j
  {
    after := dims;
    if j.Array? {
      if |after| < level + 1 {
        after := after + [0];
      }
      if |j.elements| > after[level] {
        after := after[level := |j.elements|];
      }
      hide Raised, RaisedBy;
      ghost var own := after;
      assert own == if |dims| == level then dims + [|j.elements|] else dims[level := Max(dims[level], |j.elements|)];
      RaisedByNothing(own, level + 1);
      for i := 0 to |j.elements|
        invariant RaisedBy(own, j.elements[..i], level + 1, after) && |after| >= level + 1
      {
        var next := FindInnerSize(j.elements[i], after, level + 1);
        NeverShrinks(after, j.elements[i], level + 1, next);
        RaisedStep(own, j.elements[..i], j.elements[i], level + 1, after, next);
        assert j.elements[..i + 1] == j.elements[..i] + [j.elements[i]];
        after := next;
      }
      assert j.elements[..|j.elements|] == j.elements;
      RaisedWhole(dims, j.elements, level, after);
    } else {
      NothingRaised(dims, j, level);
    }
  }

  lemma NothingRaised(dims: seq<nat>, j: Json, level: nat)
    requires j.Scalar?
    ensures Raised(dims, j, level, dims)
  {
  }

  lemma NeverShrinks(dims: seq<nat>, j: Json, level: nat, after: seq<nat>)
    requires Raised(dims, j, level, after)
    ensures |after| >= |dims|
  {
  }

  /** Dimension `k` is the length of the longest array at depth `k`. */
  function Dimensions(j: Json): (dims: seq<nat>)
    ensures dims != []
  {
    if j.Scalar? then [1] else seq(Depth(j), k requires 0 <= k < Depth(j) => Longest(j, k))
  }

  method DetermineArrayDimensions(j: Json) returns (dims: seq<nat>)
    ensures dims == Dimensions(j)
    ensures if j.Scalar? then dims == [1]
            else |dims| == Depth(j) && forall k :: 0 <= k < |dims| ==> dims[k] == Longest(j, k)
  {
    if !j.Array? {
      return [1];
    }
    dims := FindInnerSize(j, [], 0);
    assert dims == Dimensions(j);
  }

  /** Only the innermost dimension can be zero. */
  lemma {:induction false} InnerLevelsNonEmpty(j: Json, k: nat)
    requires k + 1 < Depth(j)
    ensures Longest(j, k) > 0
  {
    match j
    case Array(es) => if k > 0 { InnerLevelsNonEmptyOf(es, k - 1); }
  }

  lemma {:induction false} InnerLevelsNonEmptyOf(es: seq<Json>, k: nat)
    requires k + 1 < DepthOf(es)
    ensures LongestOf(es, k) > 0
    decreases es
  {
    if k + 1 < DepthOf(es[..|es| - 1]) {
      InnerLevelsNonEmptyOf(es[..|es| - 1], k);
    } else {
      InnerLevelsNonEmpty(es[|es| - 1], k);
    }
  }

  // ----- Positions of the scalars

  ghost predicate AllZero(p: Pos)
  {
    forall i :: 0 <= i < |p| ==> p[i] == 0
  }

  /** The scalar that belongs at a dense position: follow the coordinates, the unused ones must be zero. */
  ghost function Lookup(j: Json, p: Pos): Option<int>
    decreases p
  {
    match j
    case Scalar(v) => if AllZero(p) then Some(v) else None
    case Array(es) => if p != [] && p[0] < |es| then Lookup(es[p[0]], p[1..]) else None
  }

  /** The element at a path of indices. */
  function Follow(j: Json, path: seq<nat>): Option<Json>
    decreases path
  {
    if path == [] then Some(j)
    else if j.Array? && path[0] < |j.elements| then Follow(j.elements[path[0]], path[1..])
    else None
  }

  function Pad(path: seq<nat>, rank: nat): Pos
    requires |path| <= rank
  {
    path + Zeros(rank - |path|)
  }

  predicate IsScalarAt(j: Json, path: seq<nat>, v: int)
  {
    Follow(j, path) == Some(Scalar(v))
  }

  /** Every scalar is found at its zero-padded path. */
  lemma {:induction false} ScalarLandsAtPaddedPath(j: Json, path: seq<nat>, v: int, rank: nat)
    requires IsScalarAt(j, path, v) && |path| <= rank
    ensures Lookup(j, Pad(path, rank)) == Some(v)
  {
    if path != [] {
      ScalarLandsAtPaddedPath(j.elements[path[0]], path[1..], v, rank - 1);
      assert Pad(path, rank)[1..] == Pad(path[1..], rank - 1);
    }
  }

  /** Distinct scalars have distinct padded paths. */
  lemma {:induction false} PaddedPathsDistinct(j: Json, a: seq<nat>, b: seq<nat>, v: int, w: int, rank: nat)
    requires IsScalarAt(j, a, v) && IsScalarAt(j, b, w) && |a| <= rank && |b| <= rank
    requires Pad(a, rank) == Pad(b, rank)
    ensures a == b
  {
    if a != [] && b != [] {
      assert Pad(a, rank)[0] == a[0] && Pad(b, rank)[0] == b[0];
      assert Pad(a, rank)[1..] == Pad(a[1..], rank - 1) && Pad(b, rank)[1..] == Pad(b[1..], rank - 1);
      PaddedPathsDistinct(j.elements[a[0]], a[1..], b[1..], v, w, rank - 1);
    }
  }

  /** Only scalars are found, each at its own zero-padded path. */
  lemma {:induction false} OnlyScalarsAreFound(j: Json, p: Pos) returns (path: seq<nat>, v: int)
    requires Lookup(j, p).Some?
    ensures |path| <= |p| && IsScalarAt(j, path, v) && Pad(path, |p|) == p && Lookup(j, p) == Some(v)
    decreases p
  {
    match j
    case Scalar(w) =>
      path, v := [], w;
    case Array(es) =>
      var rest;
      rest, v := OnlyScalarsAreFound(es[p[0]], p[1..]);
      path := [p[0]] + rest;
      assert path[1..] == rest && p == [p[0]] + p[1..];
  }

  // ----- Dimensions, by paths

  lemma {:induction false} ElementBounds(es: seq<Json>, i: nat, level: nat)
    requires i < |es|
    ensures Depth(es[i]) <= DepthOf(es) && Longest(es[i], level) <= LongestOf(es, level)
  {
    if i < |es| - 1 {
      ElementBounds(es[..|es| - 1], i, level);
    }
  }

  /** No array at a level is longer than the dimension of that level. */
  lemma {:induction false} ArrayBounds(j: Json, path: seq<nat>, es: seq<Json>)
    requires Follow(j, path) == Some(Array(es))
    ensures |path| < Depth(j) && |es| <= Longest(j, |path|)
    decreases path
  {
    if path != [] {
      ArrayBounds(j.elements[path[0]], path[1..], es);
      ElementBounds(j.elements, path[0], |path| - 1);
    }
  }

  lemma {:induction false} LongestElement(es: seq<Json>, level: nat) returns (i: nat)
    requires level < DepthOf(es)
    ensures i < |es| && level < Depth(es[i]) && Longest(es[i], level) == LongestOf(es, level)
  {
    var n := |es| - 1;
    if level < DepthOf(es[..n]) && !(level < Depth(es[n]) && Longest(es[n], level) == LongestOf(es, level)) {
      if level >= Depth(es[n]) { DeepestHasLength(es[n], level); }
      i := LongestElement(es[..n], level);
    } else {
      if level >= DepthOf(es[..n]) { DeepestHasLengthOf(es[..n], level); }
      i := n;
    }
  }

  /** Some array at the level is as long as that. */
  lemma {:induction false} LongestArray(j: Json, level: nat) returns (path: seq<nat>, es: seq<Json>)
    requires level < Depth(j)
    ensures |path| == level && Follow(j, path) == Some(Array(es)) && |es| == Longest(j, level)
    decreases level
  {
    if level == 0 {
      path, es := [], j.elements;
    } else {
      var i := LongestElement(j.elements, level - 1);
      var rest;
      rest, es := LongestArray(j.elements[i], level - 1);
      path := [i] + rest;
      assert path[1..] == rest;
    }
  }

  /** Every array at nesting level `k` is no longer than dimension `k`. */
  ghost predicate Fits(j: Json, dims: seq<nat>, level: nat)
  {
    j.Array? ==> level < |dims| && |j.elements| <= dims[level] && forall e :: e in j.elements ==> Fits(e, dims, level + 1)
  }

  lemma {:induction false} FitsWhenLongEnough(j: Json, dims: seq<nat>, level: nat)
    requires level + Depth(j) <= |dims|
    requires forall k :: 0 <= k < Depth(j) ==> Longest(j, k) <= dims[level + k]
    ensures Fits(j, dims, level)
  {
    if j.Array? {
      assert Longest(j, 0) == |j.elements|;
      forall k | 0 <= k < DepthOf(j.elements) ensures LongestOf(j.elements, k) <= dims[level + 1 + k] {
        assert Longest(j, k + 1) == LongestOf(j.elements, k);
      }
      FitsOf(j.elements, dims, level + 1);
    }
  }

  lemma {:induction false} FitsOf(es: seq<Json>, dims: seq<nat>, level: nat)
    requires level + DepthOf(es) <= |dims|
    requires forall k :: 0 <= k < DepthOf(es) ==> LongestOf(es, k) <= dims[level + k]
    ensures forall e :: e in es ==> Fits(e, dims, level)
    decreases es
  {
    if es != [] {
      var n := |es| - 1;
      forall k | 0 <= k < DepthOf(es)
        ensures LongestOf(es[..n], k) <= dims[level + k] && Longest(es[n], k) <= dims[level + k]
      {
        assert LongestOf(es, k) <= dims[level + k];
      }
      FitsOf(es[..n], dims, level);
      FitsWhenLongEnough(es[n], dims, level);
      forall e | e in es ensures Fits(e, dims, level) {
        assert e == es[n] || e in es[..n];
      }
    }
  }

  ghost predicate HasScalar(j: Json)
  {
    j.Scalar? || exists e :: e in j.elements && HasScalar(e)
  }

  // ----- The dense array

  /** Number of cells, in 64-bit unsigned arithmetic. */
  method ExtentToSize(extent: seq<nat>) returns (n: nat)
    requires extent != []
    ensures n == ToUint64(Volume(extent))
  {
    assert extent[..1] == [extent[0]] && [extent[0]][1..] == [];
    assert Volume(extent[..1]) == extent[0];
    n := ToUint64(extent[0]);
    for i := 1 to |extent|
      invariant n == ToUint64(Volume(extent[..i]))
    {
      assert extent[..i + 1] == extent[..i] + [extent[i]];
      VolumeSplit(extent[..i], [extent[i]]);
      ModOfProduct(Volume(extent[..i]), extent[i], UINT64_LIMIT);
      n := ToUint64(n * extent[i]);
    }
    assert extent[..|extent|] == extent;
  }

  class MultiVector {
    const dimensions: seq<nat>
    var data: seq<int>

    ghost predicate Valid()
      reads this
    {
      dimensions != [] && |data| == ToUint64(Volume(dimensions))
    }

    constructor (extent: seq<nat>)
      requires extent != []
      ensures Valid() && dimensions == extent && data == seq(ToUint64(Volume(extent)), _ => 0)
    {
      dimensions := extent;
      new;
      var n := ExtentToSize(extent);
      data := seq(n, _ => 0);
    }

    /** Where a cell is stored; `None` is the out-of-range exception. The index itself is not checked. */
    method At(p: Pos) returns (r: Option<nat>)
      requires Valid()
      ensures r.Some? <==> InRange(dimensions, p)
      ensures r.Some? ==> r.value == CodeIndex(dimensions, p)
      ensures r.Some? && StridesFit(dimensions) ==> r.value == Index(dimensions, p) < |data| == Volume(dimensions)
    {
      hide StridesFit, Index, CodeIndex, Volume, ToUint64;
      if |p| != |dimensions| {
        return None;
      }
      for i := 0 to |dimensions|
        invariant forall k :: 0 <= k < i ==> p[k] < dimensions[k]
      {
        if p[i] >= dimensions[i] {
          return None;
        }
      }
      IndexThenPosition(dimensions, p);
      var index := PosToIndex(dimensions, p);
      if StridesFit(dimensions) {
        FitsInMemory(dimensions);
        Uint64Kept(Volume(dimensions));
      }
      return Some(index);
    }
  }

  function Cell(data: seq<int>, dims: seq<nat>, q: Pos): int
    requires |q| == |dims|
  {
    if Index(dims, q) < |data| then data[Index(dims, q)] else 0
  }

  /** What the first `i` elements, visited at `level` below the coordinates of `pos`, put at position `q`. */
  ghost function Placed(es: seq<Json>, i: nat, pos: Pos, level: nat, q: Pos): Option<int>
    requires i <= |es| && level < |pos| == |q|
  {
    if q[..level] == pos[..level] && q[level] < i then Lookup(es[q[level]], q[level + 1..]) else None
  }

  ghost predicate Filled(dims: seq<nat>, before: seq<int>, after: seq<int>, es: seq<Json>, i: nat, pos: Pos, level: nat)
    requires i <= |es| && level < |pos| == |dims|
  {
    && |after| == |before| == Volume(dims)
    && forall q :: InRange(dims, q) ==>
         Cell(after, dims, q) ==
         var v := Placed(es, i, pos, level, q); if v.Some? then v.value else Cell(before, dims, q)
  }

  lemma FilledScalar(dims: seq<nat>, before: seq<int>, mid: seq<int>, es: seq<Json>, i: nat, pos: Pos, level: nat)
    requires i < |es| && es[i].Scalar? && level < |pos| == |dims| && AllZero(pos[level..])
    requires Filled(dims, before, mid, es, i, pos, level) && InRange(dims, pos[level := i])
    ensures var p := pos[level := i];
            Index(dims, p) < |mid| && Filled(dims, before, mid[Index(dims, p) := es[i].value], es, i + 1, pos, level)
  {
    hide Volume, Index, Position, AllZero;
    var p := pos[level := i];
    IndexThenPosition(dims, p);
    var after := mid[Index(dims, p) := es[i].value];
    forall q | InRange(dims, q)
      ensures Cell(after, dims, q) ==
              var v := Placed(es, i + 1, pos, level, q); if v.Some? then v.value else Cell(before, dims, q)
    {
      IndexThenPosition(dims, q);
      PlacedNext(es, i, pos, level, q);
    }
  }

  /** The next scalar goes to exactly one position. */
  lemma PlacedNext(es: seq<Json>, i: nat, pos: Pos, level: nat, q: Pos)
    requires i < |es| && es[i].Scalar? && level < |pos| == |q| && AllZero(pos[level..])
    ensures Placed(es, i + 1, pos, level, q) == if q == pos[level := i] then Some(es[i].value) else Placed(es, i, pos, level, q)
  {
    var p := pos[level := i];
    if q == p {
      assert q[..level] == pos[..level];
      var rest := q[level + 1..];
      forall k | 0 <= k < |rest| ensures rest[k] == 0 {
        assert pos[level..][k + 1] == 0;
      }
    } else if q[..level] == pos[..level] && q[level] == i && AllZero(q[level + 1..]) {
      SamePosition(pos, level, i, q);
    }
  }

  lemma SamePosition(pos: Pos, level: nat, i: nat, q: Pos)
    requires level < |pos| == |q| && AllZero(pos[level..]) && AllZero(q[level + 1..])
    requires q[..level] == pos[..level] && q[level] == i
    ensures q == pos[level := i]
  {
    forall k | 0 <= k < |q| ensures q[k] == pos[level := i][k] {
      if k < level {
        assert q[..level][k] == pos[..level][k];
      } else if k > level {
        assert pos[level..][k - level] == 0 && q[level + 1..][k - level - 1] == 0;
      }
    }
  }

  lemma FilledArray(dims: seq<nat>, before: seq<int>, mid: seq<int>, after: seq<int>, es: seq<Json>, i: nat, pos: Pos, level: nat)
    requires i < |es| && es[i].Array? && level + 1 < |pos| == |dims|
    requires Filled(dims, before, mid, es, i, pos, level)
    requires Filled(dims, mid, after, es[i].elements, |es[i].elements|, pos[level := i], level + 1)
    ensures Filled(dims, before, after, es, i + 1, pos, level)
  {
    hide Volume, Index;
    var p := pos[level := i];
    forall q | InRange(dims, q)
      ensures Cell(after, dims, q) ==
              var v := Placed(es, i + 1, pos, level, q); if v.Some? then v.value else Cell(before, dims, q)
    {
      assert q[..level + 1] == q[..level] + [q[level]] && p[..level + 1] == pos[..level] + [i];
      assert q[level + 1..][1..] == q[level + 2..];
    }
  }

  lemma WholeArray(dims: seq<nat>, n: nat)
    requires StridesFit(dims) && n == ToUint64(Volume(dims))
    ensures n == Volume(dims)
  {
    hide Volume, ToUint64;
    FitsInMemory(dims);
    Uint64Kept(Volume(dims));
  }

  /**
   Writes every scalar below `es`; `false` means a position was out of range. Where strides do not
   fit, the index of a cell may be wrong, and a write past the end is lost here.
   */
  method PopulateMultiVector(es: seq<Json>, target: MultiVector, pos: Pos, level: nat) returns (ok: bool)
    requires target.Valid() && level < |pos| == |target.dimensions| && AllZero(pos[level..])
    requires forall k :: 0 <= k < level ==> pos[k] < target.dimensions[k]
    requires Fits(Array(es), target.dimensions, level)
    requires forall k :: 0 <= k < |target.dimensions| - 1 ==> target.dimensions[k] > 0
    modifies target`data
    ensures target.Valid()
    ensures ok <==> target.dimensions[|target.dimensions| - 1] > 0 || !HasScalar(Array(es))
    ensures ok && StridesFit(target.dimensions) ==> Filled(target.dimensions, old(target.data), target.data, es, |es|, pos, level)
    decreases es
  {
    hide StridesFit, ToUint64;
    var dims := target.dimensions;
    if StridesFit(dims) { WholeArray(dims, |target.data|); }
    for i := 0 to |es|
      modifies target`data
      invariant target.Valid() && (StridesFit(dims) ==> Filled(dims, old(target.data), target.data, es, i, pos, level))
      invariant dims[|dims| - 1] > 0 || forall k :: 0 <= k < i ==> !HasScalar(es[k])
    {
      var p := pos[level := i];
      var e := es[i];
      assert e in es && Fits(e, dims, level + 1);
      if e.Array? {
        ghost var mid := target.data;
        ok := PopulateMultiVector(e.elements, target, p, level + 1);
        if !ok {
          return false;
        }
        if StridesFit(dims) {
          FilledArray(dims, old(target.data), mid, target.data, es, i, pos, level);
        }
      } else {
        var cell := target.At(p);
        if cell.None? {
          return false;
        }
        if StridesFit(dims) {
          FilledScalar(dims, old(target.data), target.data, es, i, pos, level);
        }
        if cell.value < |target.data| {
          target.data := target.data[cell.value := e.value];
        }
      }
    }
    return true;
  }

  /** A value that is not an array is written like an array holding it. */
  function AsArray(j: Json): Json
  {
    if j.Array? then j else Array([j])
  }

  lemma DimensionsFit(j: Json)
    ensures Fits(AsArray(j), Dimensions(j), 0)
    ensures forall k :: 0 <= k < |Dimensions(j)| - 1 ==> Dimensions(j)[k] > 0
  {
    if j.Array? {
      FitsWhenLongEnough(j, Dimensions(j), 0);
      forall k | 0 <= k < |Dimensions(j)| - 1 ensures Dimensions(j)[k] > 0 {
        InnerLevelsNonEmpty(j, k);
      }
    }
  }

  lemma DenseCells(j: Json, dims: seq<nat>, blank: seq<int>, data: seq<int>, es: seq<Json>, origin: Pos)
    requires Array(es) == AsArray(j) && dims != [] && origin == Zeros(|dims|) && blank == seq(Volume(dims), _ => 0)
    requires Filled(dims, blank, data, es, |es|, origin, 0)
    ensures forall q :: InRange(dims, q) ==> Cell(data, dims, q) == var v := Lookup(AsArray(j), q); if v.Some? then v.value else 0
  {
    hide Volume, Index;
    forall q | InRange(dims, q) ensures Cell(data, dims, q) == var v := Lookup(AsArray(j), q); if v.Some? then v.value else 0 {
      assert q[0..] == q && q[..0] == origin[..0];
      IndexThenPosition(dims, q);
      assert Cell(blank, dims, q) == 0;
    }
  }

  /**
   The dense array of a JSON value. It fails exactly when the innermost dimension is empty while
   there is a scalar to store; otherwise, where strides fit, every cell holds the scalar that
   belongs there, or zero.
   */
  method JsonArrayToMultiArray(j: Json) returns (r: Option<MultiVector>)
    ensures var dims := Dimensions(j);
            && (r.None? <==> dims[|dims| - 1] == 0 && HasScalar(j))
            && (r.Some? ==>
                  && r.value.Valid() && r.value.dimensions == dims
                  && (StridesFit(dims) ==> forall q :: InRange(dims, q) ==>
                       Cell(r.value.data, dims, q) == var v := Lookup(AsArray(j), q); if v.Some? then v.value else 0))
  {
    var dims := DetermineArrayDimensions(j);
    DimensionsFit(j);
    var target := new MultiVector(dims);
    var es := if j.Array? then j.elements else [j];
    ghost var blank := target.data;
    var origin := Zeros(|dims|);
    assert origin[0..] == origin;
    var ok := PopulateMultiVector(es, target, origin, 0);
    assert HasScalar(Array(es)) <==> HasScalar(j) by {
      if j.Scalar? { assert j in es; }
    }
    if !ok {
      return None;
    }
    if StridesFit(dims) {
      DenseCells(j, dims, blank, target.data, es, origin);
    }
    return Some(target);
  }

  lemma {:induction false} PathFits(j: Json, dims: seq<nat>, level: nat, path: seq<nat>, v: int)
    requires Fits(j, dims, level) && IsScalarAt(j, path, v) && level <= |dims|
    ensures level + |path| <= |dims| && forall k :: 0 <= k < |path| ==> path[k] < dims[level + k]
  {
    if path != [] {
      var e := j.elements[path[0]];
      assert e in j.elements;
      PathFits(e, dims, level + 1, path[1..], v);
      forall k | 0 <= k < |path| ensures path[k] < dims[level + k] {
        if k > 0 { assert path[1..][k - 1] < dims[level + 1 + (k - 1)]; }
      }
    }
  }

  /** Every scalar of an array without empty dimensions has a cell, and no two share one. */
  lemma EveryScalarHasItsCell(j: Json, path: seq<nat>, v: int)
    requires j.Array? && IsScalarAt(j, path, v) && forall k :: 0 <= k < |Dimensions(j)| ==> Dimensions(j)[k] > 0
    ensures var dims := Dimensions(j);
            && |path| <= |dims| && InRange(dims, Pad(path, |dims|)) && Lookup(j, Pad(path, |dims|)) == Some(v)
            && forall other, w :: IsScalarAt(j, other, w) && |other| <= |dims| && Pad(other, |dims|) == Pad(path, |dims|) ==> other == path
  {
    var dims := Dimensions(j);
    DimensionsFit(j);
    PathFits(j, dims, 0, path, v);
    ScalarLandsAtPaddedPath(j, path, v, |dims|);
    forall other, w | IsScalarAt(j, other, w) && |other| <= |dims| && Pad(other, |dims|) == Pad(path, |dims|)
      ensures other == path
    {
      PaddedPathsDistinct(j, other, path, w, v, |dims|);
    }
  }
}
