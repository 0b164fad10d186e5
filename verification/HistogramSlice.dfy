/**
 Slices of a histogram and the overlap test that guards them.

 The test adds offsets and sizes as 32-bit unsigned integers. Its sums wrap, and the lemmas
 say exactly on which histograms that matters.
 */
module HistogramSlice {
  import opened Common
  import opened Grid

  type Uint32 = x: int | 0 <= x < UINT32_LIMIT

  function Add32(a: Uint32, b: Uint32): Uint32
  {
    (a + b) % UINT32_LIMIT
  }

  /** One dimension of the overlap test, seen from a slice (o, n) against another (o', n'). */
  predicate OverlapsAlong(o: Uint32, n: Uint32, o': Uint32, n': Uint32)
  {
    if o' <= o then Add32(o', n') > o else o' < Add32(o, n)
  }

  datatype Slice = Slice(offsets: seq<Uint32>, sizes: seq<Uint32>) {

    predicate WellFormed(rank: nat)
    {
      |offsets| == |sizes| == rank
    }

    predicate Compatible(other: Slice)
    {
      |offsets| == |sizes| == |other.offsets| == |other.sizes|
    }

    predicate Overlaps(other: Slice)
      requires Compatible(other)
    {
      forall i :: 0 <= i < |offsets| ==> OverlapsAlong(offsets[i], sizes[i], other.offsets[i], other.sizes[i])
    }

    /** Counts the overlapping dimensions; `None` is the exception for incompatible shapes. */
    method DoesOverlap(other: Slice) returns (r: Option<bool>)
      ensures r.Some? <==> Compatible(other)
      ensures r.Some? ==> (r.value <==> Overlaps(other))
    {
      if |offsets| != |sizes| || |other.offsets| != |offsets| || |other.sizes| != |sizes| {
        return None;
      }
      var overlappingDims := 0;
      for i := 0 to |offsets|
        invariant overlappingDims <= i
        invariant overlappingDims == i <==>
                  forall k :: 0 <= k < i ==> OverlapsAlong(offsets[k], sizes[k], other.offsets[k], other.sizes[k])
      {
        if other.offsets[i] <= offsets[i] {
          if Add32(other.offsets[i], other.sizes[i]) > offsets[i] {
            overlappingDims := overlappingDims + 1;
          }
        } else if other.offsets[i] < Add32(offsets[i], sizes[i]) {
          overlappingDims := overlappingDims + 1;
        }
      }
      return Some(overlappingDims == |offsets|);
    }

    ghost predicate Within(dims: seq<nat>)
    {
      WellFormed(|dims|) && forall i :: 0 <= i < |dims| ==> offsets[i] as int + sizes[i] as int <= dims[i]
    }

    ghost predicate NoWrap()
    {
      |offsets| == |sizes| && forall i :: 0 <= i < |offsets| ==> offsets[i] as int + sizes[i] as int < UINT32_LIMIT
    }

    ghost predicate Positive()
    {
      forall i :: 0 <= i < |sizes| ==> sizes[i] > 0
    }
  }

  ghost predicate SharesCell(a: Slice, b: Slice)
    requires a.Compatible(b)
  {
    exists p :: InBox(a.offsets, a.sizes, p) && InBox(b.offsets, b.sizes, p)
  }

  /**
   Without wrap-around, two slices share a cell exactly when the test says so and neither is
   empty. In particular a negative answer always means disjoint.
   */
  lemma OverlapMeaning(a: Slice, b: Slice)
    requires a.Compatible(b) && a.NoWrap() && b.NoWrap()
    ensures SharesCell(a, b) <==> a.Overlaps(b) && a.Positive() && b.Positive()
  {
    if SharesCell(a, b) {
      var p: Pos :| InBox(a.offsets, a.sizes, p) && InBox(b.offsets, b.sizes, p);
      forall i | 0 <= i < |a.offsets|
        ensures a.sizes[i] > 0 && b.sizes[i] > 0
        ensures OverlapsAlong(a.offsets[i], a.sizes[i], b.offsets[i], b.sizes[i])
      {
        var x: int := p[i];
        assert a.offsets[i] <= x < a.offsets[i] + a.sizes[i];
      }
    }
    if a.Overlaps(b) && a.Positive() && b.Positive() {
      var p: Pos := seq<nat>(|a.offsets|, i requires 0 <= i < |a.offsets| => Max(a.offsets[i], b.offsets[i]));
      forall i | 0 <= i < |p|
        ensures a.offsets[i] <= p[i] < a.offsets[i] + a.sizes[i]
        ensures b.offsets[i] <= p[i] < b.offsets[i] + b.sizes[i]
      {
        assert OverlapsAlong(a.offsets[i], a.sizes[i], b.offsets[i], b.sizes[i]);
      }
      assert InBox(a.offsets, a.sizes, p) && InBox(b.offsets, b.sizes, p);
    }
  }

  /** The overlap test finds every collision between slices inside a histogram of these dimensions. */
  ghost predicate DetectsCollisions(dims: seq<nat>)
  {
    forall a: Slice, b: Slice {:trigger a.Within(dims), b.Within(dims)} ::
      a.Within(dims) && b.Within(dims) && SharesCell(a, b) ==> a.Overlaps(b)
  }

  ghost predicate Dims32(dims: seq<nat>)
  {
    forall i :: 0 <= i < |dims| ==> dims[i] < UINT32_LIMIT
  }

  /**
   The test is sound exactly for the histograms that have no cells or whose every dimension is
   below 2^32: in a wider one, the single cell at offset 2^32 - 1 does not even overlap itself.
   */
  lemma CollisionsDetectedIff(dims: seq<nat>)
    ensures DetectsCollisions(dims) <==> Dims32(dims) || 0 in dims
  {
    if 0 in dims {
      var empty :| 0 <= empty < |dims| && dims[empty] == 0;
      forall a: Slice, b: Slice | a.Within(dims) && b.Within(dims) ensures !SharesCell(a, b) {
        assert a.sizes[empty] == 0;
      }
    } else if Dims32(dims) {
      forall a: Slice, b: Slice | a.Within(dims) && b.Within(dims) && SharesCell(a, b)
        ensures a.Overlaps(b)
      {
        OverlapMeaning(a, b);
      }
    } else {
      var wide :| 0 <= wide < |dims| && dims[wide] >= UINT32_LIMIT;
      var last: Uint32 := UINT32_LIMIT - 1;
      var s := Slice(seq(|dims|, i => if i == wide then last else 0), seq(|dims|, _ => 1));
      assert s.Within(dims);
      assert InBox(s.offsets, s.sizes, s.offsets);
      assert SharesCell(s, s);
      assert !OverlapsAlong(s.offsets[wide], s.sizes[wide], s.offsets[wide], s.sizes[wide]);
      assert !s.Overlaps(s);
    }
  }

  /** A slice that touches no cell can still be reported as overlapping. */
  lemma EmptySliceReportedOverlapping()
    ensures var empty, other := Slice([3], [0]), Slice([2], [5]);
            empty.Compatible(other) && empty.Overlaps(other) && !SharesCell(empty, other)
  {
    var empty, other := Slice([3], [0]), Slice([2], [5]);
    assert OverlapsAlong(3, 0, 2, 5);
    assert empty.sizes[0] == 0;
    OverlapMeaning(empty, other);
  }
}
