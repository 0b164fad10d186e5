/**
 What claimed slices leave of a histogram.

 The overlap test does not see the cells of a claim but its shadow: the first cell and, along each
 dimension, whatever lies between the offset and the sum of offset and size. An empty slice has a
 shadow too. A timestamp can be completed exactly when no missing cell lies in one.
 */
module HistogramShadow {
  import opened Common
  import opened Grid
  import opened HistogramSlice
  import opened HistogramRecord
  import opened HistogramWriter

  // ----- Shadows

  predicate ShadowAlong(o: Uint32, n: Uint32, x: nat)
  {
    x == o || o < x < Add32(o, n)
  }

  ghost predicate Shadow(s: Slice, p: Pos)
  {
    |p| == |s.offsets| == |s.sizes| && forall i :: 0 <= i < |p| ==> ShadowAlong(s.offsets[i], s.sizes[i], p[i])
  }

  /** The larger offset decides whether an interval meets a shadow. */
  lemma OverlapsAlongMeaning(o: Uint32, n: Uint32, o': Uint32, n': Uint32)
    requires o' as int + n' as int < UINT32_LIMIT
    ensures OverlapsAlong(o, n, o', n') && n' > 0 ==> Max(o, o') < o' + n' && ShadowAlong(o, n, Max(o, o'))
    ensures forall x: nat :: o' <= x < o' + n' && ShadowAlong(o, n, x) ==> OverlapsAlong(o, n, o', n')
  {
  }

  /**
   Whatever the size of the first slice and whether or not its sums wrap, it overlaps a slice with
   cells inside the histogram, by the test, exactly when one of these cells is in its shadow.
   */
  lemma OverlapIffShadow(dims: seq<nat>, s: Slice, r: Slice)
    requires Dims32(dims) && s.WellFormed(|dims|) && r.Within(dims) && r.Positive()
    ensures s.Compatible(r)
    ensures s.Overlaps(r) <==> exists p :: InBox(r.offsets, r.sizes, p) && Shadow(s, p)
  {
    forall i | 0 <= i < |dims| ensures r.offsets[i] as int + r.sizes[i] as int < UINT32_LIMIT {
      assert dims[i] < UINT32_LIMIT;
    }
    if p :| InBox(r.offsets, r.sizes, p) && Shadow(s, p) {
      ShadowedOverlaps(s, r, p);
    }
    if s.Overlaps(r) {
      var p: Pos := seq<nat>(|dims|, i requires 0 <= i < |dims| => Max(s.offsets[i], r.offsets[i]));
      forall i | 0 <= i < |p|
        ensures r.offsets[i] <= p[i] < r.offsets[i] + r.sizes[i] && ShadowAlong(s.offsets[i], s.sizes[i], p[i])
      {
        OverlapsAlongMeaning(s.offsets[i], s.sizes[i], r.offsets[i], r.sizes[i]);
        assert OverlapsAlong(s.offsets[i], s.sizes[i], r.offsets[i], r.sizes[i]);
      }
      assert InBox(r.offsets, r.sizes, p) && Shadow(s, p);
    }
  }

  lemma ShadowedOverlaps(s: Slice, r: Slice, p: Pos)
    requires s.Compatible(r) && r.NoWrap() && InBox(r.offsets, r.sizes, p) && Shadow(s, p)
    ensures s.Overlaps(r)
  {
    forall i | 0 <= i < |p| ensures OverlapsAlong(s.offsets[i], s.sizes[i], r.offsets[i], r.sizes[i]) {
      OverlapsAlongMeaning(s.offsets[i], s.sizes[i], r.offsets[i], r.sizes[i]);
      assert ShadowAlong(s.offsets[i], s.sizes[i], p[i]) && r.offsets[i] <= p[i] < r.offsets[i] + r.sizes[i];
    }
  }

  /** The cells of a slice inside the histogram are in its shadow, and when it has any there are no others. */
  lemma OwnShadow(dims: seq<nat>, s: Slice, p: Pos)
    requires Dims32(dims) && s.Within(dims)
    ensures InBox(s.offsets, s.sizes, p) ==> Shadow(s, p)
    ensures s.Positive() && Shadow(s, p) ==> InBox(s.offsets, s.sizes, p)
  {
    if |p| == |dims| {
      forall i | 0 <= i < |dims|
        ensures s.offsets[i] <= p[i] < s.offsets[i] + s.sizes[i] ==> ShadowAlong(s.offsets[i], s.sizes[i], p[i])
        ensures s.sizes[i] > 0 && ShadowAlong(s.offsets[i], s.sizes[i], p[i]) ==> s.offsets[i] <= p[i] < s.offsets[i] + s.sizes[i]
      {
        assert s.offsets[i] as int + s.sizes[i] as int <= dims[i] < UINT32_LIMIT;
      }
    }
  }

  /** A shadow reaches into the histogram exactly when it starts there. */
  lemma ShadowStartsInside(dims: seq<nat>, s: Slice)
    requires s.WellFormed(|dims|)
    ensures (exists p :: InRange(dims, p) && Shadow(s, p)) <==> InRange(dims, s.offsets)
  {
    if p :| InRange(dims, p) && Shadow(s, p) {
      forall i | 0 <= i < |dims| ensures s.offsets[i] < dims[i] {
        assert ShadowAlong(s.offsets[i], s.sizes[i], p[i]) && p[i] < dims[i];
      }
    }
    if InRange(dims, s.offsets) {
      assert Shadow(s, s.offsets);
    }
  }

  ghost predicate AllWellFormed(dims: seq<nat>, slices: seq<Slice>)
  {
    forall s :: s in slices ==> s.WellFormed(|dims|)
  }

  ghost predicate ShadowOfAny(slices: seq<Slice>, p: Pos)
  {
    exists s :: s in slices && Shadow(s, p)
  }

  /** A slice with cells is rejected as taken exactly when one of its cells is in the shadow of a claim. */
  lemma TakenIffShadow(dims: seq<nat>, slices: seq<Slice>, r: Slice)
    requires Dims32(dims) && AllWellFormed(dims, slices) && r.Within(dims) && r.Positive()
    ensures Taken(slices, r) <==> exists p :: InBox(r.offsets, r.sizes, p) && ShadowOfAny(slices, p)
  {
    hide Slice.Overlaps, Slice.Positive, Shadow, InBox, Slice.Compatible;
    if s :| s in slices && s.Compatible(r) && s.Overlaps(r) {
      OverlapIffShadow(dims, s, r);
      var p :| InBox(r.offsets, r.sizes, p) && Shadow(s, p);
      assert ShadowOfAny(slices, p);
    }
    if p :| InBox(r.offsets, r.sizes, p) && ShadowOfAny(slices, p) {
      var s :| s in slices && Shadow(s, p);
      OverlapIffShadow(dims, s, r);
    }
  }

  // ----- Parts of a histogram

  /** A block as part of a histogram: inside it, and with cells. */
  ghost predicate Part(dims: seq<nat>, b: Values)
  {
    Inside(dims, b) && 0 !in b.sizes
  }

  ghost predicate Parts(dims: seq<nat>, blocks: seq<Values>)
  {
    forall b :: b in blocks ==> Part(dims, b)
  }

  function To32(xs: seq<nat>): (r: seq<Uint32>)
    requires forall i :: 0 <= i < |xs| ==> xs[i] < UINT32_LIMIT
    ensures r == xs
  {
    xs
  }

  lemma PartIs32(dims: seq<nat>, b: Values)
    requires Dims32(dims) && Part(dims, b)
    ensures |b.offsets| == |b.sizes| == |dims|
    ensures forall i :: 0 <= i < |dims| ==> b.offsets[i] + b.sizes[i] < UINT32_LIMIT && b.sizes[i] > 0
  {
    forall i | 0 <= i < |dims| ensures b.offsets[i] + b.sizes[i] < UINT32_LIMIT && b.sizes[i] > 0 {
      assert b.sizes[i] in b.sizes;
    }
  }

  /** The slice a block fills. */
  ghost function SliceFor(dims: seq<nat>, b: Values): Slice
    requires Dims32(dims) && Part(dims, b)
  {
    PartIs32(dims, b);
    Slice(To32(b.offsets), To32(b.sizes))
  }

  lemma PartSlice(dims: seq<nat>, b: Values)
    requires Dims32(dims) && Part(dims, b)
    ensures SliceFor(dims, b).Within(dims) && SliceFor(dims, b).Positive()
    ensures SliceFor(dims, b).offsets == b.offsets && SliceFor(dims, b).sizes == b.sizes
  {
    PartIs32(dims, b);
  }

  lemma PartShadow(dims: seq<nat>, b: Values, p: Pos)
    requires Dims32(dims) && Part(dims, b)
    ensures Shadow(SliceFor(dims, b), p) <==> p in BlockCells(b)
  {
    PartSlice(dims, b);
    OwnShadow(dims, SliceFor(dims, b), p);
    CellsAreTheBox(b.offsets, b.sizes, p);
  }

  /** A part is rejected as taken exactly when one of its cells is in the shadow of a claim. */
  lemma PartTakenIff(dims: seq<nat>, slices: seq<Slice>, b: Values)
    requires Dims32(dims) && AllWellFormed(dims, slices) && Part(dims, b)
    ensures Taken(slices, SliceFor(dims, b)) <==> exists p :: p in BlockCells(b) && ShadowOfAny(slices, p)
  {
    hide Slice.Within, Slice.Positive, SliceFor, InBox, Taken, ShadowOfAny;
    PartSlice(dims, b);
    TakenIffShadow(dims, slices, SliceFor(dims, b));
    forall p ensures p in BlockCells(b) <==> InBox(b.offsets, b.sizes, p) {
      CellsAreTheBox(b.offsets, b.sizes, p);
    }
  }

  // ----- Completing a histogram

  ghost function Missing(dims: seq<nat>, written: seq<Values>): set<Pos>
  {
    AllCells(dims) - Covered(written)
  }

  /** Blocks for exactly the missing cells. */
  ghost predicate Completes(dims: seq<nat>, written: seq<Values>, rest: seq<Values>)
  {
    Layout(dims, rest) && Covered(rest) == Missing(dims, written)
  }

  ghost predicate NoneTaken(dims: seq<nat>, slices: seq<Slice>, blocks: seq<Values>)
    requires Dims32(dims) && Parts(dims, blocks)
  {
    forall b :: b in blocks ==> !Taken(slices, SliceFor(dims, b))
  }

  /** Parts exist for exactly the missing cells, and no claim stands in their way. */
  ghost predicate Completable(dims: seq<nat>, slices: seq<Slice>, written: seq<Values>)
    requires Dims32(dims)
  {
    exists rest :: Parts(dims, rest) && Completes(dims, written, rest) && NoneTaken(dims, slices, rest)
  }

  /** A missing cell is in the shadow of a claim. */
  ghost predicate Obstructed(dims: seq<nat>, slices: seq<Slice>, written: seq<Values>)
  {
    exists p :: p in Missing(dims, written) && ShadowOfAny(slices, p)
  }

  /** Of any parts for the missing cells, one is rejected exactly when a missing cell is in a shadow. */
  lemma CompletionFreeIff(dims: seq<nat>, slices: seq<Slice>, written: seq<Values>, rest: seq<Values>)
    requires Dims32(dims) && AllWellFormed(dims, slices) && Parts(dims, rest) && Completes(dims, written, rest)
    ensures NoneTaken(dims, slices, rest) <==> !Obstructed(dims, slices, written)
  {
    hide Layout, Part, Covered, AllCells, Taken, SliceFor, ShadowOfAny;
    if p :| p in Missing(dims, written) && ShadowOfAny(slices, p) {
      CoveredMembers(rest, p);
      var i :| 0 <= i < |rest| && p in BlockCells(rest[i]);
      assert rest[i] in rest;
      PartTakenIff(dims, slices, rest[i]);
    }
    if b :| b in rest && Taken(slices, SliceFor(dims, b)) {
      PartTakenIff(dims, slices, b);
      var p :| p in BlockCells(b) && ShadowOfAny(slices, p);
      CoveredMembers(rest, p);
    }
  }

  /** A histogram can be completed exactly when no missing cell is in the shadow of a claim. */
  lemma CompletableIff(dims: seq<nat>, slices: seq<Slice>, written: seq<Values>)
    requires Dims32(dims) && AllWellFormed(dims, slices)
    ensures Completable(dims, slices, written) <==> !Obstructed(dims, slices, written)
  {
    hide Layout, Parts, Missing, NoneTaken, Obstructed, AllWellFormed, Covered, Dims32;
    if rest :| Parts(dims, rest) && Completes(dims, written, rest) && NoneTaken(dims, slices, rest) {
      CompletionFreeIff(dims, slices, written, rest);
    }
    if !Obstructed(dims, slices, written) {
      MissingCells(dims, written);
      var rest := CellByCell(dims, Missing(dims, written));
      CompletionFreeIff(dims, slices, written, rest);
    }
  }

  lemma MissingCells(dims: seq<nat>, written: seq<Values>)
    ensures Missing(dims, written) <= AllCells(dims)
  {
  }

  /** A part of one cell. */
  function CellBlock(p: Pos): Values
  {
    Block(p, seq(|p|, _ => 1), [0])
  }

  lemma {:induction false} VolumeOfOnes(sizes: seq<nat>)
    requires forall i :: 0 <= i < |sizes| ==> sizes[i] == 1
    ensures Volume(sizes) == 1
  {
    if sizes != [] { VolumeOfOnes(sizes[1..]); }
  }

  lemma CellBlockIsPart(dims: seq<nat>, p: Pos)
    requires p in AllCells(dims)
    ensures Part(dims, CellBlock(p)) && BlockCells(CellBlock(p)) == {p}
  {
    var b := CellBlock(p);
    CellsAreTheBox(Zeros(|dims|), dims, p);
    VolumeOfOnes(b.sizes);
    forall q ensures q in BlockCells(b) <==> q == p {
      CellsAreTheBox(b.offsets, b.sizes, q);
    }
  }

  /** Any cells can be sent one by one. */
  lemma {:induction false} CellByCell(dims: seq<nat>, cells: set<Pos>) returns (blocks: seq<Values>)
    requires cells <= AllCells(dims)
    ensures Parts(dims, blocks) && Layout(dims, blocks) && Covered(blocks) == cells
    decreases cells
  {
    hide Inside, AllCells, BlockCells, CellBlock;
    if cells == {} { return []; }
    var p :| p in cells;
    var rest := CellByCell(dims, cells - {p});
    CellBlockIsPart(dims, p);
    blocks := rest + [CellBlock(p)];
    assert blocks[..|rest|] == rest;
  }

  /**
   Whatever the size of a slice, it stands in the way of a complete tiling exactly when its first
   cell is a cell of the histogram, and then in the way of every tiling.
   */
  lemma ObstructsTilingIff(dims: seq<nat>, s: Slice, blocks: seq<Values>)
    requires Dims32(dims) && s.WellFormed(|dims|) && Tiles(dims, blocks) && Parts(dims, blocks)
    ensures NoneTaken(dims, [s], blocks) <==> !InRange(dims, s.offsets)
  {
    hide Layout, Parts, NoneTaken, AllCells, Shadow, InRange, Slice.WellFormed, Dims32;
    assert AllWellFormed(dims, [s]);
    CompletionFreeIff(dims, [s], [], blocks);
    ShadowStartsInside(dims, s);
    forall p ensures p in AllCells(dims) <==> InRange(dims, p) {
      CellInRange(dims, p);
    }
    if p :| InRange(dims, p) && Shadow(s, p) {
      assert s in [s] && ShadowOfAny([s], p);
    }
  }

  lemma CellInRange(dims: seq<nat>, p: Pos)
    ensures p in AllCells(dims) <==> InRange(dims, p)
  {
    CellsAreTheBox(Zeros(|dims|), dims, p);
  }

  // ----- One more claim, one more block

  lemma CoveredByOneMore(written: seq<Values>, b: Values)
    ensures Covered(written + [b]) == Covered(written) + BlockCells(b)
  {
    assert (written + [b])[..|written|] == written;
  }

  lemma ShadowOfOneMore(slices: seq<Slice>, s: Slice, p: Pos)
    ensures ShadowOfAny(slices + [s], p) <==> ShadowOfAny(slices, p) || Shadow(s, p)
  {
    hide Shadow;
    if r :| r in slices && Shadow(r, p) {
      assert r in slices + [s];
    }
    if Shadow(s, p) {
      assert s in slices + [s];
    }
  }

  /** A claim that covers no further cell obstructs exactly the missing cells in its shadow. */
  lemma ObstructedByOneMore(dims: seq<nat>, slices: seq<Slice>, s: Slice, written: seq<Values>)
    ensures Obstructed(dims, slices + [s], written)
       <==> Obstructed(dims, slices, written) || exists p :: p in Missing(dims, written) && Shadow(s, p)
  {
    hide Missing, Shadow, ShadowOfAny;
    forall p ensures ShadowOfAny(slices + [s], p) <==> ShadowOfAny(slices, p) || Shadow(s, p) {
      ShadowOfOneMore(slices, s, p);
    }
  }

  /** A block that is accepted leaves every missing cell missing that is in a shadow. */
  lemma ObstructedStays(dims: seq<nat>, slices: seq<Slice>, r: Slice, written: seq<Values>, b: Values)
    requires Dims32(dims) && AllWellFormed(dims, slices) && r.Within(dims) && b.offsets == r.offsets && b.sizes == r.sizes
    requires Obstructed(dims, slices, written) && !Taken(slices, r)
    ensures Obstructed(dims, slices + [r], written + [b])
  {
    hide AllCells, Shadow, Covered, Slice.Positive, Slice.Within, Dims32, AllWellFormed, InBox;
    var p :| p in Missing(dims, written) && ShadowOfAny(slices, p);
    ShadowOfOneMore(slices, r, p);
    CoveredByOneMore(written, b);
    if p in BlockCells(b) {
      CellsAreTheBox(b.offsets, b.sizes, p);
      HasCells(r, p);
      TakenIffShadow(dims, slices, r);
      assert false;
    }
  }

  lemma HasCells(r: Slice, p: Pos)
    requires |r.offsets| == |r.sizes| && InBox(r.offsets, r.sizes, p)
    ensures r.Positive()
  {
    forall i | 0 <= i < |r.sizes| ensures r.sizes[i] > 0 {
      assert r.offsets[i] <= p[i] < r.offsets[i] as int + r.sizes[i] as int;
    }
  }

  // ----- On the way to a complete histogram

  /** These blocks were written, the rest is for exactly the missing cells, and no claim is in the way. */
  ghost predicate Open(dims: seq<nat>, slices: seq<Slice>, written: seq<Values>, done: seq<Values>, rest: seq<Values>)
  {
    && AllWellFormed(dims, slices) && (forall b :: b in done ==> b in written)
    && Parts(dims, rest) && Completes(dims, written, rest) && !Obstructed(dims, slices, written)
  }

  /** The shadow of a slice holds no cell of these blocks. */
  ghost predicate Harmless(s: Slice, rest: seq<Values>)
  {
    forall p :: Shadow(s, p) ==> p !in Covered(rest)
  }

  lemma OpenAfterClaim(dims: seq<nat>, slices: seq<Slice>, s: Slice, written: seq<Values>, done: seq<Values>, rest: seq<Values>)
    requires Open(dims, slices, written, done, rest) && s.WellFormed(|dims|) && Harmless(s, rest)
    ensures Open(dims, slices + [s], written, done, rest)
  {
    hide Parts, Layout, Missing, Shadow, Slice.WellFormed, Obstructed, Covered;
    ObstructedByOneMore(dims, slices, s, written);
  }

  /** A block in cells that were written before, if it has any. */
  lemma OpenAfterBlock(dims: seq<nat>, slices: seq<Slice>, s: Slice, written: seq<Values>, b: Values, done: seq<Values>, rest: seq<Values>)
    requires Dims32(dims) && Open(dims, slices, written, done, rest) && s.Within(dims) && Harmless(s, rest)
    requires b.offsets == s.offsets && b.sizes == s.sizes
    ensures Open(dims, slices + [s], written + [b], done, rest)
  {
    hide Parts, Layout, Shadow, ShadowOfAny, Covered, AllCells, BlockCells, InBox, Dims32;
    forall p | p in BlockCells(b) ensures p in AllCells(dims) && p !in Covered(rest) {
      InsideBox(dims, s, b, p);
    }
    CoveredByOneMore(written, b);
    assert Missing(dims, written + [b]) == Missing(dims, written);
    assert Open(dims, slices, written + [b], done, rest);
    OpenAfterClaim(dims, slices, s, written + [b], done, rest);
  }

  lemma InsideBox(dims: seq<nat>, s: Slice, b: Values, p: Pos)
    requires Dims32(dims) && s.Within(dims) && b.offsets == s.offsets && b.sizes == s.sizes && p in BlockCells(b)
    ensures p in AllCells(dims) && Shadow(s, p)
  {
    CellsAreTheBox(b.offsets, b.sizes, p);
    CellsAreTheBox(Zeros(|dims|), dims, p);
    OwnShadow(dims, s, p);
    forall i | 0 <= i < |dims| ensures p[i] < dims[i] {
      assert s.offsets[i] as int + s.sizes[i] as int <= dims[i];
    }
  }

  lemma FirstOfLayout(dims: seq<nat>, rest: seq<Values>)
    requires rest != [] && Layout(dims, rest)
    ensures Layout(dims, rest[1..])
    ensures Covered(rest) == BlockCells(rest[0]) + Covered(rest[1..]) && BlockCells(rest[0]) !! Covered(rest[1..])
  {
    hide Layout, Covered, BlockCells, Inside;
    LayoutIsPairwise(dims, rest);
    LayoutIsPairwise(dims, rest[1..]);
    forall p
      ensures p in Covered(rest) <==> p in BlockCells(rest[0]) || p in Covered(rest[1..])
      ensures !(p in BlockCells(rest[0]) && p in Covered(rest[1..]))
    {
      CoveredMembers(rest, p);
      CoveredMembers(rest[1..], p);
      assert forall i :: 0 < i < |rest| ==> rest[i] == rest[1..][i - 1];
    }
  }

  /** The next part is free, and after it the way is open for the others. */
  lemma OpenAfterPart(dims: seq<nat>, slices: seq<Slice>, written: seq<Values>, done: seq<Values>, rest: seq<Values>)
    requires Dims32(dims) && Open(dims, slices, written, done, rest) && rest != []
    ensures Part(dims, rest[0]) && !Taken(slices, SliceFor(dims, rest[0]))
    ensures Open(dims, slices + [SliceFor(dims, rest[0])], written + [rest[0]], done + [rest[0]], rest[1..])
  {
    hide Layout, Part, SliceFor, Shadow, Taken, Dims32, BlockCells, AllCells, Covered, ShadowOfAny;
    var b := rest[0];
    assert b in rest;
    var s := SliceFor(dims, b);
    CompletionFreeIff(dims, slices, written, rest);
    FirstOfLayout(dims, rest);
    PartSlice(dims, b);
    CoveredByOneMore(written, b);
    assert Covered(rest[1..]) == Missing(dims, written + [b]);
    forall p | Shadow(s, p) ensures p !in Covered(rest[1..]) {
      PartShadow(dims, b, p);
    }
    assert Open(dims, slices, written + [b], done + [b], rest[1..]);
    OpenAfterClaim(dims, slices, s, written + [b], done + [b], rest[1..]);
  }

  /** When nothing is left, the blocks written tile the histogram. */
  lemma NothingLeft(dims: seq<nat>, slices: seq<Slice>, written: seq<Values>, done: seq<Values>)
    requires Open(dims, slices, written, done, []) && Layout(dims, written)
    ensures Tiles(dims, written) && forall b :: b in done ==> b in written
  {
    hide Layout, Obstructed, AllWellFormed, AllCells;
    CoveredCount(dims, written);
    assert Covered([]) == {};
    forall p | p in AllCells(dims) ensures p in Covered(written) {
      assert p !in Missing(dims, written);
    }
  }
}
