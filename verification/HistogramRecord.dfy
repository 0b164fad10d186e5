/**
 The record kept for one histogram timestamp: which slices were claimed, how many items were
 written, and whether the histogram is complete.
 */
module HistogramRecord {
  import opened Common
  import opened Grid
  import opened HistogramSlice

  type Values = Block<int>

  // ----- The volume argument

  ghost predicate Inside(dims: seq<nat>, b: Values)
  {
    BlockOk(b) && |b.sizes| == |dims| && forall i :: 0 <= i < |dims| ==> b.offsets[i] + b.sizes[i] <= dims[i]
  }

  ghost function Covered(blocks: seq<Values>): set<Pos>
  {
    if blocks == [] then {} else Covered(blocks[..|blocks| - 1]) + BlockCells(blocks[|blocks| - 1])
  }

  ghost function Items(blocks: seq<Values>): nat
  {
    if blocks == [] then 0 else Items(blocks[..|blocks| - 1]) + Volume(blocks[|blocks| - 1].sizes)
  }

  /** Blocks inside the histogram, each disjoint from all earlier ones. */
  ghost predicate Layout(dims: seq<nat>, blocks: seq<Values>)
  {
    blocks != [] ==>
      var rest, last := blocks[..|blocks| - 1], blocks[|blocks| - 1];
      Layout(dims, rest) && Inside(dims, last) && BlockCells(last) !! Covered(rest)
  }

  /** Every cell of the histogram. */
  function AllCells(dims: seq<nat>): set<Pos>
  {
    Cells(Zeros(|dims|), dims)
  }

  ghost predicate Tiles(dims: seq<nat>, blocks: seq<Values>)
  {
    Layout(dims, blocks) && Covered(blocks) == AllCells(dims)
  }

  /** `Layout` in terms of pairs of blocks. */
  lemma {:induction false} LayoutIsPairwise(dims: seq<nat>, blocks: seq<Values>)
    ensures Layout(dims, blocks) <==>
              && (forall i :: 0 <= i < |blocks| ==> Inside(dims, blocks[i]))
              && (forall i, j :: 0 <= i < j < |blocks| ==> BlockCells(blocks[i]) !! BlockCells(blocks[j]))
  {
    hide Inside, BlockCells;
    if blocks != [] {
      var n := |blocks| - 1;
      var rest, last := blocks[..n], blocks[n];
      LayoutIsPairwise(dims, rest);
      DisjointFromCovered(rest, last);
      assert forall i :: 0 <= i < n ==> rest[i] == blocks[i];
    }
  }

  lemma DisjointFromCovered(blocks: seq<Values>, b: Values)
    ensures BlockCells(b) !! Covered(blocks) <==> forall i :: 0 <= i < |blocks| ==> BlockCells(blocks[i]) !! BlockCells(b)
  {
    hide BlockCells, Covered;
    forall p ensures p in Covered(blocks) <==> exists i :: 0 <= i < |blocks| && p in BlockCells(blocks[i]) {
      CoveredMembers(blocks, p);
    }
  }

  lemma {:induction false} CoveredMembers(blocks: seq<Values>, p: Pos)
    ensures p in Covered(blocks) <==> exists i :: 0 <= i < |blocks| && p in BlockCells(blocks[i])
  {
    if blocks != [] {
      CoveredMembers(blocks[..|blocks| - 1], p);
      assert forall i :: 0 <= i < |blocks| - 1 ==> blocks[..|blocks| - 1][i] == blocks[i];
    }
  }

  lemma BlockInsideCells(dims: seq<nat>, b: Values)
    requires Inside(dims, b)
    ensures BlockCells(b) <= AllCells(dims)
  {
    forall p | p in BlockCells(b) ensures p in AllCells(dims) {
      CellsAreTheBox(b.offsets, b.sizes, p);
      CellsAreTheBox(Zeros(|dims|), dims, p);
    }
  }

  /** Disjoint blocks cover exactly as many cells as they hold items. */
  lemma {:induction false} CoveredCount(dims: seq<nat>, blocks: seq<Values>)
    requires Layout(dims, blocks)
    ensures Covered(blocks) <= AllCells(dims)
    ensures |Covered(blocks)| == Items(blocks)
  {
    if blocks != [] {
      var rest, last := blocks[..|blocks| - 1], blocks[|blocks| - 1];
      CoveredCount(dims, rest);
      BlockInsideCells(dims, last);
      CellCount(last.offsets, last.sizes);
      DisjointUnionSize(Covered(blocks), Covered(rest), BlockCells(last));
    }
  }

  /** The item count reaches the volume of the histogram exactly when the blocks tile it. */
  lemma ItemsCountTheTiling(dims: seq<nat>, blocks: seq<Values>)
    requires Layout(dims, blocks)
    ensures Items(blocks) <= Volume(dims)
    ensures Items(blocks) == Volume(dims) <==> Tiles(dims, blocks)
  {
    CoveredCount(dims, blocks);
    CellCount(Zeros(|dims|), dims);
    var covered, missing := Covered(blocks), AllCells(dims) - Covered(blocks);
    DisjointUnionSize(AllCells(dims), covered, missing);
    assert missing == {} <==> covered == AllCells(dims);
  }

  /** Once something was written and the count has reached its goal, more blocks of a layout leave it there. */
  lemma FullStays(dims: seq<nat>, written: seq<Values>, b: Values)
    requires Layout(dims, written + [b]) && written != []
    requires Items(written) == if dims == [] then 0 else Volume(dims)
    ensures Items(written + [b]) == Items(written)
  {
    hide Volume;
    var all := written + [b];
    assert all[..|written|] == written;
    ItemsCountTheTiling(dims, all);
    if dims == [] { RankZeroItems(written); }
  }

  /** Without dimensions every block holds one item. */
  lemma RankZeroItems(blocks: seq<Values>)
    requires Layout([], blocks) && blocks != []
    ensures Items(blocks) >= 1
  {
    assert blocks[|blocks| - 1].sizes == [];
  }

  /** The image the blocks make when written in order. */
  ghost function Assemble(blocks: seq<Values>): map<Pos, int>
  {
    if blocks == [] then map[]
    else
      var image, last := Assemble(blocks[..|blocks| - 1]), blocks[|blocks| - 1];
      if BlockOk(last) then WriteBlock(image, last) else image
  }

  lemma {:induction false} AssembledKeys(dims: seq<nat>, blocks: seq<Values>)
    requires Layout(dims, blocks)
    ensures Assemble(blocks).Keys == Covered(blocks)
  {
    if blocks != [] {
      AssembledKeys(dims, blocks[..|blocks| - 1]);
    }
  }

  /** No block of a layout overwrites another: the image shows every value of every block. */
  lemma {:induction false} AssembledValue(dims: seq<nat>, blocks: seq<Values>, i: nat, p: Pos)
    requires Layout(dims, blocks) && i < |blocks| && p in BlockCells(blocks[i])
    ensures BlockOk(blocks[i]) && p in Assemble(blocks) && Assemble(blocks)[p] == BlockAt(blocks[i], p)
  {
    hide BlockAt, BlockCells;
    var n := |blocks| - 1;
    if i < n {
      var rest := blocks[..n];
      assert rest[i] == blocks[i];
      AssembledValue(dims, rest, i, p);
      CoveredMembers(rest, p);
    }
  }

  /** Number of items a complete histogram holds, in 64 bits; a histogram without dimensions counts none. */
  method TotalItems(dims: seq<nat>) returns (n: nat)
    ensures n == if dims == [] then 0 else ToUint64(Volume(dims))
  {
    if dims == [] {
      return 0;
    }
    n := Product64(dims);
  }

  /** The product of the sizes, in 64-bit unsigned arithmetic. */
  method Product64(sizes: seq<nat>) returns (n: nat)
    ensures n == ToUint64(Volume(sizes))
  {
    n := 1;
    for i := 0 to |sizes|
      invariant n == ToUint64(Volume(sizes[..i]))
    {
      assert sizes[..i + 1] == sizes[..i] + [sizes[i]];
      VolumeSplit(sizes[..i], [sizes[i]]);
      ModOfProduct(Volume(sizes[..i]), sizes[i], UINT64_LIMIT);
      n := ToUint64(n * sizes[i]);
    }
    assert sizes[..|sizes|] == sizes;
  }

  // ----- The record

  ghost predicate Claims(s: Slice, b: Values)
  {
    s.offsets == b.offsets && s.sizes == b.sizes
  }

  /** Every block written belongs to a slice that was claimed. */
  ghost predicate AllClaimed(slices: seq<Slice>, written: seq<Values>)
  {
    forall b :: b in written ==> exists s :: s in slices && Claims(s, b)
  }

  lemma ClaimedGrows(slices: seq<Slice>, written: seq<Values>, slice: Slice, b: Values)
    requires AllClaimed(slices, written) && Claims(slice, b)
    ensures AllClaimed(slices + [slice], written) && AllClaimed(slices + [slice], written + [b])
  {
    forall w | w in written + [b] ensures exists s :: s in slices + [slice] && Claims(s, w) {
      if w in written {
        var s :| s in slices && Claims(s, w);
        assert s in slices + [slice];
      } else {
        assert slice in slices + [slice];
      }
    }
  }

  class Record {
    const hdfIndex: nat
    const totalItems: nat
    var slices: seq<Slice>
    var itemsWritten: nat
    /** The blocks that reached the file. A slice stays claimed when its write fails. */
    ghost var written: seq<Values>
    /** Whether the row was marked full when this record took it over. */
    ghost const inherited: bool

    ghost predicate Valid(dims: seq<nat>)
      reads this
    {
      && totalItems == (if dims == [] then 0 else Volume(dims))
      && (forall s :: s in slices ==> s.WellFormed(|dims|))
      && Layout(dims, written)
      && AllClaimed(slices, written)
      && itemsWritten == Items(written)
    }

    constructor (hdfIndex: nat, totalItems: nat, ghost inherited: bool)
      ensures this.hdfIndex == hdfIndex && this.totalItems == totalItems && this.inherited == inherited
      ensures slices == [] && itemsWritten == 0 && written == []
    {
      this.hdfIndex, this.totalItems, this.inherited := hdfIndex, totalItems, inherited;
      slices, itemsWritten, written := [], 0, [];
    }

    /** `None` when a stored slice has an incompatible shape, as the source then throws. */
    method HasEmptySlice(slice: Slice) returns (r: Option<bool>)
      ensures (forall s :: s in slices ==> s.Compatible(slice)) ==> r.Some?
      ensures r == Some(true) <==> forall s :: s in slices ==> s.Compatible(slice) && !s.Overlaps(slice)
      ensures r == Some(false) ==> exists s :: s in slices && s.Compatible(slice) && s.Overlaps(slice)
    {
      for i := 0 to |slices|
        invariant forall k :: 0 <= k < i ==> slices[k].Compatible(slice) && !slices[k].Overlaps(slice)
      {
        var overlap := slices[i].DoesOverlap(slice);
        if overlap.None? {
          return None;
        }
        if overlap.value {
          return Some(false);
        }
      }
      return Some(true);
    }

    /** A slice that passed the overlap test shares no cell with the blocks written so far. */
    lemma FreeSliceExtends(dims: seq<nat>, slice: Slice, b: Values)
      requires Valid(dims) && Dims32(dims) && slice.Within(dims)
      requires BlockOk(b) && b.offsets == slice.offsets && b.sizes == slice.sizes
      requires forall s :: s in slices ==> s.Compatible(slice) && !s.Overlaps(slice)
      ensures Layout(dims, written + [b]) && Items(written + [b]) == Items(written) + Volume(b.sizes)
    {
      LayoutIsPairwise(dims, written);
      forall p | p in Covered(written) ensures p !in BlockCells(b) {
        CoveredMembers(written, p);
        var i :| 0 <= i < |written| && p in BlockCells(written[i]);
        var w := written[i];
        assert w in written && Inside(dims, w);
        var s :| s in slices && Claims(s, w);
        OverlapMeaning(s, slice);
        CellsAreTheBox(s.offsets, s.sizes, p);
        CellsAreTheBox(b.offsets, b.sizes, p);
      }
      assert (written + [b])[..|written|] == written;
    }

    method AddSlice(slice: Slice)
      modifies this`slices
      ensures slices == old(slices) + [slice]
    {
      slices := slices + [slice];
    }

    /** Counts the items of a block that reached the file. */
    method AddToItemsWritten(n: nat, ghost block: Values)
      modifies this`itemsWritten, this`written
      ensures itemsWritten == old(itemsWritten) + n
      ensures written == old(written) + [block]
    {
      itemsWritten := itemsWritten + n;
      written := written + [block];
    }

    predicate IsFull()
      reads this
    {
      itemsWritten == totalItems
    }

    /**
     In every valid state the count is the number of distinct cells covered, and the record is
     full exactly when its blocks tile the histogram. A histogram without dimensions is the
     exception: it counts as full while nothing was written and never after.
     */
    lemma FullMeansTiled(dims: seq<nat>)
      requires Valid(dims)
      ensures itemsWritten == |Covered(written)|
      ensures dims != [] ==> (IsFull() <==> Tiles(dims, written))
      ensures dims == [] ==> (IsFull() <==> written == []) && (Tiles(dims, written) <==> written != [])
    {
      CoveredCount(dims, written);
      ItemsCountTheTiling(dims, written);
    }
  }
}
