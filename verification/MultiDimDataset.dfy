/**
 A dataset of multi-dimensional arrays that grows by one row per append, and sideways whenever a
 larger array arrives. Cells that were never written read as zero.
 */
module MultiDimDataset {
  import opened Common
  import opened Grid

  datatype Frame = Frame(shape: seq<nat>, values: seq<int>)

  ghost predicate FrameOk(f: Frame, rank: nat)
  {
    |f.shape| == rank && |f.values| == Volume(f.shape)
  }

  /** What a reader should find in a frame's row: its values inside its shape, zero outside. */
  ghost function FrameAt(f: Frame, p: Pos): int
    requires FrameOk(f, |p|)
  {
    if InRange(f.shape, p) then
      IndexThenPosition(f.shape, p);
      f.values[Index(f.shape, p)]
    else 0
  }

  /** Largest size along a dimension over the initial shape and all frames. */
  ghost function Widest(initial: nat, frames: seq<Frame>, i: nat): nat
    requires forall f :: f in frames ==> i < |f.shape|
  {
    if frames == [] then initial
    else
      var last := frames[|frames| - 1];
      Max(Widest(initial, frames[..|frames| - 1], i), last.shape[i])
  }

  lemma {:induction false} WidestIsLeastBound(initial: nat, frames: seq<Frame>, i: nat)
    requires forall f :: f in frames ==> i < |f.shape|
    ensures var w := Widest(initial, frames, i);
            && initial <= w && (forall f :: f in frames ==> f.shape[i] <= w)
            && (w == initial || exists f :: f in frames && f.shape[i] == w)
  {
    if frames != [] {
      var n := |frames| - 1;
      WidestIsLeastBound(initial, frames[..n], i);
      forall f | f in frames ensures f.shape[i] <= Widest(initial, frames, i) {
        assert f == frames[n] || f in frames[..n];
      }
      assert frames[n] in frames;
      var w := Widest(initial, frames, i);
      if w != initial && w != frames[n].shape[i] {
        var f :| f in frames[..n] && f.shape[i] == w;
        assert f in frames;
      }
    }
  }

  /** The block an append writes: a single row, starting at the origin of the other dimensions. */
  function RowBlock(row: nat, f: Frame): Block<int>
  {
    Block([row] + Zeros(|f.shape|), [1] + f.shape, f.values)
  }

  lemma RowBlockOk(row: nat, f: Frame)
    requires |f.values| == Volume(f.shape)
    ensures BlockOk(RowBlock(row, f))
  {
    assert ([1] + f.shape)[1..] == f.shape;
  }

  /** The block of a row holds the frame's values at that row and nothing elsewhere. */
  lemma RowBlockCells(row: nat, f: Frame, q: Pos)
    requires |f.values| == Volume(f.shape) && |q| == 1 + |f.shape|
    ensures BlockOk(RowBlock(row, f))
    ensures q in BlockCells(RowBlock(row, f)) <==> q[0] == row && InRange(f.shape, q[1..])
    ensures q in BlockCells(RowBlock(row, f)) ==> BlockAt(RowBlock(row, f), q) == FrameAt(f, q[1..])
  {
    RowBlockOk(row, f);
    var b := RowBlock(row, f);
    CellsAreTheBox(b.offsets, b.sizes, q);
    hide Cells, Volume;
    var p := q[1..];
    if q[0] == row && InRange(f.shape, p) {
      forall i | 0 <= i < |q| ensures b.offsets[i] <= q[i] < b.offsets[i] + b.sizes[i] {
        if i > 0 { assert q[i] == p[i - 1]; }
      }
    }
    if q in BlockCells(b) {
      forall i | 0 <= i < |p| ensures p[i] < f.shape[i] {
        assert q[i + 1] < b.offsets[i + 1] + b.sizes[i + 1];
      }
      RowIndex(b.sizes, f.shape, Minus(q, b.offsets), p);
    }
  }

  lemma RowIndex(sizes: seq<nat>, shape: seq<nat>, q: Pos, p: Pos)
    requires sizes == [1] + shape && |q| == |sizes| && q[0] == 0 && q[1..] == p && |p| == |shape|
    ensures Index(sizes, q) == Index(shape, p)
  {
    assert sizes[1..] == shape;
  }

  /** Every row reads as its frame. */
  ghost predicate Stored(cells: map<Pos, int>, frames: seq<Frame>, rank: nat)
    requires forall f :: f in frames ==> FrameOk(f, rank)
  {
    && (forall q :: q in cells ==> |q| == rank + 1 && q[0] < |frames|)
    && (forall q {:trigger ReadCell(cells, q)} :: |q| == rank + 1 && q[0] < |frames| ==>
          ReadCell(cells, q) == FrameAt(frames[q[0]], q[1..]))
  }

  lemma StoredGrows(cells: map<Pos, int>, frames: seq<Frame>, rank: nat, f: Frame)
    requires (forall g :: g in frames ==> FrameOk(g, rank)) && FrameOk(f, rank) && Stored(cells, frames, rank)
    ensures BlockOk(RowBlock(|frames|, f)) && forall g :: g in frames + [f] ==> FrameOk(g, rank)
    ensures Stored(WriteBlock(cells, RowBlock(|frames|, f)), frames + [f], rank)
  {
    RowBlockOk(|frames|, f);
    var b := RowBlock(|frames|, f);
    var after := WriteBlock(cells, b);
    hide RowBlock, BlockCells, BlockAt, FrameAt;
    forall q | q in after ensures |q| == rank + 1 && q[0] < |frames| + 1 {
      if q in BlockCells(b) { RowBlockRank(|frames|, f, q); }
    }
    forall q {:trigger ReadCell(after, q)} | |q| == rank + 1 && q[0] < |frames| + 1
      ensures ReadCell(after, q) == FrameAt((frames + [f])[q[0]], q[1..])
    {
      RowBlockCells(|frames|, f, q);
      assert q !in BlockCells(b) ==> ReadCell(after, q) == ReadCell(cells, q);
      if q[0] == |frames| && q !in BlockCells(b) {
        OutsideIsZero(f, q[1..]);
      }
    }
  }

  lemma OutsideIsZero(f: Frame, p: Pos)
    requires FrameOk(f, |p|) && !InRange(f.shape, p)
    ensures FrameAt(f, p) == 0
  {
  }

  lemma RowBlockRank(row: nat, f: Frame, q: Pos)
    requires BlockOk(RowBlock(row, f)) && q in BlockCells(RowBlock(row, f))
    ensures |q| == |f.shape| + 1 && q[0] < row + 1
  {
    var b := RowBlock(row, f);
    CellsAreTheBox(b.offsets, b.sizes, q);
  }

  /** One more row, and every other dimension at least as large as the new data. */
  method Enlarged(extent: seq<nat>, shape: seq<nat>) returns (current: seq<nat>)
    requires |extent| == 1 + |shape|
    ensures |current| == |extent| && current[0] == extent[0] + 1
    ensures forall i :: 0 <= i < |shape| ==> current[i + 1] == Max(extent[i + 1], shape[i])
  {
    current := extent[0 := extent[0] + 1];
    for i := 0 to |shape|
      invariant |current| == |extent| && current[0] == extent[0] + 1
      invariant forall k :: 0 <= k < |shape| ==> current[k + 1] == if k < i then Max(extent[k + 1], shape[k]) else extent[k + 1]
    {
      if shape[i] > current[i + 1] {
        current := current[i + 1 := shape[i]];
      }
    }
  }

  class Dataset {
    var extent: seq<nat>
    var cells: map<Pos, int>
    ghost const initial: seq<nat>
    ghost var frames: seq<Frame>

    ghost predicate Valid()
      reads this
    {
      && |extent| == 1 + |initial| && extent[0] == |frames|
      && (forall f :: f in frames ==> FrameOk(f, |initial|))
      && (forall i :: 0 <= i < |initial| ==> extent[i + 1] == Widest(initial[i], frames, i))
      && Stored(cells, frames, |initial|)
    }

    constructor (shape: seq<nat>)
      ensures Valid() && initial == shape && frames == []
    {
      initial := shape;
      extent := [0] + shape;
      cells, frames := map[], [];
    }

    /** `false` is the exception for data of the wrong rank, which changes nothing. */
    method AppendArray(f: Frame) returns (ok: bool)
      requires Valid() && |f.values| == Volume(f.shape)
      modifies this
      ensures Valid() && (ok <==> |f.shape| == |initial|)
      ensures frames == if ok then old(frames) + [f] else old(frames)
      ensures !ok ==> unchanged(this)
    {
      hide Stored, Widest, WriteBlock, RowBlock, Volume;
      var row := extent[0];
      if 1 + |f.shape| != |extent| {
        return false;
      }
      var current := Enlarged(extent, f.shape);
      StoredGrows(cells, frames, |initial|, f);
      WidestGrows(f);
      extent := current;
      cells := WriteBlock(cells, RowBlock(row, f));
      frames := frames + [f];
      return true;
    }

    lemma WidestGrows(f: Frame)
      requires Valid() && FrameOk(f, |initial|)
      ensures forall g :: g in frames + [f] ==> FrameOk(g, |initial|)
      ensures forall i :: 0 <= i < |initial| ==> Widest(initial[i], frames + [f], i) == Max(extent[i + 1], f.shape[i])
    {
      assert (frames + [f])[..|frames|] == frames;
    }

    /** Reading back: row `k` is the `k`-th array inside its own shape and zero outside it. */
    method Read(k: nat, p: Pos) returns (v: int)
      requires Valid() && InRange(extent, [k] + p)
      ensures k < |frames| && FrameOk(frames[k], |p|) && v == FrameAt(frames[k], p)
    {
      var q := [k] + p;
      assert q[0] == k && q[1..] == p;
      assert q[0] < extent[0];
      assert frames[k] in frames;
      v := ReadCell(cells, q);
    }
  }
}
