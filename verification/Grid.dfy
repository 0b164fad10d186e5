/**
 N-dimensional positions, their row-major linearisation, and boxes of cells.

 Everything that addresses an N-dimensional dataset goes through these definitions: the
 dense arrays built from JSON, the growing multi-dimensional datasets and the histogram rows.
 */
module Grid {

  type Pos = seq<nat>

  /** Number of cells in an array with the given dimensions. */
  function Volume(dims: seq<nat>): nat
  {
    if dims == [] then 1 else dims[0] * Volume(dims[1..])
  }

  predicate InRange(dims: seq<nat>, p: Pos)
  {
    |p| == |dims| && forall i :: 0 <= i < |p| ==> p[i] < dims[i]
  }

  /** Row-major index: the last coordinate varies fastest. */
  function Index(dims: seq<nat>, p: Pos): nat
    requires |p| == |dims|
  {
    if dims == [] then 0 else p[0] * Volume(dims[1..]) + Index(dims[1..], p[1..])
  }

  /** The position stored at a row-major index. */
  function Position(dims: seq<nat>, i: nat): Pos
    requires i < Volume(dims)
  {
    if dims == [] then []
    else
      var v := Volume(dims[1..]);
      PositiveInner(dims);
      [i / v] + Position(dims[1..], i % v)
  }

  lemma PositiveInner(dims: seq<nat>)
    requires dims != [] && Volume(dims) > 0
    ensures dims[0] > 0 && Volume(dims[1..]) > 0
  {
  }

  lemma SmallMultiple(k: int, v: int)
    requires -v < k * v < v
    ensures k == 0
  {
  }

  lemma DivModUnique(q: nat, r: nat, v: nat)
    requires r < v
    ensures (q * v + r) / v == q && (q * v + r) % v == r
  {
    var x := q * v + r;
    assert (x / v - q) * v == r - x % v;
    SmallMultiple(x / v - q, v);
  }

  lemma DivModBound(i: nat, n: nat, v: nat)
    requires v > 0 && i < n * v
    ensures i / v < n && i % v < v && (i / v) * v + i % v == i
  {
  }

  lemma ModOfProduct(a: nat, b: nat, m: nat)
    requires m > 0
    ensures ((a % m) * b) % m == (a * b) % m
  {
    var r := (a % m) * b;
    var k := (a / m) * b + r / m;
    assert a * b == k * m + r % m;
    DivModUnique(k, r % m, m);
  }

  lemma {:induction false} VolumeMonotone(small: seq<nat>, large: seq<nat>)
    requires |small| == |large| && forall i :: 0 <= i < |small| ==> small[i] <= large[i]
    ensures Volume(small) <= Volume(large)
  {
    if small != [] {
      VolumeMonotone(small[1..], large[1..]);
      ProductMonotone(small[0], large[0], Volume(small[1..]), Volume(large[1..]));
    }
  }

  lemma ProductMonotone(a: nat, b: nat, x: nat, y: nat)
    requires a <= b && x <= y
    ensures a * x <= b * y
  {
    assert a * x <= b * x <= b * y;
  }

  lemma {:induction false} VolumeSplit(a: seq<nat>, b: seq<nat>)
    ensures Volume(a + b) == Volume(a) * Volume(b)
  {
    if a == [] {
      assert a + b == b;
    } else {
      VolumeSplit(a[1..], b);
      assert (a + b)[1..] == a[1..] + b;
      ProductAssociates(a[0], Volume(a[1..]), Volume(b));
    }
  }

  lemma ProductAssociates(n: nat, d: nat, rest: nat)
    ensures (n * d) * rest == n * (d * rest)
  {
  }

  lemma QuotientBound(q: nat, n: nat, r: nat, v: nat)
    requires q < n && r < v
    ensures q * v + r < n * v
  {
    assert q * v + v == (q + 1) * v <= n * v;
  }

  /** Indices of in-range positions are in range, and `Position` undoes `Index`. */
  lemma {:induction false} IndexThenPosition(dims: seq<nat>, p: Pos)
    requires InRange(dims, p)
    ensures Index(dims, p) < Volume(dims)
    ensures Position(dims, Index(dims, p)) == p
  {
    if dims != [] {
      var v := Volume(dims[1..]);
      IndexThenPosition(dims[1..], p[1..]);
      QuotientBound(p[0], dims[0], Index(dims[1..], p[1..]), v);
      DivModUnique(p[0], Index(dims[1..], p[1..]), v);
      assert Position(dims, Index(dims, p)) == [p[0]] + p[1..];
    }
  }

  /** Every index is the index of an in-range position. */
  lemma {:induction false} PositionThenIndex(dims: seq<nat>, i: nat)
    requires i < Volume(dims)
    ensures InRange(dims, Position(dims, i))
    ensures Index(dims, Position(dims, i)) == i
  {
    if dims != [] {
      var v := Volume(dims[1..]);
      PositiveInner(dims);
      DivModBound(i, dims[0], v);
      PositionThenIndex(dims[1..], i % v);
      assert Position(dims, i)[1..] == Position(dims[1..], i % v);
    }
  }

  /** Row-major linearisation is a bijection between in-range positions and `0..Volume`. */
  lemma IndexBijective(dims: seq<nat>)
    ensures forall p :: InRange(dims, p) ==> Index(dims, p) < Volume(dims)
    ensures forall p, q :: InRange(dims, p) && InRange(dims, q) && Index(dims, p) == Index(dims, q) ==> p == q
    ensures forall i: nat {:trigger Position(dims, i)} :: i < Volume(dims) ==>
              InRange(dims, Position(dims, i)) && Index(dims, Position(dims, i)) == i
  {
    forall p | InRange(dims, p)
      ensures Index(dims, p) < Volume(dims) && Position(dims, Index(dims, p)) == p
    {
      IndexThenPosition(dims, p);
    }
    forall i: nat {:trigger Position(dims, i)} | i < Volume(dims)
      ensures InRange(dims, Position(dims, i)) && Index(dims, Position(dims, i)) == i
    {
      PositionThenIndex(dims, i);
    }
  }

  /** Earlier coordinates decide the order of indices: the last one varies fastest. */
  lemma {:induction false} IndexOrder(dims: seq<nat>, p: Pos, q: Pos, k: nat)
    requires InRange(dims, p) && InRange(dims, q) && k < |dims| && p[..k] == q[..k] && p[k] < q[k]
    ensures Index(dims, p) < Index(dims, q)
  {
    var v := Volume(dims[1..]);
    if k == 0 {
      IndexThenPosition(dims[1..], p[1..]);
      QuotientBound(p[0], q[0], Index(dims[1..], p[1..]), v);
    } else {
      assert p[0] == p[..k][0] == q[..k][0] == q[0];
      assert p[1..][..k - 1] == p[..k][1..] && q[1..][..k - 1] == q[..k][1..];
      IndexOrder(dims[1..], p[1..], q[1..], k - 1);
    }
  }

  // ----- Fixed-width arithmetic

  const INT32_LIMIT := 0x8000_0000
  const UINT32_LIMIT := 0x1_0000_0000
  const UINT64_LIMIT := 0x1_0000_0000_0000_0000

  /** Conversion to a 32-bit signed integer, two's complement. */
  function ToInt32(x: int): int
  {
    (x + INT32_LIMIT) % UINT32_LIMIT - INT32_LIMIT
  }

  function ToUint64(x: int): nat
  {
    x % UINT64_LIMIT
  }

  function MulInt32(a: int, b: nat): (r: int)
    ensures 0 <= a * b < INT32_LIMIT ==> r == a * b
  {
    ToInt32(a * b)
  }

  /** Conversion keeps the value up to a multiple of 2^32. */
  lemma Int32Congruent(x: int) returns (k: int)
    ensures ToInt32(x) == x - k * UINT32_LIMIT && -INT32_LIMIT <= ToInt32(x) < INT32_LIMIT
  {
    k := (x + INT32_LIMIT) / UINT32_LIMIT;
  }

  lemma Int32Periodic(x: int, k: int)
    ensures ToInt32(x - k * UINT32_LIMIT) == ToInt32(x)
  {
  }

  lemma SmallInt32(x: int)
    ensures -INT32_LIMIT <= x < INT32_LIMIT ==> ToInt32(x) == x
  {
  }

  /** Multiplying in 32 bits step by step ends in the same place as multiplying first. */
  lemma Int32Product(x: int, d: nat)
    ensures MulInt32(ToInt32(x), d) == ToInt32(x * d)
  {
    hide ToInt32;
    var k := Int32Congruent(x);
    assert (x - k * UINT32_LIMIT) * d == x * d - (k * d) * UINT32_LIMIT by { Distributes(x, k, d); }
    Int32Periodic(x * d, k * d);
  }

  lemma Distributes(x: int, k: int, d: nat)
    ensures (x - k * UINT32_LIMIT) * d == x * d - (k * d) * UINT32_LIMIT
  {
  }

  lemma EmptyVolume()
    ensures Volume([]) == 1
  {
  }

  lemma Uint64Kept(x: int)
    ensures 0 <= x < UINT64_LIMIT ==> ToUint64(x) == x
  {
  }

  // ----- Boxes

  ghost predicate InBox(offsets: seq<nat>, sizes: seq<nat>, p: Pos)
    requires |offsets| == |sizes|
  {
    |p| == |offsets| && forall i :: 0 <= i < |p| ==> offsets[i] <= p[i] < offsets[i] + sizes[i]
  }

  /** All positions whose head is in `lo..lo+n` and whose tail is in `tails`. */
  function Slab(lo: nat, n: nat, tails: set<Pos>): set<Pos>
  {
    set x: nat, p | lo <= x < lo + n && p in tails :: [x] + p
  }

  /** The cells of a box, as a finite set. */
  function Cells(offsets: seq<nat>, sizes: seq<nat>): set<Pos>
    requires |offsets| == |sizes|
  {
    if offsets == [] then {[]} else Slab(offsets[0], sizes[0], Cells(offsets[1..], sizes[1..]))
  }

  lemma {:induction false} CellsAreTheBox(offsets: seq<nat>, sizes: seq<nat>, p: Pos)
    requires |offsets| == |sizes|
    ensures p in Cells(offsets, sizes) <==> InBox(offsets, sizes, p)
  {
    if offsets != [] {
      var tails := Cells(offsets[1..], sizes[1..]);
      if p in Cells(offsets, sizes) {
        var x: nat, q :| offsets[0] <= x < offsets[0] + sizes[0] && q in tails && p == [x] + q;
        CellsAreTheBox(offsets[1..], sizes[1..], q);
        forall i | 0 <= i < |p| ensures offsets[i] <= p[i] < offsets[i] + sizes[i] {
          if i > 0 { assert q[i - 1] == p[i] && offsets[1..][i - 1] == offsets[i]; }
        }
      }
      if InBox(offsets, sizes, p) {
        CellsAreTheBox(offsets[1..], sizes[1..], p[1..]);
        assert p == [p[0]] + p[1..];
      }
    }
  }

  lemma InSlab(lo: nat, n: nat, tails: set<Pos>, p: Pos)
    ensures p in Slab(lo, n, tails) <==> p != [] && lo <= p[0] < lo + n && p[1..] in tails
  {
    if p != [] && lo <= p[0] < lo + n && p[1..] in tails {
      assert p == [p[0]] + p[1..];
    }
  }

  lemma SlabSplits(lo: nat, n: nat, tails: set<Pos>)
    ensures Slab(lo, n + 1, tails) == Slab(lo, n, tails) + Slab(lo + n, 1, tails)
    ensures Slab(lo, n, tails) !! Slab(lo + n, 1, tails)
  {
    forall p
      ensures p in Slab(lo, n + 1, tails) <==> p in Slab(lo, n, tails) || p in Slab(lo + n, 1, tails)
      ensures !(p in Slab(lo, n, tails) && p in Slab(lo + n, 1, tails))
    {
      InSlab(lo, n + 1, tails, p);
      InSlab(lo, n, tails, p);
      InSlab(lo + n, 1, tails, p);
    }
  }

  lemma {:induction false} LayerSize(x: nat, tails: set<Pos>)
    ensures |Slab(x, 1, tails)| == |tails|
    decreases tails
  {
    if tails == {} {
      assert Slab(x, 1, tails) == {};
    } else {
      var t :| t in tails;
      var rest := tails - {t};
      LayerSize(x, rest);
      forall p
        ensures p in Slab(x, 1, tails) <==> p in Slab(x, 1, rest) || p == [x] + t
        ensures [x] + t !in Slab(x, 1, rest)
      {
        InSlab(x, 1, tails, p);
        InSlab(x, 1, rest, p);
        InSlab(x, 1, rest, [x] + t);
        assert ([x] + t)[1..] == t;
        if p != [] { assert p == [p[0]] + p[1..]; }
      }
      assert Slab(x, 1, tails) == Slab(x, 1, rest) + {[x] + t};
    }
  }

  lemma DisjointUnionSize<T>(whole: set<T>, a: set<T>, b: set<T>)
    requires whole == a + b && a !! b
    ensures |whole| == |a| + |b|
  {
  }

  lemma PeriodsAdd(start: int, a: int, b: int, interval: nat)
    ensures start + a * interval + b * interval == start + (a + b) * interval
  {
  }

  /** How many whole intervals fit. */
  lemma WholePeriods(d: nat, interval: nat)
    requires interval > 0
    ensures var q := d / interval; q * interval <= d < (q + 1) * interval == q * interval + interval
  {
    var q := d / interval;
    assert d == q * interval + d % interval;
    OneMore(q, interval);
  }

  lemma NoMorePeriods(a: int, b: int, interval: nat)
    requires a <= b
    ensures a * interval <= b * interval
  {
  }

  lemma OneMore(n: nat, k: nat)
    ensures (n + 1) * k == n * k + k
  {
  }

  /** One more head value adds one copy of the tails. */
  lemma SlabGrows(lo: nat, n: nat, tails: set<Pos>)
    ensures |Slab(lo, n + 1, tails)| == |Slab(lo, n, tails)| + |tails|
  {
    hide Slab;
    SlabSplits(lo, n, tails);
    LayerSize(lo + n, tails);
    DisjointUnionSize(Slab(lo, n + 1, tails), Slab(lo, n, tails), Slab(lo + n, 1, tails));
  }

  lemma EmptySlab(lo: nat, tails: set<Pos>)
    ensures |Slab(lo, 0, tails)| == 0
  {
    assert Slab(lo, 0, tails) == {};
  }

  lemma {:induction false} SlabSize(lo: nat, n: nat, tails: set<Pos>)
    ensures |Slab(lo, n, tails)| == n * |tails|
  {
    hide Slab;
    if n == 0 {
      EmptySlab(lo, tails);
    } else {
      SlabSize(lo, n - 1, tails);
      SlabGrows(lo, n - 1, tails);
      OneMore(n - 1, |tails|);
    }
  }

  /** A box holds exactly the product of its sizes many cells. */
  lemma {:induction false} CellCount(offsets: seq<nat>, sizes: seq<nat>)
    requires |offsets| == |sizes|
    ensures |Cells(offsets, sizes)| == Volume(sizes)
  {
    if offsets != [] {
      CellCount(offsets[1..], sizes[1..]);
      SlabSize(offsets[0], sizes[0], Cells(offsets[1..], sizes[1..]));
    }
  }

  // ----- Blocks of values

  function Zeros(n: nat): (z: seq<nat>)
    ensures |z| == n && forall i :: 0 <= i < n ==> z[i] == 0
  {
    seq(n, _ => 0)
  }

  /** A cell of a dataset; cells that were never written read as zero. */
  function ReadCell(cells: map<Pos, int>, p: Pos): int
  {
    if p in cells then cells[p] else 0
  }

  function Minus(p: Pos, offsets: seq<nat>): (q: Pos)
    requires |p| == |offsets| && forall i :: 0 <= i < |p| ==> offsets[i] <= p[i]
    ensures |q| == |p| && forall i :: 0 <= i < |q| ==> q[i] == p[i] - offsets[i]
  {
    seq(|p|, i requires 0 <= i < |p| => p[i] - offsets[i])
  }

  /** A box of cells together with its values in row-major order. */
  datatype Block<T> = Block(offsets: seq<nat>, sizes: seq<nat>, values: seq<T>)

  predicate BlockOk<T>(b: Block<T>)
  {
    |b.offsets| == |b.sizes| && |b.values| == Volume(b.sizes)
  }

  function BlockCells<T>(b: Block<T>): set<Pos>
  {
    if |b.offsets| == |b.sizes| then Cells(b.offsets, b.sizes) else {}
  }

  /** The value a block stores at one of its cells. */
  function BlockAt<T>(b: Block<T>, p: Pos): T
    requires BlockOk(b) && p in BlockCells(b)
  {
    CellsAreTheBox(b.offsets, b.sizes, p);
    IndexThenPosition(b.sizes, Minus(p, b.offsets));
    b.values[Index(b.sizes, Minus(p, b.offsets))]
  }

  /** Value number `i` of a block is at position number `i` of its box. */
  lemma ValueAt<T>(b: Block<T>, i: nat)
    requires BlockOk(b) && i < |b.values|
    ensures var p := seq(|b.sizes|, k requires 0 <= k < |b.sizes| =>
              PositionThenIndex(b.sizes, i); b.offsets[k] + Position(b.sizes, i)[k]);
            p in BlockCells(b) && BlockAt(b, p) == b.values[i]
  {
    PositionThenIndex(b.sizes, i);
    var p: Pos := seq(|b.sizes|, k requires 0 <= k < |b.sizes| => b.offsets[k] + Position(b.sizes, i)[k]);
    CellsAreTheBox(b.offsets, b.sizes, p);
    assert Minus(p, b.offsets) == Position(b.sizes, i);
  }

  /** The cells of an array after a block has been written into it. */
  function WriteBlock<T>(cells: map<Pos, T>, b: Block<T>): (after: map<Pos, T>)
    requires BlockOk(b)
    ensures forall p :: p in BlockCells(b) ==> p in after && after[p] == BlockAt(b, p)
    ensures forall p :: p !in BlockCells(b) ==> (p in after <==> p in cells) && (p in cells ==> after[p] == cells[p])
  {
    cells + map p | p in BlockCells(b) :: BlockAt(b, p)
  }
}
