/**
 Runs of a histogram writer: sending a slice again, claims that keep a histogram from being
 completed, and the parts that complete it.
 */
module HistogramRuns {
  import opened Common
  import opened Grid
  import opened HistogramSlice
  import opened HistogramRecord
  import opened HistogramWriter
  import opened HistogramShadow

  // ----- Sending a slice again

  /** A slice overlaps itself, by the test, exactly when it has cells along every dimension and no sum wraps. */
  lemma SelfOverlapIff(s: Slice)
    requires s.Compatible(s)
    ensures s.Overlaps(s) <==> s.Positive() && s.NoWrap()
  {
    forall i | 0 <= i < |s.offsets|
      ensures OverlapsAlong(s.offsets[i], s.sizes[i], s.offsets[i], s.sizes[i])
         <==> s.sizes[i] > 0 && s.offsets[i] as int + s.sizes[i] as int < UINT32_LIMIT
    {
      OverlapsItselfAlong(s.offsets[i], s.sizes[i]);
    }
  }

  lemma OverlapsItselfAlong(o: Uint32, n: Uint32)
    ensures OverlapsAlong(o, n, o, n) <==> n > 0 && o as int + n as int < UINT32_LIMIT
  {
    if o as int + n as int >= UINT32_LIMIT {
      assert Add32(o, n) == o + n - UINT32_LIMIT;
    }
  }

  lemma TakenByItself(slices: seq<Slice>, s: Slice)
    requires s.Compatible(s)
    ensures Taken(slices + [s], s) <==> Taken(slices, s) || (s.Positive() && s.NoWrap())
  {
    hide Slice.Compatible, Slice.Overlaps, Slice.Positive, Slice.NoWrap;
    SelfOverlapIff(s);
    if Taken(slices, s) {
      var other :| other in slices && other.Compatible(s) && other.Overlaps(s);
      assert other in slices + [s];
    }
    if s.Overlaps(s) {
      assert s in slices + [s];
    }
  }

  lemma CheckErrors(msg: Message, dims: seq<nat>)
    ensures SliceOf(msg, dims).Err? ==> SliceOf(msg, dims).error !in {SliceTaken, FileWriteFailed}
  {
  }

  /** A block is offered twice to the same timestamp, and claimed the first time. */
  lemma OfferedTwice(dims: seq<nat>, before: Snapshot, mid: Snapshot, after: Snapshot, t: nat, s: Slice, b: Values,
                     ok: bool, ok': bool, first: Outcome, second: Outcome)
    requires t in mid.records && t in after.records && s.Compatible(s)
    requires StoredBlock(dims, before, mid, t, s, b, ok, first) && StoredBlock(dims, mid, after, t, s, b, ok', second)
    requires first == Written || first == Rejected(FileWriteFailed)
    ensures second == Rejected(SliceTaken) <==> s.Positive() && s.NoWrap()
    ensures after.largestSeen == mid.largestSeen
  {
    hide Taken, Slice.Positive, Slice.NoWrap, Slice.Within, Admitted, CopyOf;
    TakenByItself(SlicesIn(before, t), s);
  }

  /**
   The same message twice, the first time claimed, whether or not the file took it. The second time
   it is rejected as taken exactly when it is not too old by then, has cells, and no sum wraps.
   */
  method WriteAgain(w: Writer, msg: Message, firstSucceeds: bool, secondSucceeds: bool) returns (first: Outcome, second: Outcome)
    requires w.Valid()
    modifies w, w.records.Values
    ensures w.Valid()
    ensures first == Written || first == Rejected(FileWriteFailed) ==>
              SliceOf(msg, w.dims).Ok? &&
              var s := SliceOf(msg, w.dims).value;
              second == Rejected(SliceTaken) <==> !TooOld(msg.timestamp, w.largestSeen) && s.Positive() && s.NoWrap()
  {
    hide Writer.Valid, SliceOf, TooOld, Slice.Positive, Slice.NoWrap, StoredBlock, FilesAfter, EntryOf;
    CheckErrors(msg, w.dims);
    if SliceOf(msg, w.dims).Ok? { w.CheckedSlice(msg); }
    ghost var before := w.Snap();
    first := w.Write(msg, firstSucceeds);
    ghost var mid := w.Snap();
    second := w.Write(msg, secondSucceeds);
    if first == Written || first == Rejected(FileWriteFailed) {
      ghost var s := SliceOf(msg, w.dims).value;
      if !TooOld(msg.timestamp, mid.largestSeen) {
        OfferedTwice(w.dims, before, mid, w.Snap(), msg.timestamp, s, BlockOf(msg, s), firstSucceeds, secondSucceeds, first, second);
      }
    }
  }

  /** A message without an offset for a histogram of four cells, with a slice of five. */
  const OVERSIZED := Message(7, true, Some([0, 0, 0, 0, 0]), NoErrors, Some([5]), None)

  /**
   The oversized slice passes the checks, fails to be written and stays claimed: in this histogram
   every slice with cells overlaps it and is rejected as taken.
   */
  method OversizedSliceBlocks(later: Message, fileWriteSucceeds: bool) returns (w: Writer, first: Outcome, second: Outcome)
    requires later.timestamp == 7 && SliceOf(later, [4]).Ok?
    requires var s := SliceOf(later, [4]).value; s.Within([4]) && s.Positive()
    ensures first == Rejected(FileWriteFailed) && second == Rejected(SliceTaken)
  {
    hide Writer.Valid, SliceOf, TooOld, Admitted, CopyOf, WriteBlock, Stamped, FilesAfter, Volume, Slice.Positive;
    FourCells();
    OversizedPasses();
    OverlapsOversized(SliceOf(later, [4]).value);
    w := new Writer([4]);
    first := w.Write(OVERSIZED, true);
    assert w.records[7].slices == [] + [Slice([0], [5])];
    second := BlockedWrite(w, Slice([0], [5]), later, fileWriteSucceeds);
  }

  lemma OversizedPasses()
    ensures SliceOf(OVERSIZED, [4]) == Ok(Slice([0], [5])) && !TooOld(7, 0) && !Slice([0], [5]).Within([4])
  {
    assert [5][1..] == [];
    assert Volume([5]) == 5;
    var s := SliceOf(OVERSIZED, [4]).value;
    assert s.offsets == [0];
    assert Slice([0], [5]).sizes[0] == 5;
  }

  lemma FourCells()
    ensures Volume([4]) == 4 && Dims32([4]) && !TooOld(7, 7)
  {
    assert [4][1..] == [];
  }

  lemma OverlapsOversized(s: Slice)
    requires s.Within([4]) && s.Positive()
    ensures var large := Slice([0], [5]); large.Compatible(s) && large.Overlaps(s)
  {
    assert s.offsets[0] as int + s.sizes[0] as int <= 4;
    assert OverlapsAlong(0, 5, s.offsets[0], s.sizes[0]);
  }

  /** A message whose slice overlaps one that is claimed. */
  method BlockedWrite(w: Writer, ghost claimed: Slice, msg: Message, fileWriteSucceeds: bool) returns (r: Outcome)
    requires w.Valid() && msg.timestamp in w.records && claimed in w.records[msg.timestamp].slices
    requires SliceOf(msg, w.dims).Ok? && !TooOld(msg.timestamp, w.largestSeen)
    requires var s := SliceOf(msg, w.dims).value; claimed.Compatible(s) && claimed.Overlaps(s)
    modifies w, w.records.Values
    ensures w.Valid() && r == Rejected(SliceTaken)
  {
    hide Writer.Valid, SliceOf, TooOld, Admitted, CopyOf, WriteBlock, Stamped, FilesAfter;
    r := w.Write(msg, fileWriteSucceeds);
  }

  // ----- Claims that keep a histogram from being completed

  /** Parts exist for exactly the missing cells of a timestamp, and no slice claimed for it is in their way. */
  ghost predicate CanComplete(w: Writer, t: nat)
    requires Dims32(w.dims)
    reads w, w.records.Values
  {
    Completable(w.dims, SlicesIn(w.Snap(), t), WrittenIn(w.Snap(), t))
  }

  /** A missing cell of a timestamp is in the shadow of a slice claimed for it. */
  ghost predicate Blocked(w: Writer, t: nat)
    reads w, w.records.Values
  {
    Obstructed(w.dims, SlicesIn(w.Snap(), t), WrittenIn(w.Snap(), t))
  }

  lemma ClaimsWellFormed(w: Writer, t: nat)
    requires w.Valid()
    ensures Dims32(w.dims) && Volume(w.dims) < UINT64_LIMIT && AllWellFormed(w.dims, SlicesIn(w.Snap(), t))
  {
    hide Layout, Items, Writer.LatestOk, Slice.WellFormed, RowOk;
    if t in w.records {
      assert RecordOk(w.dims, w.Files(), t, w.records[t]);
    }
  }

  /** In every state a timestamp can be completed exactly when it is not blocked. */
  lemma CanCompleteIff(w: Writer, t: nat)
    requires w.Valid() && Dims32(w.dims)
    ensures CanComplete(w, t) <==> !Blocked(w, t)
  {
    hide Writer.Valid, Writer.Snap, Completable, Obstructed;
    ClaimsWellFormed(w, t);
    CompletableIff(w.dims, SlicesIn(w.Snap(), t), WrittenIn(w.Snap(), t));
  }

  /** A claim that added no cell: its write failed, or it is empty. */
  ghost predicate AddedNoCell(s: Slice, r: Outcome)
  {
    r == Rejected(FileWriteFailed) || (r == Written && 0 in s.sizes)
  }

  lemma ObstructedAfter(dims: seq<nat>, before: Snapshot, after: Snapshot, t: nat, s: Slice, b: Values, ok: bool, r: Outcome)
    requires Dims32(dims) && AllWellFormed(dims, SlicesIn(before, t)) && s.WellFormed(|dims|)
    requires b.offsets == s.offsets && b.sizes == s.sizes
    requires t in after.records && StoredBlock(dims, before, after, t, s, b, ok, r)
    ensures Obstructed(dims, SlicesIn(after, t), WrittenIn(after, t))
       <==> Obstructed(dims, SlicesIn(before, t), WrittenIn(before, t))
            || (AddedNoCell(s, r) && exists p :: p in Missing(dims, WrittenIn(before, t)) && Shadow(s, p))
  {
    hide Admitted, CopyOf, Taken, Shadow, Obstructed, Missing, Slice.Within, Dims32, AllWellFormed;
    var slices, written := SlicesIn(before, t), WrittenIn(before, t);
    ObstructedByOneMore(dims, slices, s, written);
    if r == Written && 0 in s.sizes {
      EmptyAddsNothing(written, b);
      SameMissing(dims, slices + [s], written, written + [b]);
    } else if r == Written {
      ObstructedByPart(dims, slices, s, written, b);
    }
  }

  lemma SameMissing(dims: seq<nat>, slices: seq<Slice>, written: seq<Values>, more: seq<Values>)
    requires Covered(more) == Covered(written)
    ensures Obstructed(dims, slices, more) <==> Obstructed(dims, slices, written)
  {
  }

  /** Accepting a block with cells changes nothing about the cells that are missing after it. */
  lemma ObstructedByPart(dims: seq<nat>, slices: seq<Slice>, s: Slice, written: seq<Values>, b: Values)
    requires Dims32(dims) && AllWellFormed(dims, slices) && s.Within(dims) && 0 !in s.sizes && !Taken(slices, s)
    requires b.offsets == s.offsets && b.sizes == s.sizes
    ensures Obstructed(dims, slices + [s], written + [b]) <==> Obstructed(dims, slices, written)
  {
    hide AllCells, Covered, Taken, Shadow, BlockCells, Dims32, AllWellFormed, ShadowOfAny;
    if Obstructed(dims, slices, written) {
      ObstructedStays(dims, slices, s, written, b);
    }
    CoveredByOneMore(written, b);
    if p :| p in Missing(dims, written + [b]) && ShadowOfAny(slices + [s], p) {
      ShadowOfOneMore(slices, s, p);
      if Shadow(s, p) {
        ShadowIsCovered(dims, s, b, p);
      }
    }
  }

  lemma ShadowIsCovered(dims: seq<nat>, s: Slice, b: Values, p: Pos)
    requires Dims32(dims) && s.Within(dims) && 0 !in s.sizes && b.offsets == s.offsets && b.sizes == s.sizes && Shadow(s, p)
    ensures p in BlockCells(b)
  {
    assert forall i :: 0 <= i < |s.sizes| ==> s.sizes[i] in s.sizes;
    OwnShadow(dims, s, p);
    CellsAreTheBox(b.offsets, b.sizes, p);
  }

  lemma EmptyAddsNothing(written: seq<Values>, b: Values)
    requires |b.offsets| == |b.sizes| && 0 in b.sizes
    ensures Covered(written + [b]) == Covered(written)
  {
    assert (written + [b])[..|written|] == written;
    forall p ensures p !in BlockCells(b) {
      CellsAreTheBox(b.offsets, b.sizes, p);
    }
  }

  /**
   Every message, whatever becomes of it: after it its timestamp can be completed exactly when it
   could before, and the message did not claim a slice without adding a cell, with a missing cell
   in its shadow.
   */
  method ClaimObstructsIff(w: Writer, msg: Message, fileWriteSucceeds: bool) returns (r: Outcome)
    requires w.Valid() && Dims32(w.dims)
    modifies w, w.records.Values
    ensures w.Valid()
    ensures forall u :: u in w.records ==> (u in old(w.records) && w.records[u] == old(w.records)[u]) || fresh(w.records[u])
    ensures CanComplete(w, msg.timestamp) <==>
              && old(CanComplete(w, msg.timestamp))
              && (SliceOf(msg, w.dims).Ok? && AddedNoCell(SliceOf(msg, w.dims).value, r) ==>
                    forall p :: p in Missing(w.dims, WrittenIn(old(w.Snap()), msg.timestamp)) ==> !Shadow(SliceOf(msg, w.dims).value, p))
  {
    hide Writer.Valid, Writer.Snap, CanComplete, SliceOf, TooOld, StoredBlock, FilesAfter, Missing, Shadow, Obstructed, Slice.WellFormed;
    ghost var before := w.Snap();
    ClaimsWellFormed(w, msg.timestamp);
    CanCompleteIff(w, msg.timestamp);
    if SliceOf(msg, w.dims).Ok? {
      w.CheckedSlice(msg);
    }
    r := w.Write(msg, fileWriteSucceeds);
    CanCompleteIff(w, msg.timestamp);
    if SliceOf(msg, w.dims).Ok? && !TooOld(msg.timestamp, old(w.largestSeen)) {
      ghost var s := SliceOf(msg, w.dims).value;
      ObstructedAfter(w.dims, before, w.Snap(), msg.timestamp, s, BlockOf(msg, s), fileWriteSucceeds, r);
    } else {
      SameSnap(w);
    }
  }

  twostate lemma SameSnap(w: Writer)
    requires w.Untouched()
    ensures w.Snap() == old(w.Snap())
  {
  }
  /** One message, of any timestamp, while a timestamp is blocked: it stays so unless its record is evicted. */
  method WriteWhileBlocked(w: Writer, t: nat, msg: Message, fileWriteSucceeds: bool) returns (r: Outcome)
    requires w.Valid() && Dims32(w.dims) && Blocked(w, t)
    modifies w, w.records.Values
    ensures w.Valid() && (Blocked(w, t) || t !in w.records)
    ensures forall u :: u in w.records ==> (u in old(w.records) && w.records[u] == old(w.records)[u]) || fresh(w.records[u])
  {
    hide Writer.Valid, Writer.Snap, Obstructed, CanComplete, SliceOf, TooOld, StoredBlock, FilesAfter, Missing, Shadow, AddedNoCell;
    CanCompleteIff(w, t);
    if msg.timestamp == t {
      r := ClaimObstructsIff(w, msg, fileWriteSucceeds);
      CanCompleteIff(w, t);
    } else {
      SnapAt(w, t);
      r := w.Write(msg, fileWriteSucceeds);
      SnapAt(w, t);
    }
  }

  lemma SnapAt(w: Writer, t: nat)
    ensures SlicesIn(w.Snap(), t) == (if t in w.records then w.records[t].slices else [])
    ensures WrittenIn(w.Snap(), t) == (if t in w.records then w.records[t].written else [])
  {
    if t in w.records {
      assert w.Snap().records[t] == EntryOf(w.records[t]);
    }
  }

  /**
   Over any messages whatsoever, a blocked timestamp does not get complete before its record is
   evicted.
   */
  method RunWhileBlocked(w: Writer, t: nat, msgs: seq<(Message, bool)>)
    requires w.Valid() && Dims32(w.dims) && t in w.records && Blocked(w, t)
    modifies w, w.records.Values
    ensures w.Valid()
    ensures t in w.records && w.records[t] == old(w.records)[t] ==>
              Blocked(w, t) && !Tiles(w.dims, w.records[t].written) && (w.dims != [] ==> !w.records[t].IsFull())
  {
    hide Writer.Valid, Blocked, Tiles, Record.IsFull, StoredBlock, FilesAfter, Writer.Snap, SliceOf, TooOld;
    var rec := w.records[t];
    for i := 0 to |msgs|
      invariant w.Valid() && (t in w.records && w.records[t] == rec ==> Blocked(w, t))
      invariant forall u :: u in w.records ==> (u in old(w.records) && w.records[u] == old(w.records)[u]) || fresh(w.records[u])
    {
      if t in w.records && w.records[t] == rec {
        var _ := WriteWhileBlocked(w, t, msgs[i].0, msgs[i].1);
      } else {
        var _ := w.Write(msgs[i].0, msgs[i].1);
      }
    }
    if t in w.records && w.records[t] == rec {
      BlockedNeverTiled(w, t);
    }
  }

  /** A blocked record is not complete. */
  lemma BlockedNeverTiled(w: Writer, t: nat)
    requires w.Valid() && t in w.records && Blocked(w, t)
    ensures !Tiles(w.dims, w.records[t].written)
    ensures w.dims != [] ==> !w.records[t].IsFull()
  {
    hide Layout, Writer.LatestOk, RowOk, ShadowOfAny;
    assert RecordOk(w.dims, w.Files(), t, w.records[t]);
    w.records[t].FullMeansTiled(w.dims);
  }

  /** A slice without cells, although it is written, keeps the whole histogram from being accepted. */
  method EmptySliceBlocks() returns (first: Outcome, second: Outcome)
    ensures first == Written && second == Rejected(SliceTaken)
  {
    hide Writer.Valid, SliceOf, TooOld, Admitted, CopyOf, WriteBlock, Stamped, FilesAfter, Volume, Slice.Positive;
    FourCells();
    EmptyPasses();
    var w := new Writer([4]);
    first := w.Write(EMPTY, true);
    assert w.records[7].slices == [] + [Slice([2], [0])];
    second := BlockedWrite(w, Slice([2], [0]), WHOLE, true);
  }

  const EMPTY := Message(7, true, Some([]), NoErrors, Some([0]), Some([2]))
  const WHOLE := Message(7, true, Some([1, 2, 3, 4]), NoErrors, Some([4]), Some([0]))

  lemma EmptyPasses()
    ensures SliceOf(EMPTY, [4]) == Ok(Slice([2], [0])) && Slice([2], [0]).Within([4]) && !TooOld(7, 0)
    ensures SliceOf(WHOLE, [4]) == Ok(Slice([0], [4]))
    ensures Slice([2], [0]).Compatible(Slice([0], [4])) && Slice([2], [0]).Overlaps(Slice([0], [4]))
  {
    FourCells();
    assert [0][1..] == [];
    assert Volume([0]) == 0;
    assert OverlapsAlong(2, 0, 0, 4);
  }

  /** The first cell of a histogram of two by two, and an empty slice that starts there. */
  const CORNER := Message(7, true, Some([1]), NoErrors, Some([1, 1]), Some([0, 0]))
  const FLAT := Message(7, true, Some([]), NoErrors, Some([0, 2]), Some([0, 0]))

  /** A message whose slice lies inside the histogram and overlaps no claim. */
  method FreeWrite(w: Writer, msg: Message, ghost slice: Slice) returns (r: Outcome)
    requires w.Valid() && SliceOf(msg, w.dims) == Ok(slice) && slice.Within(w.dims) && !TooOld(msg.timestamp, w.largestSeen)
    requires !Taken(SlicesIn(w.Snap(), msg.timestamp), slice)
    modifies w, w.records.Values
    ensures w.Valid() && r == Written && msg.timestamp in w.records
    ensures SlicesIn(w.Snap(), msg.timestamp) == SlicesIn(old(w.Snap()), msg.timestamp) + [slice]
    ensures w.largestSeen == if old(w.largestSeen) < msg.timestamp then msg.timestamp else old(w.largestSeen)
    ensures forall o :: o in w.records.Values ==> o in old(w.records.Values) || fresh(o)
  {
    hide Writer.Valid, SliceOf, TooOld, Taken, Admitted, CopyOf, WriteBlock, Stamped, FilesAfter, Slice.Within;
    r := w.Write(msg, true);
  }

  lemma NothingClaimed(w: Writer, t: nat, s: Slice)
    requires w.records == map[]
    ensures SlicesIn(w.Snap(), t) == [] && !Taken(SlicesIn(w.Snap(), t), s)
  {
    SnapAt(w, t);
  }

  /**
   An empty slice that starts at a cell written before: the cell next to it is in its shadow, and
   whatever is sent next for that cell is rejected.
   */
  method ClaimAtWrittenCell(later: Message, fileWriteSucceeds: bool) returns (w: Writer, first: Outcome, second: Outcome, third: Outcome)
    requires later.timestamp == 7 && SliceOf(later, [2, 2]).Ok?
    requires var s := SliceOf(later, [2, 2]).value; s.Within([2, 2]) && InBox(s.offsets, s.sizes, [0, 1])
    ensures first == Written && second == Written && third == Rejected(SliceTaken)
  {
    hide Writer.Valid, Writer.Snap, SliceOf, TooOld, Taken, Volume, Slice.Within, SlicesIn;
    FlatPasses();
    FlatIsInTheWay(SliceOf(later, [2, 2]).value);
    w := new Writer([2, 2]);
    ghost var corner, flat := Slice([0, 0], [1, 1]), Slice([0, 0], [0, 2]);
    NothingClaimed(w, 7, corner);
    first := FreeWrite(w, CORNER, corner);
    assert [] + [corner] == [corner];
    second := FreeWrite(w, FLAT, flat);
    SnapAt(w, 7);
    third := BlockedWrite(w, flat, later, fileWriteSucceeds);
  }

  lemma FlatPasses()
    ensures Volume([2, 2]) == 4 && Dims32([2, 2]) && !TooOld(7, 0) && !TooOld(7, 7)
    ensures SliceOf(CORNER, [2, 2]) == Ok(Slice([0, 0], [1, 1])) && Slice([0, 0], [1, 1]).Within([2, 2])
    ensures SliceOf(FLAT, [2, 2]) == Ok(Slice([0, 0], [0, 2])) && Slice([0, 0], [0, 2]).Within([2, 2])
    ensures !Taken([Slice([0, 0], [1, 1])], Slice([0, 0], [0, 2]))
  {
    TwoSizes(2, 2);
    TwoSizes(1, 1);
    TwoSizes(0, 2);
    assert CORNER.data.value == [1] && Slice([0, 0], [1, 1]).sizes[0] == Slice([0, 0], [1, 1]).sizes[1] == 1;
    assert !OverlapsAlong(0, 1, 0, 0);
    assert !Slice([0, 0], [1, 1]).Overlaps(Slice([0, 0], [0, 2]));
  }

  lemma TwoSizes(a: nat, b: nat)
    ensures Volume([a, b]) == a * b
  {
    assert [a, b][1..] == [b] && [b][1..] == [];
    assert Volume([b]) == b * Volume([]);
  }

  lemma FlatIsInTheWay(r: Slice)
    requires r.Within([2, 2]) && InBox(r.offsets, r.sizes, [0, 1])
    ensures var flat := Slice([0, 0], [0, 2]); flat.Compatible(r) && flat.Overlaps(r)
  {
    HasCells(r, [0, 1]);
    assert Shadow(Slice([0, 0], [0, 2]), [0, 1]);
    OverlapIffShadow([2, 2], Slice([0, 0], [0, 2]), r);
  }

  const LEFT := Message(7, true, Some([1, 2]), NoErrors, Some([2]), Some([0]))
  const NOTHING := Message(7, true, Some([]), NoErrors, Some([0]), Some([0]))
  const RIGHT := Message(7, true, Some([3, 4]), NoErrors, Some([2]), Some([2]))

  /** An empty slice inside the histogram that is in nobody's way: its shadow was written before. */
  method ClaimInNobodysWay() returns (w: Writer, first: Outcome, second: Outcome, third: Outcome)
    ensures first == Written && second == Written && third == Written
  {
    hide Writer.Valid, Writer.Snap, SliceOf, TooOld, Taken, Volume, Slice.Within, SlicesIn;
    FourCells();
    HalvesPass();
    HalvesAreFree();
    w := new Writer([4]);
    ghost var left, nothing, right := Slice([0], [2]), Slice([0], [0]), Slice([2], [2]);
    NothingClaimed(w, 7, left);
    first := FreeWrite(w, LEFT, left);
    assert [] + [left] == [left] && [left] + [nothing] == [left, nothing];
    second := FreeWrite(w, NOTHING, nothing);
    third := FreeWrite(w, RIGHT, right);
  }

  lemma HalvesPass()
    ensures SliceOf(LEFT, [4]) == Ok(Slice([0], [2])) && Slice([0], [2]).Within([4]) && !TooOld(7, 0)
    ensures SliceOf(NOTHING, [4]) == Ok(Slice([0], [0])) && Slice([0], [0]).Within([4])
    ensures SliceOf(RIGHT, [4]) == Ok(Slice([2], [2])) && Slice([2], [2]).Within([4])
  {
    assert [2][1..] == [] && [0][1..] == [];
    assert Volume([2]) == 2 && Volume([0]) == 0;
  }

  lemma HalvesAreFree()
    ensures !Taken([Slice([0], [2])], Slice([0], [0])) && !Taken([Slice([0], [2]), Slice([0], [0])], Slice([2], [2]))
  {
    OneDimension(0, 2, 0, 0);
    OneDimension(0, 2, 2, 2);
    OneDimension(0, 0, 2, 2);
  }

  lemma OneDimension(o: Uint32, n: Uint32, o': Uint32, n': Uint32)
    ensures Slice([o], [n]).Overlaps(Slice([o'], [n'])) <==> OverlapsAlong(o, n, o', n')
  {
    var s, r := Slice([o], [n]), Slice([o'], [n']);
    assert s.offsets[0] == o && s.sizes[0] == n && r.offsets[0] == o' && r.sizes[0] == n';
  }

  // ----- Completing a histogram

  /** The message that carries a block. */
  ghost predicate Carries(dims: seq<nat>, msg: Message, t: Uint64, b: Values)
    requires Dims32(dims) && Part(dims, b)
  {
    && msg.timestamp == t && msg.dataTypeMatches && msg.errors == NoErrors
    && msg.data == Some(b.values) && msg.shape == Some(SliceFor(dims, b).sizes) && msg.offset == Some(SliceFor(dims, b).offsets)
  }

  lemma CarriedSlice(dims: seq<nat>, msg: Message, t: Uint64, b: Values)
    requires Dims32(dims) && Part(dims, b) && Volume(dims) < UINT64_LIMIT && t > 0
    requires Carries(dims, msg, t, b)
    ensures SliceOf(msg, dims) == Ok(SliceFor(dims, b)) && BlockOf(msg, SliceFor(dims, b)) == b
    ensures SliceFor(dims, b).Within(dims)
  {
    hide Volume;
    PartIs32(dims, b);
    VolumeMonotone(b.sizes, dims);
    Uint64Kept(Volume(b.sizes));
    forall i | 0 <= i < |dims| ensures Add32(msg.offset.value[i], msg.shape.value[i]) <= dims[i] {
      assert b.offsets[i] + b.sizes[i] <= dims[i];
    }
  }

  /** These blocks were written for the timestamp, and the way is open for the rest. */
  ghost predicate OpenFor(w: Writer, t: nat, done: seq<Values>, rest: seq<Values>)
    reads w, w.records.Values
  {
    Open(w.dims, SlicesIn(w.Snap(), t), WrittenIn(w.Snap(), t), done, rest)
  }

  /** The message was sent for another timestamp, or describes no slice, or one whose shadow holds no cell of the rest. */
  ghost predicate Passes(dims: seq<nat>, t: nat, msg: Message, rest: seq<Values>)
  {
    msg.timestamp == t && SliceOf(msg, dims).Ok? ==> Harmless(SliceOf(msg, dims).value, rest)
  }

  lemma OpenAfterHarmless(dims: seq<nat>, before: Snapshot, after: Snapshot, t: nat, s: Slice, b: Values, ok: bool, r: Outcome,
                          done: seq<Values>, rest: seq<Values>)
    requires Dims32(dims) && s.WellFormed(|dims|) && b.offsets == s.offsets && b.sizes == s.sizes
    requires t in after.records && StoredBlock(dims, before, after, t, s, b, ok, r)
    requires Open(dims, SlicesIn(before, t), WrittenIn(before, t), done, rest) && Harmless(s, rest)
    ensures Open(dims, SlicesIn(after, t), WrittenIn(after, t), done, rest)
  {
    hide Admitted, CopyOf, Taken, Open, Harmless, Slice.Within, Slice.WellFormed, Dims32;
    if r == Written {
      OpenAfterBlock(dims, SlicesIn(before, t), s, WrittenIn(before, t), b, done, rest);
    } else if r != Rejected(SliceTaken) {
      OpenAfterClaim(dims, SlicesIn(before, t), s, WrittenIn(before, t), done, rest);
    }
  }

  /** A message that passes closes no way, unless it evicts the record. */
  method PassOne(w: Writer, t: nat, msg: Message, fileWriteSucceeds: bool, ghost done: seq<Values>, ghost rest: seq<Values>)
    requires w.Valid() && OpenFor(w, t, done, rest) && Passes(w.dims, t, msg, rest)
    modifies w, w.records.Values
    ensures w.Valid() && (OpenFor(w, t, done, rest) || (t in old(w.records) && t !in w.records))
    ensures w.largestSeen <= Max(old(w.largestSeen), msg.timestamp)
    ensures forall o :: o in w.records.Values ==> o in old(w.records.Values) || fresh(o)
  {
    hide Writer.Valid, Writer.Snap, Open, SliceOf, TooOld, StoredBlock, FilesAfter, Harmless, Slice.WellFormed;
    ghost var before := w.Snap();
    SnapAt(w, t);
    ClaimsWellFormed(w, t);
    if SliceOf(msg, w.dims).Ok? {
      w.CheckedSlice(msg);
    }
    var r := w.Write(msg, fileWriteSucceeds);
    if msg.timestamp != t {
      SnapAt(w, t);
    } else if SliceOf(msg, w.dims).Ok? && !TooOld(t, old(w.largestSeen)) {
      ghost var s := SliceOf(msg, w.dims).value;
      OpenAfterHarmless(w.dims, before, w.Snap(), t, s, BlockOf(msg, s), fileWriteSucceeds, r, done, rest);
    } else {
      SameSnap(w);
    }
  }

  ghost predicate AllUpTo(msgs: seq<(Message, bool)>, limit: nat)
  {
    forall m :: m in msgs ==> m.0.timestamp <= limit
  }

  ghost predicate NoneAfter(others: seq<seq<(Message, bool)>>, limit: nat)
  {
    forall i :: 0 <= i < |others| ==> AllUpTo(others[i], limit)
  }

  lemma NoneAfterAt(others: seq<seq<(Message, bool)>>, limit: nat, i: nat)
    requires i < |others|
    ensures NoneAfter(others, limit) ==> AllUpTo(others[i], limit)
  {
  }

  /**
   Messages that pass. It ends with the message that evicts the record, except while the timestamp
   has not begun: then all of the histogram is still to come, and a new record is as good.
   */
  method PassOthers(w: Writer, t: nat, msgs: seq<(Message, bool)>, begun: bool,
                    ghost done: seq<Values>, ghost rest: seq<Values>, ghost limit: nat)
    requires w.Valid() && OpenFor(w, t, done, rest) && forall m :: m in msgs ==> Passes(w.dims, t, m.0, rest)
    requires if begun then t in w.records else Open(w.dims, [], [], done, rest)
    modifies w, w.records.Values
    ensures w.Valid()
    ensures if begun && t !in w.records then true else OpenFor(w, t, done, rest)
    ensures old(w.largestSeen) <= limit && AllUpTo(msgs, limit) ==> w.largestSeen <= limit
    ensures forall o :: o in w.records.Values ==> o in old(w.records.Values) || fresh(o)
  {
    hide Writer.Valid, Open, Passes;
    for i := 0 to |msgs|
      invariant w.Valid() && OpenFor(w, t, done, rest) && (begun ==> t in w.records)
      invariant old(w.largestSeen) <= limit && AllUpTo(msgs, limit) ==> w.largestSeen <= limit
      invariant forall o :: o in w.records.Values ==> o in old(w.records.Values) || fresh(o)
    {
      assert msgs[i] in msgs;
      PassOne(w, t, msgs[i].0, msgs[i].1, done, rest);
      if begun && t !in w.records {
        return;
      }
    }
  }

  lemma NextPart(dims: seq<nat>, before: Snapshot, after: Snapshot, t: nat, done: seq<Values>, rest: seq<Values>, r: Outcome)
    requires Dims32(dims) && rest != [] && Open(dims, SlicesIn(before, t), WrittenIn(before, t), done, rest)
    requires t in after.records && Part(dims, rest[0]) && SliceFor(dims, rest[0]).Within(dims)
    requires StoredBlock(dims, before, after, t, SliceFor(dims, rest[0]), rest[0], true, r)
    ensures r == Written && Open(dims, SlicesIn(after, t), WrittenIn(after, t), done + [rest[0]], rest[1..])
    ensures after.records[t].full ==> after.latestOf == Some((t, WrittenIn(after, t)))
  {
    hide Admitted, CopyOf, Taken, Open, Part, SliceFor, Slice.Within, Dims32;
    OpenAfterPart(dims, SlicesIn(before, t), WrittenIn(before, t), done, rest);
  }

  /** If the timestamp is complete, "data" was copied from its record. */
  ghost predicate OwnWhenFull(w: Writer, t: nat)
    reads w, w.records.Values
  {
    t in w.records && (w.Snap().records[t].full ==> w.latestOf == Some((t, WrittenIn(w.Snap(), t))))
  }

  /** One more part of a histogram is accepted. */
  method WriteNext(w: Writer, t: Uint64, msg: Message, ghost done: seq<Values>, ghost rest: seq<Values>)
    returns (r: Outcome)
    requires w.Valid() && Dims32(w.dims) && t > 0 && rest != [] && OpenFor(w, t, done, rest)
    requires Part(w.dims, rest[0]) && Carries(w.dims, msg, t, rest[0]) && !TooOld(t, w.largestSeen)
    modifies w, w.records.Values
    ensures w.Valid() && r == Written && t in w.records && OpenFor(w, t, done + [rest[0]], rest[1..])
    ensures OwnWhenFull(w, t) && w.largestSeen <= Max(old(w.largestSeen), t)
    ensures forall o :: o in w.records.Values ==> o in old(w.records.Values) || fresh(o)
  {
    hide Writer.Valid, SliceOf, TooOld, StoredBlock, FilesAfter, Volume, Open, Part, SliceFor, Slice.Within;
    ghost var before, slice := w.Snap(), SliceFor(w.dims, rest[0]);
    ClaimsWellFormed(w, t);
    CarriedSlice(w.dims, msg, t, rest[0]);
    r := w.Write(msg, true);
    NextPart(w.dims, before, w.Snap(), t, done, rest, r);
  }

  /** The messages before a part, and the part. */
  method PassAndWrite(w: Writer, t: Uint64, others: seq<(Message, bool)>, msg: Message, begun: bool,
                      ghost done: seq<Values>, ghost rest: seq<Values>, ghost limit: nat)
    returns (accepted: bool)
    requires w.Valid() && Dims32(w.dims) && OpenFor(w, t, done, rest) && forall m :: m in others ==> Passes(w.dims, t, m.0, rest)
    requires if begun then t in w.records else Open(w.dims, [], [], done, rest)
    requires t > 0 && rest != [] && Part(w.dims, rest[0]) && Carries(w.dims, msg, t, rest[0])
    modifies w, w.records.Values
    ensures w.Valid()
    ensures !accepted ==> TooOld(t, w.largestSeen) || (begun && t !in w.records)
    ensures old(w.largestSeen) <= limit && t <= limit && AllUpTo(others, limit) ==> w.largestSeen <= limit
    ensures accepted ==> t in w.records && OpenFor(w, t, done + [rest[0]], rest[1..]) && OwnWhenFull(w, t)
    ensures forall o :: o in w.records.Values ==> o in old(w.records.Values) || fresh(o)
  {
    hide Writer.Valid, Writer.Snap, TooOld, Part, Carries, Open, Passes;
    PassOthers(w, t, others, begun, done, rest, limit);
    if TooOld(t, w.largestSeen) || (begun && t !in w.records) {
      return false;
    }
    var _ := WriteNext(w, t, msg, done, rest);
    return true;
  }

  /** When no part is left, the record is full. */
  lemma Complete(w: Writer, t: nat, done: seq<Values>)
    requires w.Valid() && w.dims != [] && t in w.records && OpenFor(w, t, done, [])
    ensures w.Snap().records[t].full && forall b :: b in done ==> b in WrittenIn(w.Snap(), t)
  {
    hide Layout, Writer.LatestOk, RowOk, Open, Tiles, Items, Record.IsFull;
    assert RecordOk(w.dims, w.Files(), t, w.records[t]);
    assert w.Snap().records[t] == EntryOf(w.records[t]);
    NothingLeft(w.dims, SlicesIn(w.Snap(), t), WrittenIn(w.Snap(), t), done);
    w.records[t].FullMeansTiled(w.dims);
  }

  /** "data" has a value for every cell, and each part's cells show its values. */
  ghost predicate ShowsParts(w: Writer, t: nat, blocks: seq<Values>)
    reads w`latest, w`latestOf
  {
    && w.latestOf.Some? && w.latestOf.value.0 == t && w.latest.Keys == AllCells(w.dims)
    && forall i :: 0 <= i < |blocks| ==> ShowsBlock(w.latest, blocks[i])
  }

  ghost predicate ShowsBlock(image: map<Pos, int>, b: Values)
  {
    forall p :: p in BlockCells(b) ==> BlockOk(b) && p in image && image[p] == BlockAt(b, p)
  }

  lemma ImageShowsBlock(dims: seq<nat>, all: seq<Values>, i: nat)
    requires Layout(dims, all) && i < |all|
    ensures ShowsBlock(Assemble(all), all[i])
  {
    hide Layout, Assemble, BlockCells, BlockAt;
    forall p | p in BlockCells(all[i])
      ensures BlockOk(all[i]) && p in Assemble(all) && Assemble(all)[p] == BlockAt(all[i], p)
    {
      AssembledValue(dims, all, i, p);
    }
  }

  lemma LatestShowsParts(w: Writer, t: nat, all: seq<Values>, blocks: seq<Values>)
    requires w.Valid() && w.latestOf == Some((t, all)) && forall b :: b in blocks ==> b in all
    ensures ShowsParts(w, t, blocks)
  {
    hide Writer.RowsOk, Layout, Assemble, ShowsBlock;
    AssembledKeys(w.dims, all);
    assert w.latest == Assemble(all);
    forall i | 0 <= i < |blocks| ensures ShowsBlock(w.latest, blocks[i]) {
      assert blocks[i] in blocks;
      var k :| 0 <= k < |all| && all[k] == blocks[i];
      ImageShowsBlock(w.dims, all, k);
    }
  }

  lemma Assembled(w: Writer, t: nat, done: seq<Values>)
    requires w.Valid() && w.dims != [] && OpenFor(w, t, done, []) && OwnWhenFull(w, t)
    ensures ShowsParts(w, t, done)
  {
    hide Writer.Valid, Writer.Snap, OpenFor, ShowsParts;
    Complete(w, t, done);
    LatestShowsParts(w, t, WrittenIn(w.Snap(), t), done);
  }

  lemma StartOpen(w: Writer, t: nat, blocks: seq<Values>)
    requires w.Valid() && !Blocked(w, t) && Parts(w.dims, blocks) && Completes(w.dims, WrittenIn(w.Snap(), t), blocks)
    ensures OpenFor(w, t, WrittenIn(w.Snap(), t), blocks)
    ensures t !in w.records ==> Open(w.dims, [], [], WrittenIn(w.Snap(), t), blocks)
  {
    hide Writer.Valid, Obstructed, Parts, Completes, AllWellFormed;
    ClaimsWellFormed(w, t);
  }

  lemma OneLess<T>(before: seq<T>, blocks: seq<T>, n: nat)
    requires n < |blocks|
    ensures blocks[n..] != [] && blocks[n..][0] == blocks[n] && blocks[n..][1..] == blocks[n + 1..]
    ensures before + blocks[..n] + [blocks[n]] == before + blocks[..n + 1]
  {
  }

  /**
   From any state in which the timestamp is not blocked, parts for exactly its missing cells, in any
   order. Before each of them come messages of other timestamps, and such of its own whose shadow
   holds none of the cells still to come. Every part is accepted unless by then the timestamp is too
   old or was evicted; it never gets too old while nothing newer than it by more than 40 seconds is
   seen. When the last one was, "data" is the histogram: these parts and all that was written before.
   */
  method AssembleAll(w: Writer, t: Uint64, msgs: seq<Message>, others: seq<seq<(Message, bool)>>, ghost blocks: seq<Values>)
    returns (accepted: nat)
    requires w.Valid() && w.dims != [] && t > 0 && Dims32(w.dims) && !Blocked(w, t)
    requires Parts(w.dims, blocks) && Completes(w.dims, WrittenIn(w.Snap(), t), blocks)
    requires blocks != [] && |msgs| == |others| == |blocks|
    requires forall i :: 0 <= i < |blocks| ==> Part(w.dims, blocks[i]) && Carries(w.dims, msgs[i], t, blocks[i])
    requires forall i :: 0 <= i < |others| ==> forall m :: m in others[i] ==> Passes(w.dims, t, m.0, blocks[i..])
    modifies w, w.records.Values
    ensures w.Valid() && accepted <= |msgs|
    ensures accepted < |msgs| ==> TooOld(t, w.largestSeen) || (t !in w.records && (accepted > 0 || t in old(w.records)))
    ensures accepted < |msgs| && t + 40_000_000_000 < 0x1_0000_0000_0000_0000
            && old(w.largestSeen) <= t + 40_000_000_000 && NoneAfter(others, t + 40_000_000_000) ==>
              t !in w.records && (accepted > 0 || t in old(w.records))
    ensures accepted == |msgs| ==> ShowsParts(w, t, old(WrittenIn(w.Snap(), t)) + blocks)
  {
    hide Writer.Valid, Writer.Snap, AllUpTo, NoneAfter, TooOld, Blocked, Passes, OwnWhenFull, ShowsParts;
    hide Parts, Part, Carries, Completes, Open, OpenFor;
    ghost var before, limit := WrittenIn(w.Snap(), t), t + 40_000_000_000;
    var begun := t in w.records;
    StartOpen(w, t, blocks);
    assert before + blocks[..0] == before && blocks[0..] == blocks;
    accepted := 0;
    while accepted < |msgs|
      invariant w.Valid() && accepted <= |msgs| && OpenFor(w, t, before + blocks[..accepted], blocks[accepted..])
      invariant if begun then t in w.records && (accepted > 0 || t in old(w.records))
                else accepted == 0 && Open(w.dims, [], [], before + blocks[..0], blocks[0..])
      invariant accepted > 0 ==> begun && OwnWhenFull(w, t)
      invariant old(w.largestSeen) <= limit && NoneAfter(others, limit) ==> w.largestSeen <= limit
      invariant forall o :: o in w.records.Values ==> o in old(w.records.Values) || fresh(o)
    {
      OneLess(before, blocks, accepted);
      NoneAfterAt(others, limit, accepted);
      var next := PassAndWrite(w, t, others[accepted], msgs[accepted], begun, before + blocks[..accepted], blocks[accepted..], limit);
      if !next {
        TooOldIffBehind(t, w.largestSeen);
        return;
      }
      begun := true;
      accepted := accepted + 1;
    }
    assert blocks[..|blocks|] == blocks && blocks[|blocks|..] == [];
    Assembled(w, t, before + blocks);
  }
}
