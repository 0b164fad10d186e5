/**
 The "full" mark of a row. It is never cleared, so a timestamp that takes over a row from one that
 was complete is marked as complete with its first slice.
 */
module HistogramFlags {
  import opened Common
  import opened Grid
  import opened HistogramSlice
  import opened HistogramRecord
  import opened HistogramWriter

  /** A message of a new timestamp that passes all checks and lies inside the histogram. */
  ghost predicate Fits(w: Writer, msg: Message, b: Values)
    reads w`records, w`largestSeen
  {
    && SliceOf(msg, w.dims).Ok? && SliceOf(msg, w.dims).value.Within(w.dims) && BlockOf(msg, SliceOf(msg, w.dims).value) == b
    && !TooOld(msg.timestamp, w.largestSeen) && msg.timestamp !in w.records
  }

  /** What every message of a new timestamp does. */
  ghost predicate Arrived(before: Snapshot, after: Snapshot, t: nat, b: Values)
  {
    && t in after.records && after.records[t].written == [b] && after.log == before.log + {(t, b)}
    && after.largestSeen == (if before.largestSeen < t then t else before.largestSeen)
    && var e := after.records[t];
       e.row < |after.records| && after.stamps == Stamped(before.stamps, |after.records|, e.row, t, e.full)
  }

  lemma NeverTaken(s: Slice)
    ensures !Taken([], s)
  {
  }

  lemma ArrivedInNewRow(dims: seq<nat>, before: Snapshot, after: Snapshot, t: nat, slice: Slice, b: Values, r: Outcome)
    requires t in after.records && t !in before.records && |before.records| < MAX_NUMBER_HISTORIC && slice.Within(dims)
    requires |before.records.Keys| == |before.records|
    requires StoredBlock(dims, before, after, t, slice, b, true, r) && FilesAfter(before, after, t, b, r)
    ensures Arrived(before, after, t, b) && after.records.Keys == before.records.Keys + {t} && after.records[t].row == |before.rows|
    ensures |after.rows| == |before.rows| + 1
  {
    hide Taken, Slice.Within, CopyOf, WriteBlock, Stamped, Flagged, IsSmallest;
    NeverTaken(slice);
  }

  lemma ArrivedInUsedRow(dims: seq<nat>, before: Snapshot, after: Snapshot, t: nat, slice: Slice, b: Values, r: Outcome, oldest: nat)
    requires t in after.records && t !in before.records && |before.records| == MAX_NUMBER_HISTORIC && slice.Within(dims)
    requires |before.records.Keys| == |before.records|
    requires IsSmallest(oldest, before.records.Keys)
    requires StoredBlock(dims, before, after, t, slice, b, true, r) && FilesAfter(before, after, t, b, r)
    ensures Arrived(before, after, t, b) && after.records.Keys == before.records.Keys - {oldest} + {t}
    ensures oldest in before.records && after.records[t].row == before.records[oldest].row
    ensures after.records[t].inherited == Flagged(before.stamps, after.records[t].row)
  {
    hide Taken, Slice.Within, CopyOf, WriteBlock, Stamped, Flagged;
    NeverTaken(slice);
    OnlySmallest(before.records.Keys, oldest);
  }

  lemma OnlySmallest(keys: set<nat>, oldest: nat)
    requires IsSmallest(oldest, keys)
    ensures forall k :: IsSmallest(k, keys) ==> k == oldest
  {
  }

  /** A new timestamp while less than four are alive: it gets a row of its own. */
  method ArriveInNewRow(w: Writer, msg: Message, ghost b: Values)
    requires w.Valid() && Fits(w, msg, b) && |w.records| < MAX_NUMBER_HISTORIC
    modifies w, w.records.Values
    ensures w.Valid() && Arrived(old(w.Snap()), w.Snap(), msg.timestamp, b) && w.OthersKept(msg.timestamp)
    ensures w.records.Keys == old(w.records.Keys) + {msg.timestamp} && fresh(w.records[msg.timestamp])
    ensures w.records[msg.timestamp].hdfIndex == |old(w.rows)| && |w.rows| == |old(w.rows)| + 1
  {
    hide Writer.Valid, SliceOf, TooOld, StoredBlock, FilesAfter, Arrived, Slice.Within;
    ghost var before, slice := w.Snap(), SliceOf(msg, w.dims).value;
    CardinalOfKeys(before.records);
    var r := w.Write(msg, true);
    ArrivedInNewRow(w.dims, before, w.Snap(), msg.timestamp, slice, b, r);
  }

  lemma CardinalOfKeys<T>(m: map<nat, T>)
    ensures |m.Keys| == |m|
  {
  }

  /**
   A new timestamp while four are alive: it gets the row of the smallest. While the new histogram is
   incomplete, the row is marked full exactly when it was marked before.
   */
  method ArriveInUsedRow(w: Writer, msg: Message, ghost b: Values, ghost oldest: nat)
    requires w.Valid() && Fits(w, msg, b) && |w.records| == MAX_NUMBER_HISTORIC && IsSmallest(oldest, w.records.Keys)
    modifies w, w.records.Values
    ensures w.Valid() && Arrived(old(w.Snap()), w.Snap(), msg.timestamp, b)
    ensures w.records.Keys == old(w.records.Keys) - {oldest} + {msg.timestamp}
    ensures var row := w.records[msg.timestamp].hdfIndex;
            && row == old(w.records)[oldest].hdfIndex < |w.stamps|
            && (!w.records[msg.timestamp].IsFull() ==>
                  (w.stamps[row].full <==> old(Flagged(w.stamps, w.records[oldest].hdfIndex))))
  {
    hide Writer.Valid, SliceOf, TooOld, StoredBlock, FilesAfter, Slice.Within, Stamped, Flagged, Record.IsFull;
    ghost var before, slice := w.Snap(), SliceOf(msg, w.dims).value;
    CardinalOfKeys(before.records);
    var r := w.Write(msg, true);
    ArrivedInUsedRow(w.dims, before, w.Snap(), msg.timestamp, slice, b, r, oldest);
    w.StaleFlagIff(msg.timestamp);
  }

  // ----- A run

  const WHOLE := Block([0], [2], [1, 2])
  const HALF := Block([0], [1], [3])

  function WholeOf(t: Uint64): Message
  {
    Message(t, true, Some(WHOLE.values), NoErrors, Some([2]), Some([0]))
  }

  function HalfOf(t: Uint64): Message
  {
    Message(t, true, Some(HALF.values), NoErrors, Some([1]), Some([0]))
  }

  lemma TwoCells()
    ensures Volume([2]) == 2 && Volume([1]) == 1 && Dims32([2])
  {
    assert [2][1..] == [] && [1][1..] == [];
  }

  lemma MessagesPass(t: Uint64)
    requires 0 < t < 100
    ensures SliceOf(WholeOf(t), [2]) == Ok(Slice([0], [2])) && BlockOf(WholeOf(t), Slice([0], [2])) == WHOLE
    ensures SliceOf(HalfOf(t), [2]) == Ok(Slice([0], [1])) && BlockOf(HalfOf(t), Slice([0], [1])) == HALF
    ensures Slice([0], [2]).Within([2]) && Slice([0], [1]).Within([2])
    ensures forall seen: nat :: seen < 100 ==> !TooOld(t, seen)
  {
    TwoCells();
  }

  lemma FullIffWhole(w: Writer, t: nat, b: Values)
    requires w.Valid() && w.dims == [2] && t in w.records && w.records[t].written == [b]
    ensures w.records[t].IsFull() <==> Volume(b.sizes) == 2
  {
    hide Layout, Writer.LatestOk, RowOk, Volume;
    TwoCells();
    assert RecordOk(w.dims, w.Files(), t, w.records[t]);
    assert [b][..0] == [] && w.dims[0] == 2;
    assert Items([b]) == Items([]) + Volume(b.sizes);
  }

  /** Timestamp 7 is alive in a row that is marked full. */
  ghost predicate Marked(w: Writer)
    reads w`records, w`stamps, w`largestSeen, w.records.Values
  {
    w.dims == [2] && w.largestSeen < 100 && 7 in w.records && Flagged(w.stamps, w.records[7].hdfIndex)
  }

  ghost predicate Below(keys: set<nat>, t: nat)
  {
    forall u :: u in keys ==> 7 <= u < t
  }

  /** Half a histogram of a new timestamp, which gets a row of its own. */
  method AddHalf(w: Writer, t: Uint64)
    requires w.Valid() && Marked(w) && 7 < t < 100 && t !in w.records && |w.records| < MAX_NUMBER_HISTORIC
    modifies w, w.records.Values
    ensures w.Valid() && Marked(w) && w.records.Keys == old(w.records.Keys) + {t as nat} && old(w.log) <= w.log && (t as nat, HALF) in w.log
    ensures |w.records| == |old(w.records)| + 1
    ensures forall o :: o in w.records.Values ==> o in old(w.records.Values) || fresh(o)
  {
    hide Writer.Valid, SliceOf, BlockOf, TooOld, Slice.Within, Record.IsFull, Stamped, Flagged;
    MessagesPass(t);
    StampsFit(w);
    ArriveInNewRow(w, HalfOf(t), HALF);
    DifferentRows(w, 7, t);
    OtherMarksStay(old(w.stamps), |w.records|, w.records[t].hdfIndex, t, w.records[t].IsFull(), w.records[7].hdfIndex);
  }

  lemma StampsFit(w: Writer)
    requires w.Valid()
    ensures |w.stamps| <= |w.records|
  {
    w.RowsAreOwnedOnce();
  }

  lemma DifferentRows(w: Writer, t: nat, u: nat)
    requires w.Valid() && t in w.records && u in w.records && t != u
    ensures w.records[t].hdfIndex != w.records[u].hdfIndex
  {
    w.RowsAreOwnedOnce();
  }

  lemma OtherMarksStay(stamps: seq<Stamp>, n: nat, row: nat, t: nat, full: bool, other: nat)
    requires row < n && |stamps| <= n && other != row
    ensures Flagged(Stamped(stamps, n, row, t, full), other) <==> Flagged(stamps, other)
  {
  }

  /** The whole histogram of timestamp 7. */
  method AddWhole(w: Writer)
    requires w.Valid() && w.dims == [2] && w.records == map[] && w.largestSeen == 0
    modifies w
    ensures w.Valid() && Marked(w) && w.records.Keys == {7} && |w.records| == 1 && (7, WHOLE) in w.log
    ensures forall o :: o in w.records.Values ==> fresh(o)
  {
    hide Writer.Valid, SliceOf, BlockOf, TooOld, Slice.Within, Record.IsFull;
    MessagesPass(7);
    ArriveInNewRow(w, WholeOf(7), WHOLE);
    TwoCells();
    FullIffWhole(w, 7, WHOLE);
  }

  /** Timestamp 7 with a whole histogram, 8 to 10 with half of one each. */
  method FourRows() returns (w: Writer)
    ensures fresh(w) && w.Valid() && Marked(w) && |w.records| == 4 && Below(w.records.Keys, 11)
    ensures (7, WHOLE) in w.log && (8, HALF) in w.log && (9, HALF) in w.log && (10, HALF) in w.log
    ensures forall o :: o in w.records.Values ==> fresh(o)
  {
    hide Writer.Valid, Marked;
    TwoCells();
    w := new Writer([2]);
    AddWhole(w);
    var t: Uint64 := 8;
    while t < 11
      invariant t <= 11 && w.Valid() && Marked(w) && |w.records| == t - 7
      invariant Below(w.records.Keys, t)
      invariant (7, WHOLE) in w.log && forall u: nat :: 8 <= u < t ==> (u, HALF) in w.log
      invariant forall o :: o in w.records.Values ==> fresh(o)
    {
      AddHalf(w, t);
      t := t + 1;
    }
  }

  /**
   Timestamp 7 sends a whole histogram of two cells, 8 to 11 half of one each. The fifth takes over
   the row of the first, and is marked complete although half of it was never sent.
   */
  method StaleFullFlag() returns (w: Writer)
    ensures w.Valid() && w.dims == [2]
    ensures (7, WHOLE) in w.log && (8, HALF) in w.log && (9, HALF) in w.log && (10, HALF) in w.log && (11, HALF) in w.log
    ensures 7 !in w.records && 11 in w.records && w.records[11].written == [HALF] && !w.records[11].IsFull()
    ensures w.records[11].hdfIndex < |w.stamps| && w.stamps[w.records[11].hdfIndex] == Stamp(11, true)
  {
    hide Writer.Valid;
    w := FourRows();
    TakeOverRow(w);
  }

  /** Half a histogram of timestamp 11, which takes over the row of timestamp 7. */
  method TakeOverRow(w: Writer)
    requires w.Valid() && Marked(w) && |w.records| == 4 && Below(w.records.Keys, 11)
    modifies w, w.records.Values
    ensures w.Valid() && w.dims == [2] && 7 !in w.records && 11 in w.records && old(w.log) <= w.log && (11, HALF) in w.log
    ensures w.records[11].written == [HALF] && !w.records[11].IsFull()
    ensures w.records[11].hdfIndex < |w.stamps| && w.stamps[w.records[11].hdfIndex] == Stamp(11, true)
  {
    hide Writer.Valid, SliceOf, BlockOf, TooOld, Slice.Within, Record.IsFull, Stamped, Volume;
    MessagesPass(11);
    TwoCells();
    assert IsSmallest(7, w.records.Keys);
    ArriveInUsedRow(w, HalfOf(11), HALF, 7);
    FullIffWhole(w, 11, HALF);
    w.StaleFlagIff(11);
  }
}
