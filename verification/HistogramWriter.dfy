/**
 Assembling histograms from slices.

 At most four timestamps are kept at once. Each owns a row of the "histograms" dataset; when a
 fifth arrives, the row of the smallest timestamp is handed on without being cleared. When a
 record becomes full its row is copied to the "data" dataset.
 */
module HistogramWriter {
  import opened Common
  import opened Grid
  import opened HistogramSlice
  import opened HistogramRecord

  type Uint64 = x: int | 0 <= x < UINT64_LIMIT

  const MAX_NUMBER_HISTORIC := 4
  const MAX_AGE := 40 * 1000000000

  /** The errors of a message: whether their type is the configured one, and their number if there is a vector. */
  datatype Errors = NoErrors | Errors(typeMatches: bool, size: Option<nat>)

  datatype Message = Message(
    timestamp: Uint64,
    dataTypeMatches: bool,
    data: Option<seq<int>>,
    errors: Errors,
    shape: Option<seq<Uint32>>,
    offset: Option<seq<Uint32>>)

  datatype WriteError =
    | ZeroTimestamp | WrongDataType | NoData | WrongErrorsType | NoShape | WrongRank | ShapeNotConsistent | UnexpectedDataSize
    | UnexpectedErrorsSize | OldHistogram | SliceTaken | FileWriteFailed

  datatype Outcome = Written | Rejected(error: WriteError)

  datatype Stamp = Stamp(timestamp: nat, full: bool)

  // ----- Message checks

  /** An offset of the wrong length is ignored, like a missing one. */
  predicate UsesOffset(msg: Message)
    requires msg.shape.Some?
  {
    msg.offset.Some? && |msg.offset.value| == |msg.shape.value|
  }

  predicate HasErrorValues(msg: Message)
  {
    msg.errors.Errors? && msg.errors.size.Some?
  }

  /** The verdict on a message by itself, and the slice it describes. */
  function SliceOf(msg: Message, dims: seq<nat>): Result<Slice, WriteError>
  {
    if msg.timestamp == 0 then Err(ZeroTimestamp)
    else if !msg.dataTypeMatches then Err(WrongDataType)
    else if msg.data.None? then Err(NoData)
    else if msg.errors.Errors? && !msg.errors.typeMatches then Err(WrongErrorsType)
    else if msg.shape.None? then Err(NoShape)
    else if |msg.shape.value| != |dims| then Err(WrongRank)
    else if UsesOffset(msg) && exists i :: 0 <= i < |dims| && Add32(msg.offset.value[i], msg.shape.value[i]) > dims[i]
      then Err(ShapeNotConsistent)
    else if ToUint64(Volume(msg.shape.value)) != |msg.data.value| then Err(UnexpectedDataSize)
    else if HasErrorValues(msg) && msg.errors.size.value != |msg.data.value| then Err(UnexpectedErrorsSize)
    else Ok(Slice(if UsesOffset(msg) then msg.offset.value else seq(|dims|, _ => 0), msg.shape.value))
  }

  function BlockOf(msg: Message, slice: Slice): Values
    requires msg.data.Some?
  {
    Block(slice.offsets, slice.sizes, msg.data.value)
  }

  /** The age check, in 64-bit unsigned arithmetic. */
  predicate TooOld(timestamp: Uint64, largestSeen: nat)
  {
    ToUint64(timestamp + MAX_AGE) < largestSeen
  }

  /** Whether a timestamp is more than 40 seconds behind the largest one seen, or its sum wraps and what is left is behind it. */
  predicate Behind(timestamp: Uint64, largestSeen: nat)
  {
    if timestamp + 40_000_000_000 < 0x1_0000_0000_0000_0000 then largestSeen - timestamp > 40_000_000_000
    else largestSeen > timestamp + 40_000_000_000 - 0x1_0000_0000_0000_0000
  }

  lemma TooOldIffBehind(timestamp: Uint64, largestSeen: nat)
    ensures TooOld(timestamp, largestSeen) <==> Behind(timestamp, largestSeen)
    ensures timestamp + 40_000_000_000 < 0x1_0000_0000_0000_0000 ==>
              (TooOld(timestamp, largestSeen) <==> largestSeen - timestamp > 40_000_000_000)
  {
  }

  /**
   The age check compares with 40 seconds, whatever the largest timestamp seen, exactly up to 40
   seconds before 2^64. A later timestamp is rejected even when it is the largest one itself.
   */
  lemma AgeCheckRightIff(timestamp: Uint64)
    ensures (forall seen: nat :: seen < 0x1_0000_0000_0000_0000 ==> (TooOld(timestamp, seen) <==> seen - timestamp > 40_000_000_000))
       <==> timestamp + 40_000_000_000 < 0x1_0000_0000_0000_0000
  {
    hide TooOld;
    forall seen: nat ensures TooOld(timestamp, seen) <==> Behind(timestamp, seen) {
      TooOldIffBehind(timestamp, seen);
    }
    if timestamp + 40_000_000_000 >= 0x1_0000_0000_0000_0000 {
      assert TooOld(timestamp, timestamp);
    }
  }

  /** What holds of every message that passes the checks; the sum of an offset and a size is taken in 32 bits. */
  ghost predicate Sound(msg: Message, dims: seq<nat>)
  {
    && msg.timestamp != 0 && msg.dataTypeMatches && msg.data.Some? && msg.shape.Some? && |msg.shape.value| == |dims|
    && |msg.data.value| == Volume(msg.shape.value) % 0x1_0000_0000_0000_0000
    && (msg.errors.Errors? ==> msg.errors.typeMatches && (msg.errors.size.Some? ==> msg.errors.size.value == |msg.data.value|))
    && (msg.offset.Some? && |msg.offset.value| == |dims| ==>
          forall i :: 0 <= i < |dims| ==> (msg.offset.value[i] as int + msg.shape.value[i] as int) % 0x1_0000_0000 <= dims[i])
  }

  /** A message passes the checks exactly when it is sound; its slice has the shape that was sent and starts at the offset, or at the origin. */
  lemma SliceOfIff(msg: Message, dims: seq<nat>)
    ensures SliceOf(msg, dims).Ok? <==> Sound(msg, dims)
    ensures SliceOf(msg, dims).Ok? ==>
              var s := SliceOf(msg, dims).value;
              && s.sizes == msg.shape.value && |s.offsets| == |dims|
              && (if msg.offset.Some? && |msg.offset.value| == |dims| then s.offsets == msg.offset.value
                  else forall i :: 0 <= i < |dims| ==> s.offsets[i] == 0)
  {
    hide Volume;
    if SliceOf(msg, dims).Ok? && UsesOffset(msg) {
      forall i | 0 <= i < |dims| ensures Add32(msg.offset.value[i], msg.shape.value[i]) <= dims[i] {}
    }
  }

  /** With an offset and no sum that wraps, the slice lies inside the histogram. */
  lemma SliceInside(msg: Message, dims: seq<nat>)
    requires SliceOf(msg, dims).Ok? && msg.offset.Some? && |msg.offset.value| == |dims|
    requires forall i :: 0 <= i < |dims| ==> msg.offset.value[i] as int + msg.shape.value[i] as int < 0x1_0000_0000
    ensures SliceOf(msg, dims).value.Within(dims)
  {
    hide SliceOf;
    SliceOfIff(msg, dims);
    forall i | 0 <= i < |dims| ensures msg.offset.value[i] as int + msg.shape.value[i] as int <= dims[i] {
      assert (msg.offset.value[i] as int + msg.shape.value[i] as int) % 0x1_0000_0000 <= dims[i];
    }
  }

  lemma WriteOutcome(dims: seq<nat>, before: Snapshot, after: Snapshot, t: nat, slice: Slice, b: Values, ok: bool, r: Outcome)
    requires t in after.records && StoredBlock(dims, before, after, t, slice, b, ok, r)
    ensures r != Rejected(OldHistogram) && (r == Written ==> slice.Within(dims))
    ensures after.largestSeen == Max(before.largestSeen, t) && before.largestSeen <= after.largestSeen
  {
    hide Taken, Admitted, CopyOf, Slice.Within;
  }

  method CheckMessage(msg: Message, dims: seq<nat>) returns (r: Result<Slice, WriteError>)
    ensures r == SliceOf(msg, dims)
  {
    if msg.timestamp == 0 { return Err(ZeroTimestamp); }
    if !msg.dataTypeMatches { return Err(WrongDataType); }
    if msg.data.None? { return Err(NoData); }
    if msg.errors.Errors? && !msg.errors.typeMatches { return Err(WrongErrorsType); }
    if msg.shape.None? { return Err(NoShape); }
    var shape := msg.shape.value;
    if |shape| != |dims| { return Err(WrongRank); }
    var offsets: seq<Uint32> := seq(|shape|, _ => 0);
    if UsesOffset(msg) {
      for i := 0 to |shape|
        invariant |offsets| == |shape|
        invariant forall k :: 0 <= k < i ==> offsets[k] == msg.offset.value[k]
        invariant forall k :: 0 <= k < i ==> Add32(msg.offset.value[k], shape[k]) <= dims[k]
      {
        var x := msg.offset.value[i];
        if Add32(x, shape[i]) > dims[i] { return Err(ShapeNotConsistent); }
        offsets := offsets[i := x];
      }
      assert offsets == msg.offset.value;
    }
    var expected := Product64(shape);
    if expected != |msg.data.value| { return Err(UnexpectedDataSize); }
    if HasErrorValues(msg) && expected != msg.errors.size.value { return Err(UnexpectedErrorsSize); }
    return Ok(Slice(offsets, shape));
  }

  /** A message whose slice lies inside the histogram carries exactly the values of that slice. */
  lemma BlockFits(msg: Message, dims: seq<nat>)
    requires Volume(dims) < UINT64_LIMIT
    requires SliceOf(msg, dims).Ok? && SliceOf(msg, dims).value.Within(dims)
    ensures Inside(dims, BlockOf(msg, SliceOf(msg, dims).value))
  {
    hide Volume;
    var s := SliceOf(msg, dims).value;
    assert |s.sizes| == |dims| && forall i :: 0 <= i < |dims| ==> s.sizes[i] <= dims[i];
    VolumeMonotone(s.sizes, dims);
    assert ToUint64(Volume(s.sizes)) == Volume(s.sizes);
  }

  /** One of these slices overlaps the new one, by the test. */
  ghost predicate Taken(slices: seq<Slice>, slice: Slice)
  {
    exists s :: s in slices && s.Compatible(slice) && s.Overlaps(slice)
  }

  // ----- Rows

  /** A full copy of a row: every cell of the histogram. */
  function CopyOf(row: map<Pos, int>, dims: seq<nat>): map<Pos, int>
  {
    map p | p in AllCells(dims) :: ReadCell(row, p)
  }

  /** A row shows the image of its record's blocks; other cells may be left over from earlier owners. */
  ghost predicate Shows(row: map<Pos, int>, blocks: seq<Values>)
  {
    forall p :: p in Assemble(blocks) ==> p in row && row[p] == Assemble(blocks)[p]
  }

  lemma ShowsGrows(row: map<Pos, int>, blocks: seq<Values>, b: Values)
    requires Shows(row, blocks) && BlockOk(b)
    ensures Shows(WriteBlock(row, b), blocks + [b])
  {
    assert (blocks + [b])[..|blocks|] == blocks;
  }

  /** Once the blocks tile the histogram no left-over cell is visible. */
  lemma TiledRow(dims: seq<nat>, row: map<Pos, int>, blocks: seq<Values>)
    requires Tiles(dims, blocks) && Shows(row, blocks)
    ensures CopyOf(row, dims) == Assemble(blocks)
  {
    hide Layout, Assemble;
    AssembledKeys(dims, blocks);
  }

  lemma AssembledCell(dims: seq<nat>, blocks: seq<Values>, p: Pos)
    requires Tiles(dims, blocks) && p in AllCells(dims)
    ensures p in Assemble(blocks)
    ensures exists b :: b in blocks && BlockOk(b) && p in BlockCells(b) && Assemble(blocks)[p] == BlockAt(b, p)
  {
    hide Layout, Assemble, BlockAt, BlockCells;
    CoveredMembers(blocks, p);
    var i :| 0 <= i < |blocks| && p in BlockCells(blocks[i]);
    AssembledValue(dims, blocks, i, p);
    assert blocks[i] in blocks;
  }

  predicate IsSmallest(k: nat, keys: set<nat>)
  {
    k in keys && forall u :: u in keys ==> k <= u
  }

  lemma SmallestExists(keys: set<nat>)
    requires keys != {}
    ensures exists k :: IsSmallest(k, keys)
    decreases keys
  {
    var k :| k in keys;
    var rest := keys - {k};
    if rest == {} {
      forall u | u in keys ensures k <= u {
        assert u == k || u in rest;
      }
      assert IsSmallest(k, keys);
    } else {
      SmallestExists(rest);
      var m :| IsSmallest(m, rest);
      var best := if m <= k then m else k;
      forall u | u in keys ensures best <= u {
        assert u == k || u in rest;
      }
      assert IsSmallest(best, keys);
    }
  }

  /** The live timestamps after one more arrives. */
  ghost predicate Admitted(before: set<nat>, t: nat, after: set<nat>)
  {
    if t in before then after == before
    else if |before| < MAX_NUMBER_HISTORIC then after == before + {t}
    else exists oldest :: IsSmallest(oldest, before) && after == before - {oldest} + {t}
  }

  function Resized(stamps: seq<Stamp>, n: nat): (r: seq<Stamp>)
    ensures |r| == n && forall i :: 0 <= i < n && i < |stamps| ==> r[i] == stamps[i]
  {
    if |stamps| >= n then stamps[..n] else stamps + seq(n - |stamps|, _ => Stamp(0, false))
  }

  /** The stamps after a row was written: one per row, and a "full" flag is only ever set. */
  function Stamped(stamps: seq<Stamp>, n: nat, row: nat, t: nat, full: bool): seq<Stamp>
    requires row < n
  {
    var resized := Resized(stamps, n);
    resized[row := Stamp(t, full || resized[row].full)]
  }

  // ----- The state of the datasets, without the records

  /**
   Rows and stamps of the file, the owner of each row, every block written so far, and every
   timestamp that became complete with the row it was in.
   */
  datatype Table = Table(
    owner: seq<nat>, rows: seq<map<Pos, int>>, stamps: seq<Stamp>, log: set<(nat, Values)>, completed: set<(nat, nat)>)

  predicate Flagged(stamps: seq<Stamp>, row: nat)
  {
    row < |stamps| && stamps[row].full
  }

  /** A row is marked full exactly when some timestamp became complete in it. */
  ghost predicate FlagsOk(stamps: seq<Stamp>, completed: set<(nat, nat)>)
  {
    forall i: nat :: Flagged(stamps, i) <==> exists t: nat :: (i, t) in completed
  }

  lemma FlagsNext(stamps: seq<Stamp>, completed: set<(nat, nat)>, n: nat, row: nat, t: nat, full: bool)
    requires FlagsOk(stamps, completed) && row < n && |stamps| <= n
    ensures FlagsOk(Stamped(stamps, n, row, t, full), completed + if full then {(row, t)} else {})
  {
    var after := completed + if full then {(row, t)} else {};
    forall i: nat
      ensures Flagged(Stamped(stamps, n, row, t, full), i) <==> exists u: nat :: (i, u) in after
    {
      if full && i == row { assert (i, t) in after; }
      if Flagged(stamps, i) {
        var u: nat :| (i, u) in completed;
        assert (i, u) in after;
      }
    }
  }

  ghost predicate RowOk(table: Table, t: nat, row: nat, written: seq<Values>, inherited: bool, full: bool)
  {
    && row < |table.owner| == |table.rows| && table.owner[row] == t
    && Shows(table.rows[row], written)
    && (forall b :: b in written ==> (t, b) in table.log)
    && (written != [] ==> row < |table.stamps| && table.stamps[row].timestamp == t)
    && (Flagged(table.stamps, row) <==> inherited || (full && written != []))
  }

  ghost predicate RecordOk(dims: seq<nat>, table: Table, t: nat, r: Record)
    reads r
  {
    r.Valid(dims) && RowOk(table, t, r.hdfIndex, r.written, r.inherited, r.IsFull())
  }

  /** Everything but one row's entries is kept. */
  ghost predicate AgreesExcept(before: Table, after: Table, row: nat)
  {
    && |before.owner| == |before.rows| <= |after.owner| == |after.rows|
    && |before.stamps| <= |after.stamps| && before.log <= after.log
    && (forall i :: 0 <= i < |before.owner| && i != row ==> after.owner[i] == before.owner[i] && after.rows[i] == before.rows[i])
    && (forall i :: 0 <= i < |before.stamps| && i != row ==> after.stamps[i] == before.stamps[i])
    && (forall i :: |before.stamps| <= i < |after.stamps| && i != row ==> !after.stamps[i].full)
  }

  lemma RecordKept(dims: seq<nat>, before: Table, after: Table, row: nat, u: nat, r: Record)
    requires RecordOk(dims, before, u, r) && AgreesExcept(before, after, row)
    requires row < |before.owner| ==> before.owner[row] != u
    ensures RecordOk(dims, after, u, r)
  {
    hide Shows, Layout, Items;
  }

  /** The table after row `row` was handed to timestamp `t`, or added at the end for it. */
  ghost function Assigned(table: Table, row: nat, t: nat): Table
    requires row <= |table.owner| == |table.rows|
  {
    if row < |table.owner| then table.(owner := table.owner[row := t])
    else table.(owner := table.owner + [t], rows := table.rows + [map[]])
  }

  lemma RowAssigned(dims: seq<nat>, table: Table, row: nat, t: nat, r: Record)
    requires row <= |table.owner| == |table.rows|
    requires r.hdfIndex == row && r.Valid(dims) && r.written == [] && r.inherited == Flagged(table.stamps, row)
    ensures AgreesExcept(table, Assigned(table, row, t), row)
    ensures RecordOk(dims, Assigned(table, row, t), t, r)
  {
    hide Layout, Items;
  }

  /** The table after a block of timestamp `t` was written into `row`. */
  ghost function WithBlock(table: Table, n: nat, t: nat, row: nat, b: Values, full: bool): Table
    requires row < |table.rows| && row < n && BlockOk(b)
  {
    table.(rows := table.rows[row := WriteBlock(table.rows[row], b)],
           stamps := Stamped(table.stamps, n, row, t, full),
           log := table.log + {(t, b)},
           completed := table.completed + if full then {(row, t)} else {})
  }

  lemma RowWritten(table: Table, n: nat, t: nat, row: nat, written: seq<Values>, inherited: bool, was: bool, b: Values, full: bool)
    requires RowOk(table, t, row, written, inherited, was) && row < n && BlockOk(b) && |table.stamps| <= n
    requires was && written != [] ==> full
    ensures AgreesExcept(table, WithBlock(table, n, t, row, b, full), row)
    ensures RowOk(WithBlock(table, n, t, row, b, full), t, row, written + [b], inherited, full)
  {
    hide Shows;
    ShowsGrows(table.rows[row], written, b);
  }

  /** Live records and rows correspond one to one; row `i` belongs to the record of `owner[i]`. */
  ghost predicate Matched(records: map<nat, Record>, table: Table)
  {
    && |records| == |table.owner| == |table.rows| <= MAX_NUMBER_HISTORIC && |table.stamps| <= |records|
    && (forall i :: 0 <= i < |table.owner| ==> table.owner[i] in records && records[table.owner[i]].hdfIndex == i)
    && FlagsOk(table.stamps, table.completed)
  }

  ghost predicate RecordsOk(dims: seq<nat>, records: map<nat, Record>, table: Table)
    reads records.Values
  {
    Matched(records, table) && forall t :: t in records ==> RecordOk(dims, table, t, records[t])
  }

  lemma OwnRow(dims: seq<nat>, records: map<nat, Record>, table: Table, t: nat)
    requires RecordsOk(dims, records, table) && t in records
    ensures records[t].hdfIndex < |table.owner| && table.owner[records[t].hdfIndex] == t && records[t].Valid(dims)
    ensures forall u :: u in records && u != t ==> records[u] != records[t]
  {
    hide Shows, Layout, Items;
    assert RecordOk(dims, table, t, records[t]);
    forall u | u in records && u != t ensures records[u] != records[t] {
      assert RecordOk(dims, table, u, records[u]);
    }
  }

  lemma RecordsAfterEviction(dims: seq<nat>, records: map<nat, Record>, table: Table, oldest: nat, t: nat, r: Record)
    requires RecordsOk(dims, records, table) && oldest in records && t !in records
    requires r.hdfIndex == records[oldest].hdfIndex && r.Valid(dims) && r.written == []
    requires r.inherited == Flagged(table.stamps, r.hdfIndex)
    ensures r.hdfIndex < |table.owner| == |table.rows|
    ensures RecordsOk(dims, (records - {oldest})[t := r], Assigned(table, r.hdfIndex, t))
  {
    hide RecordOk, AgreesExcept;
    OwnRow(dims, records, table, oldest);
    RowAssigned(dims, table, r.hdfIndex, t, r);
    var after := (records - {oldest})[t := r];
    assert after.Keys == records.Keys - {oldest} + {t};
    forall u | u in after ensures RecordOk(dims, Assigned(table, r.hdfIndex, t), u, after[u]) {
      if u != t {
        RecordKept(dims, table, Assigned(table, r.hdfIndex, t), r.hdfIndex, u, records[u]);
      }
    }
  }

  lemma RecordsAfterAddition(dims: seq<nat>, records: map<nat, Record>, table: Table, t: nat, r: Record)
    requires RecordsOk(dims, records, table) && |records| < MAX_NUMBER_HISTORIC && t !in records
    requires r.hdfIndex == |table.rows| && r.Valid(dims) && r.written == []
    requires r.inherited == Flagged(table.stamps, r.hdfIndex)
    ensures |table.owner| == |table.rows|
    ensures RecordsOk(dims, records[t := r], Assigned(table, r.hdfIndex, t))
  {
    hide RecordOk, AgreesExcept;
    RowAssigned(dims, table, r.hdfIndex, t, r);
    var after := records[t := r];
    assert after.Keys == records.Keys + {t};
    forall u | u in after ensures RecordOk(dims, Assigned(table, r.hdfIndex, t), u, after[u]) {
      if u != t {
        RecordKept(dims, table, Assigned(table, r.hdfIndex, t), r.hdfIndex, u, records[u]);
      }
    }
  }

  lemma RecordsAfterBlock(dims: seq<nat>, records: map<nat, Record>, table: Table, t: nat, before: seq<Values>, was: bool, b: Values)
    requires Matched(records, table) && t in records && BlockOk(b)
    requires forall u :: u in records && u != t ==> RecordOk(dims, table, u, records[u])
    requires var r := records[t];
             && r.Valid(dims) && r.written == before + [b] && RowOk(table, t, r.hdfIndex, before, r.inherited, was)
             && (was && before != [] ==> r.IsFull())
    ensures records[t].hdfIndex < |table.rows| == |records|
    ensures RecordsOk(dims, records, WithBlock(table, |records|, t, records[t].hdfIndex, b, records[t].IsFull()))
  {
    hide RecordOk, AgreesExcept;
    var r := records[t];
    assert r.hdfIndex < |table.rows| && table.owner[r.hdfIndex] == t by { hide Shows; }
    var after := WithBlock(table, |records|, t, r.hdfIndex, b, r.IsFull());
    RowWritten(table, |records|, t, r.hdfIndex, before, r.inherited, was, b, r.IsFull());
    FlagsNext(table.stamps, table.completed, |records|, r.hdfIndex, t, r.IsFull());
    forall u | u in records ensures RecordOk(dims, after, u, records[u]) {
      if u != t {
        RecordKept(dims, table, after, r.hdfIndex, u, records[u]);
      } else {
        RecordOkIntro(dims, after, t, r);
      }
    }
  }

  lemma RecordOkIntro(dims: seq<nat>, table: Table, t: nat, r: Record)
    requires r.Valid(dims) && RowOk(table, t, r.hdfIndex, r.written, r.inherited, r.IsFull())
    ensures RecordOk(dims, table, t, r)
  {
    hide Shows, Layout, Items;
  }

  lemma RecordOkParts(dims: seq<nat>, table: Table, t: nat, r: Record)
    requires RecordOk(dims, table, t, r)
    ensures r.Valid(dims) && RowOk(table, t, r.hdfIndex, r.written, r.inherited, r.IsFull())
  {
    hide Shows, Layout, Items;
  }

  lemma SameSizes(dims: seq<nat>, records: map<nat, Record>, table: Table)
    requires RecordsOk(dims, records, table)
    ensures Matched(records, table) && |records| == |table.owner| == |table.rows| <= MAX_NUMBER_HISTORIC
  {
    hide RecordOk;
  }

  lemma EmptyRecordValid(dims: seq<nat>, r: Record)
    requires r.slices == [] && r.written == [] && r.itemsWritten == 0
    requires r.totalItems == if dims == [] then 0 else Volume(dims)
    ensures r.Valid(dims)
  {
  }

  // ----- The effect of a message, on values

  datatype Entry = Entry(row: nat, inherited: bool, slices: seq<Slice>, written: seq<Values>, full: bool)

  datatype Snapshot = Snapshot(
    records: map<nat, Entry>, rows: seq<map<Pos, int>>, stamps: seq<Stamp>, log: set<(nat, Values)>, completed: set<(nat, nat)>,
    latest: map<Pos, int>, latestOf: Option<(nat, seq<Values>)>, largestSeen: nat)

  ghost function EntryOf(r: Record): Entry
    reads r
  {
    Entry(r.hdfIndex, r.inherited, r.slices, r.written, r.IsFull())
  }

  lemma SameCount<S, T>(a: map<nat, S>, b: map<nat, T>)
    requires a.Keys == b.Keys
    ensures |a| == |b|
  {
    assert |a| == |a.Keys| && |b| == |b.Keys|;
  }

  /** Slices claimed, and blocks written, for a timestamp. */
  function SlicesIn(s: Snapshot, t: nat): seq<Slice>
  {
    if t in s.records then s.records[t].slices else []
  }

  function WrittenIn(s: Snapshot, t: nat): seq<Values>
  {
    if t in s.records then s.records[t].written else []
  }

  /** The row a timestamp has: its own, that of the smallest live timestamp, or a new one. */
  ghost predicate Placed(before: Snapshot, t: nat, row: nat)
  {
    if t in before.records then row == before.records[t].row
    else if |before.records| >= MAX_NUMBER_HISTORIC then
      exists oldest :: IsSmallest(oldest, before.records.Keys) && row == before.records[oldest].row
    else row == |before.rows|
  }

  /** The rows once a timestamp was admitted: one more when it is new and there are less than four. */
  function AdmittedRows(before: Snapshot, t: nat): seq<map<Pos, int>>
  {
    if t in before.records || |before.records| >= MAX_NUMBER_HISTORIC then before.rows else before.rows + [map[]]
  }

  /** The rows, stamps and marks after a message that passed the checks: all others are as they were. */
  ghost predicate FilesAfter(before: Snapshot, after: Snapshot, t: nat, b: Values, r: Outcome)
    requires t in after.records
  {
    var row, full := after.records[t].row, after.records[t].full;
    && Placed(before, t, row)
    && after.records[t].inherited == (if t in before.records then before.records[t].inherited else Flagged(before.stamps, row))
    && (r == Written ==>
          && row < |AdmittedRows(before, t)| && row < |after.records| && BlockOk(b)
          && after.rows == AdmittedRows(before, t)[row := WriteBlock(AdmittedRows(before, t)[row], b)]
          && after.stamps == Stamped(before.stamps, |after.records|, row, t, full)
          && after.completed == before.completed + (if full then {(row, t)} else {}))
    && (r != Written ==> after.rows == AdmittedRows(before, t) && after.stamps == before.stamps && after.completed == before.completed)
  }

  /** The records, the blocks written and "data" after a block was offered to a timestamp. */
  ghost predicate StoredBlock(dims: seq<nat>, before: Snapshot, after: Snapshot, t: nat, slice: Slice, b: Values, fileWriteSucceeds: bool, r: Outcome)
    requires t in after.records
  {
    && Admitted(before.records.Keys, t, after.records.Keys)
    && after.largestSeen == (if before.largestSeen < t then t else before.largestSeen)
    && r == (if Taken(SlicesIn(before, t), slice) then Rejected(SliceTaken)
             else if fileWriteSucceeds && slice.Within(dims) then Written
             else Rejected(FileWriteFailed))
    && after.records[t].slices == (if r == Rejected(SliceTaken) then SlicesIn(before, t) else SlicesIn(before, t) + [slice])
    && after.records[t].written == (if r == Written then WrittenIn(before, t) + [b] else WrittenIn(before, t))
    && after.log == (if r == Written then before.log + {(t, b)} else before.log)
    && (if r == Written && after.records[t].full
        then after.records[t].row < |after.rows| && after.latest == CopyOf(after.rows[after.records[t].row], dims)
             && after.latestOf == Some((t, after.records[t].written))
        else after.latest == before.latest && after.latestOf == before.latestOf)
  }

  /** A timestamp was admitted; nothing was claimed or written yet. */
  ghost predicate Found(before: Snapshot, after: Snapshot, t: nat)
  {
    && t in after.records && Admitted(before.records.Keys, t, after.records.Keys)
    && after.largestSeen == (if before.largestSeen < t then t else before.largestSeen)
    && Placed(before, t, after.records[t].row)
    && after.records[t].slices == SlicesIn(before, t) && after.records[t].written == WrittenIn(before, t)
    && after.records[t].inherited ==
         (if t in before.records then before.records[t].inherited else Flagged(before.stamps, after.records[t].row))
    && after.rows == AdmittedRows(before, t) && after.stamps == before.stamps && after.completed == before.completed
    && after.log == before.log && after.latest == before.latest && after.latestOf == before.latestOf
  }

  /** A slice was offered to the record of a live timestamp. */
  ghost predicate Offered(dims: seq<nat>, before: Snapshot, after: Snapshot, t: nat, slice: Slice, b: Values, fileWriteSucceeds: bool, r: Outcome)
  {
    && t in before.records && before.records.Keys == after.records.Keys && |before.records| == |after.records|
    && after.largestSeen == before.largestSeen
    && var e, f := before.records[t], after.records[t];
       && f.row == e.row && f.inherited == e.inherited
       && r == (if Taken(e.slices, slice) then Rejected(SliceTaken)
                else if fileWriteSucceeds && slice.Within(dims) then Written
                else Rejected(FileWriteFailed))
       && f.slices == (if r == Rejected(SliceTaken) then e.slices else e.slices + [slice])
       && f.written == (if r == Written then e.written + [b] else e.written)
       && after.log == (if r == Written then before.log + {(t, b)} else before.log)
       && (r == Written ==>
             && f.row < |before.rows| && f.row < |after.records| && BlockOk(b)
             && after.rows == before.rows[f.row := WriteBlock(before.rows[f.row], b)]
             && after.stamps == Stamped(before.stamps, |after.records|, f.row, t, f.full)
             && after.completed == before.completed + (if f.full then {(f.row, t)} else {}))
       && (r != Written ==> after.rows == before.rows && after.stamps == before.stamps && after.completed == before.completed)
       && (if r == Written && f.full
           then f.row < |after.rows| && after.latest == CopyOf(after.rows[f.row], dims) && after.latestOf == Some((t, f.written))
           else after.latest == before.latest && after.latestOf == before.latestOf)
  }

  lemma FoundAndOffered(dims: seq<nat>, before: Snapshot, mid: Snapshot, after: Snapshot, t: nat, slice: Slice, b: Values, fileWriteSucceeds: bool, r: Outcome)
    requires Found(before, mid, t) && Offered(dims, mid, after, t, slice, b, fileWriteSucceeds, r)
    ensures t in after.records
    ensures StoredBlock(dims, before, after, t, slice, b, fileWriteSucceeds, r) && FilesAfter(before, after, t, b, r)
  {
    hide Admitted, Placed, CopyOf, Taken, Slice.Within, WriteBlock, Stamped, Flagged;
  }

  class Writer {
    const dims: seq<nat>
    var records: map<nat, Record>
    var rows: seq<map<Pos, int>>
    var stamps: seq<Stamp>
    var latest: map<Pos, int>
    var largestSeen: nat
    /** The timestamp that owns each row. */
    ghost var owner: seq<nat>
    /** Every block that reached the file, with its timestamp. */
    ghost var log: set<(nat, Values)>
    /** Every timestamp that became complete, with the row it was in at that time. */
    ghost var completed: set<(nat, nat)>
    /** The histogram last copied to "data": its timestamp and blocks. */
    ghost var latestOf: Option<(nat, seq<Values>)>

    ghost function Files(): Table
      reads this`rows, this`stamps, this`owner, this`log, this`completed
    {
      Table(owner, rows, stamps, log, completed)
    }

    /** "data" is one complete histogram, all of it sent for one timestamp. */
    ghost predicate LatestOk()
      reads this`latest, this`latestOf, this`log, this`completed
    {
      latestOf.Some? ==>
        var (t, blocks) := latestOf.value;
        Tiles(dims, blocks) && latest == Assemble(blocks) && forall b :: b in blocks ==> (t, b) in log
    }

    ghost predicate RowsOk()
      reads this`records, this`rows, this`stamps, this`owner, this`log, this`completed, records.Values
    {
      Dims32(dims) && Volume(dims) < UINT64_LIMIT && RecordsOk(dims, records, Files())
    }

    ghost predicate Valid()
      reads this`records, this`rows, this`stamps, this`owner, this`log, this`completed, this`latest, this`latestOf, records.Values
    {
      RowsOk() && LatestOk()
    }

    constructor (dims: seq<nat>)
      requires Dims32(dims) && Volume(dims) < UINT64_LIMIT
      ensures Valid() && this.dims == dims
      ensures records == map[] && rows == [] && stamps == [] && log == {} && completed == {} && largestSeen == 0
      ensures latestOf == None && latest == CopyOf(map[], dims)
    {
      this.dims := dims;
      records, rows, stamps, largestSeen := map[], [], [], 0;
      latest := CopyOf(map[], dims);
      owner, log, completed, latestOf := [], {}, {}, None;
    }

    /** Live timestamps own distinct rows, and the rows are exactly `0..|records|`. */
    lemma RowsAreOwnedOnce()
      requires Valid()
      ensures |stamps| <= |records| == |rows| <= MAX_NUMBER_HISTORIC
      ensures forall t, u :: t in records && u in records && t != u ==> records[t].hdfIndex != records[u].hdfIndex
      ensures forall t :: t in records ==> records[t].hdfIndex < |rows|
      ensures forall i :: 0 <= i < |rows| ==> HasOwner(i)
    {
      hide RecordOk;
      forall t | t in records ensures records[t].hdfIndex < |owner| && owner[records[t].hdfIndex] == t {
        OwnRow(dims, records, Files(), t);
      }
      forall i | 0 <= i < |rows| ensures HasOwner(i) {
        assert OwnsRow(owner[i], i);
      }
    }

    ghost predicate HasOwner(i: nat)
      reads this`records
    {
      exists t :: OwnsRow(t, i)
    }

    predicate OwnsRow(t: nat, i: nat)
      reads this`records
    {
      t in records && records[t].hdfIndex == i
    }

    lemma FullRow(t: nat)
      requires RowsOk() && t in records && records[t].IsFull() && (dims == [] ==> records[t].written != [])
      ensures records[t].hdfIndex < |rows|
      ensures Tiles(dims, records[t].written)
      ensures CopyOf(rows[records[t].hdfIndex], dims) == Assemble(records[t].written)
      ensures forall b :: b in records[t].written ==> (t, b) in log
    {
      assert RecordOk(dims, Files(), t, records[t]);
      records[t].FullMeansTiled(dims);
      TiledRow(dims, rows[records[t].hdfIndex], records[t].written);
    }

    /**
     Every cell of a full record's row shows a value written for this very record, and sent for
     its timestamp: nothing of an earlier owner of the row is left.
     */
    lemma FullRowIsPure(t: nat, p: Pos)
      requires Valid() && dims != [] && t in records && records[t].IsFull()
      requires InRange(dims, p)
      ensures records[t].hdfIndex < |rows|
      ensures exists b :: b in records[t].written && (t, b) in log && BlockOk(b) && p in BlockCells(b)
                          && ReadCell(rows[records[t].hdfIndex], p) == BlockAt(b, p)
    {
      FullRow(t);
      hide RecordOk, Valid;
      CellsAreTheBox(Zeros(|dims|), dims, p);
      AssembledCell(dims, records[t].written, p);
      assert CopyOf(rows[records[t].hdfIndex], dims)[p] == ReadCell(rows[records[t].hdfIndex], p);
    }

    /** In every state "data" is empty or one whole histogram, all of it sent for one timestamp. */
    lemma DataIsOneHistogram(p: Pos)
      requires Valid() && latestOf.Some? && InRange(dims, p)
      ensures p in latest
      ensures var (t, blocks) := latestOf.value;
              exists b :: b in blocks && (t, b) in log && BlockOk(b) && p in BlockCells(b) && latest[p] == BlockAt(b, p)
    {
      hide RowsOk;
      CellsAreTheBox(Zeros(|dims|), dims, p);
      AssembledCell(dims, latestOf.value.1, p);
    }

    /**
     A row is marked full while its histogram is incomplete exactly when the mark was there before
     the timestamp took the row over; and every mark comes from a timestamp that was complete in it.
     */
    lemma StaleFlagIff(t: nat)
      requires Valid() && t in records && records[t].written != []
      ensures records[t].hdfIndex < |stamps| && stamps[records[t].hdfIndex].timestamp == t
      ensures !records[t].IsFull() ==> (stamps[records[t].hdfIndex].full <==> records[t].inherited)
      ensures Flagged(stamps, records[t].hdfIndex) <==> exists u: nat :: (records[t].hdfIndex, u) in completed
    {
      hide Layout, Items, LatestOk, Shows;
      assert RecordOk(dims, Files(), t, records[t]);
    }

    lemma SmallVolume()
      requires Valid()
      ensures ToUint64(Volume(dims)) == Volume(dims)
    {
      hide RecordsOk, LatestOk, Volume;
      Uint64Kept(Volume(dims));
    }

    /** Takes note of a timestamp and finds its record; a new one gets the row of the smallest of four, or a new row. */
    method RecordFor(t: nat) returns (rec: Record)
      requires Valid()
      modifies this`records, this`rows, this`owner, this`largestSeen
      ensures Valid() && t in records && records[t] == rec
      ensures largestSeen == if old(largestSeen) < t then t else old(largestSeen)
      ensures t in old(records) ==> records == old(records) && rows == old(rows) && owner == old(owner)
      ensures t !in old(records) ==> fresh(rec) && rec.slices == [] && rec.written == [] && rec.inherited == Flagged(stamps, rec.hdfIndex)
      ensures Admitted(old(records.Keys), t, records.Keys)
      ensures t !in old(records) && |old(records)| >= MAX_NUMBER_HISTORIC ==>
                rows == old(rows) && exists oldest :: IsSmallest(oldest, old(records.Keys)) && oldest in old(records) && rec.hdfIndex == old(records)[oldest].hdfIndex
      ensures t !in old(records) && |old(records)| < MAX_NUMBER_HISTORIC ==> rows == old(rows) + [map[]] && rec.hdfIndex == |old(rows)|
      ensures OldOrFresh(t)
      ensures forall u :: u in records && u != t ==> u in old(records) && records[u] == old(records)[u]
    {
      hide Valid, IsSmallest, Record.IsFull, Flagged, Volume;
      if largestSeen < t {
        largestSeen := t;
      }
      if t in records {
        return records[t];
      }
      SmallVolume();
      var total := TotalItems(dims);
      if |records| >= MAX_NUMBER_HISTORIC {
        ghost var oldest;
        rec, oldest := ReuseOldest(t, total);
      } else {
        rec := AddRow(t, total);
      }
    }

    /** Hands the row of the smallest live timestamp to a new one. Nothing in the row is cleared. */
    method ReuseOldest(t: nat, total: nat) returns (rec: Record, ghost oldest: nat)
      requires Valid() && t !in records && |records| >= MAX_NUMBER_HISTORIC
      requires total == if dims == [] then 0 else Volume(dims)
      modifies this`records, this`owner
      ensures Valid() && t in records && records[t] == rec && fresh(rec) && rec.slices == [] && rec.written == []
      ensures rec.inherited == Flagged(stamps, rec.hdfIndex)
      ensures IsSmallest(oldest, old(records.Keys)) && records.Keys == old(records.Keys) - {oldest} + {t}
      ensures oldest in old(records) && rec.hdfIndex == old(records)[oldest].hdfIndex
      ensures forall u :: u in records && u != t ==> u in old(records) && records[u] == old(records)[u]
    {
      hide RecordOk, Matched, Layout, Items, Tiles, Assemble, Shows, Stamped, Flagged, FlagsOk, LatestOk;
      ghost var before, table := records, Files();
      SameSizes(dims, records, table);
      SmallestExists(records.Keys);
      var first :| first in records && IsSmallest(first, records.Keys);
      oldest := first;
      var reuse := records[first].hdfIndex;
      rec := new Record(reuse, total, Flagged(stamps, reuse));
      EmptyRecordValid(dims, rec);
      RecordsAfterEviction(dims, before, table, first, t, rec);
      records := (records - {first})[t := rec];
      owner := owner[reuse := t];
      assert records.Keys == old(records.Keys) - {first} + {t};
    }

    /** Extends the dataset by one row for a new timestamp. */
    method AddRow(t: nat, total: nat) returns (rec: Record)
      requires Valid() && t !in records && |records| < MAX_NUMBER_HISTORIC
      requires total == if dims == [] then 0 else Volume(dims)
      modifies this`records, this`rows, this`owner
      ensures Valid() && t in records && records[t] == rec && fresh(rec) && rec.slices == [] && rec.written == []
      ensures rec.inherited == Flagged(stamps, rec.hdfIndex)
      ensures records.Keys == old(records.Keys) + {t} && rec.hdfIndex == |old(rows)| && rows == old(rows) + [map[]]
      ensures forall u :: u in records && u != t ==> u in old(records) && records[u] == old(records)[u]
    {
      hide RecordOk, Matched, Record.Valid, Volume, Dims32, Stamped, Flagged, FlagsOk, LatestOk;
      ghost var before, table := records, Files();
      SameSizes(dims, records, table);
      rec := new Record(|rows|, total, Flagged(stamps, |rows|));
      EmptyRecordValid(dims, rec);
      RecordsAfterAddition(dims, before, table, t, rec);
      records := records[t := rec];
      rows := rows + [map[]];
      owner := owner + [t];
    }

    /** Claims the slice, writes its block and counts it. */
    method StoreSlice(t: nat, rec: Record, slice: Slice, values: seq<int>, fileWriteSucceeds: bool) returns (r: Outcome)
      requires Valid() && t in records && records[t] == rec
      requires slice.WellFormed(|dims|)
      requires slice.Within(dims) ==> |values| == Volume(slice.sizes)
      modifies this`rows, this`stamps, this`latest, this`log, this`completed, this`latestOf, rec
      ensures Valid()
      ensures r == if Taken(old(rec.slices), slice) then Rejected(SliceTaken)
                   else if fileWriteSucceeds && slice.Within(dims) then Written
                   else Rejected(FileWriteFailed)
      ensures rec.slices == if r == Rejected(SliceTaken) then old(rec.slices) else old(rec.slices) + [slice]
      ensures r == Written ==>
                var b := Block(slice.offsets, slice.sizes, values);
                && rec.written == old(rec.written) + [b]
                && log == old(log) + {(t, b)}
                && rec.hdfIndex < |old(rows)| && rec.hdfIndex < |records| && BlockOk(b)
                && rows == old(rows)[rec.hdfIndex := WriteBlock(old(rows)[rec.hdfIndex], b)]
                && stamps == Stamped(old(stamps), |records|, rec.hdfIndex, t, rec.IsFull())
                && completed == old(completed) + (if rec.IsFull() then {(rec.hdfIndex, t)} else {})
                && latest == (if rec.IsFull() then CopyOf(rows[rec.hdfIndex], dims) else old(latest))
                && latestOf == (if rec.IsFull() then Some((t, rec.written)) else old(latestOf))
      ensures r != Written ==>
                rec.written == old(rec.written) && rows == old(rows) && stamps == old(stamps) && completed == old(completed) && log == old(log) && latest == old(latest)
                && latestOf == old(latestOf)
    {
      hide RecordOk, RowOk, Layout, Items, LatestOk;
      ghost var table := Files();
      OwnRow(dims, records, table, t);
      RecordOkParts(dims, table, t, rec);
      var free := rec.HasEmptySlice(slice);
      if free != Some(true) {
        return Rejected(SliceTaken);
      }
      ClaimedGrows(rec.slices, rec.written, slice, Block(slice.offsets, slice.sizes, values));
      if !(fileWriteSucceeds && FitsIn(slice)) {
        rec.AddSlice(slice);
        RecordOkIntro(dims, table, t, rec);
        return Rejected(FileWriteFailed);
      }
      StoreBlock(t, rec, slice, values);
      return Written;
    }

    /** Claims a free slice and writes its block. */
    method StoreBlock(t: nat, rec: Record, slice: Slice, values: seq<int>)
      requires Valid() && t in records && records[t] == rec
      requires slice.Within(dims) && |values| == Volume(slice.sizes)
      requires forall s :: s in rec.slices ==> s.Compatible(slice) && !s.Overlaps(slice)
      modifies this`rows, this`stamps, this`latest, this`log, this`completed, this`latestOf, rec
      ensures Valid()
      ensures var b := Block(slice.offsets, slice.sizes, values);
              && rec.slices == old(rec.slices) + [slice]
              && rec.written == old(rec.written) + [b]
              && log == old(log) + {(t, b)}
              && rec.hdfIndex < |old(rows)| && rec.hdfIndex < |records| && BlockOk(b)
              && rows == old(rows)[rec.hdfIndex := WriteBlock(old(rows)[rec.hdfIndex], b)]
              && stamps == Stamped(old(stamps), |records|, rec.hdfIndex, t, rec.IsFull())
                && completed == old(completed) + (if rec.IsFull() then {(rec.hdfIndex, t)} else {})
              && latest == (if rec.IsFull() then CopyOf(rows[rec.hdfIndex], dims) else old(latest))
              && latestOf == (if rec.IsFull() then Some((t, rec.written)) else old(latestOf))
    {
      hide RecordOk, RowOk, Layout, Items, Tiles, Assemble, WriteBlock, AllClaimed;
      hide Slice.Overlaps, Slice.Compatible, Volume, Dims32, CopyOf, Matched, LatestOk, Stamped, Shows, Flagged, FlagsOk;
      ghost var table := Files();
      SameSizes(dims, records, table);
      OwnRow(dims, records, table, t);
      RecordOkParts(dims, table, t, rec);
      var block := Block(slice.offsets, slice.sizes, values);
      ghost var was := rec.IsFull();
      ClaimedGrows(rec.slices, rec.written, slice, block);
      rec.FreeSliceExtends(dims, slice, block);
      rec.AddSlice(slice);
      rec.AddToItemsWritten(|values|, block);
      if was && old(rec.written) != [] { FullStays(dims, old(rec.written), block); }
      RecordsAfterBlock(dims, records, table, t, old(rec.written), was, block);
      var full := rec.IsFull();
      WriteRow(t, rec.hdfIndex, block, full);
      LatestKept();
      if full {
        CopyLatestToData(t, rec);
      }
    }

    /** Writes a block into its row and stamps the row. */
    method WriteRow(t: nat, row: nat, block: Values, full: bool)
      requires row < |rows| && row < |records| && BlockOk(block)
      modifies this`rows, this`stamps, this`log, this`completed
      ensures Files() == WithBlock(old(Files()), |records|, t, row, block, full)
    {
      hide WriteBlock, Stamped;
      rows := rows[row := WriteBlock(rows[row], block)];
      stamps := Stamped(stamps, |records|, row, t, full);
      log := log + {(t, block)};
      completed := completed + if full then {(row, t)} else {};
    }

    /** A growing log does not affect what "data" holds. */
    twostate lemma LatestKept()
      requires old(LatestOk()) && latest == old(latest) && latestOf == old(latestOf)
      requires old(log) <= log
      ensures LatestOk()
    {
      hide Tiles, Assemble;
    }

    /** Replaces the contents of "data" by a copy of the record's row. */
    method CopyLatestToData(t: nat, rec: Record)
      requires Valid() && t in records && records[t] == rec && rec.IsFull() && rec.written != []
      modifies this`latest, this`latestOf
      ensures Valid()
      ensures latest == CopyOf(rows[rec.hdfIndex], dims) && latestOf == Some((t, rec.written))
    {
      hide Tiles, Assemble, RecordsOk, CopyOf, Volume, Dims32;
      FullRow(t);
      latest := CopyOf(rows[rec.hdfIndex], dims);
      latestOf := Some((t, rec.written));
    }

    method Write(msg: Message, fileWriteSucceeds: bool) returns (r: Outcome)
      requires Valid()
      modifies this, records.Values
      ensures Valid()
      ensures var checked := SliceOf(msg, dims);
              if checked.Err? then r == Rejected(checked.error) && Untouched()
              else if TooOld(msg.timestamp, old(largestSeen)) then r == Rejected(OldHistogram) && Untouched()
              else Stored(msg, checked.value, fileWriteSucceeds, r)
      ensures SliceOf(msg, dims).Ok? ==> (r == Rejected(OldHistogram) <==> Behind(msg.timestamp, old(largestSeen)))
      ensures SliceOf(msg, dims).Ok? && msg.timestamp + 40_000_000_000 < 0x1_0000_0000_0000_0000 ==>
                (r == Rejected(OldHistogram) <==> old(largestSeen) - msg.timestamp > 40_000_000_000)
      ensures largestSeen <= Max(old(largestSeen), msg.timestamp)
      ensures r == Written ==> Sound(msg, dims) && SliceOf(msg, dims).value.Within(dims)
      ensures OthersKept(msg.timestamp) && OldOrFresh(msg.timestamp)
    {
      hide Sound, Behind;
      SliceOfIff(msg, dims);
      TooOldIffBehind(msg.timestamp, largestSeen);
      hide Valid, TooOld, SliceOf, BlockOf, Admitted, IsSmallest, CopyOf, WriteBlock, Stamped, Taken, Slice.Within, Record.IsFull, Flagged, StoredBlock, FilesAfter;
      var checked := Screen(msg);
      if checked.Err? {
        NothingTouched(msg.timestamp);
        return Rejected(checked.error);
      }
      CheckedSlice(msg);
      r := AcceptInside(msg, checked.value, fileWriteSucceeds);
    }

    /** `Accept`, with what its outcome means. */
    method AcceptInside(msg: Message, slice: Slice, fileWriteSucceeds: bool) returns (r: Outcome)
      requires Valid() && msg.data.Some? && slice.WellFormed(|dims|)
      requires slice.Within(dims) ==> |msg.data.value| == Volume(slice.sizes)
      modifies this, records.Values
      ensures Valid() && OthersKept(msg.timestamp) && Stored(msg, slice, fileWriteSucceeds, r)
      ensures OldOrFresh(msg.timestamp) && largestSeen == Max(old(largestSeen), msg.timestamp)
      ensures r != Rejected(OldHistogram) && (r == Written ==> slice.Within(dims))
    {
      hide Valid, StoredBlock, FilesAfter, Slice.Within, Slice.WellFormed, OthersKept, OldOrFresh;
      ghost var before := Snap();
      r := Accept(msg, slice, fileWriteSucceeds);
      WriteOutcome(dims, before, Snap(), msg.timestamp, slice, BlockOf(msg, slice), fileWriteSucceeds, r);
    }

    /** The checks of the message by itself, and then of its age. */
    method Screen(msg: Message) returns (r: Result<Slice, WriteError>)
      ensures r == if SliceOf(msg, dims).Err? then SliceOf(msg, dims)
                   else if TooOld(msg.timestamp, largestSeen) then Err(OldHistogram)
                   else SliceOf(msg, dims)
    {
      hide TooOld, SliceOf;
      r := CheckMessage(msg, dims);
      if r.Ok? && TooOld(msg.timestamp, largestSeen) {
        return Err(OldHistogram);
      }
    }

    /** `RecordFor`, on values. */
    method Find(t: nat) returns (rec: Record)
      requires Valid()
      modifies this`records, this`rows, this`owner, this`largestSeen
      ensures Valid() && t in records && records[t] == rec && Found(old(Snap()), Snap(), t) && OldOrFresh(t)
      ensures t in old(records) ==> records == old(records)
      ensures forall u :: u in records && u != t ==> u in old(records) && records[u] == old(records)[u]
    {
      hide Valid, Admitted, Found, Record.IsFull;
      rec := RecordFor(t);
      FoundIs(t, rec);
    }

    twostate lemma FoundIs(t: nat, new rec: Record)
      requires t in records && records[t] == rec && Admitted(old(records.Keys), t, records.Keys)
      requires largestSeen == if old(largestSeen) < t then t else old(largestSeen)
      requires t in old(records) ==> records == old(records) && rows == old(rows) && unchanged(old(records)[t])
      requires t !in old(records) ==> rec.slices == [] && rec.written == [] && rec.inherited == Flagged(stamps, rec.hdfIndex)
      requires t !in old(records) && |old(records)| >= MAX_NUMBER_HISTORIC ==>
                 rows == old(rows) && exists oldest :: IsSmallest(oldest, old(records.Keys)) && oldest in old(records) && rec.hdfIndex == old(records)[oldest].hdfIndex
      requires t !in old(records) && |old(records)| < MAX_NUMBER_HISTORIC ==> rows == old(rows) + [map[]] && rec.hdfIndex == |old(rows)|
      requires stamps == old(stamps) && log == old(log) && completed == old(completed) && latest == old(latest) && latestOf == old(latestOf)
      ensures Found(old(Snap()), Snap(), t)
    {
      hide Admitted, Flagged, Record.IsFull, IsSmallest;
      if t !in old(records) && |old(records)| >= MAX_NUMBER_HISTORIC {
        var oldest :| IsSmallest(oldest, old(records.Keys)) && oldest in old(records) && rec.hdfIndex == old(records)[oldest].hdfIndex;
        assert old(Snap()).records[oldest].row == rec.hdfIndex;
      }
    }

    /** `StoreSlice`, on values. */
    method Offer(t: nat, rec: Record, slice: Slice, values: seq<int>, fileWriteSucceeds: bool) returns (r: Outcome)
      requires Valid() && t in records && records[t] == rec
      requires slice.WellFormed(|dims|)
      requires slice.Within(dims) ==> |values| == Volume(slice.sizes)
      modifies this`rows, this`stamps, this`latest, this`log, this`completed, this`latestOf, rec
      ensures Valid() && Offered(dims, old(Snap()), Snap(), t, slice, Block(slice.offsets, slice.sizes, values), fileWriteSucceeds, r)
    {
      hide Valid, Slice.Within, Taken, CopyOf, WriteBlock, Stamped, Record.IsFull;
      r := StoreSlice(t, rec, slice, values, fileWriteSucceeds);
    }

    /** A message that passed the checks. */
    method Accept(msg: Message, slice: Slice, fileWriteSucceeds: bool) returns (r: Outcome)
      requires Valid() && msg.data.Some? && slice.WellFormed(|dims|)
      requires slice.Within(dims) ==> |msg.data.value| == Volume(slice.sizes)
      modifies this, records.Values
      ensures Valid() && OthersKept(msg.timestamp) && Stored(msg, slice, fileWriteSucceeds, r)
      ensures OldOrFresh(msg.timestamp)
    {
      hide Valid, Admitted, Found, Offered, StoredBlock, FilesAfter, Taken, Slice.Within, Snap;
      var t := msg.timestamp;
      ghost var before := Snap();
      var rec := Find(t);
      ghost var mid := Snap();
      RecordsDistinct(t);
      r := Offer(t, rec, slice, msg.data.value, fileWriteSucceeds);
      FoundAndOffered(dims, before, mid, Snap(), t, slice, BlockOf(msg, slice), fileWriteSucceeds, r);
      assert forall u :: u in records && u != t ==> records[u] != rec;
    }

    twostate lemma NothingTouched(t: nat)
      requires unchanged(this) && forall u :: u in records ==> unchanged(records[u])
      ensures Untouched() && OthersKept(t) && OldOrFresh(t)
    {
    }

    lemma RecordsDistinct(t: nat)
      requires Valid() && t in records
      ensures forall u :: u in records && u != t ==> records[u] != records[t]
    {
      hide LatestOk, Matched, RecordOk;
      OwnRow(dims, records, Files(), t);
    }

    lemma CheckedSlice(msg: Message)
      requires Valid() && SliceOf(msg, dims).Ok?
      ensures msg.data.Some? && SliceOf(msg, dims).value.WellFormed(|dims|)
      ensures SliceOf(msg, dims).value.Within(dims) ==> |msg.data.value| == Volume(SliceOf(msg, dims).value.sizes)
    {
      if SliceOf(msg, dims).value.Within(dims) {
        BlockFits(msg, dims);
      }
    }

    twostate predicate Untouched()
      reads this, records.Values
    {
      unchanged(this) && forall t :: t in records ==> unchanged(records[t])
    }

    /** Records of other timestamps that are still alive are as they were. */
    twostate predicate OthersKept(t: nat)
      reads this`records, records.Values
    {
      forall u :: u in records && u != t ==> u in old(records) && records[u] == old(records)[u] && unchanged(records[u])
    }

    /** The record of this timestamp is the one it had, or a new object. */
    twostate predicate OldOrFresh(t: nat)
      reads this`records
    {
      t in records ==> (t in old(records) && records[t] == old(records)[t]) || fresh(records[t])
    }

    /** The records and datasets as values. */
    ghost function Snap(): (s: Snapshot)
      reads this, records.Values
      ensures s.records.Keys == records.Keys && |s.records| == |records|
    {
      var entries := map t | t in records :: EntryOf(records[t]);
      SameCount(entries, records);
      Snapshot(entries, rows, stamps, log, completed, latest, latestOf, largestSeen)
    }

    /** The effect of a message that passed the checks. */
    twostate predicate Stored(msg: Message, slice: Slice, fileWriteSucceeds: bool, r: Outcome)
      reads this, records.Values
    {
      && msg.data.Some? && msg.timestamp in records
      && StoredBlock(dims, old(Snap()), Snap(), msg.timestamp, slice, BlockOf(msg, slice), fileWriteSucceeds, r)
      && FilesAfter(old(Snap()), Snap(), msg.timestamp, BlockOf(msg, slice), r)
    }

    predicate FitsIn(slice: Slice)
      ensures FitsIn(slice) <==> slice.Within(dims)
    {
      |slice.offsets| == |slice.sizes| == |dims|
      && forall i :: 0 <= i < |dims| ==> slice.offsets[i] as int + slice.sizes[i] as int <= dims[i]
    }
  }
}
