/**
 Writers of neutron events: messages are flattened into parallel arrays with an index, following
 the layout of the NeXus base class NXevent_data, and every so many events a cue is recorded.
 */
module EventWriter {
  import opened Common
  import opened Grid

  /** Index datasets hold 32-bit values; HDF5 clips larger ones when it converts. */
  function Stored32(x: nat): nat
  {
    if x < UINT32_LIMIT then x else UINT32_LIMIT - 1
  }

  /** What is stored is the largest 32-bit value that does not exceed the number. */
  lemma StoredIsNearest(x: nat, y: nat)
    requires y < UINT32_LIMIT && y <= x
    ensures y <= Stored32(x) <= x && Stored32(x) < UINT32_LIMIT
  {
  }

  // ----- ev42

  datatype Message42 = Message42(pulseTime: nat, ids: seq<nat>, offsets: seq<nat>)

  predicate Matched(m: Message42)
  {
    |m.ids| == |m.offsets|
  }

  function EventCount(msgs: seq<Message42>): nat
  {
    if msgs == [] then 0 else EventCount(msgs[..|msgs| - 1]) + |msgs[|msgs| - 1].ids|
  }

  function OffsetCount(msgs: seq<Message42>): nat
  {
    if msgs == [] then 0 else OffsetCount(msgs[..|msgs| - 1]) + |msgs[|msgs| - 1].offsets|
  }

  /** The datasets of an NXevent_data group. */
  datatype EventData = EventData(timeZero: seq<nat>, index: seq<nat>, ids: seq<nat>, offsets: seq<nat>)

  /** What the datasets hold after these messages. */
  function Encode(msgs: seq<Message42>): EventData
  {
    if msgs == [] then EventData([], [], [], [])
    else
      var before, m := msgs[..|msgs| - 1], msgs[|msgs| - 1];
      var d := Encode(before);
      EventData(d.timeZero + [m.pulseTime], d.index + [Stored32(EventCount(before))], d.ids + m.ids, d.offsets + m.offsets)
  }

  /** The entries from `lo` up to `hi`, as far as the array goes. */
  function Slice(xs: seq<nat>, lo: nat, hi: nat): seq<nat>
  {
    if lo <= hi then xs[Min(lo, |xs|)..Min(hi, |xs|)] else []
  }

  /** Reads a message back: message `i` holds the events from its index to the next one. */
  function DecodeOne(d: EventData, i: nat): Message42
    requires i < |d.timeZero| == |d.index|
  {
    var hi := if i + 1 < |d.index| then d.index[i + 1] else |d.ids|;
    Message42(d.timeZero[i], Slice(d.ids, d.index[i], hi), Slice(d.offsets, d.index[i], hi))
  }

  function Decode(d: EventData): seq<Message42>
    requires |d.timeZero| == |d.index|
  {
    seq(|d.index|, i requires 0 <= i < |d.index| => DecodeOne(d, i))
  }

  lemma {:induction false} EncodeSizes(msgs: seq<Message42>)
    ensures var d := Encode(msgs);
            |d.timeZero| == |d.index| == |msgs| && |d.ids| == EventCount(msgs) && |d.offsets| == OffsetCount(msgs)
  {
    if msgs != [] {
      EncodeSizes(msgs[..|msgs| - 1]);
    }
  }

  /** Appending a message only adds to the end of each array. */
  lemma EncodeExtends(msgs: seq<Message42>)
    requires msgs != []
    ensures var n := |msgs| - 1; var before, d, m := Encode(msgs[..n]), Encode(msgs), msgs[n];
            && d.timeZero == before.timeZero + [m.pulseTime] && d.index == before.index + [Stored32(EventCount(msgs[..n]))]
            && d.ids == before.ids + m.ids && d.offsets == before.offsets + m.offsets
            && EventCount(msgs) == EventCount(msgs[..n]) + |m.ids| && OffsetCount(msgs) == OffsetCount(msgs[..n]) + |m.offsets|
  {
  }

  lemma SliceOfPrefix(xs: seq<nat>, ys: seq<nat>, lo: nat, hi: nat)
    requires lo <= hi <= |xs|
    ensures (xs + ys)[lo..hi] == xs[lo..hi]
  {
  }

  /** Entry `i` of every array comes from message `i`. */
  lemma {:induction false} EncodedAt(msgs: seq<Message42>, i: nat)
    requires i < |msgs|
    ensures |Encode(msgs).timeZero| == |Encode(msgs).index| == |msgs|
    ensures Encode(msgs).timeZero[i] == msgs[i].pulseTime
    ensures Encode(msgs).index[i] == Stored32(EventCount(msgs[..i]))
    ensures var lo, hi := EventCount(msgs[..i]), EventCount(msgs[..i + 1]);
            lo <= hi <= |Encode(msgs).ids| && Encode(msgs).ids[lo..hi] == msgs[i].ids
  {
    hide Encode, EventCount, Stored32;
    EncodeSizes(msgs);
    EncodeExtends(msgs);
    var n := |msgs| - 1;
    var before := msgs[..n];
    EncodeSizes(before);
    if i == n {
      assert msgs[..n + 1] == msgs;
    } else {
      EncodedAt(before, i);
      assert before[..i] == msgs[..i] && before[..i + 1] == msgs[..i + 1];
      SliceOfPrefix(Encode(before).ids, msgs[n].ids, EventCount(msgs[..i]), EventCount(msgs[..i + 1]));
    }
  }

  /** The offsets of message `i` lie after those of the messages before it. */
  lemma {:induction false} OwnOffsets(msgs: seq<Message42>, i: nat)
    requires i < |msgs|
    ensures var lo, hi := OffsetCount(msgs[..i]), OffsetCount(msgs[..i + 1]);
            lo <= hi <= |Encode(msgs).offsets| && Encode(msgs).offsets[lo..hi] == msgs[i].offsets
  {
    hide Encode, EventCount, OffsetCount, Stored32;
    EncodeSizes(msgs);
    EncodeExtends(msgs);
    var n := |msgs| - 1;
    var before := msgs[..n];
    EncodeSizes(before);
    if i == n {
      assert msgs[..n + 1] == msgs;
    } else {
      OwnOffsets(before, i);
      assert before[..i] == msgs[..i] && before[..i + 1] == msgs[..i + 1];
      SliceOfPrefix(Encode(before).offsets, msgs[n].offsets, OffsetCount(msgs[..i]), OffsetCount(msgs[..i + 1]));
    }
  }

  lemma NextCounts(msgs: seq<Message42>, i: nat)
    requires i < |msgs|
    ensures EventCount(msgs[..i + 1]) == EventCount(msgs[..i]) + |msgs[i].ids|
    ensures OffsetCount(msgs[..i + 1]) == OffsetCount(msgs[..i]) + |msgs[i].offsets|
  {
    assert msgs[..i + 1][..i] == msgs[..i];
  }

  /** Counts only grow from one message to a later one. */
  lemma {:induction false} CountsGrow(msgs: seq<Message42>, i: nat, j: nat)
    requires i <= j <= |msgs|
    ensures EventCount(msgs[..i]) <= EventCount(msgs[..j])
    ensures OffsetCount(msgs[..i]) <= OffsetCount(msgs[..j])
    decreases j
  {
    if i < j {
      CountsGrow(msgs, i, j - 1);
      NextCounts(msgs, j - 1);
    }
  }

  /** As long as the vectors match in length, offsets and events are counted alike. */
  lemma {:induction false} MatchedCounts(msgs: seq<Message42>, i: nat)
    requires i <= |msgs| && forall j :: 0 <= j < i ==> Matched(msgs[j])
    ensures OffsetCount(msgs[..i]) == EventCount(msgs[..i])
  {
    if i > 0 {
      MatchedCounts(msgs, i - 1);
      NextCounts(msgs, i - 1);
    }
  }

  /** Without further offsets the count stays what it is. */
  lemma {:induction false} NoMoreOffsets(msgs: seq<Message42>, i: nat, n: nat)
    requires i <= n <= |msgs| && forall j :: i <= j < n ==> msgs[j].offsets == []
    ensures OffsetCount(msgs[..i]) == OffsetCount(msgs[..n])
    decreases n
  {
    if i < n {
      NoMoreOffsets(msgs, i, n - 1);
      NextCounts(msgs, n - 1);
    }
  }

  /** The offsets that reading back yields for message `i`. */
  function OffsetsBack(msgs: seq<Message42>, i: nat): seq<nat>
    requires i < |msgs|
  {
    Slice(Encode(msgs).offsets, EventCount(msgs[..i]), EventCount(msgs[..i + 1]))
  }

  /** What is read back as message `i`, whatever the lengths of the vectors. */
  lemma DecodedAt(msgs: seq<Message42>, i: nat)
    requires EventCount(msgs) < UINT32_LIMIT && i < |msgs|
    ensures |Encode(msgs).timeZero| == |Encode(msgs).index| == |msgs|
    ensures DecodeOne(Encode(msgs), i)
         == Message42(msgs[i].pulseTime, msgs[i].ids, OffsetsBack(msgs, i))
  {
    hide Encode, EventCount;
    EncodeSizes(msgs);
    EncodedAt(msgs, i);
    assert msgs[..|msgs|] == msgs;
    CountsGrow(msgs, i, |msgs|);
    if i + 1 < |msgs| {
      EncodedAt(msgs, i + 1);
      CountsGrow(msgs, i + 1, |msgs|);
    }
  }

  /** Offsets and events are counted alike up to the point where the offsets end. */
  ghost predicate InStep(msgs: seq<Message42>, i: nat)
    requires i <= |msgs|
  {
    OffsetCount(msgs[..i]) == Min(EventCount(msgs[..i]), OffsetCount(msgs))
  }

  lemma OffsetsBackWhenInStep(msgs: seq<Message42>, i: nat)
    requires i < |msgs| && InStep(msgs, i) && InStep(msgs, i + 1)
    ensures OffsetsBack(msgs, i) == msgs[i].offsets
  {
    hide Encode, EventCount, OffsetCount;
    EncodeSizes(msgs);
    OwnOffsets(msgs, i);
    CountsGrow(msgs, i, i + 1);
  }

  lemma {:induction false} InStepWhenOffsetsBack(msgs: seq<Message42>, i: nat)
    requires i <= |msgs|
    requires forall j :: 0 <= j < i ==> |OffsetsBack(msgs, j)| == |msgs[j].offsets|
    ensures InStep(msgs, i)
  {
    if i > 0 {
      InStepWhenOffsetsBack(msgs, i - 1);
      hide Encode, EventCount, OffsetCount;
      EncodeSizes(msgs);
      CountsGrow(msgs, i - 1, i);
      NextCounts(msgs, i - 1);
    }
  }

  /** Up to message `k` the vectors match, `k` itself may lack offsets, and no offsets follow. */
  predicate OffsetsEndAt(msgs: seq<Message42>, k: nat)
  {
    && k <= |msgs|
    && (forall i :: 0 <= i < k ==> Matched(msgs[i]))
    && (k < |msgs| ==> |msgs[k].offsets| <= |msgs[k].ids|)
    && (forall i :: k < i < |msgs| ==> msgs[i].offsets == [])
  }

  lemma InStepUpTo(msgs: seq<Message42>, k: nat, i: nat)
    requires OffsetsEndAt(msgs, k) && i <= |msgs|
    ensures InStep(msgs, i)
  {
    hide EventCount, OffsetCount;
    var n := |msgs|;
    assert msgs[..n] == msgs;
    if i <= k {
      MatchedCounts(msgs, i);
      CountsGrow(msgs, i, n);
    } else {
      MatchedCounts(msgs, k);
      NextCounts(msgs, k);
      NoMoreOffsets(msgs, k + 1, n);
      NoMoreOffsets(msgs, i, n);
      CountsGrow(msgs, k + 1, i);
    }
  }

  /** The first message whose events reach past the end of the offsets. */
  lemma OffsetsEndSomewhere(msgs: seq<Message42>) returns (k: nat)
    requires forall i :: 0 <= i <= |msgs| ==> InStep(msgs, i)
    ensures OffsetsEndAt(msgs, k)
  {
    hide EventCount, OffsetCount;
    var n := |msgs|;
    assert msgs[..0] == [] && EventCount([]) == 0 by { NothingEncoded(); }
    k := 0;
    while k < n && EventCount(msgs[..k + 1]) <= OffsetCount(msgs)
      invariant k <= n && EventCount(msgs[..k]) <= OffsetCount(msgs)
      invariant forall i :: 0 <= i < k ==> Matched(msgs[i])
    {
      assert InStep(msgs, k) && InStep(msgs, k + 1);
      NextCounts(msgs, k);
      k := k + 1;
    }
    if k < n {
      assert InStep(msgs, k) && InStep(msgs, k + 1);
      NextCounts(msgs, k);
      forall i | k < i < n ensures msgs[i].offsets == [] {
        assert InStep(msgs, i) && InStep(msgs, i + 1);
        NextCounts(msgs, i);
        CountsGrow(msgs, k + 1, i);
      }
    }
  }

  lemma OffsetsBackIff(msgs: seq<Message42>)
    ensures (forall i :: 0 <= i < |msgs| ==> OffsetsBack(msgs, i) == msgs[i].offsets) <==> exists k: nat :: OffsetsEndAt(msgs, k)
  {
    hide Encode, EventCount, OffsetCount, Slice, InStep, OffsetsEndAt;
    if forall i :: 0 <= i < |msgs| ==> OffsetsBack(msgs, i) == msgs[i].offsets {
      forall i | 0 <= i <= |msgs| ensures InStep(msgs, i) {
        assert forall j :: 0 <= j < i ==> OffsetsBack(msgs, j) == msgs[j].offsets;
        InStepWhenOffsetsBack(msgs, i);
      }
      var k := OffsetsEndSomewhere(msgs);
    }
    forall k: nat, i | OffsetsEndAt(msgs, k) && 0 <= i < |msgs| ensures OffsetsBack(msgs, i) == msgs[i].offsets {
      InStepUpTo(msgs, k, i);
      InStepUpTo(msgs, k, i + 1);
      OffsetsBackWhenInStep(msgs, i);
    }
  }

  /**
   The arrays hold the messages. Pulse times and ids can always be read back; the whole messages
   can be read back exactly when the offsets match the ids up to a point where they end.
   */
  lemma RoundTripIff(msgs: seq<Message42>)
    requires EventCount(msgs) < UINT32_LIMIT
    ensures |Encode(msgs).timeZero| == |Encode(msgs).index|
    ensures var out := Decode(Encode(msgs));
            |out| == |msgs| && forall i :: 0 <= i < |msgs| ==> out[i].pulseTime == msgs[i].pulseTime && out[i].ids == msgs[i].ids
    ensures Decode(Encode(msgs)) == msgs <==> exists k: nat :: OffsetsEndAt(msgs, k)
  {
    hide Encode, EventCount, DecodeOne, OffsetsEndAt, OffsetsBack;
    EncodeSizes(msgs);
    var out := Decode(Encode(msgs));
    forall i | 0 <= i < |msgs| ensures out[i] == Message42(msgs[i].pulseTime, msgs[i].ids, OffsetsBack(msgs, i)) {
      DecodedAt(msgs, i);
    }
    OffsetsBackIff(msgs);
    if forall i :: 0 <= i < |msgs| ==> OffsetsBack(msgs, i) == msgs[i].offsets {
      assert out == msgs;
    }
  }

  /** Vectors of equal length throughout, empty ones included: every message can be read back. */
  lemma RoundTrip(msgs: seq<Message42>)
    requires EventCount(msgs) < UINT32_LIMIT && forall m :: m in msgs ==> Matched(m)
    ensures |Encode(msgs).timeZero| == |Encode(msgs).index| && Decode(Encode(msgs)) == msgs
  {
    hide Encode, EventCount, Decode;
    assert OffsetsEndAt(msgs, |msgs|);
    RoundTripIff(msgs);
  }

  /** With vectors of different lengths the offsets drift away from their messages. */
  lemma UnmatchedOffsetsDrift()
    ensures var msgs := [Message42(1, [7], []), Message42(2, [8], [5])];
            |Encode(msgs).timeZero| == |Encode(msgs).index| && Decode(Encode(msgs)) != msgs
  {
    var msgs := [Message42(1, [7], []), Message42(2, [8], [5])];
    NothingEncoded();
    EventCountNext([], msgs[0]);
    EventCountNext([msgs[0]], msgs[1]);
    assert [] + [msgs[0]] == [msgs[0]] && [msgs[0]] + [msgs[1]] == msgs;
    hide Encode, EventCount, OffsetCount, Decode;
    RoundTripIff(msgs);
    forall k ensures !OffsetsEndAt(msgs, k) {
      assert !Matched(msgs[0]) && msgs[1].offsets != [];
    }
  }

  lemma NothingEncoded()
    ensures Encode([]) == EventData([], [], [], []) && EventCount([]) == 0 && OffsetCount([]) == 0
  {
  }

  // ----- The cue schedule

  datatype Counters = Counters(written: nat, lastCue: nat)

  predicate CueDue(interval: nat, c: Counters, events: nat)
  {
    c.written + events > c.lastCue + interval
  }

  /** Counters after messages with these numbers of events. */
  function CountersAfter(interval: nat, sizes: seq<nat>): Counters
  {
    if sizes == [] then Counters(0, 0)
    else
      var c, n := CountersAfter(interval, sizes[..|sizes| - 1]), sizes[|sizes| - 1];
      Counters(c.written + n, if CueDue(interval, c, n) then c.written + n - 1 else c.lastCue)
  }

  lemma {:induction false} CueNeverFarBehind(interval: nat, sizes: seq<nat>)
    requires interval >= 1
    ensures var c := CountersAfter(interval, sizes); c.written <= c.lastCue + interval
  {
    if sizes != [] {
      CueNeverFarBehind(interval, sizes[..|sizes| - 1]);
    }
  }

  /** No run ever takes a cue from a message without events. */
  ghost predicate NeverCuesEmptyMessage(interval: nat)
  {
    forall sizes: seq<nat> :: !CueDue(interval, CountersAfter(interval, sizes), 0)
  }

  /** Taking a cue reads the last event of its message, which is safe exactly when the interval is at least one. */
  lemma CueSafetyIff(interval: nat)
    ensures NeverCuesEmptyMessage(interval) <==> interval >= 1
  {
    if interval >= 1 {
      forall sizes: seq<nat> ensures !CueDue(interval, CountersAfter(interval, sizes), 0) {
        CueNeverFarBehind(interval, sizes);
      }
    } else {
      assert [1][..0] == [];
      assert CountersAfter(0, [1]) == Counters(1, 0);
      assert CueDue(0, CountersAfter(0, [1]), 0);
    }
  }

  /** A cue: the message it was taken from, and the number of the event it points at. */
  datatype Cue = Cue(message: nat, at: nat)

  /** Number of the last event a cue points at. */
  function LastCue(cues: seq<Cue>): nat
  {
    if cues == [] then 0 else cues[|cues| - 1].at
  }

  // ----- The ev42 writer

  ghost predicate CueOk42(msgs: seq<Message42>, cue: Cue, timestamp: nat)
  {
    && cue.message < |msgs|
    && var m := msgs[cue.message];
       && 0 < |m.ids|
       && cue.at == EventCount(msgs[..cue.message + 1]) - 1
       && CueTime(m, timestamp)
  }

  /**
   In the flat arrays, a cue's timestamp is the event time of the event it points at, as long as
   the vectors match in length before its message and the message has enough offsets itself.
   */
  lemma CueAgreesWithArrays(msgs: seq<Message42>, cue: Cue, timestamp: nat)
    requires CueOk42(msgs, cue, timestamp)
    requires forall j :: 0 <= j < cue.message ==> Matched(msgs[j])
    requires |msgs[cue.message].ids| <= |msgs[cue.message].offsets|
    ensures var d := Encode(msgs);
            && cue.message < |d.timeZero| && cue.at < |d.offsets|
            && timestamp == ToUint64(d.timeZero[cue.message] + d.offsets[cue.at])
  {
    hide EventCount, OffsetCount, Encode, ToUint64;
    var i := cue.message;
    EncodedAt(msgs, i);
    OwnOffsets(msgs, i);
    MatchedCounts(msgs, i);
    NextCounts(msgs, i);
    var lo, hi := OffsetCount(msgs[..i]), OffsetCount(msgs[..i + 1]);
    assert cue.at == lo + (|msgs[i].ids| - 1);
    assert Encode(msgs).offsets[cue.at] == Encode(msgs).offsets[lo..hi][cue.at - lo];
  }

  /** The cue datasets agree with the messages, and each cue is at least an interval after the one before. */
  ghost predicate CuesOk(msgs: seq<Message42>, interval: nat, cues: seq<Cue>, cueIndex: seq<nat>, cueTimestamps: seq<nat>)
  {
    && |cues| == |cueIndex| == |cueTimestamps|
    && (cues != [] ==>
          var n := |cues| - 1;
          && CuesOk(msgs, interval, cues[..n], cueIndex[..n], cueTimestamps[..n])
          && cueIndex[n] == Stored32(cues[n].at)
          && CueOk42(msgs, cues[n], cueTimestamps[n])
          && cues[n].at >= LastCue(cues[..n]) + interval)
  }

  lemma {:induction false} CuesKept(msgs: seq<Message42>, m: Message42, interval: nat, cues: seq<Cue>, cueIndex: seq<nat>, cueTimestamps: seq<nat>)
    requires CuesOk(msgs, interval, cues, cueIndex, cueTimestamps)
    ensures CuesOk(msgs + [m], interval, cues, cueIndex, cueTimestamps)
  {
    hide EventCount, ToUint64;
    if cues != [] {
      var n := |cues| - 1;
      CuesKept(msgs, m, interval, cues[..n], cueIndex[..n], cueTimestamps[..n]);
      assert (msgs + [m])[..cues[n].message + 1] == msgs[..cues[n].message + 1];
    }
  }

  /** Every cue is right, and any later one is at least as many intervals away as there are cues between. */
  lemma {:induction false} CueAt(msgs: seq<Message42>, interval: nat, cues: seq<Cue>, cueIndex: seq<nat>, cueTimestamps: seq<nat>, i: nat, j: nat)
    requires CuesOk(msgs, interval, cues, cueIndex, cueTimestamps) && i <= j < |cues|
    ensures cueIndex[i] == Stored32(cues[i].at) && CueOk42(msgs, cues[i], cueTimestamps[i])
    ensures cues[i].at + (j - i) * interval <= cues[j].at
  {
    hide CueOk42, Stored32;
    var n := |cues| - 1;
    if j < n {
      CueAt(msgs, interval, cues[..n], cueIndex[..n], cueTimestamps[..n], i, j);
    } else if i < j {
      CueAt(msgs, interval, cues[..n], cueIndex[..n], cueTimestamps[..n], i, j - 1);
      OneMore(j - 1 - i, interval);
    }
  }

  /** The time a cue gets: that of its message's last event; past the end of the offsets, whatever is read there. */
  predicate CueTime(m: Message42, t: nat)
    requires 0 < |m.ids|
  {
    |m.ids| <= |m.offsets| ==> t == ToUint64(m.pulseTime + m.offsets[|m.ids| - 1])
  }

  lemma LastMessageCue(all: seq<Message42>, at: nat, t: nat)
    requires all != [] && at + 1 == EventCount(all)
    requires var m := all[|all| - 1]; 0 < |m.ids| && CueTime(m, t)
    ensures CueOk42(all, Cue(|all| - 1, at), t)
  {
    hide EventCount, ToUint64;
    assert all[..|all|] == all;
  }

  lemma NewCueOk(msgs: seq<Message42>, m: Message42, t: nat)
    requires 0 < |m.ids| && CueTime(m, t)
    ensures CueOk42(msgs + [m], Cue(|msgs|, EventCount(msgs) + |m.ids| - 1), t)
  {
    hide EventCount, ToUint64, CueOk42, CueTime;
    EventCountNext(msgs, m);
    LastMessageCue(msgs + [m], EventCount(msgs) + |m.ids| - 1, t);
  }

  lemma CueAdded(msgs: seq<Message42>, m: Message42, t: nat, interval: nat, cues: seq<Cue>, cueIndex: seq<nat>, cueTimestamps: seq<nat>)
    requires CuesOk(msgs, interval, cues, cueIndex, cueTimestamps)
    requires 0 < |m.ids| && CueTime(m, t) && EventCount(msgs) + |m.ids| > LastCue(cues) + interval
    ensures var at := EventCount(msgs) + |m.ids| - 1;
            CuesOk(msgs + [m], interval, cues + [Cue(|msgs|, at)], cueIndex + [Stored32(at)], cueTimestamps + [t])
  {
    hide EventCount, CueTime, CueOk42, Stored32, CuesOk;
    CuesKept(msgs, m, interval, cues, cueIndex, cueTimestamps);
    NewCueOk(msgs, m, t);
    OneMoreCue(msgs + [m], interval, cues, cueIndex, cueTimestamps, Cue(|msgs|, EventCount(msgs) + |m.ids| - 1), t);
  }

  lemma OneMoreCue(msgs: seq<Message42>, interval: nat, cues: seq<Cue>, cueIndex: seq<nat>, cueTimestamps: seq<nat>, cue: Cue, t: nat)
    requires CuesOk(msgs, interval, cues, cueIndex, cueTimestamps)
    requires CueOk42(msgs, cue, t) && cue.at >= LastCue(cues) + interval
    ensures CuesOk(msgs, interval, cues + [cue], cueIndex + [Stored32(cue.at)], cueTimestamps + [t])
  {
    hide CueOk42, Stored32;
    SameLengths(msgs, interval, cues, cueIndex, cueTimestamps);
    assert (cues + [cue])[..|cues|] == cues;
    assert (cueIndex + [Stored32(cue.at)])[..|cues|] == cueIndex;
    assert (cueTimestamps + [t])[..|cues|] == cueTimestamps;
  }

  lemma SameLengths(msgs: seq<Message42>, interval: nat, cues: seq<Cue>, cueIndex: seq<nat>, cueTimestamps: seq<nat>)
    requires CuesOk(msgs, interval, cues, cueIndex, cueTimestamps)
    ensures |cues| == |cueIndex| == |cueTimestamps|
  {
  }

  lemma EventCountNext(msgs: seq<Message42>, m: Message42)
    ensures EventCount(msgs + [m]) == EventCount(msgs) + |m.ids|
  {
    assert (msgs + [m])[..|msgs|] == msgs;
  }

  lemma EncodeNext(msgs: seq<Message42>, m: Message42)
    ensures var d := Encode(msgs);
            Encode(msgs + [m]) == EventData(d.timeZero + [m.pulseTime], d.index + [Stored32(EventCount(msgs))], d.ids + m.ids, d.offsets + m.offsets)
  {
    assert (msgs + [m])[..|msgs|] == msgs;
  }

  class Writer42 {
    const interval: nat
    var timeZero: seq<nat>
    var index: seq<nat>
    var ids: seq<nat>
    var offsets: seq<nat>
    var cueIndex: seq<nat>
    var cueTimestamps: seq<nat>
    var eventsWritten: nat
    var lastEventIndex: nat
    ghost var msgs: seq<Message42>
    ghost var cues: seq<Cue>

    ghost predicate Valid()
      reads this
    {
      && interval >= 1
      && EventData(timeZero, index, ids, offsets) == Encode(msgs)
      && eventsWritten == EventCount(msgs)
      && eventsWritten <= lastEventIndex + interval
      && lastEventIndex == LastCue(cues)
      && CuesOk(msgs, interval, cues, cueIndex, cueTimestamps)
    }

    constructor (interval: nat)
      requires interval >= 1
      ensures Valid() && msgs == [] && this.interval == interval
    {
      this.interval := interval;
      timeZero, index, ids, offsets, cueIndex, cueTimestamps := [], [], [], [], [], [];
      eventsWritten, lastEventIndex := 0, 0;
      msgs, cues := [], [];
    }

    /**
     The datasets always encode the messages; a cue is added exactly when one is due. With fewer
     offsets than ids a cue reads past the offsets; `beyond` is what it finds there.
     */
    method Write(m: Message42, beyond: nat)
      requires Valid()
      modifies this
      ensures Valid() && msgs == old(msgs) + [m]
      ensures var due := CueDue(interval, Counters(old(eventsWritten), old(lastEventIndex)), |m.ids|);
              cues == old(cues) + if due then [Cue(|old(msgs)|, eventsWritten - 1)] else []
    {
      hide Encode, EventCount, CuesOk;
      EventCountNext(msgs, m);
      EncodeNext(msgs, m);
      offsets := offsets + m.offsets;
      ids := ids + m.ids;
      timeZero := timeZero + [m.pulseTime];
      index := index + [Stored32(eventsWritten)];
      eventsWritten := eventsWritten + |m.ids|;
      if eventsWritten > lastEventIndex + interval {
        var lastOffset := if |m.ids| <= |m.offsets| then m.offsets[|m.ids| - 1] else beyond;
        var cueTime := ToUint64(m.pulseTime + lastOffset);
        CueAdded(msgs, m, cueTime, interval, cues, cueIndex, cueTimestamps);
        cueTimestamps := cueTimestamps + [cueTime];
        cueIndex := cueIndex + [Stored32(eventsWritten - 1)];
        lastEventIndex := eventsWritten - 1;
        cues := cues + [Cue(|msgs|, lastEventIndex)];
      } else {
        CuesKept(msgs, m, interval, cues, cueIndex, cueTimestamps);
      }
      msgs := msgs + [m];
    }
  }

  // ----- The cue times of ev44

  /** A message with several pulses: pulse `k` starts with event `pulseIndex[k]`. */
  datatype Message44 = Message44(pulseTimes: seq<int>, pulseIndex: seq<nat>, ids: seq<nat>, offsets: seq<int>)

  /** Pulses with increasing times, the first of which starts with the first event; the vectors match. */
  predicate WellFormed44(m: Message44)
  {
    && |m.pulseTimes| == |m.pulseIndex| > 0 && m.pulseIndex[0] == 0 && |m.ids| == |m.offsets| > 0
    && (forall i, j :: 0 <= i < j < |m.pulseTimes| ==> m.pulseTimes[i] < m.pulseTimes[j] && m.pulseIndex[i] <= m.pulseIndex[j])
  }

  /** Event `e` belongs to pulse `k`: the last one that starts with it or before it. */
  predicate BelongsTo(m: Message44, e: nat, k: nat)
  {
    && k < |m.pulseIndex| && m.pulseIndex[k] <= e
    && forall i :: k < i < |m.pulseIndex| ==> e < m.pulseIndex[i]
  }

  lemma {:induction false} SomePulse(m: Message44, e: nat, n: nat) returns (k: nat)
    requires WellFormed44(m) && 0 < n <= |m.pulseIndex| && forall i :: n <= i < |m.pulseIndex| ==> e < m.pulseIndex[i]
    ensures BelongsTo(m, e, k) && k < n
  {
    if m.pulseIndex[n - 1] <= e {
      k := n - 1;
    } else {
      k := SomePulse(m, e, n - 1);
    }
  }

  /** The time the writer records for a cue: the first pulse and the last offset. */
  function CueTime44(m: Message44): int
    requires WellFormed44(m)
  {
    m.pulseTimes[0] + m.offsets[|m.ids| - 1]
  }

  /** The time of an event: that of its own pulse and its offset. */
  ghost predicate EventTime44(m: Message44, e: nat, time: int)
    requires WellFormed44(m) && e < |m.offsets|
  {
    exists k: nat :: BelongsTo(m, e, k) && time == m.pulseTimes[k] + m.offsets[e]
  }

  /** The recorded time is that of the cued event exactly when no event belongs to a pulse after the first. */
  lemma CueTime44RightIff(m: Message44)
    requires WellFormed44(m)
    ensures EventTime44(m, |m.ids| - 1, CueTime44(m)) <==> |m.pulseIndex| == 1 || m.pulseIndex[1] >= |m.ids|
  {
    var last := |m.ids| - 1;
    var k := SomePulse(m, last, |m.pulseIndex|);
    if k == 0 {
      assert BelongsTo(m, last, 0);
    } else {
      assert m.pulseIndex[1] <= m.pulseIndex[k];
      forall i: nat | BelongsTo(m, last, i) ensures i == k {}
    }
  }

  /** Two pulses with an event each: the second event, at 106, gets a cue at 6. */
  lemma CueOfFirstPulse()
    ensures var m := Message44([0, 100], [0, 1], [1, 2], [5, 6]);
            WellFormed44(m) && CueTime44(m) == 6 && EventTime44(m, 1, 106) && !EventTime44(m, 1, 6)
  {
    var m := Message44([0, 100], [0, 1], [1, 2], [5, 6]);
    assert BelongsTo(m, 1, 1);
    CueTime44RightIff(m);
  }
}
