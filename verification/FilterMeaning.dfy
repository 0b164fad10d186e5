/**
 What a filter transmits, by positions in what it received. The definitions here look at the whole
 stream at once and at timestamps in nanoseconds; the lemmas say that the specification the filter
 is proved against selects exactly these messages.
 */
module FilterMeaning {
  import opened Common
  import opened StreamMessage
  import SF = SourceFilter

  /** Message `k` has the timestamp of the valid message before it. */
  ghost predicate Repeats(events: seq<SF.Event>, k: nat)
    requires k < |events|
  {
    exists i: nat :: i < k && LastValid(events, i, k) && events[i].msg.timestamp == events[k].msg.timestamp
  }

  /** Message `i` is valid, and none between it and `k` is. */
  ghost predicate LastValid(events: seq<SF.Event>, i: nat, k: nat)
    requires i < k <= |events|
  {
    events[i].msg.valid && forall m :: i < m < k ==> !events[m].msg.valid
  }

  /** Message `k` is valid and not an unwanted repeat. */
  ghost predicate Wanted(repeats: bool, events: seq<SF.Event>, k: nat)
    requires k < |events|
  {
    events[k].msg.valid && (repeats || !Repeats(events, k))
  }

  /** Message `n` is the next one wanted after `k`. */
  ghost predicate Follows(repeats: bool, events: seq<SF.Event>, k: nat, n: nat)
    requires k < n < |events|
  {
    Wanted(repeats, events, n) && forall m :: k < m < n ==> !Wanted(repeats, events, m)
  }

  /**
   Message `k` goes out: it is wanted, and it has reached the start time, or the next one wanted
   has, or there is none and the stream was closed.
   */
  ghost predicate GoesOut(start: int, repeats: bool, events: seq<SF.Event>, closed: bool, k: nat)
    requires k < |events|
  {
    && Wanted(repeats, events, k)
    && (|| SF.Reaches(events[k].msg.timestamp, start)
        || (exists n: nat :: k < n < |events| && Follows(repeats, events, k, n) && SF.Reaches(events[n].msg.timestamp, start))
        || (closed && forall m :: k < m < |events| ==> !Wanted(repeats, events, m)))
  }

  // ----- Which messages are kept

  /** The latest valid message, if there is one. */
  lemma {:induction false} LastTimestampMeaning(events: seq<SF.Event>)
    ensures SF.LastTimestamp(events).None? <==> forall i :: 0 <= i < |events| ==> !events[i].msg.valid
    ensures forall i: nat :: i < |events| && LastValid(events, i, |events|) ==> SF.LastTimestamp(events) == Some(events[i].msg.timestamp)
    ensures SF.LastTimestamp(events).Some? ==> exists i: nat :: i < |events| && LastValid(events, i, |events|)
  {
    if events != [] {
      var n := |events| - 1;
      var rest := events[..n];
      if events[n].msg.valid {
        assert LastValid(events, n, n + 1);
      } else {
        LastTimestampMeaning(rest);
        if SF.LastTimestamp(rest).Some? {
          var i: nat :| i < n && LastValid(rest, i, n);
          assert LastValid(events, i, n + 1);
        }
        forall i: nat | i <= n && LastValid(events, i, n + 1) ensures i < n && LastValid(rest, i, n) {}
      }
    }
  }

  lemma RepeatsIff(events: seq<SF.Event>, k: nat)
    requires k < |events|
    ensures Repeats(events, k) <==> SF.LastTimestamp(events[..k]) == Some(events[k].msg.timestamp)
  {
    hide SF.LastTimestamp;
    var before := events[..k];
    LastTimestampMeaning(before);
    forall i: nat | i < k ensures LastValid(before, i, k) <==> LastValid(events, i, k) {}
  }

  /** `Kept` are the wanted messages, each once and in order. */
  lemma {:induction false} KeptMeaning(repeats: bool, events: seq<SF.Event>) returns (at: seq<nat>)
    ensures Increasing(at, |events|) && |at| == |SF.Kept(repeats, events)|
    ensures forall j :: 0 <= j < |at| ==> SF.Kept(repeats, events)[j] == events[at[j]]
    ensures forall k :: 0 <= k < |events| ==> (k in at <==> Wanted(repeats, events, k))
  {
    hide Repeats;
    at := [];
    if events != [] {
      var n := |events| - 1;
      var rest := events[..n];
      at := KeptMeaning(repeats, rest);
      RepeatsIff(events, n);
      forall k | 0 <= k < n ensures Wanted(repeats, rest, k) <==> Wanted(repeats, events, k) {
        RepeatsIff(events, k);
        RepeatsIff(rest, k);
        assert rest[..k] == events[..k];
      }
      if Wanted(repeats, events, n) {
        at := at + [n];
        assert at[|at| - 1] == n;
      }
    }
  }

  // ----- Which of them go out

  lemma {:induction false} ChosensMeaning(start: int, kept: seq<SF.Event>, closed: bool, n: nat) returns (js: seq<nat>)
    requires n <= |kept|
    ensures Increasing(js, n) && |js| == |SF.Chosens(start, kept, closed, n)|
    ensures forall i :: 0 <= i < |js| ==> SF.Chosens(start, kept, closed, n)[i] == kept[js[i]].msg
    ensures forall k :: 0 <= k < n ==> (k in js <==> SF.Chosen(start, kept, closed, k))
  {
    hide SF.Chosen;
    js := [];
    if n > 0 {
      js := ChosensMeaning(start, kept, closed, n - 1);
      if SF.Chosen(start, kept, closed, n - 1) {
        js := js + [n - 1];
        assert js[|js| - 1] == n - 1;
      }
    }
  }

  /** Between two neighbours of the kept messages none is wanted, and after the last one none. */
  lemma Neighbours(repeats: bool, events: seq<SF.Event>, at: seq<nat>, j: nat)
    requires Increasing(at, |events|) && j < |at|
    requires forall k :: 0 <= k < |events| ==> (k in at <==> Wanted(repeats, events, k))
    ensures j + 1 < |at| ==> at[j] < at[j + 1] && Follows(repeats, events, at[j], at[j + 1])
    ensures j + 1 == |at| ==> forall m :: at[j] < m < |events| ==> !Wanted(repeats, events, m)
  {
    hide Wanted;
    forall m | at[j] < m < (if j + 1 < |at| then at[j + 1] else |events|) ensures !Wanted(repeats, events, m) {
      forall i | 0 <= i < |at| ensures at[i] != m {}
    }
    if j + 1 < |at| {
      assert at[j + 1] in at;
    }
  }

  lemma ChosenIff(start: int, repeats: bool, events: seq<SF.Event>, closed: bool, kept: seq<SF.Event>, at: seq<nat>, j: nat)
    requires Increasing(at, |events|) && j < |at| == |kept| && forall i :: 0 <= i < |at| ==> kept[i] == events[at[i]]
    requires forall k :: 0 <= k < |events| ==> (k in at <==> Wanted(repeats, events, k))
    ensures SF.Chosen(start, kept, closed, j) <==> GoesOut(start, repeats, events, closed, at[j])
  {
    hide Wanted, SF.Reaches, SF.Micros;
    assert at[j] in at;
    Neighbours(repeats, events, at, j);
    SF.MicrosReach(kept[j].msg.timestamp, start);
    if j + 1 < |at| {
      SF.MicrosReach(kept[j + 1].msg.timestamp, start);
      forall n: nat | at[j] < n < |events| && Follows(repeats, events, at[j], n) ensures n == at[j + 1] {}
      assert Wanted(repeats, events, at[j + 1]);
    }
  }

  /**
   A filter transmits exactly the messages that go out, each once and in the order in which they
   were received.
   */
  lemma TransmissionMeaning(start: int, repeats: bool, events: seq<SF.Event>, closed: bool) returns (at: seq<nat>)
    ensures var sent := SF.Transmission(start, repeats, events, closed);
            && Increasing(at, |events|) && |at| == |sent|
            && (forall j :: 0 <= j < |at| ==> sent[j] == events[at[j]].msg)
            && (forall k :: 0 <= k < |events| ==> (k in at <==> GoesOut(start, repeats, events, closed, k)))
  {
    hide SF.Chosens, SF.Chosen, GoesOut, Wanted, SF.Kept;
    var kept := SF.Kept(repeats, events);
    var from := KeptMeaning(repeats, events);
    var js := ChosensMeaning(start, kept, closed, |kept|);
    at := seq(|js|, i requires 0 <= i < |js| => from[js[i]]);
    forall k | 0 <= k < |events| ensures k in at <==> GoesOut(start, repeats, events, closed, k) {
      if k in from {
        var j :| 0 <= j < |from| && from[j] == k;
        ChosenIff(start, repeats, events, closed, kept, from, j);
        if j in js {
          var i :| 0 <= i < |js| && js[i] == j;
          assert at[i] == k;
        }
      } else {
        NotWanted(start, repeats, events, closed, k);
      }
      if k in at {
        var i :| 0 <= i < |at| && at[i] == k;
        assert from[js[i]] == k && js[i] in js;
      }
    }
  }

  lemma NotWanted(start: int, repeats: bool, events: seq<SF.Event>, closed: bool, k: nat)
    requires k < |events| && !Wanted(repeats, events, k)
    ensures !GoesOut(start, repeats, events, closed, k)
  {
  }

  /** A source has ended when a wanted message had reached the start time and the time after the stop time it met. */
  lemma EndedMeaning(start: int, repeats: bool, events: seq<SF.Event>)
    ensures SF.Ended(start, repeats, events) <==>
            exists k :: 0 <= k < |events| && Wanted(repeats, events, k)
                        && SF.Reaches(events[k].msg.timestamp, start) && SF.Reaches(events[k].msg.timestamp, events[k].stop + 1)
  {
    hide Wanted, SF.Reaches, SF.Micros, SF.Kept;
    var kept := SF.Kept(repeats, events);
    var at := KeptMeaning(repeats, events);
    forall e: SF.Event
      ensures SF.Ends(start, e) <==> SF.Reaches(e.msg.timestamp, start) && SF.Reaches(e.msg.timestamp, e.stop + 1)
    {
      SF.MicrosReach(e.msg.timestamp, start);
      SF.MicrosReach(e.msg.timestamp, e.stop + 1);
    }
    if e :| e in kept && SF.Ends(start, e) {
      var j :| 0 <= j < |kept| && kept[j] == e;
      assert at[j] in at;
    }
    if k :| 0 <= k < |events| && Wanted(repeats, events, k)
            && SF.Reaches(events[k].msg.timestamp, start) && SF.Reaches(events[k].msg.timestamp, events[k].stop + 1) {
      var j :| 0 <= j < |at| && at[j] == k;
      assert kept[j] in kept;
    }
  }
}
