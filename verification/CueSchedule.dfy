/**
 The cues of the log writers (f142, f144) and of the area detector writers (ADAr, NDAr). The
 former derive the next cue by a division, the latter count up to the interval.
 */
module CueSchedule {
  import opened Grid

  /** The cue positions after `n` writes: every `interval`-th one. */
  function Schedule(interval: nat, n: nat): seq<nat>
    requires interval > 0
  {
    seq(n / interval, k requires 0 <= k < n / interval => (k + 1) * interval - 1)
  }

  lemma MultipleFits(interval: nat, n: nat, k: nat)
    requires interval > 0
    ensures k * interval <= n <==> k <= n / interval
  {
    var count := n / interval;
    WholePeriods(n, interval);
    if k <= count {
      NoMorePeriods(k, count, interval);
    } else {
      NoMorePeriods(count + 1, k, interval);
    }
  }

  lemma MultipleOf(interval: nat, m: nat)
    requires interval > 0 && m > 0
    ensures m % interval == 0 <==> exists k: nat :: k > 0 && Times(k, interval) == m
  {
    var q := m / interval;
    assert m == q * interval + m % interval;
    if m % interval == 0 {
      assert Times(q, interval) == m;
      if q == 0 { assert false; }
    }
    if k: nat :| k > 0 && Times(k, interval) == m {
      DivModUnique(k, 0, interval);
    }
  }

  function Times(k: nat, interval: nat): nat
  {
    k * interval
  }

  /** The write at a position is cued exactly when it completes an interval. */
  lemma CuedIff(interval: nat, n: nat, at: nat)
    requires interval > 0
    ensures at in Schedule(interval, n) <==> at < n && (at + 1) % interval == 0
  {
    MultipleOf(interval, at + 1);
    if k :| 0 <= k < |Schedule(interval, n)| && Schedule(interval, n)[k] == at {
      MultipleFits(interval, n, k + 1);
      assert Times(k + 1, interval) == at + 1;
    }
    if k: nat :| k > 0 && Times(k, interval) == at + 1 && at < n {
      MultipleFits(interval, n, k);
      assert Schedule(interval, n)[k - 1] == at;
    }
  }

  lemma NextQuotient(interval: nat, n: nat)
    requires interval > 0
    ensures if n % interval == interval - 1 then (n + 1) / interval == n / interval + 1 && (n + 1) % interval == 0
            else (n + 1) / interval == n / interval && (n + 1) % interval == n % interval + 1
    ensures n == n / interval * interval + n % interval
  {
    var q, r := n / interval, n % interval;
    assert n == q * interval + r;
    if r == interval - 1 {
      OneMore(q, interval);
      DivModUnique(q + 1, 0, interval);
    } else {
      DivModUnique(q, r + 1, interval);
    }
  }

  lemma ScheduleNext(interval: nat, n: nat)
    requires interval > 0
    ensures Schedule(interval, n + 1) == if n % interval == interval - 1 then Schedule(interval, n) + [n] else Schedule(interval, n)
  {
    NextQuotient(interval, n);
    if n % interval == interval - 1 {
      OneMore(n / interval, interval);
    }
  }

  /** How many of these messages were accepted. */
  function Accepted(known: seq<bool>): nat
  {
    if known == [] then 0 else Accepted(known[..|known| - 1]) + if known[|known| - 1] then 1 else 0
  }

  /** Every message was accepted exactly when their count says so. */
  lemma {:induction false} AllAcceptedIff(known: seq<bool>)
    ensures Accepted(known) <= |known|
    ensures Accepted(known) == |known| <==> forall i :: 0 <= i < |known| ==> known[i]
  {
    if known != [] {
      AllAcceptedIff(known[..|known| - 1]);
    }
  }

  /**
   Cue `k` was taken from entry `taken[k]` of the time array, an accepted message; its index counts
   the accepted messages before that one.
   */
  ghost predicate CuesMatch(times: seq<int>, known: seq<bool>, cueIndex: seq<nat>, cueTimes: seq<int>, taken: seq<nat>)
  {
    && |known| == |times| && |cueIndex| == |cueTimes| == |taken|
    && forall k :: 0 <= k < |taken| ==>
         taken[k] < |times| && known[taken[k]] && cueTimes[k] == times[taken[k]] && cueIndex[k] == Accepted(known[..taken[k]])
  }

  lemma CuesStillMatch(times: seq<int>, known: seq<bool>, time: int, ok: bool, cueIndex: seq<nat>, cueTimes: seq<int>, taken: seq<nat>)
    requires CuesMatch(times, known, cueIndex, cueTimes, taken)
    ensures CuesMatch(times + [time], known + [ok], cueIndex, cueTimes, taken)
    ensures ok ==> CuesMatch(times + [time], known + [ok], cueIndex + [Accepted(known)], cueTimes + [time], taken + [|times|])
  {
    hide Accepted;
    assert (known + [ok])[..|times|] == known;
    forall k | 0 <= k < |taken| ensures (known + [ok])[..taken[k]] == known[..taken[k]] {}
  }

  lemma AcceptedNext(known: seq<bool>, ok: bool)
    ensures Accepted(known + [ok]) == Accepted(known) + if ok then 1 else 0
  {
    assert (known + [ok])[..|known|] == known;
  }

  /** The division-based schedule of f142 and f144. */
  class LogWriter {
    const interval: nat
    var times: seq<int>
    var nrOfWrites: nat
    var lastIndexAtWrite: nat
    var cueIndex: seq<nat>
    var cueTimes: seq<int>
    /** For every message written, whether its value type was known; and the entries that cues were taken from. */
    ghost var known: seq<bool>
    ghost var taken: seq<nat>

    ghost predicate Valid()
      reads this
    {
      && interval > 0 && nrOfWrites == Accepted(known)
      && lastIndexAtWrite + nrOfWrites % interval == nrOfWrites
      && cueIndex == Schedule(interval, nrOfWrites)
      && CuesMatch(times, known, cueIndex, cueTimes, taken)
    }

    constructor (interval: nat)
      requires interval > 0
      ensures Valid() && this.interval == interval && nrOfWrites == 0 && known == [] && times == []
    {
      this.interval := interval;
      times, nrOfWrites, lastIndexAtWrite, cueIndex, cueTimes := [], 0, 0, [], [];
      known, taken := [], [];
      new;
      DivModUnique(0, 0, interval);
    }

    /** A message of unknown value type is rejected after its time was recorded. */
    method Write(time: int, knownType: bool) returns (ok: bool)
      requires Valid()
      modifies this
      ensures Valid() && ok == knownType && times == old(times) + [time] && known == old(known) + [ok]
      ensures nrOfWrites == old(nrOfWrites) + (if ok then 1 else 0)
      ensures taken == old(taken) + if ok && nrOfWrites % interval == 0 then [|old(times)|] else []
    {
      hide Schedule, CuesMatch, Accepted;
      ghost var n := nrOfWrites;
      CuesStillMatch(times, known, time, knownType, cueIndex, cueTimes, taken);
      AcceptedNext(known, knownType);
      times := times + [time];
      known := known + [knownType];
      if !knownType {
        return false;
      }
      NextQuotient(interval, n);
      ScheduleNext(interval, n);
      nrOfWrites := nrOfWrites + 1;
      SmallQuotient(nrOfWrites - lastIndexAtWrite, interval);
      if (nrOfWrites - lastIndexAtWrite) / interval > 0 {
        lastIndexAtWrite := nrOfWrites;
        cueIndex := cueIndex + [nrOfWrites - 1];
        cueTimes := cueTimes + [time];
        taken := taken + [|times| - 1];
      }
      return true;
    }

    /** A cue points at the entry it was taken from exactly when no message before that one was rejected. */
    lemma CuePointsAtItsTimeIff(k: nat)
      requires Valid() && k < |taken|
      ensures k < |cueIndex| == |cueTimes| && |known| == |times| && cueIndex[k] <= taken[k] < |times|
      ensures cueTimes[k] == times[taken[k]]
      ensures cueIndex[k] == taken[k] <==> forall i :: 0 <= i < taken[k] ==> known[i]
    {
      hide Schedule;
      AllAcceptedIff(known[..taken[k]]);
      assert forall i :: 0 <= i < taken[k] ==> known[..taken[k]][i] == known[i];
    }
  }

  lemma SmallQuotient(d: nat, interval: nat)
    requires interval > 0 && d <= interval
    ensures d / interval > 0 <==> d == interval
  {
    if d < interval {
      DivModUnique(0, d, interval);
    } else {
      DivModUnique(1, 0, interval);
    }
  }

  /** After a rejected message the cue no longer points at its time. */
  method MisplacedCue() returns (w: LogWriter)
    ensures w.Valid() && w.times == [5, 7] && w.cueIndex == [0] && w.cueTimes == [7]
  {
    w := new LogWriter(1);
    var _ := w.Write(5, false);
    var _ := w.Write(7, true);
    assert w.times == [5, 7];
    DivModUnique(1, 0, 1);
    assert w.cueIndex == [0];
    assert w.taken == [1];
  }

  /** The counter-based schedule of ADAr and NDAr; here the time is recorded last. */
  class AreaWriter {
    const interval: nat
    var times: seq<int>
    var cueCounter: nat
    var cueIndex: seq<nat>
    var cueTimes: seq<int>

    ghost predicate Valid()
      reads this
    {
      && interval > 0 && cueCounter == |times| % interval
      && cueIndex == Schedule(interval, |times|) && |cueTimes| == |cueIndex|
      && forall k :: 0 <= k < |cueIndex| ==> cueIndex[k] < |times| && cueTimes[k] == times[cueIndex[k]]
    }

    constructor (interval: nat)
      requires interval > 0
      ensures Valid() && this.interval == interval && times == []
    {
      this.interval := interval;
      times, cueCounter, cueIndex, cueTimes := [], 0, [], [];
      new;
      DivModUnique(0, 0, interval);
    }

    method Write(time: int, knownType: bool) returns (ok: bool)
      requires Valid()
      modifies this
      ensures Valid() && ok == knownType && times == old(times) + (if ok then [time] else [])
    {
      if !knownType {
        return false;
      }
      NextQuotient(interval, |times|);
      ScheduleNext(interval, |times|);
      hide Schedule;
      times := times + [time];
      cueCounter := cueCounter + 1;
      if cueCounter == interval {
        cueIndex := cueIndex + [|times| - 1];
        cueTimes := cueTimes + [time];
        cueCounter := 0;
      }
      return true;
    }
  }

  /** Given the same times and no rejected message, both kinds of writer record the same cues. */
  lemma SchedulesAgree(log: LogWriter, area: AreaWriter)
    requires log.Valid() && area.Valid() && log.interval == area.interval && log.times == area.times
    requires forall i :: 0 <= i < |log.known| ==> log.known[i]
    ensures log.cueIndex == area.cueIndex && log.cueTimes == area.cueTimes
  {
    AllAcceptedIff(log.known);
    forall k | 0 <= k < |log.cueIndex| ensures log.cueTimes[k] == area.cueTimes[k] {
      log.CuePointsAtItsTimeIff(k);
    }
  }
}
