/**
 Deciding when to stop consuming a partition from the outcome of each Kafka poll.

 Times are nanosecond counts in a 64-bit signed clock whose largest value is `TIME_MAX`.
 */
module PartitionFilter {

  const TIME_MAX := 0x7FFF_FFFF_FFFF_FFFF

  datatype PollStatus = Message | Error | EndOfPartition | TimedOut

  datatype PartitionState = Default | AtEnd | Failing | Waiting

  /** A poll and the two clock readings taken while it was judged. */
  datatype Poll = Poll(status: PollStatus, first: int, second: int)

  /** Index of the first poll of the unbroken run of equal outcomes that ends the history. */
  function RunStart(history: seq<Poll>): (s: nat)
    requires history != []
    ensures s < |history|
  {
    var n := |history| - 1;
    if n == 0 || history[n - 1].status != history[n].status then n else RunStart(history[..n])
  }

  /** `RunStart` is the start of the longest such run. */
  lemma {:induction false} RunStartIsMaximal(history: seq<Poll>)
    requires history != []
    ensures var s := RunStart(history); var last := history[|history| - 1].status;
            && (forall i :: s <= i < |history| ==> history[i].status == last)
            && (s > 0 ==> history[s - 1].status != last)
  {
    var n := |history| - 1;
    if !(n == 0 || history[n - 1].status != history[n].status) {
      RunStartIsMaximal(history[..n]);
      var s := RunStart(history[..n]);
      forall i | s <= i < |history| ensures history[i].status == history[n].status {
        if i < n { assert history[..n][i] == history[i]; }
      }
    }
  }

  lemma RunContinues(history: seq<Poll>, p: Poll)
    ensures RunStart(history + [p]) ==
            if history != [] && history[|history| - 1].status == p.status then RunStart(history) else |history|
  {
    assert (history + [p])[..|history|] == history;
  }

  function StateOf(s: PollStatus): PartitionState
  {
    match s
    case Message => Default
    case EndOfPartition => AtEnd
    case TimedOut => Waiting
    case Error => Failing
  }

  /** The stop rule over a whole history of polls, without a forced stop. */
  ghost predicate ShouldStop(history: seq<Poll>, stopTime: int, leeway: int, limit: int)
    requires history != []
  {
    var last := history[|history| - 1];
    match last.status
    case Message => false
    case EndOfPartition => last.second > stopTime + leeway
    case TimedOut => last.second > stopTime + leeway
    case Error => last.second > history[RunStart(history)].first + limit
  }

  /** Clamps a stop time so that adding the leeway does not overflow. It never moves later, and with the leeway never before the stop time. */
  function Clamped(stop: int, leeway: int): (r: int)
    requires 0 <= stop <= TIME_MAX && 0 <= leeway <= TIME_MAX
    ensures r <= stop <= r + leeway <= TIME_MAX
    ensures stop + leeway < TIME_MAX ==> r == stop
  {
    if TIME_MAX - stop <= leeway then stop - leeway else stop
  }

  class Filter {
    var forceStop: bool
    var state: PartitionState
    var statusOccurrenceTime: int
    var stopTime: int
    const stopLeeway: int
    const timeLimit: int
    /** Every poll judged while no stop was forced. */
    ghost var history: seq<Poll>

    ghost predicate Valid()
      reads this
    {
      && 0 <= stopLeeway && 0 <= timeLimit && stopTime + stopLeeway <= TIME_MAX
      && (history == [] ==> state == Default)
      && (history != [] ==>
            var last := history[|history| - 1].status;
            && state == StateOf(last)
            && (last == Error || last == TimedOut ==> statusOccurrenceTime == history[RunStart(history)].first))
    }

    constructor (stop: int, leeway: int, limit: int)
      requires 0 <= stop <= TIME_MAX && 0 <= leeway <= TIME_MAX && 0 <= limit
      ensures Valid() && !forceStop && history == [] && stopTime == Clamped(stop, leeway)
      ensures stopLeeway == leeway && timeLimit == limit
    {
      forceStop, state, statusOccurrenceTime, history := false, Default, 0, [];
      stopLeeway, timeLimit := leeway, limit;
      stopTime := if TIME_MAX - stop <= leeway then stop - leeway else stop;
    }

    /** Unlike the constructor this does not clamp: a caller must leave room for the leeway. */
    method SetStopTime(stop: int)
      requires Valid() && stop + stopLeeway <= TIME_MAX
      modifies this`stopTime
      ensures Valid() && stopTime == stop
    {
      stopTime := stop;
    }

    method ForceStop()
      requires Valid()
      modifies this`forceStop
      ensures Valid() && forceStop
    {
      forceStop := true;
    }

    predicate HasExceededTimeLimit(now: int)
      reads this`statusOccurrenceTime
    {
      now > statusOccurrenceTime + timeLimit
    }

    method UpdateStatusOccurrenceTime(comparison: PartitionState, now: int)
      modifies this`state, this`statusOccurrenceTime
      ensures state == comparison
      ensures statusOccurrenceTime == if old(state) == comparison then old(statusOccurrenceTime) else now
    {
      if state != comparison {
        state := comparison;
        statusOccurrenceTime := now;
      }
    }

    /**
     Judges a poll. On an error the clock is read once for the start of a new run and again for
     the time limit; elsewhere only the second reading is used.
     */
    method ShouldStopPartition(status: PollStatus, first: int, second: int) returns (stop: bool)
      requires Valid()
      modifies this`state, this`statusOccurrenceTime, this`history
      ensures Valid()
      ensures forceStop ==> stop && unchanged(this)
      ensures !forceStop ==> history == old(history) + [Poll(status, first, second)]
      ensures !forceStop ==> (stop <==> ShouldStop(history, stopTime, stopLeeway, timeLimit))
      ensures !forceStop && status == Message ==> !stop
      ensures !forceStop && (status == EndOfPartition || status == TimedOut) ==> (stop <==> second - stopLeeway > stopTime)
      ensures !forceStop && status == Error ==> (stop <==> second - history[RunStart(history)].first > timeLimit)
    {
      if forceStop {
        return true;
      }
      hide RunStart;
      RunContinues(history, Poll(status, first, second));
      history := history + [Poll(status, first, second)];
      match status
      case Message =>
        state := Default;
        return false;
      case EndOfPartition =>
        state := AtEnd;
        return second > stopTime + stopLeeway;
      case TimedOut =>
        UpdateStatusOccurrenceTime(Waiting, first);
        return second > stopTime + stopLeeway;
      case Error =>
        UpdateStatusOccurrenceTime(Failing, first);
        return HasExceededTimeLimit(second);
    }

    /** A topic has timed out when the current run of timeouts outlasted the limit. */
    method HasTopicTimedOut(now: int) returns (r: bool)
      requires Valid()
      ensures r <==> history != [] && history[|history| - 1].status == TimedOut
                     && now > history[RunStart(history)].first + timeLimit
    {
      r := HasExceededTimeLimit(now) && state == Waiting;
    }
  }
}
