/** When a partition finishes: over whole runs, never before its stop time and the leeway are past. */
module PartitionRuns {
  import opened Common
  import opened SourceFilter
  import opened Partition
  import MessageWriter
  import PF = PartitionFilter

  /** The stop time in force and those still to be applied leave room, with the leeway, up to this time. */
  ghost predicate LastsUntil(p: Partition, bound: int)
    reads p
  {
    && p.stopTime + p.stopTimeLeeway >= bound
    && forall t :: SetStop(t) in p.high || SetStop(t) in p.low ==> t + p.stopTimeLeeway >= bound
  }

  /** Up to this time: clock readings and message times, and no request for an earlier stop. */
  predicate UpTo(leeway: int, bound: int, s: Step)
  {
    match s
    case Round(env) => env.second <= bound && env.raw.timestamp <= bound
    case AskStopTime(t) => t + leeway >= bound
    case AskStop => true
    case AskExit => true
    case WriterStep(_) => true
    case OthersAdd(_, _) => true
  }

  /** The last poll failed, and polls have failed without a break for longer than the limit. */
  ghost predicate FailedTooLong(f: PF.Filter)
    reads f
  {
    && f.history != []
    && var last := f.history[|f.history| - 1];
       last.status == PF.Error && last.second > f.history[PF.RunStart(f.history)].first + f.timeLimit
  }

  /** Reasons to finish that have nothing to do with the time: a forced stop, no source left, or errors. */
  ghost predicate OtherReason(p: Partition)
    reads p, p.stopTester
  {
    p.stopTester.forceStop || p.filters == [] || FailedTooLong(p.stopTester)
  }

  /** The stop rule, up to a time that the stop time and the leeway leave room for. */
  lemma OnlyErrorsStop(history: seq<PF.Poll>, stopTime: int, leeway: int, limit: int, bound: int)
    requires history != [] && history[|history| - 1].second <= bound <= stopTime + leeway
    ensures PF.ShouldStop(history, stopTime, leeway, limit) ==>
              history[|history| - 1].status == PF.Error
              && history[|history| - 1].second > history[PF.RunStart(history)].first + limit
  {
  }

  /** One round of the executor. */
  method RoundUpTo(p: Partition, env: Surroundings, bound: int)
    requires p.Valid() && Decodes(env.raw) && LastsUntil(p, bound) && UpTo(p.stopTimeLeeway, bound, Round(env))
    requires p.hasFinished ==> OtherReason(p)
    modifies p, p.objects, p.stopTester, p.writer`queues, p.writer`enqueued, p.writer`enqueuedCount
    ensures p.Valid() && LastsUntil(p, bound) && p.started == old(p.started)
    ensures p.hasFinished ==> OtherReason(p)
  {
    hide Partition.FiltersOk, PF.ShouldStop, PF.Filter.Valid, Decodes;
    p.SeparateObjects();
    p.OnePollOutstanding();
    var ran := p.RunNext(env);
    if ran == Some(Poll) && !old(p.stopTester.forceStop) && !env.paused {
      OnlyErrorsStop(p.stopTester.history, p.stopTime, p.stopTimeLeeway, p.stopTester.timeLimit, bound);
    }
  }

  /**
   A round that polls: an end of the partition or a timeout finishes it once the stop time and the
   leeway are past by the clock, a message once they are past by its own time or no source is left,
   an error once the unbroken run of errors has outlasted the limit.
   */
  method PollRound(p: Partition, env: Surroundings) returns (ran: Option<Task>)
    requires p.Valid() && Decodes(env.raw)
    modifies p, p.objects, p.stopTester, p.writer`queues, p.writer`enqueued, p.writer`enqueuedCount
    ensures p.Valid()
    ensures ran == Some(Poll) && !old(p.stopTester.forceStop) && !env.paused ==>
              match env.status
              case EndOfPartition => p.hasFinished <==> env.second - p.stopTimeLeeway > p.stopTime
              case TimedOut => p.hasFinished <==> env.second - p.stopTimeLeeway > p.stopTime
              case Message => p.hasFinished <==> p.filters == [] || env.raw.timestamp - p.stopTimeLeeway > p.stopTime
              case Error => p.hasFinished <==> FailedTooLong(p.stopTester)
  {
    hide Partition.Valid, PF.Filter.Valid, Decodes;
    p.SeparateObjects();
    ran := p.RunNext(env);
  }

  /**
   Over any run up to a time that the stop times leave room for, a partition finishes only by a
   forced stop, because no source is left, or by errors: never by an end of the partition, a
   timeout, or the time of a message.
   */
  method RunUpTo(p: Partition, steps: seq<Step>, bound: int)
    requires p.Valid() && LastsUntil(p, bound) && (p.hasFinished ==> OtherReason(p))
    requires forall s :: s in steps ==> p.Possible(s) && UpTo(p.stopTimeLeeway, bound, s)
    modifies p, p.objects, p.stopTester, p.writer
    ensures p.Valid() && LastsUntil(p, bound) && p.started == old(p.started)
    ensures p.hasFinished ==> OtherReason(p)
  {
    hide Partition.Valid, FailedTooLong;
    p.SeparateObjects();
    for i := 0 to |steps|
      modifies p, p.objects, p.stopTester, p.writer
      invariant p.Valid() && LastsUntil(p, bound) && p.started == old(p.started)
      invariant p.hasFinished ==> OtherReason(p)
    {
      assert steps[i] in steps;
      match steps[i]
      case Round(env) => RoundUpTo(p, env, bound);
      case AskStop => p.RequestStop();
      case AskStopTime(t) => p.RequestStopTime(t);
      case AskExit => p.RequestExit();
      case WriterStep(from) => p.WriteStep(from);
      case OthersAdd(from, job) => p.AddForOther(from, job);
    }
  }

  /**
   A partition without a stop time, that is with the largest there is: whatever the leeway, no run
   in which it gets no other one finishes it by time.
   */
  method RunWithoutStopTime(all: seq<(nat, Filter)>, writer: MessageWriter.Writer, producer: nat, leeway: int, errorTimeout: int,
                            steps: seq<Step>)
    returns (p: Partition)
    requires 0 <= leeway <= PF.TIME_MAX && 0 <= errorTimeout
    requires writer.Valid() && MessageWriter.QueueOf(writer.enqueued, producer) == []
    requires forall i, j :: 0 <= i < j < |all| ==> all[i].1 != all[j].1
    requires forall i :: 0 <= i < |all| ==> Unused(all[i].1, PF.TIME_MAX, writer, producer)
    requires forall s :: s in steps ==> match s
                                        case Round(env) => Decodes(env.raw) && env.second <= PF.TIME_MAX && env.raw.timestamp <= PF.TIME_MAX
                                        case AskStopTime(_) => false
                                        case OthersAdd(from, _) => from != producer
                                        case AskStop => true
                                        case AskExit => true
                                        case WriterStep(_) => true
    modifies writer, FiltersOf(all)
    ensures p.Valid() && p.all == all && p.started
    ensures p.hasFinished ==> OtherReason(p)
  {
    hide Partition.Valid, FiltersOf, Unused, MessageWriter.Writer.Valid, MessageWriter.QueueOf, OtherReason;
    p := new Partition(all, writer, producer, PF.TIME_MAX, leeway, errorTimeout);
    p.Start();
    RunUpTo(p, steps, PF.TIME_MAX);
  }
}
