/**
 The life of a writing job: start and stop commands, the job being written, and the messages
 published about it.
 */
module JobLifecycle {
  import opened Common

  /** Identifies a job; `NotWriting` is the placeholder reported while there is none. */
  datatype JobId = NotWriting | Job(id: nat)

  datatype Published =
    | StartResponse(success: bool, job: nat, code: nat)
    | StopResponse(success: bool, job: nat, code: nat)
    | HasStopped(stopped: JobId, success: bool)

  // ----- Published messages bracket each job

  predicate Starts(p: Published)
  {
    p.StartResponse? && p.success
  }

  predicate Stops(p: Published)
  {
    p.HasStopped? && p.stopped.Job?
  }

  /** The job announced as started and not yet as stopped. */
  function OpenJob(log: seq<Published>): Option<nat>
  {
    if log == [] then None
    else
      var last := log[|log| - 1];
      if Starts(last) then Some(last.job)
      else if Stops(last) then None
      else OpenJob(log[..|log| - 1])
  }

  /** Jobs start only when none is open, and only the open job stops. */
  ghost predicate Bracketed(log: seq<Published>)
  {
    log != [] ==>
      var rest, last := log[..|log| - 1], log[|log| - 1];
      && Bracketed(rest)
      && (Starts(last) ==> OpenJob(rest) == None)
      && (Stops(last) ==> OpenJob(rest) == Some(last.stopped.id))
  }

  lemma BracketedNext(log: seq<Published>, p: Published)
    requires Bracketed(log)
    requires Starts(p) ==> OpenJob(log) == None
    requires Stops(p) ==> OpenJob(log) == Some(p.stopped.id)
    ensures Bracketed(log + [p])
    ensures OpenJob(log + [p]) == if Starts(p) then Some(p.job) else if Stops(p) then None else OpenJob(log)
  {
    assert (log + [p])[..|log|] == log;
  }

  lemma {:induction false} BracketedPrefix(log: seq<Published>, n: nat)
    requires Bracketed(log) && n <= |log|
    ensures Bracketed(log[..n])
  {
    if n < |log| {
      BracketedPrefix(log[..|log| - 1], n);
      assert log[..|log| - 1][..n] == log[..n];
    } else {
      assert log[..n] == log;
    }
  }

  /** After a start and before the next one: open until a single stop, which names the job. */
  lemma {:induction false} SinceStart(log: seq<Published>, i: nat, n: nat) returns (stop: Option<nat>)
    requires Bracketed(log) && i < n <= |log| && Starts(log[i])
    requires forall k :: i < k < n ==> !Starts(log[k])
    ensures OpenJob(log[..n]) == if stop.None? then Some(log[i].job) else None
    ensures stop.None? ==> forall k :: i < k < n ==> !Stops(log[k])
    ensures stop.Some? ==>
              && i < stop.value < n && Stops(log[stop.value]) && log[stop.value].stopped == Job(log[i].job)
              && forall k :: i < k < n && Stops(log[k]) ==> k == stop.value
  {
    var m := n - 1;
    BracketedPrefix(log, n);
    assert log[..n][..m] == log[..m] && log[..n][m] == log[m];
    if m == i {
      stop := None;
    } else {
      stop := SinceStart(log, i, m);
      if Stops(log[m]) {
        stop := Some(m);
      }
    }
  }

  /** Between two consecutive starts there is exactly one stopped message, and it is for the first job. */
  lemma StoppedExactlyOnce(log: seq<Published>, i: nat, k: nat)
    requires Bracketed(log) && i < k < |log| && Starts(log[i]) && Starts(log[k])
    requires forall m :: i < m < k ==> !Starts(log[m])
    ensures exists s :: i < s < k && Stops(log[s]) && log[s].stopped == Job(log[i].job)
                        && forall m :: i < m < k && Stops(log[m]) ==> m == s
  {
    var stop := SinceStart(log, i, k);
    BracketedPrefix(log, k + 1);
    assert log[..k + 1][..k] == log[..k] && log[..k + 1][k] == log[k];
    assert stop.Some?;
  }

  // ----- Stop times recorded for a job

  datatype StopKind = Given | Changed | Immediate

  /** A stop time taking effect for the current job, and when. */
  datatype StopRecord = StopRecord(kind: StopKind, at: int, value: int)

  /** A change is only accepted while the stop time in force is not past; stopping at once records time zero. */
  ghost predicate StopRule(stops: seq<StopRecord>)
  {
    && (forall i :: 0 < i < |stops| && stops[i].kind == Changed ==> stops[i - 1].value >= stops[i].at)
    && (forall i :: 0 < i < |stops| ==> stops[i].kind != Given && stops[i - 1].at <= stops[i].at)
    && (forall i :: 0 <= i < |stops| ==> stops[i].at > 0 && (stops[i].kind == Immediate ==> stops[i].value == 0))
  }

  /** Once the recorded stop time is past, only an immediate stop can still be recorded. */
  lemma {:induction false} PastStopTimeIsFinal(stops: seq<StopRecord>, i: nat, k: nat)
    requires StopRule(stops) && i + 1 <= k < |stops| && stops[i].value < stops[i + 1].at
    ensures forall m :: i < m <= k ==> stops[m].kind == Immediate
  {
    if k > i + 1 {
      PastStopTimeIsFinal(stops, i, k - 1);
      assert stops[k - 1].kind == Immediate;
    }
  }

  // ----- Commands

  datatype StartOutcome = Created | CreationFails | StatusTopicFails

  /** A start command as decoded; `outcome` is how creating the job would go, its status topic included if it has one. */
  datatype StartCommand = StartCommand(
    decodes: bool, forThisService: bool, job: nat, validId: bool, controlTopic: bool, stopTime: int, outcome: StartOutcome)

  /** The service a stop command names; it may name none. */
  datatype Addressee = Anyone | ThisService | AnotherService

  datatype StopCommand = StopCommand(
    decodes: bool, to: Addressee, job: nat, validCommandId: bool, stopTime: int)

  datatype Command = Start(start: StartCommand) | Stop(stop: StopCommand) | Unrelated

  /** Only a command with a control topic sets up a status topic that could fail. */
  function OutcomeOf(c: StartCommand): StartOutcome
  {
    if c.outcome == StatusTopicFails && !c.controlTopic then Created else c.outcome
  }

  /** The first failed check of a start command and its status code; code 0 sends no response. */
  function StartFault(c: StartCommand, fromPool: bool, writing: bool): Option<nat>
  {
    if !c.decodes then Some(0)
    else if fromPool != !c.forThisService then Some(0)
    else if writing then Some(400)
    else if !c.validId then Some(400)
    else if c.controlTopic && !fromPool then Some(400)
    else if OutcomeOf(c) != Created then Some(500)
    else None
  }

  /**
   The same for a stop command. Whether to answer a command that finds no job, or another one,
   is decided from the command before it has been decoded, so these are never answered.
   */
  function StopFault(c: StopCommand, current: JobId, writing: bool, now: int, stopTime: int): Option<nat>
  {
    if !c.decodes then Some(0)
    else if c.to == AnotherService then Some(0)
    else if !writing then Some(0)
    else if current != Job(c.job) then Some(0)
    else if !c.validCommandId then Some(400)
    else if c.stopTime != 0 && stopTime < now then Some(500)
    else None
  }

  /** What was meant: a command that names this service is told when it finds no job, or another one. */
  function MeantStopFault(c: StopCommand, current: JobId, writing: bool, now: int, stopTime: int): Option<nat>
  {
    if !c.decodes then Some(0)
    else if c.to == AnotherService then Some(0)
    else if !writing || current != Job(c.job) then Some(if c.to == ThisService then 400 else 0)
    else if !c.validCommandId then Some(400)
    else if c.stopTime != 0 && stopTime < now then Some(500)
    else None
  }

  /** The answer is the one that was meant except to a command that names this service and does not find its job. */
  lemma AnswerAsMeantIff(c: StopCommand, current: JobId, writing: bool, now: int, stopTime: int)
    ensures StopFault(c, current, writing, now, stopTime) == MeantStopFault(c, current, writing, now, stopTime)
       <==> !(c.decodes && c.to == ThisService && (!writing || current != Job(c.job)))
  {
  }

  /** The part of a stream controller that decides when writing is done. */
  datatype Controller = Controller(stopNow: bool, stopTimestamp: int)

  /** What the streams report at one moment. */
  datatype Streams = Streams(hasError: bool, remaining: bool)

  predicate IsDoneWriting(c: Controller, s: Streams, now: int)
  {
    s.hasError || c.stopNow || (!s.remaining && c.stopTimestamp != 0 && now > c.stopTimestamp)
  }

  class Master {
    var writing: bool
    var jobId: JobId
    var stopTime: int
    var controller: Option<Controller>
    var now: int
    /** Everything published, and the stop times recorded for the current job. */
    ghost var log: seq<Published>
    ghost var stops: seq<StopRecord>
    /** A job was created whose status topic then failed: it is being written without being a job. */
    ghost var orphan: bool

    ghost predicate Valid()
      reads this
    {
      && now > 0
      && Bracketed(log)
      && (writing <==> jobId.Job?)
      && OpenJob(log) == (if jobId.Job? then Some(jobId.id) else None)
      && (writing ==> controller.Some?)
      && (!writing ==> (controller.Some? <==> orphan))
      && (writing ==> stops != [] && stops[|stops| - 1].value == stopTime && stops[|stops| - 1].at <= now)
      && StopRule(stops)
      && (writing ==> StoppedAsRecorded(controller.value))
    }

    /** The controller stops as recorded: at once, or at the stop time in force. */
    ghost predicate StoppedAsRecorded(c: Controller)
      reads this`stops, this`stopTime
      requires stops != []
    {
      && (c.stopNow <==> stops[|stops| - 1].kind == Immediate)
      && (!c.stopNow ==> c.stopTimestamp == stopTime)
    }

    constructor (now: int)
      requires now > 0
      ensures Valid() && !writing && log == [] && controller == None
    {
      writing, jobId, stopTime, controller := false, NotWriting, 0, None;
      this.now := now;
      log, stops, orphan := [], [], false;
    }

    method ReadClock() returns (t: int)
      requires Valid()
      modifies this`now
      ensures Valid() && t == now >= old(now)
    {
      t :| t >= now;
      now := t;
    }

    ghost method Publish(p: Published)
      requires Bracketed(log)
      requires Starts(p) ==> OpenJob(log) == None
      requires Stops(p) ==> OpenJob(log) == Some(p.stopped.id)
      modifies this`log
      ensures Bracketed(log) && log == old(log) + [p]
      ensures OpenJob(log) == if Starts(p) then Some(p.job) else if Stops(p) then None else OpenJob(old(log))
    {
      BracketedNext(log, p);
      log := log + [p];
    }

    /** Handles a start command. Nothing starts while a job is being written, without a valid id, or for another service. */
    method HandleStartCommand(c: StartCommand, fromPool: bool)
      requires Valid()
      modifies this
      ensures Valid() && now >= old(now)
      ensures var fault := StartFault(c, fromPool, old(writing));
              && log == old(log) + (if fault.None? then [StartResponse(true, c.job, 201)]
                                    else if fault.value != 0 then [StartResponse(false, c.job, fault.value)] else [])
              && (fault.None? ==> !old(writing) && writing && jobId == Job(c.job) && stopTime == c.stopTime
                                  && controller == Some(Controller(false, c.stopTime)))
              && (fault.Some? ==> writing == old(writing) && jobId == old(jobId) && stopTime == old(stopTime) && stops == old(stops)
                                  && orphan == (old(orphan) || (fault.value == 500 && OutcomeOf(c) == StatusTopicFails)))
      ensures !c.decodes || (c.forThisService <==> fromPool) ==> unchanged(this)
      ensures writing && !old(writing) <==> !old(writing) && Startable(c, fromPool)
      ensures !(writing && !old(writing)) ==>
                && writing == old(writing) && jobId == old(jobId) && stopTime == old(stopTime) && stops == old(stops)
                && forall i :: |old(log)| <= i < |log| ==> !Starts(log[i])
      ensures c.decodes && (c.forThisService <==> !fromPool) ==> |log| == |old(log)| + 1 && log[|old(log)|].StartResponse?
      ensures old(writing) || !c.validId ==> controller == old(controller)
      ensures forall i :: |old(log)| <= i < |log| ==>
                log[i].code == (if writing && !old(writing) then 201
                                else if old(writing) || !c.validId || (c.controlTopic && !fromPool) then 400
                                else 500)
    {
      hide Bracketed, OpenJob, StopRule;
      if !c.decodes || fromPool != !c.forThisService {
        return;
      }
      if writing || !c.validId || (c.controlTopic && !fromPool) {
        Publish(StartResponse(false, c.job, 400));
        return;
      }
      var started := StartWriting(c);
      Publish(StartResponse(started, c.job, if started then 201 else 500));
    }

    /**
     Creates the job. When the alternative status topic cannot be set up the new controller is
     kept although the start has failed.
     */
    method StartWriting(c: StartCommand) returns (ok: bool)
      requires Valid()
      modifies this
      ensures log == old(log) && now >= old(now) > 0
      ensures ok <==> !old(writing) && OutcomeOf(c) == Created
      ensures ok ==> writing && jobId == Job(c.job) && stopTime == c.stopTime && controller == Some(Controller(false, c.stopTime))
                     && !orphan && stops == [StopRecord(Given, now, c.stopTime)] && StopRule(stops)
      ensures !ok ==> Valid() && writing == old(writing) && jobId == old(jobId) && stopTime == old(stopTime) && stops == old(stops)
                      && orphan == (old(orphan) || (!writing && OutcomeOf(c) == StatusTopicFails))
    {
      if writing {
        return false;
      }
      if c.outcome == CreationFails {
        return false;
      }
      controller := Some(Controller(false, c.stopTime));
      if c.controlTopic && c.outcome == StatusTopicFails {
        orphan := true;
        return false;
      }
      writing, jobId, stopTime := true, Job(c.job), c.stopTime;
      orphan, stops := false, [StopRecord(Given, now, c.stopTime)];
      return true;
    }

    method HandleStopCommand(c: StopCommand)
      requires Valid()
      modifies this
      ensures Valid() && now >= old(now)
      ensures writing == old(writing) && jobId == old(jobId)
      ensures var fault := StopFault(c, old(jobId), old(writing), now, old(stopTime));
              && log == old(log) + (if fault.None? then [StopResponse(true, c.job, 201)]
                                    else if fault.value != 0 then [StopResponse(false, c.job, fault.value)] else [])
              && stopTime == (if fault.None? then c.stopTime else old(stopTime))
              && stops == old(stops) + (if fault.None? then [StopRecord(if c.stopTime == 0 then Immediate else Changed, now, c.stopTime)]
                                        else [])
      ensures !c.decodes || c.to == AnotherService || !old(writing) || old(jobId) != Job(c.job) ==> unchanged(this)
      ensures stops != old(stops) <==>
                && c.decodes && c.to != AnotherService && old(writing) && old(jobId) == Job(c.job)
                && c.validCommandId && (c.stopTime == 0 || old(stopTime) >= now)
      ensures stops == old(stops) ==> controller == old(controller) && stopTime == old(stopTime)
      ensures forall i :: |old(log)| <= i < |log| ==>
                && log[i].StopResponse? && log[i].success == (stops != old(stops))
                && log[i].code == (if stops != old(stops) then 201 else if !c.validCommandId then 400 else 500)
      ensures c.decodes && c.to != AnotherService && old(writing) && old(jobId) == Job(c.job) ==> |log| == |old(log)| + 1
      ensures stops != old(stops) && c.stopTime == 0 ==> writing && controller.Some? && controller.value.stopNow
      ensures stops != old(stops) && c.stopTime != 0 ==>
                && writing && controller.Some? && controller.value.stopTimestamp == c.stopTime
                && controller.value.stopNow == old(controller).value.stopNow
    {
      hide Bracketed, OpenJob, StopRule;
      if !c.decodes || c.to == AnotherService || !writing || jobId != Job(c.job) {
        return;
      }
      if !c.validCommandId {
        Publish(StopResponse(false, c.job, 400));
        return;
      }
      var t := ReadClock();
      if c.stopTime == 0 {
        StopNow(t);
        Publish(StopResponse(true, c.job, 201));
      } else {
        var ok := SetStopTime(c.stopTime, t);
        Publish(StopResponse(ok, c.job, if ok then 201 else 500));
      }
    }

    method StopNow(t: int)
      requires Valid() && writing && t == now
      modifies this`controller, this`stopTime, this`stops
      ensures Valid() && stopTime == 0 && controller == Some(Controller(true, t))
      ensures stops == old(stops) + [StopRecord(Immediate, t, 0)]
    {
      hide Bracketed, OpenJob;
      controller := Some(Controller(true, t));
      stopTime := 0;
      stops := stops + [StopRecord(Immediate, t, 0)];
    }

    method SetStopTime(stop: int, t: int) returns (ok: bool)
      requires Valid() && writing && t == now && stop != 0
      modifies this`controller, this`stopTime, this`stops
      ensures Valid() && (ok <==> old(stopTime) >= t)
      ensures ok ==> stopTime == stop && controller == Some(Controller(old(controller).value.stopNow, stop))
                     && stops == old(stops) + [StopRecord(Changed, t, stop)]
      ensures !ok ==> stopTime == old(stopTime) && controller == old(controller) && stops == old(stops)
    {
      hide Bracketed, OpenJob;
      if stopTime < t {
        return false;
      }
      controller := Some(Controller(controller.value.stopNow, stop));
      stopTime := stop;
      stops := stops + [StopRecord(Changed, t, stop)];
      return true;
    }

    /** One round: an optional job from the pool, an optional command, and the end of the job if it is done. */
    method Run(pool: Option<Command>, command: Option<Command>, streams: Streams)
      requires Valid()
      modifies this
      ensures Valid() && now >= old(now)
      ensures old(log) <= log
      ensures controller.Some? ==> !streams.hasError && !controller.value.stopNow
                                   && (controller.value.stopTimestamp == 0 || now <= controller.value.stopTimestamp || streams.remaining)
      ensures pool.None? && command.None? && old(controller).Some? ==>
                (controller.None? <==>
                   || streams.hasError || old(controller).value.stopNow
                   || (!streams.remaining && old(controller).value.stopTimestamp != 0 && now > old(controller).value.stopTimestamp))
      ensures pool.None? && command.None? && controller.Some? ==>
                controller == old(controller) && writing == old(writing) && jobId == old(jobId) && stops == old(stops)
      ensures command.Some? && command.value.Stop? && EndsAtOnce(command.value.stop, old(writing), old(jobId)) ==>
                && !writing && controller.None?
                && log == old(log) + [StopResponse(true, command.value.stop.job, 201), HasStopped(old(jobId), !streams.hasError)]
      ensures pool.Some? && pool.value.Start? && command.None? && !old(writing) && Startable(pool.value.start, true) ==>
                var c := pool.value.start;
                if streams.hasError || (!streams.remaining && c.stopTime != 0 && now > c.stopTime) then !writing
                else writing && jobId == Job(c.job) && stopTime == c.stopTime
      ensures pool.None? && command.None? ==>
                && log == old(log) + if old(controller).Some? && controller.None? then [HasStopped(old(jobId), !streams.hasError)] else []
    {
      hide Valid, IsDoneWriting;
      if !writing && pool.Some? {
        HandleCommand(pool.value, true);
      }
      if command.Some? {
        HandleCommand(command.value, false);
      }
      EndIfDone(streams);
    }

    /** Ends the job if its controller is done: after an error, a stop at once, or past the stop time when no stream is left. */
    method EndIfDone(streams: Streams)
      requires Valid()
      modifies this
      ensures Valid() && now >= old(now)
      ensures controller.None? <==>
                || old(controller).None? || streams.hasError || old(controller).value.stopNow
                || (!streams.remaining && old(controller).value.stopTimestamp != 0 && now > old(controller).value.stopTimestamp)
      ensures controller == old(controller) ==>
                log == old(log) && writing == old(writing) && jobId == old(jobId) && stops == old(stops) && stopTime == old(stopTime)
      ensures controller != old(controller) ==> controller.None? && !writing && log == old(log) + [HasStopped(old(jobId), !streams.hasError)]
    {
      hide Bracketed, OpenJob, StopRule;
      var t := ReadClock();
      if controller.Some? && IsDoneWriting(controller.value, streams, t) {
        SetToIdle(streams.hasError);
      }
    }

    /**
     A start command that an idle service obeys: on the command topic it names the service and has
     no control topic, from the pool it does not name the service.
     */
    predicate Startable(c: StartCommand, fromPool: bool)
    {
      && c.decodes && (if fromPool then !c.forThisService else c.forThisService && !c.controlTopic)
      && c.validId && c.outcome != CreationFails && (c.controlTopic ==> c.outcome != StatusTopicFails)
    }

    /** A stop command for the job being written that asks to stop at once. */
    predicate EndsAtOnce(c: StopCommand, writing: bool, jobId: JobId)
    {
      c.decodes && c.to != AnotherService && writing && jobId == Job(c.job) && c.validCommandId && c.stopTime == 0
    }

    method HandleCommand(c: Command, fromPool: bool)
      requires Valid()
      modifies this
      ensures Valid() && now >= old(now) && old(log) <= log
      ensures c.Stop? && EndsAtOnce(c.stop, old(writing), old(jobId)) ==>
                && writing && jobId == old(jobId) && controller.Some? && controller.value.stopNow
                && log == old(log) + [StopResponse(true, c.stop.job, 201)]
      ensures c.Start? ==> (writing <==> old(writing) || Startable(c.start, fromPool))
      ensures c.Start? && writing && !old(writing) ==>
                jobId == Job(c.start.job) && controller == Some(Controller(false, c.start.stopTime)) && stopTime == c.start.stopTime
    {
      match c
      case Start(start) => HandleStartCommand(start, fromPool);
      case Stop(stop) => HandleStopCommand(stop);
      case Unrelated =>
    }

    /** Announces the end of the job, and forgets it. */
    method SetToIdle(hasError: bool)
      requires Valid() && controller.Some?
      modifies this
      ensures Valid() && !writing && controller == None && now == old(now)
      ensures log == old(log) + [HasStopped(old(jobId), !hasError)]
      ensures old(writing) ==> Stops(log[|log| - 1]) && log[|log| - 1].stopped == old(jobId)
      ensures !old(writing) ==> old(orphan) && log[|log| - 1].stopped == NotWriting
    {
      Publish(HasStopped(jobId, !hasError));
      controller := None;
      writing, jobId, stopTime := false, NotWriting, 0;
      orphan := false;
    }
  }

  /**
   A stopped message without a job: the start fails once its status topic cannot be set up, yet
   the job it created is still there, and the end of it is announced under the placeholder name.
   */
  method StoppedWithoutJob() returns (m: Master)
    ensures m.Valid() && m.log == [StartResponse(false, 7, 500), HasStopped(NotWriting, false)]
  {
    m := new Master(1);
    m.HandleStartCommand(StartCommand(true, false, 7, true, true, 5, StatusTopicFails), true);
    assert m.log == [StartResponse(false, 7, 500)];
    m.Run(None, None, Streams(true, false));
  }

  /** A stop command that names this service while it is idle, or busy with another job, is handled without a word. */
  method UnansweredStop(m: Master, c: StopCommand)
    requires m.Valid() && c.decodes && c.to == ThisService && (!m.writing || m.jobId != Job(c.job))
    modifies m
    ensures m.Valid() && m.log == old(m.log) && m.writing == old(m.writing) && m.jobId == old(m.jobId) && m.stopTime == old(m.stopTime)
    ensures MeantStopFault(c, old(m.jobId), old(m.writing), m.now, old(m.stopTime)) == Some(400)
  {
    m.HandleStopCommand(c);
  }
}
