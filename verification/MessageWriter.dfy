/**
 The writer thread: a concurrent job queue, the drain loop and the flush schedule.

 The queue is first-in first-out per producer only, so it is kept as one queue per producer and
 a dequeue takes the head of any of them. Producers act through `AddMessage` between any two
 steps of the writer thread; the state is valid after every step, so what `Valid` says holds
 in every interleaving.
 */
module MessageWriter {
  import opened Grid
  import opened StreamMessage

  type Queues = map<nat, seq<Job>>

  function QueueOf(q: Queues, p: nat): seq<Job>
  {
    if p in q then q[p] else []
  }

  /** What each producer enqueued was executed in order, and the rest is still queued. */
  ghost predicate Balanced(enqueued: Queues, executed: Queues, queues: Queues)
  {
    forall p :: QueueOf(enqueued, p) == QueueOf(executed, p) + QueueOf(queues, p)
  }

  lemma BalancedAfterAdd(enqueued: Queues, executed: Queues, queues: Queues, p: nat, job: Job)
    requires Balanced(enqueued, executed, queues)
    ensures Balanced(enqueued[p := QueueOf(enqueued, p) + [job]], executed, queues[p := QueueOf(queues, p) + [job]])
  {
    var e, q := QueueOf(enqueued, p), QueueOf(queues, p);
    assert QueueOf(executed, p) + (q + [job]) == e + [job];
    BalancedElsewhere(enqueued, executed, queues, enqueued[p := e + [job]], executed, queues[p := q + [job]], p);
  }

  lemma BalancedAfterTake(enqueued: Queues, executed: Queues, queues: Queues, p: nat)
    requires Balanced(enqueued, executed, queues) && QueueOf(queues, p) != []
    ensures var q := QueueOf(queues, p);
            Balanced(enqueued, executed[p := QueueOf(executed, p) + [q[0]]], queues[p := q[1..]])
  {
    var x, q := QueueOf(executed, p), QueueOf(queues, p);
    assert x + q == (x + [q[0]]) + q[1..];
    BalancedElsewhere(enqueued, executed, queues, enqueued, executed[p := x + [q[0]]], queues[p := q[1..]], p);
  }

  /** Balance is kept when it holds for the one producer whose queues changed. */
  lemma BalancedElsewhere(enqueued: Queues, executed: Queues, queues: Queues, enqueued': Queues, executed': Queues, queues': Queues, p: nat)
    requires Balanced(enqueued, executed, queues)
    requires QueueOf(enqueued', p) == QueueOf(executed', p) + QueueOf(queues', p)
    requires forall r :: r != p ==> QueueOf(enqueued', r) == QueueOf(enqueued, r)
                                    && QueueOf(executed', r) == QueueOf(executed, r) && QueueOf(queues', r) == QueueOf(queues, r)
    ensures Balanced(enqueued', executed', queues')
  {
    hide QueueOf;
  }

  ghost function Total(q: Queues): nat
  {
    TotalOver(q, q.Keys)
  }

  ghost function TotalOver(q: Queues, keys: set<nat>): nat
    requires keys <= q.Keys
    decreases keys
  {
    if keys == {} then 0
    else
      var p :| p in keys;
      |q[p]| + TotalOver(q, keys - {p})
  }

  lemma {:induction false} TotalOverPicks(q: Queues, keys: set<nat>, p: nat)
    requires keys <= q.Keys && p in keys
    ensures TotalOver(q, keys) == |q[p]| + TotalOver(q, keys - {p})
    decreases keys
  {
    var x :| x in keys && TotalOver(q, keys) == |q[x]| + TotalOver(q, keys - {x});
    if x != p {
      TotalOverPicks(q, keys - {x}, p);
      TotalOverPicks(q, keys - {p}, x);
      assert keys - {x} - {p} == keys - {p} - {x};
    }
  }

  lemma {:induction false} TotalOverSame(q: Queues, q': Queues, keys: set<nat>)
    requires keys <= q.Keys && keys <= q'.Keys && forall p :: p in keys ==> q[p] == q'[p]
    ensures TotalOver(q, keys) == TotalOver(q', keys)
    decreases keys
  {
    if keys != {} {
      var p :| p in keys;
      TotalOverPicks(q, keys, p);
      TotalOverPicks(q', keys, p);
      TotalOverSame(q, q', keys - {p});
    }
  }

  /** Replacing one producer's queue changes the total by the change of its length. */
  lemma TotalUpdate(q: Queues, p: nat, jobs: seq<Job>)
    ensures Total(q[p := jobs]) == Total(q) - |QueueOf(q, p)| + |jobs|
  {
    var q' := q[p := jobs];
    TotalOverPicks(q', q'.Keys, p);
    if p in q {
      TotalOverPicks(q, q.Keys, p);
    }
    assert q'.Keys - {p} == q.Keys - {p};
    TotalOverSame(q, q', q.Keys - {p});
    if p !in q {
      assert q.Keys - {p} == q.Keys;
    }
  }

  lemma {:induction false} NoneLeft(q: Queues, keys: set<nat>)
    requires keys <= q.Keys && forall p :: p in keys ==> q[p] == []
    ensures TotalOver(q, keys) == 0
    decreases keys
  {
    if keys != {} {
      var p :| p in keys;
      TotalOverPicks(q, keys, p);
      NoneLeft(q, keys - {p});
    }
  }

  // ----- Jobs added by several producers

  /** The jobs of one producer, in order. */
  function From(jobs: seq<(nat, Job)>, p: nat): seq<Job>
  {
    if jobs == [] then []
    else
      var rest, last := From(jobs[..|jobs| - 1], p), jobs[|jobs| - 1];
      if last.0 == p then rest + [last.1] else rest
  }

  function Joined(arrivals: seq<seq<(nat, Job)>>): seq<(nat, Job)>
  {
    if arrivals == [] then [] else Joined(arrivals[..|arrivals| - 1]) + arrivals[|arrivals| - 1]
  }

  lemma FromNext(jobs: seq<(nat, Job)>, last: (nat, Job), p: nat)
    ensures From(jobs + [last], p) == From(jobs, p) + if last.0 == p then [last.1] else []
  {
    assert (jobs + [last])[..|jobs|] == jobs;
  }

  lemma {:induction false} FromAdds(a: seq<(nat, Job)>, b: seq<(nat, Job)>, p: nat)
    ensures From(a + b, p) == From(a, p) + From(b, p)
  {
    hide From;
    if b == [] {
      assert a + b == a;
      NothingFrom(p);
    } else {
      var front, last := b[..|b| - 1], b[|b| - 1];
      FromAdds(a, front, p);
      FromNext(front, last, p);
      FromNext(a + front, last, p);
      assert front + [last] == b && a + front + [last] == a + b;
    }
  }

  lemma NothingFrom(p: nat)
    ensures From([], p) == []
  {
  }

  /** None of these jobs is this producer's. */
  predicate NoneFrom(arrivals: seq<seq<(nat, Job)>>, p: nat)
  {
    forall i, j :: 0 <= i < |arrivals| && 0 <= j < |arrivals[i]| ==> arrivals[i][j].0 != p
  }

  lemma {:induction false} FromNobody(jobs: seq<(nat, Job)>, p: nat)
    requires forall j :: 0 <= j < |jobs| ==> jobs[j].0 != p
    ensures From(jobs, p) == []
  {
    if jobs != [] {
      FromNobody(jobs[..|jobs| - 1], p);
    }
  }

  lemma {:induction false} NoneJoined(arrivals: seq<seq<(nat, Job)>>, p: nat, n: nat)
    requires NoneFrom(arrivals, p) && n <= |arrivals|
    ensures From(Joined(arrivals[..n]), p) == []
  {
    if n > 0 {
      NoneJoined(arrivals, p, n - 1);
      NextArrivals(arrivals, n - 1);
      FromNobody(arrivals[n - 1], p);
    }
  }

  lemma NoArrivals(arrivals: seq<seq<(nat, Job)>>)
    ensures Joined(arrivals[..0]) == [] && forall p :: From([], p) == []
  {
  }

  lemma QueueIs(q: Queues, p: nat)
    requires p in q
    ensures QueueOf(q, p) == q[p]
  {
  }

  lemma NextArrivals(arrivals: seq<seq<(nat, Job)>>, n: nat)
    requires n < |arrivals|
    ensures Joined(arrivals[..n + 1]) == Joined(arrivals[..n]) + arrivals[n]
    ensures forall p :: From(Joined(arrivals[..n + 1]), p) == From(Joined(arrivals[..n]), p) + From(arrivals[n], p)
  {
    assert arrivals[..n + 1][..n] == arrivals[..n];
    forall p ensures From(Joined(arrivals[..n + 1]), p) == From(Joined(arrivals[..n]), p) + From(arrivals[n], p) {
      FromAdds(Joined(arrivals[..n]), arrivals[n], p);
    }
  }

  // ----- The flush schedule

  /** The number of periods to go on by, computed in a 32-bit `int`. */
  function FlushPeriods(whole: nat): int
  {
    ToInt32(ToInt32(whole) + 1)
  }

  lemma FlushPeriodsRightIff(whole: nat)
    ensures FlushPeriods(whole) == whole + 1 <==> whole < INT32_LIMIT - 1
    ensures FlushPeriods(whole) <= whole + 1
    ensures whole >= INT32_LIMIT - 1 ==> FlushPeriods(whole) <= whole
  {
    var i := Int32Congruent(whole);
    var j := Int32Congruent(ToInt32(whole) + 1);
    hide ToInt32;
  }

  // ----- The thread

  datatype WriteResult = Done | WriterFailed | OtherFailure

  datatype ErrorKey = Unknown | Module(source: nat, id: nat)

  const MAX_TIME_CHECK_COUNTER := 200

  class Writer {
    var queues: Queues
    var writesDone: nat
    var writeErrors: nat
    var moduleErrors: map<ErrorKey, nat>
    var checkTimeCounter: nat
    const flushInterval: nat
    var nextFlushTime: int
    var now: int
    ghost const startTime: int
    /** Per producer: every job ever enqueued, and every job executed, in order. */
    ghost var enqueued: Queues
    ghost var executed: Queues
    ghost var enqueuedCount: nat
    ghost var writerFailures: multiset<ErrorKey>
    ghost var otherFailures: nat
    ghost var flushes: nat
    ghost var lastFlush: int
    ghost var periods: nat
    /** No look at the clock came 2^31 - 1 intervals late, or later. */
    ghost var punctual: bool
    /** Jobs run since the flush time was last checked. */
    ghost var unchecked: nat

    ghost predicate QueueOk()
      reads this`queues, this`enqueued, this`executed, this`enqueuedCount, this`writesDone, this`writeErrors
    {
      && Balanced(enqueued, executed, queues)
      && enqueuedCount == writesDone + writeErrors + Total(queues)
    }

    ghost predicate ErrorsOk()
      reads this`moduleErrors, this`writerFailures, this`otherFailures, this`writeErrors
    {
      && writeErrors == |writerFailures| + otherFailures
      && Unknown in moduleErrors
      && (forall k :: writerFailures[k] == if k in moduleErrors then moduleErrors[k] else 0)
    }

    ghost predicate FlushOk()
      reads this`nextFlushTime, this`now, this`flushes, this`lastFlush, this`periods, this`punctual
    {
      && flushInterval > 0 && startTime <= now
      && (punctual ==>
            && flushes < periods && nextFlushTime == startTime + periods * flushInterval
            && (flushes > 0 ==> lastFlush <= now && lastFlush < nextFlushTime <= lastFlush + flushInterval)
            && (flushes == 0 ==> periods == 1))
    }

    ghost predicate Valid()
      reads this
    {
      QueueOk() && ErrorsOk() && FlushOk() && unchecked <= checkTimeCounter <= MAX_TIME_CHECK_COUNTER
    }

    constructor (now: int, flushInterval: nat)
      requires flushInterval > 0
      ensures Valid() && queues == map[] && enqueued == map[] && executed == map[] && writesDone == writeErrors == 0
      ensures startTime == now == this.now && flushes == 0 && punctual && this.flushInterval == flushInterval
    {
      this.now, startTime, this.flushInterval := now, now, flushInterval;
      queues, enqueued, executed, enqueuedCount := map[], map[], map[], 0;
      writesDone, writeErrors := 0, 0;
      moduleErrors, writerFailures, otherFailures := map[Unknown := 0], multiset{}, 0;
      checkTimeCounter, unchecked := 0, 0;
      nextFlushTime, flushes, lastFlush, periods, punctual := now + flushInterval, 0, now, 1, true;
    }

    method AddMessage(producer: nat, job: Job)
      requires Valid()
      modifies this`queues, this`enqueued, this`enqueuedCount
      ensures Valid()
      ensures queues == old(queues)[producer := QueueOf(old(queues), producer) + [job]]
      ensures enqueued == old(enqueued)[producer := QueueOf(old(enqueued), producer) + [job]]
      ensures QueueOf(enqueued, producer) == QueueOf(old(enqueued), producer) + [job]
      ensures forall p :: p != producer ==> QueueOf(enqueued, p) == QueueOf(old(enqueued), p)
      ensures enqueuedCount == old(enqueuedCount) + 1
    {
      hide Total, Balanced, FlushOk, ErrorsOk;
      TotalUpdate(queues, producer, QueueOf(queues, producer) + [job]);
      BalancedAfterAdd(enqueued, executed, queues, producer, job);
      queues := queues[producer := QueueOf(queues, producer) + [job]];
      enqueued := enqueued[producer := QueueOf(enqueued, producer) + [job]];
      enqueuedCount := enqueuedCount + 1;
    }

    /** Counts the outcome of a write that already left the queue. */
    method CountWrite(msg: FbMessage, result: WriteResult)
      requires ErrorsOk()
      modifies this`writesDone, this`writeErrors, this`moduleErrors, this`writerFailures, this`otherFailures
      ensures ErrorsOk()
      ensures result == Done ==> writesDone == old(writesDone) + 1 && writeErrors == old(writeErrors)
                                 && moduleErrors == old(moduleErrors)
      ensures result != Done ==> writesDone == old(writesDone) && writeErrors == old(writeErrors) + 1
      ensures var key := if msg.valid then Module(msg.source, msg.id) else Unknown;
              writerFailures == if result == WriterFailed then old(writerFailures) + multiset{key} else old(writerFailures)
    {
      match result
      case Done =>
        writesDone := writesDone + 1;
      case WriterFailed =>
        writeErrors := writeErrors + 1;
        var key := Unknown;
        if msg.valid {
          key := Module(msg.source, msg.id);
          if key !in moduleErrors {
            moduleErrors := moduleErrors[key := 0];
          }
        }
        moduleErrors := moduleErrors[key := moduleErrors[key] + 1];
        writerFailures := writerFailures + multiset{key};
      case OtherFailure =>
        writeErrors := writeErrors + 1;
        otherFailures := otherFailures + 1;
    }

    /** The clock never goes back. */
    method ReadClock() returns (t: int)
      modifies this`now
      ensures t == now >= old(now)
    {
      t :| t >= now;
      now := t;
    }

    /**
     Flushes when the time has come, and schedules the next flush: in the future, and at most an
     interval away, exactly when this look at the clock comes less than 2^31 - 1 intervals late.
     */
    method FlushOperation()
      requires FlushOk()
      modifies this`now, this`nextFlushTime, this`flushes, this`lastFlush, this`periods, this`punctual, this`unchecked
      ensures FlushOk() && unchecked == 0 && old(now) <= now
      ensures if now < old(nextFlushTime) then flushes == old(flushes) && nextFlushTime == old(nextFlushTime) && punctual == old(punctual)
              else
                var intime := (now - old(nextFlushTime)) / flushInterval < INT32_LIMIT - 1;
                && flushes == old(flushes) + 1 && lastFlush == now && punctual == (old(punctual) && intime)
                && (now < nextFlushTime <= now + flushInterval <==> intime)
    {
      var t := ReadClock();
      unchecked := 0;
      if t >= nextFlushTime {
        var whole := (t - nextFlushTime) / flushInterval;
        var more := FlushPeriods(whole);
        NextFlush(nextFlushTime, t, flushInterval);
        PeriodsAdd(startTime, periods, more, flushInterval);
        nextFlushTime := nextFlushTime + more * flushInterval;
        flushes, lastFlush := flushes + 1, t;
        punctual := punctual && whole < INT32_LIMIT - 1;
        periods := if punctual then periods + more else periods;
      }
    }

    /** Takes the head of a producer's queue. */
    method Dequeue(producer: nat) returns (job: Job)
      requires QueueOf(queues, producer) != []
      requires Balanced(enqueued, executed, queues)
      modifies this`queues, this`executed
      ensures job == QueueOf(old(queues), producer)[0]
      ensures queues == old(queues)[producer := QueueOf(old(queues), producer)[1..]]
      ensures executed == old(executed)[producer := QueueOf(old(executed), producer) + [job]]
      ensures Total(queues) == Total(old(queues)) - 1
      ensures Balanced(enqueued, executed, queues)
    {
      hide Total, Balanced;
      job := queues[producer][0];
      BalancedAfterTake(enqueued, executed, queues, producer);
      TotalUpdate(queues, producer, queues[producer][1..]);
      queues := queues[producer := queues[producer][1..]];
      executed := executed[producer := QueueOf(executed, producer) + [job]];
    }

    /** Takes the head of a producer's queue, writes it, and counts the outcome. */
    method WriteJob(producer: nat) returns (result: WriteResult)
      requires QueueOk() && ErrorsOk() && QueueOf(queues, producer) != []
      modifies this`queues, this`executed, this`writesDone, this`writeErrors, this`moduleErrors, this`writerFailures, this`otherFailures
      ensures QueueOk() && ErrorsOk()
      ensures queues == old(queues)[producer := QueueOf(old(queues), producer)[1..]]
      ensures executed == old(executed)[producer := QueueOf(old(executed), producer) + [QueueOf(old(queues), producer)[0]]]
      ensures Total(queues) < Total(old(queues))
      ensures writesDone == old(writesDone) + (if result == Done then 1 else 0)
      ensures writeErrors == old(writeErrors) + (if result == Done then 0 else 1)
      ensures var msg := QueueOf(old(queues), producer)[0].msg;
              var key := if msg.valid then Module(msg.source, msg.id) else Unknown;
              writerFailures == if result == WriterFailed then old(writerFailures) + multiset{key} else old(writerFailures)
    {
      hide Total, QueueOf, ErrorsOk, Balanced;
      var job := Dequeue(producer);
      result := *;
      CountWrite(job.msg, result);
    }

    /** One round of the dequeue loop: a job, and a flush check after every 201st. */
    method WriteOne(producer: nat) returns (result: WriteResult)
      requires Valid() && QueueOf(queues, producer) != []
      modifies this
      ensures Valid() && enqueued == old(enqueued) && enqueuedCount == old(enqueuedCount)
      ensures queues == old(queues)[producer := QueueOf(old(queues), producer)[1..]]
      ensures executed == old(executed)[producer := QueueOf(old(executed), producer) + [QueueOf(old(queues), producer)[0]]]
      ensures Total(queues) < Total(old(queues))
      ensures writesDone == old(writesDone) + (if result == Done then 1 else 0)
      ensures writeErrors == old(writeErrors) + (if result == Done then 0 else 1)
      ensures if old(checkTimeCounter) < 200 then unchecked == old(unchecked) + 1 && flushes == old(flushes) else unchecked == 0
    {
      hide Total, QueueOf, QueueOk, ErrorsOk, FlushOk;
      result := WriteJob(producer);
      CheckTime();
    }

    /** Counts a job, and checks the flush time after every 201st. */
    method CheckTime()
      requires FlushOk() && unchecked <= checkTimeCounter <= MAX_TIME_CHECK_COUNTER
      modifies this`now, this`nextFlushTime, this`flushes, this`lastFlush, this`periods, this`punctual, this`unchecked, this`checkTimeCounter
      ensures FlushOk() && unchecked <= checkTimeCounter <= MAX_TIME_CHECK_COUNTER
      ensures old(checkTimeCounter) < 200 ==>
                checkTimeCounter == old(checkTimeCounter) + 1 && unchecked == old(unchecked) + 1 && flushes == old(flushes)
      ensures old(checkTimeCounter) == 200 ==> checkTimeCounter == unchecked == 0
    {
      hide FlushOk;
      checkTimeCounter := checkTimeCounter + 1;
      unchecked := unchecked + 1;
      if checkTimeCounter > MAX_TIME_CHECK_COUNTER {
        FlushOperation();
        checkTimeCounter := 0;
      }
    }

    /** A step of the writer thread: a job of this producer if there is one, otherwise a look at the clock. */
    method Step(producer: nat)
      requires Valid()
      modifies this
      ensures Valid() && enqueued == old(enqueued) && enqueuedCount == old(enqueuedCount)
    {
      hide QueueOk, ErrorsOk, FlushOk;
      if QueueOf(queues, producer) != [] {
        var _ := WriteOne(producer);
      } else {
        FlushOperation();
      }
    }

    /** Jobs that other threads add, in this order. */
    method AddAll(jobs: seq<(nat, Job)>)
      requires Valid()
      modifies this`queues, this`enqueued, this`enqueuedCount
      ensures Valid() && enqueuedCount == old(enqueuedCount) + |jobs|
      ensures forall p :: QueueOf(enqueued, p) == QueueOf(old(enqueued), p) + From(jobs, p)
    {
      hide Valid, QueueOf;
      for i := 0 to |jobs|
        invariant Valid() && enqueuedCount == old(enqueuedCount) + i
        invariant forall p :: QueueOf(enqueued, p) == QueueOf(old(enqueued), p) + From(jobs[..i], p)
      {
        assert jobs[..i + 1][..i] == jobs[..i];
        AddMessage(jobs[i].0, jobs[i].1);
      }
      assert jobs[..|jobs|] == jobs;
    }

    /**
     Drains the queue. Other threads keep adding: `arrivals[i]` comes before the `i`-th attempt to
     take a job. The drain ends, after `seen` attempts with arrivals before them, at the first
     attempt that finds the queue empty; by then everything ever added was executed.
     */
    method WriteOperation(arrivals: seq<seq<(nat, Job)>>) returns (seen: nat)
      requires Valid() && unchecked == 0
      modifies this
      ensures Valid() && seen <= |arrivals|
      ensures enqueuedCount == old(enqueuedCount) + |Joined(arrivals[..seen])|
      ensures forall p :: QueueOf(enqueued, p) == QueueOf(old(enqueued), p) + From(Joined(arrivals[..seen]), p)
      ensures forall p :: QueueOf(queues, p) == [] && QueueOf(executed, p) == QueueOf(enqueued, p)
      ensures writesDone + writeErrors == enqueuedCount
    {
      hide Valid, QueueOf, From, Joined, Total;
      ResetCounter();
      seen := 0;
      NoArrivals(arrivals);
      while true
        invariant Valid() && seen <= |arrivals|
        invariant enqueuedCount == old(enqueuedCount) + |Joined(arrivals[..seen])|
        invariant forall p :: QueueOf(enqueued, p) == QueueOf(old(enqueued), p) + From(Joined(arrivals[..seen]), p)
        decreases |arrivals| - seen, Total(queues)
      {
        if seen < |arrivals| {
          NextArrivals(arrivals, seen);
          AddAll(arrivals[seen]);
          seen := seen + 1;
        }
        if p :| p in queues && queues[p] != [] {
          QueueIs(queues, p);
          var _ := WriteOne(p);
        } else {
          break;
        }
      }
      Drained();
    }

    method ResetCounter()
      requires Valid() && unchecked == 0
      modifies this`checkTimeCounter
      ensures Valid() && checkTimeCounter == 0
    {
      hide QueueOk, ErrorsOk, FlushOk;
      checkTimeCounter := 0;
    }

    lemma Drained()
      requires Valid() && forall p :: p in queues ==> queues[p] == []
      ensures forall p :: QueueOf(queues, p) == [] && QueueOf(executed, p) == QueueOf(enqueued, p)
      ensures writesDone + writeErrors == enqueuedCount
    {
      NoneLeft(queues, queues.Keys);
    }

    /** Over a whole run, if it was punctual, there are never more flushes than whole intervals elapsed. */
    lemma FlushBound()
      requires Valid() && punctual
      ensures flushes * flushInterval <= now - startTime
    {
      if flushes > 0 {
        OneMorePeriod(flushes, periods, flushInterval);
      }
    }
  }

  lemma NextFlush(next: int, t: int, interval: nat)
    requires interval > 0 && next <= t
    ensures var whole := (t - next) / interval;
            && (t < next + FlushPeriods(whole) * interval <= t + interval <==> whole < INT32_LIMIT - 1)
            && (whole < INT32_LIMIT - 1 ==> FlushPeriods(whole) == whole + 1)
  {
    hide FlushPeriods;
    var whole := (t - next) / interval;
    WholePeriods(t - next, interval);
    FlushPeriodsRightIff(whole);
    if whole >= INT32_LIMIT - 1 { NoMorePeriods(FlushPeriods(whole), whole, interval); }
  }

  lemma OneMorePeriod(a: nat, b: nat, interval: nat)
    requires a < b
    ensures a * interval + interval <= b * interval
  {
    assert (a + 1) * interval <= b * interval;
  }
}
