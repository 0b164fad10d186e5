/**
 Consuming one Kafka partition.

 A partition runs tasks on its own executor thread: a poll task that reschedules itself, and the
 stop and set-stop-time requests of other threads. The executor takes high-priority tasks first
 and promises no order within a queue, so each queue is a multiset and a step takes any member.
 */
module Partition {
  import opened Common
  import opened StreamMessage
  import MessageWriter
  import PF = PartitionFilter
  import opened SourceFilter

  // ----- Which events a filter gets to see

  /** The events of one source, in order. */
  function Route(history: seq<Event>, source: nat): seq<Event>
  {
    if history == [] then []
    else
      var rest, e := Route(history[..|history| - 1], source), history[|history| - 1];
      if e.msg.source == source then rest + [e] else rest
  }

  /** The events at exactly the positions with this source, in order. */
  lemma {:induction false} RouteMeaning(history: seq<Event>, source: nat) returns (at: seq<nat>)
    ensures Increasing(at, |history|) && |at| == |Route(history, source)|
    ensures forall j :: 0 <= j < |at| ==> Route(history, source)[j] == history[at[j]]
    ensures forall k :: 0 <= k < |history| ==> (k in at <==> history[k].msg.source == source)
  {
    at := [];
    if history != [] {
      var n := |history| - 1;
      at := RouteMeaning(history[..n], source);
      if history[n].msg.source == source {
        at := at + [n];
        assert at[|at| - 1] == n;
      }
    }
  }

  /** A stream up to and including the first message that ends its source. */
  ghost function Cut(c: Setup, events: seq<Event>): seq<Event>
  {
    if events == [] then []
    else
      var rest := Cut(c, events[..|events| - 1]);
      if Ended(c.start, c.repeats, rest) then rest else rest + [events[|events| - 1]]
  }

  /** The cut is the shortest prefix in which the source ended, or everything if it never did. */
  lemma {:induction false} CutMeaning(c: Setup, events: seq<Event>)
    ensures |Cut(c, events)| <= |events| && Cut(c, events) == events[..|Cut(c, events)|]
    ensures !Ended(c.start, c.repeats, Cut(c, events)) ==> Cut(c, events) == events
    ensures forall n :: 0 <= n < |Cut(c, events)| ==> !Ended(c.start, c.repeats, events[..n])
  {
    if events != [] {
      var m := |events| - 1;
      var rest := events[..m];
      CutMeaning(c, rest);
      forall n | 0 <= n < |Cut(c, events)| ensures !Ended(c.start, c.repeats, events[..n]) {
        assert n <= m && events[..n] == rest[..n];
        if n == |Cut(c, rest)| { assert events[..n] == Cut(c, rest); }
      }
    }
  }

  lemma RouteNext(c: Setup, history: seq<Event>, e: Event, source: nat)
    ensures e.msg.source != source ==> Route(history + [e], source) == Route(history, source)
    ensures var was := Cut(c, Route(history, source));
            e.msg.source == source ==>
              Cut(c, Route(history + [e], source)) == if Ended(c.start, c.repeats, was) then was else was + [e]
  {
    assert (history + [e])[..|history|] == history;
    var r := Route(history, source);
    assert (r + [e])[..|r|] == r;
  }

  // ----- Jobs of several filters

  function JobsOf(delivered: seq<seq<Job>>): multiset<Job>
  {
    if delivered == [] then multiset{}
    else JobsOf(delivered[..|delivered| - 1]) + multiset(delivered[|delivered| - 1])
  }

  lemma {:induction false} JobsOfUpdate(delivered: seq<seq<Job>>, k: nat, added: seq<Job>)
    requires k < |delivered|
    ensures JobsOf(delivered[k := delivered[k] + added]) == JobsOf(delivered) + multiset(added)
  {
    var n := |delivered| - 1;
    var after := delivered[k := delivered[k] + added];
    if k < n {
      JobsOfUpdate(delivered[..n], k, added);
      assert after[..n] == delivered[..n][k := delivered[..n][k] + added];
    } else {
      assert after[..n] == delivered[..n];
    }
  }

  lemma {:induction false} NothingDelivered(delivered: seq<seq<Job>>)
    requires forall i :: 0 <= i < |delivered| ==> delivered[i] == []
    ensures JobsOf(delivered) == multiset{}
  {
    if delivered != [] {
      NothingDelivered(delivered[..|delivered| - 1]);
    }
  }

  /** No other filter than `k` has this destination. */
  ghost predicate OnlyFilter(all: seq<(nat, Filter)>, k: nat, d: nat)
  {
    forall j :: 0 <= j < |all| && j != k ==> d !in all[j].1.dests
  }

  /** A queue holds what was delivered; and for a destination of one filter only, in the order in which that filter delivered it. */
  ghost predicate Collects(queue: seq<Job>, all: seq<(nat, Filter)>, delivered: seq<seq<Job>>)
  {
    && |delivered| == |all| && multiset(queue) == JobsOf(delivered)
    && forall k, d: nat :: 0 <= k < |all| && OnlyFilter(all, k, d) ==> To(queue, d) == To(delivered[k], d)
  }

  lemma CollectsNothing(all: seq<(nat, Filter)>, delivered: seq<seq<Job>>)
    requires |delivered| == |all| && forall i :: 0 <= i < |delivered| ==> delivered[i] == []
    ensures Collects([], all, delivered)
  {
    NothingDelivered(delivered);
  }

  lemma CollectsNext(queue: seq<Job>, all: seq<(nat, Filter)>, delivered: seq<seq<Job>>, k: nat, added: seq<Job>)
    requires Collects(queue, all, delivered) && k < |all| && forall j :: j in added ==> j.dest in all[k].1.dests
    ensures Collects(queue + added, all, delivered[k := delivered[k] + added])
  {
    hide To, JobsOf;
    JobsOfUpdate(delivered, k, added);
    forall i, d: nat | 0 <= i < |all| && OnlyFilter(all, i, d)
      ensures To(queue + added, d) == To(delivered[k := delivered[k] + added][i], d)
    {
      ToAdds(queue, added, d);
      if i == k {
        ToAdds(delivered[k], added, d);
      } else {
        NotForDestination(added, d);
      }
    }
  }

  lemma OwnDestinations(f: Filter)
    requires f.Valid()
    ensures forall j :: j in f.jobs ==> j.dest in f.dests
  {
    hide Kept, Chosens, Deliveries, Ended, LastTimestamp;
    DeliveredToListed(f.dests, f.sent);
  }

  // ----- Tasks

  /** A Kafka message; `parsed` is `None` when its flatbuffer is rejected. */
  datatype RawMessage = RawMessage(timestamp: int, parsed: Option<FbMessage>)

  /** What a poll task meets: whether consumers are paused, and otherwise the poll and its clock readings. */
  datatype Surroundings = Surroundings(paused: bool, status: PF.PollStatus, raw: RawMessage, first: int, second: int)

  datatype Task = Poll | Stop | SetStop(time: int) | Exit

  /** What can happen next: a round of the executor, a request from another thread, or a step of the writer's queue. */
  datatype Step =
    | Round(env: Surroundings) | AskStop | AskStopTime(time: int) | AskExit
    | WriterStep(from: nat) | OthersAdd(from: nat, job: Job)

  /** A filter has seen exactly its source's events up to the one that ended it, and nothing was lost. */
  ghost predicate Served(source: nat, f: Filter, history: seq<Event>, jobs: seq<Job>)
    reads f
  {
    f.Valid() && f.events == Cut(f.Config(), Route(history, source)) && f.jobs == jobs
  }

  /** A filter has been served this history; while it is live it follows the partition's stop time. */
  ghost predicate FilterOk(x: (nat, Filter), history: seq<Event>, jobs: seq<Job>, isLive: bool, stop: int)
    reads x.1
  {
    var (source, f) := x;
    && Served(source, f, history, jobs)
    && (isLive ==> !f.closed && f.stop == stop)
    && (!isLive ==> f.closed && f.isDone)
  }

  /** A filter as it is handed to a new partition. */
  ghost predicate Unused(f: Filter, stop: int, writer: MessageWriter.Writer, producer: nat)
    reads f
  {
    f.Valid() && f.events == [] && !f.closed && f.stop == stop && f.writer == writer && f.producer == producer
  }

  ghost function FiltersOf(all: seq<(nat, Filter)>): (fs: set<Filter>)
    ensures forall i :: 0 <= i < |all| ==> all[i].1 in fs
  {
    set k | 0 <= k < |all| :: all[k].1
  }

  ghost function AllLive(n: nat): (live: seq<nat>)
    ensures |live| == n && forall i :: 0 <= i < n ==> live[i] == i
  {
    seq(n, i => i)
  }

  ghost function Undelivered(n: nat): (delivered: seq<seq<Job>>)
    ensures |delivered| == n && forall i :: 0 <= i < n ==> delivered[i] == []
  {
    seq(n, _ => [])
  }

  lemma UnusedFilter(x: (nat, Filter), stop: int)
    requires x.1.Valid() && x.1.events == [] && !x.1.closed && x.1.stop == stop
    ensures FilterOk(x, [], [], true, stop) && !x.1.isDone
  {
  }

  lemma DeadIgnoresStop(x: (nat, Filter), history: seq<Event>, jobs: seq<Job>, stop: int, stop': int)
    requires FilterOk(x, history, jobs, false, stop)
    ensures FilterOk(x, history, jobs, false, stop')
  {
    hide Served;
  }

  ghost predicate Gone(x: (nat, Filter), history: seq<Event>, jobs: seq<Job>)
    reads x.1
  {
    x.1.closed && Served(x.0, x.1, history, jobs)
  }

  lemma DeadIsGone(x: (nat, Filter), history: seq<Event>, jobs: seq<Job>, stop: int)
    requires FilterOk(x, history, jobs, false, stop)
    ensures Gone(x, history, jobs)
  {
    hide Served;
  }

  lemma GoneMeaning(x: (nat, Filter), history: seq<Event>, jobs: seq<Job>)
    requires Gone(x, history, jobs)
    ensures var (source, f) := x;
            && f.sent == Transmission(f.start, f.writeRepeatedTimestamps, Cut(f.Config(), Route(history, source)), true)
            && jobs == Deliveries(f.dests, f.sent)
            && f.received == f.transmitted + f.discarded
  {
    hide Transmission, Cut, Route, Deliveries, Kept, Ended, LastTimestamp;
  }

  lemma ShorterWithout<T>(s: seq<T>)
    requires s != []
    ensures |Without(s, 0)| == |s| - 1
  {
  }

  lemma FilterOkNext(x: (nat, Filter), history: seq<Event>, jobs: seq<Job>, isLive: bool, stop: int, e: Event)
    requires FilterOk(x, history, jobs, isLive, stop) && (!isLive || e.msg.source != x.0)
    ensures FilterOk(x, history + [e], jobs, isLive, stop)
  {
    hide Served;
    assert x.1.isDone || e.msg.source != x.0;
    ServedNext(x.0, x.1, history, jobs, e);
  }

  /** Only valid messages with a timestamp survive decoding. */
  predicate Decodes(raw: RawMessage)
  {
    raw.parsed.Some? ==> raw.parsed.value.valid && raw.parsed.value.timestamp != 0
  }

  lemma MessagesNeverStop(history: seq<PF.Poll>, stopTime: int, leeway: int, limit: int)
    requires history != [] && history[|history| - 1].status == PF.Message
    ensures !PF.ShouldStop(history, stopTime, leeway, limit)
  {
  }

  lemma DoneMeansEnded(f: Filter)
    requires f.Valid()
    ensures f.isDone <==> Ended(f.start, f.writeRepeatedTimestamps, f.events)
  {
    hide Kept, Chosens, Deliveries, Ended;
  }

  lemma ServedNext(source: nat, f: Filter, history: seq<Event>, jobs: seq<Job>, e: Event)
    requires Served(source, f, history, jobs) && (f.isDone || e.msg.source != source)
    ensures Served(source, f, history + [e], jobs)
  {
    hide Route, Cut, Ended, Filter.Valid;
    DoneMeansEnded(f);
    RouteNext(f.Config(), history, e, source);
  }

  /** `some` are the members of `all` at the increasing positions `at`. */
  ghost predicate Sublist<T>(all: seq<T>, some: seq<T>, at: seq<nat>)
  {
    && |at| == |some|
    && (forall j :: 0 <= j < |at| ==> at[j] < |all| && some[j] == all[at[j]])
    && (forall i, j :: 0 <= i < j < |at| ==> at[i] < at[j])
  }

  function Without<T>(s: seq<T>, i: nat): seq<T>
    requires i < |s|
  {
    s[..i] + s[i + 1..]
  }

  lemma SublistWithout<T>(all: seq<T>, some: seq<T>, at: seq<nat>, i: nat)
    requires Sublist(all, some, at) && i < |some|
    ensures Sublist(all, Without(some, i), Without(at, i))
    ensures forall k :: k in Without(at, i) <==> k in at && k != at[i]
  {
    forall k ensures k in Without(at, i) <==> k in at && k != at[i] {
      if k in at && k != at[i] {
        var j :| 0 <= j < |at| && at[j] == k;
        assert Without(at, i)[if j < i then j else j - 1] == k;
      }
    }
  }

  class Partition {
    const writer: MessageWriter.Writer
    const producer: nat
    const stopTester: PF.Filter
    const stopTimeLeeway: int
    var stopTime: int
    var hasFinished: bool
    /** Source hash and filter, for every source that has not ended. */
    var filters: seq<(nat, Filter)>
    /** The executor's task queues. */
    var high: multiset<Task>
    var low: multiset<Task>
    /** The executor's thread is looking for tasks. */
    var running: bool

    /** All filters ever owned, which of them are left, and the jobs each has queued. */
    ghost const all: seq<(nat, Filter)>
    ghost const objects: set<Filter>
    ghost var live: seq<nat>
    ghost var delivered: seq<seq<Job>>
    /** Every decoded message with the stop time the filters had at that moment. */
    ghost var history: seq<Event>
    ghost var filterStop: int
    ghost var started: bool
    /** Kafka messages polled, messages given to `ProcessMessage`, and the number of polls begun. */
    ghost var polled: seq<RawMessage>
    ghost var handed: seq<RawMessage>
    ghost var polls: nat

    ghost predicate Layout()
      reads this`filters, this`live, this`delivered
    {
      && |delivered| == |all|
      && (forall i, j :: 0 <= i < j < |all| ==> all[i].1 != all[j].1)
      && (forall i :: 0 <= i < |all| ==>
            all[i].1 in objects && all[i].1.writer == writer && all[i].1.producer == producer)
      && Sublist(all, filters, live)
    }

    /** What this partition put into the writer's queue is what its filters delivered. */
    ghost predicate QueueMatches()
      reads this`delivered, writer`enqueued
    {
      Collects(MessageWriter.QueueOf(writer.enqueued, producer), all, delivered)
    }

    ghost predicate FiltersOk()
      reads this`filters, this`live, this`delivered, this`history, this`filterStop, objects, writer
    {
      && Layout() && QueueMatches() && writer.Valid()
      && (forall k :: 0 <= k < |all| ==> FilterOk(all[k], history, delivered[k], k in live, filterStop))
      && (forall k :: 0 <= k < |all| && k in live ==> !all[k].1.isDone)
    }

    ghost predicate TasksOk()
      reads this`high, this`low, this`started, this`hasFinished, this`polled, this`handed, this`stopTime, stopTester
    {
      && stopTester.Valid() && stopTester.stopLeeway == stopTimeLeeway && stopTester.stopTime == stopTime
      && high[Poll] == 0 && (hasFinished ==> started)
      && low[Poll] == (if started && !hasFinished then 1 else 0)
      && (forall t :: SetStop(t) in high || SetStop(t) in low ==> t + stopTimeLeeway <= PF.TIME_MAX)
      && polled == handed
    }

    ghost predicate Valid()
      reads this, objects, writer, stopTester
    {
      FiltersOk() && TasksOk()
    }

    constructor (all: seq<(nat, Filter)>, writer: MessageWriter.Writer, producer: nat, stop: int, leeway: int, errorTimeout: int)
      requires 0 <= stop <= PF.TIME_MAX && 0 <= leeway <= PF.TIME_MAX && 0 <= errorTimeout
      requires writer.Valid() && MessageWriter.QueueOf(writer.enqueued, producer) == []
      requires forall i, j :: 0 <= i < j < |all| ==> all[i].1 != all[j].1
      requires forall i :: 0 <= i < |all| ==> Unused(all[i].1, stop, writer, producer)
      ensures Valid() && this.all == all && this.writer == writer && this.producer == producer && filters == all
      ensures history == [] && polls == 0 && !started && !hasFinished && !stopTester.forceStop && running
      ensures filterStop == stop && stopTime == PF.Clamped(stop, leeway) && stopTimeLeeway == leeway
      ensures objects == FiltersOf(all) && fresh(stopTester) && high == low == multiset{}
    {
      hide FilterOk, Unused, FiltersOf, AllLive, Undelivered, MessageWriter.Writer.Valid, MessageWriter.QueueOf, PF.Filter.Valid, PF.Clamped;
      stopTester := new PF.Filter(stop, leeway, errorTimeout);
      this.all, this.writer, this.producer := all, writer, producer;
      objects := FiltersOf(all);
      stopTimeLeeway, stopTime := leeway, PF.Clamped(stop, leeway);
      hasFinished, filters, high, low, running := false, all, multiset{}, multiset{}, true;
      live, delivered := AllLive(|all|), Undelivered(|all|);
      history, filterStop, started, polled, handed, polls := [], stop, false, [], [], 0;
      new;
      hide FiltersOk, TasksOk;
      NoTasksYet();
      NothingYet();
    }

    lemma NoTasksYet()
      requires stopTester.Valid() && stopTester.stopLeeway == stopTimeLeeway && stopTester.stopTime == stopTime
      requires high == low == multiset{} && !started && !hasFinished && polled == handed
      ensures TasksOk()
    {
    }

    lemma NothingYet()
      requires writer.Valid() && MessageWriter.QueueOf(writer.enqueued, producer) == [] && history == []
      requires |live| == |delivered| == |all| && filters == all
      requires forall i :: 0 <= i < |all| ==> live[i] == i && delivered[i] == []
      requires forall i, j :: 0 <= i < j < |all| ==> all[i].1 != all[j].1
      requires forall i :: 0 <= i < |all| ==> Unused(all[i].1, filterStop, writer, producer) && all[i].1 in objects
      ensures FiltersOk()
    {
      hide FilterOk, Filter.Valid, MessageWriter.Writer.Valid;
      CollectsNothing(all, delivered);
      forall k | 0 <= k < |all| ensures FilterOk(all[k], [], [], true, filterStop) && !all[k].1.isDone {
        UnusedFilter(all[k], filterStop);
      }
      forall k | 0 <= k < |all| ensures k in live {
        assert live[k] == k;
      }
    }

    lemma Sizes()
      requires Layout()
      ensures |delivered| == |all| && |live| == |filters|
    {
    }

    lemma LiveAt(i: nat)
      requires Layout() && i < |filters|
      ensures |delivered| == |all| && |live| == |filters|
      ensures var k := live[i];
              && k < |all| && filters[i] == all[k] && all[k].1 in objects
              && live[i..] == [k] + live[i + 1..] && k !in live[i + 1..]
              && forall j :: 0 <= j < |all| && j != k ==> all[j].1 != all[k].1
    {
    }

    /** Gives a message to one live filter if it is of the filter's source. */
    method Feed(ghost k: nat, ghost before: seq<Event>, source: nat, f: Filter, msg: FbMessage)
      requires Layout() && k < |all| && all[k] == (source, f)
      requires FilterOk(all[k], before, delivered[k], true, filterStop) && !f.isDone
      requires QueueMatches() && writer.Valid()
      requires msg.valid ==> msg.timestamp != 0
      modifies f, this`delivered, writer`queues, writer`enqueued, writer`enqueuedCount
      ensures Layout() && QueueMatches() && writer.Valid()
      ensures FilterOk(all[k], before + [Event(msg, filterStop)], delivered[k], true, filterStop)
      ensures |delivered| == |all| && forall i :: 0 <= i < |all| && i != k ==> delivered[i] == old(delivered[i])
    {
      hide Route, Cut, Ended, Filter.Valid, MessageWriter.Writer.Valid, MessageWriter.QueueOf, Collects;
      ghost var was := MessageWriter.QueueOf(writer.enqueued, producer);
      if source != msg.source {
        FilterOkNext(all[k], before, delivered[k], true, filterStop, Event(msg, filterStop));
        return;
      }
      DoneMeansEnded(f);
      RouteNext(f.Config(), before, Event(msg, filterStop), msg.source);
      var _ := f.FilterMessage(msg);
      Delivered(k, f, was);
    }

    /** Records the jobs a filter has just queued. */
    ghost method Delivered(k: nat, f: Filter, was: seq<Job>)
      requires Layout() && k < |all| && all[k].1 == f && f.Valid() && delivered[k] <= f.jobs && Collects(was, all, delivered)
      requires MessageWriter.QueueOf(writer.enqueued, producer) == was + f.jobs[|delivered[k]|..]
      modifies this`delivered
      ensures Layout() && QueueMatches() && delivered[k] == f.jobs
      ensures |delivered| == |all| && forall i :: 0 <= i < |all| && i != k ==> delivered[i] == old(delivered[i])
    {
      hide Filter.Valid, Collects, MessageWriter.QueueOf;
      var added := f.jobs[|delivered[k]|..];
      OwnDestinations(f);
      CollectsNext(was, all, delivered, k, added);
      assert f.jobs == delivered[k] + added;
      delivered := delivered[k := f.jobs];
    }

    /** Gives a message to every live filter of its source. */
    method FeedAll(msg: FbMessage)
      requires FiltersOk() && (msg.valid ==> msg.timestamp != 0)
      modifies objects, this`delivered, this`history, writer`queues, writer`enqueued, writer`enqueuedCount
      ensures history == old(history) + [Event(msg, filterStop)]
      ensures Layout() && QueueMatches() && writer.Valid()
      ensures forall k :: 0 <= k < |all| ==> FilterOk(all[k], history, delivered[k], k in live, filterStop)
    {
      hide FilterOk, QueueMatches, MessageWriter.Writer.Valid, Layout;
      ghost var before := history;
      forall k | 0 <= k < |all| ensures all[k].1 as object != this {}
      history := history + [Event(msg, filterStop)];
      Sizes();
      forall k | 0 <= k < |all| && k !in live ensures FilterOk(all[k], history, delivered[k], false, filterStop) {
        FilterOkNext(all[k], before, delivered[k], false, filterStop, Event(msg, filterStop));
      }
      for i := 0 to |filters|
        modifies objects, this`delivered, writer`queues, writer`enqueued, writer`enqueuedCount
        invariant Layout() && QueueMatches() && writer.Valid() && |delivered| == |all|
        invariant forall k :: 0 <= k < |all| && k !in live[i..] ==>
                    FilterOk(all[k], history, delivered[k], k in live, filterStop)
        invariant forall k :: 0 <= k < |all| && k in live[i..] ==>
                    FilterOk(all[k], before, delivered[k], true, filterStop) && !all[k].1.isDone
      {
        LiveAt(i);
        Feed(live[i], before, filters[i].0, filters[i].1, msg);
      }
      assert live[|filters|..] == [];
    }

    ghost predicate Fed()
      reads this`filters, this`live, this`delivered, this`history, this`filterStop, objects, writer
    {
      && Layout() && QueueMatches() && writer.Valid()
      && (forall k :: 0 <= k < |all| ==> FilterOk(all[k], history, delivered[k], k in live, filterStop))
    }

    /** Destroys one filter, which sends what it still holds, and erases it from the list. */
    method EraseAt(i: nat)
      requires Layout() && QueueMatches() && writer.Valid() && i < |filters|
      requires i < |live| && live[i] < |all| == |delivered|
      requires FilterOk(all[live[i]], history, delivered[live[i]], true, filterStop)
      modifies filters[i].1, this`filters, this`live, this`delivered, writer`queues, writer`enqueued, writer`enqueuedCount
      ensures Layout() && QueueMatches() && writer.Valid() && |delivered| == |all|
      ensures i < |old(live)| && filters == Without(old(filters), i) && live == Without(old(live), i)
      ensures var k := old(live[i]);
              && k < |all| && old(filters[i]) == all[k]
              && all[k].1.closed && all[k].1.isDone == old(filters[i].1.isDone)
              && Served(all[k].0, all[k].1, history, delivered[k])
      ensures forall k :: 0 <= k < |all| && k != old(live[i]) ==> delivered[k] == old(delivered[k])
    {
      hide Filter.Valid, MessageWriter.Writer.Valid, MessageWriter.QueueOf, Collects, Cut, Route, Sublist;
      LiveAt(i);
      ghost var was := MessageWriter.QueueOf(writer.enqueued, producer);
      ghost var k := live[i];
      SublistWithout(all, filters, live, i);
      filters[i].1.Close();
      Delivered(k, filters[i].1, was);
      filters := Without(filters, i);
      live := Without(live, i);
    }

    /** As `EraseAt`, for a filter whose source has ended. */
    method EraseDone(i: nat)
      requires Fed() && i < |filters| && filters[i].1.isDone
      modifies filters[i].1, this`filters, this`live, this`delivered, writer`queues, writer`enqueued, writer`enqueuedCount
      ensures Fed() && filters == Without(old(filters), i)
      ensures forall j :: 0 <= j < |filters| ==> filters[j].1 != old(filters[i].1)
    {
      hide QueueMatches, MessageWriter.Writer.Valid, Layout, Served, Without, Sublist;
      LiveAt(i);
      LiveDistinct(i);
      assert live[i] in live;
      EraseAt(i);
    }

    lemma LiveDistinct(i: nat)
      requires Layout() && i < |filters|
      ensures |live| == |filters|
      ensures forall k :: k in Without(live, i) <==> k in live && k != live[i]
      ensures forall j :: 0 <= j < |Without(filters, i)| ==> Without(filters, i)[j].1 != filters[i].1
    {
      SublistWithout(all, filters, live, i);
    }

    /** Erases the filters that are done, keeping the order of the others. */
    method EraseFinished()
      requires Fed()
      modifies objects, this`filters, this`live, this`delivered, writer`queues, writer`enqueued, writer`enqueuedCount
      ensures FiltersOk()
    {
      hide FilterOk, QueueMatches, MessageWriter.Writer.Valid, Layout;
      var i := 0;
      while i < |filters|
        invariant Fed() && i <= |filters|
        invariant forall j :: 0 <= j < i ==> !filters[j].1.isDone
        decreases |filters| - i
      {
        LiveAt(i);
        if filters[i].1.isDone {
          EraseDone(i);
        } else {
          i := i + 1;
        }
      }
      NoneDone();
    }

    lemma NoneDone()
      requires Layout() && forall j :: 0 <= j < |filters| ==> !filters[j].1.isDone
      ensures forall k :: 0 <= k < |all| && k in live ==> !all[k].1.isDone
    {
      forall k | 0 <= k < |all| && k in live ensures !all[k].1.isDone {
        var j :| 0 <= j < |live| && live[j] == k;
        assert filters[j] == all[k];
      }
    }

    /** Decodes a message and runs it through the filters of its source. */
    method ProcessMessage(raw: RawMessage)
      requires FiltersOk() && Decodes(raw)
      modifies objects, this`filters, this`live, this`delivered, this`history, this`handed
      modifies writer`queues, writer`enqueued, writer`enqueuedCount
      ensures FiltersOk() && handed == old(handed) + [raw]
      ensures history == old(history) + if raw.parsed.Some? then [Event(raw.parsed.value, filterStop)] else []
    {
      hide FilterOk, QueueMatches, MessageWriter.Writer.Valid, Layout;
      forall k | 0 <= k < |all| ensures all[k].1 as object != this {}
      handed := handed + [raw];
      if raw.parsed.None? {
        return;
      }
      FeedAll(raw.parsed.value);
      EraseFinished();
    }

    /** Tells every live filter the new stop time. */
    method SetFilterStops(t: int)
      requires FiltersOk()
      modifies objects, this`filterStop
      ensures FiltersOk() && filterStop == t
    {
      hide QueueMatches, MessageWriter.Writer.Valid, Layout, FilterOk;
      ghost var before := filterStop;
      forall k | 0 <= k < |all| ensures all[k].1 as object != this {}
      filterStop := t;
      Sizes();
      assert live[0..] == live;
      forall k | 0 <= k < |all| && k !in live ensures FilterOk(all[k], history, delivered[k], false, t) {
        DeadIgnoresStop(all[k], history, delivered[k], before, t);
      }
      for i := 0 to |filters|
        modifies objects
        invariant forall k :: 0 <= k < |all| ==>
                    FilterOk(all[k], history, delivered[k], k in live, if k in live[i..] then before else t)
        invariant forall k :: 0 <= k < |all| && k in live ==> !all[k].1.isDone
      {
        LiveAt(i);
        SetStopOf(all[live[i]], filters[i].1, history, delivered[live[i]], before, t);
      }
      assert live[|filters|..] == [];
    }

    method SetStopOf(ghost x: (nat, Filter), f: Filter, ghost h: seq<Event>, ghost jobs: seq<Job>, ghost before: int, t: int)
      requires FilterOk(x, h, jobs, true, before) && x.1 == f
      modifies f`stop
      ensures FilterOk(x, h, jobs, true, t)
    {
      hide Filter.Valid;
      f.SetStopTime(t);
    }

    // ----- Tasks of the executor

    /** Must be called once, after construction. */
    method Start()
      requires Valid() && !started
      modifies this`low, this`started
      ensures Valid() && started && low == old(low) + multiset{Poll}
    {
      hide FiltersOk;
      started := true;
      low := low + multiset{Poll};
    }

    /** Asks for a stop at both priorities. */
    method RequestStop()
      requires Valid()
      modifies this`low, this`high
      ensures Valid() && low == old(low) + multiset{Stop} && high == old(high) + multiset{Stop}
    {
      hide FiltersOk;
      low := low + multiset{Stop};
      high := high + multiset{Stop};
    }

    method RequestStopTime(t: int)
      requires Valid() && t + stopTimeLeeway <= PF.TIME_MAX
      modifies this`high
      ensures Valid() && high == old(high) + multiset{SetStop(t)}
    {
      hide FiltersOk;
      high := high + multiset{SetStop(t)};
    }

    /** The executor's destructor: its thread is to end, before any low-priority task. */
    method RequestExit()
      requires Valid()
      modifies this`high
      ensures Valid() && high == old(high) + multiset{Exit}
    {
      hide FiltersOk;
      high := high + multiset{Exit};
    }

    /** The partition's invariant while its poll task is being run. */
    ghost predicate Polling()
      reads this, objects, writer, stopTester
    {
      && FiltersOk()
      && stopTester.Valid() && stopTester.stopLeeway == stopTimeLeeway && stopTester.stopTime == stopTime
      && high[Poll] == 0 && low[Poll] == 0 && started && !hasFinished
      && (forall t :: SetStop(t) in high || SetStop(t) in low ==> t + stopTimeLeeway <= PF.TIME_MAX)
      && polled == handed
    }

    lemma SeparateObjects()
      ensures forall f :: f in objects ==> f as object != this && f as object != stopTester
      ensures writer as object != this && writer as object != stopTester && stopTester as object != this
    {
    }

    /** Polls once, unless stopped or paused, and reschedules itself until the partition is finished. */
    method PollForMessage(env: Surroundings)
      requires Polling() && Decodes(env.raw)
      modifies this, objects, stopTester, writer`queues, writer`enqueued, writer`enqueuedCount
      ensures Valid() && started && stopTester.forceStop == old(stopTester.forceStop)
      ensures stopTime == old(stopTime) && filterStop == old(filterStop) && running == old(running)
      ensures high == old(high) && low == old(low) + if hasFinished then multiset{} else multiset{Poll}
      ensures if old(stopTester.forceStop) then hasFinished && polls == old(polls) && polled == old(polled)
              else if env.paused then !hasFinished && polls == old(polls) && polled == old(polled)
              else Polled(env)
    {
      hide FiltersOk, PF.Filter.Valid;
      SeparateObjects();
      if stopTester.forceStop {
        hasFinished := true;
        return;
      }
      if !env.paused {
        Consume(env);
        if hasFinished {
          return;
        }
      }
      low := low + multiset{Poll};
    }

    /** The effect of one Kafka poll: its message is handed on, and the stop rules decide whether it was the last. */
    twostate predicate Polled(env: Surroundings)
      reads this, stopTester
    {
      && polls == old(polls) + 1
      && polled == old(polled) + (if env.status == PF.Message then [env.raw] else [])
      && history == old(history) + (if env.status == PF.Message && env.raw.parsed.Some?
                                    then [Event(env.raw.parsed.value, filterStop)] else [])
      && stopTester.history == old(stopTester.history) + [PF.Poll(env.status, env.first, env.second)]
      && (hasFinished <==>
            || PF.ShouldStop(stopTester.history, stopTime, stopTimeLeeway, stopTester.timeLimit)
            || (env.status == PF.Message && (filters == [] || env.raw.timestamp > stopTime + stopTimeLeeway)))
    }

    /** Polls Kafka and processes what it returns. */
    method Consume(env: Surroundings)
      requires Polling() && Decodes(env.raw) && !stopTester.forceStop
      modifies objects, stopTester, writer`queues, writer`enqueued, writer`enqueuedCount
      modifies this`polls, this`polled, this`handed, this`hasFinished
      modifies this`filters, this`live, this`delivered, this`history
      ensures FiltersOk() && stopTester.Valid() && polled == handed && Polled(env)
      ensures !stopTester.forceStop && stopTester.stopTime == old(stopTester.stopTime)
    {
      hide FiltersOk, PF.Filter.Valid, PF.ShouldStop;
      SeparateObjects();
      polls := polls + 1;
      if env.status == PF.Message {
        polled := polled + [env.raw];
      }
      var stop := stopTester.ShouldStopPartition(env.status, env.first, env.second);
      if env.status == PF.Message {
        MessagesNeverStop(stopTester.history, stopTime, stopTimeLeeway, stopTester.timeLimit);
      }
      if stop {
        hasFinished := true;
        return;
      }
      if env.status == PF.Message {
        ProcessMessage(env.raw);
        if filters == [] {
          hasFinished := true;
          return;
        } else if env.raw.timestamp > stopTime + stopTimeLeeway {
          hasFinished := true;
          return;
        }
      }
    }

    /** The effect of running a task; the only task it may leave behind is the next poll. */
    twostate predicate Ran(t: Task, env: Surroundings)
      reads this, stopTester
    {
      && started == old(started) && (old(hasFinished) ==> hasFinished)
      && high <= old(high) && low <= old(low) + multiset{Poll}
      && (!t.SetStop? ==> stopTime == old(stopTime) && filterStop == old(filterStop))
      && running == (old(running) && t != Exit)
      && (old(stopTester.forceStop) || t == Stop ==> stopTester.forceStop)
      && (old(stopTester.forceStop) ==> polls == old(polls) && polled == old(polled))
      && match t
         case Poll =>
           if old(stopTester.forceStop) then hasFinished
           else if env.paused then !hasFinished && polls == old(polls) && polled == old(polled)
           else Polled(env)
         case Stop =>
           OnlyStops()
         case SetStop(time) =>
           OnlyStops() && stopTime == filterStop == time
         case Exit =>
           OnlyStops()
    }

    twostate predicate OnlyStops()
      reads this, stopTester
    {
      && polls == old(polls) && polled == old(polled) && history == old(history) && hasFinished == old(hasFinished)
      && filters == old(filters) && stopTester.history == old(stopTester.history)
    }

    /** One round of the executor, until it was told to exit: any high-priority task first, otherwise any low-priority one. */
    method RunNext(env: Surroundings) returns (ran: Option<Task>)
      requires Valid() && Decodes(env.raw)
      modifies this, objects, stopTester, writer`queues, writer`enqueued, writer`enqueuedCount
      ensures Valid()
      ensures ran.None? <==> old(!running || (high == multiset{} && low == multiset{}))
      ensures ran.None? ==> unchanged(this) && unchanged(stopTester)
      ensures ran.Some? ==> ran.value in old(if high != multiset{} then high else low) && Ran(ran.value, env)
    {
      hide Valid, Polled;
      if !running {
        return None;
      }
      if high != multiset{} {
        var t :| t in high;
        Execute(t, true, env);
        return Some(t);
      } else if low != multiset{} {
        var t :| t in low;
        Execute(t, false, env);
        return Some(t);
      }
      return None;
    }

    /**
     A whole run: rounds of the executor, requests from other threads, writes, and jobs that other
     partitions add, in any order. Finishing, stopping and exiting are final; once stopping was
     forced, or the executor's thread has ended, no further poll is made.
     */
    method RunSteps(steps: seq<Step>)
      requires Valid() && forall s :: s in steps ==> Possible(s)
      modifies this, objects, stopTester, writer
      ensures Valid() && started == old(started) && (old(hasFinished) ==> hasFinished) && (running ==> old(running))
      ensures old(polls) <= polls && old(polled) <= polled
      ensures old(stopTester.forceStop) ==> stopTester.forceStop
      ensures old(stopTester.forceStop || !running) ==> polls == old(polls) && polled == old(polled)
    {
      hide Valid;
      SeparateObjects();
      for i := 0 to |steps|
        modifies this, objects, stopTester, writer
        invariant Valid() && started == old(started) && (old(hasFinished) ==> hasFinished) && (running ==> old(running))
        invariant old(polls) <= polls && old(polled) <= polled
        invariant old(stopTester.forceStop) ==> stopTester.forceStop
        invariant old(stopTester.forceStop || !running) ==> polls == old(polls) && polled == old(polled)
      {
        assert Possible(steps[i]);
        match steps[i]
        case Round(env) => var _ := RunNext(env);
        case AskStop => RequestStop();
        case AskStopTime(t) => RequestStopTime(t);
        case AskExit => RequestExit();
        case WriterStep(from) => WriteStep(from);
        case OthersAdd(from, job) => AddForOther(from, job);
      }
    }

    /** The writer thread takes a step. */
    method WriteStep(from: nat)
      requires Valid()
      modifies writer
      ensures Valid()
    {
      hide FilterOk, MessageWriter.Writer.Valid, MessageWriter.QueueOf, Collects;
      SeparateObjects();
      writer.Step(from);
    }

    /** Another partition adds a job. */
    method AddForOther(from: nat, job: Job)
      requires Valid() && from != producer
      modifies writer`queues, writer`enqueued, writer`enqueuedCount
      ensures Valid()
    {
      hide FilterOk, MessageWriter.Writer.Valid, MessageWriter.QueueOf, Collects;
      SeparateObjects();
      writer.AddMessage(from, job);
    }

    predicate Possible(s: Step)
    {
      match s
      case Round(env) => Decodes(env.raw)
      case AskStop => true
      case AskStopTime(t) => t + stopTimeLeeway <= PF.TIME_MAX
      case AskExit => true
      case WriterStep(_) => true
      case OthersAdd(from, _) => from != producer
    }

    /** Takes a task out of its queue. */
    method Take(t: Task, urgent: bool)
      requires TasksOk() && FiltersOk() && t in (if urgent then high else low)
      modifies this`high, this`low
      ensures if t == Poll then Polling() && started && !hasFinished else TasksOk()
      ensures high <= old(high) && low <= old(low)
      ensures t.SetStop? ==> t.time + stopTimeLeeway <= PF.TIME_MAX
    {
      hide FiltersOk, PF.Filter.Valid;
      SeparateObjects();
      if urgent {
        high := high - multiset{t};
      } else {
        low := low - multiset{t};
      }
    }

    /** The set-stop-time task. */
    method ApplyStopTime(time: int)
      requires FiltersOk() && TasksOk() && time + stopTimeLeeway <= PF.TIME_MAX
      modifies this`stopTime, this`filterStop, stopTester`stopTime, objects
      ensures FiltersOk() && TasksOk() && stopTime == filterStop == time
    {
      hide FiltersOk, PF.Filter.Valid;
      SeparateObjects();
      stopTime := time;
      stopTester.SetStopTime(time);
      SetFilterStops(time);
    }

    /** A request of another thread, taken out of its queue. */
    method Obey(t: Task)
      requires TasksOk() && FiltersOk() && t != Poll && (t.SetStop? ==> t.time + stopTimeLeeway <= PF.TIME_MAX)
      modifies this`running, this`stopTime, this`filterStop, stopTester`forceStop, stopTester`stopTime, objects
      ensures Valid() && running == (old(running) && t != Exit)
      ensures stopTester.forceStop == (old(stopTester.forceStop) || t == Stop)
      ensures t.SetStop? ==> stopTime == filterStop == t.time
      ensures !t.SetStop? ==> stopTime == old(stopTime) && filterStop == old(filterStop)
    {
      hide FiltersOk, PF.Filter.Valid;
      SeparateObjects();
      match t
      case Stop =>
        stopTester.ForceStop();
      case SetStop(time) =>
        ApplyStopTime(time);
      case Exit =>
        running := false;
    }

    /** Takes a task out of its queue and runs it. */
    method Execute(t: Task, urgent: bool, env: Surroundings)
      requires Valid() && Decodes(env.raw) && t in (if urgent then high else low)
      modifies this, objects, stopTester, writer`queues, writer`enqueued, writer`enqueuedCount
      ensures Valid() && Ran(t, env)
    {
      hide FiltersOk, PF.Filter.Valid, PF.ShouldStop, Polling, TasksOk;
      SeparateObjects();
      Take(t, urgent);
      if t == Poll {
        PollForMessage(env);
      } else {
        Obey(t);
      }
    }

    /**
     Destruction: every remaining filter is destroyed in turn. Afterwards each filter has
     transmitted exactly what its source's events call for, and the jobs this partition queued
     are exactly the deliveries of those messages.
     */
    method Destroy()
      requires Valid()
      modifies this, objects, writer`queues, writer`enqueued, writer`enqueuedCount
      ensures history == old(history) && filters == [] && writer.Valid() && QueueMatches() && |delivered| == |all|
      ensures forall k :: 0 <= k < |all| ==>
                var (source, f) := all[k];
                && f.sent == Transmission(f.start, f.writeRepeatedTimestamps, Cut(f.Config(), Route(history, source)), true)
                && delivered[k] == Deliveries(f.dests, f.sent)
                && f.received == f.transmitted + f.discarded
    {
      hide FilterOk, QueueMatches, MessageWriter.Writer.Valid, Layout, Served, Without, Transmission, Cut, Deliveries;
      Sizes();
      forall k | 0 <= k < |all| && k !in live ensures Gone(all[k], history, delivered[k]) {
        DeadIsGone(all[k], history, delivered[k], filterStop);
      }
      while filters != []
        modifies objects, this`filters, this`live, this`delivered, writer`queues, writer`enqueued, writer`enqueuedCount
        invariant Layout() && QueueMatches() && writer.Valid() && |delivered| == |all| && |live| == |filters|
        invariant forall k :: 0 <= k < |all| && k in live ==> FilterOk(all[k], history, delivered[k], true, filterStop)
        invariant forall k :: 0 <= k < |all| && k !in live ==> Gone(all[k], history, delivered[k])
        decreases |filters|
      {
        LiveAt(0);
        LiveDistinct(0);
        assert live[0] in live;
        ShorterWithout(filters);
        EraseAt(0);
        Sizes();
      }
      forall k | 0 <= k < |all|
        ensures var (source, f) := all[k];
                && f.sent == Transmission(f.start, f.writeRepeatedTimestamps, Cut(f.Config(), Route(history, source)), true)
                && delivered[k] == Deliveries(f.dests, f.sent)
                && f.received == f.transmitted + f.discarded
      {
        assert k !in live;
        GoneMeaning(all[k], history, delivered[k]);
      }
    }

    /** In every state of every run: one outstanding poll task from start to finish, and no message lost on the way. */
    lemma OnePollOutstanding()
      requires Valid()
      ensures low[Poll] + high[Poll] == if started && !hasFinished then 1 else 0
      ensures polled == handed
    {
      hide FiltersOk;
    }
  }
}
