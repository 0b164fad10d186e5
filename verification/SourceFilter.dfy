/**
 The time filter of one source: a one-message look-back buffer, removal of repeated
 timestamps and detection of the stop time.
 */
module SourceFilter {
  import opened Common
  import opened StreamMessage
  import opened MessageWriter

  /** A message as it reached the filter, with the stop time in force at that moment. */
  datatype Event = Event(msg: FbMessage, stop: int)

  /** Nanoseconds truncated (towards zero) to whole microseconds. */
  function Micros(ns: int): (us: int)
    ensures us % 1000 == 0
    ensures if ns >= 0 then us <= ns < us + 1000 else us - 1000 < ns <= us
  {
    if ns >= 0 then ns / 1000 * 1000 else -(-ns / 1000 * 1000)
  }

  /** The first whole microsecond at or after a time. */
  function NextMicro(t: int): (c: int)
    ensures c % 1000 == 0 && t <= c < t + 1000
  {
    (t + 999) / 1000 * 1000
  }

  /** A timestamp in nanoseconds has got to this time: to the next whole microsecond, or past the one before if that is not positive. */
  predicate Reaches(ns: int, t: int)
  {
    var c := NextMicro(t);
    if c > 0 then ns >= c else ns > c - 1000
  }

  lemma MicrosReach(ns: int, t: int)
    ensures Micros(ns) >= t <==> Reaches(ns, t)
  {
    var us, c := Micros(ns), NextMicro(t);
    hide Micros, NextMicro;
    assert us == us / 1000 * 1000 && c == c / 1000 * 1000;
    assert us >= t <==> us >= c;
  }

  lemma WholeMicros(ns: int, t: int)
    requires t % 1000 == 0
    ensures t > 0 ==> (Reaches(ns, t) <==> ns >= t)
    ensures t >= 0 ==> (Reaches(ns, t + 1) <==> ns >= t + 1000)
  {
    var c, d := NextMicro(t), NextMicro(t + 1);
    hide NextMicro;
    assert t == t / 1000 * 1000 && c == c / 1000 * 1000 && d == d / 1000 * 1000;
  }

  predicate InTime(start: int, e: Event)
  {
    Micros(e.msg.timestamp) >= start
  }

  /** A message that ends its source: at or after the start, and past the stop time. */
  predicate Ends(start: int, e: Event)
  {
    InTime(start, e) && Micros(e.msg.timestamp) > e.stop
  }

  // ----- What should be transmitted

  /** Timestamp of the latest valid message. */
  function LastTimestamp(events: seq<Event>): Option<int>
  {
    if events == [] then None
    else
      var last := events[|events| - 1].msg;
      if last.valid then Some(last.timestamp) else LastTimestamp(events[..|events| - 1])
  }

  /** Drops invalid messages and, unless repeats are wanted, immediate repeats of a timestamp. */
  function Kept(repeats: bool, events: seq<Event>): seq<Event>
  {
    if events == [] then []
    else
      var rest, e := events[..|events| - 1], events[|events| - 1];
      if !e.msg.valid || (!repeats && LastTimestamp(rest) == Some(e.msg.timestamp)) then Kept(repeats, rest)
      else Kept(repeats, rest) + [e]
  }

  /** Message `i` goes out: it is in time, or the last one before a message that is, or the last one of all. */
  predicate Chosen(start: int, kept: seq<Event>, closed: bool, i: nat)
    requires i < |kept|
  {
    InTime(start, kept[i]) || (if i + 1 < |kept| then InTime(start, kept[i + 1]) else closed)
  }

  /** The chosen messages among the first `n`, in order. */
  function Chosens(start: int, kept: seq<Event>, closed: bool, n: nat): seq<FbMessage>
    requires n <= |kept|
  {
    if n == 0 then []
    else Chosens(start, kept, closed, n - 1) + if Chosen(start, kept, closed, n - 1) then [kept[n - 1].msg] else []
  }

  /** Everything a filter transmits for a stream of events, before or after it was closed. */
  function Transmission(start: int, repeats: bool, events: seq<Event>, closed: bool): seq<FbMessage>
  {
    var kept := Kept(repeats, events);
    Chosens(start, kept, closed, |kept|)
  }

  /** Some message of the stream ended the source. */
  ghost predicate Ended(start: int, repeats: bool, events: seq<Event>)
  {
    exists e :: e in Kept(repeats, events) && Ends(start, e)
  }

  /** The message waiting to be overtaken by one that is in time. */
  function Pending(start: int, kept: seq<Event>): Option<FbMessage>
  {
    if kept != [] && !InTime(start, kept[|kept| - 1]) then Some(kept[|kept| - 1].msg) else None
  }

  function AsSeq<T>(o: Option<T>): seq<T>
  {
    if o.Some? then [o.value] else []
  }

  lemma {:induction false} ChosensOfPrefix(start: int, kept: seq<Event>, e: Event, closed: bool, closed': bool, n: nat)
    requires n < |kept|
    ensures Chosens(start, kept + [e], closed, n) == Chosens(start, kept, closed', n)
  {
    if n > 0 {
      ChosensOfPrefix(start, kept, e, closed, closed', n - 1);
      assert (kept + [e])[n - 1] == kept[n - 1] && (kept + [e])[n] == kept[n];
    }
  }

  lemma {:induction false} ClosedOnlyAddsTheLast(start: int, kept: seq<Event>, n: nat)
    requires n < |kept|
    ensures Chosens(start, kept, true, n) == Chosens(start, kept, false, n)
  {
    if n > 0 {
      ClosedOnlyAddsTheLast(start, kept, n - 1);
    }
  }

  /** Closing transmits exactly the pending message. */
  lemma ClosingSendsPending(start: int, kept: seq<Event>)
    ensures Chosens(start, kept, true, |kept|) == Chosens(start, kept, false, |kept|) + AsSeq(Pending(start, kept))
  {
    if kept != [] {
      ClosedOnlyAddsTheLast(start, kept, |kept| - 1);
    }
  }

  /** One more kept message: an early one only replaces the pending one, one in time sends both. */
  lemma NextChosen(start: int, kept: seq<Event>, e: Event)
    ensures Chosens(start, kept + [e], false, |kept| + 1) ==
            Chosens(start, kept, false, |kept|) + if InTime(start, e) then AsSeq(Pending(start, kept)) + [e.msg] else []
  {
    var k := kept + [e];
    assert k[|kept|] == e;
    if kept != [] {
      var n := |kept| - 1;
      ChosensOfPrefix(start, kept, e, false, false, n);
      assert k[n] == kept[n];
    }
  }

  lemma {:induction false} DeliveriesAdd(dests: seq<nat>, a: seq<FbMessage>, b: seq<FbMessage>)
    ensures Deliveries(dests, a + b) == Deliveries(dests, a) + Deliveries(dests, b)
  {
    hide Deliveries, FanOut;
    if b == [] {
      assert a + b == a;
      NoDeliveries(dests);
    } else {
      var front, last := b[..|b| - 1], b[|b| - 1];
      DeliveriesAdd(dests, a, front);
      NextDelivery(dests, front, last);
      NextDelivery(dests, a + front, last);
      assert front + [last] == b && a + front + [last] == a + b;
    }
  }

  lemma NoDeliveries(dests: seq<nat>)
    ensures Deliveries(dests, []) == []
  {
  }

  lemma NextDelivery(dests: seq<nat>, msgs: seq<FbMessage>, msg: FbMessage)
    ensures Deliveries(dests, msgs + [msg]) == Deliveries(dests, msgs) + FanOut(dests, msg)
  {
    hide FanOut;
    assert (msgs + [msg])[..|msgs|] == msgs;
  }

  lemma SingleDelivery(dests: seq<nat>, msg: FbMessage)
    ensures Deliveries(dests, [msg]) == FanOut(dests, msg)
  {
    assert [msg][..0] == [];
    assert Deliveries(dests, [msg]) == [] + FanOut(dests, msg);
  }

  // ----- The state of a filter, as a value

  datatype State = State(
    current: int, isDone: bool, buffered: Option<FbMessage>,
    received: nat, transmitted: nat, discarded: nat,
    events: seq<Event>, sent: seq<FbMessage>, jobs: seq<Job>, closed: bool)

  datatype Setup = Setup(start: int, repeats: bool, dests: seq<nat>)

  /** Conservation: every message received was passed on, discarded or is still buffered. */
  ghost predicate Conserved(s: State)
  {
    && s.received == |s.events| && s.transmitted == |s.sent|
    && s.received == s.transmitted + s.discarded + |AsSeq(s.buffered)|
  }

  /** The state is the one these events lead to. */
  ghost predicate Consistent(c: Setup, s: State)
  {
    var kept := Kept(c.repeats, s.events);
    && Conserved(s)
    && s.current == (var t := LastTimestamp(s.events); if t.Some? then t.value else 0)
    && (forall e :: e in s.events && e.msg.valid ==> e.msg.timestamp != 0)
    && s.sent == Transmission(c.start, c.repeats, s.events, s.closed)
    && s.jobs == Deliveries(c.dests, s.sent)
    && s.buffered == (if s.closed then None else Pending(c.start, kept))
    && (forall e :: e in kept ==> e.msg.valid)
    && (s.isDone <==> Ended(c.start, c.repeats, s.events))
  }

  lemma BufferedIsValid(c: Setup, s: State)
    requires Consistent(c, s) && s.buffered.Some?
    ensures s.buffered.value.valid
  {
  }

  lemma AfterDrop(c: Setup, s: State, e: Event)
    requires Consistent(c, s) && !s.closed && (e.msg.valid ==> e.msg.timestamp != 0)
    requires !e.msg.valid || (!c.repeats && e.msg.timestamp == s.current)
    ensures Consistent(c, s.(received := s.received + 1, discarded := s.discarded + 1, events := s.events + [e]))
  {
    hide Kept, LastTimestamp, Chosens, Deliveries;
    DroppedChangesNothing(c, s.events, e, s.current);
  }

  lemma DroppedChangesNothing(c: Setup, events: seq<Event>, e: Event, current: int)
    requires current == (var t := LastTimestamp(events); if t.Some? then t.value else 0)
    requires e.msg.valid ==> e.msg.timestamp != 0 && !c.repeats && e.msg.timestamp == current
    ensures Kept(c.repeats, events + [e]) == Kept(c.repeats, events)
    ensures LastTimestamp(events + [e]) == LastTimestamp(events)
  {
    assert (events + [e])[..|events|] == events;
  }

  lemma AfterKept(c: Setup, s: State, e: Event)
    requires Consistent(c, s) && e.msg.valid && e.msg.timestamp != 0 && (c.repeats || e.msg.timestamp != s.current)
    ensures Kept(c.repeats, s.events + [e]) == Kept(c.repeats, s.events) + [e]
    ensures LastTimestamp(s.events + [e]) == Some(e.msg.timestamp)
    ensures Ended(c.start, c.repeats, s.events + [e]) <==> s.isDone || Ends(c.start, e)
  {
    assert (s.events + [e])[..|s.events|] == s.events;
    assert e in Kept(c.repeats, s.events) + [e];
  }

  lemma AfterEarly(c: Setup, s: State, e: Event)
    requires Consistent(c, s) && !s.closed && e.msg.valid && e.msg.timestamp != 0
    requires c.repeats || e.msg.timestamp != s.current
    requires !InTime(c.start, e)
    ensures Consistent(c, s.(received := s.received + 1, discarded := s.discarded + |AsSeq(s.buffered)|,
                             current := e.msg.timestamp, buffered := Some(e.msg), events := s.events + [e]))
  {
    hide Kept, Ended, LastTimestamp;
    AfterKept(c, s, e);
    NextChosen(c.start, Kept(c.repeats, s.events), e);
  }

  lemma AfterInTime(c: Setup, s: State, e: Event)
    requires Consistent(c, s) && !s.closed && e.msg.valid && e.msg.timestamp != 0
    requires c.repeats || e.msg.timestamp != s.current
    requires InTime(c.start, e)
    ensures var out := AsSeq(s.buffered) + [e.msg];
            Consistent(c, s.(received := s.received + 1, transmitted := s.transmitted + |out|,
                             current := e.msg.timestamp, buffered := None, events := s.events + [e],
                             sent := s.sent + out, jobs := s.jobs + Deliveries(c.dests, out),
                             isDone := s.isDone || Ends(c.start, e)))
  {
    hide Kept, Ended, LastTimestamp, Deliveries;
    AfterKept(c, s, e);
    NextChosen(c.start, Kept(c.repeats, s.events), e);
    DeliveriesAdd(c.dests, s.sent, AsSeq(s.buffered) + [e.msg]);
    var kept := Kept(c.repeats, s.events);
    assert Chosens(c.start, kept + [e], false, |kept| + 1) == s.sent + (AsSeq(s.buffered) + [e.msg]);
  }

  lemma AfterClose(c: Setup, s: State)
    requires Consistent(c, s) && !s.closed
    ensures var out := AsSeq(s.buffered);
            Consistent(c, s.(closed := true, buffered := None, transmitted := s.transmitted + |out|,
                             sent := s.sent + out, jobs := s.jobs + Deliveries(c.dests, out)))
  {
    hide Kept, Ended, LastTimestamp, Deliveries;
    ClosingSendsPending(c.start, Kept(c.repeats, s.events));
    DeliveriesAdd(c.dests, s.sent, AsSeq(s.buffered));
  }

  // ----- The filter

  class Filter {
    const start: int
    const writeRepeatedTimestamps: bool
    const dests: seq<nat>
    const writer: Writer
    const producer: nat
    var stop: int
    var currentTimestamp: int
    var isDone: bool
    var buffered: Option<FbMessage>
    var received: nat
    var transmitted: nat
    var discarded: nat
    /** Every message given to the filter, what it passed on, the write jobs it queued, and whether it was destroyed. */
    ghost var events: seq<Event>
    ghost var sent: seq<FbMessage>
    ghost var jobs: seq<Job>
    ghost var closed: bool

    ghost function Config(): Setup
    {
      Setup(start, writeRepeatedTimestamps, dests)
    }

    ghost function Now(): State
      reads this
    {
      State(currentTimestamp, isDone, buffered, received, transmitted, discarded, events, sent, jobs, closed)
    }

    ghost predicate Valid()
      reads this
    {
      Consistent(Config(), Now())
    }

    constructor (start: int, stop: int, repeats: bool, dests: seq<nat>, writer: Writer, producer: nat)
      ensures Valid() && events == [] && sent == [] && jobs == [] && !closed && !isDone
      ensures this.start == start && this.stop == stop && writeRepeatedTimestamps == repeats
      ensures this.dests == dests && this.writer == writer && this.producer == producer
    {
      this.start, this.stop, writeRepeatedTimestamps := start, stop, repeats;
      this.dests, this.writer, this.producer := dests, writer, producer;
      currentTimestamp, isDone, buffered := 0, false, None;
      received, transmitted, discarded := 0, 0, 0;
      events, sent, jobs, closed := [], [], [], false;
    }

    method SetStopTime(t: int)
      requires Valid()
      modifies this`stop
      ensures Valid() && stop == t
    {
      stop := t;
    }

    /** Exactly these jobs were added to the writer's queue, after what this producer had added before. */
    twostate predicate Enqueued(added: seq<Job>)
      reads writer`enqueued, writer`enqueuedCount
    {
      && QueueOf(writer.enqueued, producer) == old(QueueOf(writer.enqueued, producer)) + added
      && (forall p :: p != producer ==> QueueOf(writer.enqueued, p) == old(QueueOf(writer.enqueued, p)))
      && writer.enqueuedCount == old(writer.enqueuedCount) + |added|
    }

    /** One write job per destination, in order. */
    method SendMessage(msg: FbMessage)
      requires writer.Valid()
      modifies this`transmitted, this`sent, this`jobs, writer`queues, writer`enqueued, writer`enqueuedCount
      ensures writer.Valid()
      ensures transmitted == old(transmitted) + 1 && sent == old(sent) + [msg]
      ensures jobs == old(jobs) + FanOut(dests, msg)
      ensures Enqueued(FanOut(dests, msg))
    {
      hide Writer.Valid, QueueOf;
      transmitted := transmitted + 1;
      sent := sent + [msg];
      for i := 0 to |dests|
        modifies writer`queues, writer`enqueued, writer`enqueuedCount
        invariant writer.Valid() && Enqueued(FanOut(dests, msg)[..i])
      {
        writer.AddMessage(producer, Job(dests[i], msg));
        assert FanOut(dests, msg)[..i + 1] == FanOut(dests, msg)[..i] + [Job(dests[i], msg)];
      }
      assert FanOut(dests, msg)[..|dests|] == FanOut(dests, msg);
      jobs := jobs + FanOut(dests, msg);
    }

    method SendBufferedMessage()
      requires writer.Valid() && (buffered.Some? ==> buffered.value.valid)
      modifies this`transmitted, this`sent, this`jobs, this`buffered, writer`queues, writer`enqueued, writer`enqueuedCount
      ensures writer.Valid() && buffered == None
      ensures transmitted == old(transmitted) + |AsSeq(old(buffered))| && sent == old(sent) + AsSeq(old(buffered))
      ensures jobs == old(jobs) + Deliveries(dests, AsSeq(old(buffered)))
      ensures Enqueued(Deliveries(dests, AsSeq(old(buffered))))
    {
      hide Writer.Valid, QueueOf;
      if buffered.Some? && buffered.value.valid {
        SendMessage(buffered.value);
        SingleDelivery(dests, buffered.value);
        buffered := None;
      }
    }

    /** The buffered message, if any, and then this one. */
    method SendBoth(msg: FbMessage)
      requires writer.Valid() && (buffered.Some? ==> buffered.value.valid)
      modifies this`transmitted, this`sent, this`jobs, this`buffered, writer`queues, writer`enqueued, writer`enqueuedCount
      ensures var out := AsSeq(old(buffered)) + [msg];
              && writer.Valid() && buffered == None
              && transmitted == old(transmitted) + |out| && sent == old(sent) + out
              && jobs == old(jobs) + Deliveries(dests, out) && Enqueued(Deliveries(dests, out))
    {
      hide Writer.Valid, QueueOf, Deliveries;
      DeliveriesAdd(dests, AsSeq(buffered), [msg]);
      SingleDelivery(dests, msg);
      SendBufferedMessage();
      SendMessage(msg);
    }

    /** The destructor: whatever is buffered still goes out. */
    method Close()
      requires Valid() && !closed && writer.Valid()
      modifies this, writer`queues, writer`enqueued, writer`enqueuedCount
      ensures Valid() && closed && writer.Valid()
      ensures events == old(events) && isDone == old(isDone) && stop == old(stop)
      ensures old(jobs) <= jobs && Enqueued(jobs[|old(jobs)|..])
    {
      hide Writer.Valid, QueueOf, Deliveries, Consistent;
      if buffered.Some? { BufferedIsValid(Config(), Now()); }
      AfterClose(Config(), Now());
      SendBufferedMessage();
      closed := true;
    }

    /** An invalid message, or an immediate repeat of a timestamp where repeats are not wanted. */
    predicate Unwanted(msg: FbMessage)
      reads this`currentTimestamp
    {
      !msg.valid || (msg.timestamp == currentTimestamp && !writeRepeatedTimestamps)
    }

    /**
     Result: the message was passed on. In nanoseconds: a wanted message is, once it reaches the
     start time, and it ends the source once it reaches the time after the stop time.
     */
    method FilterMessage(msg: FbMessage) returns (passedOn: bool)
      requires Valid() && !closed && writer.Valid()
      requires msg.valid ==> msg.timestamp != 0
      modifies this, writer`queues, writer`enqueued, writer`enqueuedCount
      ensures Valid() && !closed && writer.Valid()
      ensures events == old(events) + [Event(msg, stop)] && stop == old(stop)
      ensures old(jobs) <= jobs && Enqueued(jobs[|old(jobs)|..])
      ensures sent == old(sent) + if passedOn then AsSeq(old(buffered)) + [msg] else []
      ensures passedOn <==> !old(Unwanted(msg)) && Reaches(msg.timestamp, start)
      ensures isDone <==> old(isDone) || (passedOn && Reaches(msg.timestamp, stop + 1))
      ensures !old(Unwanted(msg)) && start % 1000 == 0 && start > 0 ==> (passedOn <==> msg.timestamp >= start)
      ensures passedOn && stop % 1000 == 0 && stop >= 0 ==> (isDone <==> old(isDone) || msg.timestamp >= stop + 1000)
      ensures buffered == if passedOn then None else if old(Unwanted(msg)) then old(buffered) else Some(msg)
      ensures currentTimestamp == if old(Unwanted(msg)) then old(currentTimestamp) else msg.timestamp
    {
      hide Writer.Valid, QueueOf, Deliveries, Consistent, Micros, Reaches;
      TimesReached(msg.timestamp);
      if !msg.valid || (msg.timestamp == currentTimestamp && !writeRepeatedTimestamps) {
        Discard(msg);
        return false;
      }
      if Micros(msg.timestamp) < start {
        Hold(msg);
        return false;
      }
      PassOn(msg);
      return true;
    }

    lemma TimesReached(ns: int)
      ensures Micros(ns) >= start <==> Reaches(ns, start)
      ensures Micros(ns) > stop <==> Reaches(ns, stop + 1)
      ensures start % 1000 == 0 && start > 0 ==> (Reaches(ns, start) <==> ns >= start)
      ensures stop % 1000 == 0 && stop >= 0 ==> (Reaches(ns, stop + 1) <==> ns >= stop + 1000)
    {
      hide Micros, Reaches;
      MicrosReach(ns, start);
      MicrosReach(ns, stop + 1);
      if start % 1000 == 0 { WholeMicros(ns, start); }
      if stop % 1000 == 0 { WholeMicros(ns, stop); }
    }

    /** An invalid message, or an unwanted repeat of a timestamp. */
    method Discard(msg: FbMessage)
      requires Valid() && !closed && (msg.valid ==> msg.timestamp != 0)
      requires !msg.valid || (msg.timestamp == currentTimestamp && !writeRepeatedTimestamps)
      modifies this`received, this`discarded, this`events
      ensures Valid() && events == old(events) + [Event(msg, stop)]
    {
      hide Consistent;
      AfterDrop(Config(), Now(), Event(msg, stop));
      received := received + 1;
      events := events + [Event(msg, stop)];
      discarded := discarded + 1;
    }

    /** A message before the start time replaces the one that is buffered. */
    method Hold(msg: FbMessage)
      requires Valid() && !closed && msg.valid && msg.timestamp != 0 && Micros(msg.timestamp) < start
      requires writeRepeatedTimestamps || msg.timestamp != currentTimestamp
      modifies this`received, this`discarded, this`events, this`currentTimestamp, this`buffered
      ensures Valid() && events == old(events) + [Event(msg, stop)]
      ensures buffered == Some(msg) && currentTimestamp == msg.timestamp
    {
      hide Consistent, Micros;
      AfterEarly(Config(), Now(), Event(msg, stop));
      if buffered.Some? { BufferedIsValid(Config(), Now()); }
      received := received + 1;
      events := events + [Event(msg, stop)];
      currentTimestamp := msg.timestamp;
      if buffered.Some? && buffered.value.valid {
        discarded := discarded + 1;
      }
      buffered := Some(msg);
    }

    /** A message at or after the start time goes out, after the one that is buffered. */
    method PassOn(msg: FbMessage)
      requires Valid() && !closed && writer.Valid() && msg.valid && msg.timestamp != 0 && Micros(msg.timestamp) >= start
      requires writeRepeatedTimestamps || msg.timestamp != currentTimestamp
      modifies this, writer`queues, writer`enqueued, writer`enqueuedCount
      ensures Valid() && !closed && writer.Valid()
      ensures events == old(events) + [Event(msg, stop)] && stop == old(stop)
      ensures old(jobs) <= jobs && Enqueued(jobs[|old(jobs)|..])
      ensures sent == old(sent) + (AsSeq(old(buffered)) + [msg]) && buffered == None && currentTimestamp == msg.timestamp
      ensures isDone <==> old(isDone) || Micros(msg.timestamp) > stop
    {
      hide Writer.Valid, QueueOf, Deliveries, Consistent, Micros;
      AfterInTime(Config(), Now(), Event(msg, stop));
      if buffered.Some? { BufferedIsValid(Config(), Now()); }
      received := received + 1;
      events := events + [Event(msg, stop)];
      currentTimestamp := msg.timestamp;
      if Micros(msg.timestamp) > stop {
        isDone := true;
      }
      SendBoth(msg);
    }
  }
}
