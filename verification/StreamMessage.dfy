/** The messages that travel from a Kafka partition to the writer modules. */
module StreamMessage {
  import opened Grid

  /** A decoded message: its validity, nanosecond timestamp, source hash and content. */
  datatype FbMessage = FbMessage(valid: bool, timestamp: int, source: nat, id: nat, content: int)

  /** A write to be done: a message for one writer module. */
  datatype Job = Job(dest: nat, msg: FbMessage)

  /** The jobs for one message, one per destination in order. */
  function FanOut(dests: seq<nat>, msg: FbMessage): (jobs: seq<Job>)
    ensures |jobs| == |dests|
  {
    seq(|dests|, i requires 0 <= i < |dests| => Job(dests[i], msg))
  }

  /** The jobs for a sequence of messages. */
  function Deliveries(dests: seq<nat>, msgs: seq<FbMessage>): seq<Job>
  {
    if msgs == [] then [] else Deliveries(dests, msgs[..|msgs| - 1]) + FanOut(dests, msgs[|msgs| - 1])
  }

  /** One write per transmitted message and destination. */
  lemma {:induction false} DeliveryCount(dests: seq<nat>, msgs: seq<FbMessage>)
    ensures |Deliveries(dests, msgs)| == |msgs| * |dests|
  {
    if msgs != [] {
      var n := |msgs| - 1;
      DeliveryCount(dests, msgs[..n]);
      OneMore(n, |dests|);
    }
  }

  // ----- What a destination gets

  /** The messages of the jobs for one destination, in order. */
  function To(jobs: seq<Job>, d: nat): seq<FbMessage>
  {
    if jobs == [] then []
    else
      var rest, last := To(jobs[..|jobs| - 1], d), jobs[|jobs| - 1];
      if last.dest == d then rest + [last.msg] else rest
  }

  /** Every message `n` times in a row. */
  function EachTimes(msgs: seq<FbMessage>, n: nat): seq<FbMessage>
  {
    if msgs == [] then [] else EachTimes(msgs[..|msgs| - 1], n) + seq(n, _ => msgs[|msgs| - 1])
  }

  /** How often a destination is listed. */
  function Listed(dests: seq<nat>, d: nat): nat
  {
    multiset(dests)[d]
  }

  lemma ToNext(jobs: seq<Job>, job: Job, d: nat)
    ensures To(jobs + [job], d) == To(jobs, d) + if job.dest == d then [job.msg] else []
  {
    assert (jobs + [job])[..|jobs|] == jobs;
  }

  lemma {:induction false} ToAdds(a: seq<Job>, b: seq<Job>, d: nat)
    ensures To(a + b, d) == To(a, d) + To(b, d)
  {
    hide To;
    if b == [] {
      assert a + b == a;
      NothingTo(d);
    } else {
      var front, last := b[..|b| - 1], b[|b| - 1];
      ToAdds(a, front, d);
      ToNext(front, last, d);
      ToNext(a + front, last, d);
      assert front + [last] == b && a + front + [last] == a + b;
    }
  }

  lemma NothingTo(d: nat)
    ensures To([], d) == []
  {
  }

  lemma {:induction false} NotForDestination(jobs: seq<Job>, d: nat)
    requires forall j :: j in jobs ==> j.dest != d
    ensures To(jobs, d) == []
  {
    if jobs != [] {
      NotForDestination(jobs[..|jobs| - 1], d);
      assert jobs[|jobs| - 1] in jobs;
    }
  }

  lemma {:induction false} FanOutTo(dests: seq<nat>, msg: FbMessage, d: nat)
    ensures To(FanOut(dests, msg), d) == seq(Listed(dests, d), _ => msg)
  {
    if dests != [] {
      var n := |dests| - 1;
      FanOutTo(dests[..n], msg, d);
      assert dests == dests[..n] + [dests[n]];
      assert FanOut(dests, msg) == FanOut(dests[..n], msg) + [Job(dests[n], msg)];
      ToNext(FanOut(dests[..n], msg), Job(dests[n], msg), d);
    }
  }

  /** A destination gets every message as often as it is listed, in the order of the messages. */
  lemma {:induction false} DeliveriesTo(dests: seq<nat>, msgs: seq<FbMessage>, d: nat)
    ensures To(Deliveries(dests, msgs), d) == EachTimes(msgs, Listed(dests, d))
  {
    hide FanOut, Listed;
    if msgs != [] {
      var n := |msgs| - 1;
      DeliveriesTo(dests, msgs[..n], d);
      FanOutTo(dests, msgs[n], d);
      ToAdds(Deliveries(dests, msgs[..n]), FanOut(dests, msgs[n]), d);
    }
  }

  /** Once is the messages themselves, and never is nothing. */
  lemma {:induction false} OnceOrNever(msgs: seq<FbMessage>)
    ensures EachTimes(msgs, 1) == msgs && EachTimes(msgs, 0) == []
  {
    if msgs != [] {
      OnceOrNever(msgs[..|msgs| - 1]);
    }
  }

  /** Nothing is delivered anywhere else. */
  lemma {:induction false} DeliveredToListed(dests: seq<nat>, msgs: seq<FbMessage>)
    ensures forall j :: j in Deliveries(dests, msgs) ==> j.dest in dests && j.msg in msgs
  {
    if msgs != [] {
      var n := |msgs| - 1;
      DeliveredToListed(dests, msgs[..n]);
      assert msgs[n] in msgs;
    }
  }
}
