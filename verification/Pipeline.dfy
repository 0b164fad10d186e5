/** The end of a partition's life: its filters are destroyed and the writer drains its queue. */
module Pipeline {
  import opened StreamMessage
  import opened SourceFilter
  import opened Partition
  import MessageWriter

  /** What the source of a filter calls for, when these messages reached the partition. */
  ghost function Called(x: (nat, Filter), history: seq<Event>): seq<FbMessage>
  {
    var (source, f) := x;
    Transmission(f.start, f.writeRepeatedTimestamps, Cut(f.Config(), Route(history, source)), true)
  }

  /** What a destination got is every message as often as the destination is listed. */
  ghost predicate Gets(got: seq<FbMessage>, sent: seq<FbMessage>, listed: nat)
  {
    got == EachTimes(sent, listed) && (listed == 1 ==> got == sent) && (listed == 0 ==> got == [])
  }

  /** Every destination of one filter only got that filter's messages. */
  ghost predicate AllGet(jobs: seq<Job>, all: seq<(nat, Filter)>, history: seq<Event>)
  {
    forall k, d: nat :: 0 <= k < |all| && OnlyFilter(all, k, d) ==>
      Gets(To(jobs, d), Called(all[k], history), Listed(all[k].1.dests, d))
  }

  lemma CollectedIsGot(jobs: seq<Job>, all: seq<(nat, Filter)>, delivered: seq<seq<Job>>, history: seq<Event>)
    requires Collects(jobs, all, delivered)
    requires forall k :: 0 <= k < |all| ==> delivered[k] == Deliveries(all[k].1.dests, Called(all[k], history))
    ensures AllGet(jobs, all, history)
  {
    hide To, Called, Deliveries, EachTimes, Listed, JobsOf;
    forall k, d: nat | 0 <= k < |all| && OnlyFilter(all, k, d)
      ensures Gets(To(jobs, d), Called(all[k], history), Listed(all[k].1.dests, d))
    {
      DeliveriesTo(all[k].1.dests, Called(all[k], history), d);
      OnceOrNever(Called(all[k], history));
    }
  }

  /** The partition is gone: its jobs are the deliveries of what its sources call for. */
  method Finish(p: Partition)
    requires p.Valid()
    modifies p, p.objects, p.writer`queues, p.writer`enqueued, p.writer`enqueuedCount
    ensures p.writer.Valid() && p.QueueMatches() && p.history == old(p.history) && |p.delivered| == |p.all|
    ensures forall k :: 0 <= k < |p.all| ==> p.delivered[k] == Deliveries(p.all[k].1.dests, Called(p.all[k], p.history))
  {
    hide Partition.QueueMatches, MessageWriter.Writer.Valid, Cut, Route, Transmission, Deliveries;
    p.Destroy();
  }

  /**
   End to end: once the partition is gone and the writer has run its final drain, the writes done
   for this partition are exactly one per destination of every message its sources' events call
   for, and every job of any partition was either done or counted as an error. A destination that
   belongs to one filter only got that filter's messages in their order, each as often as it is
   listed. Other partitions may go on adding jobs during the drain. The writer thread gets to it
   right after a check of the flush time.
   */
  method FinishAndDrain(p: Partition, arrivals: seq<seq<(nat, Job)>>)
    requires p.Valid() && p.writer.unchecked == 0 && MessageWriter.NoneFrom(arrivals, p.producer)
    modifies p, p.objects, p.writer
    ensures p.writer.Valid() && p.history == old(p.history) && |p.delivered| == |p.all|
    ensures multiset(MessageWriter.QueueOf(p.writer.executed, p.producer)) == JobsOf(p.delivered)
    ensures forall k :: 0 <= k < |p.all| ==> p.delivered[k] == Deliveries(p.all[k].1.dests, Called(p.all[k], p.history))
    ensures AllGet(MessageWriter.QueueOf(p.writer.executed, p.producer), p.all, p.history)
    ensures p.writer.writesDone + p.writer.writeErrors == p.writer.enqueuedCount
    ensures forall q :: MessageWriter.QueueOf(p.writer.queues, q) == []
  {
    hide MessageWriter.Writer.Valid, MessageWriter.QueueOf, Partition.Valid, Called, Deliveries, JobsOf, AllGet;
    Finish(p);
    p.SeparateObjects();
    ghost var jobs := MessageWriter.QueueOf(p.writer.enqueued, p.producer);
    assert Collects(jobs, p.all, p.delivered) && jobs + [] == jobs;
    var seen := p.writer.WriteOperation(arrivals);
    MessageWriter.NoneJoined(arrivals, p.producer, seen);
    CollectedIsGot(MessageWriter.QueueOf(p.writer.executed, p.producer), p.all, p.delivered, p.history);
  }
}
