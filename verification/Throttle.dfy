/**
 Pausing the consumers when the write queue is full and resuming them once it has drained to four
 fifths of the limit.
 */
module Throttle {
  import opened Grid

  class Controller {
    const maxQueuedWrites: nat
    var queued: nat
    var paused: bool
    ghost var dequeued: nat
    ghost var pauses: nat
    ghost var resumes: nat

    /**
     The amortised bound: the fifth of the limit that every resume needs has been dequeued, and
     while paused so has whatever is already missing from a full queue.
     */
    ghost predicate Valid()
      reads this
    {
      && pauses == resumes + (if paused then 1 else 0)
      && 5 * dequeued >= resumes * maxQueuedWrites
      && (paused ==> 5 * dequeued + 5 * queued >= resumes * maxQueuedWrites + 5 * maxQueuedWrites)
    }

    constructor (maxQueuedWrites: nat)
      ensures Valid() && !paused && queued == 0 && resumes == pauses == 0 && this.maxQueuedWrites == maxQueuedWrites
    {
      this.maxQueuedWrites := maxQueuedWrites;
      queued, paused, dequeued, pauses, resumes := 0, false, 0, 0, 0;
    }

    method Enqueue()
      requires Valid()
      modifies this`queued
      ensures Valid() && queued == old(queued) + 1
    {
      queued := queued + 1;
    }

    method Dequeue()
      requires Valid() && queued > 0
      modifies this`queued, this`dequeued
      ensures Valid() && queued == old(queued) - 1 && dequeued == old(dequeued) + 1
    {
      queued, dequeued := queued - 1, dequeued + 1;
    }

    /** The periodic check: pause above the limit, resume below four fifths of it, otherwise leave as is. */
    method ThrottleIfWriteQueueIsFull()
      requires Valid()
      modifies this`paused, this`pauses, this`resumes
      ensures Valid()
      ensures paused == if !old(paused) then queued > maxQueuedWrites else 5 * queued >= 4 * maxQueuedWrites
      ensures pauses == old(pauses) + (if !old(paused) && paused then 1 else 0)
      ensures resumes == old(resumes) + (if old(paused) && !paused then 1 else 0)
    {
      if queued > maxQueuedWrites && !paused {
        paused := true;
        pauses := pauses + 1;
      } else if 5 * queued < 4 * maxQueuedWrites && paused {
        paused := false;
        OneMore(resumes, maxQueuedWrites);
        resumes := resumes + 1;
      }
    }

    /** Over any run: pauses and resumes alternate, and every resume is paid for by a fifth of the limit in writes. */
    lemma ResumesAreBounded()
      requires Valid()
      ensures resumes <= pauses <= resumes + 1
      ensures resumes * maxQueuedWrites <= 5 * dequeued
    {
    }
  }
}
