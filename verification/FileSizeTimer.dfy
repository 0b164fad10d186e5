/** The periodic estimate of the file size, made while a job is being written. */
module FileSizeTimer {
  import opened Grid

  /** A number of periods as a 32-bit `int`. */
  lemma TruncatedPeriods(whole: nat)
    ensures ToInt32(whole) <= whole
    ensures if whole < INT32_LIMIT then ToInt32(whole) == whole else ToInt32(whole) + 1 <= whole
  {
    SmallInt32(whole);
    var k := Int32Congruent(whole);
    hide ToInt32;
  }

  lemma MultipleOfWhole(a: int, whole: nat, d: nat, interval: nat)
    requires whole * interval <= d < whole * interval + interval
    ensures a <= whole ==> a * interval <= d
    ensures a + 1 <= whole ==> a * interval + interval <= d
  {
    if a <= whole { NoMorePeriods(a, whole, interval); }
    if a + 1 <= whole {
      NoMorePeriods(a + 1, whole, interval);
      PeriodsAdd(0, a, 1, interval);
    }
  }

  /** The last calculation time after catching up by whole periods, counted in a 32-bit `int`. */
  function CaughtUp(last: int, whole: nat, interval: nat): int
  {
    last + interval * ToInt32(whole)
  }

  lemma CaughtUpIff(last: int, t: int, interval: nat)
    requires interval > 0 && last <= t
    ensures var whole := (t - last) / interval; var next := CaughtUp(last, whole, interval);
            && next <= t && (t < next + interval <==> whole < INT32_LIMIT)
            && (whole < INT32_LIMIT ==> next == last + whole * interval)
            && (whole >= 1 <==> t - last >= interval)
            && (whole == 0 ==> next == last)
  {
    hide ToInt32;
    var whole := (t - last) / interval;
    WholePeriods(t - last, interval);
    TruncatedPeriods(whole);
    MultipleOfWhole(ToInt32(whole), whole, t - last, interval);
    MultipleOfWhole(0, whole, t - last, interval);
  }

  class Timer {
    const interval: nat
    var last: int
    var now: int
    ghost const start: int
    ghost var updates: nat
    ghost var periods: nat
    /** No check came 2^31 intervals after the last calculation, or later. */
    ghost var punctual: bool

    /** The last calculation time keeps its phase, and no period is counted twice. */
    ghost predicate Valid()
      reads this
    {
      && interval > 0 && last <= now
      && (punctual ==> last == start - interval + periods * interval && updates <= periods)
    }

    /** The first check is already due. */
    constructor (now: int, interval: nat)
      requires interval > 0
      ensures Valid() && start == now && this.now == now && this.interval == interval && updates == 0 && punctual
    {
      this.now, start, this.interval := now, now, interval;
      last, updates, periods, punctual := now - interval, 0, 0, true;
    }

    /**
     One check at time `t`. The size is estimated when a whole interval has passed; and the last
     calculation time catches up to less than an interval ago exactly when fewer than 2^31 have.
     */
    method Check(t: int, done: bool) returns (estimated: bool)
      requires Valid() && t >= now
      modifies this
      ensures Valid() && now == t
      ensures estimated <==> !done && t - old(last) >= interval
      ensures updates == old(updates) + if estimated then 1 else 0
      ensures done ==> last == old(last) && punctual == old(punctual)
      ensures !done ==> var intime := (t - old(last)) / interval < INT32_LIMIT;
                        last <= t && (t < last + interval <==> intime) && punctual == (old(punctual) && intime)
    {
      hide CaughtUp;
      now := t;
      estimated := false;
      if !done {
        var whole := (t - last) / interval;
        CaughtUpIff(last, t, interval);
        if whole >= 1 {
          estimated := true;
          PeriodsAdd(start - interval, periods, whole, interval);
          last := CaughtUp(last, whole, interval);
          updates := updates + 1;
          punctual := punctual && whole < INT32_LIMIT;
          periods := periods + whole;
        }
      }
    }

    /** Over a whole run, if it was punctual, there is at most one estimate per interval elapsed, and the one at the start. */
    lemma EstimatesAreBounded()
      requires Valid() && punctual
      ensures updates * interval <= now - start + interval
    {
      NoMorePeriods(updates, periods, interval);
    }
  }
}
