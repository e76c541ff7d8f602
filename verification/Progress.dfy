/**
 * Rate limiting of progress messages.  Times are in microseconds; the clock is
 * an argument of every call.
 */
module Progress {

  const NOTIFICATION_INITIAL_DELAY: int := 2_000_000
  const NOTIFICATION_PERIOD: int := 333_333

  /** `count_progress` and `last_progress_t`, as main_loop resets them for a request. */
  datatype Limiter = Limiter(count: nat, last: int)

  function NewRequest(start: int): Limiter { Limiter(0, start) }

  /** How notify_progress decides: held back, sent because it is the 100% one, or sent on schedule. */
  datatype Verdict = HeldBack | Final | Scheduled

  function Decide(l: Limiter, now: int, position: nat, total: nat): Verdict {
    if l.count > 0 && position == total then Final
    else
      var elapsed := now - l.last;
      if (l.count == 0 && elapsed < NOTIFICATION_INITIAL_DELAY) || (l.count > 0 && elapsed < NOTIFICATION_PERIOD)
      then HeldBack
      else Scheduled
  }

  function Notify(l: Limiter, now: int, position: nat, total: nat): Limiter {
    if Decide(l, now, position, total) == HeldBack then l else Limiter(l.count + 1, now)
  }

  datatype Call = Call(now: int, position: nat, total: nat)

  predicate Nondecreasing(start: int, calls: seq<Call>) {
    && (forall i :: 0 <= i < |calls| ==> start <= calls[i].now)
    && (forall i, j :: 0 <= i < j < |calls| ==> calls[i].now <= calls[j].now)
  }

  /** The limiter after a request's calls so far. */
  function After(start: int, calls: seq<Call>): Limiter {
    if calls == [] then NewRequest(start)
    else
      var c := calls[|calls| - 1];
      Notify(After(start, calls[..|calls| - 1]), c.now, c.position, c.total)
  }

  function CountScheduled(start: int, calls: seq<Call>): nat {
    if calls == [] then 0
    else
      var c := calls[|calls| - 1];
      var before := calls[..|calls| - 1];
      CountScheduled(start, before) +
      if Decide(After(start, before), c.now, c.position, c.total) == Scheduled then 1 else 0
  }

  /** The limiter of a request that began at `start`, after n scheduled messages, at some time up to `now`. */
  predicate OnSchedule(l: Limiter, start: int, n: nat, now: int) {
    && (l.count == 0 <==> n == 0)
    && (n == 0 ==> l.last == start)
    && (n > 0 ==> l.last >= start + NOTIFICATION_INITIAL_DELAY + (n - 1) * NOTIFICATION_PERIOD)
    && l.last <= now
  }

  lemma {:induction false} NotifyKeepsSchedule(l: Limiter, start: int, n: nat, before: int, now: int, position: nat,
                                               total: nat)
    requires OnSchedule(l, start, n, before) && before <= now
    ensures var n' := n + if Decide(l, now, position, total) == Scheduled then 1 else 0;
            OnSchedule(Notify(l, now, position, total), start, n', now)
  {
  }

  /** At most 1 + (t - 2000000) / 333333 scheduled messages in t microseconds, and none before 2000000. */
  predicate WithinRate(n: nat, t: int) {
    && (t < NOTIFICATION_INITIAL_DELAY ==> n == 0)
    && (t >= NOTIFICATION_INITIAL_DELAY ==> n <= 1 + (t - NOTIFICATION_INITIAL_DELAY) / NOTIFICATION_PERIOD)
  }

  lemma {:induction false} ScheduleIsWithinRate(l: Limiter, start: int, n: nat, now: int)
    requires OnSchedule(l, start, n, now)
    ensures WithinRate(n, now - start)
  {
    if n > 0 {
      DivideBound(n - 1, now - start - NOTIFICATION_INITIAL_DELAY);
    }
  }

  lemma {:induction false} ScheduleInvariant(start: int, calls: seq<Call>)
    requires Nondecreasing(start, calls)
    ensures var now := if calls == [] then start else calls[|calls| - 1].now;
            OnSchedule(After(start, calls), start, CountScheduled(start, calls), now)
  {
    if calls != [] {
      var before, c := calls[..|calls| - 1], calls[|calls| - 1];
      ScheduleInvariant(start, before);
      var earlier := if before == [] then start else before[|before| - 1].now;
      NotifyKeepsSchedule(After(start, before), start, CountScheduled(start, before), earlier,
                          c.now, c.position, c.total);
    }
  }

  /**
   * A request that makes its last call T microseconds after it started has sent no
   * scheduled message if T < 2000000, and at most 1 + (T - 2000000) / 333333 otherwise.
   */
  lemma {:induction false} RateLimit(start: int, calls: seq<Call>)
    requires Nondecreasing(start, calls) && calls != []
    ensures WithinRate(CountScheduled(start, calls), calls[|calls| - 1].now - start)
  {
    ScheduleInvariant(start, calls);
    ScheduleIsWithinRate(After(start, calls), start, CountScheduled(start, calls), calls[|calls| - 1].now);
  }

  lemma {:induction false} DivideBound(k: nat, t: int)
    requires k * NOTIFICATION_PERIOD <= t
    ensures k <= t / NOTIFICATION_PERIOD
  {
  }

  /** Once any message was sent, every 100% call is delivered, however soon it comes. */
  lemma {:induction false} FinalIsDelivered(start: int, calls: seq<Call>, k: nat)
    requires Nondecreasing(start, calls) && k < |calls|
    requires CountScheduled(start, calls[..k]) > 0 && calls[k].position == calls[k].total
    ensures After(start, calls[..k + 1]).count == After(start, calls[..k]).count + 1
  {
    ScheduleInvariant(start, calls[..k]);
    assert calls[..k + 1][..k] == calls[..k];
  }

  /** Call k led to a message. */
  predicate Delivered(start: int, calls: seq<Call>, k: nat)
    requires k < |calls|
  {
    After(start, calls[..k + 1]).count > After(start, calls[..k]).count
  }

  lemma {:induction false} AfterNext(start: int, calls: seq<Call>, k: nat)
    requires k < |calls|
    ensures var l, c := After(start, calls[..k]), calls[k];
            && After(start, calls[..k + 1]) == Notify(l, c.now, c.position, c.total)
            && (Delivered(start, calls, k) <==> Decide(l, c.now, c.position, c.total) != HeldBack)
  {
    assert calls[..k + 1][..k] == calls[..k];
  }

  /** As long as nothing is delivered the limiter does not change. */
  lemma {:induction false} SilenceKeeps(start: int, calls: seq<Call>, j: nat, k: nat)
    requires j <= k <= |calls| && forall i :: j <= i < k ==> !Delivered(start, calls, i)
    ensures After(start, calls[..k]) == After(start, calls[..j])
  {
    if j < k {
      SilenceKeeps(start, calls, j, k - 1);
      AfterNext(start, calls, k - 1);
    }
  }

  /** A call as late as the initial delay finds that a message was sent, or sends the first one itself. */
  lemma {:induction false} FirstIsDelivered(start: int, calls: seq<Call>, k: nat)
    requires Nondecreasing(start, calls) && k < |calls| && calls[k].now >= start + NOTIFICATION_INITIAL_DELAY
    ensures exists i :: 0 <= i <= k && Delivered(start, calls, i)
  {
    if forall i :: 0 <= i < k ==> !Delivered(start, calls, i) {
      SilenceKeeps(start, calls, 0, k);
      AfterNext(start, calls, k);
      assert Delivered(start, calls, k);
    }
  }

  /** After a message, a call one period later is delivered unless another one was in between. */
  lemma {:induction false} EveryPeriodIsDelivered(start: int, calls: seq<Call>, j: nat, k: nat)
    requires Nondecreasing(start, calls) && j < k < |calls| && Delivered(start, calls, j)
    requires calls[k].now >= calls[j].now + NOTIFICATION_PERIOD
    ensures exists i :: j < i <= k && Delivered(start, calls, i)
  {
    if forall i :: j < i < k ==> !Delivered(start, calls, i) {
      AfterNext(start, calls, j);
      SilenceKeeps(start, calls, j + 1, k);
      AfterNext(start, calls, k);
      assert Delivered(start, calls, k);
    }
  }

  /**
   * Pulses sent by the timer do not count as messages, yet if one was sent (the timer
   * first fires NOTIFICATION_INITIAL_DELAY after it was armed, during the request),
   * the closing 100% message of pulse_mode_end is delivered.
   */
  lemma {:induction false} PulseEndIsDelivered(start: int, calls: seq<Call>, armed: int, fired: int, now: int)
    requires Nondecreasing(start, calls)
    requires start <= armed && armed + NOTIFICATION_INITIAL_DELAY <= fired <= now
    ensures Decide(After(start, calls), now, 1, 1) != HeldBack
  {
    ScheduleInvariant(start, calls);
  }
}
