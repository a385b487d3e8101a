/** Alarm deadlines: 32-bit wrapping tick arithmetic with a one-bit rollover flag, against
    unbounded absolute time. */
module AlarmTime {
  import opened Common

  /** The `time` and `rollover` fields of an alarm. */
  datatype Timer = Timer(time: nat, rollover: bool)

  /** alt_alarm_start, with `now` the 32-bit tick counter. */
  function Start(delay: nat, now: nat): Timer {
    var time := (delay + now + 1) % WRAP;
    Timer(time, time < now)
  }

  /** alt_tick, for one alarm, with `now` the counter after its increment. */
  function ClearRollover(t: Timer, now: nat): Timer {
    if t.rollover && now == 0 then t.(rollover := false) else t
  }

  predicate Due(t: Timer, now: nat) {
    t.time <= now && !t.rollover
  }

  function Reschedule(t: Timer, now: nat, period: nat): Timer {
    var time := (t.time + period) % WRAP;
    Timer(time, if time < now then true else t.rollover)
  }

  /** At absolute tick `at`, t is set to go off at absolute tick `deadline`: the flag is set
      exactly when the deadline lies in the next 2^32 epoch.  In the last tick of an epoch the
      flag no longer matters, and the deadline may be a full 2^32 ticks away. */
  predicate Pending(t: Timer, at: nat, deadline: nat) {
    && at < deadline
    && t.time == deadline % WRAP
    && if at % WRAP == WRAP - 1 then deadline <= at + WRAP
       else deadline < at + WRAP && (t.rollover <==> deadline / WRAP == at / WRAP + 1)
  }

  /** A started alarm is pending for its deadline exactly when its delay is below 2^32 - 1, or
      the counter is about to wrap. */
  lemma StartPending(delay: nat, at: nat)
    requires delay < WRAP
    ensures Pending(Start(delay, at % WRAP), at, at + delay + 1) <==> delay < WRAP - 1 || at % WRAP == WRAP - 1
  {
    var (q, r) := (at / WRAP, at % WRAP);
    assert at == q * WRAP + r;
    var d := r + delay + 1;
    assert at + delay + 1 == q * WRAP + d;
    SplitEpoch(q, d);
  }

  lemma SplitEpoch(q: nat, d: nat)
    requires d <= 2 * WRAP
    ensures (q * WRAP + d) % WRAP == d % WRAP
    ensures (q * WRAP + d) / WRAP == q + d / WRAP
    ensures d % WRAP == if d < WRAP then d else if d < 2 * WRAP then d - WRAP else 0
    ensures d / WRAP == if d < WRAP then 0 else if d < 2 * WRAP then 1 else 2
  {
  }

  /** One tick: a pending alarm is found due at its deadline and at no other tick before it. */
  lemma TickExact(t: Timer, at: nat, deadline: nat)
    requires Pending(t, at, deadline)
    ensures var now := (at + 1) % WRAP;
            var t' := ClearRollover(t, now);
            && (Due(t', now) <==> deadline == at + 1)
            && (deadline != at + 1 ==> Pending(t', at + 1, deadline))
            && (deadline == at + 1 ==> t' == Timer(now, false))
  {
    var (q, r) := (at / WRAP, at % WRAP);
    assert at == q * WRAP + r;
    var d := deadline - q * WRAP;
    SplitEpoch(q, d);
    SplitEpoch(q, r + 1);
  }

  /** At its deadline, a non-zero period sets the next deadline that many ticks later. */
  lemma ReschedulePending(at: nat, period: nat)
    requires 0 < period < WRAP
    ensures Pending(Reschedule(Timer(at % WRAP, false), at % WRAP, period), at, at + period)
  {
    var (q, r) := (at / WRAP, at % WRAP);
    assert at == q * WRAP + r;
    SplitEpoch(q, r + period);
  }

  /** A timer that has just been started or rescheduled is not found due by a second look at the
      same tick, whatever the counter, unless the delay is the longest one. */
  lemma NotDueAtOnce(delay: nat, period: nat, now: nat)
    requires delay < WRAP - 1 && 0 < period < WRAP && now < WRAP
    ensures !Due(Start(delay, now), now)
    ensures !Due(Reschedule(Timer(now, false), now, period), now)
  {
  }

  /** A period that is added to a deadline set at the same tick delays it by exactly that period if
      and only if the sum of both stays below 2^32, or is 2^32 as the counter is about to wrap. */
  lemma ShiftPending(delay: nat, at: nat, period: nat)
    requires delay < WRAP - 1 && 0 < period < WRAP
    ensures Pending(Reschedule(Start(delay, at % WRAP), at % WRAP, period), at, at + delay + 1 + period) <==>
            delay + 1 + period < WRAP || (delay + 1 + period == WRAP && at % WRAP == WRAP - 1)
    ensures delay + 1 + period < WRAP ==> !Due(Reschedule(Start(delay, at % WRAP), at % WRAP, period), at % WRAP)
  {
    var (q, r) := (at / WRAP, at % WRAP);
    assert at == q * WRAP + r;
    SplitEpoch(0, r + delay + 1);
    ShiftedTime(r, delay, period);
    var d := r + delay + 1 + period;
    if d <= 2 * WRAP {
      SplitEpoch(q, d);
    }
  }

  lemma ShiftedTime(r: nat, delay: nat, period: nat)
    requires r < WRAP && delay < WRAP - 1 && 0 < period < WRAP
    ensures Reschedule(Start(delay, r), r, period).time == (r + delay + 1 + period) % WRAP
    ensures delay + 1 + period < WRAP ==>
              Reschedule(Start(delay, r), r, period).rollover == (r + delay + 1 + period >= WRAP)
  {
  }

  /** A timer pending at a tick where the counter is zero has no flag to clear. */
  lemma NothingToClear(t: Timer, at: nat, deadline: nat)
    requires Pending(t, at, deadline)
    ensures ClearRollover(t, at % WRAP) == t
  {
    var (q, r) := (at / WRAP, at % WRAP);
    assert at == q * WRAP + r;
    SplitEpoch(q, 0);
    if deadline <= at + WRAP {
      SplitEpoch(q, deadline - q * WRAP);
    }
  }

  // ---------------------------------------------------------------- whole runs

  /** The absolute ticks, among the next `ticks`, at which the alarm's callback runs; its i-th
      call returns `ret(i)`, and a zero return removes the alarm. */
  function Firings(t: Timer, at: nat, ret: nat -> nat, i: nat, ticks: nat): (fired: seq<nat>)
    decreases ticks
  {
    if ticks == 0 then []
    else
      var now := (at + 1) % WRAP;
      var t' := ClearRollover(t, now);
      if !Due(t', now) then Firings(t', at + 1, ret, i, ticks - 1)
      else if ret(i) == 0 then [at + 1]
      else [at + 1] + Firings(Reschedule(t', now, ret(i)), at + 1, ret, i + 1, ticks - 1)
  }

  /** The deadlines up to `limit`: the first, then each one period after the last. */
  function Schedule(deadline: nat, ret: nat -> nat, i: nat, limit: nat): (due: seq<nat>)
    decreases if deadline > limit then 0 else limit - deadline + 1
  {
    if deadline > limit then []
    else if ret(i) == 0 then [deadline]
    else [deadline] + Schedule(deadline + ret(i), ret, i + 1, limit)
  }

  lemma PendingLater(t: Timer, at: nat, deadline: nat)
    requires Pending(t, at, deadline)
    ensures at < deadline
  {
  }

  /** Over any number of ticks and wraps, the callback runs exactly at the deadlines. */
  lemma {:induction false} FiresOnSchedule(t: Timer, at: nat, deadline: nat, ret: nat -> nat, i: nat, ticks: nat)
    requires Pending(t, at, deadline)
    requires forall k: nat :: ret(k) < WRAP
    ensures Firings(t, at, ret, i, ticks) == Schedule(deadline, ret, i, at + ticks)
    decreases ticks
  {
    hide Pending, Due, ClearRollover, Reschedule;
    PendingLater(t, at, deadline);
    if ticks > 0 {
      TickExact(t, at, deadline);
      var now := (at + 1) % WRAP;
      var t' := ClearRollover(t, now);
      if deadline != at + 1 {
        FiresOnSchedule(t', at + 1, deadline, ret, i, ticks - 1);
      } else if ret(i) != 0 {
        ReschedulePending(at + 1, ret(i));
        FiresOnSchedule(Reschedule(t', now, ret(i)), at + 1, deadline + ret(i), ret, i + 1, ticks - 1);
      }
    }
  }

  /** An alarm started at absolute tick `at` fires at at + delay + 1 and then on schedule if and
      only if its delay is below 2^32 - 1 or the counter is about to wrap. */
  lemma StartFiresOnSchedule(delay: nat, at: nat, ret: nat -> nat, ticks: nat)
    requires delay < WRAP && ticks > 0
    requires forall k: nat :: ret(k) < WRAP
    ensures Firings(Start(delay, at % WRAP), at, ret, 0, ticks) == Schedule(at + delay + 1, ret, 0, at + ticks)
            <==> delay < WRAP - 1 || at % WRAP == WRAP - 1
  {
    StartPending(delay, at);
    if delay < WRAP - 1 || at % WRAP == WRAP - 1 {
      FiresOnSchedule(Start(delay, at % WRAP), at, at + delay + 1, ret, 0, ticks);
    } else {
      FiresEarly(at, ret, ticks);
      if at + delay + 1 <= at + ticks {
        assert Schedule(at + delay + 1, ret, 0, at + ticks)[0] == at + delay + 1;
      }
    }
  }

  /** With the longest delay, started anywhere but in the last tick of an epoch, the alarm goes
      off on the very next tick. */
  lemma FiresEarly(at: nat, ret: nat -> nat, ticks: nat)
    requires ticks > 0 && at % WRAP != WRAP - 1
    ensures var fired := Firings(Start(WRAP - 1, at % WRAP), at, ret, 0, ticks);
            fired != [] && fired[0] == at + 1
  {
    var r := at % WRAP;
    SplitEpoch(at / WRAP, r + 1);
    SplitEpoch(0, r + WRAP);
    assert Start(WRAP - 1, r) == Timer(r, false);
  }
}
