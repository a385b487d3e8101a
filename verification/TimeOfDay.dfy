/** settimeofday and gettimeofday over the wrapping tick counter. */
module TimeOfDay {
  import opened Common

  const ALT_US := 1_000_000

  const ENOSYS := 88
  const ENOTSUP := 134

  datatype TimeVal = TimeVal(sec: int, usec: int)

  datatype TimeZone = TimeZone(minutesWest: int, dstTime: int)

  /** Storing an unsigned 32-bit result in a signed 32-bit variable. */
  function ToInt32(x: int): (r: int)
    ensures -0x8000_0000 <= r <= INT_MAX
    ensures (r - x) % WRAP == 0
    ensures -0x8000_0000 <= x <= INT_MAX ==> r == x
  {
    var u := x % WRAP;
    if u <= INT_MAX then u else u - WRAP
  }

  function Micros(t: TimeVal): int {
    t.sec * ALT_US + t.usec
  }

  /** Microseconds per tick, as the code computes it. */
  function TickMicros(rate: nat): nat
    requires rate > 0
  {
    ALT_US / rate
  }

  /** The offset settimeofday records.  Its product of ticks and microseconds is 32 bits wide. */
  function Offset(t: TimeVal, nticks: nat, rate: nat): TimeVal
    requires rate > 0
  {
    TimeVal(ToInt32(t.sec - nticks / rate),
            ToInt32(t.usec - ((nticks * TickMicros(rate)) % WRAP) % ALT_US))
  }

  /** The time gettimeofday computes before it normalises.  Here the product is 64 bits wide. */
  function Unnormalised(reset: TimeVal, nticks: nat, rate: nat): TimeVal
    requires rate > 0
  {
    TimeVal(ToInt32(reset.sec + nticks / rate),
            ToInt32(reset.usec + (nticks * TickMicros(rate)) % ALT_US))
  }

  /** The time whose seconds and microseconds are in range; times before zero become zero when
      the microseconds have to borrow. */
  function Normalised(t: TimeVal): (r: TimeVal)
    ensures 0 <= r.usec < ALT_US
    ensures t.usec >= 0 || Micros(t) >= 0 ==> Micros(r) == Micros(t)
  {
    if t.usec < 0 && Micros(t) < 0 then TimeVal(0, 0)
    else TimeVal(Micros(t) / ALT_US, Micros(t) % ALT_US)
  }

  class TimeKeeper {
    var reset: TimeVal        // alt_resettime
    var zone: TimeZone        // alt_timezone
    var errno: int

    constructor ()
      ensures reset == TimeVal(0, 0) && zone == TimeZone(0, 0)
    {
      reset, zone, errno := TimeVal(0, 0), TimeZone(0, 0), 0;
    }

    /** settimeofday, at a tick count and with a tick rate. */
    method Set(t: TimeVal, tz: TimeZone, nticks: nat, rate: nat) returns (rc: int)
      modifies this
      ensures if rate == 0 then rc == -1 && errno == 88 && reset == old(reset) && zone == old(zone)
              else rc == 0 && reset == Offset(t, nticks, rate) && zone == tz && errno == old(errno)
    {
      if rate != 0 {
        reset := TimeVal(ToInt32(t.sec - nticks / rate),
                         ToInt32(t.usec - ((nticks * (ALT_US / rate)) % WRAP) % ALT_US));
        zone := tz;
        return 0;
      }
      errno := ENOSYS;
      return -1;
    }

    /** gettimeofday, at a tick count and with a tick rate; `wantZone` is a non-null pointer. */
    method Get(nticks: nat, rate: nat, wantZone: bool) returns (rc: int, t: TimeVal, tz: Option<TimeZone>)
      ensures if rate == 0 then rc == -134
              else rc == 0 && t == Normalised(Unnormalised(reset, nticks, rate)) &&
                   tz == if wantZone then Some(zone) else None
    {
      t, tz := TimeVal(0, 0), None;
      if rate == 0 {
        return -ENOTSUP, t, tz;
      }
      var sec := ToInt32(reset.sec + nticks / rate);
      var usec := ToInt32(reset.usec + (nticks * (ALT_US / rate)) % ALT_US);
      ghost var total := sec * ALT_US + usec;
      ghost var start := TimeVal(sec, usec);
      while usec < 0
        invariant sec * ALT_US + usec == total || (sec == 0 && usec == 0 && total < 0 && start.usec < 0)
        invariant start.usec >= 0 ==> usec == start.usec
        invariant start.usec < 0 ==> usec < ALT_US
        invariant start.usec < 0 ==> if start.sec > 0 then sec >= 0 else usec == start.usec
        decreases -usec
      {
        if sec <= 0 {
          sec := 0;
          usec := 0;
          break;
        } else {
          sec := sec - 1;
          usec := usec + ALT_US;
        }
      }
      while usec >= ALT_US
        invariant usec >= 0
        invariant if start.usec < 0 && total < 0 then sec == 0 && usec == 0 else sec * ALT_US + usec == total
      {
        sec := sec + 1;
        usec := usec - ALT_US;
      }
      t := TimeVal(sec, usec);
      if wantZone {
        tz := Some(zone);
      }
      rc := 0;
    }
  }

  // ---------------------------------------------------------------- setting and getting agree

  /** What gettimeofday reports at tick n1 after settimeofday(t) at tick n0. */
  function Reported(t: TimeVal, n0: nat, n1: nat, rate: nat): TimeVal
    requires rate > 0
  {
    Normalised(Unnormalised(Offset(t, n0, rate), n1, rate))
  }

  /** The time at tick n1, in microseconds, if a tick lasts a whole number of them, that is, if the
      rate divides a million; for another rate it is not the time (see RateMustDivide). */
  function Correct(t: TimeVal, n0: nat, n1: nat, rate: nat): int
    requires rate > 0
  {
    Micros(t) + (n1 - n0) * TickMicros(rate)
  }

  lemma DivModUnique(x: nat, m: nat, q: nat, r: nat)
    requires m > 0 && x == q * m + r && r < m
    ensures x / m == q && x % m == r
  {
    var (q', r') := (x / m, x % m);
    if q' < q {
      MulLe(q' + 1, q, m);
    } else if q < q' {
      MulLe(q + 1, q', m);
    }
  }

  /** With a rate that divides a million, whole seconds and remaining microseconds of a tick count
      add up to the ticks' microseconds. */
  lemma TicksSplit(n: nat, rate: nat)
    requires rate > 0 && ALT_US % rate == 0
    ensures (n / rate) * ALT_US + (n * TickMicros(rate)) % ALT_US == n * TickMicros(rate)
  {
    var k := TickMicros(rate);
    var (q, r) := (n / rate, n % rate);
    assert k * rate == ALT_US;
    assert n == q * rate + r;
    assert n * k == q * (k * rate) + r * k by {
      assert n * k == (q * rate) * k + r * k;
      assert (q * rate) * k == q * (k * rate);
    }
    PartBelow(r, rate, k);
    DivModUnique(n * k, ALT_US, q, r * k);
  }

  lemma PartBelow(r: nat, rate: nat, k: nat)
    requires r < rate && k * rate == ALT_US
    ensures r * k < ALT_US
  {
    MulLe(r + 1, rate, k);
    assert k > 0;
  }

  /** The two products agree modulo a million exactly when the wrapped-off part is a multiple of
      15625, the odd part of a million. */
  lemma WrapHarmless(x: nat)
    ensures (x % WRAP) % ALT_US == x % ALT_US <==> (x / WRAP) % 15625 == 0
  {
    var (q, r) := (x / WRAP, x % WRAP);
    var (a, b) := (x % ALT_US, r % ALT_US);
    assert x == q * WRAP + r;
    if a == b {
      var d := x / ALT_US - r / ALT_US;
      assert q * WRAP == d * ALT_US;
      assert q * 67108864 == d * 15625;
      // 12659 is the inverse of 2^26 modulo 15625
      assert q == 15625 * (12659 * d - 54369991 * q);
    } else if q % 15625 == 0 {
      var h := q / 15625;
      assert q * WRAP == h * 67108864 * ALT_US;
      assert x == (h * 67108864 + r / ALT_US) * ALT_US + b;
      DivModUnique(x, ALT_US, h * 67108864 + r / ALT_US, b);
    }
  }

  /** How far the wrapped product at the set is from the true one, modulo a million. */
  function SetError(n0: nat, rate: nat): int
    requires rate > 0
  {
    var x := n0 * TickMicros(rate);
    (x % WRAP) % ALT_US - x % ALT_US
  }

  /** A usable clock: the rate divides a million, the given time is in range, the counter does not
      wrap between the two calls, and the seconds stay within 32 bits. */
  predicate Usable(t: TimeVal, n0: nat, n1: nat, rate: nat) {
    && rate > 0 && ALT_US % rate == 0
    && 0 <= t.sec && 0 <= t.usec < ALT_US
    && n0 <= n1 < WRAP
    && t.sec + n1 / rate - n0 / rate < INT_MAX
  }

  lemma QuotientMonotone(n0: nat, n1: nat, rate: nat)
    requires rate > 0 && n0 <= n1
    ensures n0 / rate <= n1 / rate
  {
    var (q0, q1) := (n0 / rate, n1 / rate);
    if q1 < q0 {
      MulLe(q1 + 1, q0, rate);
    }
  }

  lemma WrappedSum(a: int, b: int)
    requires -0x8000_0000 <= a + b <= INT_MAX
    ensures ToInt32(ToInt32(a) + b) == a + b
  {
  }

  lemma UnnormalisedMicros(t: TimeVal, n0: nat, n1: nat, rate: nat)
    requires Usable(t, n0, n1, rate)
    ensures Micros(Unnormalised(Offset(t, n0, rate), n1, rate)) == Correct(t, n0, n1, rate) - SetError(n0, rate)
  {
    var k := TickMicros(rate);
    QuotientMonotone(n0, n1, rate);
    WrappedSum(t.sec - n0 / rate, n1 / rate);
    TicksSplit(n0, rate);
    TicksSplit(n1, rate);
    assert (n1 - n0) * k == n1 * k - n0 * k;
  }

  /** gettimeofday returns exactly the set time plus the elapsed ticks, unless the 32-bit product
      at the set wrapped by a number of times that 15625 does not divide; then it does so only for
      time zero read back at once, if the error is one that the clamp to zero hides. */
  lemma ReportedExact(t: TimeVal, n0: nat, n1: nat, rate: nat)
    requires Usable(t, n0, n1, rate)
    ensures Reported(t, n0, n1, rate) == TimeVal(Correct(t, n0, n1, rate) / ALT_US, Correct(t, n0, n1, rate) % ALT_US)
            <==> || (n0 * TickMicros(rate) / WRAP) % 15625 == 0
                 || (t == TimeVal(0, 0) && n0 == n1 && SetError(n0, rate) > 0)
  {
    hide Unnormalised, Offset, ToInt32, SetError, Correct, TickMicros;
    UnnormalisedMicros(t, n0, n1, rate);
    NoSetError(n0, rate);
    CorrectNonNegative(t, n0, n1, rate);
    var total := Correct(t, n0, n1, rate);
    var u := Unnormalised(Offset(t, n0, rate), n1, rate);
    if total == 0 {
      AtOnce(n0, rate);
    } else if SetError(n0, rate) != 0 && (u.usec >= 0 || Micros(u) >= 0) {
      assert Micros(Reported(t, n0, n1, rate)) == total - SetError(n0, rate);
    }
  }

  lemma NoSetError(n0: nat, rate: nat)
    requires rate > 0
    ensures SetError(n0, rate) == 0 <==> (n0 * TickMicros(rate) / WRAP) % 15625 == 0
    ensures n0 * TickMicros(rate) < WRAP ==> SetError(n0, rate) == 0
  {
    WrapHarmless(n0 * TickMicros(rate));
  }

  /** Time zero read back at the tick of the set, before it is normalised. */
  lemma AtOnce(n0: nat, rate: nat)
    requires rate > 0 && n0 < WRAP
    ensures Unnormalised(Offset(TimeVal(0, 0), n0, rate), n0, rate) == TimeVal(0, -SetError(n0, rate))
  {
    WrappedSum(0 - n0 / rate, n0 / rate);
  }

  /** A clock of 1000 ticks a second, set to 100000 seconds at tick 4294968, that is after some 72
      minutes, and read at the same tick: the product has wrapped once and the time read is not
      the time set. */
  lemma SetReadsBackWrong()
    ensures var t := TimeVal(100000, 0);
            && Usable(t, 4294968, 4294968, 1000)
            && Correct(t, 4294968, 4294968, 1000) == Micros(t)
            && Reported(t, 4294968, 4294968, 1000) != t
  {
    var t := TimeVal(100000, 0);
    assert 4294968 * TickMicros(1000) / WRAP == 1;
    ReportedExact(t, 4294968, 4294968, 1000);
  }

  /** In particular, while the product fits in 32 bits the report is exact and no time is clamped
      to zero; this includes a report at the very tick of the set. */
  lemma ReportedWithoutWrap(t: TimeVal, n0: nat, n1: nat, rate: nat)
    requires Usable(t, n0, n1, rate) && n0 * TickMicros(rate) < WRAP
    ensures Micros(Unnormalised(Offset(t, n0, rate), n1, rate)) >= 0
    ensures var r := Reported(t, n0, n1, rate);
            Micros(r) == Correct(t, n0, n1, rate) && 0 <= r.usec < ALT_US
  {
    hide Unnormalised, Offset, ToInt32, SetError, Correct, TickMicros;
    UnnormalisedMicros(t, n0, n1, rate);
    NoSetError(n0, rate);
    CorrectNonNegative(t, n0, n1, rate);
  }

  lemma CorrectNonNegative(t: TimeVal, n0: nat, n1: nat, rate: nat)
    requires Usable(t, n0, n1, rate)
    ensures Correct(t, n0, n1, rate) >= 0
    ensures Correct(t, n0, n1, rate) == 0 <==> t == TimeVal(0, 0) && n0 == n1
  {
    assert TickMicros(rate) >= 1;
    MulLe(1, TickMicros(rate), n1 - n0);
  }

  /** A clock set to zero at tick 0 reads the time at tick n, in whole microseconds. */
  predicate ReadsTime(n: nat, rate: nat)
    requires rate > 0
  {
    Micros(Reported(TimeVal(0, 0), 0, n, rate)) == n * ALT_US / rate
  }

  /** Such a clock is right at every tick (while its seconds fit) if and only if the rate divides a
      million.  At the end of its first second it is right also for every rate above a million,
      whose ticks it does not count in between. */
  lemma RateMustDivide(rate: nat)
    requires 0 < rate < WRAP
    ensures ALT_US % rate == 0 <==> forall n: nat :: SecondsFit(n, rate) ==> ReadsTime(n, rate)
    ensures ReadsTime(rate, rate) <==> ALT_US % rate == 0 || rate > ALT_US
    ensures rate > ALT_US ==> !ReadsTime(rate - 1, rate)
  {
    hide ReadsTime, SecondsFit;
    FirstSecond(rate);
    if ALT_US % rate == 0 {
      forall n: nat | SecondsFit(n, rate)
        ensures ReadsTime(n, rate)
      {
        DividingRate(n, rate);
      }
    }
    if rate > ALT_US {
      FastRate(rate);
    }
  }

  predicate SecondsFit(n: nat, rate: nat)
    requires rate > 0
  {
    n < WRAP && n / rate < INT_MAX
  }

  lemma DividingRate(n: nat, rate: nat)
    requires rate > 0 && ALT_US % rate == 0 && SecondsFit(n, rate)
    ensures ReadsTime(n, rate)
  {
    hide Reported;
    var k := TickMicros(rate);
    ReportedWithoutWrap(TimeVal(0, 0), 0, n, rate);
    assert ALT_US == k * rate;
    assert n * (k * rate) == (n * k) * rate;
    DivModUnique(n * ALT_US, rate, n * k, 0);
  }

  lemma FirstSecond(rate: nat)
    requires 0 < rate < WRAP
    ensures ReadsTime(rate, rate) <==> ALT_US % rate == 0 || rate > ALT_US
    ensures SecondsFit(rate, rate)
  {
    hide Reported;
    var k := TickMicros(rate);
    AtFirstSecond(rate);
    TicksOfSecond(rate);
    DivModUnique(rate * ALT_US, rate, ALT_US, 0);
  }

  lemma AtFirstSecond(rate: nat)
    requires 0 < rate < WRAP
    ensures rate / rate == 1 && Micros(Reported(TimeVal(0, 0), 0, rate, rate)) == ALT_US + (rate * TickMicros(rate)) % ALT_US
  {
    hide TickMicros;
    DivModUnique(rate, rate, 1, 0);
    DivModUnique(0, rate, 0, 0);
    NothingYet(rate);
  }

  lemma NothingYet(rate: nat)
    requires rate > 0
    ensures Offset(TimeVal(0, 0), 0, rate) == TimeVal(0, 0)
  {
    DivModUnique(0, rate, 0, 0);
  }

  /** The ticks of a second make no whole second of microseconds unless the rate divides a million. */
  lemma TicksOfSecond(rate: nat)
    requires rate > 0
    ensures (rate * TickMicros(rate)) % ALT_US == 0 <==> ALT_US % rate == 0 || rate > ALT_US
  {
    var k := TickMicros(rate);
    assert ALT_US == k * rate + ALT_US % rate;
    assert rate * k == k * rate <= ALT_US;
  }

  /** A rate above a million: one tick before the second is full the clock still reads zero. */
  lemma FastRate(rate: nat)
    requires ALT_US < rate < WRAP
    ensures !ReadsTime(rate - 1, rate) && SecondsFit(rate - 1, rate) && ALT_US % rate != 0
  {
    hide Reported;
    StillZero(rate);
    assert (rate - 1) * ALT_US == (ALT_US - 1) * rate + (rate - ALT_US);
    DivModUnique((rate - 1) * ALT_US, rate, ALT_US - 1, rate - ALT_US);
  }

  lemma StillZero(rate: nat)
    requires ALT_US < rate < WRAP
    ensures (rate - 1) / rate == 0 && Micros(Reported(TimeVal(0, 0), 0, rate - 1, rate)) == 0
  {
    DivModUnique(rate - 1, rate, 0, rate - 1);
    NothingYet(rate);
    assert TickMicros(rate) == 0;
  }
}
