/**
 * The remaining-time display: how long the signed-in caller's window still
 * runs, as hours, minutes and seconds.
 */
module Countdown {
  import opened Wrappers
  import opened AdminConfig

  datatype Clock = Clock(hours: nat, minutes: nat, seconds: nat)

  function TotalSeconds(k: Clock): int {
    k.hours * 3600 + k.minutes * 60 + k.seconds
  }

  /** Splits a non-negative number of seconds into hours, minutes under 60 and seconds under 60. */
  function SplitSeconds(d: nat): (k: Clock)
    ensures k.minutes < 60 && k.seconds < 60
    ensures TotalSeconds(k) == d
  {
    var q := d / 60;
    assert d == q * 60 + d % 60;
    assert q == (q / 60) * 60 + q % 60;
    Clock(q / 60, q % 60, d % 60)
  }

  /**
   * The remaining time, shown only to a signed-in caller whose record has a
   * parseable `expires_at` not yet passed; `None` otherwise.
   */
  function Remaining(loggedIn: bool, c: Config, now: int): (r: Option<Clock>)
    ensures r.Some? <==> loggedIn && c.expiresAt.At? && now <= c.expiresAt.seconds
    ensures r.Some? ==>
      r.value.minutes < 60 && r.value.seconds < 60 && TotalSeconds(r.value) == c.expiresAt.seconds - now
  {
    if loggedIn && c.expiresAt.At? && now <= c.expiresAt.seconds then
      Some(SplitSeconds(c.expiresAt.seconds - now))
    else
      None
  }

  /** As time passes the remaining time only shrinks, and once it is gone it stays gone. */
  lemma RemainingShrinks(loggedIn: bool, c: Config, earlier: int, later: int)
    requires earlier <= later
    ensures Remaining(loggedIn, c, later).Some? ==> Remaining(loggedIn, c, earlier).Some?
    ensures Remaining(loggedIn, c, later).Some? ==>
      TotalSeconds(Remaining(loggedIn, c, later).value) <= TotalSeconds(Remaining(loggedIn, c, earlier).value)
  {
  }

  /** Whole-number fields of the interval PHP's `DateTime::diff` produces; `d` counts days within the month. */
  datatype DateInterval = DateInterval(y: nat, m: nat, d: nat, h: nat, i: nat, s: nat)

  /** The intervals `diff` produces for spans under one month: no years, no months, normalised fields. */
  predicate UnderAMonth(iv: DateInterval) {
    iv.y == 0 && iv.m == 0 && iv.h < 24 && iv.i < 60 && iv.s < 60
  }

  /** The length of an interval under one month, in seconds. */
  function IntervalSeconds(iv: DateInterval): nat {
    iv.d * 86400 + iv.h * 3600 + iv.i * 60 + iv.s
  }

  /**
   * The clock the page shows, as written: hours are `h + d * 24`, so the
   * interval's months and years are not counted.
   */
  function ShownClock(iv: DateInterval): (k: Clock)
    ensures TotalSeconds(k) == iv.d * 86400 + iv.h * 3600 + iv.i * 60 + iv.s
  {
    Clock(iv.h + iv.d * 24, iv.i, iv.s)
  }

  /** A quotient and a remainder below 60 are determined by the number they make up. */
  lemma SixtyUnique(q1: int, r1: int, q2: int, r2: int)
    requires 0 <= r1 < 60 && 0 <= r2 < 60 && q1 * 60 + r1 == q2 * 60 + r2
    ensures q1 == q2 && r1 == r2
  {
  }

  /** Two clocks with minutes and seconds under 60 that show the same total are the same clock. */
  lemma ClockUnique(k: Clock, w: Clock)
    requires k.minutes < 60 && k.seconds < 60 && w.minutes < 60 && w.seconds < 60
    requires TotalSeconds(k) == TotalSeconds(w)
    ensures k == w
  {
    assert TotalSeconds(k) == (k.hours * 60 + k.minutes) * 60 + k.seconds;
    assert TotalSeconds(w) == (w.hours * 60 + w.minutes) * 60 + w.seconds;
    SixtyUnique(k.hours * 60 + k.minutes, k.seconds, w.hours * 60 + w.minutes, w.seconds);
    SixtyUnique(k.hours, k.minutes, w.hours, w.minutes);
  }

  /** For windows under one month the page shows exactly `Remaining`. */
  lemma ShownClockUnderAMonth(iv: DateInterval, c: Config, now: int)
    requires UnderAMonth(iv) && c.expiresAt == At(now + IntervalSeconds(iv))
    ensures Remaining(true, c, now) == Some(ShownClock(iv))
  {
    ClockUnique(Remaining(true, c, now).value, ShownClock(iv));
  }

  /**
   * A 1000-hour window activated at 2025-01-01T00:00:00+08:00 and viewed one
   * second later; it ends at 2025-02-11T16:00:00+08:00. `diff` gives one
   * month (January, 31 days), 10 days and 15:59:59, so the page shows
   * 255:59:59 while 999:59:59 remain.
   */
  lemma ShownClockDropsMonths()
    ensures 31 * 86400 + IntervalSeconds(DateInterval(0, 1, 10, 15, 59, 59)) == 1739260800 - (1735660800 + 1)
    ensures ShownClock(DateInterval(0, 1, 10, 15, 59, 59)) == Clock(255, 59, 59)
    ensures Remaining(true, Config(Some("abc123"), 1000, At(1735660800), At(1739260800), true, 1), 1735660800 + 1)
         == Some(Clock(999, 59, 59))
  {
    var c := Config(Some("abc123"), 1000, At(1735660800), At(1739260800), true, 1);
    assert Remaining(true, c, 1735660800 + 1) == Some(SplitSeconds(3599999)) by {}
    assert SplitSeconds(3599999) == Clock(999, 59, 59) by {}
  }
}
