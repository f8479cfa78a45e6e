/** Instants, local wall-clock fields and whole-minute differences.

    An instant is what a JavaScript Date holds: milliseconds since
    1970-01-01T00:00:00Z. The process's local time zone is taken to sit at a
    fixed offset from UTC (no daylight-saving transitions). */
module Time {

  /** Milliseconds since the Unix epoch, UTC. */
  type Instant = int

  const SecondMs: int := 1000
  const MinuteMs: int := 60 * SecondMs
  const HourMs: int := 60 * MinuteMs
  const DayMs: int := 24 * HourMs

  /** Local hour of day (Date.getHours) in a zone `zoneOffsetMs` ahead of UTC. */
  function LocalHour(zoneOffsetMs: int, t: Instant): (h: int)
    ensures 0 <= h < 24
  {
    ((t + zoneOffsetMs) / HourMs) % 24
  }

  /** Local minute of the hour (Date.getMinutes). */
  function LocalMinute(zoneOffsetMs: int, t: Instant): (m: int)
    ensures 0 <= m < 60
  {
    ((t + zoneOffsetMs) / MinuteMs) % 60
  }

  /** The instant of local midnight that starts the local day containing `t`
      (what `new Date(t).setHours(0, 0, 0, 0)` yields). */
  function LocalMidnight(zoneOffsetMs: int, t: Instant): (m: Instant)
    ensures (m + zoneOffsetMs) % DayMs == 0
    ensures m <= t < m + DayMs
  {
    t - (t + zoneOffsetMs) % DayMs
  }

  /** Quotient and remainder are determined by the division equation. */
  lemma DivModOf(x: int, d: int, q: int, r: int)
    requires d > 0 && 0 <= r < d && x == q * d + r
    ensures x / d == q && x % d == r
  {
    var q', r' := x / d, x % d;
    assert (q - q') * d == r' - r;
    if q' < q {
      AtLeastOneMultiple(q - q', d);
      assert false;
    } else if q' > q {
      AtLeastOneMultiple(q' - q, d);
      assert false;
    }
  }

  lemma AtLeastOneMultiple(e: int, d: int)
    requires e >= 1 && d > 0
    ensures e * d >= d
  {
    assert e * d == (e - 1) * d + d;
  }

  /** At `k` minutes and `s` milliseconds past a local midnight, the local
      clock reads hour k / 60 and minute k % 60. */
  lemma {:induction false} ClockAfterMidnight(zoneOffsetMs: int, midnight: Instant, k: int, s: int)
    requires (midnight + zoneOffsetMs) % DayMs == 0
    requires 0 <= k < 24 * 60 && 0 <= s < MinuteMs
    ensures LocalHour(zoneOffsetMs, midnight + k * MinuteMs + s) == k / 60
    ensures LocalMinute(zoneOffsetMs, midnight + k * MinuteMs + s) == k % 60
  {
    var days := (midnight + zoneOffsetMs) / DayMs;
    var x := midnight + k * MinuteMs + s + zoneOffsetMs;
    assert midnight + zoneOffsetMs == days * DayMs;
    var h, m := k / 60, k % 60;
    assert k == h * 60 + m;
    // hours since the epoch, then hour of day
    assert x == (days * 24 + h) * HourMs + (m * MinuteMs + s);
    DivModOf(x, HourMs, days * 24 + h, m * MinuteMs + s);
    DivModOf(days * 24 + h, 24, days, h);
    // minutes since the epoch, then minute of hour
    assert x == ((days * 24 + h) * 60 + m) * MinuteMs + s;
    DivModOf(x, MinuteMs, (days * 24 + h) * 60 + m, s);
    DivModOf((days * 24 + h) * 60 + m, 60, days * 24 + h, m);
  }

  /** Whole minutes from `earlier` to `later`, the fraction truncated toward
      zero, as date-fns differenceInMinutes computes by default. */
  function DifferenceInMinutes(later: Instant, earlier: Instant): (m: int)
    ensures later >= earlier ==> 0 <= m && m * MinuteMs <= later - earlier < (m + 1) * MinuteMs
    ensures later < earlier ==> m <= 0 && (m - 1) * MinuteMs < later - earlier <= m * MinuteMs
  {
    var d := later - earlier;
    if d >= 0 then d / MinuteMs else -((-d) / MinuteMs)
  }

  /** For a positive bound n, "at least n whole minutes away" means at least
      n minutes of milliseconds away: truncation never lets a shorter gap through. */
  lemma AtLeastMinutes(later: Instant, earlier: Instant, n: int)
    requires n > 0
    ensures DifferenceInMinutes(later, earlier) >= n <==> later - earlier >= n * MinuteMs
  {
    var m := DifferenceInMinutes(later, earlier);
    if later - earlier >= n * MinuteMs {
      assert (m + 1) * MinuteMs > n * MinuteMs;
    }
    if m >= n {
      assert m * MinuteMs >= n * MinuteMs;
    }
  }
}
