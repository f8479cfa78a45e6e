/** Slot validity, half-open interval overlap, the BOOKED-only overlap scan,
    the no-double-booking invariant and the cancellation lead time. */
module SlotRules {
  import opened Time
  import opened Appointments

  /** isValidSlot of the Express server: business hours, the explicit
      last-slot disjunct, and grid alignment of the local minute. */
  function ServerIsValidSlot(c: Config, start: Instant): (ok: bool)
    requires c.Valid()
    ensures ok <==> c.startHour <= LocalHour(c.zoneOffsetMs, start) < c.endHour
                    && LocalMinute(c.zoneOffsetMs, start) % c.slotMinutes == 0
  {
    var hour := LocalHour(c.zoneOffsetMs, start);
    var minute := LocalMinute(c.zoneOffsetMs, start);
    hour >= c.startHour
    && (hour < c.endHour || (hour == c.endHour - 1 && minute == 60 - c.slotMinutes))
    && minute % c.slotMinutes == 0
  }

  /** isValidSlot of the Next.js route: business hours and grid alignment. */
  function RouteIsValidSlot(c: Config, start: Instant): (ok: bool)
    requires c.Valid()
    ensures ok == ServerIsValidSlot(c, start)
  {
    var hour := LocalHour(c.zoneOffsetMs, start);
    var minute := LocalMinute(c.zoneOffsetMs, start);
    hour >= c.startHour && hour < c.endHour && minute % c.slotMinutes == 0
  }

  /** The two validators agree for every configuration and every instant. */
  lemma ValidatorsAgree(c: Config, start: Instant)
    requires c.Valid()
    ensures ServerIsValidSlot(c, start) == RouteIsValidSlot(c, start)
  {
  }

  /** With the default configuration, 18:30 local is accepted, 19:00 and
      09:15 are refused. */
  lemma DefaultSlotExamples(zoneOffsetMs: int, midnight: Instant)
    requires (midnight + zoneOffsetMs) % DayMs == 0
    ensures ServerIsValidSlot(Defaults(zoneOffsetMs), midnight + (18 * 60 + 30) * MinuteMs)
    ensures !ServerIsValidSlot(Defaults(zoneOffsetMs), midnight + 19 * 60 * MinuteMs)
    ensures !ServerIsValidSlot(Defaults(zoneOffsetMs), midnight + (9 * 60 + 15) * MinuteMs)
    ensures ServerIsValidSlot(Defaults(zoneOffsetMs), midnight + 9 * 60 * MinuteMs)
  {
    ClockAfterMidnight(zoneOffsetMs, midnight, 18 * 60 + 30, 0);
    ClockAfterMidnight(zoneOffsetMs, midnight, 19 * 60, 0);
    ClockAfterMidnight(zoneOffsetMs, midnight, 9 * 60 + 15, 0);
    ClockAfterMidnight(zoneOffsetMs, midnight, 9 * 60, 0);
  }

  /** The validator reads only the hour and the minute: seconds and
      milliseconds inside an accepted minute are accepted too. */
  lemma {:induction false} SubMinuteIgnored(c: Config, t: Instant, s: int)
    requires c.Valid()
    requires (t + c.zoneOffsetMs) % MinuteMs == 0 && 0 <= s < MinuteMs
    ensures ServerIsValidSlot(c, t + s) == ServerIsValidSlot(c, t)
  {
    var x := t + c.zoneOffsetMs;
    var q := x / MinuteMs;
    assert x == q * MinuteMs;
    DivModOf(x + s, MinuteMs, q, s);
    var h := q / 60;
    DivModOf(x, HourMs, h, (q % 60) * MinuteMs);
    DivModOf(x + s, HourMs, h, (q % 60) * MinuteMs + s);
  }

  /** Two half-open intervals [aStart, aEnd) and [bStart, bEnd) intersect. */
  predicate Overlaps(aStart: Instant, aEnd: Instant, bStart: Instant, bEnd: Instant)
  {
    (if aStart > bStart then aStart else bStart) < (if aEnd < bEnd then aEnd else bEnd)
  }

  /** The max/min rule is the usual two-sided test, so it is symmetric and
      back-to-back intervals never overlap. */
  lemma OverlapsCharacterization(aStart: Instant, aEnd: Instant, bStart: Instant, bEnd: Instant)
    ensures Overlaps(aStart, aEnd, bStart, bEnd) <==> aStart < bEnd && bStart < aEnd && aStart < aEnd && bStart < bEnd
    ensures Overlaps(aStart, aEnd, bStart, bEnd) == Overlaps(bStart, bEnd, aStart, aEnd)
    ensures aEnd == bStart || bEnd == aStart ==> !Overlaps(aStart, aEnd, bStart, bEnd)
  {
  }

  /** `a` is BOOKED and meets the candidate interval [start, start + SLOT_MINUTES). */
  predicate ConflictsWith(c: Config, a: Appointment, start: Instant)
  {
    a.status == Booked && Overlaps(a.start, a.end, start, start + c.SlotMs())
  }

  /** hasOverlap: a front-to-back scan that skips non-BOOKED entries. */
  function HasOverlap(c: Config, s: seq<Appointment>, start: Instant): (r: bool)
    ensures r <==> exists i :: 0 <= i < |s| && ConflictsWith(c, s[i], start)
    decreases |s|
  {
    if s == [] then false
    else if s[0].status != Booked then HasOverlap(c, s[1..], start)
    else Overlaps(s[0].start, s[0].end, start, start + c.SlotMs()) || HasOverlap(c, s[1..], start)
  }

  /** No two BOOKED appointments of the store share an instant. */
  predicate NoDoubleBooking(s: seq<Appointment>)
  {
    forall i, j :: 0 <= i < j < |s| && s[i].status == Booked && s[j].status == Booked
      ==> !Overlaps(s[i].start, s[i].end, s[j].start, s[j].end)
  }

  /** Appending a slot-long appointment that the scan found free keeps the
      store free of double bookings. */
  lemma AppendFreeSlot(c: Config, s: seq<Appointment>, a: Appointment)
    requires NoDoubleBooking(s)
    requires a.end == a.start + c.SlotMs()
    requires !HasOverlap(c, s, a.start)
    ensures NoDoubleBooking(s + [a])
  {
    var s' := s + [a];
    forall i, j | 0 <= i < j < |s'| && s'[i].status == Booked && s'[j].status == Booked
      ensures !Overlaps(s'[i].start, s'[i].end, s'[j].start, s'[j].end)
    {
      if j == |s| {
        assert !ConflictsWith(c, s[i], a.start);
      }
    }
  }

  /** Removing one entry keeps the store free of double bookings. */
  lemma RemoveKeepsNoDoubleBooking(s: seq<Appointment>, k: int)
    requires NoDoubleBooking(s) && 0 <= k < |s|
    ensures NoDoubleBooking(s[..k] + s[k + 1..])
  {
    var s' := s[..k] + s[k + 1..];
    forall i, j | 0 <= i < j < |s'| && s'[i].status == Booked && s'[j].status == Booked
      ensures !Overlaps(s'[i].start, s'[i].end, s'[j].start, s'[j].end)
    {
      var i0 := if i < k then i else i + 1;
      var j0 := if j < k then j else j + 1;
      assert s'[i] == s[i0] && s'[j] == s[j0];
    }
  }

  /** The cancellation lead-time rule: at least SLOT_MINUTES whole minutes
      (truncated) from now until the start. */
  function LeadTimeOk(c: Config, start: Instant, now: Instant): (ok: bool)
    ensures c.Valid() ==> (ok <==> start - now >= c.SlotMs())
  {
    var ok := !(DifferenceInMinutes(start, now) < c.slotMinutes);
    if c.Valid() then
      AtLeastMinutes(start, now, c.slotMinutes);
      ok
    else
      ok
  }

  /** The boundary of the truncated rule: exactly SLOT_MINUTES away is
      allowed, SLOT_MINUTES - 1 is refused and a past start is refused. */
  lemma LeadTimeBoundary(c: Config, start: Instant, now: Instant)
    requires c.Valid()
    ensures start - now == c.SlotMs() ==> LeadTimeOk(c, start, now)
    ensures start - now == c.SlotMs() - MinuteMs ==> !LeadTimeOk(c, start, now)
    ensures start < now ==> !LeadTimeOk(c, start, now)
  {
    AtLeastMinutes(start, now, c.slotMinutes);
  }
}
