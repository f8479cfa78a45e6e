/** The browser-side slot helpers: the day's slot grid and two time tests,
    all with the default hours and slot length written in. */
module Client {
  import opened Time
  import opened Appointments
  import opened SlotRules
  import Server

  /** new Date(date).setHours(hour, minute, 0, 0): that local time on the
      local day of `date`. */
  function SetHours(zoneOffsetMs: int, date: Instant, hour: int, minute: int): (t: Instant)
    ensures 0 <= hour < 24 && 0 <= minute < 60 ==>
              LocalHour(zoneOffsetMs, t) == hour && LocalMinute(zoneOffsetMs, t) == minute
              && LocalMidnight(zoneOffsetMs, t) == LocalMidnight(zoneOffsetMs, date)
              && (t + zoneOffsetMs) % MinuteMs == 0
  {
    var midnight := LocalMidnight(zoneOffsetMs, date);
    var t := midnight + hour * HourMs + minute * MinuteMs;
    if 0 <= hour < 24 && 0 <= minute < 60 then
      SameDayClock(zoneOffsetMs, midnight, hour, minute);
      t
    else
      t
  }

  /** hour:minute after a local midnight reads hour:minute on the local
      clock, on the day of that midnight, on a whole minute. */
  lemma SameDayClock(zoneOffsetMs: int, midnight: Instant, hour: int, minute: int)
    requires (midnight + zoneOffsetMs) % DayMs == 0
    requires 0 <= hour < 24 && 0 <= minute < 60
    ensures var t := midnight + hour * HourMs + minute * MinuteMs;
            LocalHour(zoneOffsetMs, t) == hour && LocalMinute(zoneOffsetMs, t) == minute
            && LocalMidnight(zoneOffsetMs, t) == midnight && (t + zoneOffsetMs) % MinuteMs == 0
  {
    var k := hour * 60 + minute;
    var t := midnight + hour * HourMs + minute * MinuteMs;
    assert t == midnight + k * MinuteMs + 0;
    ClockAfterMidnight(zoneOffsetMs, midnight, k, 0);
    DivModOf(k, 60, hour, minute);
    var days := (midnight + zoneOffsetMs) / DayMs;
    DivModOf(t + zoneOffsetMs, DayMs, days, k * MinuteMs);
    DivModOf(t + zoneOffsetMs, MinuteMs, days * 24 * 60 + k, 0);
  }

  /** The i-th half-hour mark from 07:00 is accepted by the server's default
      validator. */
  lemma {:induction false} HalfHourMarkIsValid(zoneOffsetMs: int, midnight: Instant, i: int)
    requires (midnight + zoneOffsetMs) % DayMs == 0
    requires 0 <= i < 24
    ensures ServerIsValidSlot(Defaults(zoneOffsetMs), midnight + (7 * 60 + 30 * i) * MinuteMs)
  {
    var k := 7 * 60 + 30 * i;
    ClockAfterMidnight(zoneOffsetMs, midnight, k, 0);
    assert midnight + k * MinuteMs + 0 == midnight + k * MinuteMs;
    DivModOf(k, 60, 7 + i / 2, 30 * (i % 2));
  }

  /** generateTimeSlots: 07:00 to 18:00 on the hour, and 07:30 to 17:30 on
      the half hour, in time order: 23 slots, all accepted by the server,
      and never 18:30, which the server also accepts. */
  method GenerateTimeSlots(zoneOffsetMs: int, date: Instant) returns (slots: seq<Instant>)
    ensures |slots| == 23
    ensures forall i :: 0 <= i < |slots| ==>
              slots[i] == LocalMidnight(zoneOffsetMs, date) + (7 * 60 + 30 * i) * MinuteMs
    ensures forall i, j :: 0 <= i < j < |slots| ==> slots[i] < slots[j]
    ensures forall i :: 0 <= i < |slots| ==> ServerIsValidSlot(Defaults(zoneOffsetMs), slots[i])
    ensures SetHours(zoneOffsetMs, date, 18, 30) !in slots
  {
    var midnight := LocalMidnight(zoneOffsetMs, date);
    slots := [];
    for hour := 7 to 19
      invariant |slots| == if hour <= 18 then 2 * (hour - 7) else 23
      invariant forall i :: 0 <= i < |slots| ==> slots[i] == midnight + (7 * 60 + 30 * i) * MinuteMs
    {
      slots := slots + [SetHours(zoneOffsetMs, date, hour, 0)];
      if hour < 18 {
        slots := slots + [SetHours(zoneOffsetMs, date, hour, 30)];
      }
    }
    forall i | 0 <= i < |slots| ensures ServerIsValidSlot(Defaults(zoneOffsetMs), slots[i]) {
      HalfHourMarkIsValid(zoneOffsetMs, midnight, i);
    }
  }

  /** The 18:30 slot that generateTimeSlots leaves out is one the server
      accepts: it ends exactly at 19:00. */
  lemma LastSlotAcceptedByServer(zoneOffsetMs: int, date: Instant)
    ensures ServerIsValidSlot(Defaults(zoneOffsetMs), SetHours(zoneOffsetMs, date, 18, 30))
    ensures SetHours(zoneOffsetMs, date, 18, 30) + Defaults(zoneOffsetMs).SlotMs() == SetHours(zoneOffsetMs, date, 19, 0)
  {
    HalfHourMarkIsValid(zoneOffsetMs, LocalMidnight(zoneOffsetMs, date), 23);
  }

  /** The slot grid with its last half hour restored: every half hour from
      07:00 to 18:30. Of the whole-minute instants of the day, it holds
      exactly those the server's default validator accepts. */
  method GenerateAllTimeSlots(zoneOffsetMs: int, date: Instant) returns (slots: seq<Instant>)
    ensures |slots| == 24
    ensures forall i :: 0 <= i < |slots| ==>
              slots[i] == LocalMidnight(zoneOffsetMs, date) + (7 * 60 + 30 * i) * MinuteMs
    ensures forall i, j :: 0 <= i < j < |slots| ==> slots[i] < slots[j]
    ensures forall t :: LocalMidnight(zoneOffsetMs, date) <= t < LocalMidnight(zoneOffsetMs, date) + DayMs
                        && (t - LocalMidnight(zoneOffsetMs, date)) % MinuteMs == 0
                        ==> (ServerIsValidSlot(Defaults(zoneOffsetMs), t) <==> t in slots)
  {
    var midnight := LocalMidnight(zoneOffsetMs, date);
    slots := [];
    for hour := 7 to 19
      invariant |slots| == 2 * (hour - 7)
      invariant forall i :: 0 <= i < |slots| ==> slots[i] == midnight + (7 * 60 + 30 * i) * MinuteMs
    {
      slots := slots + [SetHours(zoneOffsetMs, date, hour, 0), SetHours(zoneOffsetMs, date, hour, 30)];
    }
    forall t | midnight <= t < midnight + DayMs && (t - midnight) % MinuteMs == 0
      ensures ServerIsValidSlot(Defaults(zoneOffsetMs), t) <==> t in slots
    {
      var k := (t - midnight) / MinuteMs;
      DivModOf(t - midnight, MinuteMs, k, 0);
      assert t == midnight + k * MinuteMs + 0;
      ClockAfterMidnight(zoneOffsetMs, midnight, k, 0);
      if ServerIsValidSlot(Defaults(zoneOffsetMs), t) {
        var h, m := k / 60, k % 60;
        assert k == 60 * h + m;
        assert m == 0 || m == 30;
        var i := 2 * (h - 7) + m / 30;
        assert 7 * 60 + 30 * i == k;
        assert slots[i] == t;
      }
      if t in slots {
        var i :| 0 <= i < |slots| && slots[i] == t;
        HalfHourMarkIsValid(zoneOffsetMs, midnight, i);
      }
    }
  }

  /** isPastSlot: the slot is not strictly after now. */
  function IsPastSlot(now: Instant, slot: Instant): (past: bool)
  {
    !(slot > now)
  }

  /** The client greys out a slot exactly when the server would refuse to
      book it as being in the past. */
  lemma PastSlotMatchesServer(c: Config, apps: seq<Appointment>, input: CreateInput, now: Instant,
                              newId: string, createdAt: Instant)
    requires c.Valid() && Server.SchemaOk(input)
    ensures IsPastSlot(now, input.start.value) <==>
              Server.CreateDecision(c, apps, input, now, newId, createdAt) == Err(PastBooking)
  {
  }

  /** canCancelAppointment: the start is strictly more than 30 minutes after
      now (30 is written in; SLOT_MINUTES is not consulted). */
  function CanCancelAppointment(now: Instant, start: Instant): (ok: bool)
  {
    start > now + 30 * MinuteMs
  }

  /** Whenever the client offers cancellation, the server's default lead-time
      rule lets it through; the two disagree exactly at a start 30 minutes
      away, which the server accepts and the client does not offer. */
  lemma ClientCancelAgainstServer(zoneOffsetMs: int, start: Instant, now: Instant)
    ensures CanCancelAppointment(now, start) ==> LeadTimeOk(Defaults(zoneOffsetMs), start, now)
    ensures (LeadTimeOk(Defaults(zoneOffsetMs), start, now) && !CanCancelAppointment(now, start))
              <==> start == now + 30 * MinuteMs
  {
    LeadTimeBoundary(Defaults(zoneOffsetMs), start, now);
  }
}
