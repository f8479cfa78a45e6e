/** The Express back end: a module-level array of appointments, the create
    handler (four gates, then push) and the cancel handler (four gates, then
    splice). */
module Server {
  import opened Time
  import opened Text
  import opened Appointments
  import opened SlotRules
  import opened Storage

  /** The create schema. Zod checks the name's 1..100 and the email's
      at-most-100 length on the raw text, before its trim; the email-address
      and datetime checks are the boundary's verdicts. */
  predicate SchemaOk(input: CreateInput)
  {
    1 <= |input.name| <= 100 && input.emailShaped && |input.email| <= 100 && input.start.Some?
  }

  /** The length limits hold of the stored fields too: trimming and
      lower-casing never lengthen a text. A name of blanks passes the schema
      and is stored empty. */
  lemma SchemaBoundsStoredFields(input: CreateInput)
    requires SchemaOk(input)
    ensures |Trim(input.name)| <= 100 && |Trim(ToLower(input.email))| <= 100
    ensures (forall i :: 0 <= i < |input.name| ==> IsJsSpace(input.name[i])) ==> Trim(input.name) == ""
  {
  }

  /** The record a successful create stores: a fresh id, the trimmed name,
      the lower-cased trimmed email, one slot from the requested start, BOOKED. */
  function NewAppointment(c: Config, input: CreateInput, newId: string, createdAt: Instant): (a: Appointment)
    requires input.start.Some?
    ensures a.id == newId && a.start == input.start.value && a.createdAt == createdAt
    ensures a.end == a.start + c.SlotMs() && a.status == Booked
    ensures a.name == Trim(input.name) && a.email == Trim(ToLower(input.email))
  {
    Appointment(newId, Trim(input.name), Trim(ToLower(input.email)),
                input.start.value, input.start.value + c.SlotMs(), Booked, createdAt)
  }

  /** The create handler's verdict: schema, then "strictly after now", then
      the slot rule, then the overlap scan; the first gate that fails decides,
      and only a pass through all four yields a new record. */
  function CreateDecision(c: Config, apps: seq<Appointment>, input: CreateInput, now: Instant,
                          newId: string, createdAt: Instant): (r: Result<Appointment>)
    requires c.Valid()
    ensures r == Err(InvalidInput) <==> !SchemaOk(input)
    ensures r == Err(PastBooking) <==> SchemaOk(input) && input.start.value <= now
    ensures r == Err(InvalidSlot) <==>
              SchemaOk(input) && input.start.value > now && !ServerIsValidSlot(c, input.start.value)
    ensures r == Err(SlotConflict) <==>
              SchemaOk(input) && input.start.value > now && ServerIsValidSlot(c, input.start.value)
              && HasOverlap(c, apps, input.start.value)
    ensures r.Ok? <==>
              SchemaOk(input) && input.start.value > now && ServerIsValidSlot(c, input.start.value)
              && !HasOverlap(c, apps, input.start.value)
    ensures r.Ok? ==> r.value == NewAppointment(c, input, newId, createdAt)
  {
    if !SchemaOk(input) then Err(InvalidInput)
    else if !(input.start.value > now) then Err(PastBooking)
    else if !ServerIsValidSlot(c, input.start.value) then Err(InvalidSlot)
    else if HasOverlap(c, apps, input.start.value) then Err(SlotConflict)
    else Ok(NewAppointment(c, input, newId, createdAt))
  }

  /** A validated create never introduces a double booking, whether it
      succeeds or fails. */
  lemma CreateKeepsNoDoubleBooking(c: Config, apps: seq<Appointment>, input: CreateInput, now: Instant,
                                   newId: string, createdAt: Instant)
    requires c.Valid() && NoDoubleBooking(apps)
    ensures var r := CreateDecision(c, apps, input, now, newId, createdAt);
            NoDoubleBooking(if r.Ok? then apps + [r.value] else apps)
  {
    var r := CreateDecision(c, apps, input, now, newId, createdAt);
    if r.Ok? {
      AppendFreeSlot(c, apps, r.value);
    }
  }

  /** Of two create requests whose slots overlap, at most one succeeds: once
      the first is stored, the second is refused (with SLOT_CONFLICT when it
      passes the earlier gates). */
  lemma OverlappingCreatesConflict(c: Config, apps: seq<Appointment>,
                                   first: CreateInput, now1: Instant, id1: string, at1: Instant,
                                   second: CreateInput, now2: Instant, id2: string, at2: Instant)
    requires c.Valid()
    requires SchemaOk(first) && first.start.value > now1 && ServerIsValidSlot(c, first.start.value)
             && !HasOverlap(c, apps, first.start.value)
    requires second.start.Some?
    requires Overlaps(first.start.value, first.start.value + c.SlotMs(),
                      second.start.value, second.start.value + c.SlotMs())
    ensures var a := CreateDecision(c, apps, first, now1, id1, at1).value;
            var r := CreateDecision(c, apps + [a], second, now2, id2, at2);
            !r.Ok?
            && (SchemaOk(second) && second.start.value > now2 && ServerIsValidSlot(c, second.start.value)
                ==> r == Err(SlotConflict))
  {
    var a := CreateDecision(c, apps, first, now1, id1, at1).value;
    var s := apps + [a];
    assert s[|apps|] == a;
    assert ConflictsWith(c, s[|apps|], second.start.value);
  }

  /** A create with an id no stored record has keeps the ids distinct. */
  lemma CreateKeepsIdsUnique(c: Config, apps: seq<Appointment>, input: CreateInput, now: Instant,
                             newId: string, createdAt: Instant)
    requires c.Valid() && UniqueIds(apps)
    requires forall i :: 0 <= i < |apps| ==> apps[i].id != newId
    ensures var r := CreateDecision(c, apps, input, now, newId, createdAt);
            UniqueIds(if r.Ok? then apps + [r.value] else apps)
  {
  }

  /** The cancel handler's verdict: UUID shape, then lookup, then BOOKED,
      then the lead time; the first gate that fails decides. The lead-time
      refusal carries the truncated minutes left. On success, the index of
      the first record with the id. */
  function CancelDecision(c: Config, apps: seq<Appointment>, id: string, now: Instant): (r: Result<nat>)
    requires c.Valid()
    ensures r == Err(InvalidId) <==> !IsUuidShaped(id)
    ensures r == Err(NotFound) <==> IsUuidShaped(id) && FirstIndexOf(apps, id) == -1
    ensures r == Err(NotActive) <==>
              IsUuidShaped(id) && FirstIndexOf(apps, id) != -1 && apps[FirstIndexOf(apps, id)].status != Booked
    ensures (r.Err? && r.error.TooLate?) <==>
              IsUuidShaped(id) && FirstIndexOf(apps, id) != -1 && apps[FirstIndexOf(apps, id)].status == Booked
              && !LeadTimeOk(c, apps[FirstIndexOf(apps, id)].start, now)
    ensures r.Err? && r.error.TooLate? ==>
              r.error.minutesLeft == DifferenceInMinutes(apps[FirstIndexOf(apps, id)].start, now)
    ensures r.Ok? <==>
              IsUuidShaped(id) && FirstIndexOf(apps, id) != -1 && apps[FirstIndexOf(apps, id)].status == Booked
              && LeadTimeOk(c, apps[FirstIndexOf(apps, id)].start, now)
    ensures r.Ok? ==> r.value == FirstIndexOf(apps, id) && apps[r.value].id == id
                      && apps[r.value].status == Booked && LeadTimeOk(c, apps[r.value].start, now)
  {
    if !IsUuidShaped(id) then Err(InvalidId)
    else
      var index := FirstIndexOf(apps, id);
      if index == -1 then Err(NotFound)
      else if apps[index].status != Booked then Err(NotActive)
      else
        var minutes := DifferenceInMinutes(apps[index].start, now);
        if minutes < c.slotMinutes then Err(TooLate(minutes))
        else Ok(index)
  }

  /** Lead-time boundary on the whole workflow: for a found BOOKED record,
      exactly SLOT_MINUTES away is cancelled, SLOT_MINUTES - 1 minutes away
      and any past start are refused with 403. */
  lemma CancelLeadTimeBoundary(c: Config, apps: seq<Appointment>, id: string, now: Instant)
    requires c.Valid() && IsUuidShaped(id)
    requires FirstIndexOf(apps, id) != -1 && apps[FirstIndexOf(apps, id)].status == Booked
    ensures var start := apps[FirstIndexOf(apps, id)].start;
            var r := CancelDecision(c, apps, id, now);
            (start - now == c.SlotMs() ==> r.Ok?)
            && (start - now == c.SlotMs() - MinuteMs ==> r == Err(TooLate(c.slotMinutes - 1)))
            && (start < now ==> r.Err? && StatusCode(r.error) == 403)
  {
    var start := apps[FirstIndexOf(apps, id)].start;
    LeadTimeBoundary(c, start, now);
    if start - now == c.SlotMs() - MinuteMs {
      assert start - now == (c.slotMinutes - 1) * MinuteMs;
    }
  }

  /** Cancelling ten minutes before the start, with the default 30-minute
      rule, is refused with 403 and reports 10 minutes left. */
  lemma CancelTenMinutesBefore(zoneOffsetMs: int, apps: seq<Appointment>, id: string, now: Instant)
    requires IsUuidShaped(id)
    requires FirstIndexOf(apps, id) != -1 && apps[FirstIndexOf(apps, id)].status == Booked
    requires apps[FirstIndexOf(apps, id)].start == now + 10 * MinuteMs
    ensures CancelDecision(Defaults(zoneOffsetMs), apps, id, now) == Err(TooLate(10))
  {
  }

  /** With distinct ids, a second cancel of the same id finds nothing. */
  lemma CancelTwiceNotFound(c: Config, apps: seq<Appointment>, id: string, now: Instant, later: Instant)
    requires c.Valid() && UniqueIds(apps)
    requires CancelDecision(c, apps, id, now).Ok?
    ensures var k := CancelDecision(c, apps, id, now).value;
            CancelDecision(c, RemoveAt(apps, k), id, later) == Err(NotFound)
  {
    RemoveUniqueIdIsGone(apps, id);
  }

  /** Everything the validated create path establishes about the records of
      the array: all BOOKED, one slot long, on a valid slot, no two overlapping. */
  predicate Consistent(c: Config, s: seq<Appointment>)
    requires c.Valid()
  {
    NoDoubleBooking(s)
    && forall i :: 0 <= i < |s| ==>
         s[i].status == Booked && s[i].end == s[i].start + c.SlotMs() && ServerIsValidSlot(c, s[i].start)
  }

  /** In an array built by the handlers the NOT_ACTIVE gate never fires. */
  lemma NotActiveUnreachable(c: Config, apps: seq<Appointment>, id: string, now: Instant)
    requires c.Valid() && Consistent(c, apps)
    ensures CancelDecision(c, apps, id, now) != Err(NotActive)
  {
  }

  /** The Express process: its configuration and its in-memory array. */
  class SchedulerServer {
    const config: Config
    var appointments: seq<Appointment>

    ghost predicate Valid()
      reads this
    {
      config.Valid() && Consistent(config, appointments) && UniqueIds(appointments)
    }

    constructor (config: Config)
      requires config.Valid()
      ensures Valid() && this.config == config && appointments == []
    {
      this.config := config;
      appointments := [];
    }

    /** POST /api/appointments. `newId` is what uuidv4() returns: an id no
        stored record carries. */
    method Create(input: CreateInput, now: Instant, newId: string, createdAt: Instant)
      returns (r: Result<Appointment>)
      requires Valid()
      requires forall i :: 0 <= i < |appointments| ==> appointments[i].id != newId
      modifies this
      ensures Valid()
      ensures r == CreateDecision(config, old(appointments), input, now, newId, createdAt)
      ensures appointments == if r.Ok? then old(appointments) + [r.value] else old(appointments)
    {
      if !SchemaOk(input) {
        return Err(InvalidInput);
      }
      var start := input.start.value;
      if !(start > now) {
        return Err(PastBooking);
      }
      if !ServerIsValidSlot(config, start) {
        return Err(InvalidSlot);
      }
      if HasOverlap(config, appointments, start) {
        return Err(SlotConflict);
      }
      var a := NewAppointment(config, input, newId, createdAt);
      AppendFreeSlot(config, appointments, a);
      CreateKeepsIdsUnique(config, appointments, input, now, newId, createdAt);
      appointments := appointments + [a];
      r := Ok(a);
    }

    /** DELETE /api/appointments/:id: a hard delete. */
    method Cancel(id: string, now: Instant) returns (r: Result<()>)
      requires Valid()
      modifies this
      ensures Valid()
      ensures var d := CancelDecision(config, old(appointments), id, now);
              if d.Ok?
              then r == Ok(()) && appointments == RemoveAt(old(appointments), d.value)
              else r == Err(d.error) && appointments == old(appointments)
    {
      if !IsUuidShaped(id) {
        return Err(InvalidId);
      }
      var index := FirstIndexOf(appointments, id);
      if index == -1 {
        return Err(NotFound);
      }
      var appointment := appointments[index];
      if appointment.status != Booked {
        return Err(NotActive);
      }
      var minutes := DifferenceInMinutes(appointment.start, now);
      if minutes < config.slotMinutes {
        return Err(TooLate(minutes));
      }
      RemoveKeepsNoDoubleBooking(appointments, index);
      RemoveUniqueIdIsGone(appointments, id);
      appointments := RemoveAt(appointments, index);
      r := Ok(());
    }
  }
}
