/** The Next.js back end's create handler: the same four gates as the
    Express server, its own slot validator, and a commit through the store. */
module Route {
  import opened Time
  import opened Appointments
  import opened SlotRules
  import opened Storage
  import Server

  /** The POST handler's verdict over a snapshot of the store. Although it
      uses the shorter slot validator, it decides exactly as the Express
      create handler does, gate for gate. */
  function PostDecision(c: Config, items: seq<Appointment>, input: CreateInput, now: Instant,
                        newId: string, createdAt: Instant): (r: Result<Appointment>)
    requires c.Valid()
    ensures r == Server.CreateDecision(c, items, input, now, newId, createdAt)
  {
    if !Server.SchemaOk(input) then Err(InvalidInput)
    else if !(input.start.value > now) then Err(PastBooking)
    else if !RouteIsValidSlot(c, input.start.value) then
      ValidatorsAgree(c, input.start.value);
      Err(InvalidSlot)
    else if HasOverlap(c, items, input.start.value) then Err(SlotConflict)
    else
      ValidatorsAgree(c, input.start.value);
      Ok(Server.NewAppointment(c, input, newId, createdAt))
  }

  /** POST /api/appointments: addAppointment runs once, and only when all
      four gates pass; a store without double bookings keeps none. */
  method Post(store: AppointmentStore, c: Config, input: CreateInput, now: Instant,
              newId: string, createdAt: Instant) returns (r: Result<Appointment>)
    requires c.Valid()
    modifies store
    ensures r == PostDecision(c, old(store.items), input, now, newId, createdAt)
    ensures store.items == if r.Ok? then old(store.items) + [r.value] else old(store.items)
    ensures NoDoubleBooking(old(store.items)) ==> NoDoubleBooking(store.items)
  {
    r := PostDecision(c, store.items, input, now, newId, createdAt);
    if r.Ok? {
      if NoDoubleBooking(store.items) {
        AppendFreeSlot(c, store.items, r.value);
      }
      store.Add(r.value);
    }
  }
}
