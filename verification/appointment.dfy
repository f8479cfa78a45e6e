/** The appointment record, the scheduler's configuration, the request and
    error vocabulary shared by both back ends. */
module Appointments {
  import opened Time

  datatype Option<+T> = None | Some(value: T)

  /** Slot status. Only BOOKED records are ever stored by the validated
      create paths; AVAILABLE slots are computed, not stored. */
  datatype Status = Available | Booked

  /** A stored appointment. `start`, `end` and `createdAt` are the instants
      whose toISOString the store keeps. */
  datatype Appointment = Appointment(
    id: string,
    name: string,
    email: string,
    start: Instant,
    end: Instant,
    status: Status,
    createdAt: Instant)

  /** START_HOUR, END_HOUR (exclusive) and SLOT_MINUTES, plus the offset of
      the process's local time zone from UTC. */
  datatype Config = Config(startHour: int, endHour: int, slotMinutes: int, zoneOffsetMs: int)
  {
    predicate Valid() { slotMinutes > 0 }

    /** The length of one slot in milliseconds. */
    function SlotMs(): int { slotMinutes * MinuteMs }
  }

  /** The defaults the handlers fall back to: 07:00 to 19:00, 30-minute slots. */
  function Defaults(zoneOffsetMs: int): (c: Config)
    ensures c.Valid() && c.SlotMs() == 30 * MinuteMs
  {
    Config(7, 19, 30, zoneOffsetMs)
  }

  /** A create request as the boundary hands it over: the raw name and email,
      the email library's verdict on the address, and the instant the start
      text parses to (None when the datetime check rejects it). */
  datatype CreateInput = CreateInput(name: string, email: string, emailShaped: bool, start: Option<Instant>)

  /** Every refusal the handlers produce. */
  datatype ApiError =
    | MissingDate        // GET without a date
    | InvalidDateFormat  // date not YYYY-MM-DD
    | InvalidDate        // YYYY-MM-DD that is no calendar date
    | InvalidInput       // create body fails the schema
    | PastBooking        // start not strictly after now
    | InvalidSlot        // outside business hours or off the slot grid
    | SlotConflict       // overlaps a booked appointment
    | InvalidId          // id not UUID-shaped
    | NotFound           // no appointment with that id
    | NotActive          // appointment not BOOKED
    | TooLate(minutesLeft: int)  // inside the cancellation lead time

  /** The HTTP status each refusal is sent with. */
  function StatusCode(e: ApiError): (code: int)
    ensures code == 409 <==> e == SlotConflict
    ensures code == 404 <==> e == NotFound
    ensures code == 403 <==> e.TooLate?
    ensures code == 400 <==> !(e == SlotConflict || e == NotFound || e.TooLate?)
  {
    match e
    case SlotConflict => 409
    case NotFound => 404
    case TooLate(_) => 403
    case _ => 400
  }

  datatype Result<+T> = Ok(value: T) | Err(error: ApiError)
}
