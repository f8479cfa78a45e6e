# Appointment scheduler — verified model of the booking core

The scheduler lets a visitor book a fixed-length appointment slot on a day
(07:00 to 19:00 local time, 30-minute slots by default), list the bookings
of a day, and cancel a booking no later than one slot length before it
starts. It has two interchangeable back ends:

- the Express server (`server/index.js`), whose state is a module-level
  array of appointments;
- the Next.js route (`src/app/api/appointments/route.ts`), which goes
  through a small store (`src/lib/storage.ts`).

The browser helpers in `src/lib/api.ts` build the slot grid of a day and
decide whether a slot is past and whether a booking may still be cancelled.

The model is laid out module by module:

| file | module | form |
|---|---|---|
| time.dfy | `Time` | instants as milliseconds since the epoch, local hour and minute at a fixed zone offset, date-fns `differenceInMinutes` (truncating) |
| text.dfy | `Text` | JavaScript `trim`, ASCII `toLowerCase`, the YYYY-MM-DD shape, calendar-date and UUID-shape tests, zero-padded digits |
| iso.dfy | `IsoFormat` | `Date.prototype.toISOString` (civil date from day number, 24-character rendering) |
| appointment.dfy | `Appointments` | the appointment record, configuration, create request, every refusal and its HTTP status |
| slots.dfy | `SlotRules` | both `isValidSlot` versions, half-open overlap, the BOOKED-only overlap scan, the no-double-booking invariant, the cancellation lead time |
| storage.dfy | `Storage` | `findIndex`, `splice`, and the store as a class over a sequence |
| dayquery.dfy | `DayQuery` | the GET handler shared by both back ends |
| server.dfy | `Server` | the Express create and cancel handlers, as decision functions and as methods of a class holding the array |
| route.dfy | `Route` | the Next.js POST handler over the store |
| client.dfy | `Client` | `generateTimeSlots`, `isPastSlot`, `canCancelAppointment` |

The handlers' inputs are values: the configuration, the current instant
`now`, the id `uuidv4()` would return and the `createdAt` instant. Each
handler is a function giving `Ok(...)` or `Err(error)`. The gates are
checked in the source's order, and the first failing gate decides. The
methods of `Server.SchedulerServer` and `Route.Post` are proved to answer
as their decision function and to change the state exactly as it
prescribes. The store's `Add` is specified as `old(items) + [a]`, and its
`Remove` as `RemoveAt(old(items), FirstIndexOf(old(items), id))` when the
id is present and no change otherwise.

Two behaviours of the code are worth stating outright:

- **The two slot validators agree.** The Express validator's extra
  `hour === END_HOUR - 1 && minute === 60 - SLOT_MINUTES` disjunct is
  already covered by `hour < END_HOUR`, so it accepts exactly what the
  Next.js validator accepts. They agree for every configuration
  (`SlotRules.ValidatorsAgree`). With the defaults, both accept 18:30 and
  refuse 19:00 (`SlotRules.DefaultSlotExamples`).
- **The name length is checked before the trim.** The create schema checks
  the name's 1..100 length on the raw text and trims afterwards, so a name
  of blanks only passes and is stored as the empty string. The same
  applies to the email's at-most-100 check.

The day query matches the first ten characters of the stored UTC ISO start
text. It therefore lists a booking under its UTC date. The slot checks, by
contrast, use the server's local hour.

## Model

| member | source | states |
|---|---|---|
| Time.LocalHour | server/index.js:72 | `getHours` at the fixed zone offset is an hour of day, 0..23 |
| Time.LocalMinute | server/index.js:73 | `getMinutes` is a minute of the hour, 0..59 |
| Time.LocalMidnight | src/lib/api.ts:124-130 | the start of the local day that `setHours(hour, minute, 0, 0)` builds on: a local midnight no later than the instant and less than a day before it |
| Time.ClockAfterMidnight | server/index.js:71-73 | k minutes (plus less than a minute) after a local midnight, the local clock reads hour k/60 and minute k%60 |
| Time.DifferenceInMinutes | server/index.js:233 | whole minutes between two instants, truncated toward zero in both directions |
| Time.AtLeastMinutes | server/index.js:233-234 | for n > 0, at least n whole minutes apart holds exactly when the gap is at least n minutes of milliseconds |
| Text.Trim | server/index.js:58 | the result has no leading or trailing blank, is no longer than the input, is empty exactly when the input is all blanks, and equals the input when nothing surrounds it |
| Text.TrimIdempotent | server/index.js:58 | trimming twice is trimming once |
| Text.LowerChar | server/index.js:63 | a lower-cased character is never an ASCII capital, and other characters are unchanged |
| Text.ToLowerIdempotent | server/index.js:63-64 | lower-casing twice is lower-casing once |
| Text.ToLower | server/index.js:63 | the result has the input's length, lowers each character as `LowerChar` does, and holds no ASCII capital |
| Text.Padded | server/index.js:187 | a zero-padded number has exactly the requested width, all digits |
| Text.PaddedRoundTrip | server/index.js:187 | reading the padded digits back gives the number when it fits the width |
| Text.DaysInMonth | server/index.js:131-132 | every month has 28 to 31 days |
| Text.MonthsFillTheYear | server/index.js:131-132 | the twelve month lengths add up to 366 days in a leap year and 365 otherwise |
| Text.IsDateShaped | server/index.js:53-55 | definition of `^\d{4}-\d{2}-\d{2}$`; `IsoFormat.DateText` and `Text.CalendarDateExamples` produce and test texts of this shape |
| Text.IsCalendarDate | server/index.js:130-134 | definition: month 1..12 and day within `DaysInMonth`; characterized on examples by `Text.CalendarDateExamples` |
| Text.CalendarDateExamples | server/index.js:130-134 | 2024-02-29 is a calendar date; 2023-02-29, 2024-13-01 and 2024-04-31 are YYYY-MM-DD-shaped but not calendar dates |
| Text.IsUuidShaped | server/index.js:68 | definition: 36 characters, dashes at 8, 13, 18 and 23, hexadecimal digits elsewhere; examples in `Text.UuidShapeExamples` |
| Text.UuidShapeExamples | server/index.js:68 | a canonical UUID has the shape; a misplaced dash or a short text does not |
| IsoFormat.YearText | server/index.js:187 | a year in 0..9999 is 4 digits; any other year is a sign and 6 digits |
| IsoFormat.DateText | server/index.js:187 | a date in years 0..9999 renders YYYY-MM-DD-shaped |
| IsoFormat.DateTextRoundTrip | server/index.js:187 | the rendered date text reads back as the same year, month and day |
| IsoFormat.CivilExamples | server/index.js:187-188 | day 0 is 1970-01-01 and day 19782 is 2024-02-29 |
| IsoFormat.CivilFromDays | server/index.js:187 | definition of the proleptic Gregorian date of a day number; checked by `IsoFormat.CivilExamples` |
| IsoFormat.TimeText | server/index.js:187-188 | the time part is 14 characters from `T` to `Z` |
| IsoFormat.IsoString | server/index.js:187-188 | the stored start text is 24 characters: a YYYY-MM-DD date (years 0..9999), `T`, time, `Z` |
| IsoFormat.IsoStringDate | server/index.js:187 | for years 0..9999, the first ten characters of the start text are the YYYY-MM-DD of the instant's UTC day |
| Appointments.Defaults | server/index.js:39-41 | the default configuration is valid, with 30-minute slots |
| Appointments.StatusCode | server/index.js:101-245 | slot conflicts are 409, a missing id is 404, the lead-time refusal is 403, and every other refusal is 400 |
| SlotRules.ServerIsValidSlot | server/index.js:71-81 | the Express validator accepts exactly a local hour in [START_HOUR, END_HOUR) with the local minute a multiple of SLOT_MINUTES |
| SlotRules.RouteIsValidSlot | src/app/api/appointments/route.ts:21-25 | the Next.js validator gives the same verdict as the Express validator |
| SlotRules.ValidatorsAgree | src/app/api/appointments/route.ts:21-25 | the Next.js validator and the Express validator agree on every instant and configuration |
| SlotRules.DefaultSlotExamples | server/index.js:75-80 | with the defaults, 09:00 and 18:30 are accepted; 09:15 and 19:00 are refused |
| SlotRules.SubMinuteIgnored | server/index.js:72-73 | seconds and milliseconds within a minute do not change the verdict |
| SlotRules.OverlapsCharacterization | server/index.js:94-97 | the max/min test is intersection of half-open intervals; it is symmetric, and back-to-back slots do not overlap |
| SlotRules.HasOverlap | server/index.js:83-99 | the scan reports a conflict exactly when some BOOKED record's interval intersects the requested slot |
| SlotRules.AppendFreeSlot | server/index.js:177-193 | appending a booking that conflicts with nothing keeps the collection free of double bookings |
| SlotRules.RemoveKeepsNoDoubleBooking | server/index.js:243 | removing any record keeps the collection free of double bookings |
| SlotRules.LeadTimeOk | server/index.js:233-234 | with a positive slot length, the truncated-minutes rule lets a cancel through exactly when the start is at least SLOT_MINUTES minutes of milliseconds away |
| SlotRules.LeadTimeBoundary | server/index.js:232-240 | at the boundary of the truncated rule, exactly one slot length away is allowed, one minute less is refused, and a past start is refused |
| Storage.FirstIndexOf | src/lib/storage.ts:61 | `findIndex`: -1 exactly when no record has the id, otherwise the first index holding it |
| Storage.RemoveAt | src/lib/storage.ts:63 | `splice(k, 1)`: one entry fewer, the others in order, the removed entry exactly the one at k |
| Storage.RemoveFirst | src/lib/storage.ts:59-68 | an absent id leaves the sequence unchanged; a present one removes exactly one record, the first with that id, and keeps all others in their order |
| Storage.AddThenRemoveRestores | src/lib/storage.ts:53-68 | adding a record with a fresh id and removing that id restores the collection |
| Storage.FreshIdFoundLast | src/lib/storage.ts:55-61 | a record appended under an id no earlier record has is found by `findIndex` at the end |
| Storage.RemoveUniqueIdIsGone | src/lib/storage.ts:59-68 | with distinct ids, after removal the id is absent and the ids stay distinct |
| Storage.AppointmentStore.constructor | src/lib/storage.ts:15 | the store starts empty |
| Storage.AppointmentStore.Add | src/lib/storage.ts:53-57 | `addAppointment` appends the record at the end and changes nothing else |
| Storage.AppointmentStore.Remove | src/lib/storage.ts:59-68 | `removeAppointment` reports true exactly when the id is present, then splices out its first occurrence; the new store is `RemoveFirst` of the old one, so it is unchanged when the id is absent |
| Storage.AppointmentStore.Find | src/lib/storage.ts:70-73 | `findAppointment` is none exactly when no record has the id, otherwise the first record with it |
| DayQuery.BookedOn | server/index.js:137-139 | the GET filter keeps every BOOKED record whose start text begins with the date, as many times as the store holds it, in store order, and no other record |
| DayQuery.Filter | server/index.js:137-139 | `filter` keeps every record the condition accepts, as many times as the input holds it, and no other record |
| DayQuery.FilterKeepsOrder | server/index.js:137-139 | the filter keeps input order: its result is a subsequence of the input |
| DayQuery.OnDate | server/index.js:137-139 | definition: the date is a prefix of the start text and the record is BOOKED; characterized by `DayQuery.OnDateIsUtcDate` |
| DayQuery.OnDateIsUtcDate | server/index.js:137-139 | for a YYYY-MM-DD date and a start in years 0..9999, a record matches exactly when it is BOOKED and its start falls on that UTC date |
| DayQuery.Query | server/index.js:112-141 | refuses a missing date, then a non-YYYY-MM-DD one, then a non-calendar one; otherwise lists the BOOKED records on that date, each as often as stored, in store order |
| DayQuery.EmptyDayIsEmptyList | server/index.js:137-141 | a valid date with no booking gives an empty list, not an error |
| Server.SchemaOk | server/index.js:57-66 | definition: name 1..100 and email at most 100 characters on the raw text, an address-shaped email and a parsed start; characterized by `Server.SchemaBoundsStoredFields` |
| Server.SchemaBoundsStoredFields | server/index.js:57-64 | a request that passes the schema stores a name and an email of at most 100 characters, and a name of blanks only is stored empty |
| Server.NewAppointment | server/index.js:182-191 | the new record has the fresh id, trimmed name, lower-cased trimmed email, the requested start, an end one slot later, and status BOOKED |
| Server.CreateDecision | server/index.js:149-194 | the schema, then "strictly after now", then the slot rule, then the overlap scan; each refusal happens exactly when its gate is the first to fail, and success happens exactly when all four pass |
| Server.CreateKeepsNoDoubleBooking | server/index.js:177-193 | a create, successful or not, never introduces a double booking |
| Server.OverlappingCreatesConflict | server/index.js:177-180 | of two overlapping requests only the first succeeds; the second gets SLOT_CONFLICT once it passes the earlier gates |
| Server.CreateKeepsIdsUnique | server/index.js:184 | a create with a fresh id keeps the ids distinct |
| Server.CancelDecision | server/index.js:202-245 | UUID shape, then lookup, then BOOKED, then the lead time; each refusal happens exactly when its gate is the first to fail, and success happens exactly when all four pass; the 403 carries the truncated minutes left; success names the first index with the id |
| Server.CancelLeadTimeBoundary | server/index.js:232-240 | for a found booking: exactly one slot length away is cancelled, one minute less is 403 with SLOT-1 minutes, and a past start is 403 |
| Server.CancelTenMinutesBefore | server/index.js:233-239 | with the defaults, cancelling 10 minutes before the start is refused with 10 minutes left |
| Server.CancelTwiceNotFound | server/index.js:212-214 | with distinct ids, a second cancel of the same id answers not found |
| Server.NotActiveUnreachable | server/index.js:219-222 | on records the handlers built, the NOT_ACTIVE gate never fires |
| Server.SchedulerServer.constructor | server/index.js:43-44 | the server starts with an empty, consistent array with distinct ids |
| Server.SchedulerServer.Create | server/index.js:149-194 | given a fresh id, answers as `CreateDecision`, appends exactly the new record on success, leaves the array unchanged otherwise, and keeps it consistent with distinct ids |
| Server.SchedulerServer.Cancel | server/index.js:202-245 | answers as `CancelDecision`, splices out exactly the first record with the id on success, leaves the array unchanged otherwise, and keeps it consistent with distinct ids |
| Route.PostDecision | src/app/api/appointments/route.ts:67-95 | the Next.js POST, with its shorter validator, decides exactly as the Express create handler |
| Route.Post | src/app/api/appointments/route.ts:67-95 | calls `addAppointment` once on success and never on refusal; a store without double bookings keeps none |
| Client.SetHours | src/lib/api.ts:124-125 | for an hour 0..23 and a minute 0..59, `setHours(h, m, 0, 0)` is an instant on the same local day as the date, on a whole minute, where the local clock reads h:m |
| Client.HalfHourMarkIsValid | src/lib/api.ts:123-131 | every half-hour mark from 07:00 to 18:30 is accepted by the server |
| Client.GenerateTimeSlots | src/lib/api.ts:121-135 | 23 slots, on the hour 07:00 to 18:00 and on the half hour 07:30 to 17:30, in strictly increasing order, all accepted by the server, 18:30 absent |
| Client.LastSlotAcceptedByServer | src/lib/api.ts:128 | the omitted 18:30 slot is accepted by the server and ends exactly at 19:00 |
| Client.GenerateAllTimeSlots | src/lib/api.ts:121-135 | the corrected grid: 24 half-hour slots, and among the whole-minute instants of the day exactly those the server accepts |
| Client.IsPastSlot | src/lib/api.ts:142-145 | definition: the slot is not strictly after now; `Client.PastSlotMatchesServer` ties it to the server |
| Client.PastSlotMatchesServer | src/lib/api.ts:142-145 | the client greys out a slot exactly when the server would refuse it as past |
| Client.CanCancelAppointment | src/lib/api.ts:147-151 | definition: the start is strictly more than 30 minutes after now; `Client.ClientCancelAgainstServer` compares it with the server |
| Client.ClientCancelAgainstServer | src/lib/api.ts:147-151 | a cancel the client offers passes the server's lead-time rule; the two disagree only at a start exactly 30 minutes away |

## Left out

- Persistence: the store's file in `/tmp` and its in-memory fallback are one sequence. Read and write failures are not modelled.
- Express and Next.js wiring (routing, CORS, JSON bodies, response bodies other than the status) is not modelled, and neither are the 500 paths of the `catch` blocks.
- The health and test routes, the `fetch` wrappers of `src/lib/api.ts` and `formatTime` are not modelled.
- The DELETE handler of the Next.js back end (`src/app/api/appointments/[id]/route.ts`) is not part of this model. The store operations it calls (`findAppointment`, `removeAppointment`) are modelled.
- Configuration parsing from the environment is not modelled. The configuration is a parameter with a positive slot length, so a zero or unparsable `SLOT_MINUTES` is left out.
- The clock (`new Date()`) and `uuidv4()` are parameters: `now`, `createdAt` and `newId`.
- Server.SchedulerServer.Create: requires a `newId` that no stored record carries. A collision of `uuidv4()` values is not modelled.
- The email-address regex of the schema and the datetime parse of the start text are the boundary's verdicts. They are fields of the create request (`emailShaped`, and `start` as an instant or none). The Express `.datetime()` check and the Next.js `parseISO`/`isValid` refine accept different texts; the model does not distinguish them.
- The stored start and end texts are assumed to parse back (`parseISO`) to the instants they were rendered from. The `isValid(start)` check of the Express DELETE handler therefore never fires, and it is not modelled.
- Time zones: the local zone is a fixed offset from UTC. Daylight-saving transitions are not modelled.
- Browser and server zones: one `zoneOffsetMs` stands for both the browser's zone (`setHours` in `generateTimeSlots`) and the server's zone (`getHours`/`getMinutes` in `isValidSlot`). The client-against-server results assume the two zones are equal: `Client.GenerateTimeSlots` (all slots accepted), `Client.LastSlotAcceptedByServer`, `Client.GenerateAllTimeSlots` and the finding below. With a browser at UTC+1 and the server at UTC, the grid's 07:00 would be 06:00 to the server and refused.
- `toISOString` throws for instants beyond ±8.64e15 ms; this is not modelled. The calendar computation (`IsoFormat.CivilFromDays`) is checked on two days and not proved correct in general.
- IsoFormat.IsoString: the date-shape part of its contract covers only years 0..9999.
- Text.LowerChar, Text.ToLower: lower-case ASCII letters only, where JavaScript's `toLowerCase` follows full Unicode case mapping.
- String lengths count Unicode scalar values. JavaScript counts UTF-16 code units, so the 100-character limits differ for names with characters outside the Basic Multilingual Plane.
- Text.Trim: the contract does not state that the kept part is the contiguous middle of the input; the body is the drop-from-both-ends definition.
- Concurrent requests are not modelled: each handler runs to completion as one step.

## Findings

| source | as written | input that shows it | evidently intended | confidence | as-written member | corrected member |
|---|---|---|---|---|---|---|
| src/lib/api.ts:128 | the half-hour slot is pushed only when `hour < 18`, so the grid stops at 18:00 and has 23 slots | the date's 18:30 local (`setHours(18, 30)`): both validators accept it and it ends exactly at 19:00 (`Client.LastSlotAcceptedByServer`), yet the grid never offers it | offer every half hour from 07:00 to 18:30, which is 24 slots and exactly the starts the server accepts | medium, not executed | Client.GenerateTimeSlots | Client.GenerateAllTimeSlots |
