/** The day query: validate the YYYY-MM-DD parameter, then list the BOOKED
    appointments whose stored start text begins with it, in store order. */
module DayQuery {
  import Time
  import opened Text
  import opened IsoFormat
  import opened Appointments

  predicate IsPrefix(p: string, s: string)
  {
    |p| <= |s| && s[..|p|] == p
  }

  /** The filter condition of the GET handlers. */
  predicate OnDate(a: Appointment, date: string)
  {
    IsPrefix(date, IsoString(a.start)) && a.status == Booked
  }

  /** `r` can be obtained from `s` by deleting entries. */
  predicate IsSubsequence(r: seq<Appointment>, s: seq<Appointment>)
    decreases |s|
  {
    if r == [] then true
    else if s == [] then false
    else if r[0] == s[0] then IsSubsequence(r[1..], s[1..])
    else IsSubsequence(r, s[1..])
  }

  /** Array.prototype.filter: the records `keep` accepts, each as often as
      `s` holds it, and no other. */
  function Filter(s: seq<Appointment>, keep: Appointment -> bool): (r: seq<Appointment>)
    ensures |r| <= |s|
    ensures forall a :: a in r <==> a in s && keep(a)
    ensures forall a :: multiset(r)[a] == if keep(a) then multiset(s)[a] else 0
    decreases |s|
  {
    if s == [] then []
    else
      var head := if keep(s[0]) then [s[0]] else [];
      var rest := Filter(s[1..], keep);
      assert s == [s[0]] + s[1..];
      assert multiset(s) == multiset{s[0]} + multiset(s[1..]);
      assert multiset(head + rest) == multiset(head) + multiset(rest);
      head + rest
  }

  /** The filter keeps the order of `s`. */
  lemma {:induction false} FilterKeepsOrder(s: seq<Appointment>, keep: Appointment -> bool)
    ensures IsSubsequence(Filter(s, keep), s)
    decreases |s|
  {
    if s != [] {
      var r := Filter(s, keep);
      FilterKeepsOrder(s[1..], keep);
      if keep(s[0]) {
        assert r[0] == s[0] && r[1..] == Filter(s[1..], keep);
      } else {
        assert r == Filter(s[1..], keep);
        if r != [] {
          assert r[0] in r;
          assert r[0] != s[0];
        }
      }
    }
  }

  /** The GET handlers' filter: the BOOKED records on `date`. */
  function BookedOn(s: seq<Appointment>, date: string): (r: seq<Appointment>)
    ensures |r| <= |s|
    ensures forall a :: a in r <==> a in s && OnDate(a, date)
    ensures forall a :: multiset(r)[a] == if OnDate(a, date) then multiset(s)[a] else 0
    ensures IsSubsequence(r, s)
  {
    FilterKeepsOrder(s, a => OnDate(a, date));
    Filter(s, a => OnDate(a, date))
  }

  /** GET /appointments?date=...: a missing or empty date, a date not shaped
      YYYY-MM-DD and a date that is no calendar day are refused in that order;
      otherwise the BOOKED records on that date, in store order. */
  function Query(s: seq<Appointment>, date: Option<string>): (r: Result<seq<Appointment>>)
    ensures r == Err(MissingDate) <==> date.None? || date.value == ""
    ensures r == Err(InvalidDateFormat) <==> date.Some? && date.value != "" && !IsDateShaped(date.value)
    ensures r == Err(InvalidDate) <==> date.Some? && IsDateShaped(date.value) && !IsCalendarDate(date.value)
    ensures r.Ok? <==> date.Some? && IsDateShaped(date.value) && IsCalendarDate(date.value)
    ensures r.Ok? ==> IsSubsequence(r.value, s)
    ensures r.Ok? ==> forall a :: a in r.value <==> a in s && OnDate(a, date.value)
    ensures r.Ok? ==> forall a :: multiset(r.value)[a] == if OnDate(a, date.value) then multiset(s)[a] else 0
  {
    if date.None? || date.value == "" then Err(MissingDate)
    else if !IsDateShaped(date.value) then Err(InvalidDateFormat)
    else if !IsCalendarDate(date.value) then Err(InvalidDate)
    else Ok(BookedOn(s, date.value))
  }

  /** A day with no booking is an empty list, not an error. */
  lemma EmptyDayIsEmptyList(s: seq<Appointment>, date: string)
    requires IsDateShaped(date) && IsCalendarDate(date)
    requires forall i :: 0 <= i < |s| ==> !OnDate(s[i], date)
    ensures Query(s, Some(date)) == Ok([])
  {
  }

  /** For a YYYY-MM-DD date and a start in years 0..9999, a record is on
      the date exactly when it is BOOKED and its start falls on that UTC day. */
  lemma OnDateIsUtcDate(a: Appointment, date: string)
    requires IsDateShaped(date) && 0 <= UtcYear(a.start) <= 9999
    ensures OnDate(a, date) <==> a.status == Booked && date == DateText(CivilFromDays(a.start / Time.DayMs))
  {
    IsoStringDate(a.start);
  }
}
