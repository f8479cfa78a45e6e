/** Date.prototype.toISOString: the UTC calendar date and time of an
    instant, rendered as YYYY-MM-DDTHH:mm:ss.sssZ. Stored appointments carry
    their start in this form, and the day query matches on its first ten
    characters. */
module IsoFormat {
  import opened Time
  import opened Text

  datatype CivilDate = CivilDate(year: int, month: int, day: int)

  /** The proleptic Gregorian date of the day `days` days after 1970-01-01
      (days counted in 400-year eras of 146097 days, years starting in March). */
  function CivilFromDays(days: int): CivilDate
  {
    var z := days + 719468;
    var era := z / 146097;
    var doe := z - era * 146097;
    var yoe := (doe - doe / 1460 + doe / 36524 - doe / 146096) / 365;
    var doy := doe - (365 * yoe + yoe / 4 - yoe / 100);
    var mp := (5 * doy + 2) / 153;
    var d := doy - (153 * mp + 2) / 5 + 1;
    var m := if mp < 10 then mp + 3 else mp - 9;
    var y := yoe + era * 400 + (if m <= 2 then 1 else 0);
    CivilDate(y, m, d)
  }

  /** The UTC calendar year of an instant. */
  function UtcYear(t: Instant): int
  {
    CivilFromDays(t / DayMs).year
  }

  /** Four digits for years 0..9999; otherwise a sign and six digits. */
  function YearText(y: int): (r: string)
    ensures 0 <= y <= 9999 ==> |r| == 4 && AllDigits(r)
    ensures !(0 <= y <= 9999) ==> |r| == 7 && (r[0] == '+' || r[0] == '-') && AllDigits(r[1..])
  {
    if 0 <= y <= 9999 then Padded(y, 4)
    else if y < 0 then "-" + Padded(-y, 6)
    else "+" + Padded(y, 6)
  }

  /** YYYY-MM-DD of a calendar date. */
  function DateText(date: CivilDate): (r: string)
    ensures 0 <= date.year <= 9999 ==> IsDateShaped(r)
  {
    YearText(date.year) + "-" + Padded(date.month, 2) + "-" + Padded(date.day, 2)
  }

  /** Reading the YYYY-MM-DD text back gives the date it was rendered from. */
  lemma DateTextRoundTrip(date: CivilDate)
    requires 0 <= date.year <= 9999 && 1 <= date.month <= 12 && 1 <= date.day <= 31
    ensures IsDateShaped(DateText(date))
    ensures YearOf(DateText(date)) == date.year
    ensures MonthOf(DateText(date)) == date.month
    ensures DayOf(DateText(date)) == date.day
  {
    var r := DateText(date);
    assert r[..4] == Padded(date.year, 4);
    assert r[5..7] == Padded(date.month, 2);
    assert r[8..10] == Padded(date.day, 2);
    PaddedRoundTrip(date.year, 4);
    PaddedRoundTrip(date.month, 2);
    PaddedRoundTrip(date.day, 2);
  }

  /** Two known days: the epoch, and the leap day of 2024 (day 19782). */
  lemma CivilExamples()
    ensures CivilFromDays(0) == CivilDate(1970, 1, 1)
    ensures CivilFromDays(19782) == CivilDate(2024, 2, 29)
  {
    assert (19782 + 719468) / 146097 == 5;
    assert 739250 - 5 * 146097 == 8765;
    assert (8765 - 8765 / 1460 + 8765 / 36524 - 8765 / 146096) / 365 == 23;
    assert 8765 - (365 * 23 + 23 / 4 - 23 / 100) == 365;
    assert (5 * 365 + 2) / 153 == 11;
    assert 365 - (153 * 11 + 2) / 5 + 1 == 29;

    assert 719468 / 146097 == 4;
    assert (719468 - 4 * 146097) == 135080;
    assert (135080 - 135080 / 1460 + 135080 / 36524 - 135080 / 146096) / 365 == 369;
    assert 135080 - (365 * 369 + 369 / 4 - 369 / 100) == 306;
    assert (5 * 306 + 2) / 153 == 10;
    assert 306 - (153 * 10 + 2) / 5 + 1 == 1;
  }

  /** THH:mm:ss.sssZ of a millisecond of the day. */
  function TimeText(ms: int): (r: string)
    ensures |r| == 14 && r[0] == 'T' && r[13] == 'Z'
  {
    "T" + Padded(ms / HourMs, 2) + ":" + Padded(ms / MinuteMs % 60, 2)
    + ":" + Padded(ms / SecondMs % 60, 2) + "." + Padded(ms % SecondMs, 3) + "Z"
  }

  /** toISOString of an instant: the UTC date, then the UTC time of day. */
  function IsoString(t: Instant): (r: string)
    ensures 0 <= UtcYear(t) <= 9999 ==> |r| == 24 && IsDateShaped(r[..10]) && r[10] == 'T' && r[23] == 'Z'
  {
    var date := CivilFromDays(t / DayMs);
    var r := DateText(date) + TimeText(t % DayMs);
    assert 0 <= date.year <= 9999 ==> r[..10] == DateText(date);
    r
  }

  /** The first ten characters of toISOString are the instant's UTC date,
      which is what the day query matches. */
  lemma IsoStringDate(t: Instant)
    requires 0 <= UtcYear(t) <= 9999
    ensures IsoString(t)[..10] == DateText(CivilFromDays(t / DayMs))
  {
  }
}
