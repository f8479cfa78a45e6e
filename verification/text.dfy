/** Character classes and string shapes used at the request boundary:
    decimal and hexadecimal digits, the whitespace JavaScript's String.trim
    removes, ASCII lower-casing, zero-padded decimal rendering, and the
    YYYY-MM-DD and UUID shapes the handlers check. */
module Text {

  predicate IsDigit(ch: char) { '0' <= ch <= '9' }

  predicate IsHexDigit(ch: char) { IsDigit(ch) || 'a' <= ch <= 'f' || 'A' <= ch <= 'F' }

  function DigitValue(ch: char): (v: int)
    requires IsDigit(ch)
    ensures 0 <= v < 10
  {
    ch as int - '0' as int
  }

  function DigitChar(v: int): (ch: char)
    requires 0 <= v < 10
    ensures IsDigit(ch) && DigitValue(ch) == v
  {
    ('0' as int + v) as char
  }

  predicate AllDigits(s: string) { forall i :: 0 <= i < |s| ==> IsDigit(s[i]) }

  /** The number a run of decimal digits spells, most significant first. */
  function DigitsValue(s: string): (v: nat)
    requires AllDigits(s)
    decreases |s|
  {
    if s == [] then 0 else 10 * DigitsValue(s[..|s| - 1]) + DigitValue(s[|s| - 1])
  }

  function Pow10(n: nat): nat
  {
    if n == 0 then 1 else 10 * Pow10(n - 1)
  }

  /** The last `width` decimal digits of `n`, zero-padded on the left
      (String(n).padStart(width, "0") for 0 <= n < 10^width). */
  function Padded(n: int, width: nat): (r: string)
    ensures |r| == width && AllDigits(r)
    decreases width
  {
    if width == 0 then "" else Padded(n / 10, width - 1) + [DigitChar(n % 10)]
  }

  /** Reading back a padded rendering gives the number, when it fits. */
  lemma {:induction false} PaddedRoundTrip(n: int, width: nat)
    requires 0 <= n < Pow10(width)
    ensures DigitsValue(Padded(n, width)) == n
    decreases width
  {
    if width > 0 {
      var r := Padded(n, width);
      assert r[..|r| - 1] == Padded(n / 10, width - 1);
      PaddedRoundTrip(n / 10, width - 1);
    }
  }

  /** The characters String.prototype.trim removes: ECMAScript WhiteSpace
      (tab, vertical tab, form feed, space, no-break space, byte-order mark
      and the Unicode space separators) and LineTerminator. */
  predicate IsJsSpace(ch: char)
  {
    ch == '\t' || ch == '\n' || ch == '\U{000B}' || ch == '\U{000C}' || ch == '\r' || ch == ' '
    || ch == '\U{00A0}' || ch == '\U{1680}' || ('\U{2000}' <= ch <= '\U{200A}')
    || ch == '\U{2028}' || ch == '\U{2029}' || ch == '\U{202F}' || ch == '\U{205F}'
    || ch == '\U{3000}' || ch == '\U{FEFF}'
  }

  function TrimStart(s: string): (r: string)
    ensures |r| <= |s| && r == s[|s| - |r|..]
    ensures forall i :: 0 <= i < |s| - |r| ==> IsJsSpace(s[i])
    ensures r == [] || !IsJsSpace(r[0])
    decreases |s|
  {
    if s != [] && IsJsSpace(s[0]) then TrimStart(s[1..]) else s
  }

  function TrimEnd(s: string): (r: string)
    ensures |r| <= |s| && r == s[..|r|]
    ensures forall i :: |r| <= i < |s| ==> IsJsSpace(s[i])
    ensures r == [] || !IsJsSpace(r[|r| - 1])
    decreases |s|
  {
    if s != [] && IsJsSpace(s[|s| - 1]) then TrimEnd(s[..|s| - 1]) else s
  }

  /** String.prototype.trim: drop surrounding whitespace, keep the middle. */
  function Trim(s: string): (r: string)
    ensures r == [] || (!IsJsSpace(r[0]) && !IsJsSpace(r[|r| - 1]))
    ensures |r| <= |s|
    ensures r == [] <==> forall i :: 0 <= i < |s| ==> IsJsSpace(s[i])
    ensures s != [] && !IsJsSpace(s[0]) && !IsJsSpace(s[|s| - 1]) ==> r == s
  {
    var t := TrimStart(s);
    var r := TrimEnd(t);
    TrimmedAway(s, t, r);
    r
  }

  lemma TrimmedAway(s: string, t: string, r: string)
    requires t == TrimStart(s) && r == TrimEnd(t)
    ensures r == [] ==> forall i :: 0 <= i < |s| ==> IsJsSpace(s[i])
  {
    if r == [] {
      assert t == [];
    }
  }

  /** Trimming twice is trimming once. */
  lemma TrimIdempotent(s: string)
    ensures Trim(Trim(s)) == Trim(s)
  {
    var r := Trim(s);
    assert TrimStart(r) == r;
    assert TrimEnd(r) == r;
  }

  /** ASCII upper-case letters become lower-case; every other character stays. */
  function LowerChar(ch: char): (c: char)
    ensures !('A' <= c <= 'Z')
    ensures !('A' <= ch <= 'Z') ==> c == ch
    ensures 'A' <= ch <= 'Z' ==> c as int == ch as int + 32
  {
    if 'A' <= ch <= 'Z' then (ch as int + 32) as char else ch
  }

  function ToLower(s: string): (r: string)
    ensures |r| == |s|
    ensures forall i :: 0 <= i < |s| ==> r[i] == LowerChar(s[i])
    ensures forall i :: 0 <= i < |r| ==> !('A' <= r[i] <= 'Z')
  {
    seq(|s|, i requires 0 <= i < |s| => LowerChar(s[i]))
  }

  /** Lower-casing twice is lower-casing once. */
  lemma ToLowerIdempotent(s: string)
    ensures ToLower(ToLower(s)) == ToLower(s)
  {
  }

  /** Matches ^\d{4}-\d{2}-\d{2}$ (JavaScript's \d is ASCII 0-9). */
  predicate IsDateShaped(s: string)
  {
    |s| == 10 && s[4] == '-' && s[7] == '-'
    && forall i :: 0 <= i < 10 && i != 4 && i != 7 ==> IsDigit(s[i])
  }

  predicate IsLeapYear(y: int)
  {
    (y % 4 == 0 && y % 100 != 0) || y % 400 == 0
  }

  function DaysInMonth(y: int, m: int): (n: int)
    requires 1 <= m <= 12
    ensures 28 <= n <= 31
  {
    if m == 2 then (if IsLeapYear(y) then 29 else 28)
    else if m == 4 || m == 6 || m == 9 || m == 11 then 30
    else 31
  }

  /** The twelve months fill the year: 366 days in a leap year, 365 otherwise. */
  lemma MonthsFillTheYear(y: int)
    ensures DaysInMonth(y, 1) + DaysInMonth(y, 2) + DaysInMonth(y, 3) + DaysInMonth(y, 4)
            + DaysInMonth(y, 5) + DaysInMonth(y, 6) + DaysInMonth(y, 7) + DaysInMonth(y, 8)
            + DaysInMonth(y, 9) + DaysInMonth(y, 10) + DaysInMonth(y, 11) + DaysInMonth(y, 12)
            == if IsLeapYear(y) then 366 else 365
  {
  }

  function YearOf(s: string): nat requires IsDateShaped(s) { DigitsValue(s[..4]) }
  function MonthOf(s: string): nat requires IsDateShaped(s) { DigitsValue(s[5..7]) }
  function DayOf(s: string): nat requires IsDateShaped(s) { DigitsValue(s[8..10]) }

  /** date-fns parseISO(date + "T00:00:00") is a valid Date exactly when the
      month lies in 1..12 and the day exists in that month of that year. */
  predicate IsCalendarDate(s: string)
    requires IsDateShaped(s)
  {
    1 <= MonthOf(s) <= 12 && 1 <= DayOf(s) <= DaysInMonth(YearOf(s), MonthOf(s))
  }

  /** The 8-4-4-4-12 hexadecimal shape of a UUID, either letter case. */
  predicate IsUuidShaped(s: string)
  {
    |s| == 36
    && forall i :: 0 <= i < 36 ==>
         if i == 8 || i == 13 || i == 18 || i == 23 then s[i] == '-' else IsHexDigit(s[i])
  }

  /** Reading one more digit: ten times the value so far, plus the digit. */
  lemma DigitsValueStep(s: string, k: nat)
    requires AllDigits(s) && 0 < k <= |s|
    ensures DigitsValue(s[..k]) == 10 * DigitsValue(s[..k - 1]) + DigitValue(s[k - 1])
  {
    assert s[..k][..k - 1] == s[..k - 1];
  }

  /** The year, month and day fields of a YYYY-MM-DD text, digit by digit. */
  lemma DateFields(s: string)
    requires IsDateShaped(s)
    ensures YearOf(s) == 1000 * DigitValue(s[0]) + 100 * DigitValue(s[1]) + 10 * DigitValue(s[2]) + DigitValue(s[3])
    ensures MonthOf(s) == 10 * DigitValue(s[5]) + DigitValue(s[6])
    ensures DayOf(s) == 10 * DigitValue(s[8]) + DigitValue(s[9])
  {
    var y, m, d := s[..4], s[5..7], s[8..10];
    assert y[..0] == [];
    DigitsValueStep(y, 1);
    DigitsValueStep(y, 2);
    DigitsValueStep(y, 3);
    DigitsValueStep(y, 4);
    assert y[..4] == y;
    assert m[..0] == [] && d[..0] == [];
    DigitsValueStep(m, 1);
    DigitsValueStep(m, 2);
    assert m[..2] == m;
    DigitsValueStep(d, 1);
    DigitsValueStep(d, 2);
    assert d[..2] == d;
  }

  /** A leap day exists only in leap years, and months stop at 12. */
  lemma CalendarDateExamples()
    ensures IsDateShaped("2024-02-29") && IsCalendarDate("2024-02-29")
    ensures IsDateShaped("2023-02-29") && !IsCalendarDate("2023-02-29")
    ensures IsDateShaped("2024-13-01") && !IsCalendarDate("2024-13-01")
    ensures IsDateShaped("2024-04-31") && !IsCalendarDate("2024-04-31")
  {
    DateFields("2024-02-29");
    DateFields("2023-02-29");
    DateFields("2024-13-01");
    DateFields("2024-04-31");
  }

  /** A canonical UUID has the shape; a text with the dashes elsewhere does not. */
  lemma UuidShapeExamples()
    ensures IsUuidShaped("123e4567-e89b-12d3-a456-426614174000")
    ensures !IsUuidShaped("123e4567e-89b-12d3-a456-426614174000")
    ensures !IsUuidShaped("not-a-uuid")
  {
    assert "123e4567e-89b-12d3-a456-426614174000"[8] == 'e';
  }
}
