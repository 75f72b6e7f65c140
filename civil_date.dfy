/**
 * Calendar dates of the proleptic Gregorian calendar as JavaScript's `Date`
 * computes them from a time value (milliseconds since 1970-01-01T00:00Z),
 * and the date part of `Date.prototype.toISOString`.
 */
module CivilDate {
  import opened Wrappers
  import opened Text

  const MS_PER_DAY: int := 86400000
  /** The largest magnitude of a valid time value (ECMAScript TimeClip). */
  const MAX_TIME: int := 8640000000000000

  predicate IsLeap(y: int) {
    y % 4 == 0 && (y % 100 != 0 || y % 400 == 0)
  }

  function DaysInYear(y: int): int {
    if IsLeap(y) then 366 else 365
  }

  function DaysInMonth(y: int, m: int): (n: int)
    requires 1 <= m <= 12
    ensures 28 <= n <= 31
  {
    if m == 2 then (if IsLeap(y) then 29 else 28)
    else if m == 4 || m == 6 || m == 9 || m == 11 then 30
    else 31
  }

  /** The day number of January 1 of year `y`, counted from 1970-01-01. */
  function YearStart(y: int): int
    decreases if y >= 1970 then y - 1970 else 1970 - y
  {
    if y == 1970 then 0
    else if y > 1970 then YearStart(y - 1) + DaysInYear(y - 1)
    else YearStart(y + 1) - DaysInYear(y)
  }

  lemma YearStartStep(y: int)
    ensures YearStart(y + 1) == YearStart(y) + DaysInYear(y)
  {
  }

  /** Days of the months before month `m` of year `y`. */
  function MonthStart(y: int, m: int): (n: int)
    requires 1 <= m <= 13
    ensures n >= 0
    decreases m
  {
    if m == 1 then 0 else MonthStart(y, m - 1) + DaysInMonth(y, m - 1)
  }

  lemma MonthStartYear(y: int)
    ensures MonthStart(y, 13) == DaysInYear(y)
  {
  }

  /** The year and the zero-based day of the year of the day `d` days after
      January 1 of `y`. */
  function FindYear(y: int, d: int): (r: (int, int))
    ensures YearStart(r.0) + r.1 == YearStart(y) + d
    ensures 0 <= r.1 < DaysInYear(r.0)
    decreases if d < 0 then 366 - d else d
  {
    if d < 0 then
      YearStartStep(y - 1);
      FindYear(y - 1, d + DaysInYear(y - 1))
    else if d >= DaysInYear(y) then
      YearStartStep(y);
      FindYear(y + 1, d - DaysInYear(y))
    else (y, d)
  }

  /** The month and the day of the month of the zero-based day `doy` of `y`,
      searching from month `m`. */
  function FindMonth(y: int, m: int, doy: int): (r: (int, int))
    requires 1 <= m <= 12 && MonthStart(y, m) <= doy < DaysInYear(y)
    ensures m <= r.0 <= 12
    ensures 1 <= r.1 <= DaysInMonth(y, r.0)
    ensures MonthStart(y, r.0) + r.1 - 1 == doy
    decreases 12 - m
  {
    if doy < MonthStart(y, m + 1) then (m, doy - MonthStart(y, m) + 1)
    else
      MonthStartYear(y);
      FindMonth(y, m + 1, doy)
  }

  /** A calendar date. */
  datatype Date = Date(year: int, month: int, day: int)

  predicate ValidDate(d: Date) {
    1 <= d.month <= 12 && 1 <= d.day <= DaysInMonth(d.year, d.month)
  }

  /** The day number of a date, counted from 1970-01-01. */
  function DayNumber(d: Date): int
    requires ValidDate(d)
  {
    YearStart(d.year) + MonthStart(d.year, d.month) + d.day - 1
  }

  /** The date of day number `n`. */
  function FromDayNumber(n: int): (d: Date)
    ensures ValidDate(d) && DayNumber(d) == n
  {
    var (y, doy) := FindYear(1970, n);
    var (m, day) := FindMonth(y, 1, doy);
    Date(y, m, day)
  }

  lemma {:induction false} YearStartIncreasing(a: int, b: int)
    requires a < b
    ensures YearStart(a) + DaysInYear(a) <= YearStart(b)
    decreases b - a
  {
    YearStartStep(a);
    if a + 1 < b {
      YearStartIncreasing(a + 1, b);
    }
  }

  lemma {:induction false} MonthStartIncreasing(y: int, a: int, b: int)
    requires 1 <= a < b <= 13
    ensures MonthStart(y, a) + DaysInMonth(y, a) <= MonthStart(y, b)
    decreases b - a
  {
    if a + 1 < b {
      MonthStartIncreasing(y, a + 1, b);
    }
  }

  /** Different valid dates have different day numbers, so `FromDayNumber`
      inverts `DayNumber`. */
  lemma DayNumberInjective(d: Date, e: Date)
    requires ValidDate(d) && ValidDate(e) && DayNumber(d) == DayNumber(e)
    ensures d == e
  {
    MonthStartYear(d.year);
    MonthStartYear(e.year);
    if d.year < e.year {
      YearStartIncreasing(d.year, e.year);
      MonthStartIncreasing(d.year, d.month, 13);
    } else if e.year < d.year {
      YearStartIncreasing(e.year, d.year);
      MonthStartIncreasing(e.year, e.month, 13);
    } else if d.month < e.month {
      MonthStartIncreasing(d.year, d.month, e.month);
    } else if e.month < d.month {
      MonthStartIncreasing(e.year, e.month, d.month);
    }
  }

  lemma DateRoundTrip(d: Date)
    requires ValidDate(d)
    ensures FromDayNumber(DayNumber(d)) == d
  {
    DayNumberInjective(FromDayNumber(DayNumber(d)), d);
  }

  /** The year as `toISOString` writes it: four digits for years 0 to 9999,
      otherwise a sign and six digits. */
  function IsoYear(y: int): (r: string)
    ensures 0 <= y <= 9999 ==> |r| == 4 && AllDigits(r)
  {
    if 0 <= y <= 9999 then
      NatToStringLength(y);
      PadStart(NatToString(y), 4, '0')
    else if y < 0 then "-" + PadStart(NatToString(-y), 6, '0')
    else "+" + PadStart(NatToString(y), 6, '0')
  }

  /** Two digits, zero-padded. */
  function Pad2(n: nat): (r: string)
    requires n < 100
    ensures |r| == 2 && AllDigits(r)
  {
    NatToStringLength(n);
    PadStart(NatToString(n), 2, '0')
  }

  /** `YYYY-MM-DD`. */
  function IsoDate(d: Date): (r: string)
    requires ValidDate(d)
    ensures 0 <= d.year <= 9999 ==> IsDateShape(r)
  {
    DateShapeOf(IsoYear(d.year), Pad2(d.month), Pad2(d.day));
    IsoYear(d.year) + "-" + Pad2(d.month) + "-" + Pad2(d.day)
  }

  /** `new Date(t).toISOString().split('T')[0]`; `None` where `toISOString`
      throws because `t` is not a valid time value. */
  function UtcDateString(t: int): (r: Option<string>)
    ensures r.None? <==> t < -MAX_TIME || t > MAX_TIME
    ensures r.Some? ==> r.value == IsoDate(FromDayNumber(t / MS_PER_DAY))
  {
    if t < -MAX_TIME || t > MAX_TIME then None
    else Some(IsoDate(FromDayNumber(t / MS_PER_DAY)))
  }

  lemma Year1970()
    ensures IsoDate(Date(1970, 1, 1)) == "1970-01-01"
    ensures IsoDate(Date(1970, 1, 2)) == "1970-01-02"
  {
    PadOneTwo();
    January1970(1);
    January1970(2);
  }

  /** A January 1970 day is written as the year and month prefix and the
      padded day. */
  lemma January1970(day: nat)
    requires 1 <= day <= 31
    ensures ValidDate(Date(1970, 1, day))
    ensures IsoDate(Date(1970, 1, day)) == "1970-01-" + Pad2(day)
  {
    January1970Valid(day);
    var d := Date(1970, 1, day);
    assert IsoDate(d) == IsoYear(1970) + "-" + Pad2(1) + "-" + Pad2(day);
    IsoYear1970();
    PadOneTwo();
    JoinPrefix(IsoYear(1970), Pad2(1));
  }

  lemma JoinPrefix(y: string, m: string)
    requires y == "1970" && m == "01"
    ensures y + "-" + m + "-" == "1970-01-"
  {
  }

  lemma January1970Valid(day: nat)
    requires 1 <= day <= 31
    ensures ValidDate(Date(1970, 1, day))
  {
    assert DaysInMonth(1970, 1) == 31;
  }

  lemma IsoYear1970()
    ensures IsoYear(1970) == "1970"
  {
    assert NatToString(1) == "1";
    assert NatToString(19) == NatToString(1) + [DigitChar(9)] == "19";
    assert NatToString(197) == NatToString(19) + [DigitChar(7)] == "197";
    assert NatToString(1970) == NatToString(197) + [DigitChar(0)] == "1970";
  }

  lemma PadOneTwo()
    ensures Pad2(1) == "01" && Pad2(2) == "02"
  {
    assert NatToString(1) == "1";
    assert NatToString(2) == "2";
    assert Pad2(1) == [Repeat('0', 1)[0]] + "1" == "01";
    assert Pad2(2) == [Repeat('0', 1)[0]] + "2" == "02";
  }
}
