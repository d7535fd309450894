/**
 * The `TIMESTAMP` column of the two tables: the text a record carries in
 * its `timestamp` field ("2023-02-16 19:25:05", as `MakeTimeStamp` writes it,
 * with an optional fraction of up to six digits) read as a proleptic
 * Gregorian date and time, and that instant counted in microseconds, the
 * resolution of the column. Later date-times are larger instants, so two
 * texts name the same instant exactly when they name the same date-time.
 */
module DateTime {
  import opened Wrappers
  import opened Numbers

  const MicrosPerSecond: nat := 1_000_000
  const MicrosPerDay: nat := 86_400 * MicrosPerSecond

  /** A calendar date and a time of day. */
  datatype Civil = Civil(year: int, month: int, day: int, hour: int, minute: int, second: int, micro: int)

  predicate IsLeap(y: int)
  {
    y % 4 == 0 && (y % 100 != 0 || y % 400 == 0)
  }

  function YearLength(y: int): nat
  {
    if IsLeap(y) then 366 else 365
  }

  function DaysInMonth(y: int, m: int): nat
    requires 1 <= m <= 12
  {
    if m == 2 then (if IsLeap(y) then 29 else 28)
    else if m == 4 || m == 6 || m == 9 || m == 11 then 30
    else 31
  }

  /** Days of year y before the first of month m (m == 13 gives the whole year). */
  function DaysBeforeMonth(y: int, m: int): nat
    requires 1 <= m <= 13
  {
    if m == 1 then 0 else DaysBeforeMonth(y, m - 1) + DaysInMonth(y, m - 1)
  }

  /** Days from 0001-01-01 to the first of January of year y. */
  function DaysBeforeYear(y: int): nat
    requires y >= 1
  {
    if y == 1 then 0 else DaysBeforeYear(y - 1) + YearLength(y - 1)
  }

  predicate ValidCivil(c: Civil)
  {
    && 1 <= c.year <= 9999
    && 1 <= c.month <= 12
    && 1 <= c.day <= DaysInMonth(c.year, c.month)
    && 0 <= c.hour < 24 && 0 <= c.minute < 60 && 0 <= c.second < 60
    && 0 <= c.micro < MicrosPerSecond
  }

  /** Days from 0001-01-01 to the date of c. */
  function DayNumber(c: Civil): int
    requires ValidCivil(c)
  {
    DaysBeforeYear(c.year) + DaysBeforeMonth(c.year, c.month) + (c.day - 1)
  }

  /** Microseconds from midnight to the time of c. */
  function TimeOfDay(c: Civil): (t: int)
    requires ValidCivil(c)
    ensures 0 <= t < MicrosPerDay
  {
    ((c.hour * 60 + c.minute) * 60 + c.second) * MicrosPerSecond + c.micro
  }

  /** The instant of c: microseconds since 0001-01-01 00:00:00. */
  function Micros(c: Civil): int
    requires ValidCivil(c)
  {
    DayNumber(c) * MicrosPerDay + TimeOfDay(c)
  }

  /** c1 comes before c2 on the calendar and the clock. */
  predicate Before(c1: Civil, c2: Civil)
  {
    || c1.year < c2.year
    || (c1.year == c2.year && c1.month < c2.month)
    || (c1.year == c2.year && c1.month == c2.month && c1.day < c2.day)
    || (c1.year == c2.year && c1.month == c2.month && c1.day == c2.day
        && (|| c1.hour < c2.hour
            || (c1.hour == c2.hour && c1.minute < c2.minute)
            || (c1.hour == c2.hour && c1.minute == c2.minute && c1.second < c2.second)
            || (c1.hour == c2.hour && c1.minute == c2.minute && c1.second == c2.second && c1.micro < c2.micro)))
  }

  lemma {:induction false} YearsMonotone(y1: int, y2: int)
    requires 1 <= y1 < y2
    ensures DaysBeforeYear(y1) + YearLength(y1) <= DaysBeforeYear(y2)
    decreases y2 - y1
  {
    if y1 + 1 < y2 {
      YearsMonotone(y1 + 1, y2);
    }
  }

  lemma {:induction false} MonthsMonotone(y: int, m1: int, m2: int)
    requires 1 <= m1 < m2 <= 13
    ensures DaysBeforeMonth(y, m1) + DaysInMonth(y, m1) <= DaysBeforeMonth(y, m2)
    decreases m2 - m1
  {
    if m1 + 1 < m2 {
      MonthsMonotone(y, m1 + 1, m2);
    }
  }

  /** The twelve months make up the year. */
  lemma MonthsMakeYear(y: int)
    ensures DaysBeforeMonth(y, 13) == YearLength(y)
  {
    var leap := if IsLeap(y) then 1 else 0;
    assert DaysBeforeMonth(y, 2) == 31;
    assert DaysBeforeMonth(y, 3) == 59 + leap;
    assert DaysBeforeMonth(y, 4) == 90 + leap;
    assert DaysBeforeMonth(y, 5) == 120 + leap;
    assert DaysBeforeMonth(y, 6) == 151 + leap;
    assert DaysBeforeMonth(y, 7) == 181 + leap;
    assert DaysBeforeMonth(y, 8) == 212 + leap;
    assert DaysBeforeMonth(y, 9) == 243 + leap;
    assert DaysBeforeMonth(y, 10) == 273 + leap;
    assert DaysBeforeMonth(y, 11) == 304 + leap;
    assert DaysBeforeMonth(y, 12) == 334 + leap;
  }

  /** Every day of a year is numbered before the next year starts. */
  lemma DayInYear(c: Civil)
    requires ValidCivil(c)
    ensures DayNumber(c) < DaysBeforeYear(c.year) + YearLength(c.year)
  {
    MonthsMakeYear(c.year);
    if c.month < 12 {
      MonthsMonotone(c.year, c.month, 13);
    }
  }

  /** Later dates have larger day numbers. */
  lemma DayNumberMonotone(c1: Civil, c2: Civil)
    requires ValidCivil(c1) && ValidCivil(c2)
    requires || c1.year < c2.year
             || (c1.year == c2.year && c1.month < c2.month)
             || (c1.year == c2.year && c1.month == c2.month && c1.day < c2.day)
    ensures DayNumber(c1) < DayNumber(c2)
  {
    if c1.year < c2.year {
      DayInYear(c1);
      YearsMonotone(c1.year, c2.year);
    } else if c1.month < c2.month {
      MonthsMonotone(c1.year, c1.month, c2.month);
    }
  }

  /** Later date-times are later instants. */
  lemma MicrosMonotone(c1: Civil, c2: Civil)
    requires ValidCivil(c1) && ValidCivil(c2) && Before(c1, c2)
    ensures Micros(c1) < Micros(c2)
  {
    if c1.year != c2.year || c1.month != c2.month || c1.day != c2.day {
      DayNumberMonotone(c1, c2);
      var t1, t2 := TimeOfDay(c1), TimeOfDay(c2);
      LaterDay(DayNumber(c1), DayNumber(c2), t1, t2);
    }
  }

  lemma LaterDay(d1: int, d2: int, t1: int, t2: int)
    requires d1 < d2 && 0 <= t1 < MicrosPerDay && 0 <= t2
    ensures d1 * MicrosPerDay + t1 < d2 * MicrosPerDay + t2
  {
  }

  /** Two date-times are the same instant exactly when they are the same date-time. */
  lemma MicrosInjective(c1: Civil, c2: Civil)
    requires ValidCivil(c1) && ValidCivil(c2)
    ensures Micros(c1) == Micros(c2) <==> c1 == c2
  {
    if c1 != c2 {
      if Before(c1, c2) {
        MicrosMonotone(c1, c2);
      } else {
        assert Before(c2, c1);
        MicrosMonotone(c2, c1);
      }
    }
  }

  /** The value of a fixed-width run of digits, or None when a character is not a digit. */
  function Number(s: string): (r: Option<nat>)
    ensures r.Some? <==> AllDigits(s)
  {
    if AllDigits(s) then Some(DecimalValue(s)) else None
  }

  /**
   * The fraction after the seconds: nothing, or '.' and one to six digits
   * read as a fraction of a second, in microseconds.
   */
  function Fraction(t: string): (r: Option<nat>)
    ensures t == "" ==> r == Some(0)
  {
    if t == "" then Some(0)
    else if t[0] == '.' && 1 <= |t| - 1 <= 6 && AllDigits(t[1..]) then
      Some(DecimalValue(t[1..]) * Pow10(6 - (|t| - 1)))
    else None
  }

  /** Three numeric fields with a separator between each two: "YYYY-MM-DD" or "HH:MM:SS". */
  function Triple(t: string, sep: char, w: nat): Option<(nat, nat, nat)>
  {
    if |t| != w + 6 || t[w] != sep || t[w + 3] != sep then None
    else
      var a, b, c := Number(t[..w]), Number(t[w + 1..w + 3]), Number(t[w + 4..]);
      if a.None? || b.None? || c.None? then None else Some((a.value, b.value, c.value))
  }

  /**
   * The date-time a timestamp text names: "YYYY-MM-DD HH:MM:SS" with an
   * optional fraction, a date that exists on the calendar and a time of day
   * before midnight; None for any other text.
   */
  function ParseTimestamp(s: string): (r: Option<Civil>)
    ensures r.Some? ==> ValidCivil(r.value)
  {
    if |s| < 19 || s[10] != ' ' then None
    else
      var date, time, f := Triple(s[..10], '-', 4), Triple(s[11..19], ':', 2), Fraction(s[19..]);
      if date.None? || time.None? || f.None? then None
      else
        var c := Civil(date.value.0, date.value.1, date.value.2, time.value.0, time.value.1, time.value.2, f.value);
        if ValidCivil(c) then Some(c) else None
  }

  /** The instant a timestamp text names, if it names one. */
  function Instant(s: string): (r: Option<int>)
    ensures r.Some? <==> ParseTimestamp(s).Some?
  {
    match ParseTimestamp(s)
    case None => None
    case Some(c) => Some(Micros(c))
  }

  /** n in exactly `width` digits, with leading zeros. */
  function Padded(n: nat, width: nat): string
  {
    PadLeft(Digits(n), width)
  }

  function Joined(a: string, sep: char, b: string, c: string): string
  {
    a + [sep] + b + [sep] + c
  }

  /** The text `MakeTimeStamp` produces for a date-time with whole seconds. */
  function Format(c: Civil): string
    requires ValidCivil(c)
  {
    Joined(Padded(c.year, 4), '-', Padded(c.month, 2), Padded(c.day, 2)) + " "
      + Joined(Padded(c.hour, 2), ':', Padded(c.minute, 2), Padded(c.second, 2))
  }

  lemma PaddedValue(n: nat, width: nat)
    requires width >= 1 && n < Pow10(width)
    ensures |Padded(n, width)| == width && AllDigits(Padded(n, width))
    ensures Number(Padded(n, width)) == Some(n)
  {
    DigitsLength(n, width);
    PadLeftValue(Digits(n), width);
  }

  lemma Pow10Small()
    ensures Pow10(2) == 100 && Pow10(4) == 10000
  {
    assert Pow10(1) == 10;
    assert Pow10(3) == 1000;
  }

  /** Three fields joined by a separator are read back by `Triple`. */
  lemma TripleJoined(a: string, sep: char, b: string, c: string, x: nat, y: nat, z: nat)
    requires |b| == 2 && |c| == 2 && Number(a) == Some(x) && Number(b) == Some(y) && Number(c) == Some(z)
    ensures Triple(Joined(a, sep, b, c), sep, |a|) == Some((x, y, z))
  {
    var t := Joined(a, sep, b, c);
    var w := |a|;
    assert t[..w] == a;
    assert t[w + 1..w + 3] == b;
    assert t[w + 4..] == c;
  }

  /** A date, a space and a time, read field by field. */
  lemma ParseParts(date: string, time: string, c: Civil)
    requires ValidCivil(c) && c.micro == 0 && |date| == 10 && |time| == 8
    requires Triple(date, '-', 4) == Some((c.year as nat, c.month as nat, c.day as nat))
    requires Triple(time, ':', 2) == Some((c.hour as nat, c.minute as nat, c.second as nat))
    ensures ParseTimestamp(date + " " + time) == Some(c)
  {
    var s := date + " " + time;
    assert s[..10] == date && s[11..19] == time && s[19..] == "";
  }

  /** Every canonical timestamp text reads back as its date-time. */
  lemma ParseFormat(c: Civil)
    requires ValidCivil(c) && c.micro == 0
    ensures ParseTimestamp(Format(c)) == Some(c)
  {
    Pow10Small();
    PaddedValue(c.year, 4);
    PaddedValue(c.month, 2);
    PaddedValue(c.day, 2);
    PaddedValue(c.hour, 2);
    PaddedValue(c.minute, 2);
    PaddedValue(c.second, 2);
    TripleJoined(Padded(c.year, 4), '-', Padded(c.month, 2), Padded(c.day, 2), c.year, c.month, c.day);
    TripleJoined(Padded(c.hour, 2), ':', Padded(c.minute, 2), Padded(c.second, 2), c.hour, c.minute, c.second);
    ParseParts(Joined(Padded(c.year, 4), '-', Padded(c.month, 2), Padded(c.day, 2)),
               Joined(Padded(c.hour, 2), ':', Padded(c.minute, 2), Padded(c.second, 2)), c);
  }

  /** A string without its trailing zeros. */
  function TrimZeros(s: string): (r: string)
    ensures |r| <= |s| && r == s[..|r|]
    ensures r == [] || r[|r| - 1] != '0'
    ensures forall k :: |r| <= k < |s| ==> s[k] == '0'
  {
    if s != [] && s[|s| - 1] == '0' then TrimZeros(s[..|s| - 1]) else s
  }

  /** The fraction of a second as Go prints it: nothing when whole, else the digits without trailing zeros. */
  function FractionText(micro: nat): string
  {
    if micro == 0 then "" else "." + TrimZeros(Padded(micro, 6))
  }

  /**
   * Go's RFC 3339 text of a UTC time (`time.RFC3339Nano`), the text a
   * TIMESTAMP column gives when it is scanned into a string: the date, 'T',
   * the time, the fraction and 'Z'.
   */
  function FormatRfc3339(c: Civil): string
    requires ValidCivil(c)
  {
    Joined(Padded(c.year, 4), '-', Padded(c.month, 2), Padded(c.day, 2)) + "T"
      + Joined(Padded(c.hour, 2), ':', Padded(c.minute, 2), Padded(c.second, 2)) + FractionText(c.micro) + "Z"
  }

  /** For whole seconds the RFC 3339 text is the canonical text with 'T' for the space and 'Z' appended. */
  lemma Rfc3339OfFormat(c: Civil)
    requires ValidCivil(c) && c.micro == 0
    ensures |Format(c)| == 19 && Format(c)[10] == ' '
    ensures FormatRfc3339(c) == Format(c)[..10] + "T" + Format(c)[11..] + "Z"
  {
    Pow10Small();
    PaddedValue(c.year, 4);
    PaddedValue(c.month, 2);
    PaddedValue(c.day, 2);
    PaddedValue(c.hour, 2);
    PaddedValue(c.minute, 2);
    PaddedValue(c.second, 2);
    var date := Joined(Padded(c.year, 4), '-', Padded(c.month, 2), Padded(c.day, 2));
    var time := Joined(Padded(c.hour, 2), ':', Padded(c.minute, 2), Padded(c.second, 2));
    assert Format(c) == date + " " + time;
    assert |date| == 10;
    assert Format(c)[..10] == date && Format(c)[11..] == time;
  }
}
