/**
  Civil dates of the proleptic Gregorian calendar, the program's fixed
  Asia/Tokyo zone (UTC+9, no daylight saving), the date the operator types,
  and the reporting window derived from it. Instants are Unix seconds.
*/
module Calendar {
  import opened Results
  import opened Text

  datatype Date = Date(year: int, month: int, day: int)

  predicate IsLeap(y: int) {
    y % 4 == 0 && (y % 100 != 0 || y % 400 == 0)
  }

  function DaysIn(y: int, m: int): (n: int)
    requires 1 <= m <= 12
    ensures 28 <= n <= 31
  {
    if m == 2 then (if IsLeap(y) then 29 else 28)
    else if m == 4 || m == 6 || m == 9 || m == 11 then 30
    else 31
  }

  /** A real day of the calendar, in any year. */
  predicate IsCivil(d: Date) {
    1 <= d.month <= 12 && 1 <= d.day <= DaysIn(d.year, d.month)
  }

  /** Days from 0001-01-01 to the first of January of year y (negative before year 1). */
  function DaysBeforeYear(y: int): int {
    365 * (y - 1) + (y - 1) / 4 - (y - 1) / 100 + (y - 1) / 400
  }

  function DaysBeforeMonth(y: int, m: int): int
    requires 1 <= m <= 12
  {
    if m == 1 then 0 else DaysBeforeMonth(y, m - 1) + DaysIn(y, m - 1)
  }

  /**
    Days from 0001-01-01 to d. Like Go's time.Date, it accepts a day outside
    the month and counts on from the first of the month.
  */
  function DayNumber(d: Date): int
    requires 1 <= d.month <= 12
  {
    DaysBeforeYear(d.year) + DaysBeforeMonth(d.year, d.month) + d.day - 1
  }

  const SecondsPerDay := 86400
  /** The zone installed at main.go:90-91. */
  const TokyoOffset := 9 * 60 * 60
  /** DayNumber of 1970-01-01. */
  const UnixEpochDay := 719162

  /** Unix seconds of the local wall-clock moment `second` seconds after midnight of day `dayNumber`. */
  function LocalToUnix(dayNumber: int, second: int): int {
    (dayNumber - UnixEpochDay) * SecondsPerDay + second - TokyoOffset
  }

  function LastDayOfPreviousMonth(t: Date): (d: Date)
    requires 1 <= t.month <= 12
    ensures IsCivil(d) && d.day == DaysIn(d.year, d.month)
    ensures (d.year == t.year && d.month == t.month - 1) || (d.year == t.year - 1 && d.month == 12 && t.month == 1)
  {
    if t.month == 1 then Date(t.year - 1, 12, 31)
    else Date(t.year, t.month - 1, DaysIn(t.year, t.month - 1))
  }

  /** The reporting window in Unix seconds. */
  datatype Window = Window(start: int, end: int)

  /**
    `start`: midnight of the first of the target month, moved back one day
    with AddDate(0, 0, -1); `end`: 23:59:59 of the target day. The end's 59
    nanoseconds vanish in the only use made of it, end.Unix().
  */
  function ReportWindow(t: Date): (w: Window)
    requires IsCivil(t)
    ensures w.start < w.end
    ensures (w.start + TokyoOffset) % SecondsPerDay == 0
    ensures (w.end + TokyoOffset) % SecondsPerDay == SecondsPerDay - 1
  {
    var firstOfMonth := DayNumber(Date(t.year, t.month, 1));
    Window(LocalToUnix(firstOfMonth - 1, 0), LocalToUnix(DayNumber(t), 23 * 3600 + 59 * 60 + 59))
  }

  /** k divides n exactly when n / k steps up from (n - 1) / k. */
  lemma DivStep(n: int, k: int)
    requires k == 4 || k == 100 || k == 400
    ensures n / k - (n - 1) / k == if n % k == 0 then 1 else 0
  {
    var q, r := (n - 1) / k, (n - 1) % k;
    assert n == k * q + r + 1;
    if r + 1 == k {
      assert n == k * (q + 1);
    } else {
      assert n == k * q + (r + 1) && 0 <= r + 1 < k;
    }
  }

  /** Year y has 366 days exactly when it is a leap year. */
  lemma YearLength(y: int)
    ensures DaysBeforeYear(y + 1) - DaysBeforeYear(y) == if IsLeap(y) then 366 else 365
  {
    DivStep(y, 4);
    DivStep(y, 100);
    DivStep(y, 400);
    var d4, d100, d400 := y / 4 - (y - 1) / 4, y / 100 - (y - 1) / 100, y / 400 - (y - 1) / 400;
    assert DaysBeforeYear(y + 1) - DaysBeforeYear(y) == 365 + d4 - d100 + d400;
    if y % 100 == 0 {
      CenturyDividesByFour(y);
    }
    if y % 400 == 0 {
      QuadCenturyDividesByHundred(y);
    }
  }

  lemma CenturyDividesByFour(y: int)
    requires y % 100 == 0
    ensures y % 4 == 0
  {
    assert y == 4 * (25 * (y / 100));
  }

  lemma QuadCenturyDividesByHundred(y: int)
    requires y % 400 == 0
    ensures y % 100 == 0
  {
    assert y == 100 * (4 * (y / 400));
  }

  lemma {:induction false} DaysBeforeDecember31(y: int)
    ensures DaysBeforeMonth(y, 12) + 31 == if IsLeap(y) then 366 else 365
  {
    var feb := DaysIn(y, 2);
    assert DaysBeforeMonth(y, 2) == 31;
    assert DaysBeforeMonth(y, 3) == 31 + feb;
    assert DaysBeforeMonth(y, 4) == 62 + feb;
    assert DaysBeforeMonth(y, 5) == 92 + feb;
    assert DaysBeforeMonth(y, 6) == 123 + feb;
    assert DaysBeforeMonth(y, 7) == 153 + feb;
    assert DaysBeforeMonth(y, 8) == 184 + feb;
    assert DaysBeforeMonth(y, 9) == 215 + feb;
    assert DaysBeforeMonth(y, 10) == 245 + feb;
    assert DaysBeforeMonth(y, 11) == 276 + feb;
  }

  /** The day before the first of a month is the last day of the month before. */
  lemma DayBeforeFirstOfMonth(t: Date)
    requires 1 <= t.month <= 12
    ensures DayNumber(Date(t.year, t.month, 1)) - 1 == DayNumber(LastDayOfPreviousMonth(t))
  {
    if t.month == 1 {
      YearLength(t.year - 1);
      DaysBeforeDecember31(t.year - 1);
    }
  }

  /** The window starts at 00:00:00 on the last day of the previous month. */
  lemma WindowStartIsLastDayOfPreviousMonth(t: Date)
    requires IsCivil(t)
    ensures ReportWindow(t).start == LocalToUnix(DayNumber(LastDayOfPreviousMonth(t)), 0)
    ensures ReportWindow(t).end == LocalToUnix(DayNumber(t), 86399)
  {
    DayBeforeFirstOfMonth(t);
  }

  // ---- comparing instants: time.Unix(c, 0).Before(start), main.go:170-171 ----

  /** Seconds from 0001-01-01 to 1970-01-01: a time.Time keeps Unix seconds plus this, in an int64. */
  const UnixToInternal: int := UnixEpochDay * SecondsPerDay
  /** The last Unix second whose internal count fits an int64. */
  const MaxUnixSeconds: int := Int64Cutoff - 1 - UnixToInternal

  /**
    time.Unix(c, 0).Before(u) for u at Unix second start: Before compares the
    internal counts, and time.Unix computes c's with a wrapping int64 addition.
  */
  predicate UnixBefore(c: int, start: int): (r: bool)
    ensures -(Int64Cutoff as int) <= c <= MaxUnixSeconds && -(Int64Cutoff as int) <= start <= MaxUnixSeconds
            ==> (r <==> c < start)
  {
    Wrap64(c + UnixToInternal) < Wrap64(start + UnixToInternal)
  }

  /**
    For a start whose internal count fits an int64, an int64 second count c is
    before start exactly when it is smaller or so large that its count wraps.
  */
  lemma UnixBeforeIff(c: int, start: int)
    requires -(Int64Cutoff as int) <= c < Int64Cutoff
    requires -(Int64Cutoff as int) <= start <= MaxUnixSeconds
    ensures UnixBefore(c, start) <==> c < start || MaxUnixSeconds < c
  {
    if MaxUnixSeconds < c {
      assert Wrap64(c + UnixToInternal) == c + UnixToInternal - 2 * Int64Cutoff;
    }
  }

  /** The window start of a date the layout can hold is such a start. */
  lemma WindowStartStoredExactly(t: Date)
    requires IsLayoutDate(t)
    ensures -(Int64Cutoff as int) <= ReportWindow(t).start <= MaxUnixSeconds
  {
    var y := t.year - 1;
    assert -1 <= y / 4 <= 2500 && -1 <= y / 100 <= 100 && -1 <= y / 400 <= 25;
    DaysBeforeMonthBound(t.year, t.month);
  }

  lemma {:induction false} DaysBeforeMonthBound(y: int, m: int)
    requires 1 <= m <= 12
    ensures 0 <= DaysBeforeMonth(y, m) <= 31 * (m - 1)
  {
    if m > 1 {
      DaysBeforeMonthBound(y, m - 1);
    }
  }

  // ---- the operator's date: time.Parse("2006-01-02", target) and t.Format("200601") ----

  /** A date the "2006-01-02" layout can hold: a civil date with a four-digit year. */
  predicate IsLayoutDate(d: Date) {
    0 <= d.year <= 9999 && IsCivil(d)
  }

  function Numeral(s: string): nat
    requires AllDigits(s)
  {
    Horner(s, 0)
  }

  /**
    time.Parse with the layout "2006-01-02": exactly four digits, a dash, two
    digits, a dash, two digits and nothing more; the month in 1..12 and the day
    within the month of that year. Any other text is a parse error.
  */
  function ParseDate(s: string): (r: Option<Date>)
    ensures r.Some? ==> IsLayoutDate(r.value)
  {
    if |s| != 10 || s[4] != '-' || s[7] != '-'
       || !AllDigits(s[..4]) || !AllDigits(s[5..7]) || !AllDigits(s[8..]) then None
    else
      var y, m, d := Numeral(s[..4]), Numeral(s[5..7]), Numeral(s[8..]);
      if 1 <= m <= 12 && 1 <= d <= DaysIn(y, m) && y <= 9999 then Some(Date(y, m, d)) else None
  }

  function Pad2(n: nat): (s: string)
    requires n < 100
    ensures |s| == 2 && AllDigits(s)
  {
    [DigitChar(n / 10), DigitChar(n % 10)]
  }

  function Pad4(n: nat): (s: string)
    requires n < 10000
    ensures |s| == 4 && AllDigits(s)
  {
    Pad2(n / 100) + Pad2(n % 100)
  }

  /** t.Format("2006-01-02") */
  function FormatDate(d: Date): (s: string)
    requires IsLayoutDate(d)
  {
    Pad4(d.year) + "-" + Pad2(d.month) + "-" + Pad2(d.day)
  }

  /**
    t.Format("200601"): the month key of the name directory and of the output
    file. It spells the date's year and month, and it is the "2006-01-02"
    rendering with the dashes and the day taken out.
  */
  function FormatYearMonth(d: Date): (s: string)
    requires IsLayoutDate(d)
    ensures |s| == 6 && AllDigits(s)
    ensures Numeral(s[..4]) == d.year && Numeral(s[4..]) == d.month
    ensures s == FormatDate(d)[..4] + FormatDate(d)[5..7]
  {
    var s := Pad4(d.year) + Pad2(d.month);
    assert s[..4] == Pad4(d.year) && s[4..] == Pad2(d.month);
    Pad4Numeral(d.year);
    Pad2Numeral(d.month);
    s
  }

  lemma HornerTwoDigits(s: string, acc: nat)
    requires |s| == 2 && AllDigits(s)
    ensures Horner(s, acc) == acc * 100 + 10 * DigitValue(s[0]) + DigitValue(s[1])
  {
    var first := acc * 10 + DigitValue(s[0]);
    var second := first * 10 + DigitValue(s[1]);
    assert s[1..][1..] == [];
    assert Horner(s[1..], first) == Horner(s[1..][1..], second);
  }

  lemma {:induction false} HornerConcat(a: string, b: string, acc: nat)
    requires AllDigits(a) && AllDigits(b)
    ensures AllDigits(a + b) && Horner(a + b, acc) == Horner(b, Horner(a, acc))
  {
    assert AllDigits(a + b);
    if a == [] {
      assert a + b == b;
    } else {
      assert (a + b)[1..] == a[1..] + b;
      HornerConcat(a[1..], b, acc * 10 + DigitValue(a[0]));
    }
  }

  lemma HornerFourDigits(s: string)
    requires |s| == 4 && AllDigits(s)
    ensures Numeral(s) == 100 * Numeral(s[..2]) + Numeral(s[2..])
  {
    assert s == s[..2] + s[2..];
    HornerConcat(s[..2], s[2..], 0);
    HornerTwoDigits(s[2..], Numeral(s[..2]));
    HornerTwoDigits(s[2..], 0);
  }

  lemma Pad2Numeral(n: nat)
    requires n < 100
    ensures Numeral(Pad2(n)) == n
  {
    HornerTwoDigits(Pad2(n), 0);
  }

  lemma Pad4Numeral(n: nat)
    requires n < 10000
    ensures Numeral(Pad4(n)) == n
  {
    var s := Pad4(n);
    HornerFourDigits(s);
    assert s[..2] == Pad2(n / 100) && s[2..] == Pad2(n % 100);
    Pad2Numeral(n / 100);
    Pad2Numeral(n % 100);
  }

  lemma NumeralPad2(s: string)
    requires |s| == 2 && AllDigits(s)
    ensures Numeral(s) < 100 && Pad2(Numeral(s)) == s
  {
    HornerTwoDigits(s, 0);
    var n := Numeral(s);
    assert n / 10 == DigitValue(s[0]) && n % 10 == DigitValue(s[1]);
    assert Pad2(n)[0] == s[0] && Pad2(n)[1] == s[1];
  }

  lemma NumeralPad4(s: string)
    requires |s| == 4 && AllDigits(s)
    ensures Numeral(s) < 10000 && Pad4(Numeral(s)) == s
  {
    HornerFourDigits(s);
    NumeralPad2(s[..2]);
    NumeralPad2(s[2..]);
    var n := Numeral(s);
    assert n / 100 == Numeral(s[..2]) && n % 100 == Numeral(s[2..]);
    assert s == s[..2] + s[2..];
  }

  /** Formatting a date and parsing it back gives the date. */
  lemma ParseFormattedDate(d: Date)
    requires IsLayoutDate(d)
    ensures ParseDate(FormatDate(d)) == Some(d)
  {
    var s := FormatDate(d);
    assert s[..4] == Pad4(d.year) && s[5..7] == Pad2(d.month) && s[8..] == Pad2(d.day);
    Pad4Numeral(d.year);
    Pad2Numeral(d.month);
    Pad2Numeral(d.day);
  }

  /** Every text the parser accepts is the canonical rendering of its date. */
  lemma ParsedDateIsFormatted(s: string)
    requires ParseDate(s).Some?
    ensures FormatDate(ParseDate(s).value) == s
  {
    NumeralPad4(s[..4]);
    NumeralPad2(s[5..7]);
    NumeralPad2(s[8..]);
    assert s == s[..4] + "-" + s[5..7] + "-" + s[8..];
  }
}
