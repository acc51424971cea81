/**
 * Wall-clock instants and their stored text.  An instant is a count of
 * seconds since 0001-01-01 00:00:00 of the proleptic Gregorian calendar (the
 * range of Python's naive datetime).  The log stores an instant as the text
 * "YYYY-MM-DD HH:MM", so seconds are dropped: the stored value is the instant
 * truncated to its minute.
 */
module Clock {
  import opened Wrappers
  import opened Digits

  const FirstYear := 1
  const LastYear := 9999

  predicate IsLeapYear(y: int) {
    y % 4 == 0 && (y % 100 != 0 || y % 400 == 0)
  }

  function DaysInYear(y: int): nat {
    if IsLeapYear(y) then 366 else 365
  }

  function DaysInMonth(y: int, m: int): nat
    requires 1 <= m <= 12
  {
    if m == 2 then (if IsLeapYear(y) then 29 else 28)
    else if m == 4 || m == 6 || m == 9 || m == 11 then 30
    else 31
  }

  /** Days in the years FirstYear .. y - 1. */
  function DaysBeforeYear(y: int): nat
    decreases y
  {
    if y <= FirstYear then 0 else DaysBeforeYear(y - 1) + DaysInYear(y - 1)
  }

  /** Days in the months 1 .. m - 1 of year y. */
  function DaysBeforeMonth(y: int, m: int): nat
    requires 1 <= m <= 13
    decreases m
  {
    if m == 1 then 0 else DaysBeforeMonth(y, m - 1) + DaysInMonth(y, m - 1)
  }

  /** A date and a time of day to the minute: what "%Y-%m-%d %H:%M" names. */
  datatype DateTime = DateTime(year: int, month: int, day: int, hour: int, minute: int)

  predicate ValidDateTime(d: DateTime) {
    FirstYear <= d.year <= LastYear &&
    1 <= d.month <= 12 &&
    1 <= d.day <= DaysInMonth(d.year, d.month) &&
    0 <= d.hour < 24 &&
    0 <= d.minute < 60
  }

  /** Days from 0001-01-01 up to 10000-01-01, one past the last day a datetime can hold. */
  const DaysInRange := 3652059

  /** Minutes from 0001-01-01 00:00 up to the end of LastYear: DaysInRange days of 1440 minutes. */
  const MinuteLimit := 5258964960

  /** Instants (in seconds) that a datetime can hold. */
  predicate ValidInstant(t: int) {
    0 <= t < MinuteLimit * 60
  }

  /** The day count before a year in closed form, as the proleptic Gregorian ordinal computes it. */
  lemma {:induction false} DaysBeforeYearClosedForm(y: int)
    requires y >= FirstYear
    ensures DaysBeforeYear(y) == 365 * (y - 1) + (y - 1) / 4 - (y - 1) / 100 + (y - 1) / 400
    decreases y
  {
    if y > FirstYear {
      DaysBeforeYearClosedForm(y - 1);
      var n := y - 1;
      assert DaysBeforeYear(y) == DaysBeforeYear(n) + DaysInYear(n);
      DivStep(n, 4);
      DivStep(n, 100);
      DivStep(n, 400);
      LeapYearCounts(n);
    }
  }

  /** A year has one extra day per leap rule it meets: divisible by 4, not by 100 unless by 400. */
  lemma LeapYearCounts(n: int)
    ensures DaysInYear(n) == 365 + (if n % 4 == 0 then 1 else 0) - (if n % 100 == 0 then 1 else 0)
                                  + (if n % 400 == 0 then 1 else 0)
  {
    if n % 100 == 0 {
      assert n == 4 * (25 * (n / 100));
    }
    if n % 400 == 0 {
      assert n == 100 * (4 * (n / 400));
    }
  }

  lemma DivStep(n: int, k: int)
    requires n >= 1 && (k == 4 || k == 100 || k == 400)
    ensures n / k - (n - 1) / k == if n % k == 0 then 1 else 0
  {
    if k == 4 {
      assert n / 4 - (n - 1) / 4 == if n % 4 == 0 then 1 else 0;
    } else if k == 100 {
      assert n / 100 - (n - 1) / 100 == if n % 100 == 0 then 1 else 0;
    } else {
      assert n / 400 - (n - 1) / 400 == if n % 400 == 0 then 1 else 0;
    }
  }

  /** DaysInRange is the number of days before year LastYear + 1. */
  lemma DaysInRangeIsEndOfLastYear(y: int)
    requires y == LastYear + 1
    ensures DaysBeforeYear(y) == DaysInRange
  {
    DaysBeforeYearClosedForm(y);
  }

  /** The minute a valid DateTime names, counted from 0001-01-01 00:00. */
  function MinuteOf(d: DateTime): (m: nat)
    requires ValidDateTime(d)
    ensures m < MinuteLimit
  {
    DayOfInRange(d);
    DayOf(d) * 1440 + d.hour * 60 + d.minute
  }

  /** The number of days from 0001-01-01 to the date of d. */
  function DayOf(d: DateTime): nat
    requires ValidDateTime(d)
  {
    DaysBeforeYear(d.year) + DaysBeforeMonth(d.year, d.month) + d.day - 1
  }

  lemma DayOfInRange(d: DateTime)
    requires ValidDateTime(d)
    ensures DayOf(d) < DaysInRange
  {
    var end := LastYear + 1;
    MonthsFitInYear(d.year, d.month);
    YearsGrow(d.year + 1, end);
    DaysInRangeIsEndOfLastYear(end);
  }

  /** Walks forward from year y: which year the day `days` days after its start falls in, and the day within it. */
  function YearFrom(y: int, days: nat): (int, nat)
    decreases days
  {
    if days < DaysInYear(y) then (y, days) else YearFrom(y + 1, days - DaysInYear(y))
  }

  /** Walks forward from month m of year y: which month day `days` of it falls in, and the day within it. */
  function MonthFrom(y: int, m: int, days: nat): (int, nat)
    requires 1 <= m <= 12
    decreases 12 - m
  {
    if days < DaysInMonth(y, m) || m == 12 then (m, days)
    else MonthFrom(y, m + 1, days - DaysInMonth(y, m))
  }

  /** The calendar date and time of day of a minute count. */
  function DateTimeOf(minutes: nat): (d: DateTime)
    requires minutes < MinuteLimit
    ensures ValidDateTime(d)
  {
    var days := minutes / 1440;
    var rest := minutes % 1440;
    YearOfDaysInRange(minutes);
    var (y, dy) := YearFrom(FirstYear, days);
    DaysBeforeMonthThirteen(y);
    MonthFromWalk(y, 1, dy);
    var (m, dm) := MonthFrom(y, 1, dy);
    DateTime(y, m, dm + 1, rest / 60, rest % 60)
  }

  /** The calendar date and time of a minute count name that same minute. */
  lemma MinuteOfDateTimeOf(minutes: nat)
    requires minutes < MinuteLimit
    ensures MinuteOf(DateTimeOf(minutes)) == minutes
  {
    YearOfDaysInRange(minutes);
    var (y, dy) := YearFrom(FirstYear, minutes / 1440);
    DaysBeforeMonthThirteen(y);
    MonthFromWalk(y, 1, dy);
  }

  lemma DaysBeforeMonthThirteen(y: int)
    ensures DaysBeforeMonth(y, 13) == DaysInYear(y)
  {
    assert DaysBeforeMonth(y, 3) == 31 + DaysInMonth(y, 2);
    assert DaysBeforeMonth(y, 5) == DaysBeforeMonth(y, 3) + 61;
    assert DaysBeforeMonth(y, 7) == DaysBeforeMonth(y, 5) + 61;
    assert DaysBeforeMonth(y, 9) == DaysBeforeMonth(y, 7) + 62;
    assert DaysBeforeMonth(y, 11) == DaysBeforeMonth(y, 9) + 61;
    assert DaysBeforeMonth(y, 13) == DaysBeforeMonth(y, 11) + 61;
  }

  /** The months before m and month m itself fit in the year. */
  lemma {:induction false} MonthsFitInYear(y: int, m: int)
    requires 1 <= m <= 12
    ensures DaysBeforeMonth(y, m) + DaysInMonth(y, m) <= DaysInYear(y)
  {
    MonthsGrow(y, m + 1, 13);
    DaysBeforeMonthThirteen(y);
  }

  lemma {:induction false} MonthsGrow(y: int, m1: int, m2: int)
    requires 1 <= m1 <= m2 <= 13
    ensures DaysBeforeMonth(y, m1) <= DaysBeforeMonth(y, m2)
    decreases m2
  {
    if m1 < m2 {
      MonthsGrow(y, m1, m2 - 1);
    }
  }

  /** Every year before y2, starting from y1, lies wholly before y2. */
  lemma {:induction false} YearsGrow(y1: int, y2: int)
    requires FirstYear <= y1 <= y2
    ensures DaysBeforeYear(y1) <= DaysBeforeYear(y2)
    ensures y1 < y2 ==> DaysBeforeYear(y1) + DaysInYear(y1) <= DaysBeforeYear(y2)
    decreases y2
  {
    if y1 < y2 {
      YearsGrow(y1, y2 - 1);
    }
  }

  lemma {:induction false} YearFromWalk(y: int, days: nat)
    requires y >= FirstYear
    ensures var (y', d') := YearFrom(y, days);
      y' >= y && d' < DaysInYear(y') && DaysBeforeYear(y') + d' == DaysBeforeYear(y) + days
    decreases days
  {
    if days >= DaysInYear(y) {
      YearFromWalk(y + 1, days - DaysInYear(y));
    }
  }

  lemma {:induction false} MonthFromWalk(y: int, m: int, days: nat)
    requires 1 <= m <= 12
    requires DaysBeforeMonth(y, m) + days < DaysInYear(y)
    ensures var (m', d') := MonthFrom(y, m, days);
      m <= m' <= 12 && d' < DaysInMonth(y, m') && DaysBeforeMonth(y, m') + d' == DaysBeforeMonth(y, m) + days
    decreases 12 - m
  {
    if m == 12 {
      DaysBeforeMonthThirteen(y);
      assert DaysBeforeMonth(y, 13) == DaysBeforeMonth(y, 12) + 31;
    } else if days >= DaysInMonth(y, m) {
      assert DaysBeforeMonth(y, m + 1) == DaysBeforeMonth(y, m) + DaysInMonth(y, m);
      MonthFromWalk(y, m + 1, days - DaysInMonth(y, m));
    }
  }

  /** A minute count below the limit falls in a year up to LastYear. */
  lemma YearOfDaysInRange(minutes: nat)
    requires minutes < MinuteLimit
    ensures var (y, dy) := YearFrom(FirstYear, minutes / 1440);
      FirstYear <= y <= LastYear && dy < DaysInYear(y) &&
      DaysBeforeYear(y) + dy == minutes / 1440
  {
    var days := minutes / 1440;
    var end := LastYear + 1;
    DaysInRangeIsEndOfLastYear(end);
    YearFromWalk(FirstYear, days);
    var (y, dy) := YearFrom(FirstYear, days);
    if y > LastYear {
      YearsGrow(end, y);
      assert false;
    }
  }

  /** Two valid DateTimes that name the same minute are equal. */
  lemma MinuteOfInjective(d1: DateTime, d2: DateTime)
    requires ValidDateTime(d1) && ValidDateTime(d2)
    requires MinuteOf(d1) == MinuteOf(d2)
    ensures d1 == d2
  {
    var t1 := d1.hour * 60 + d1.minute;
    var t2 := d2.hour * 60 + d2.minute;
    var days1 := DayOf(d1);
    var days2 := DayOf(d2);
    SplitMinutes(days1, t1);
    SplitMinutes(days2, t2);
    assert days1 == days2 && t1 == t2;
    SplitHours(d1.hour, d1.minute);
    SplitHours(d2.hour, d2.minute);
    DayNumberInjective(d1, d2);
  }

  lemma SplitMinutes(days: int, t: int)
    requires 0 <= t < 1440
    ensures (days * 1440 + t) / 1440 == days
    ensures (days * 1440 + t) % 1440 == t
  {
  }

  lemma SplitHours(h: int, m: int)
    requires 0 <= m < 60
    ensures (h * 60 + m) / 60 == h
    ensures (h * 60 + m) % 60 == m
  {
  }

  /** The day number of a valid date determines its year, month and day. */
  lemma DayNumberInjective(d1: DateTime, d2: DateTime)
    requires ValidDateTime(d1) && ValidDateTime(d2)
    requires DaysBeforeYear(d1.year) + DaysBeforeMonth(d1.year, d1.month) + d1.day ==
             DaysBeforeYear(d2.year) + DaysBeforeMonth(d2.year, d2.month) + d2.day
    ensures d1.year == d2.year && d1.month == d2.month && d1.day == d2.day
  {
    if d1.year != d2.year {
      if d1.year < d2.year {
        LaterYearLaterDay(d1, d2);
      } else {
        LaterYearLaterDay(d2, d1);
      }
      assert false;
    }
    if d1.month != d2.month {
      if d1.month < d2.month {
        LaterMonthLaterDay(d1, d2);
      } else {
        LaterMonthLaterDay(d2, d1);
      }
      assert false;
    }
  }

  /** Every date of a later year has a larger day number. */
  lemma LaterYearLaterDay(d1: DateTime, d2: DateTime)
    requires ValidDateTime(d1) && ValidDateTime(d2) && d1.year < d2.year
    ensures DaysBeforeYear(d1.year) + DaysBeforeMonth(d1.year, d1.month) + d1.day <
            DaysBeforeYear(d2.year) + DaysBeforeMonth(d2.year, d2.month) + d2.day
  {
    MonthsFitInYear(d1.year, d1.month);
    YearsGrow(d1.year, d2.year);
  }

  /** Every date of a later month of the same year has a larger day number. */
  lemma LaterMonthLaterDay(d1: DateTime, d2: DateTime)
    requires ValidDateTime(d1) && ValidDateTime(d2) && d1.year == d2.year && d1.month < d2.month
    ensures DaysBeforeMonth(d1.year, d1.month) + d1.day < DaysBeforeMonth(d2.year, d2.month) + d2.day
  {
    MonthsGrow(d1.year, d1.month + 1, d2.month);
  }

  /** Converting a valid DateTime to its minute count and back gives it again. */
  lemma DateTimeOfMinuteOf(d: DateTime)
    requires ValidDateTime(d)
    ensures DateTimeOf(MinuteOf(d)) == d
  {
    MinuteOfDateTimeOf(MinuteOf(d));
    MinuteOfInjective(DateTimeOf(MinuteOf(d)), d);
  }

  /** The last decimal digit of n, as a character. */
  function Digit(n: nat): char {
    DigitChar(n % 10)
  }

  /**
   * strftime("%Y-%m-%d %H:%M"): the year in four digits, month, day, hour and
   * minute in two, zero-padded, with '-', ' ' and ':' between them.
   */
  function Format(d: DateTime): (s: string)
    requires ValidDateTime(d)
    ensures |s| == 16
  {
    [Digit(d.year / 100 / 10), Digit(d.year / 100), Digit(d.year % 100 / 10), Digit(d.year % 100), '-',
     Digit(d.month / 10), Digit(d.month), '-',
     Digit(d.day / 10), Digit(d.day), ' ',
     Digit(d.hour / 10), Digit(d.hour), ':',
     Digit(d.minute / 10), Digit(d.minute)]
  }

  /** The two-digit number at s[i], s[i + 1], if both are digits. */
  function TwoDigitsAt(s: string, i: nat): Option<nat>
    requires i + 2 <= |s|
  {
    if IsDigit(s[i]) && IsDigit(s[i + 1]) then Some(10 * DigitValue(s[i]) + DigitValue(s[i + 1])) else None
  }

  /**
   * strptime(s, "%Y-%m-%d %H:%M") on the zero-padded form: sixteen
   * characters, the separators at their places, digits elsewhere, and a date
   * and time that exist.
   */
  function Parse(s: string): (r: Option<DateTime>)
    ensures r.Some? ==> ValidDateTime(r.value)
  {
    if |s| != 16 || s[4] != '-' || s[7] != '-' || s[10] != ' ' || s[13] != ':' then None
    else
      match (TwoDigitsAt(s, 0), TwoDigitsAt(s, 2), TwoDigitsAt(s, 5), TwoDigitsAt(s, 8),
             TwoDigitsAt(s, 11), TwoDigitsAt(s, 14))
      case (Some(century), Some(y), Some(month), Some(day), Some(hour), Some(minute)) =>
        var d := DateTime(100 * century + y, month, day, hour, minute);
        if ValidDateTime(d) then Some(d) else None
      case _ => None
  }

  /** The two digits written for n are read back as n mod 100. */
  lemma TwoDigitsRoundTrip(s: string, i: nat, n: nat)
    requires i + 2 <= |s| && s[i] == Digit(n / 10) && s[i + 1] == Digit(n)
    ensures TwoDigitsAt(s, i) == Some(n % 100)
  {
    var q := n / 100;
    var r := n % 100;
    assert n == 10 * (10 * q + r / 10) + r % 10;
    assert n / 10 == 10 * q + r / 10;
    assert n / 10 % 10 == r / 10 && n % 10 == r % 10;
  }

  /** The first two digits of formatted text read back as the century of its year. */
  lemma FormatCentury(d: DateTime)
    requires ValidDateTime(d)
    ensures TwoDigitsAt(Format(d), 0) == Some(d.year / 100)
  {
    var s := Format(d);
    var c := d.year / 100;
    assert s[0] == Digit(c / 10) && s[1] == Digit(c);
    assert c < 100;
    TwoDigitsRoundTrip(s, 0, c);
  }

  /** The next two digits of formatted text read back as the year within its century. */
  lemma FormatYearOfCentury(d: DateTime)
    requires ValidDateTime(d)
    ensures TwoDigitsAt(Format(d), 2) == Some(d.year % 100)
  {
    var s := Format(d);
    var y := d.year % 100;
    assert s[2] == Digit(y / 10) && s[3] == Digit(y);
    assert y % 100 == y;
    TwoDigitsRoundTrip(s, 2, y);
  }

  /** The month and day of formatted text read back as written. */
  lemma FormatDate(d: DateTime)
    requires ValidDateTime(d)
    ensures TwoDigitsAt(Format(d), 5) == Some(d.month) && TwoDigitsAt(Format(d), 8) == Some(d.day)
  {
    var s := Format(d);
    assert s[5] == Digit(d.month / 10) && s[6] == Digit(d.month);
    assert s[8] == Digit(d.day / 10) && s[9] == Digit(d.day);
    assert d.month % 100 == d.month && d.day % 100 == d.day;
    TwoDigitsRoundTrip(s, 5, d.month);
    TwoDigitsRoundTrip(s, 8, d.day);
  }

  /** The hour and minute of formatted text read back as written. */
  lemma FormatTime(d: DateTime)
    requires ValidDateTime(d)
    ensures TwoDigitsAt(Format(d), 11) == Some(d.hour) && TwoDigitsAt(Format(d), 14) == Some(d.minute)
  {
    var s := Format(d);
    assert s[11] == Digit(d.hour / 10) && s[12] == Digit(d.hour);
    assert s[14] == Digit(d.minute / 10) && s[15] == Digit(d.minute);
    assert d.hour % 100 == d.hour && d.minute % 100 == d.minute;
    TwoDigitsRoundTrip(s, 11, d.hour);
    TwoDigitsRoundTrip(s, 14, d.minute);
  }

  /** Parsing formatted text gives back the DateTime. */
  lemma ParseFormat(d: DateTime)
    requires ValidDateTime(d)
    ensures Parse(Format(d)) == Some(d)
  {
    FormatCentury(d);
    FormatYearOfCentury(d);
    FormatDate(d);
    FormatTime(d);
    assert 100 * (d.year / 100) + d.year % 100 == d.year;
  }

  /** Two digit characters are the digits written for the number they denote. */
  lemma DigitsOfTwoDigits(s: string, i: nat)
    requires i + 2 <= |s| && TwoDigitsAt(s, i).Some?
    ensures var n := TwoDigitsAt(s, i).value;
      s[i] == Digit(n / 10) && s[i + 1] == Digit(n) && n < 100
  {
    var a := DigitValue(s[i]);
    var b := DigitValue(s[i + 1]);
    assert (10 * a + b) / 10 == a && (10 * a + b) % 10 == b;
    assert DigitChar(a) == s[i] && DigitChar(b) == s[i + 1];
  }

  /** Text that parses is exactly the formatting of what it parses to. */
  lemma FormatParse(s: string)
    requires Parse(s).Some?
    ensures Format(Parse(s).value) == s
  {
    var d := Parse(s).value;
    DigitsOfTwoDigits(s, 0);
    DigitsOfTwoDigits(s, 2);
    DigitsOfTwoDigits(s, 5);
    DigitsOfTwoDigits(s, 8);
    DigitsOfTwoDigits(s, 11);
    DigitsOfTwoDigits(s, 14);
    var c := TwoDigitsAt(s, 0).value;
    var y := TwoDigitsAt(s, 2).value;
    assert d.year == 100 * c + y;
    assert d.year / 100 == c && d.year % 100 == y;
    var f := Format(d);
    forall k | 0 <= k < 16
      ensures f[k] == s[k]
    {
    }
  }

  /** The text the tracker stores for the instant t: its minute, formatted. */
  function Stamp(t: int): (s: string)
    requires ValidInstant(t)
    ensures |s| == 16
  {
    Format(DateTimeOf(t / 60))
  }

  /** The instant, in seconds, that stored text denotes (strptime), if it is a timestamp. */
  function ParseStamp(s: string): (r: Option<int>)
  {
    match Parse(s)
    case None => None
    case Some(d) => Some(MinuteOf(d) * 60)
  }

  /** Storing an instant and parsing it back gives the instant truncated to its minute. */
  lemma StampRoundTrip(t: int)
    requires ValidInstant(t)
    ensures ParseStamp(Stamp(t)) == Some(t / 60 * 60)
    ensures t - 60 < t / 60 * 60 <= t
  {
    ParseFormat(DateTimeOf(t / 60));
    MinuteOfDateTimeOf(t / 60);
  }

  /** Any text that parses as a timestamp is the stored text of the instant it denotes. */
  lemma ParsedStampIsCanonical(s: string)
    requires ParseStamp(s).Some?
    ensures ValidInstant(ParseStamp(s).value)
    ensures Stamp(ParseStamp(s).value) == s
  {
    var d := Parse(s).value;
    var m := MinuteOf(d);
    assert m * 60 / 60 == m;
    DateTimeOfMinuteOf(d);
    FormatParse(s);
  }
}
