/** Seconds since the epoch as an RFC 3339 date-time (rust/osmpq-raw/src/main.rs:312-356).

    The program finds the year by walking forward or backward from 1970 a year at a time, then the
    month by walking through the lengths of the months. The calendar is described here the other
    way round, by the number of days before a year and before a month, so that a date-time names
    one instant; the program is proved to find the one date-time that names the given instant,
    on both sides of 1970. The text has the form of section 5.6 of RFC 3339 for years from 0 to
    9999 and reads back as the same fields. */
module CivilDate {
  import opened Doubles
  import opened Powers

  datatype Civil = Civil(year: int, month: int, day: int, hour: int, minute: int, second: int)

  // ---- the proleptic Gregorian calendar -------------------------------------------------------

  predicate IsLeap(y: int) { (y % 4 == 0 && y % 100 != 0) || y % 400 == 0 }

  function YearLength(y: int): int { if IsLeap(y) then 366 else 365 }

  function MonthLength(y: int, m: int): int
    requires 1 <= m <= 12
  {
    if m == 2 then if IsLeap(y) then 29 else 28
    else if m == 4 || m == 6 || m == 9 || m == 11 then 30
    else 31
  }

  // Days of the year before a month.
  function DaysBefore(y: int, m: int): (d: int)
    requires 1 <= m <= 13
  {
    if m == 1 then 0 else DaysBefore(y, m - 1) + MonthLength(y, m - 1)
  }

  // Days from 1970-01-01 to the first day of a year: 365 a year and one for each leap day.
  function YearStart(y: int): int {
    365 * (y - 1970) + (y - 1) / 4 - (y - 1) / 100 + (y - 1) / 400 - 477
  }

  predicate IsDate(c: Civil) {
    && 1 <= c.month <= 12 && 1 <= c.day <= MonthLength(c.year, c.month)
    && 0 <= c.hour < 24 && 0 <= c.minute < 60 && 0 <= c.second < 60
  }

  // The instant a date-time names.
  function EpochSeconds(c: Civil): int
    requires IsDate(c)
  {
    (YearStart(c.year) + DaysBefore(c.year, c.month) + c.day - 1) * 86400
    + c.hour * 3600 + c.minute * 60 + c.second
  }

  lemma EpochIsNewYear1970()
    ensures YearStart(1970) == 0
  {
  }

  lemma NextYearStart(y: int)
    ensures YearStart(y + 1) == YearStart(y) + YearLength(y)
  {
    Steps(y, 4);
    Steps(y, 100);
    Steps(y, 400);
  }

  lemma Steps(y: int, n: int)
    requires n > 1
    ensures y / n == (y - 1) / n + if y % n == 0 then 1 else 0
  {
    var q := y / n;
    assert y == q * n + y % n;
    if y % n == 0 {
      assert (q - 1) * n == q * n - n;
      QuotientUnique(y - 1, n, q - 1);
    } else {
      QuotientUnique(y - 1, n, q);
    }
  }

  lemma YearIsItsMonths(y: int)
    ensures DaysBefore(y, 13) == YearLength(y)
  {
    var feb := MonthLength(y, 2);
    assert DaysBefore(y, 2) == 31;
    assert DaysBefore(y, 3) == 31 + feb;
    assert DaysBefore(y, 5) == 92 + feb;
    assert DaysBefore(y, 7) == 153 + feb;
    assert DaysBefore(y, 9) == 215 + feb;
    assert DaysBefore(y, 11) == 276 + feb;
    assert DaysBefore(y, 13) == 337 + feb;
  }

  lemma {:induction false} MonthsGrow(y: int, m: int, n: int)
    requires 1 <= m < n <= 13
    ensures DaysBefore(y, m) + MonthLength(y, m) <= DaysBefore(y, n)
  {
    if m < n - 1 { MonthsGrow(y, m, n - 1); }
  }

  lemma {:induction false} YearsGrow(y: int, z: int)
    requires y < z
    ensures YearStart(y) + YearLength(y) <= YearStart(z)
    decreases z - y
  {
    NextYearStart(z - 1);
    if y < z - 1 { YearsGrow(y, z - 1); }
  }

  // The days from 1970-01-01 to a date fall inside its year.
  lemma DayInYear(y: int, m: int, d: int)
    requires 1 <= m <= 12 && 1 <= d <= MonthLength(y, m)
    ensures 0 <= DaysBefore(y, m) + d - 1 < YearLength(y)
  {
    YearIsItsMonths(y);
    MonthsGrow(y, m, 13);
    if m > 1 { MonthsGrow(y, 1, m); }
  }

  // Two dates naming the same instant are the same date.
  lemma DateIsUnique(a: Civil, b: Civil)
    requires IsDate(a) && IsDate(b) && EpochSeconds(a) == EpochSeconds(b)
    ensures a == b
  {
    var dayA, dayB := DaysBefore(a.year, a.month) + a.day - 1, DaysBefore(b.year, b.month) + b.day - 1;
    DayInYear(a.year, a.month, a.day);
    DayInYear(b.year, b.month, b.day);
    assert YearStart(a.year) + dayA == YearStart(b.year) + dayB;
    if a.year < b.year { YearsGrow(a.year, b.year); }
    if b.year < a.year { YearsGrow(b.year, a.year); }
    if a.month < b.month { MonthsGrow(a.year, a.month, b.month); }
    if b.month < a.month { MonthsGrow(a.year, b.month, a.month); }
  }

  // ---- the program ----------------------------------------------------------------------------

  // Main result: the fields computed are the one date-time that names the instant.
  method FieldsOf(epochSecs: int) returns (c: Civil)
    ensures IsDate(c) && EpochSeconds(c) == epochSecs
  {
    var daysTotal := epochSecs / 86400;
    var secsOfDay := epochSecs % 86400;
    var hour := secsOfDay / 3600;
    var minute := secsOfDay % 3600 / 60;
    var second := secsOfDay % 60;
    var year, days := FindYear(daysTotal);
    var month, day := FindMonth(year, days);
    c := Civil(year, month + 1, day + 1, hour, minute, second);
    assert secsOfDay == hour * 3600 + minute * 60 + second by { TimeOfDay(secsOfDay); }
  }

  lemma TimeOfDay(s: int)
    requires 0 <= s < 86400
    ensures s % 3600 % 60 == s % 60
  {
  }

  // The year loop walks forward or backward from 1970.
  method FindYear(daysTotal: int) returns (year: int, days: int)
    ensures YearStart(year) + days == daysTotal && 0 <= days < YearLength(year)
  {
    year, days := 1970, daysTotal;
    EpochIsNewYear1970();
    while true
      invariant YearStart(year) + days == daysTotal
      decreases if days < 0 then 400 - days else days
    {
      var yearLen := if IsLeap(year) then 366 else 365;
      if days >= yearLen {
        NextYearStart(year);
        days := days - yearLen;
        year := year + 1;
      } else if days < 0 {
        year := year - 1;
        NextYearStart(year);
        days := days + if IsLeap(year) then 366 else 365;
      } else {
        break;
      }
    }
  }

  const DAYS_IN_MONTH := [31, 28, 31, 30, 31, 30, 31, 31, 30, 31, 30, 31]

  // The month loop; months are counted from 0.
  method FindMonth(year: int, days: int) returns (month: int, day: int)
    requires 0 <= days < YearLength(year)
    ensures 0 <= month < 12 && 0 <= day < MonthLength(year, month + 1)
    ensures DaysBefore(year, month + 1) + day == days
  {
    month, day := 0, days;
    YearIsItsMonths(year);
    for i := 0 to |DAYS_IN_MONTH|
      invariant 0 <= day && DaysBefore(year, i + 1) + day == days
    {
      var dm := if i == 1 && IsLeap(year) then 29 else DAYS_IN_MONTH[i];
      assert dm == MonthLength(year, i + 1);
      if day < dm {
        month := i;
        return;
      }
      day := day - dm;
    }
  }

  // ---- the text -------------------------------------------------------------------------------

  // A number in at least w columns, filled with zeros after any sign.
  function Padded(n: int, w: nat): string {
    if n < 0 then "-" + Filled(Digits(-n), w - 1) else Filled(Digits(n), w)
  }

  function Filled(s: string, w: int): string
    decreases w - |s|
  {
    if |s| >= w then s else Filled("0" + s, w)
  }

  function Text(c: Civil): string {
    Padded(c.year, 4) + "-" + Padded(c.month, 2) + "-" + Padded(c.day, 2) + "T"
    + Padded(c.hour, 2) + ":" + Padded(c.minute, 2) + ":" + Padded(c.second, 2) + "Z"
  }

  function ReadDigits(s: string): int {
    if s == "" then 0 else 10 * ReadDigits(s[..|s| - 1]) + (s[|s| - 1] as int - '0' as int)
  }

  lemma {:induction false} DigitsRead(n: nat)
    ensures ReadDigits(Digits(n)) == n
  {
    if n >= 10 {
      DigitsRead(n / 10);
      assert Digits(n)[..|Digits(n)| - 1] == Digits(n / 10);
    } else {
      assert Digits(n)[..0] == "";
    }
  }

  lemma {:induction false} LeadingZeroReads(s: string)
    ensures ReadDigits("0" + s) == ReadDigits(s)
  {
    if s != "" {
      LeadingZeroReads(s[..|s| - 1]);
      assert ("0" + s)[..|s|] == "0" + s[..|s| - 1];
    } else {
      assert ("0" + s)[..0] == "";
    }
  }

  lemma {:induction false} FilledReads(s: string, w: int)
    ensures ReadDigits(Filled(s, w)) == ReadDigits(s)
    ensures |Filled(s, w)| == if |s| >= w then |s| else w
    decreases w - |s|
  {
    if |s| < w {
      FilledReads("0" + s, w);
      LeadingZeroReads(s);
    }
  }

  lemma DigitsFit(n: nat)
    ensures n < 100 ==> |Digits(n)| <= 2
    ensures n < 10000 ==> |Digits(n)| <= 4
  {
    if n >= 10 && n < 10000 {
      assert n / 10 < 1000 && n / 10 / 10 < 100;
      assert Digits(n) == Digits(n / 10) + [Digit(n % 10)];
      if n / 10 >= 10 {
        assert Digits(n / 10) == Digits(n / 10 / 10) + [Digit(n / 10 % 10)];
        if n / 100 >= 10 { assert Digits(n / 10 / 10) == Digits(n / 10 / 10 / 10) + [Digit(n / 10 / 10 % 10)]; }
      }
    }
  }

  predicate AllDigits(s: string) { forall i :: 0 <= i < |s| ==> '0' <= s[i] <= '9' }

  lemma {:induction false} FilledWithDigits(s: string, w: int)
    requires AllDigits(s)
    ensures AllDigits(Filled(s, w))
    decreases w - |s|
  {
    if |s| < w { FilledWithDigits("0" + s, w); }
  }

  lemma PaddedReads(n: nat, w: nat)
    requires (w == 2 && n < 100) || (w == 4 && n < 10000)
    ensures |Padded(n, w)| == w && ReadDigits(Padded(n, w)) == n && AllDigits(Padded(n, w))
  {
    DigitsRead(n);
    DigitsFit(n);
    FilledReads(Digits(n), w);
    FilledWithDigits(Digits(n), w);
  }

  // Before year 0 the sign comes first and counts as a column.
  lemma NegativePaddedReads(n: int, w: nat)
    requires n < 0 && w > 0
    ensures var s := Padded(n, w);
      s[0] == '-' && ReadDigits(s[1..]) == -n && |s| == if |Digits(-n)| + 1 >= w then |Digits(-n)| + 1 else w
  {
    DigitsRead(-n);
    FilledReads(Digits(-n), w - 1);
    assert Padded(n, w)[1..] == Filled(Digits(-n), w - 1);
  }

  // The date-time production of RFC 3339 section 5.6, without a fraction and in UTC.
  predicate IsRfc3339(s: string) {
    && |s| == 20
    && AllDigits(s[..4]) && s[4] == '-' && AllDigits(s[5..7]) && s[7] == '-' && AllDigits(s[8..10]) && s[10] == 'T'
    && AllDigits(s[11..13]) && s[13] == ':' && AllDigits(s[14..16]) && s[16] == ':' && AllDigits(s[17..19]) && s[19] == 'Z'
  }

  // The six fields read back at their RFC 3339 positions.
  function Parse(s: string): Civil
    requires IsRfc3339(s)
  {
    Civil(ReadDigits(s[..4]), ReadDigits(s[5..7]), ReadDigits(s[8..10]),
          ReadDigits(s[11..13]), ReadDigits(s[14..16]), ReadDigits(s[17..19]))
  }

  // From year 0 to 9999 the text is RFC 3339 and reads back as the same fields.
  lemma TextRoundTrips(c: Civil)
    requires IsDate(c) && 0 <= c.year <= 9999
    ensures IsRfc3339(Text(c)) && Parse(Text(c)) == c
  {
    PaddedReads(c.year, 4);
    PaddedReads(c.month, 2);
    PaddedReads(c.day, 2);
    PaddedReads(c.hour, 2);
    PaddedReads(c.minute, 2);
    PaddedReads(c.second, 2);
    TextSlices(Padded(c.year, 4), Padded(c.month, 2), Padded(c.day, 2),
               Padded(c.hour, 2), Padded(c.minute, 2), Padded(c.second, 2));
  }

  lemma TextSlices(y: string, mo: string, d: string, h: string, mi: string, s: string)
    requires |y| == 4 && |mo| == 2 && |d| == 2 && |h| == 2 && |mi| == 2 && |s| == 2
    ensures var t := y + "-" + mo + "-" + d + "T" + h + ":" + mi + ":" + s + "Z";
      && |t| == 20 && t[..4] == y && t[5..7] == mo && t[8..10] == d
      && t[11..13] == h && t[14..16] == mi && t[17..19] == s
      && t[4] == '-' && t[7] == '-' && t[10] == 'T' && t[13] == ':' && t[16] == ':' && t[19] == 'Z'
  {
  }

  // The formatter writes the one date-time that names the instant.
  method Format(epochSecs: int) returns (text: string)
    ensures forall c :: IsDate(c) && EpochSeconds(c) == epochSecs ==> text == Text(c)
  {
    var fields := FieldsOf(epochSecs);
    text := Text(fields);
    forall c | IsDate(c) && EpochSeconds(c) == epochSecs ensures c == fields { DateIsUnique(c, fields); }
  }

  // ---- the calendar itself --------------------------------------------------------------------

  // The date-time one second later, by the calendar.
  function NextSecond(c: Civil): Civil
    requires IsDate(c)
  {
    var leap := (c.year % 4 == 0 && c.year % 100 != 0) || c.year % 400 == 0;
    var last := match c.month
      case 2 => if leap then 29 else 28
      case 4 => 30 case 6 => 30 case 9 => 30 case 11 => 30
      case _ => 31;
    if c.second < 59 then c.(second := c.second + 1)
    else if c.minute < 59 then c.(minute := c.minute + 1, second := 0)
    else if c.hour < 23 then c.(hour := c.hour + 1, minute := 0, second := 0)
    else if c.day < last then c.(day := c.day + 1, hour := 0, minute := 0, second := 0)
    else if c.month < 12 then Civil(c.year, c.month + 1, 1, 0, 0, 0)
    else Civil(c.year + 1, 1, 1, 0, 0, 0)
  }

  // Instants count the seconds of the calendar from the start of 1970, in both directions.
  lemma SecondsFollow(c: Civil)
    requires IsDate(c)
    ensures IsDate(NextSecond(c)) && EpochSeconds(NextSecond(c)) == EpochSeconds(c) + 1
    ensures IsDate(Civil(1970, 1, 1, 0, 0, 0)) && EpochSeconds(Civil(1970, 1, 1, 0, 0, 0)) == 0
  {
    EpochIsNewYear1970();
    if c.month < 12 {
      assert DaysBefore(c.year, c.month + 1) == DaysBefore(c.year, c.month) + MonthLength(c.year, c.month);
    } else {
      NextYearStart(c.year);
      YearIsItsMonths(c.year);
      assert DaysBefore(c.year, 13) == DaysBefore(c.year, 12) + MonthLength(c.year, 12);
    }
  }
}
