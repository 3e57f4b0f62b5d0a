/** Dates and seconds since the epoch, by loops over years and months, against the closed formula of
    POSIX. */
module Calendar {
  import opened Arithmetic

  predicate IsLeap(year: int) { year % 4 == 0 && (year % 400 == 0 || year % 100 != 0) }

  function YearDays(year: int): int { if IsLeap(year) then 366 else 365 }

  /** nbofdayin */
  function MonthDays(year: int, month: int): int {
    if month == 2 then (if IsLeap(year) then 29 else 28)
    else if month == 4 || month == 6 || month == 9 || month == 11 then 30
    else if 1 <= month <= 12 then 31 else -1
  }

  /** Division and remainder of C, which go towards zero. */
  function Div(a: int, b: int): int
    requires b > 0
  {
    if a >= 0 then a / b else -((-a) / b)
  }

  function Mod(a: int, b: int): int
    requires b > 0
  {
    a - b * Div(a, b)
  }

  datatype Date = Date(year: int, month: int, day: int, hour: int, minute: int, second: int)

  /** A real date; days count from 1. */
  predicate IsDate(d: Date) {
    && d.year >= 1970 && 1 <= d.month <= 12 && 1 <= d.day <= MonthDays(d.year, d.month)
    && 0 <= d.hour < 24 && 0 <= d.minute < 60 && 0 <= d.second < 60
  }

  // ---- the reference ----

  /** The days of the year before a month. */
  function DaysBeforeMonth(year: int, month: int): int
    decreases month
  {
    if month <= 1 then 0 else DaysBeforeMonth(year, month - 1) + MonthDays(year, month - 1)
  }

  /** The formula of section 4.16 of the POSIX.1-2017 Base Definitions, with its tm_year and tm_yday. */
  function Posix(d: Date): int {
    var y, yday := d.year - 1900, DaysBeforeMonth(d.year, d.month) + d.day - 1;
    d.second + d.minute * 60 + d.hour * 3600 + yday * 86400 + (y - 70) * 31536000 +
    ((y - 69) / 4) * 86400 - ((y - 1) / 100) * 86400 + ((y + 299) / 400) * 86400
  }

  /** The days before a year, counted year by year. */
  function DaysBeforeYear(year: int): int
    requires year >= 1970
    decreases year
  {
    if year == 1970 then 0 else DaysBeforeYear(year - 1) + YearDays(year - 1)
  }

  /** A quotient grows by one where the dividend reaches a multiple. */
  lemma QuotientStep(x: int, n: int)
    requires n > 0
    ensures (x + 1) / n - x / n == if (x + 1) % n == 0 then 1 else 0
  {
    var q, r, k, m := x / n, x % n, (x + 1) / n, (x + 1) % n;
    assert x == q * n + r && x + 1 == k * n + m;
    if r + 1 < n {
      Unique(k, m, q, r + 1, n);
    } else {
      Distribute(q, 1, n);
      Unique(k, m, q + 1, 0, n);
    }
  }

  lemma LeapSteps(y: int)
    requires y >= 1970
    ensures (y + 1 - 1969) / 4 - (y - 1969) / 4 == if y % 4 == 0 then 1 else 0
    ensures (y + 1 - 1901) / 100 - (y - 1901) / 100 == if y % 100 == 0 then 1 else 0
    ensures (y + 1 - 1601) / 400 - (y - 1601) / 400 == if y % 400 == 0 then 1 else 0
    ensures (y % 400 == 0 ==> y % 100 == 0) && (y % 100 == 0 ==> y % 4 == 0)
  {
    Fours(y);
    Hundreds(y);
    FourHundreds(y);
  }

  lemma Fours(y: int)
    ensures (y + 1 - 1969) / 4 - (y - 1969) / 4 == if y % 4 == 0 then 1 else 0
  {
    QuotientStep(y - 1969, 4);
  }

  lemma Hundreds(y: int)
    ensures (y + 1 - 1901) / 100 - (y - 1901) / 100 == if y % 100 == 0 then 1 else 0
    ensures y % 100 == 0 ==> y % 4 == 0
  {
    QuotientStep(y - 1901, 100);
  }

  lemma FourHundreds(y: int)
    ensures (y + 1 - 1601) / 400 - (y - 1601) / 400 == if y % 400 == 0 then 1 else 0
    ensures y % 400 == 0 ==> y % 100 == 0
  {
    QuotientStep(y - 1601, 400);
  }

  lemma {:induction false} DaysBeforeYearClosed(year: int)
    requires year >= 1970
    ensures DaysBeforeYear(year) == (year - 1970) * 365 + (year - 1969) / 4 - (year - 1901) / 100 + (year - 1601) / 400
    decreases year
  {
    if year > 1970 {
      DaysBeforeYearClosed(year - 1);
      LeapSteps(year - 1);
    }
  }

  /** The seconds of a date, from the day number. */
  function Seconds(d: Date): int
    requires d.year >= 1970
  {
    d.second + d.minute * 60 + d.hour * 3600 + (DaysBeforeYear(d.year) + DaysBeforeMonth(d.year, d.month) + d.day - 1) * 86400
  }

  /** The same without the years. */
  function InYear(d: Date): int {
    d.second + d.minute * 60 + d.hour * 3600 + (DaysBeforeMonth(d.year, d.month) + d.day - 1) * 86400
  }

  lemma SecondsIsPosix(d: Date)
    requires d.year >= 1970
    ensures Seconds(d) == Posix(d)
  {
    DaysBeforeYearClosed(d.year);
  }

  /** The days before each month, written out. */
  lemma MonthTable(year: int)
    ensures var f := MonthDays(year, 2);
      && DaysBeforeMonth(year, 1) == 0 && DaysBeforeMonth(year, 2) == 31 && DaysBeforeMonth(year, 3) == 31 + f
      && DaysBeforeMonth(year, 4) == 62 + f && DaysBeforeMonth(year, 5) == 92 + f && DaysBeforeMonth(year, 6) == 123 + f
    ensures var f := MonthDays(year, 2);
      && DaysBeforeMonth(year, 7) == 153 + f && DaysBeforeMonth(year, 8) == 184 + f && DaysBeforeMonth(year, 9) == 215 + f
      && DaysBeforeMonth(year, 10) == 245 + f && DaysBeforeMonth(year, 11) == 276 + f
      && DaysBeforeMonth(year, 12) == 306 + f && DaysBeforeMonth(year, 13) == 337 + f == YearDays(year)
  {
    assert DaysBeforeMonth(year, 1) == 0;
    assert DaysBeforeMonth(year, 2) == 31;
    assert DaysBeforeMonth(year, 4) == 62 + MonthDays(year, 2);
    assert DaysBeforeMonth(year, 6) == 123 + MonthDays(year, 2);
    assert DaysBeforeMonth(year, 8) == 184 + MonthDays(year, 2);
    assert DaysBeforeMonth(year, 10) == 245 + MonthDays(year, 2);
    assert DaysBeforeMonth(year, 12) == 306 + MonthDays(year, 2);
  }

  // ---- the code ----

  /** A month that does not exist adds no days, as January does. */
  function Named(d: Date): Date { if 1 <= d.month <= 12 then d else d.(month := 1) }

  /** The days that the switch of date2time adds, falling through from the month to January. */
  method MonthSwitch(year: int, month: int) returns (days: int)
    ensures days == if 1 <= month <= 12 then DaysBeforeMonth(year, month) else 0
  {
    MonthTable(year);
    days := 0;
    if !(1 <= month <= 12) { return; }
    if month >= 12 { days := days + 30; }
    if month >= 11 { days := days + 31; }
    if month >= 10 { days := days + 30; }
    if month >= 9 { days := days + 31; }
    if month >= 8 { days := days + 31; }
    if month >= 7 { days := days + 30; }
    if month >= 6 { days := days + 31; }
    if month >= 5 { days := days + 30; }
    if month >= 4 { days := days + 31; }
    if month >= 3 { days := days + if IsLeap(year) then 29 else 28; }
    if month >= 2 { days := days + 31; }
  }

  /** date2time; before 1970 the year is not looked at. */
  method DateToTime(d: Date) returns (time: int)
    ensures d.year >= 1970 ==> time == Posix(Named(d))
    ensures d.year < 1970 ==> time == InYear(Named(d))
    ensures 1 <= d.month <= 12 ==> Named(d) == d
  {
    var days := MonthSwitch(d.year, d.month);
    days := days + d.day - 1;
    var year := d.year;
    ghost var first := days;
    while year > 1970
      invariant d.year >= 1970 ==> year >= 1970 && days + DaysBeforeYear(year) == first + DaysBeforeYear(d.year)
      invariant d.year < 1970 ==> year == d.year && days == first
    {
      year := year - 1;
      days := days + YearDays(year);
    }
    time := d.second + d.minute * 60 + d.hour * 3600 + days * 86400;
    if d.year >= 1970 { SecondsIsPosix(Named(d)); }
  }

  /** time2date; the day counts from 0.  Both loops end, the month within the year. */
  method TimeToDate(time: int) returns (d: Date)
    ensures d.year >= 1970 && 1 <= d.month <= 12 && d.day < MonthDays(d.year, d.month)
    ensures Posix(d.(day := d.day + 1)) == time
    ensures time >= 0 ==> IsDate(d.(day := d.day + 1))
  {
    hide Posix, Div, Mod;
    var second := Mod(time, 60);
    var minute := Mod(Div(time, 60), 60);
    var hour := Mod(Div(time, 3600), 24);
    var day := Div(time, 86400);
    Fields(time);
    var year := 1970;
    while day >= YearDays(year)
      invariant year >= 1970 && day + DaysBeforeYear(year) == Div(time, 86400) && (time >= 0 ==> day >= 0)
      decreases day
    {
      day := day - YearDays(year);
      year := year + 1;
    }
    ghost var yday := day;
    MonthTable(year);
    var month := 1;
    while day >= MonthDays(year, month)
      invariant 1 <= month <= 12 && day + DaysBeforeMonth(year, month) == yday && (time >= 0 ==> day >= 0)
      invariant day < DaysBeforeMonth(year, 13) - DaysBeforeMonth(year, month)
      decreases day
    {
      assert DaysBeforeMonth(year, month + 1) == DaysBeforeMonth(year, month) + MonthDays(year, month);
      day := day - MonthDays(year, month);
      month := month + 1;
    }
    d := Date(year, month, day, hour, minute, second);
    SecondsIsPosix(d.(day := day + 1));
  }

  lemma NestedDiv(n: nat)
    ensures n / 3600 == n / 60 / 60 && n / 86400 == n / 60 / 60 / 24
  {
    var q, r := n / 60, n % 60;
    var h, m := q / 60, q % 60;
    var d, k := h / 24, h % 24;
    DivUnique(h, m * 60 + r, 3600);
    DivUnique(d, k * 3600 + m * 60 + r, 86400);
  }

  lemma FieldsOf(n: nat)
    ensures n % 60 + (n / 60 % 60) * 60 + (n / 3600 % 24) * 3600 + n / 86400 * 86400 == n
  {
    NestedDiv(n);
  }

  /** The fields put the time together again. */
  lemma Fields(time: int)
    ensures Mod(time, 60) + Mod(Div(time, 60), 60) * 60 + Mod(Div(time, 3600), 24) * 3600 + Div(time, 86400) * 86400 == time
    ensures time >= 0 ==>
      0 <= Mod(time, 60) < 60 && 0 <= Mod(Div(time, 60), 60) < 60 && 0 <= Mod(Div(time, 3600), 24) < 24 && Div(time, 86400) >= 0
  {
    hide Div, Mod;
    var n: nat := if time >= 0 then time else -time;
    FieldsOf(n);
    Signed(time, n, 60);
    Signed(time, n, 3600);
    Signed(time, n, 86400);
    Signed(Div(time, 60), n / 60, 60);
    Signed(Div(time, 3600), n / 3600, 24);
  }

  /** Division towards zero goes by the absolute value. */
  lemma Signed(a: int, n: int, b: int)
    requires b > 0 && n >= 0 && (a == n || a == -n)
    ensures Div(a, b) == if a >= 0 then n / b else -(n / b)
    ensures Mod(a, b) == if a >= 0 then n % b else -(n % b)
    ensures n / b >= 0 && 0 <= n % b < b
  {
  }

  // ---- the dates are told apart by their seconds ----

  lemma {:induction false} YearsApart(a: int, b: int)
    requires 1970 <= a < b
    ensures DaysBeforeYear(a) + YearDays(a) <= DaysBeforeYear(b)
    decreases b
  {
    if a < b - 1 { YearsApart(a, b - 1); }
  }

  lemma {:induction false} MonthsApart(year: int, a: int, b: int)
    requires 1 <= a < b <= 13
    ensures DaysBeforeMonth(year, a) + MonthDays(year, a) <= DaysBeforeMonth(year, b)
    decreases b
  {
    if a < b - 1 { MonthsApart(year, a, b - 1); }
  }

  lemma DayOfYearBelow(d: Date)
    requires IsDate(d)
    ensures 0 <= DaysBeforeMonth(d.year, d.month) + d.day - 1 < YearDays(d.year)
  {
    MonthsApart(d.year, d.month, 13);
    MonthTable(d.year);
    if d.month > 1 { MonthsApart(d.year, 1, d.month); }
  }

  lemma SecondsOfDay(a: Date, b: Date, m: int, n: int)
    requires IsDate(a) && IsDate(b)
    requires a.second + a.minute * 60 + a.hour * 3600 + m * 86400 == b.second + b.minute * 60 + b.hour * 3600 + n * 86400
    ensures m == n && a.hour == b.hour && a.minute == b.minute && a.second == b.second
  {
  }

  /** Different dates have different times. */
  lemma Injective(a: Date, b: Date)
    requires IsDate(a) && IsDate(b) && Posix(a) == Posix(b)
    ensures a == b
  {
    SecondsIsPosix(a);
    SecondsIsPosix(b);
    DayOfYearBelow(a);
    DayOfYearBelow(b);
    SecondsOfDay(a, b, DaysBeforeYear(a.year) + DaysBeforeMonth(a.year, a.month) + a.day - 1,
                 DaysBeforeYear(b.year) + DaysBeforeMonth(b.year, b.month) + b.day - 1);
    if a.year < b.year { YearsApart(a.year, b.year); }
    if b.year < a.year { YearsApart(b.year, a.year); }
    if a.month < b.month { MonthsApart(a.year, a.month, b.month); }
    if b.month < a.month { MonthsApart(a.year, b.month, a.month); }
  }

  /** Both ways round: a date gets itself back, one day earlier by the count from 0. */
  method RoundTrip(d: Date) returns (time: int, back: Date)
    requires IsDate(d)
    ensures time == Posix(d) && back == d.(day := d.day - 1)
  {
    time := DateToTime(d);
    PosixNonNegative(d);
    back := TimeToDate(time);
    Injective(d, back.(day := back.day + 1));
  }

  lemma PosixNonNegative(d: Date)
    requires IsDate(d)
    ensures Posix(d) >= 0
  {
    SecondsIsPosix(d);
    DayOfYearBelow(d);
    if d.year > 1970 { YearsApart(1970, d.year); }
  }
}
