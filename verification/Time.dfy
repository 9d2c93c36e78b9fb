/** Calendar arithmetic (libraries/Time/Time.cpp:146-233).

    breakTime and makeTime count through years and months with two different loops.  Seconds are
    uint32_t and wrap; every wrap is written out. */
module Time {
  import opened Arithmetic
  import opened Octets

  // tmElements_t; Year is the offset from 1970, Wday runs from 1 for Sunday
  datatype TmElements = TmElements(
    Second: int, Minute: int, Hour: int, Wday: int, Day: int, Month: int, Year: int)

  const SECS_PER_MIN := 60
  const SECS_PER_HOUR := 3600
  const SECS_PER_DAY := 86400

  const MONTH_DAYS: seq<int> := [31, 28, 31, 30, 31, 30, 31, 31, 30, 31, 30, 31]

  /** LEAP_YEAR, for an offset from 1970. */
  predicate LeapYear(y: int) {
    1970 + y > 0 && (1970 + y) % 4 == 0 && ((1970 + y) % 100 != 0 || (1970 + y) % 400 == 0)
  }

  // ---------------------------------------------------------------- the calendar

  function YearLength(y: int): int { if LeapYear(y) then 366 else 365 }

  /** The length of month m, counted from 0. */
  function MonthLength(y: int, m: int): int
    requires 0 <= m < 12
  {
    if m == 1 then (if LeapYear(y) then 29 else 28) else MONTH_DAYS[m]
  }

  function DaysBeforeYear(y: nat): nat {
    if y == 0 then 0 else DaysBeforeYear(y - 1) + YearLength(y - 1)
  }

  function DaysBeforeMonth(y: int, m: nat): nat
    requires m <= 12
  {
    if m == 0 then 0 else DaysBeforeMonth(y, m - 1) + MonthLength(y, m - 1)
  }

  /** A date of the Gregorian calendar and a time of day. */
  predicate Valid(tm: TmElements) {
    && 0 <= tm.Second < 60 && 0 <= tm.Minute < 60 && 0 <= tm.Hour < 24
    && 0 <= tm.Year && 1 <= tm.Month <= 12 && 1 <= tm.Day <= MonthLength(tm.Year, tm.Month - 1)
  }

  function DayNumber(tm: TmElements): int
    requires Valid(tm)
  {
    DaysBeforeYear(tm.Year) + DaysBeforeMonth(tm.Year, tm.Month - 1) + tm.Day - 1
  }

  /** The seconds since the start of 1970. */
  function Seconds(tm: TmElements): int
    requires Valid(tm)
  {
    DayNumber(tm) * SECS_PER_DAY + tm.Hour * SECS_PER_HOUR + tm.Minute * SECS_PER_MIN + tm.Second
  }

  /** Sunday is day 1, and the first day of 1970 was a Thursday. */
  function Weekday(day: int): int { (day + 4) % 7 + 1 }

  /** The days of the week follow one another. */
  lemma {:induction false} WeekdaysFollow(day: nat)
    ensures Weekday(0) == 5 && 1 <= Weekday(day) <= 7
    ensures Weekday(day + 1) == if Weekday(day) == 7 then 1 else Weekday(day) + 1
  {
  }

  /** The years have the lengths that the Gregorian rule gives them in closed form. */
  lemma {:induction false} DaysBeforeYearClosed(y: nat)
    ensures DaysBeforeYear(y) == 365 * y + (y + 1969) / 4 - (y + 1969) / 100 + (y + 1969) / 400 - 477
  {
    if y > 0 {
      DaysBeforeYearClosed(y - 1);
      var n := y + 1969;   // the year that was added
      QuotientStep(n, 4);
      QuotientStep(n, 100);
      QuotientStep(n, 400);
      Multiples(n);
    }
  }

  lemma {:induction false} Multiples(n: int)
    ensures n % 100 == 0 ==> n % 4 == 0
    ensures n % 400 == 0 ==> n % 100 == 0
  {
    if n % 100 == 0 {
      QuotientUnique(n, 4, 25 * (n / 100), 0);
    }
    if n % 400 == 0 {
      QuotientUnique(n, 100, 4 * (n / 400), 0);
    }
  }

  /** The months have the lengths that make this closed form: seven of 31 days among the first twelve, the long and
      the short ones in turn but for July and August, and February short by one day or two. */
  lemma {:induction false} DaysBeforeMonthClosed(y: int, m: nat)
    requires m <= 12
    ensures DaysBeforeMonth(y, m) ==
            (367 * (m + 1) - 362) / 12 - (if m < 2 then 0 else if LeapYear(y) then 1 else 2)
  {
    if m > 0 {
      DaysBeforeMonthClosed(y, m - 1);
    }
  }

  lemma {:induction false} YearIsTwelveMonths(y: int)
    ensures DaysBeforeMonth(y, 12) == YearLength(y)
  {
    DaysBeforeMonthClosed(y, 12);
  }

  lemma {:induction false} YearsAreLong(y: nat)
    ensures 365 * y <= DaysBeforeYear(y)
  {
    if y > 0 {
      YearsAreLong(y - 1);
    }
  }

  // ---------------------------------------------------------------- breakTime

  /** Neither the year nor the day count wraps when the year loop goes on. */
  lemma {:induction false} NextYear(year: nat, days: int, day: int)
    requires days == DaysBeforeYear(year) + YearLength(year) <= day <= UINT32 / SECS_PER_DAY
    ensures year + 1 <= 136 && days == DaysBeforeYear(year + 1)
    ensures (days + YearLength(year + 1)) % UINT32 == days + YearLength(year + 1)
  {
    YearsAreLong(year + 1);
    assert days + YearLength(year + 1) < UINT32;
  }

  /** The year loop: the year that contains a day, and the day's number within that year.  The year
      is a uint8_t and the day count a uint32_t; neither wraps for a day that fits 32-bit seconds. */
  method BreakYear(day: int) returns (year: int, rest: int)
    requires 0 <= day <= UINT32 / SECS_PER_DAY
    ensures 0 <= year <= 136 && 0 <= rest < YearLength(year) && day == DaysBeforeYear(year) + rest
  {
    year := 0;
    var days := YearLength(year);
    while days <= day
      invariant 0 <= year <= 136 && days == DaysBeforeYear(year) + YearLength(year)
      invariant DaysBeforeYear(year) <= day
      decreases day - days
    {
      NextYear(year, days, day);
      year := (year + 1) % 256;
      days := (days + YearLength(year)) % UINT32;
    }
    days := days - YearLength(year);
    rest := day - days;
  }

  /** The month loop: the month, counted from 0, and the day within it. */
  method BreakMonth(year: int, rest: int) returns (month: int, day: int)
    requires 0 <= rest < YearLength(year)
    ensures 0 <= month < 12 && 0 <= day < MonthLength(year, month)
    ensures rest == DaysBeforeMonth(year, month) + day
  {
    day := rest;
    month := 0;
    YearIsTwelveMonths(year);
    while month < 12
      invariant 0 <= month <= 12 && 0 <= day
      invariant day + DaysBeforeMonth(year, month) == rest
    {
      var monthLength;
      if month == 1 {
        if LeapYear(year) {
          monthLength := 29;
        } else {
          monthLength := 28;
        }
      } else {
        monthLength := MONTH_DAYS[month];
      }
      if day >= monthLength {
        day := day - monthLength;
      } else {
        break;
      }
      month := month + 1;
    }
  }

  method BreakTime(timeInput: int) returns (tm: TmElements)
    requires 0 <= timeInput < UINT32
    ensures Valid(tm) && Seconds(tm) == timeInput
    ensures tm.Wday == Weekday(timeInput / SECS_PER_DAY)
    ensures tm.Year <= 136
  {
    var time := timeInput;
    var second := time % 60;
    time := time / 60;
    var minute := time % 60;
    time := time / 60;
    var hour := time % 24;
    time := time / 24;
    var wday := (time + 4) % 7 + 1;
    var year, rest := BreakYear(time);
    var month, day := BreakMonth(year, rest);
    tm := TmElements(second, minute, hour, wday, day + 1, month + 1, year);
    Broken(tm, timeInput, rest);
  }

  lemma {:induction false} Broken(tm: TmElements, t: int, rest: int)
    requires 0 <= t && tm.Second == t % 60 && tm.Minute == t / 60 % 60 && tm.Hour == t / 60 / 60 % 24
    requires 0 <= tm.Year && 1 <= tm.Month <= 12 && 1 <= tm.Day <= MonthLength(tm.Year, tm.Month - 1)
    requires rest == DaysBeforeMonth(tm.Year, tm.Month - 1) + tm.Day - 1
    requires t / 60 / 60 / 24 == DaysBeforeYear(tm.Year) + rest
    ensures Valid(tm) && Seconds(tm) == t && t / 60 / 60 / 24 == t / SECS_PER_DAY
  {
    TimeOfDay(t);
  }

  lemma {:induction false} TimeOfDay(t: int)
    requires 0 <= t
    ensures t / 60 / 60 / 24 == t / SECS_PER_DAY
    ensures t == t / SECS_PER_DAY * SECS_PER_DAY + t / 60 / 60 % 24 * 3600 + t / 60 % 60 * 60 + t % 60
  {
    var m, h, d := t / 60, t / 60 / 60, t / 60 / 60 / 24;
    assert t == 86400 * d + (h % 24 * 3600 + m % 60 * 60 + t % 60);
    QuotientUnique(t, 86400, d, h % 24 * 3600 + m % 60 * 60 + t % 60);
  }

  // ---------------------------------------------------------------- makeTime

  /** The fields as C stores them; month 13 is the last for which the month table is not overrun. */
  predicate Stored(tm: TmElements) {
    && 0 <= tm.Second < 256 && 0 <= tm.Minute < 256 && 0 <= tm.Hour < 256
    && 0 <= tm.Day < 256 && 0 <= tm.Month <= 13 && 0 <= tm.Year < 256
  }

  /** The seconds that the fields add up to, dates that do not exist included. */
  function RawSeconds(tm: TmElements): int
    requires Stored(tm)
  {
    (DaysBeforeYear(tm.Year) + DaysBeforeMonth(tm.Year, if tm.Month == 0 then 0 else tm.Month - 1)) * SECS_PER_DAY
    + (tm.Day - 1) * SECS_PER_DAY + tm.Hour * SECS_PER_HOUR + tm.Minute * SECS_PER_MIN + tm.Second
  }

  function LeapYearsBefore(y: nat): nat {
    if y == 0 then 0 else LeapYearsBefore(y - 1) + (if LeapYear(y - 1) then 1 else 0)
  }

  lemma {:induction false} DaysAndLeapDays(y: nat)
    ensures DaysBeforeYear(y) == 365 * y + LeapYearsBefore(y)
  {
    if y > 0 {
      DaysAndLeapDays(y - 1);
    }
  }

  lemma {:induction false} WrapAdd(a: int, b: int)
    ensures (a % UINT32 + b) % UINT32 == (a + b) % UINT32
  {
    assert a == UINT32 * (a / UINT32) + a % UINT32;
    var x := a % UINT32 + b;
    assert a + b == UINT32 * (a / UINT32 + x / UINT32) + x % UINT32;
    QuotientUnique(a + b, UINT32, a / UINT32 + x / UINT32, x % UINT32);
  }

  /** seconds += more, where seconds is what is left of sum in 32 bits. */
  method Advance(seconds: int, ghost sum: int, more: int) returns (after: int)
    requires seconds == sum % UINT32
    ensures after == (sum + more) % UINT32
  {
    WrapAdd(sum, more);
    after := (seconds + more) % UINT32;
  }

  /** The year loop: seconds up to the start of a year. */
  method SecondsToYear(year: int) returns (seconds: int)
    requires 0 <= year < 256
    ensures seconds == DaysBeforeYear(year) * SECS_PER_DAY % UINT32
  {
    ghost var sum := year * (SECS_PER_DAY * 365);
    seconds := year * (SECS_PER_DAY * 365) % UINT32;
    var i := 0;
    while i < year
      invariant 0 <= i <= year
      invariant sum == (365 * year + LeapYearsBefore(i)) * SECS_PER_DAY
      invariant seconds == sum % UINT32
    {
      if LeapYear(i) {
        seconds := Advance(seconds, sum, SECS_PER_DAY);
        sum := sum + SECS_PER_DAY;
      }
      i := i + 1;
    }
    DaysAndLeapDays(year);
  }

  /** The month loop: seconds up to the start of a month. */
  method SecondsToMonth(start: int, ghost days: int, year: int, month: int) returns (seconds: int)
    requires 0 <= month <= 13 && start == days * SECS_PER_DAY % UINT32
    ensures seconds == (days + DaysBeforeMonth(year, if month == 0 then 0 else month - 1)) * SECS_PER_DAY % UINT32
  {
    seconds := start;
    ghost var sum := days * SECS_PER_DAY;
    var i := 1;
    while i < month
      invariant 1 <= i && (i <= month || i == 1)
      invariant sum == (days + DaysBeforeMonth(year, i - 1)) * SECS_PER_DAY
      invariant seconds == sum % UINT32
    {
      if i == 2 && LeapYear(year) {
        seconds := Advance(seconds, sum, SECS_PER_DAY * 29);
        sum := sum + SECS_PER_DAY * 29;
      } else {
        seconds := Advance(seconds, sum, SECS_PER_DAY * MONTH_DAYS[i - 1]);
        sum := sum + SECS_PER_DAY * MONTH_DAYS[i - 1];
      }
      i := i + 1;
    }
  }

  method MakeTime(tm: TmElements) returns (t: int)
    requires Stored(tm)
    ensures t == RawSeconds(tm) % UINT32
  {
    var seconds := SecondsToYear(tm.Year);
    seconds := SecondsToMonth(seconds, DaysBeforeYear(tm.Year), tm.Year, tm.Month);
    ghost var sum :=
      (DaysBeforeYear(tm.Year) + DaysBeforeMonth(tm.Year, if tm.Month == 0 then 0 else tm.Month - 1)) * SECS_PER_DAY;
    seconds := Advance(seconds, sum, (tm.Day - 1) * SECS_PER_DAY);
    sum := sum + (tm.Day - 1) * SECS_PER_DAY;
    seconds := Advance(seconds, sum, tm.Hour * SECS_PER_HOUR);
    sum := sum + tm.Hour * SECS_PER_HOUR;
    seconds := Advance(seconds, sum, tm.Minute * SECS_PER_MIN);
    sum := sum + tm.Minute * SECS_PER_MIN;
    t := Advance(seconds, sum, tm.Second);
  }

  // ---------------------------------------------------------------- the two are inverse

  lemma {:induction false} YearsInOrder(y: nat, z: nat)
    requires y < z
    ensures DaysBeforeYear(y) + YearLength(y) <= DaysBeforeYear(z)
    decreases z
  {
    if y < z - 1 {
      YearsInOrder(y, z - 1);
    }
  }

  lemma {:induction false} MonthsInOrder(year: int, m: nat, n: nat)
    requires m < n <= 12
    ensures DaysBeforeMonth(year, m) + MonthLength(year, m) <= DaysBeforeMonth(year, n)
    decreases n
  {
    if m < n - 1 {
      MonthsInOrder(year, m, n - 1);
    }
  }

  lemma {:induction false} DayWithinYear(tm: TmElements)
    requires Valid(tm)
    ensures DaysBeforeYear(tm.Year) <= DayNumber(tm) < DaysBeforeYear(tm.Year) + YearLength(tm.Year)
  {
    var m := tm.Month - 1;
    YearIsTwelveMonths(tm.Year);
    if m < 11 {
      MonthsInOrder(tm.Year, m, 12);
    }
  }

  /** Earlier in the calendar, field by field. */
  predicate Before(a: TmElements, b: TmElements) {
    || a.Year < b.Year
    || (a.Year == b.Year &&
        (a.Month < b.Month || (a.Month == b.Month &&
         (a.Day < b.Day || (a.Day == b.Day &&
          (a.Hour < b.Hour || (a.Hour == b.Hour &&
           (a.Minute < b.Minute || (a.Minute == b.Minute && a.Second < b.Second)))))))))
  }

  lemma {:induction false} DayNumberInOrder(a: TmElements, b: TmElements)
    requires Valid(a) && Valid(b)
    requires a.Year < b.Year || (a.Year == b.Year && (a.Month < b.Month || (a.Month == b.Month && a.Day < b.Day)))
    ensures DayNumber(a) < DayNumber(b)
  {
    DayWithinYear(a);
    DayWithinYear(b);
    if a.Year < b.Year {
      YearsInOrder(a.Year, b.Year);
    } else if a.Month < b.Month {
      MonthsInOrder(a.Year, a.Month - 1, b.Month - 1);
    }
  }

  /** Counting seconds keeps the order of the calendar. */
  lemma {:induction false} SecondsInOrder(a: TmElements, b: TmElements)
    requires Valid(a) && Valid(b)
    ensures Before(a, b) <==> Seconds(a) < Seconds(b)
  {
    if Before(a, b) {
      SecondsLess(a, b);
    } else if Before(b, a) {
      SecondsLess(b, a);
    }
  }

  lemma {:induction false} SecondsLess(a: TmElements, b: TmElements)
    requires Valid(a) && Valid(b) && Before(a, b)
    ensures Seconds(a) < Seconds(b)
  {
    if a.Year == b.Year && a.Month == b.Month && a.Day == b.Day {
    } else {
      DayNumberInOrder(a, b);
    }
  }

  /** A date and time of day are determined by their seconds; only the weekday is free. */
  lemma {:induction false} SecondsDetermine(a: TmElements, b: TmElements)
    requires Valid(a) && Valid(b) && Seconds(a) == Seconds(b)
    ensures a == b.(Wday := a.Wday)
  {
    SecondsInOrder(a, b);
    SecondsInOrder(b, a);
  }

  /** A valid date within the 32-bit range is made without any wrap. */
  lemma {:induction false} ValidIsExact(tm: TmElements)
    requires Valid(tm) && Seconds(tm) < UINT32
    ensures Stored(tm) && RawSeconds(tm) % UINT32 == Seconds(tm)
  {
    QuotientUnique(Seconds(tm), UINT32, 0, Seconds(tm));
    YearsAreLong(tm.Year);
  }

  method BreakThenMake(t: int) returns (u: int)
    requires 0 <= t < UINT32
    ensures u == t
  {
    var tm := BreakTime(t);
    ValidIsExact(tm);
    u := MakeTime(tm);
  }

  /** The last second that 32 bits can count: 7 February 2106, 06:28:15. */
  const LAST: TmElements := TmElements(15, 28, 6, 1, 7, 2, 136)

  lemma {:induction false} FitsIff(tm: TmElements)
    requires Valid(tm)
    ensures Valid(LAST)
    ensures Seconds(tm) < UINT32 <==> !Before(LAST, tm)
  {
    DaysBeforeYearClosed(136);
    assert DaysBeforeMonth(136, 1) == 31;
    assert Seconds(LAST) == UINT32 - 1;
    SecondsInOrder(LAST, tm);
  }

  lemma {:induction false} MadeAndBroken(tm: TmElements, tm': TmElements)
    requires Valid(tm) && tm.Year < 256 && Valid(tm')
    requires Seconds(tm') == RawSeconds(tm) % UINT32 && tm'.Wday == Weekday(Seconds(tm') / SECS_PER_DAY)
    ensures tm' == tm.(Wday := Weekday(DayNumber(tm))) <==> Seconds(tm) < UINT32
  {
    if Seconds(tm) < UINT32 {
      ValidIsExact(tm);
      DayOfSeconds(tm);
      SecondsDetermine(tm', tm);
    } else {
      assert Seconds(tm') < UINT32;
    }
  }

  /** For a date that exists, in a year that a uint8_t holds, making and breaking gives the date back
      with its weekday exactly when the date is not past the range. */
  method MakeThenBreak(tm: TmElements) returns (tm': TmElements)
    requires Valid(tm) && tm.Year < 256
    ensures tm' == tm.(Wday := Weekday(DayNumber(tm))) <==> !Before(LAST, tm)
  {
    var t := MakeTime(tm);
    tm' := BreakTime(t);
    FitsIff(tm);
    MadeAndBroken(tm, tm');
  }

  lemma {:induction false} DayOfSeconds(tm: TmElements)
    requires Valid(tm)
    ensures Seconds(tm) / SECS_PER_DAY == DayNumber(tm)
  {
    QuotientUnique(Seconds(tm), SECS_PER_DAY, DayNumber(tm),
                   tm.Hour * SECS_PER_HOUR + tm.Minute * SECS_PER_MIN + tm.Second);
  }
}
