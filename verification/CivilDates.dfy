/**
 Dates as civil days, and the date arithmetic of the datepicker: `iso8601Week` (js/jquery-ui.js:8645-8656),
 `_getDaysInMonth` (js/jquery-ui.js:9481-9483) and the day-of-year loop of `parseDate` (js/jquery-ui.js:8814-8830).
 */
module CivilDates {
  import Arithmetic

  datatype Date = Date(year: int, month: int, day: int)

  // ----- the calendar

  predicate Leap(y: int) {
    y % 4 == 0 && (y % 100 != 0 || y % 400 == 0)
  }

  function DaysIn(y: int, m: int): (n: nat)
    ensures 28 <= n <= 31
  {
    if m == 2 then (if Leap(y) then 29 else 28)
    else if m == 4 || m == 6 || m == 9 || m == 11 then 30
    else 31
  }

  predicate Valid(d: Date) {
    1 <= d.month <= 12 && 1 <= d.day <= DaysIn(d.year, d.month)
  }

  function YearLength(y: int): nat {
    if Leap(y) then 366 else 365
  }

  /** The days of the year before month `m`. */
  function Before(y: int, m: int): (n: nat)
    decreases m
  {
    if m <= 1 then 0 else Before(y, m - 1) + DaysIn(y, m - 1)
  }

  function DayOfYear(d: Date): int {
    Before(d.year, d.month) + d.day
  }

  /** The days before year `y`, from a fixed day. */
  function YearStart(y: int): int {
    365 * y + (y - 1) / 4 - (y - 1) / 100 + (y - 1) / 400
  }

  /** A date as a number of days: `getTime` in days. */
  function Days(d: Date): int {
    YearStart(d.year) + DayOfYear(d)
  }

  lemma LeapDay(y: int, k: int)
    requires k > 0
    ensures y / k - (y - 1) / k == if y % k == 0 then 1 else 0
  {
    var q, r := y / k, y % k;
    assert y == q * k + r;
    if r == 0 {
      assert y - 1 == (q - 1) * k + (k - 1) by {
        assert (q - 1) * k == q * k - k;
      }
      Arithmetic.QuotientUnique(y - 1, q - 1, k - 1, k);
    } else {
      Arithmetic.QuotientUnique(y - 1, q, r - 1, k);
    }
  }

  lemma NextYear(y: int)
    ensures YearStart(y + 1) == YearStart(y) + YearLength(y)
  {
    LeapDay(y, 4);
    LeapDay(y, 100);
    LeapDay(y, 400);
  }

  lemma MonthsFill(y: int)
    ensures Before(y, 12) + DaysIn(y, 12) == YearLength(y)
  {
    assert Before(y, 3) == Before(y, 2) + DaysIn(y, 2) == 31 + DaysIn(y, 2);
    assert Before(y, 5) == Before(y, 3) + 61;
    assert Before(y, 7) == Before(y, 5) + 61;
    assert Before(y, 9) == Before(y, 7) + 62;
    assert Before(y, 11) == Before(y, 9) + 61;
  }

  lemma {:induction false} BeforeGrows(y: int, m: int, n: int)
    requires 1 <= m <= n
    ensures Before(y, m) + (if m < n then DaysIn(y, m) else 0) <= Before(y, n)
    decreases n
  {
    if m < n {
      BeforeGrows(y, m, n - 1);
    }
  }

  lemma InYear(d: Date)
    requires Valid(d)
    ensures 1 <= DayOfYear(d) <= YearLength(d.year)
  {
    MonthsFill(d.year);
    BeforeGrows(d.year, d.month, 12);
  }

  lemma {:induction false} YearsGrow(y: int, z: int)
    requires y <= z
    ensures YearStart(y) <= YearStart(z)
    decreases z - y
  {
    if y < z {
      YearsGrow(y, z - 1);
      NextYear(z - 1);
    }
  }

  /** Different dates are different days. */
  lemma DaysInjective(c: Date, d: Date)
    requires Valid(c) && Valid(d) && Days(c) == Days(d)
    ensures c == d
  {
    hide YearStart, YearLength, DaysIn, Before;
    InYear(c);
    InYear(d);
    NextYear(c.year);
    NextYear(d.year);
    if c.year < d.year {
      YearsGrow(c.year + 1, d.year);
    } else if d.year < c.year {
      YearsGrow(d.year + 1, c.year);
    } else if c.month < d.month {
      BeforeGrows(c.year, c.month, d.month);
    } else if d.month < c.month {
      BeforeGrows(c.year, d.month, c.month);
    }
  }

  // ----- moving by days

  function Next(d: Date): Date {
    if d.day < DaysIn(d.year, d.month) then d.(day := d.day + 1)
    else if d.month < 12 then Date(d.year, d.month + 1, 1)
    else Date(d.year + 1, 1, 1)
  }

  function Previous(d: Date): Date {
    if d.day > 1 then d.(day := d.day - 1)
    else if d.month > 1 then Date(d.year, d.month - 1, DaysIn(d.year, d.month - 1))
    else Date(d.year - 1, 12, 31)
  }

  lemma NextDay(d: Date)
    requires Valid(d)
    ensures Valid(Next(d)) && Days(Next(d)) == Days(d) + 1
  {
    hide YearStart, Leap;
    NextYear(d.year);
    MonthsFill(d.year);
  }

  lemma PreviousDay(d: Date)
    requires Valid(d)
    ensures Valid(Previous(d)) && Days(Previous(d)) == Days(d) - 1
  {
    assert Valid(Previous(d)) && Next(Previous(d)) == d;
    hide Days, Next, Previous, Valid;
    NextDay(Previous(d));
  }

  function Plus(d: Date, k: int): Date
    decreases if k < 0 then -k else k
  {
    if k == 0 then d else if k > 0 then Plus(Next(d), k - 1) else Plus(Previous(d), k + 1)
  }

  lemma {:induction false} PlusDays(d: Date, k: int)
    requires Valid(d)
    ensures Valid(Plus(d, k)) && Days(Plus(d, k)) == Days(d) + k
    decreases if k < 0 then -k else k
  {
    hide Days, Next, Previous;
    if k != 0 {
      NextDay(d);
      PreviousDay(d);
      PlusDays(if k > 0 then Next(d) else Previous(d), if k > 0 then k - 1 else k + 1);
    }
  }

  // ----- JavaScript's dates

  /** `new Date(y, ...)` takes the years 0 to 99 as 1900 to 1999. */
  function YearArgument(y: int): int {
    if 0 <= y <= 99 then 1900 + y else y
  }

  /** Month numbers from 0, and day numbers past either end of a month, carry over. */
  function MonthStart(y: int, month: int): Date {
    Date(y + month / 12, month % 12 + 1, 1)
  }

  /** `new Date(y, month, day)` */
  function NewDate(y: int, month: int, day: int): Date {
    Plus(MonthStart(YearArgument(y), month), day - 1)
  }

  /** `setDate` */
  function SetDate(d: Date, day: int): Date {
    Plus(Date(d.year, d.month, 1), day - 1)
  }

  lemma NewDateIs(y: int, month: int, day: int, d: Date)
    requires Valid(d) && Days(d) == Days(MonthStart(YearArgument(y), month)) + day - 1
    ensures NewDate(y, month, day) == d
  {
    hide Days;
    var s := MonthStart(YearArgument(y), month);
    PlusDays(s, day - 1);
    DaysInjective(NewDate(y, month, day), d);
  }

  lemma SetDateIs(c: Date, day: int, d: Date)
    requires Valid(c) && Valid(d) && Days(d) == Days(c) - c.day + day
    ensures SetDate(c, day) == d
  {
    hide YearStart, DaysIn, Before, Plus;
    PlusDays(Date(c.year, c.month, 1), day - 1);
    DaysInjective(SetDate(c, day), d);
  }

  /** `_getDaysInMonth` */
  function GetDaysInMonth(year: int, month: int): int {
    32 - NewDate(year, month, 32).day
  }

  /** The 32nd of a month falls on the day of the next month that tells the length of this one. */
  lemma DaysInMonthRight(year: int, month: int)
    ensures GetDaysInMonth(year, month) == DaysIn(YearArgument(year) + month / 12, month % 12 + 1)
  {
    hide Days, Plus, DaysIn, Valid;
    var s := MonthStart(YearArgument(year), month);
    var d := In32Days(s);
    NewDateIs(year, month, 32, d);
  }

  /** The date 31 days after the first of a month. */
  lemma In32Days(s: Date) returns (d: Date)
    requires 1 <= s.month <= 12 && s.day == 1
    ensures Valid(d) && Days(d) == Days(s) + 31 && d.day == 32 - DaysIn(s.year, s.month)
  {
    hide YearStart;
    var n := DaysIn(s.year, s.month);
    if s.month < 12 {
      d := Date(s.year, s.month + 1, 32 - n);
      hide Leap;
    } else {
      d := Date(s.year + 1, 1, 32 - n);
      NextYear(s.year);
      MonthsFill(s.year);
      hide Leap;
    }
  }

  // ----- weeks

  /** `getDay`: 0 for Sunday. */
  function Weekday(d: Date): (w: nat)
    ensures w < 7
  {
    (Days(d) + 6) % 7
  }

  /** The days before month `m` in a year without a leap day. */
  const MONTHS: seq<int> := [0, 31, 59, 90, 120, 151, 181, 212, 243, 273, 304, 334]

  lemma MonthDays(y: int, m: int)
    requires 1 <= m <= 12
    ensures Before(y, m) == MONTHS[m - 1] + if m > 2 && y % 4 == 0 && (y % 100 != 0 || y % 400 == 0) then 1 else 0
  {
    assert Before(y, 3) == Before(y, 2) + DaysIn(y, 2) == 31 + DaysIn(y, 2);
    assert Before(y, 5) == Before(y, 3) + 61 && Before(y, 4) == Before(y, 3) + 31;
    assert Before(y, 7) == Before(y, 5) + 61 && Before(y, 6) == Before(y, 5) + 31;
    assert Before(y, 9) == Before(y, 7) + 62 && Before(y, 8) == Before(y, 7) + 31;
    assert Before(y, 11) == Before(y, 9) + 61 && Before(y, 10) == Before(y, 9) + 30;
    assert Before(y, 12) == Before(y, 11) + 30;
  }

  /** Sections 21.4.1.3 and 21.4.1.4 of ECMA-262: the days from 1 January 1970 to a date. */
  lemma DayNumber(d: Date)
    requires Valid(d)
    ensures Days(d) - Days(Date(1970, 1, 1)) ==
            365 * (d.year - 1970) + (d.year - 1969) / 4 - (d.year - 1901) / 100 + (d.year - 1601) / 400 +
            MONTHS[d.month - 1] + (if d.month > 2 && d.year % 4 == 0 && (d.year % 100 != 0 || d.year % 400 == 0) then 1 else 0) +
            d.day - 1
  {
    MonthDays(d.year, d.month);
    FirstDay();
    YearsFrom1970(d.year);
    hide Before, MONTHS, YearStart, Valid;
  }

  lemma FirstDay()
    ensures Days(Date(1970, 1, 1)) == 719528
  {
  }

  lemma YearsFrom1970(y: int)
    ensures YearStart(y) == 719527 + 365 * (y - 1970) + (y - 1969) / 4 - (y - 1901) / 100 + (y - 1601) / 400
  {
    assert (y - 1) / 4 == (y - 1969) / 4 + 492;
    assert (y - 1) / 100 == (y - 1901) / 100 + 19;
    assert (y - 1) / 400 == (y - 1601) / 400 + 4;
  }

  /** Section 21.4.1.6 of ECMA-262: 1 January 1970 was a Thursday. */
  lemma WeekdayFrom1970(n: int)
    ensures Weekday(Plus(Date(1970, 1, 1), n)) == (4 + n) % 7
  {
    hide Plus;
    PlusDays(Date(1970, 1, 1), n);
    FirstDay();
    hide Days;
    Arithmetic.QuotientShift(n + 4, 102790, 7);
  }

  /** 1 for Monday to 7 for Sunday. */
  function IsoDay(d: Date): (w: nat)
    ensures 1 <= w <= 7
  {
    if Weekday(d) == 0 then 7 else Weekday(d)
  }

  /** The Thursday of the week that starts on Monday. */
  function Thursday(d: Date): Date {
    Plus(d, 4 - IsoDay(d))
  }

  function Week(d: Date): int {
    (DayOfYear(Thursday(d)) - 1) / 7 + 1
  }

  /** `iso8601Week` */
  method Iso8601Week(date: Date) returns (week: int)
    requires Valid(date)
    ensures week == Week(date)
  {
    hide Days, DayOfYear;
    var checkDate := date;
    var day := Weekday(checkDate);
    PlusDays(date, 4 - IsoDay(date));
    SetDateIs(checkDate, checkDate.day + 4 - (if day == 0 then 7 else day), Thursday(date));
    checkDate := SetDate(checkDate, checkDate.day + 4 - (if day == 0 then 7 else day));
    var time := Days(checkDate);
    checkDate := Date(checkDate.year, 1, checkDate.day);
    checkDate := SetDate(checkDate, 1);
    week := (time - Days(checkDate)) / 7 + 1;
    SinceNewYear(Thursday(date));
  }

  lemma SinceNewYear(d: Date)
    ensures SetDate(Date(d.year, 1, d.day), 1) == Date(d.year, 1, 1)
    ensures Days(d) - Days(Date(d.year, 1, 1)) == DayOfYear(d) - 1
  {
    hide YearStart;
  }

  /** The days from Monday to Sunday. */
  function Monday(d: Date): int {
    Days(d) - IsoDay(d) + 1
  }

  lemma ThursdayOfWeek(d: Date)
    requires Valid(d)
    ensures Valid(Thursday(d)) && Days(Thursday(d)) == Monday(d) + 3
    ensures IsoDay(Thursday(d)) == 4 && Monday(d) % 7 == 2
  {
    hide Days, Plus, Valid;
    PlusDays(d, 4 - IsoDay(d));
    WeekArithmetic(Days(d), IsoDay(d));
  }

  lemma WeekArithmetic(n: int, w: int)
    requires 1 <= w <= 7 && (n + 6) % 7 == w % 7
    ensures (n + (4 - w) + 6) % 7 == 4 && (n - w + 1) % 7 == 2
  {
    var q := (n + 6) / 7 - if w == 7 then 1 else 0;
    assert n + 6 == 7 * q + w;
    Arithmetic.QuotientUnique(n + (4 - w) + 6, q, 4, 7);
    Arithmetic.QuotientUnique(n - w + 1, q - 1, 2, 7);
  }

  /** The number is the same on every day from Monday to Sunday. */
  lemma WeekConstant(c: Date, d: Date)
    requires Valid(c) && Valid(d) && Monday(c) == Monday(d)
    ensures Week(c) == Week(d)
  {
    hide Days, Monday, Thursday;
    ThursdayOfWeek(c);
    ThursdayOfWeek(d);
    DaysInjective(Thursday(c), Thursday(d));
  }

  predicate FirstThursday(d: Date) {
    Valid(d) && d.month == 1 && d.day <= 7 && IsoDay(d) == 4
  }

  /** Every year has its first Thursday. */
  lemma FirstThursdayOf(y: int) returns (d: Date)
    ensures FirstThursday(d) && d.year == y
  {
    hide YearStart;
    var n := Days(Date(y, 1, 1)) + 6;
    d := Date(y, 1, 1 + (4 - n % 7 + 7) % 7);
    var q, r := n / 7, n % 7;
    assert n == 7 * q + r;
    Arithmetic.QuotientUnique(Days(d) + 6, if r <= 4 then q else q + 1, 4, 7);
  }

  lemma SameWeekday(m: int, n: int)
    requires (m + 6) % 7 == (n + 6) % 7
    ensures n - m == 7 * ((n + 6) / 7 - (m + 6) / 7)
  {
  }

  lemma WeekdayOfIsoDay(d: Date)
    requires IsoDay(d) == 4
    ensures (Days(d) + 6) % 7 == 4
  {
  }

  /**
   Section 2.2.10 of ISO 8601:2004: the first week of a year is the one with its first Thursday, and week `n` is `n - 1`
   weeks later; the year meant is that of the week's own Thursday.
   */
  lemma NumberedByThursdays(d: Date, first: Date)
    requires Valid(d) && FirstThursday(first) && first.year == Thursday(d).year
    ensures Monday(d) == Monday(first) + 7 * (Week(d) - 1)
    ensures Week(d) >= 1 && Week(first) == 1
  {
    hide YearStart, Plus;
    var t := Thursday(d);
    ThursdayOfWeek(d);
    ThursdayOfWeek(first);
    InYear(t);
    WeekdayOfIsoDay(t);
    WeekdayOfIsoDay(first);
    SameWeekday(Days(first), Days(t));
    ThursdayItself(first);
    WeekFromThursdays(DayOfYear(t), first.day, (Days(t) + 6) / 7 - (Days(first) + 6) / 7);
  }

  lemma ThursdayItself(d: Date)
    requires IsoDay(d) == 4
    ensures Thursday(d) == d
  {
  }

  lemma WeekFromThursdays(n: int, day: int, k: int)
    requires 1 <= day <= 7 && n >= 1 && n - day == 7 * k
    ensures (n - 1) / 7 == k >= 0
  {
  }

  // ----- the day of the year

  /** The loop of `parseDate`: whole months are taken off while more days are left than the month has. */
  function SplitDayOfYear(year: int, month: nat, day: nat): (r: (nat, nat))
    requires month > 0
    ensures r.0 > 0
    decreases day
  {
    DaysInMonthRight(year, month - 1);
    var dim := GetDaysInMonth(year, month - 1);
    if day <= dim then (month, day) else SplitDayOfYear(year, month + 1, day - dim)
  }

  method DayOfYearLoop(year: int, doy: nat) returns (month: nat, day: nat)
    ensures (month, day) == SplitDayOfYear(year, 1, doy)
  {
    hide GetDaysInMonth;
    month, day := 1, doy;
    DaysInMonthRight(year, 0);
    var dim := GetDaysInMonth(year, 0);
    while day > dim
      invariant month > 0 && dim == GetDaysInMonth(year, month - 1)
      invariant SplitDayOfYear(year, month, day) == SplitDayOfYear(year, 1, doy)
      decreases day
    {
      DaysInMonthRight(year, month - 1);
      month := month + 1;
      day := day - dim;
      dim := GetDaysInMonth(year, month - 1);
    }
  }

  /** The closing test of `parseDate`: the date made from the fields has those fields. */
  predicate Confirmed(year: int, month: int, day: int) {
    NewDate(year, month - 1, day) == Date(year, month, day)
  }

  /** A year that `new Date` takes as it is. */
  predicate PlainYear(y: int) {
    YearArgument(y) == y
  }

  lemma ConfirmedIsValid(year: int, month: int, day: int)
    requires PlainYear(year)
    ensures Confirmed(year, month, day) <==> Valid(Date(year, month, day))
  {
    hide Days, Plus;
    PlusDays(MonthStart(year, month - 1), day - 1);
    if Valid(Date(year, month, day)) {
      assert MonthStart(year, month - 1) == Date(year, month, 1);
      FirstOfMonth(year, month, day);
      NewDateIs(year, month - 1, day, Date(year, month, day));
    }
  }

  lemma FirstOfMonth(year: int, month: int, day: int)
    ensures Days(Date(year, month, day)) == Days(Date(year, month, 1)) + day - 1
  {
  }

  lemma {:induction false} SplitFrom(year: int, month: nat, day: nat)
    requires PlainYear(year) && 1 <= month <= 12 && Before(year, month) + day <= YearLength(year)
    ensures var (m, d) := SplitDayOfYear(year, month, day);
            && month <= m <= 12 && Before(year, m) + d == Before(year, month) + day && d <= DaysIn(year, m)
            && (day > 0 ==> d > 0) && (day == 0 ==> m == month && d == 0)
    decreases day
  {
    hide Leap, YearLength, GetDaysInMonth, DaysIn;
    DaysInMonthRight(year, month - 1);
    if day > GetDaysInMonth(year, month - 1) {
      MonthsFill(year);
      assert Before(year, month + 1) == Before(year, month) + DaysIn(year, month);
      SplitFrom(year, month + 1, day - GetDaysInMonth(year, month - 1));
    }
  }

  /** Too large a number leaves a month past December. */
  lemma {:induction false} SplitBeyond(year: int, month: nat, day: nat)
    requires PlainYear(year) && 1 <= month
    requires month <= 12 ==> Before(year, month) + day > YearLength(year)
    ensures SplitDayOfYear(year, month, day).0 > 12
    decreases day
  {
    hide Leap, YearLength, GetDaysInMonth;
    if month <= 12 {
      DaysInMonthRight(year, month - 1);
      MonthsFill(year);
      BeforeGrows(year, month, 12);
      SplitBeyond(year, month + 1, day - GetDaysInMonth(year, month - 1));
    } else {
      SplitMonths(year, month, day);
    }
  }

  lemma {:induction false} SplitMonths(year: int, month: nat, day: nat)
    requires month > 0
    ensures SplitDayOfYear(year, month, day).0 >= month
    decreases day
  {
    hide GetDaysInMonth;
    DaysInMonthRight(year, month - 1);
    var dim := GetDaysInMonth(year, month - 1);
    if day > dim {
      SplitMonths(year, month + 1, day - dim);
    }
  }

  /**
   The loop accepts exactly the days that the year has, and gives the date with that day of the year; 0 and numbers past
   the end of the year are rejected by the closing test.
   */
  lemma DayOfYearInverts(year: int, doy: nat)
    requires PlainYear(year)
    ensures var (m, d) := SplitDayOfYear(year, 1, doy);
            && (Confirmed(year, m, d) <==> 1 <= doy <= YearLength(year))
            && (Confirmed(year, m, d) ==> Valid(Date(year, m, d)) && DayOfYear(Date(year, m, d)) == doy)
  {
    hide Leap, YearLength, DaysIn, Confirmed;
    var (m, d) := SplitDayOfYear(year, 1, doy);
    ConfirmedIsValid(year, m, d);
    if doy <= YearLength(year) {
      SplitFrom(year, 1, doy);
    } else {
      SplitBeyond(year, 1, doy);
    }
  }

  /** The day of the year that `formatDate` prints, read back by the loop, gives the date again. */
  lemma PrintedDayOfYear(date: Date)
    requires Valid(date) && PlainYear(date.year)
    ensures NewDate(date.year, date.month - 1, date.day) == date
    ensures Days(NewDate(date.year, date.month - 1, date.day)) - Days(NewDate(date.year, 0, 0)) == DayOfYear(date)
    ensures DayOfYear(date) > 0 && SplitDayOfYear(date.year, 1, DayOfYear(date)) == (date.month, date.day)
  {
    hide YearStart, Leap, YearLength, DaysIn, Plus;
    InYear(date);
    ConfirmedIsValid(date.year, date.month, date.day);
    PlusDays(MonthStart(date.year, 0), -1);
    DayOfYearInverts(date.year, DayOfYear(date));
    var (m, d) := SplitDayOfYear(date.year, 1, DayOfYear(date));
    DaysInjective(Date(date.year, m, d), date);
  }
}
