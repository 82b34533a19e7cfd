/** Calendar-only date arithmetic (web/src/components/calendar-date.ts) on the day numbers of
    section 21.4.1 of ECMA-262. */
module Calendar {
  import opened Basics

  // ----- Day numbers

  predicate IsLeap(y: int) {
    y % 4 == 0 && (y % 100 != 0 || y % 400 == 0)
  }

  function YearLength(y: int): int {
    if IsLeap(y) then 366 else 365
  }

  /** Day number of January 1 of year `y`; day 0 is 1970-01-01. */
  function DayFromYear(y: int): int
    decreases if y >= 1970 then y - 1970 else 1970 - y
  {
    if y == 1970 then 0
    else if y > 1970 then DayFromYear(y - 1) + YearLength(y - 1)
    else DayFromYear(y + 1) - YearLength(y)
  }

  function LeapDays(y: int): int {
    (y - 1969) / 4 - (y - 1901) / 100 + (y - 1601) / 400
  }

  lemma {:induction false} QuartersNext(y: int)
    ensures (y - 1968) / 4 == (y - 1969) / 4 + (if y % 4 == 0 then 1 else 0)
  {
  }

  lemma {:induction false} CenturiesNext(y: int)
    ensures (y - 1900) / 100 == (y - 1901) / 100 + (if y % 100 == 0 then 1 else 0)
  {
  }

  lemma {:induction false} FourCenturiesNext(y: int)
    ensures (y - 1600) / 400 == (y - 1601) / 400 + (if y % 400 == 0 then 1 else 0)
  {
  }

  lemma {:induction false} CenturyIsFourth(y: int)
    ensures y % 100 == 0 ==> y % 4 == 0
  {
  }

  lemma {:induction false} FourCenturiesIsCentury(y: int)
    ensures y % 400 == 0 ==> y % 100 == 0
  {
  }

  lemma {:induction false} LeapDaysNext(y: int)
    ensures LeapDays(y + 1) == LeapDays(y) + (if IsLeap(y) then 1 else 0)
  {
    QuartersNext(y);
    CenturiesNext(y);
    FourCenturiesNext(y);
    CenturyIsFourth(y);
    FourCenturiesIsCentury(y);
    AddUp((y - 1968) / 4, (y - 1969) / 4, (y - 1900) / 100, (y - 1901) / 100, (y - 1600) / 400, (y - 1601) / 400,
          y % 4 == 0, y % 100 == 0, y % 400 == 0);
  }

  lemma {:induction false} AddUp(a: int, b: int, c: int, d: int, e: int, f: int, fourth: bool, century: bool,
                                 fourCenturies: bool)
    requires a == b + (if fourth then 1 else 0) && c == d + (if century then 1 else 0)
    requires e == f + (if fourCenturies then 1 else 0)
    requires (century ==> fourth) && (fourCenturies ==> century)
    ensures a - c + e == b - d + f + (if fourth && (!century || fourCenturies) then 1 else 0)
  {
  }

  /** The closed form that ECMA-262 gives for the day number of a year. */
  lemma {:induction false} DayFromYearFormula(y: int)
    ensures DayFromYear(y) == 365 * (y - 1970) + LeapDays(y)
    decreases if y >= 1970 then y - 1970 else 1970 - y
  {
    if y > 1970 {
      DayFromYearFormula(y - 1);
      LeapDaysNext(y - 1);
    } else if y < 1970 {
      DayFromYearFormula(y + 1);
      LeapDaysNext(y);
    }
  }

  function MonthDays(leap: bool, m: nat): int {
    if m == 1 then (if leap then 29 else 28)
    else if m == 3 || m == 5 || m == 8 || m == 10 then 30
    else 31
  }

  function MonthLength(y: int, m: nat): int {
    MonthDays(IsLeap(y), m)
  }

  /** Days of a year before month `m`, counting months from 0, as ECMA-262 tabulates them. */
  function DaysBefore(leap: bool, m: nat): int {
    (if leap && m > 1 then 1 else 0) +
    if m == 0 then 0 else if m == 1 then 31 else if m == 2 then 59 else if m == 3 then 90
    else if m == 4 then 120 else if m == 5 then 151 else if m == 6 then 181 else if m == 7 then 212
    else if m == 8 then 243 else if m == 9 then 273 else if m == 10 then 304 else if m == 11 then 334 else 365
  }

  /** The table adds up the lengths of the months. */
  lemma {:induction false} DaysBeforeNext(leap: bool, m: nat)
    requires m < 12
    ensures DaysBefore(leap, m + 1) == DaysBefore(leap, m) + MonthDays(leap, m)
  {
  }

  datatype YearMonth = YearMonth(year: int, month: nat)

  /** Months outside 0..11 move the year. */
  function Carry(y: int, m: int): (r: YearMonth)
    ensures r.month < 12
    decreases if m < 0 then 12 - m else m
  {
    if m < 0 then Carry(y - 1, m + 12)
    else if m >= 12 then Carry(y + 1, m - 12)
    else YearMonth(y, m)
  }

  /** `MakeDay`: days outside the month run on into its neighbours. */
  function MakeDay(y: int, m: int, d: int): int {
    var ym := Carry(y, m);
    MonthStart(ym.year, ym.month) + d - 1
  }

  /** Day number of the first of a month. */
  function MonthStart(y: int, m: nat): int {
    DayFromYear(y) + DaysBefore(IsLeap(y), m)
  }

  /** Carrying is floored division by twelve. */
  lemma {:induction false} CarryIsDivision(y: int, m: int)
    ensures Carry(y, m) == YearMonth(y + m / 12, m % 12)
    decreases if m < 0 then 12 - m else m
  {
    if m < 0 {
      CarryIsDivision(y - 1, m + 12);
    } else if m >= 12 {
      CarryIsDivision(y + 1, m - 12);
    }
  }

  /** Within a year no month has to be carried. */
  lemma {:induction false} MakeDayInYear(y: int, m: int, d: int)
    requires 0 <= m < 12
    ensures MakeDay(y, m, d) == MonthStart(y, m) + d - 1
  {
  }

  lemma {:induction false} YearSpan(y: int)
    ensures DayFromYear(y + 1) == DayFromYear(y) + YearLength(y)
  {
  }

  // ----- Dates of day numbers

  /** The year that contains a day, searching upwards from year `y`. */
  function YearFrom(day: int, y: int): (r: int)
    requires DayFromYear(y) <= day
    ensures DayFromYear(r) <= day < DayFromYear(r + 1)
    decreases day - DayFromYear(y)
  {
    if day < DayFromYear(y + 1) then y else YearFrom(day, y + 1)
  }

  lemma {:induction false} EarlyYear(n: int)
    requires n <= 0
    ensures DayFromYear(1970 + n) <= n
    decreases -n
  {
    if n < 0 {
      EarlyYear(n + 1);
    }
  }

  function YearOf(day: int): (r: int)
    ensures DayFromYear(r) <= day < DayFromYear(r + 1)
  {
    EarlyYear(if day < 0 then day else 0);
    YearFrom(day, 1970 + if day < 0 then day else 0)
  }

  /** The month that contains day `d` of a year. */
  function MonthIn(leap: bool, d: int): (m: nat)
    requires 0 <= d < if leap then 366 else 365
    ensures m < 12 && DaysBefore(leap, m) <= d < DaysBefore(leap, m + 1)
  {
    if d < DaysBefore(leap, 1) then 0 else if d < DaysBefore(leap, 2) then 1
    else if d < DaysBefore(leap, 3) then 2 else if d < DaysBefore(leap, 4) then 3
    else if d < DaysBefore(leap, 5) then 4 else if d < DaysBefore(leap, 6) then 5
    else if d < DaysBefore(leap, 7) then 6 else if d < DaysBefore(leap, 8) then 7
    else if d < DaysBefore(leap, 9) then 8 else if d < DaysBefore(leap, 10) then 9
    else if d < DaysBefore(leap, 11) then 10 else 11
  }

  function MonthOf(day: int): (r: nat)
    ensures r < 12
  {
    var y := YearOf(day);
    YearSpan(y);
    MonthIn(IsLeap(y), day - DayFromYear(y))
  }

  function DateOf(day: int): int {
    var y := YearOf(day);
    day - DayFromYear(y) - DaysBefore(IsLeap(y), MonthOf(day)) + 1
  }

  /** A real date of the Gregorian calendar, months from 0. */
  predicate IsDate(y: int, m: int, d: int) {
    0 <= m < 12 && 1 <= d <= MonthLength(y, m)
  }

  lemma {:induction false} YearsAscend(y: int, z: int)
    requires y < z
    ensures DayFromYear(y + 1) <= DayFromYear(z)
    decreases z - y
  {
    if y + 1 < z {
      YearsAscend(y, z - 1);
    }
  }

  lemma {:induction false} YearIs(day: int, y: int)
    requires DayFromYear(y) <= day < DayFromYear(y + 1)
    ensures YearOf(day) == y
  {
    var z := YearOf(day);
    if z < y {
      YearsAscend(z, y);
    } else if y < z {
      YearsAscend(y, z);
    }
  }

  lemma {:induction false} MonthInIs(leap: bool, d: int, m: nat)
    requires m < 12 && DaysBefore(leap, m) <= d < DaysBefore(leap, m + 1)
    ensures 0 <= d < (if leap then 366 else 365) && MonthIn(leap, d) == m
  {
  }

  /** Every day number is the number of the date read from it, and that date is real. */
  lemma {:induction false} DayOfDate(day: int)
    ensures IsDate(YearOf(day), MonthOf(day), DateOf(day))
    ensures MakeDay(YearOf(day), MonthOf(day), DateOf(day)) == day
  {
    var y, m := YearOf(day), MonthOf(day);
    YearSpan(y);
    DaysBeforeNext(IsLeap(y), m);
    MakeDayInYear(y, m, DateOf(day));
  }

  /** Every real date is read back from its day number. */
  lemma {:induction false} DateOfDay(y: int, m: int, d: int)
    requires IsDate(y, m, d)
    ensures var day := MakeDay(y, m, d);
      YearOf(day) == y && MonthOf(day) == m && DateOf(day) == d
  {
    var day := MakeDay(y, m, d);
    MakeDayInYear(y, m, d);
    DaysBeforeNext(IsLeap(y), m);
    MonthInIs(IsLeap(y), DaysBefore(IsLeap(y), m) + d - 1, m);
    YearSpan(y);
    YearIs(day, y);
  }

  // ----- Moving by days and months

  function MoveDays(day: int, days: int): int {
    MakeDay(YearOf(day), MonthOf(day), DateOf(day) + days)
  }

  /** Running on past the end of a month is adding days. */
  lemma {:induction false} MoveDaysAdds(day: int, days: int)
    ensures MoveDays(day, days) == day + days
  {
    DayOfDate(day);
    MakeDayInYear(YearOf(day), MonthOf(day), DateOf(day));
    MakeDayInYear(YearOf(day), MonthOf(day), DateOf(day) + days);
  }

  /** The steps of `moveCalendarMonths`: to the first, to the month after the target, back to the
      target's last day, and to the wanted day of that month. */
  function MoveMonths(day: int, months: int): int {
    EndOfMonthBefore(MonthAfter(MakeDay(YearOf(day), MonthOf(day), 1), months), DateOf(day))
  }

  function MonthAfter(first: int, months: int): int {
    MakeDay(YearOf(first), MonthOf(first) + months + 1, DateOf(first))
  }

  function EndOfMonthBefore(after: int, wanted: int): int {
    var last := MakeDay(YearOf(after), MonthOf(after), 0);
    MakeDay(YearOf(last), MonthOf(last), Min(wanted, DateOf(last)))
  }

  lemma {:induction false} NextMonthStart(y: int, m: nat)
    requires m < 12
    ensures MonthStart(y, m) + MonthLength(y, m) == if m == 11 then MonthStart(y + 1, 0) else MonthStart(y, m + 1)
  {
    DaysBeforeNext(IsLeap(y), m);
    YearSpan(y);
  }

  lemma {:induction false} MonthLengthBounds(y: int, m: nat)
    ensures 28 <= MonthLength(y, m) <= 31
  {
  }

  function NextMonth(ym: YearMonth): YearMonth {
    if ym.month == 11 then YearMonth(ym.year + 1, 0) else YearMonth(ym.year, ym.month + 1)
  }

  lemma {:induction false} CarryNext(y: int, m: int)
    ensures Carry(y, m + 1) == NextMonth(Carry(y, m))
  {
    CarryIsDivision(y, m);
    CarryIsDivision(y, m + 1);
  }

  /** The first of a month reads back. */
  lemma {:induction false} FirstOfMonth(y: int, m: nat)
    requires m < 12
    ensures var first := MonthStart(y, m); YearOf(first) == y && MonthOf(first) == m && DateOf(first) == 1
  {
    MonthLengthBounds(y, m);
    MakeDayInYear(y, m, 1);
    DateOfDay(y, m, 1);
  }

  lemma {:induction false} DayBeforeNext(ym: YearMonth, z: int, n: nat)
    requires ym.month < 12 && NextMonth(ym) == YearMonth(z, n)
    ensures MakeDay(z, n, 0) == MakeDay(ym.year, ym.month, MonthLength(ym.year, ym.month))
  {
    MakeDayInYear(z, n, 0);
    MakeDayInYear(ym.year, ym.month, MonthLength(ym.year, ym.month));
    NextMonthStart(ym.year, ym.month);
  }

  /** Day 0 of the month after a given one is the last day of the given one. */
  lemma {:induction false} DayZero(ym: YearMonth, after: int)
    requires ym.month < 12 && after == MonthStart(NextMonth(ym).year, NextMonth(ym).month)
    ensures MakeDay(YearOf(after), MonthOf(after), 0) == MakeDay(ym.year, ym.month, MonthLength(ym.year, ym.month))
  {
    FirstOfMonth(NextMonth(ym).year, NextMonth(ym).month);
    DayBeforeNext(ym, NextMonth(ym).year, NextMonth(ym).month);
  }

  lemma {:induction false} EndOfMonthLands(ym: YearMonth, after: int, wanted: int)
    requires ym.month < 12 && after == MonthStart(NextMonth(ym).year, NextMonth(ym).month)
    ensures EndOfMonthBefore(after, wanted) == MakeDay(ym.year, ym.month, Min(wanted, MonthLength(ym.year, ym.month)))
  {
    DayZero(ym, after);
    MonthLengthBounds(ym.year, ym.month);
    DateOfDay(ym.year, ym.month, MonthLength(ym.year, ym.month));
  }

  lemma {:induction false} MonthAfterIs(y: int, m: nat, months: int)
    requires m < 12
    ensures var next := NextMonth(Carry(y, m + months));
      MonthAfter(MakeDay(y, m, 1), months) == MonthStart(next.year, next.month)
  {
    MonthLengthBounds(y, m);
    DateOfDay(y, m, 1);
    CarryNext(y, m + months);
  }

  lemma {:induction false} MoveMonthsIs(day: int, months: int, ym: YearMonth)
    requires ym == Carry(YearOf(day), MonthOf(day) + months)
    ensures MoveMonths(day, months) == MakeDay(ym.year, ym.month, Min(DateOf(day), MonthLength(ym.year, ym.month)))
  {
    MonthAfterIs(YearOf(day), MonthOf(day), months);
    EndOfMonthLands(ym, MonthStart(NextMonth(ym).year, NextMonth(ym).month), DateOf(day));
  }

  lemma {:induction false} CappedDay(day: int, y: int, m: nat)
    requires m < 12
    ensures IsDate(y, m, Min(DateOf(day), MonthLength(y, m)))
  {
    DayOfDate(day);
    MonthLengthBounds(y, m);
  }

  predicate ReadsAs(day: int, y: int, m: nat, d: int) {
    YearOf(day) == y && MonthOf(day) == m && DateOf(day) == d
  }

  lemma {:induction false} LandsOn(moved: int, ym: YearMonth, d: int)
    requires IsDate(ym.year, ym.month, d) && moved == MakeDay(ym.year, ym.month, d)
    ensures ReadsAs(moved, ym.year, ym.month, d)
  {
    DateOfDay(ym.year, ym.month, d);
  }

  /** Moving by months lands in the shifted month, on the same day or its last one. */
  lemma {:induction false} MoveMonthsLands(day: int, months: int)
    ensures var t := MonthOf(day) + months;
      var y, m := YearOf(day) + t / 12, t % 12;
      ReadsAs(MoveMonths(day, months), y, m, Min(DateOf(day), MonthLength(y, m)))
  {
    var t := MonthOf(day) + months;
    var ym := YearMonth(YearOf(day) + t / 12, t % 12);
    CarryIsDivision(YearOf(day), t);
    CappedDay(day, ym.year, ym.month);
    MoveMonthsIs(day, months, ym);
    LandsOn(MoveMonths(day, months), ym, Min(DateOf(day), MonthLength(ym.year, ym.month)));
  }
}
