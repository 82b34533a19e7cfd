/** Dates as YYYY-MM-DD text (web/src/components/calendar-date.ts). */
module CalendarText {
  import opened Basics
  import opened Text
  import opened Calendar

  predicate AllDigits(s: string) {
    forall i :: 0 <= i < |s| ==> IsDigit(s[i])
  }

  /** `/^\d{4}-\d{2}-\d{2}$/` */
  predicate IsPattern(s: string) {
    && |s| == 10 && s[4] == '-' && s[7] == '-'
    && AllDigits(s[..4]) && AllDigits(s[5..7]) && AllDigits(s[8..])
  }

  /** JavaScript's `Number` of a text of digits. */
  function Number(s: string): nat
    requires AllDigits(s)
  {
    if s == [] then 0 else 10 * Number(s[..|s| - 1]) + (s[|s| - 1] as int - '0' as int)
  }

  function Pad(s: string, n: nat): string
    decreases n - |s|
  {
    if |s| >= n then s else Pad("0" + s, n)
  }

  function Numeral(n: int): string {
    if n < 0 then "-" + Decimal(-n) else Decimal(n)
  }

  function CalendarDate(iso: string): int
    requires IsPattern(iso)
  {
    MakeDay(Number(iso[..4]), Number(iso[5..7]) - 1, Number(iso[8..]))
  }

  function CalendarISO(day: int): string {
    Pad(Numeral(YearOf(day)), 4) + "-" + Pad(Numeral(MonthOf(day) + 1), 2) + "-" + Pad(Numeral(DateOf(day)), 2)
  }

  /** The final check of `parseCalendarInput`. */
  predicate Accepts(iso: string) {
    IsPattern(iso) && iso[..4] != "0000" && CalendarISO(CalendarDate(iso)) == iso
  }

  // ----- Padded numerals

  lemma {:induction false} NumberOfDecimal(n: nat)
    ensures AllDigits(Decimal(n)) && Number(Decimal(n)) == n
  {
    if n >= 10 {
      NumberOfDecimal(n / 10);
      assert Decimal(n)[..|Decimal(n)| - 1] == Decimal(n / 10);
    }
  }

  lemma {:induction false} LeadingZero(s: string)
    requires AllDigits(s)
    ensures AllDigits("0" + s) && Number("0" + s) == Number(s)
  {
    if s != [] {
      LeadingZero(s[..|s| - 1]);
      assert ("0" + s)[..|s|] == "0" + s[..|s| - 1];
    } else {
      assert ("0" + s)[..0] == [];
    }
  }

  lemma {:induction false} PadKeepsNumber(s: string, n: nat)
    requires AllDigits(s) && |s| <= n
    ensures |Pad(s, n)| == n && AllDigits(Pad(s, n)) && Number(Pad(s, n)) == Number(s)
    decreases n - |s|
  {
    if |s| < n {
      LeadingZero(s);
      PadKeepsNumber("0" + s, n);
    }
  }

  lemma {:induction false} SameNumberSameDigits(s: string, t: string)
    requires AllDigits(s) && AllDigits(t) && |s| == |t| && Number(s) == Number(t)
    ensures s == t
  {
    if s != [] {
      var n := |s| - 1;
      SameNumberSameDigits(s[..n], t[..n]);
      assert s == s[..n] + [s[n]] && t == t[..n] + [t[n]];
    }
  }

  lemma {:induction false} DecimalLength(n: nat)
    ensures |Decimal(n)| <= 2 <==> n < 100
    ensures |Decimal(n)| <= 4 <==> n < 10000
  {
    if n >= 10 {
      assert |Decimal(n)| == |Decimal(n / 10)| + 1;
      if n >= 100 {
        assert |Decimal(n / 10)| == |Decimal(n / 10 / 10)| + 1;
        if n >= 1000 {
          assert |Decimal(n / 10 / 10)| == |Decimal(n / 10 / 10 / 10)| + 1;
        }
      }
    }
  }

  lemma {:induction false} PaddedText(n: nat, width: nat)
    requires (width == 2 && n < 100) || (width == 4 && n < 10000)
    ensures |Pad(Numeral(n), width)| == width && AllDigits(Pad(Numeral(n), width))
      && Number(Pad(Numeral(n), width)) == n
  {
    NumberOfDecimal(n);
    DecimalLength(n);
    PadKeepsNumber(Decimal(n), width);
  }

  /** Text outside the range of four digits is never four digits. */
  lemma {:induction false} PadLength(s: string, n: nat)
    ensures |Pad(s, n)| == if |s| >= n then |s| else n
    ensures |Pad(s, n)| >= |s| && Pad(s, n)[|Pad(s, n)| - |s|..] == s
    decreases n - |s|
  {
    if |s| < n {
      PadLength("0" + s, n);
      var p := Pad("0" + s, n);
      assert p[|p| - |s|..] == p[|p| - |s| - 1..][1..];
    }
  }

  lemma {:induction false} NegativeHasDash(n: int)
    requires n < 0
    ensures '-' in Pad(Numeral(n), 4)
  {
    var s := Numeral(n);
    PadLength(s, 4);
    assert s[0] == '-';
    assert Pad(s, 4)[|Pad(s, 4)| - |s|..][0] == '-';
  }

  // ----- Printing and reading are inverse

  lemma {:induction false} JoinFields(a: string, b: string, c: string)
    requires |a| == 4 && |b| == 2 && |c| == 2
    ensures var s := a + "-" + b + "-" + c;
      |s| == 10 && s[4] == '-' && s[7] == '-' && s[..4] == a && s[5..7] == b && s[8..] == c
  {
  }

  lemma {:induction false} PrintedFields(day: int, iso: string)
    requires 0 <= YearOf(day) <= 9999 && CalendarISO(day) == iso
    ensures IsPattern(iso) && Number(iso[..4]) == YearOf(day)
    ensures Number(iso[5..7]) == MonthOf(day) + 1 && Number(iso[8..]) == DateOf(day)
  {
    DayOfDate(day);
    MonthLengthBounds(YearOf(day), MonthOf(day));
    PaddedText(YearOf(day), 4);
    PaddedText(MonthOf(day) + 1, 2);
    PaddedText(DateOf(day), 2);
    JoinFields(Pad(Numeral(YearOf(day)), 4), Pad(Numeral(MonthOf(day) + 1), 2), Pad(Numeral(DateOf(day)), 2));
  }

  lemma {:induction false} PrintedDate(day: int, iso: string, y: int, m: nat, d: int)
    requires ReadsAs(day, y, m, d) && 0 <= y <= 9999 && CalendarISO(day) == iso
    ensures IsPattern(iso) && Number(iso[..4]) == y && Number(iso[5..7]) == m + 1 && Number(iso[8..]) == d
  {
    PrintedFields(day, iso);
  }

  /** Day numbers of the years 0 to 9999 print as the pattern and read back. */
  lemma {:induction false} PrintRead(day: int)
    requires 0 <= YearOf(day) <= 9999
    ensures IsPattern(CalendarISO(day)) && CalendarDate(CalendarISO(day)) == day
    ensures Number(CalendarISO(day)[..4]) == YearOf(day)
  {
    DayOfDate(day);
    PrintedFields(day, CalendarISO(day));
  }

  lemma {:induction false} SplitFields(s: string)
    requires IsPattern(s)
    ensures s == s[..4] + "-" + s[5..7] + "-" + s[8..]
  {
  }

  /** A real date prints as the text it was read from. */
  lemma {:induction false} ReadPrint(iso: string)
    requires IsPattern(iso) && IsDate(Number(iso[..4]), Number(iso[5..7]) - 1, Number(iso[8..]))
    requires Number(iso[..4]) <= 9999
    ensures CalendarISO(CalendarDate(iso)) == iso
  {
    var y, m, d := Number(iso[..4]), Number(iso[5..7]), Number(iso[8..]);
    DateOfDay(y, m - 1, d);
    MonthLengthBounds(y, m - 1);
    PaddedText(y, 4);
    PaddedText(m, 2);
    PaddedText(d, 2);
    SameNumberSameDigits(Pad(Numeral(y), 4), iso[..4]);
    SameNumberSameDigits(Pad(Numeral(m), 2), iso[5..7]);
    SameNumberSameDigits(Pad(Numeral(d), 2), iso[8..]);
    SplitFields(iso);
  }

  lemma {:induction false} FourZeros()
    ensures AllDigits("0000") && Number("0000") == 0
  {
    LeadingZero("");
    LeadingZero("0");
    LeadingZero("00");
    LeadingZero("000");
    assert "0" + "" == "0" && "0" + "0" == "00" && "0" + "00" == "000" && "0" + "000" == "0000";
  }

  lemma {:induction false} NumberBound(s: string)
    requires AllDigits(s)
    ensures |s| <= 2 ==> Number(s) <= 99
    ensures |s| <= 4 ==> Number(s) <= 9999
  {
    if s != [] {
      var t := s[..|s| - 1];
      if t != [] {
        var u := t[..|t| - 1];
        assert Number(t) == 10 * Number(u) + (t[|t| - 1] as int - '0' as int);
        NumberBound(u);
      }
    }
  }

  lemma {:induction false} FourDigits(s: string)
    requires AllDigits(s) && |s| == 4
    ensures Number(s) <= 9999 && (Number(s) == 0 <==> s == "0000")
  {
    NumberBound(s);
    FourZeros();
    if Number(s) == 0 {
      SameNumberSameDigits(s, "0000");
    }
  }

  /** A printed day that has the pattern lies in the years 0 to 9999. */
  lemma {:induction false} PatternYear(day: int)
    requires IsPattern(CalendarISO(day))
    ensures 0 <= YearOf(day) <= 9999
  {
    DayOfDate(day);
    MonthLengthBounds(YearOf(day), MonthOf(day));
    PaddedText(MonthOf(day) + 1, 2);
    PaddedText(DateOf(day), 2);
    var y := Pad(Numeral(YearOf(day)), 4);
    var s := CalendarISO(day);
    assert |y| == 4;
    assert s[..4] == y;
    if YearOf(day) < 0 {
      NegativeHasDash(YearOf(day));
      assert false;
    }
    PadLength(Numeral(YearOf(day)), 4);
    DecimalLength(YearOf(day));
  }

  /** The check accepts exactly the real dates of the years 1 to 9999. */
  lemma {:induction false} AcceptsRealDates(iso: string)
    ensures Accepts(iso) <==>
      IsPattern(iso) && Number(iso[..4]) >= 1 && IsDate(Number(iso[..4]), Number(iso[5..7]) - 1, Number(iso[8..]))
  {
    if IsPattern(iso) {
      FourDigits(iso[..4]);
      var day := CalendarDate(iso);
      if Accepts(iso) {
        PatternYear(day);
        DayOfDate(day);
        PrintedFields(day, iso);
      } else if Number(iso[..4]) >= 1 && IsDate(Number(iso[..4]), Number(iso[5..7]) - 1, Number(iso[8..])) {
        ReadPrint(iso);
      }
    }
  }

  // ----- Moves and the month grid

  function MoveCalendarDays(iso: string, days: int): string
    requires IsPattern(iso)
  {
    CalendarISO(MoveDays(CalendarDate(iso), days))
  }

  lemma {:induction false} MoveIs(iso: string, days: int)
    requires IsPattern(iso)
    ensures MoveCalendarDays(iso, days) == CalendarISO(CalendarDate(iso) + days)
  {
    MoveDaysAdds(CalendarDate(iso), days);
  }

  lemma {:induction false} PrintedIsAccepted(day: int)
    requires 1 <= YearOf(day) <= 9999
    ensures Accepts(CalendarISO(day)) && CalendarDate(CalendarISO(day)) == day
  {
    PrintRead(day);
    FourDigits(CalendarISO(day)[..4]);
  }

  lemma {:induction false} MovedDate(iso: string, a: int, day: int)
    requires IsPattern(iso) && day == CalendarDate(iso) + a && 1 <= YearOf(day) <= 9999
    ensures IsPattern(MoveCalendarDays(iso, a)) && CalendarDate(MoveCalendarDays(iso, a)) == day
  {
    MoveIs(iso, a);
    PrintRead(day);
  }

  lemma {:induction false} SameTarget(iso: string, moved: string, a: int, b: int)
    requires IsPattern(iso) && IsPattern(moved) && CalendarDate(moved) + a == CalendarDate(iso) + b
    ensures MoveCalendarDays(moved, a) == MoveCalendarDays(iso, b)
  {
    MoveIs(iso, b);
    MoveIs(moved, a);
  }

  lemma {:induction false} NoMove(iso: string)
    requires Accepts(iso)
    ensures MoveCalendarDays(iso, 0) == iso
  {
    MoveIs(iso, 0);
  }

  /** Moving an accepted date within the years 1 to 9999 gives an accepted date. */
  lemma {:induction false} MovedIsAccepted(iso: string, a: int)
    requires IsPattern(iso) && 1 <= YearOf(CalendarDate(iso) + a) <= 9999
    ensures Accepts(MoveCalendarDays(iso, a))
  {
    MoveIs(iso, a);
    PrintedIsAccepted(CalendarDate(iso) + a);
  }

  /** Day moves add up, and a move back undoes a move. */
  lemma {:induction false} DayMovesCompose(iso: string, a: int, b: int)
    requires Accepts(iso) && 1 <= YearOf(CalendarDate(iso) + a) <= 9999
    ensures IsPattern(MoveCalendarDays(iso, a))
    ensures MoveCalendarDays(MoveCalendarDays(iso, a), b) == MoveCalendarDays(iso, a + b)
    ensures MoveCalendarDays(MoveCalendarDays(iso, a), -a) == iso
  {
    MovedDate(iso, a, CalendarDate(iso) + a);
    SameTarget(iso, MoveCalendarDays(iso, a), b, a + b);
    SameTarget(iso, MoveCalendarDays(iso, a), -a, 0);
    NoMove(iso);
  }

  function MoveCalendarMonths(iso: string, months: int): string
    requires IsPattern(iso)
  {
    CalendarISO(MoveMonths(CalendarDate(iso), months))
  }

  lemma {:induction false} MovedPrints(day: int, months: int, text: string, y: int, m: nat)
    requires text == CalendarISO(MoveMonths(day, months)) && 1 <= y <= 9999
    requires y == YearOf(day) + (MonthOf(day) + months) / 12 && m == (MonthOf(day) + months) % 12
    ensures IsPattern(text) && Number(text[..4]) == y && Number(text[5..7]) == m + 1
    ensures Number(text[8..]) == Min(DateOf(day), MonthLength(y, m))
  {
    MoveMonthsLands(day, months);
    PrintedDate(MoveMonths(day, months), text, y, m, Min(DateOf(day), MonthLength(y, m)));
  }

  lemma {:induction false} MonthMoveIs(iso: string, months: int, day: int, moved: int)
    requires IsPattern(iso) && day == CalendarDate(iso) && moved == MoveMonths(day, months)
    ensures MoveCalendarMonths(iso, months) == CalendarISO(moved)
  {
  }

  /** A month move prints the shifted month and the day capped at that month's length. */
  lemma {:induction false} MonthMovePrints(iso: string, months: int, day: int, y: int, m: nat)
    requires IsPattern(iso) && day == CalendarDate(iso) && 1 <= y <= 9999
    requires y == YearOf(day) + (MonthOf(day) + months) / 12 && m == (MonthOf(day) + months) % 12
    ensures var moved := MoveCalendarMonths(iso, months);
      && IsPattern(moved) && Number(moved[..4]) == y && Number(moved[5..7]) == m + 1
      && Number(moved[8..]) == Min(DateOf(day), MonthLength(y, m))
  {
    MonthMoveIs(iso, months, day, MoveMonths(day, months));
    MovedPrints(day, months, MoveCalendarMonths(iso, months), y, m);
  }

  function WeekDay(day: int): nat {
    (day + 4) % 7
  }

  // ----- The week against a rule for dates

  /** Sakamoto's rule: the day of the week, Sunday being 0, from year, month (counted from 0) and day. */
  function WeekDayOf(y: int, m: nat, d: int): int
    requires m < 12
  {
    var c := if m < 2 then y - 1 else y;
    (c + Quarters(c) + [0, 3, 2, 5, 0, 3, 5, 1, 4, 6, 2, 4][m] + d) % 7
  }

  /** Leap years up to `c`, counted from year 0. */
  function Quarters(c: int): int {
    c / 4 - c / 100 + c / 400
  }

  lemma {:induction false} QuartersShift(c: int)
    ensures (c - 1968) / 4 == c / 4 - 492 && (c - 1900) / 100 == c / 100 - 19 && (c - 1600) / 400 == c / 400 - 4
  {
  }

  lemma {:induction false} LeapDaysAre(y: int)
    ensures LeapDays(y) == Quarters(y - 1) - 477 && Quarters(y) == Quarters(y - 1) + if IsLeap(y) then 1 else 0
  {
    QuartersShift(y - 1);
    QuartersShift(y);
    LeapDaysNext(y);
  }

  lemma {:induction false} SameWeekDay(a: int, b: int, weeks: int)
    requires a == b + 7 * weeks
    ensures a % 7 == b % 7
  {
  }

  /** Whole weeks between the two ways of counting, month by month. */
  function WeeksBefore(m: nat): int
    requires m < 12
  {
    [0, 4, 8, 12, 17, 21, 25, 30, 34, 38, 43, 47][m]
  }

  lemma {:induction false} MonthsInWeeks(leap: bool, m: nat)
    requires m < 12
    ensures DaysBefore(leap, m) == (if m < 2 then 0 else if leap then 2 else 1)
      + [0, 3, 2, 5, 0, 3, 5, 1, 4, 6, 2, 4][m] + 7 * WeeksBefore(m)
  {
  }

  /** The weekday of every date is the one that the rule gives. */
  lemma {:induction false} WeekDayIs(y: int, m: nat, d: int)
    requires m < 12
    ensures WeekDay(MakeDay(y, m, d)) == WeekDayOf(y, m, d)
  {
    MakeDayInYear(y, m, d);
    DayFromYearFormula(y);
    LeapDaysAre(y);
    MonthsInWeeks(IsLeap(y), m);
    var c := if m < 2 then y - 1 else y;
    SameWeekDay(MakeDay(y, m, d) + 4, c + Quarters(c) + [0, 3, 2, 5, 0, 3, 5, 1, 4, 6, 2, 4][m] + d,
                52 * y - 102789 + WeeksBefore(m));
  }

  /** Every day number has the weekday of its date. */
  lemma {:induction false} WeekDayOfDay(day: int, y: int, m: nat, d: int)
    requires y == YearOf(day) && m == MonthOf(day) && d == DateOf(day)
    ensures m < 12 && WeekDay(day) == WeekDayOf(y, m, d)
  {
    DayOfDate(day);
    WeekDayIs(y, m, d);
  }

  function Offset(first: int, weekStart: nat): (r: nat)
    ensures r < 7
  {
    (WeekDay(first) - weekStart + 7) % 7
  }

  const GRID_CELLS: nat := 42

  /** Cell `i` of the grid for the month that holds `iso`, weeks starting on `weekStart`. */
  function CalendarCell(iso: string, weekStart: nat, i: nat): string
    requires IsPattern(iso) && i < GRID_CELLS
  {
    FirstIsPattern(iso);
    var first := iso[..7] + "-01";
    MoveCalendarDays(first, i - Offset(CalendarDate(first), weekStart))
  }

  lemma {:induction false} FirstIsPattern(iso: string)
    requires IsPattern(iso)
    ensures var first := iso[..7] + "-01";
      IsPattern(first) && first[..4] == iso[..4] && first[5..7] == iso[5..7] && first[8..] == "01"
        && Number(first[8..]) == 1
  {
    var first := iso[..7] + "-01";
    assert first[..4] == iso[..4] && first[5..7] == iso[5..7] && first[8..] == "01";
    assert "01"[..1] == "0" && "0"[..0] == "";
  }

  lemma {:induction false} WeekStarts(day: int, weekStart: nat)
    requires weekStart < 7
    ensures WeekDay(day - Offset(day, weekStart)) == weekStart
  {
  }

  lemma {:induction false} MonthFits(y: int, m: nat, d: int, weekStart: nat)
    requires m < 12 && 1 <= d <= MonthLength(y, m)
    ensures var start := MakeDay(y, m, 1) - Offset(MakeDay(y, m, 1), weekStart);
      start <= MakeDay(y, m, d) < start + 42
  {
    MonthLengthBounds(y, m);
    assert MakeDay(y, m, d) == MakeDay(y, m, 1) + d - 1;
  }

  lemma {:induction false} MonthFitsAll(y: int, m: nat, weekStart: nat)
    requires m < 12
    ensures var start := MakeDay(y, m, 1) - Offset(MakeDay(y, m, 1), weekStart);
      forall d :: 1 <= d <= MonthLength(y, m) ==> start <= MakeDay(y, m, d) < start + GRID_CELLS
  {
    forall d | 1 <= d <= MonthLength(y, m)
      ensures var start := MakeDay(y, m, 1) - Offset(MakeDay(y, m, 1), weekStart);
        start <= MakeDay(y, m, d) < start + GRID_CELLS
    {
      MonthFits(y, m, d, weekStart);
    }
  }

  /** The grid is 42 consecutive days from a week start, and holds every day of the month. */
  lemma {:induction false} GridCoversMonth(iso: string, weekStart: nat, y: int, m: nat) returns (start: int)
    requires IsPattern(iso) && weekStart < 7 && y == Number(iso[..4]) && m == Number(iso[5..7]) - 1 && m < 12
    ensures WeekDay(start) == weekStart
    ensures forall i: nat :: i < GRID_CELLS ==> CalendarCell(iso, weekStart, i) == CalendarISO(start + i)
    ensures forall d :: 1 <= d <= MonthLength(y, m) ==> start <= MakeDay(y, m, d) < start + GRID_CELLS
  {
    FirstIsPattern(iso);
    var day := MakeDay(y, m, 1);
    var offset := Offset(day, weekStart);
    start := day - offset;
    WeekStarts(day, weekStart);
    forall i: nat | i < GRID_CELLS ensures CalendarCell(iso, weekStart, i) == CalendarISO(start + i) {
      MoveIs(iso[..7] + "-01", i - offset);
    }
    MonthFitsAll(y, m, weekStart);
  }
}
