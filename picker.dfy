/** The picker's state and the operations that change it: the displayed
    month (`curFirstDate`, always day 1 of that month), the table body, the
    title, the value written into the toggle control and the picker
    element's class string. */
module Picker {
  import opened Js
  import opened Calendar
  import opened Render
  import opened Format
  import opened ClassList

  /** A month of a year; `month` counts from 0 as `getMonth` does. The day
      is always 1 for the anchor, and the only other dates read (the
      caller's date and today) are read through `getFullYear` and
      `getMonth` alone. */
  datatype YearMonth = YearMonth(year: int, month: int)

  predicate ValidMonth(a: YearMonth)
  {
    0 <= a.month < 12
  }

  /** The class the template gives the picker element, and the class that
      shows it. */
  const PickerClass: string := "m-datepicker"
  const ShowClass: string := "z-show"

  /** What a click in the table body hits: a `TD` with its text, or some
      other element. */
  datatype Target = Cell(text: string) | OtherElement

  /** The month count since year 0, which `setMonth` keeps. */
  function MonthIndex(a: YearMonth): int
  {
    12 * a.year + a.month
  }

  /** `setMonth(m)` on day 1 of a month: MakeDay (section 15.9.1.12 of
      ECMA-262 5.1) carries whole years out of `m` by floor division and
      keeps `m` modulo 12; day 1 exists in every month, so no day carries. */
  function SetMonth(a: YearMonth, m: int): (r: YearMonth)
    ensures ValidMonth(r)
    ensures MonthIndex(r) == 12 * a.year + m
  {
    YearMonth(a.year + m / 12, m % 12)
  }

  /** The anchor after `turnTo(offset)`. */
  function Turn(a: YearMonth, offset: int): (r: YearMonth)
    ensures ValidMonth(r)
    ensures MonthIndex(r) == MonthIndex(a) + offset
  {
    SetMonth(a, a.month + offset)
  }

  /** The first and the last month whose day 1 is a JavaScript date. A time
      value lies within 100,000,000 days of 1 January 1970 either way
      (section 15.9.1.1 of ECMA-262 5.1), that is from 20 April -271821 to 13
      September 275760; day 1 of May -271821 and day 1 of September 275760
      are inside that span by more than any time zone offset, day 1 of April
      -271821 and day 1 of October 275760 outside it. */
  const FirstMonth: YearMonth := YearMonth(-271821, 4)
  const LastMonth: YearMonth := YearMonth(275760, 8)

  predicate InDateRange(a: YearMonth)
  {
    MonthIndex(FirstMonth) <= MonthIndex(a) <= MonthIndex(LastMonth)
  }

  /** How far from 1 January 1970 a time value may lie, in days. */
  const MaxDays: int := 100000000

  /** Days from 1 March of year 0 to 1 March of year `y`: whole eras of
      400 years, of 146097 days each, then the years into the era. */
  function MarchYearStart(y: int): int
  {
    y / 400 * 146097 + YearsInEra(y % 400)
  }

  /** Days in the first `yoe` March-based years of an era. */
  function YearsInEra(yoe: int): int
  {
    yoe * 365 + yoe / 4 - yoe / 100
  }

  /** Days from 1 March to day 1 of the month `mp` months later. */
  function MarchDays(mp: int): int
  {
    (153 * mp + 2) / 5
  }

  /** The number of days from 1 January 1970 to day 1 of month `a` in the
      proleptic Gregorian calendar, the count that Day and MakeDay (sections
      15.9.1.2 and 15.9.1.12 of ECMA-262 5.1) work with. It counts years from
      March, so that a leap day falls at the end of its year; 1 March of
      year 0 is day -719468. */
  function DayNumber(a: YearMonth): int
  {
    var y := if a.month < 2 then a.year - 1 else a.year;
    var mp := if a.month < 2 then a.month + 10 else a.month - 2;
    MarchYearStart(y) + MarchDays(mp) - 719468
  }

  /** Euclidean division is determined by quotient and remainder. */
  lemma DivUnique(x: int, d: int, q: int, m: int)
    requires d == 4 || d == 100 || d == 400
    requires x == d * q + m && 0 <= m < d
    ensures x / d == q && x % d == m
  {
    if d == 4 {
    } else if d == 100 {
    } else {
    }
  }

  /** Whether year `400 * e + s` is a leap year depends on `s` only. */
  lemma LeapInEra(y: int, e: int, s: int)
    requires y == 400 * e + s && 1 <= s <= 400
    ensures IsLeapYear(y) <==> s == 400 || (s % 4 == 0 && s % 100 != 0)
  {
    DivUnique(y, 4, 100 * e + s / 4, s % 4);
    DivUnique(y, 100, 4 * e + s / 100, s % 100);
    DivUnique(y, 400, e + s / 400, s % 400);
  }

  /** A March-based year of an era is a leap year when the calendar year
      its February falls in is, outside the 400th. */
  lemma YearsInEraNext(r: int)
    requires 0 <= r < 399
    ensures YearsInEra(r + 1) == YearsInEra(r) + 365 + (if (r + 1) % 4 == 0 && (r + 1) % 100 != 0 then 1 else 0)
  {
  }

  /** A March-based year has 366 days when its February has 29. */
  lemma MarchYearNext(y: int)
    ensures MarchYearStart(y + 1) == MarchYearStart(y) + 365 + (if IsLeapYear(y + 1) then 1 else 0)
  {
    var era, yoe := y / 400, y % 400;
    if yoe == 399 {
      DivUnique(y + 1, 400, era + 1, 0);
      LeapInEra(y + 1, era, 400);
      assert YearsInEra(399) == 146097 - 366;
    } else {
      DivUnique(y + 1, 400, era, yoe + 1);
      LeapInEra(y + 1, era, yoe + 1);
      YearsInEraNext(yoe);
    }
  }

  /** The month lengths from March to January, as the 153/5 formula gives
      them. */
  lemma MarchDaysNext(mp: int)
    requires 0 <= mp < 11
    ensures MarchDays(mp + 1) - MarchDays(mp) == if mp == 1 || mp == 3 || mp == 6 || mp == 8 then 30 else 31
  {
  }

  /** The count grows by the length of each month. */
  lemma DayNumberSucc(year: int, month: int)
    requires 0 <= month < 12
    ensures DayNumber(if month == 11 then YearMonth(year + 1, 0) else YearMonth(year, month + 1))
         == DayNumber(YearMonth(year, month)) + DaysInMonth(year, month)
  {
    if month == 1 {
      MarchYearNext(year - 1);
      assert MarchDays(11) == 337;
    } else if month == 0 {
      MarchDaysNext(10);
    } else if month == 11 {
      MarchDaysNext(9);
    } else {
      MarchDaysNext(month - 2);
    }
  }

  /** A turn by one month adds the length of the month left. */
  lemma DayNumberNext(a: YearMonth)
    requires ValidMonth(a)
    ensures DayNumber(Turn(a, 1)) == DayNumber(a) + DaysInMonth(a.year, a.month)
  {
    TurnOneMonth(a);
    DayNumberSucc(a.year, a.month);
  }

  /** Every month has 28 to 31 days, so `k` months on the count grows by
      28k to 31k days. */
  lemma {:induction false} DayNumberGrows(a: YearMonth, k: nat)
    requires ValidMonth(a)
    ensures DayNumber(a) + 28 * k <= DayNumber(Turn(a, k)) <= DayNumber(a) + 31 * k
    decreases k
  {
    if k == 0 {
      TurnZero(a);
    } else {
      DayNumberGrows(a, k - 1);
      DayNumberNext(Turn(a, k - 1));
      TurnCompose(a, k - 1, 1);
    }
  }

  /** The range check by months agrees with TimeClip's 100,000,000 days: day
      1 of a month in the range lies at least 11 days inside, and day 1 of a
      month outside it at least 16 days out. */
  lemma DateRangeByDays(a: YearMonth)
    requires ValidMonth(a)
    ensures InDateRange(a) ==> -MaxDays + 11 <= DayNumber(a) <= MaxDays - 12
    ensures !InDateRange(a) ==> DayNumber(a) < -MaxDays - 16 || DayNumber(a) > MaxDays + 15
  {
    DateRangeEnds();
    var k := MonthIndex(a) - MonthIndex(FirstMonth);
    if k >= 0 {
      MonthIndexInjective(a, Turn(FirstMonth, k));
      DayNumberGrows(FirstMonth, k);
    } else {
      MonthIndexInjective(FirstMonth, Turn(a, -k));
      DayNumberGrows(a, -k);
    }
    var j := MonthIndex(LastMonth) - MonthIndex(a);
    if j >= 0 {
      MonthIndexInjective(LastMonth, Turn(a, j));
      DayNumberGrows(a, j);
    } else {
      MonthIndexInjective(a, Turn(LastMonth, -j));
      DayNumberGrows(LastMonth, -j);
    }
  }

  /** The count starts at January 1970; March 2000 starts 30 years, seven
      of them leap years, and two months later. */
  lemma DayNumberEpoch()
    ensures DayNumber(YearMonth(1970, 0)) == 0
    ensures DayNumber(YearMonth(2000, 2)) == 30 * 365 + 7 + 31 + 29
  {
  }

  /** The months that bound the date range, by their day 1. */
  lemma DateRangeEnds()
    ensures DayNumber(FirstMonth) == -MaxDays + 11
    ensures DayNumber(LastMonth) == MaxDays - 12
  {
  }

  /** What a `Date` the picker holds can be: day 1 of a month, or the
      Invalid Date, whose time value is NaN. */
  datatype Date = Day1(ym: YearMonth) | InvalidDate

  predicate WellFormed(d: Date)
  {
    d.Day1? ==> ValidMonth(d.ym)
  }

  /** TimeClip (section 15.9.1.14 of ECMA-262 5.1) on day 1 of a month: a
      time more than 100,000,000 days from 1 January 1970 becomes NaN. The
      local midnight of day 1 lies less than a day from `DayNumber(a)` whole
      days, and `DateRangeByDays` shows no day 1 comes that close to either
      bound, so the test holds in every time zone. */
  function Clip(a: YearMonth): (r: Date)
    requires ValidMonth(a)
    ensures r == if -MaxDays <= DayNumber(a) <= MaxDays then Day1(a) else InvalidDate
  {
    DateRangeByDays(a);
    if InDateRange(a) then Day1(a) else InvalidDate
  }

  /** `getFirstDateOfMonth(year, month)`, that is `new Date(year, month, 1)`.
      The constructor reads a year from 0 to 99 as 1900 + year (section
      15.9.3.1 of ECMA-262 5.1), carries whole years out of the month as
      MakeDay does and clips the result to the date range. */
  function FirstOfMonth(year: int, month: int): (r: Date)
    ensures WellFormed(r)
    ensures 0 <= month < 12 ==> Held(r)
  {
    Clip(SetMonth(YearMonth(if 0 <= year <= 99 then 1900 + year else year, 0), month))
  }

  /** A month `new Date(year, month, 1)` can give: a valid month whose year
      is not 0..99 and which lies in the date range. */
  predicate Anchorable(a: YearMonth)
  {
    ValidMonth(a) && !(0 <= a.year <= 99) && InDateRange(a)
  }

  /** A date `createDateArr` can leave as the anchor. */
  predicate Held(d: Date)
  {
    d.Day1? ==> Anchorable(d.ym)
  }

  /** `getFirstDateOfMonth(getFullYear(), getMonth())` of a date: the
      Invalid Date stays invalid, since both read NaN. */
  function Rebuilt(d: Date): (r: Date)
    requires WellFormed(d)
    ensures Held(r)
    ensures d.InvalidDate? ==> r == InvalidDate
  {
    if d.InvalidDate? then InvalidDate else FirstOfMonth(d.ym.year, d.ym.month)
  }

  /** The anchor after `setMonth(getMonth() + offset)`: `Turn`, then
      TimeClip. On the Invalid Date `getMonth` and `setMonth` give NaN. */
  function Moved(d: Date, offset: int): (r: Date)
    requires WellFormed(d)
    ensures WellFormed(r)
    ensures d.InvalidDate? ==> r == InvalidDate
    ensures d.Day1? && r.Day1? ==> InDateRange(r.ym) && MonthIndex(r.ym) == MonthIndex(d.ym) + offset
    ensures d.Day1? && InDateRange(Turn(d.ym, offset)) ==> r.Day1?
  {
    if d.InvalidDate? then InvalidDate else Clip(Turn(d.ym, offset))
  }

  /** The anchor after `turnTo(offset)`: `setMonth` moves it, then
      `createDateArr` rebuilds it with `getFirstDateOfMonth`. */
  function Step(d: Date, offset: int): (r: Date)
    requires WellFormed(d)
    ensures Held(r)
  {
    Rebuilt(Moved(d, offset))
  }

  /** The date `createDateArr` works from: the given one, else the stored
      anchor, else today. A date that is an object is truthy even when it is
      the Invalid Date, so an invalid anchor is kept. */
  function ChosenDate(date: Option<Date>, stored: Option<Date>, today: YearMonth): Date
  {
    if date.Some? then date.value else if stored.Some? then stored.value else Day1(today)
  }

  /** The page `createDateArr` builds from date `d`. The rebuilt anchor's
      `getDay()` is `firstWeekday`; when the rebuilt anchor is the Invalid
      Date it is NaN, which gives a leading span of 7, as a Sunday does. */
  function Page(d: Date, firstWeekday: int): CalcResult
    requires WellFormed(d)
    requires 0 <= firstWeekday < 7
  {
    if d.InvalidDate? then NaNGrid()
    else BuildGrid(d.ym.year, d.ym.month, if FirstOfMonth(d.ym.year, d.ym.month).Day1? then firstWeekday else 0)
  }

  /** The table body `render(createDateArr(d))` writes. */
  function Shown(d: Date, firstWeekday: int): string
    requires WellFormed(d)
    requires 0 <= firstWeekday < 7
  {
    var page := Page(d, firstWeekday);
    Markup(Cells(page), |page.dateArr|)
  }

  /** The title `setTitle` writes for a date; NaN prints as "NaN". */
  function DateTitle(d: Date): string
  {
    if d.Day1? then Title(d.ym.year, d.ym.month) else "NaN" + "年" + "NaN" + "月"
  }

  /** The value `selectDate` writes for a date and a cell's text. */
  function SelectedValue(d: Date, dayText: string): string
  {
    if d.Day1? then DateValue(d.ym.year, d.ym.month, dayText)
    else "NaN" + "-" + PaddingLeft0("NaN") + "-" + PaddingLeft0(dayText)
  }

  // ---------------------------------------------------------------------
  // Properties of the month arithmetic

  /** A valid month is determined by its month count. */
  lemma MonthIndexInjective(a: YearMonth, b: YearMonth)
    requires ValidMonth(a) && ValidMonth(b)
    requires MonthIndex(a) == MonthIndex(b)
    ensures a == b
  {
  }

  /** Two turns in a row are one turn by the sum of the offsets. */
  lemma TurnCompose(a: YearMonth, x: int, y: int)
    requires ValidMonth(a)
    ensures Turn(Turn(a, x), y) == Turn(a, x + y)
  {
    MonthIndexInjective(Turn(Turn(a, x), y), Turn(a, x + y));
  }

  /** A turn by 0 keeps the anchor. */
  lemma TurnZero(a: YearMonth)
    requires ValidMonth(a)
    ensures Turn(a, 0) == a
  {
    MonthIndexInjective(Turn(a, 0), a);
  }

  /** `next` then `prev` (and `prev` then `next`) gives back the month. */
  lemma NextThenPrev(a: YearMonth)
    requires ValidMonth(a)
    ensures Turn(Turn(a, 1), -1) == a
    ensures Turn(Turn(a, -1), 1) == a
  {
    TurnCompose(a, 1, -1);
    TurnCompose(a, -1, 1);
    TurnZero(a);
  }

  /** `next` stays in the year except from December, which goes to January
      of the next year; `prev` likewise from January. */
  lemma TurnOneMonth(a: YearMonth)
    requires ValidMonth(a)
    ensures Turn(a, 1) == if a.month == 11 then YearMonth(a.year + 1, 0) else YearMonth(a.year, a.month + 1)
    ensures Turn(a, -1) == if a.month == 0 then YearMonth(a.year - 1, 11) else YearMonth(a.year, a.month - 1)
  {
    var n := if a.month == 11 then YearMonth(a.year + 1, 0) else YearMonth(a.year, a.month + 1);
    var p := if a.month == 0 then YearMonth(a.year - 1, 11) else YearMonth(a.year, a.month - 1);
    MonthIndexInjective(Turn(a, 1), n);
    MonthIndexInjective(Turn(a, -1), p);
  }

  /** `new Date(year, month, 1)` with a month in 0..11 always gives a date
      `createDateArr` can hold. When it is valid it has the same month and
      the same last two digits of the year; it keeps the year exactly when
      the year is not 0..99 and the month lies in the date range, and a year
      0..99 always gives a valid date. */
  lemma FirstOfMonthShape(year: int, month: int)
    requires 0 <= month < 12
    ensures var r := FirstOfMonth(year, month);
      && Held(r)
      && (r.Day1? ==> r.ym.month == month && r.ym.year % 100 == year % 100)
      && (r == Day1(YearMonth(year, month)) <==> !(0 <= year <= 99) && InDateRange(YearMonth(year, month)))
      && (0 <= year <= 99 ==> r.Day1?)
  {
  }

  /** Rebuilding a date `createDateArr` left changes nothing. */
  lemma RebuiltHeld(d: Date)
    requires Held(d)
    ensures Rebuilt(d) == d
  {
    if d.Day1? {
      FirstOfMonthShape(d.ym.year, d.ym.month);
    }
  }

  /** For a month in 0..11 nothing carries: `new Date(year, month, 1)` is
      the month with the year read as the constructor reads it, clipped. */
  lemma FirstOfMonthClip(year: int, month: int)
    requires 0 <= month < 12
    ensures FirstOfMonth(year, month) == Clip(YearMonth(if 0 <= year <= 99 then 1900 + year else year, month))
  {
    var y := if 0 <= year <= 99 then 1900 + year else year;
    assert SetMonth(YearMonth(y, 0), month) == YearMonth(y, month);
  }

  /** A turn from day 1 of a valid month: the month reached, rebuilt by
      `new Date`, when the move stays in the date range, else the Invalid
      Date. */
  lemma StepFromDay1(a: YearMonth, offset: int)
    requires ValidMonth(a)
    ensures var t := Turn(a, offset);
      Step(Day1(a), offset) == if InDateRange(t) then FirstOfMonth(t.year, t.month) else InvalidDate
  {
  }

  /** A turn that stays in the date range and off the years 0..99 is
      undone by the opposite turn. */
  lemma StepThereAndBack(a: YearMonth, offset: int)
    requires Anchorable(a)
    requires InDateRange(Turn(a, offset)) && !(0 <= Turn(a, offset).year <= 99)
    ensures Step(Step(Day1(a), offset), -offset) == Day1(a)
  {
    var t := Turn(a, offset);
    StepFromDay1(a, offset);
    FirstOfMonthClip(t.year, t.month);
    StepFromDay1(t, -offset);
    MonthIndexInjective(Turn(t, -offset), a);
    FirstOfMonthClip(a.year, a.month);
  }

  /** `next` then `prev` gives back every anchor but two: December of year
      -1, whose `next` is January of year 0, which `new Date` reads as
      January 1900; and the last month of the date range, whose `next` is
      the Invalid Date. */
  lemma NextThenPrevAnchored(a: YearMonth)
    requires Anchorable(a)
    ensures Step(Step(Day1(a), 1), -1) == Day1(a) <==> a != YearMonth(-1, 11) && a != LastMonth
  {
    TurnOneMonth(a);
    StepFromDay1(a, 1);
    if a == LastMonth {
      assert MonthIndex(Turn(a, 1)) == MonthIndex(LastMonth) + 1;
    } else if a == YearMonth(-1, 11) {
      NextFromYearMinus1();
      PrevFrom1900();
    } else {
      StepThereAndBack(a, 1);
    }
  }

  /** `prev` then `next` gives back every anchor but two: January of year
      100, whose `prev` is December of year 99, which `new Date` reads as
      December 1999; and the first month of the date range, whose `prev` is
      the Invalid Date. */
  lemma PrevThenNextAnchored(a: YearMonth)
    requires Anchorable(a)
    ensures Step(Step(Day1(a), -1), 1) == Day1(a) <==> a != YearMonth(100, 0) && a != FirstMonth
  {
    TurnOneMonth(a);
    StepFromDay1(a, -1);
    if a == FirstMonth {
      assert MonthIndex(Turn(a, -1)) == MonthIndex(FirstMonth) - 1;
    } else if a == YearMonth(100, 0) {
      PrevFromYear100();
    } else {
      StepThereAndBack(a, -1);
    }
  }

  /** A move whose month count stays in the date range gives day 1 of the
      month reached. */
  lemma MovedInRange(a: YearMonth, offset: int)
    requires ValidMonth(a)
    requires MonthIndex(FirstMonth) <= MonthIndex(a) + offset <= MonthIndex(LastMonth)
    ensures Moved(Day1(a), offset) == Day1(Turn(a, offset))
  {
  }

  /** `setMonth` does not read years 0..99 as 1900 onwards: from December
      of year -1, one month on is January of year 0. */
  lemma MovedToYear0()
    ensures Moved(Day1(YearMonth(-1, 11)), 1) == Day1(YearMonth(0, 0))
  {
    MovedInRange(YearMonth(-1, 11), 1);
    TurnOneMonth(YearMonth(-1, 11));
  }


  /** `new Date(0, 0, 1)` is 1 January 1900. */
  lemma RebuiltYear0()
    ensures Rebuilt(Day1(YearMonth(0, 0))) == Day1(YearMonth(1900, 0))
  {
    FirstOfMonthClip(0, 0);
  }

  /** From December of year -1, `next` shows January 1900. */
  lemma NextFromYearMinus1()
    ensures Step(Day1(YearMonth(-1, 11)), 1) == Day1(YearMonth(1900, 0))
  {
    MovedToYear0();
    RebuiltYear0();
  }


  /** From January 1900, `prev` shows December 1899. */
  lemma PrevFrom1900()
    ensures Step(Day1(YearMonth(1900, 0)), -1) == Day1(YearMonth(1899, 11))
  {
    MovedInRange(YearMonth(1900, 0), -1);
    TurnOneMonth(YearMonth(1900, 0));
    FirstOfMonthClip(1899, 11);
  }


  /** From January of year 100, `prev` shows December 1999 and a following
      `next` January 2000. */
  lemma PrevFromYear100()
    ensures Step(Day1(YearMonth(100, 0)), -1) == Day1(YearMonth(1999, 11))
    ensures Step(Day1(YearMonth(1999, 11)), 1) == Day1(YearMonth(2000, 0))
  {
    assert Step(Day1(YearMonth(100, 0)), -1) == Day1(YearMonth(1999, 11)) by {
      MovedInRange(YearMonth(100, 0), -1);
      TurnOneMonth(YearMonth(100, 0));
      FirstOfMonthClip(99, 11);
    }
    assert Step(Day1(YearMonth(1999, 11)), 1) == Day1(YearMonth(2000, 0)) by {
      MovedInRange(YearMonth(1999, 11), 1);
      TurnOneMonth(YearMonth(1999, 11));
      FirstOfMonthClip(2000, 0);
    }
  }


  /** Past either end of the date range the anchor becomes the Invalid Date,
      and no turn brings it back. */
  lemma LeavingTheRange(offset: int)
    ensures Step(Day1(LastMonth), 1) == InvalidDate
    ensures Step(Day1(FirstMonth), -1) == InvalidDate
    ensures Step(InvalidDate, offset) == InvalidDate
  {
    assert MonthIndex(Turn(LastMonth, 1)) == MonthIndex(LastMonth) + 1;
    assert MonthIndex(Turn(FirstMonth, -1)) == MonthIndex(FirstMonth) - 1;
  }


  /** What the picker shows for the Invalid Date: the page 25..31, 1..31,
      1..4 with the first seven and the last four cells gray, the title
      "NaN年NaN月", and a value whose year is "NaN" and whose month is "aN",
      the last two characters of "0NaN". */
  lemma InvalidDateShown(firstWeekday: int, dayText: string)
    requires 0 <= firstWeekday < 7
    ensures var g := Page(InvalidDate, firstWeekday);
      && g.lenBefore == 7 && g.lenAfter == 4
      && g.dateArr == Range(31)[24..] + Range(31) + Range(4)
    ensures DateTitle(InvalidDate) == "NaN年NaN月"
    ensures SelectedValue(InvalidDate, dayText) == "NaN-aN-" + PaddingLeft0(dayText)
  {
    NaNGridShape();
    SliceSuffix("0NaN", 2);
    assert "0NaN"[2..] == "aN";
  }

  lemma YearWrapExamples()
    ensures Turn(YearMonth(2018, 11), 1) == YearMonth(2019, 0)
    ensures Turn(YearMonth(2018, 0), -1) == YearMonth(2017, 11)
  {
    TurnOneMonth(YearMonth(2018, 11));
    TurnOneMonth(YearMonth(2018, 0));
  }

  // ---------------------------------------------------------------------
  // The picker

  class Picker {
    /** `curFirstDate`; `None` until the first `createDateArr`. */
    var anchor: Option<Date>
    /** The `innerHTML` of the table body. */
    var tbodyHtml: string
    /** The `innerHTML` of the title. */
    var title: string
    /** The `value` of the toggle control. */
    var value: string
    /** The `className` of the picker element. */
    var pickerClass: string

    ghost predicate Valid()
      reads this
    {
      anchor.Some? ==> Held(anchor.value)
    }

    /** The title names the displayed month. */
    ghost predicate TitleShowsAnchor()
      reads this
    {
      anchor.Some? && title == DateTitle(anchor.value)
    }

    /** The state once the script has loaded: no anchor yet, the
        template's empty table body and title and its class on the picker.
        The toggle control's value is whatever the host page gave it. */
    constructor (initialValue: string)
      ensures Valid()
      ensures anchor == None
      ensures tbodyHtml == "" && title == "" && value == initialValue
      ensures pickerClass == PickerClass
    {
      anchor := None;
      tbodyHtml := "";
      title := "";
      value := initialValue;
      pickerClass := PickerClass;
    }

    /** `createDateArr(date)`: rebuild the anchor with `getFirstDateOfMonth`
        from the chosen date's year and month, then build the page from that
        year and month, as `getFullYear` read them. `firstWeekday` is
        `getDay()` of the new anchor and `today` is `new Date()`, both inputs
        here. The stored anchor may be one `setMonth` has just moved, so it
        need only be well formed. */
    method CreateDateArr(date: Option<Date>, today: YearMonth, firstWeekday: int) returns (page: CalcResult)
      requires anchor.Some? ==> WellFormed(anchor.value)
      requires date.Some? ==> WellFormed(date.value)
      requires ValidMonth(today)
      requires 0 <= firstWeekday < 7
      modifies this
      ensures Valid()
      ensures var c := ChosenDate(date, old(anchor), today);
        && anchor == Some(Rebuilt(c))
        && page == Page(c, firstWeekday)
      ensures tbodyHtml == old(tbodyHtml) && title == old(title)
      ensures value == old(value) && pickerClass == old(pickerClass)
    {
      var d := ChosenDate(date, anchor, today);
      anchor := Some(Rebuilt(d));
      page := Page(d, firstWeekday);
    }

    /** `render(calcResult)`: the table body becomes the page's markup. */
    method DoRender(page: CalcResult)
      modifies this
      ensures tbodyHtml == Markup(Cells(page), |page.dateArr|)
      ensures anchor == old(anchor) && title == old(title)
      ensures value == old(value) && pickerClass == old(pickerClass)
    {
      var html := RenderHtml(page);
      tbodyHtml := html;
    }

    /** `setTitle(curFirstDate)`. */
    method SetTitle()
      requires anchor.Some?
      modifies this
      ensures TitleShowsAnchor()
      ensures anchor == old(anchor) && tbodyHtml == old(tbodyHtml)
      ensures value == old(value) && pickerClass == old(pickerClass)
    {
      title := DateTitle(anchor.value);
    }

    /** `turnTo(offset)`: move the anchor by `offset` months with `setMonth`,
        then render the page of the month reached and set the title from the
        rebuilt anchor. `firstWeekday` is `getDay()` of the rebuilt anchor. */
    method TurnTo(offset: int, firstWeekday: int)
      requires Valid() && anchor.Some?
      requires 0 <= firstWeekday < 7
      modifies this
      ensures Valid() && TitleShowsAnchor()
      ensures anchor == Some(Step(old(anchor.value), offset))
      ensures tbodyHtml == Shown(Moved(old(anchor.value), offset), firstWeekday)
      ensures value == old(value) && pickerClass == old(pickerClass)
    {
      anchor := Some(Moved(anchor.value, offset));
      // The anchor is always set here, so `new Date()` is not read.
      var page := CreateDateArr(None, YearMonth(1970, 0), firstWeekday);
      DoRender(page);
      SetTitle();
    }

    /** `prev`: one month back. */
    method Prev(firstWeekday: int)
      requires Valid() && anchor.Some?
      requires 0 <= firstWeekday < 7
      modifies this
      ensures Valid() && TitleShowsAnchor()
      ensures anchor == Some(Step(old(anchor.value), -1))
      ensures tbodyHtml == Shown(Moved(old(anchor.value), -1), firstWeekday)
      ensures value == old(value) && pickerClass == old(pickerClass)
    {
      TurnTo(-1, firstWeekday);
    }

    /** `next`: one month on. */
    method Next(firstWeekday: int)
      requires Valid() && anchor.Some?
      requires 0 <= firstWeekday < 7
      modifies this
      ensures Valid() && TitleShowsAnchor()
      ensures anchor == Some(Step(old(anchor.value), 1))
      ensures tbodyHtml == Shown(Moved(old(anchor.value), 1), firstWeekday)
      ensures value == old(value) && pickerClass == old(pickerClass)
    {
      TurnTo(1, firstWeekday);
    }

    /** `toggle`: render the stored month (today's on the first call), set
        the title and show or hide the picker by toggling `z-show`. */
    method Toggle(today: YearMonth, firstWeekday: int)
      requires Valid() && ValidMonth(today)
      requires 0 <= firstWeekday < 7
      modifies this
      ensures Valid() && TitleShowsAnchor()
      ensures anchor == Some(if old(anchor).Some? then old(anchor).value else FirstOfMonth(today.year, today.month))
      ensures tbodyHtml == Shown(if old(anchor).Some? then old(anchor).value else Day1(today), firstWeekday)
      ensures pickerClass == ToggleClass(old(pickerClass), ShowClass).className
      ensures value == old(value)
    {
      if anchor.Some? {
        RebuiltHeld(anchor.value);
      }
      var page := CreateDateArr(None, today, firstWeekday);
      DoRender(page);
      SetTitle();
      pickerClass := ToggleClass(pickerClass, ShowClass).className;
    }

    /** `selectDate`: a click on a cell writes the anchor's year and month
        with the cell's text as the day, whatever month the cell belongs
        to, and hides the picker; a click elsewhere changes nothing. */
    method SelectDate(target: Target)
      requires target.Cell? ==> anchor.Some?
      modifies this
      ensures anchor == old(anchor) && tbodyHtml == old(tbodyHtml) && title == old(title)
      ensures target.Cell? ==>
        && value == SelectedValue(anchor.value, target.text)
        && pickerClass == DelClass(old(pickerClass), ShowClass, false).className
      ensures target.OtherElement? ==> value == old(value) && pickerClass == old(pickerClass)
    {
      if target.Cell? {
        value := SelectedValue(anchor.value, target.text);
        pickerClass := DelClass(pickerClass, ShowClass, false).className;
      }
    }
  }

  // ---------------------------------------------------------------------
  // A session

  lemma ShowClassAbsent()
    ensures !HasClass(PickerClass, ShowClass)
  {
    NoSpaceNoIndex("m-datepicker");
    HasClassIffWord("m-datepicker", "z-show");
  }

  /** A session from the loaded state: open the picker on today's month,
      click a cell, which hides it, open it again, then move on a month and
      back. The value names today's month with the cell's text as the day,
      whatever month the cell belongs to; the picker is shown after the
      first click, hidden after the second and shown after the third; next
      then prev comes back to today's month, except from December of year -1
      and from the last month of the date range. Today's month is read
      through `new Date(year, month, 1)`. */
  method Session(initialValue: string, today: YearMonth, firstWeekday: int, nextWeekday: int, cellText: string)
    returns (value: string, openClass: string, closedClass: string, reopenedClass: string, back: Date)
    requires ValidMonth(today)
    requires 0 <= firstWeekday < 7 && 0 <= nextWeekday < 7
    ensures var a := FirstOfMonth(today.year, today.month);
      && value == SelectedValue(a, cellText)
      && (back == a <==> a != Day1(YearMonth(-1, 11)) && a != Day1(LastMonth))
    ensures openClass == PickerClass + " " + ShowClass && closedClass == PickerClass
    ensures reopenedClass == openClass
  {
    ShowClassAbsent();
    AddThenDelete(PickerClass, ShowClass);
    var a := FirstOfMonth(today.year, today.month);
    if a.Day1? {
      NextThenPrevAnchored(a.ym);
    }
    var p := new Picker(initialValue);
    p.Toggle(today, firstWeekday);
    assert p.anchor == Some(a);
    openClass := p.pickerClass;
    p.SelectDate(Cell(cellText));
    closedClass := p.pickerClass;
    value := p.value;
    p.Toggle(today, firstWeekday);
    assert p.anchor == Some(a);
    reopenedClass := p.pickerClass;
    p.Next(nextWeekday);
    assert p.anchor == Some(Step(a, 1));
    p.Prev(firstWeekday);
    back := p.anchor.value;
  }
}
