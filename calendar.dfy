/** The month-grid calculation of the date picker: the day-count tables, the
    leap-year rule, the three spans of a 42-cell page (the last days of the
    previous month, the days of the month, the first days of the next month)
    and the record `createDateArr` returns. Months are 0-based (0 is January),
    as JavaScript's `Date.getMonth` gives them; `firstWeekday` is
    `Date.getDay` of day 1 of the month (0 is Sunday), supplied by the caller. */
module Calendar {
  import opened Js

  /** `DATE_COUNTS`: the usual number of days of each month. */
  const DateCounts: seq<int> := [31, 28, 31, 30, 31, 30, 31, 31, 30, 31, 30, 31]

  /** `1, 2, ..., n`. */
  function Range(n: nat): seq<int>
  {
    seq(n, i => i + 1)
  }

  /** `DATES`: the numbers 1 to 31, from which every span is sliced. */
  const Dates: seq<int> := Range(31)

  /** `PAGE_SIZE`: six rows of seven days. */
  const PageSize: nat := 42

  /** `isLeapYear`. JavaScript's `%` truncates towards zero where Dafny's is
      Euclidean, but the two agree on whether the remainder is zero. */
  predicate IsLeapYear(year: int)
  {
    year % 400 == 0 || (year % 4 == 0 && year % 100 != 0)
  }

  /** The leap-year rule as Appendix C of RFC 3339 writes it. */
  predicate IsLeapYearRfc3339(year: int)
  {
    year % 4 == 0 && (year % 100 != 0 || year % 400 == 0)
  }

  /** The Gregorian length of a month, written out month by month (a
      reference to check the tables against). */
  function DaysInMonth(year: int, month: int): (n: int)
    requires 0 <= month < 12
    ensures 28 <= n <= 31
  {
    if month == 1 then (if IsLeapYear(year) then 29 else 28)
    else if month == 3 || month == 5 || month == 8 || month == 10 then 30
    else 31
  }

  /** `getDatesOfMonth`: the day numbers of the month. */
  function DatesOfMonth(year: int, month: int): seq<int>
    requires 0 <= month < 12
  {
    var dateCount := DateCounts[month] + (if month == 1 && IsLeapYear(year) then 1 else 0);
    Slice(Dates, 0, Some(dateCount))
  }

  /** How many cells `getPaddingBefore` fills: a month that starts on a
      Sunday gets a whole week of the previous month. */
  function PaddingLength(firstWeekday: int): int
  {
    if firstWeekday > 0 then firstWeekday else 7
  }

  /** `getPaddingBefore`. The year is not consulted: the previous month's
      length comes from `DATE_COUNTS` without the leap day, and for January
      the index 12 reads past the table, so `slice(0, undefined)` keeps all 31
      numbers. */
  function PaddingBefore(year: int, month: int, firstWeekday: int): seq<int>
    requires 0 <= month < 12
    requires 0 <= firstWeekday < 7
  {
    var paddingLen := PaddingLength(firstWeekday);
    var lastMonth := if month == 0 then 12 else month - 1;
    var datesOfLastMonth := Slice(Dates, 0, Lookup(DateCounts, lastMonth));
    Slice(datesOfLastMonth, -paddingLen, None)
  }

  /** `getPaddingAfter`: the first days of the next month, as many as the page
      has cells left. */
  function PaddingAfter(dateCountBefore: int): seq<int>
  {
    Slice(Dates, 0, Some(PageSize - dateCountBefore))
  }

  /** What `createDateArr` returns. */
  datatype CalcResult = CalcResult(lenBefore: int, dateArr: seq<int>, lenAfter: int)

  /** The page `createDateArr` builds for a month. */
  function BuildGrid(year: int, month: int, firstWeekday: int): CalcResult
    requires 0 <= month < 12
    requires 0 <= firstWeekday < 7
  {
    var before := PaddingBefore(year, month, firstWeekday);
    var current := DatesOfMonth(year, month);
    var after := PaddingAfter(|before| + |current|);
    CalcResult(|before|, before + current + after, |after|)
  }

  /** The page `createDateArr` builds when the anchor is an Invalid Date.
      `getDay()`, `getFullYear()` and `getMonth()` all give NaN there.
      `NaN > 0` is false, so the leading span is 7 long. `!NaN` is true, so
      the previous month is index 12, which reads `undefined`, and the whole
      `DATES` table is sliced. `NaN === 1` is false and `DATE_COUNTS[NaN]` is
      `undefined`, so the month is the whole table as well. */
  function NaNGrid(): CalcResult
  {
    var before := Slice(Slice(Dates, 0, Lookup(DateCounts, 12)), -PaddingLength(0), None);
    var current := Slice(Dates, 0, None);
    var after := PaddingAfter(|before| + |current|);
    CalcResult(|before|, before + current + after, |after|)
  }

  /** The month (and year) before `month`, as a calendar has it. */
  function PreviousMonthLength(year: int, month: int): int
    requires 0 <= month < 12
  {
    if month == 0 then DaysInMonth(year - 1, 11) else DaysInMonth(year, month - 1)
  }

  // ---------------------------------------------------------------------
  // Properties

  lemma MultipleOf400(year: int)
    requires year % 400 == 0
    ensures year % 4 == 0 && year % 100 == 0
  {
    var q := year / 400;
    assert year == 4 * (100 * q);
    assert year == 100 * (4 * q);
  }

  /** `isLeapYear` is the rule of RFC 3339, repeating every 400 years. */
  lemma LeapYearRules(year: int)
    ensures IsLeapYear(year) <==> IsLeapYearRfc3339(year)
    ensures IsLeapYear(year + 400) == IsLeapYear(year)
  {
    if year % 400 == 0 {
      MultipleOf400(year);
    }
    assert (year + 400) % 400 == year % 400;
    assert (year + 400) % 100 == year % 100;
    assert (year + 400) % 4 == year % 4;
  }

  /** The values the tests expect. */
  lemma LeapYearExamples()
    ensures !IsLeapYear(2018) && !IsLeapYear(1999) && !IsLeapYear(1900) && !IsLeapYear(2019)
    ensures IsLeapYear(2000) && IsLeapYear(2020) && IsLeapYear(2004)
  {
  }

  /** `getDatesOfMonth` is exactly `1..n` for the month's Gregorian length `n`. */
  lemma DatesOfMonthIsCalendarMonth(year: int, month: int)
    requires 0 <= month < 12
    ensures DatesOfMonth(year, month) == Range(DaysInMonth(year, month))
    ensures 28 <= |DatesOfMonth(year, month)| <= 31
    ensures |DatesOfMonth(year, month)| == 29 <==> month == 1 && IsLeapYear(year)
  {
    var n := DaysInMonth(year, month);
    SlicePrefix(Dates, n);
    assert Dates[..n] == Range(n);
  }

  lemma LeapFebruary2016()
    ensures |DatesOfMonth(2016, 1)| == 29 && |DatesOfMonth(2017, 1)| == 28
  {
    DatesOfMonthIsCalendarMonth(2016, 1);
    DatesOfMonthIsCalendarMonth(2017, 1);
  }

  /** The previous-month count `getPaddingBefore` slices from: the table's
      entry before `month`, and all 31 numbers for January. */
  lemma PreviousMonthTable(month: int)
    requires 0 <= month < 12
    ensures Slice(Dates, 0, Lookup(DateCounts, if month == 0 then 12 else month - 1))
         == Range(if month == 0 then 31 else DateCounts[month - 1])
  {
    var m := if month == 0 then 12 else month - 1;
    if month == 0 {
      assert Lookup(DateCounts, m) == None;
      SliceUndefinedEnd(Dates);
    } else {
      var c := DateCounts[m];
      SlicePrefix(Dates, c);
      assert Dates[..c] == Range(c);
    }
  }

  /** The leading span is never empty and never more than a week: it is the
      last `k` numbers of the previous month's table entry, `k` the first
      weekday or 7 for a Sunday. */
  lemma PaddingBeforeShape(year: int, month: int, firstWeekday: int)
    requires 0 <= month < 12
    requires 0 <= firstWeekday < 7
    ensures var r := PaddingBefore(year, month, firstWeekday);
      var p := if month == 0 then 31 else DateCounts[month - 1];
      && |r| == (if firstWeekday == 0 then 7 else firstWeekday)
      && 1 <= |r| <= 7
      && forall i :: 0 <= i < |r| ==> r[i] == p - |r| + i + 1
  {
    var p := if month == 0 then 31 else DateCounts[month - 1];
    var k := PaddingLength(firstWeekday);
    PreviousMonthTable(month);
    SliceSuffix(Range(p), k);
    var r := Range(p)[p - k..];
    assert forall i :: 0 <= i < k ==> r[i] == p - k + i + 1;
  }

  /** Against a real calendar, the leading span is right in every month
      except March of a leap year, where the table's 28 hides the 29th of
      February. */
  lemma PaddingBeforeAgainstCalendar(year: int, month: int, firstWeekday: int)
    requires 0 <= month < 12
    requires 0 <= firstWeekday < 7
    ensures var r := PaddingBefore(year, month, firstWeekday);
      var p := PreviousMonthLength(year, month);
      (r == Range(p)[p - |r|..]) <==> !(month == 2 && IsLeapYear(year))
  {
    var r := PaddingBefore(year, month, firstWeekday);
    var p := PreviousMonthLength(year, month);
    PaddingBeforeShape(year, month, firstWeekday);
    var q := Range(p)[p - |r|..];
    if month == 2 && IsLeapYear(year) {
      assert q[|r| - 1] == 29 && r[|r| - 1] == 28;
    } else {
      assert p == if month == 0 then 31 else DateCounts[month - 1];
      assert forall i :: 0 <= i < |r| ==> q[i] == r[i];
    }
  }

  /** March 2020 starts on a Sunday: its grid begins 22..28, one day short of
      the real 23..29. */
  lemma MarchOfLeapYear()
    ensures PaddingBefore(2020, 2, 0) == [22, 23, 24, 25, 26, 27, 28]
    ensures PreviousMonthLength(2020, 2) == 29
  {
    PaddingBeforeShape(2020, 2, 0);
  }

  /** `getPaddingAfter` for the counts a page can have before it. */
  lemma PaddingAfterShape(dateCountBefore: int)
    requires 0 <= dateCountBefore <= PageSize
    requires PageSize - dateCountBefore <= 31
    ensures PaddingAfter(dateCountBefore) == Range(PageSize - dateCountBefore)
  {
    var n := PageSize - dateCountBefore;
    SlicePrefix(Dates, n);
    assert Dates[..n] == Range(n);
  }

  /** `createDateArr`: the page is the three spans glued together, always 42
      cells, the reported lengths are the spans' lengths, and the trailing
      span counts 1, 2, ... up to what fills the page (4 to 13 days). */
  lemma GridComposition(year: int, month: int, firstWeekday: int)
    requires 0 <= month < 12
    requires 0 <= firstWeekday < 7
    ensures var g := BuildGrid(year, month, firstWeekday);
      var before := PaddingBefore(year, month, firstWeekday);
      var current := DatesOfMonth(year, month);
      && |g.dateArr| == PageSize
      && g.lenBefore == |before| && 1 <= g.lenBefore <= 7
      && current == Range(DaysInMonth(year, month))
      && 4 <= g.lenAfter <= 13
      && g.lenBefore + |current| + g.lenAfter == PageSize
      && g.dateArr == before + current + Range(g.lenAfter)
  {
    PaddingBeforeShape(year, month, firstWeekday);
    DatesOfMonthIsCalendarMonth(year, month);
    var before := PaddingBefore(year, month, firstWeekday);
    var current := DatesOfMonth(year, month);
    PaddingAfterShape(|before| + |current|);
  }

  /** Every cell of the page, by position: the previous month's last days,
      then 1..n, then 1, 2, ... of the next month. */
  lemma GridAt(year: int, month: int, firstWeekday: int, i: int)
    requires 0 <= month < 12
    requires 0 <= firstWeekday < 7
    requires 0 <= i < PageSize
    ensures var g := BuildGrid(year, month, firstWeekday);
      var k := g.lenBefore;
      var n := DaysInMonth(year, month);
      var p := if month == 0 then 31 else DateCounts[month - 1];
      g.dateArr[i] == if i < k then p - k + i + 1
                      else if i < k + n then i - k + 1
                      else i - k - n + 1
  {
    GridComposition(year, month, firstWeekday);
    PaddingBeforeShape(year, month, firstWeekday);
    var g := BuildGrid(year, month, firstWeekday);
    var before := PaddingBefore(year, month, firstWeekday);
    var n := DaysInMonth(year, month);
    var k := |before|;
    if i < k {
      assert g.dateArr[i] == before[i];
    } else if i < k + n {
      assert g.dateArr[i] == Range(n)[i - k];
    } else {
      assert g.dateArr[i] == Range(g.lenAfter)[i - k - n];
    }
  }

  /** Every cell holds a day number 1..31. */
  lemma GridDayNumbers(year: int, month: int, firstWeekday: int)
    requires 0 <= month < 12
    requires 0 <= firstWeekday < 7
    ensures forall i :: 0 <= i < PageSize ==> 1 <= BuildGrid(year, month, firstWeekday).dateArr[i] <= 31
  {
    forall i | 0 <= i < PageSize
      ensures 1 <= BuildGrid(year, month, firstWeekday).dateArr[i] <= 31
    {
      GridAt(year, month, firstWeekday, i);
      GridComposition(year, month, firstWeekday);
    }
  }

  /** The first nine cells of the pages the tests look at. February 2018
      starts on a Thursday, so four days of January come first. */
  lemma February2018()
    ensures BuildGrid(2018, 1, 4).dateArr[..9] == [28, 29, 30, 31, 1, 2, 3, 4, 5]
  {
    GridComposition(2018, 1, 4);
    forall i | 0 <= i < 9
      ensures BuildGrid(2018, 1, 4).dateArr[i] == [28, 29, 30, 31, 1, 2, 3, 4, 5][i]
    {
      GridAt(2018, 1, 4, i);
    }
  }

  /** January 2018 starts on a Monday; its one leading day is the 31st, read
      from the whole `DATES` table. */
  lemma January2018()
    ensures BuildGrid(2018, 0, 1).dateArr[..9] == [31, 1, 2, 3, 4, 5, 6, 7, 8]
  {
    GridComposition(2018, 0, 1);
    forall i | 0 <= i < 9
      ensures BuildGrid(2018, 0, 1).dateArr[i] == [31, 1, 2, 3, 4, 5, 6, 7, 8][i]
    {
      GridAt(2018, 0, 1, i);
    }
  }

  /** March 2018 starts on a Thursday, after a 28-day February. */
  lemma March2018()
    ensures BuildGrid(2018, 2, 4).dateArr[..9] == [25, 26, 27, 28, 1, 2, 3, 4, 5]
  {
    GridComposition(2018, 2, 4);
    forall i | 0 <= i < 9
      ensures BuildGrid(2018, 2, 4).dateArr[i] == [25, 26, 27, 28, 1, 2, 3, 4, 5][i]
    {
      GridAt(2018, 2, 4, i);
    }
  }

  /** The page of an Invalid Date is 25..31, 1..31, 1..4: a week of a
      31-day month, a 31-day month and four days, 42 cells in all. */
  lemma NaNGridShape()
    ensures var g := NaNGrid();
      && g.lenBefore == 7 && g.lenAfter == 4
      && |g.dateArr| == PageSize
      && g.dateArr == Range(31)[24..] + Range(31) + Range(4)
  {
    SliceUndefinedEnd(Dates);
    SliceSuffix(Dates, 7);
    PaddingAfterShape(38);
  }
}
