# A model of the date picker in `datepicker.js`

The date picker shows one month at a time as a table of 42 day cells: the
last days of the previous month, the days of the month, and the first days
of the next month. A module-level anchor, `curFirstDate`, is always day 1 of
the displayed month. The buttons move it one month back or on, a click on the
toggle control renders the month and shows or hides the picker, and a click
on a day cell writes `year-mm-dd` into the control and hides the picker.
Showing and hiding edit the picker element's `className` with four small
helpers: `hasClass`, `addClass`, `delClass` and `toggleClass`.

The Dafny project has six modules:

- `Js` (`js.dfy`) states the JavaScript built-ins the picker relies on. These
  are `slice` with negative and `undefined` bounds, reading an array past its
  end, `indexOf`, `replace` with a string pattern (first occurrence only),
  `trim` (spaces only, see Left out) and number-to-string, as ECMA-262 5.1
  defines them.
- `Calendar` (`calendar.dfy`) holds the grid arithmetic: the `DATE_COUNTS`,
  `DATES` and `PAGE_SIZE` tables, `isLeapYear`, `getDatesOfMonth`,
  `getPaddingBefore`, `getPaddingAfter` and the record `createDateArr`
  returns.
- `Render` (`render.dfy`) holds `render`'s loop as a method. It is proved
  against a specification of the markup it accumulates, together with the
  grey-cell test and the row structure.
- `Format` (`format.dfy`) holds `paddingLeft0`, the value `selectDate`
  writes and the title `setTitle` writes.
- `ClassList` (`classlist.dfy`) holds the four class-string helpers on a
  plain string. Each returns the new string with the flag the JavaScript
  function returns.
- `Picker` (`picker.dfy`) is a class whose fields are the anchor and every
  string the picker writes: the table body, the title, the control's value
  and the picker's class. Its methods are `createDateArr`, `render`,
  `setTitle`, `turnTo`, `prev`, `next`, `toggle` and `selectDate`.

The anchor is rebuilt by `new Date(year, month, 1)` every time a page is
built, and that constructor reads a year from 0 to 99 as 1900 + year
(section 15.9.3.1 of ECMA-262 5.1), while `setMonth` does not. So from
January of year 100, `prev` shows December 1999 and a following `next`
January 2000. The model keeps this: `Picker.FirstOfMonth` is the
constructor and `Picker.Step` the anchor after a turn.

A JavaScript date lies within 100,000,000 days of 1 January 1970 (section
15.9.1.1 of ECMA-262 5.1). Both `setMonth` and `new Date(year, month, 1)`
pass their result through TimeClip (section 15.9.1.14), which gives the
Invalid Date, whose time value is NaN, outside that range. For day 1 of a
month the range runs from May -271821 to September 275760, whatever the time
zone. `Picker.DayNumber` counts the days from 1 January 1970 to day 1 of a
month, and `Picker.DateRangeByDays` proves that the months in that range are
exactly those whose day 1 lies within the 100,000,000 days, with more than a
day to spare on either side. The model's anchor is therefore a `Picker.Date`: day 1 of a month, or
the Invalid Date. From September 275760, `next` gives the Invalid Date, and
from May -271821 `prev` does; no turn leaves it again, since `getMonth` and
`setMonth` give NaN. On the Invalid Date every `getFullYear`, `getMonth` and
`getDay` is NaN. The page is then 25..31, 1..31, 1..4, because `NaN > 0` is
false, `!NaN` is true and `DATE_COUNTS[NaN]` is `undefined`. The title is
`NaN年NaN月`, and a click writes `NaN-aN-` and the padded day.
`Picker.SetMonth` and `Picker.Turn` are `setMonth`'s month arithmetic before
the clip, and `Picker.Moved` applies it.

The weekday of day 1 (`getDay`) and today's date (`new Date()`) come from
the JavaScript `Date` library. Both are method parameters here.

The model follows the code as written, including two quirks.

- The previous month's length for the leading days comes from
  `DATE_COUNTS` without the leap day. So in March of a leap year the last
  leading day is the 28th where a calendar has the 29th, and the whole
  leading span is one day early: 22..28 instead of 23..29 when March starts
  on a Sunday, 24..28 instead of 25..29 when it starts on a Friday.
- For January, the code reads `DATE_COUNTS[12]`, which is `undefined`, so
  `slice(0, undefined)` keeps all 31 numbers. This agrees with December's
  length by coincidence.

A general description of the picker would say that the leading days are the
previous month's last days. The code does not quite do this, and the model
follows the code. `Calendar.PaddingBeforeAgainstCalendar` states exactly
where the two differ.

## Model

| member | source | states |
|---|---|---|
| `Calendar.IsLeapYear` | datepicker.js:146-148 | `isLeapYear` as written; its meaning is `Calendar.LeapYearRules` |
| `Calendar.Range` | datepicker.js:6 | definition: 1..n, of which `DATES` is the case n = 31; what the slices of it are is stated by `Calendar.DatesOfMonthIsCalendarMonth`, `Calendar.PaddingBeforeShape` and `Calendar.PaddingAfterShape` |
| `Calendar.DatesOfMonth` | datepicker.js:173-179 | `getDatesOfMonth`: `DATES` cut at the `DATE_COUNTS` entry, plus one for February of a leap year; its meaning is `Calendar.DatesOfMonthIsCalendarMonth` |
| `Calendar.PaddingBefore` | datepicker.js:190-196 | `getPaddingBefore`: the last `paddingLen` numbers of `DATES` cut at the previous month's `DATE_COUNTS` entry; its meaning is `Calendar.PaddingBeforeShape` |
| `Calendar.PaddingAfter` | datepicker.js:206-208 | `getPaddingAfter`: `DATES` cut at `PAGE_SIZE` (42, datepicker.js:7) less the cells before; its meaning is `Calendar.PaddingAfterShape` |
| `Calendar.BuildGrid` | datepicker.js:220-241 | the record `createDateArr` returns for a valid year and month; its meaning is `Calendar.GridComposition` |
| `Calendar.NaNGrid` | datepicker.js:190-241 | the record `createDateArr` returns when the date read is the Invalid Date; its meaning is `Calendar.NaNGridShape` |
| `Calendar.NaNGridShape` | datepicker.js:190-241 | on the Invalid Date the page is 25..31, 1..31, 1..4: 42 cells, seven leading and four trailing |
| `Calendar.LeapYearRules` | datepicker.js:146-148 | `isLeapYear` agrees with the leap-year rule of Appendix C of RFC 3339 for every year, and repeats every 400 years |
| `Calendar.LeapYearExamples` | datepicker-spec.js:9-14 | 2018 and 1999 are not leap years and 2000 and 2020 are, as the test expects; likewise 1900 and 2019 are not, and 2004 is |
| `Calendar.DatesOfMonthIsCalendarMonth` | datepicker.js:173-179 | `getDatesOfMonth(y, m)` is exactly 1..n for the Gregorian length n of the month; its length is 28..31, and it is 29 exactly for February of a leap year |
| `Calendar.LeapFebruary2016` | datepicker-spec.js:24-25 | February 2016 has 29 days and February 2017 has 28 |
| `Js.Slice` | datepicker.js:178 | `Array.prototype.slice` with negative, too-large and `undefined` bounds; its cases are `Js.SlicePrefix`, `Js.SliceUndefinedEnd` and `Js.SliceSuffix` |
| `Js.SlicePrefix` | datepicker.js:178 | `slice(0, n)` keeps the first n elements, or all of them when n passes the end |
| `Js.SliceUndefinedEnd` | datepicker.js:194 | `slice(0, undefined)` keeps the whole array |
| `Js.SliceSuffix` | datepicker.js:195 | `slice(-k)` keeps the last k elements for 1 <= k, and the whole array for k = 0 |
| `Calendar.PreviousMonthTable` | datepicker.js:193-194 | the previous-month numbers are 1..`DATE_COUNTS[m-1]`, and for January all of 1..31 because index 12 is `undefined` |
| `Calendar.PaddingBeforeShape` | datepicker.js:190-196 | the leading span has the first weekday's length, or 7 for a Sunday, so it is never empty and never over a week; it holds the last k numbers of the previous month's table entry, in order |
| `Calendar.PaddingBeforeAgainstCalendar` | datepicker.js:190-196 | against a real calendar, the leading span is right if and only if the month is not March of a leap year |
| `Calendar.MarchOfLeapYear` | datepicker.js:193-195 | March 2020, which starts on a Sunday, opens with 22..28 while February 2020 has 29 days |
| `Calendar.PaddingAfterShape` | datepicker.js:206-208 | the trailing span is 1..(42 - cells before) |
| `Calendar.GridComposition` | datepicker.js:220-241 | the page is the leading span, the month and the trailing span, in that order; it is always 42 cells; `lenBefore` and `lenAfter` are the span lengths; `lenBefore` is 1..7 and `lenAfter` is 4..13 |
| `Calendar.GridAt` | datepicker.js:232-238 | cell i holds the last days of the previous month, then 1..n, then 1, 2, ... by position |
| `Calendar.GridDayNumbers` | datepicker.js:236-240 | every cell holds a day number from 1 to 31 |
| `Calendar.February2018` | datepicker-spec.js:38-41 | February 2018, which starts on a Thursday, opens 28, 29, 30, 31, 1..5 |
| `Calendar.January2018` | datepicker-spec.js:42-43 | January 2018, which starts on a Monday, opens 31, 1..8 |
| `Calendar.March2018` | datepicker-spec.js:56-57 | March 2018, which starts on a Thursday, opens 25..28, 1..5 |
| `Render.IsGray` | datepicker.js:261 | the loop's grey test: a cell is grey before `lenBefore` or after `PAGE_SIZE - lenAfter - 1` |
| `Render.CellMarkup` | datepicker.js:262-269 | one cell's `<td>`, opened with `<tr>` in the first column and closed with `</tr>` in the seventh |
| `Render.Markup` | datepicker.js:259-271 | the html of the first n cells, which `Render.RenderHtml` accumulates |
| `Render.RenderHtml` | datepicker.js:250-271 | the loop's html is the markup of all the page's cells in order |
| `Render.RenderCell` | datepicker.js:261-270 | one turn of the loop appends cell i's `<td>`, with `<tr>` before the first of a row and `</tr>` after the seventh |
| `Render.CellIs` | datepicker.js:261 | the loop's class test on the two bounds picks the cell's `<td>` |
| `Render.MarkupInRow` | datepicker.js:264-269 | inside a row, the markup so far is the earlier rows followed by the open row's cells |
| `Render.MarkupRow` | datepicker.js:262-269 | seven cells from a row boundary add one whole `<tr>` row |
| `Render.MarkupIsRows` | datepicker.js:259-271 | the markup of 7k cells is k complete rows |
| `Render.PageIsSixRows` | datepicker.js:7 | a 42-cell page renders as exactly six complete rows |
| `Render.GrayCellsOutsideMonth` | datepicker.js:254-261 | on a page `createDateArr` builds, a cell is not grey if and only if it holds a day of the displayed month, and those cells read 1..n |
| `Render.SundayStartsWithGrayRow` | datepicker.js:192 | a month starting on a Sunday opens with a whole grey row, and its 1st is the eighth cell |
| `Js.IntToString` | datepicker.js:283 | number-to-string for an integer, with `-` before a negative one; its meaning is `Js.NatToStringShape` and `Js.NatToStringRoundTrip` |
| `Js.NatToStringShape` | datepicker.js:265 | a number becomes a non-empty string of digits that ends in its last digit, one character long exactly below 10 |
| `Js.NatToStringRoundTrip` | datepicker.js:363 | the decimal string of a number reads back as that number |
| `Format.PaddingLeft0` | datepicker.js:345-347 | `('0' + num).slice(-2)`; its meaning is `Format.PaddingLeft0Digits` |
| `Format.DateValue` | datepicker.js:359-363 | the string `selectDate` writes for a valid month; its meaning is `Format.DateValueFields` |
| `Format.Title` | datepicker.js:283 | the string `setTitle` writes for a valid month; its meaning is `Format.TitleFields` |
| `Format.PaddingLeft0Digits` | datepicker.js:345-347 | `paddingLeft0` keeps the last two decimal digits, with a zero before a single digit |
| `Format.PaddingLeft0TwoPlaces` | datepicker.js:345-347 | for 1..99, the padded form is two characters: `0` and the digit below 10, else the number itself; it reads back as the number |
| `Format.DateValueFields` | datepicker.js:359-363 | the written value is the year, `-` and the month in two places, then `-` and the day in two places, and each field reads back |
| `Format.DateValueFebruary7` | datepicker.js:363 | the 7th with February 2018 shown gives `2018-02-07` |
| `Format.DateValueFebruary28` | datepicker.js:363 | the 28th with February 2018 shown gives `2018-02-28` |
| `Format.TitleFields` | datepicker.js:283 | for a year from 0 on, the title is the year's digits up to its first `年`, which read back as the year, then the 1-based month up to the final `月`, which reads back as the month |
| `Format.TitleInjective` | datepicker.js:283 | different months of years from 0 on get different titles |
| `Format.TitleExample` | datepicker.js:283 | February 2018's title is `2018年2月` |
| `Js.IndexOf` | datepicker.js:79 | `indexOf` on a string; its meaning is `Js.IndexOfSpec` |
| `Js.Replace` | datepicker.js:114 | `replace` with a string pattern: the first occurrence only; its meaning is `ClassList.DelClassFirstOnly` |
| `ClassList.HasClass` | datepicker.js:76-80 | `hasClass` as written; its meaning is `ClassList.HasClassIffWord` |
| `ClassList.AddClass` | datepicker.js:92-100 | `addClass` as written; its meaning is `ClassList.AddClassEffect` |
| `ClassList.DelClass` | datepicker.js:112-119 | `delClass` as written; its meaning is `ClassList.DelClassAbsent` and `ClassList.DelClassUndoesAddClass` |
| `ClassList.ToggleClass` | datepicker.js:130-132 | `toggleClass` as written; its meaning is `ClassList.ToggleTwice` |
| `Js.IndexOfSpec` | datepicker.js:79 | `indexOf` is -1 exactly when the pattern never occurs, and otherwise is the first place where it occurs |
| `Js.Trim` | datepicker.js:94 | a trimmed string neither starts nor ends with a space |
| `Js.TrimIsInfix` | datepicker.js:94 | trimming keeps the piece of the string between a run of leading spaces and a run of trailing spaces |
| `Js.TrimTrimmed` | datepicker.js:94 | trimming a trimmed string changes nothing |
| `Js.TrimPadded` | datepicker.js:114 | a trimmed string with a space on each side trims back to itself |
| `ClassList.HasClassIffWord` | datepicker.js:76-80 | for a class name without spaces, `hasClass` holds if and only if the name is one of the space-separated pieces of the class string |
| `ClassList.NotInsideWord` | datepicker.js:79 | in a class string without spaces, only the whole string is found, so `hello` is not found in `helloworld` |
| `ClassList.FoundAsWord` | datepicker.js:79 | a class name with a space on each side is found, whatever surrounds it |
| `ClassList.HasClassTrim` | datepicker.js:79 | whatever is found in the trimmed class string is found in the class string |
| `ClassList.AddClassEffect` | datepicker.js:92-100 | without the class, `addClass` reports success and yields the trimmed string, a space and the class (or the class alone), after which `hasClass` holds; with the class, it reports failure and changes nothing |
| `ClassList.DelClassAbsent` | datepicker.js:112-119 | `delClass` without the class reports failure and leaves the string unchanged |
| `ClassList.LastWordFirstOccurrence` | datepicker.js:114 | in a string that holds the class only as its appended last word, the first match `replace` finds is that last word |
| `ClassList.DelClassUndoesAddClass` | datepicker.js:92-119 | `addClass` of an absent class followed by `delClass` gives the trimmed original string |
| `ClassList.DelClassFirstOnly` | datepicker.js:114 | `delClass` replaces only the first occurrence: from `c c` it leaves `c`, which `hasClass` still finds |
| `ClassList.AddThenDelete` | datepicker.js:130-132 | on a trimmed class string without the class, `toggleClass` appends it and `delClass` gives the string back |
| `ClassList.ToggleTwice` | datepicker.js:130-132 | toggling an absent class makes `hasClass` true, and toggling twice gives the trimmed original string |
| `Picker.SetMonth` | datepicker.js:295 | `setMonth(m)`'s arithmetic on day 1, before TimeClip (MakeDay, section 15.9.1.12 of ECMA-262 5.1): the month is in 0..11 and the month count is year·12 + m, so the overflow carries into the year |
| `Picker.Turn` | datepicker.js:293-295 | the month `turnTo(offset)`'s `setMonth` computes before TimeClip: a month in 0..11, `offset` months from the anchor |
| `Picker.TurnCompose` | datepicker.js:293-298 | before TimeClip, two turns are one turn by the sum of the offsets |
| `Picker.TurnZero` | datepicker.js:293-295 | a turn by 0 keeps the month |
| `Picker.NextThenPrev` | datepicker.js:307-320 | before TimeClip, the month arithmetic of `next` then `prev`, and the other way round, gives back the month |
| `Picker.TurnOneMonth` | datepicker.js:295 | December + 1 is January of the next year, January - 1 is December of the year before, and other months stay in their year |
| `Picker.YearWrapExamples` | datepicker.js:295 | December 2018 + 1 is January 2019, and January 2018 - 1 is December 2017 |
| `Picker.DayNumber` | datepicker.js:295 | definition: the days from 1 January 1970 to day 1 of a month, as Day and MakeDay (sections 15.9.1.2 and 15.9.1.12 of ECMA-262 5.1) count them |
| `Picker.DayNumberEpoch` | datepicker.js:295 | the count is 0 for January 1970 and 30·365 + 7 + 31 + 29 for March 2000 |
| `Picker.DayNumberNext` | datepicker.js:295 | one month on, the count grows by the Gregorian length of the month left, leap Februaries included |
| `Picker.DayNumberGrows` | datepicker.js:293-295 | k months on, the count grows by between 28·k and 31·k days |
| `Picker.DateRangeEnds` | datepicker.js:295 | day 1 of May -271821 is 100,000,000 - 11 days before 1 January 1970, day 1 of September 275760 is 100,000,000 - 12 days after it |
| `Picker.DateRangeByDays` | datepicker.js:295 | a month lies from May -271821 to September 275760 exactly when its day 1 is within 100,000,000 days of 1 January 1970: months inside are at least 11 days within the bound, months outside at least 16 days beyond it |
| `Picker.Clip` | datepicker.js:295 | TimeClip on day 1 of a month: the date is day 1 of that month when its day count from 1 January 1970 is at most 100,000,000 either way, and the Invalid Date otherwise |
| `Picker.FirstOfMonth` | datepicker.js:159-162 | `new Date(year, month, 1)`: years 0..99 read as 1900 onwards, the month carried into the year, the result clipped to the date range; for a month in 0..11 the result is one the picker can hold |
| `Picker.FirstOfMonthShape` | datepicker.js:159-162 | for a month in 0..11, a valid result keeps the month and the year's last two digits and never has a year from 0 to 99; the result is day 1 of the given month exactly when the year is not 0..99 and the month is in the date range; a year 0..99 always gives a valid date |
| `Picker.FirstOfMonthClip` | datepicker.js:159-162 | for a month in 0..11 nothing carries: the result is the month with its year as the constructor reads it, clipped |
| `Picker.RebuiltYear0` | datepicker.js:160 | `new Date(0, 0, 1)` is 1 January 1900 |
| `Picker.Rebuilt` | datepicker.js:228-230 | the anchor `createDateArr` stores from a date: `new Date` of its year and month, always one the picker can hold; the Invalid Date stays invalid |
| `Picker.RebuiltHeld` | datepicker.js:228-230 | rebuilding an anchor the picker holds changes nothing |
| `Picker.Moved` | datepicker.js:293-295 | the anchor after `setMonth(getMonth() + offset)`: when valid it lies in the date range `offset` months on; it is valid whenever that month lies in the range; the Invalid Date stays invalid |
| `Picker.MovedInRange` | datepicker.js:293-295 | a move whose month count stays in the date range gives day 1 of the month reached |
| `Picker.MovedToYear0` | datepicker.js:295 | `setMonth` does not read years 0..99 as 1900 onwards: December of year -1 plus one month is January of year 0 |
| `Picker.Step` | datepicker.js:293-296 | the anchor after `turnTo(offset)`, `setMonth` followed by `createDateArr`'s rebuild (datepicker.js:230), is always one the picker can hold |
| `Picker.StepFromDay1` | datepicker.js:293-296 | from day 1 of a valid month, a turn gives `new Date` of the month reached when that month lies in the date range, and the Invalid Date otherwise |
| `Picker.StepThereAndBack` | datepicker.js:293-320 | a turn that stays in the date range and off the years 0..99 is undone by the opposite turn |
| `Picker.NextThenPrevAnchored` | datepicker.js:293-320 | for every anchor the picker can hold, `next` then `prev` gives it back exactly when it is neither December of year -1 nor September 275760 |
| `Picker.PrevThenNextAnchored` | datepicker.js:293-320 | for every anchor the picker can hold, `prev` then `next` gives it back exactly when it is neither January of year 100 nor May -271821 |
| `Picker.NextFromYearMinus1` | datepicker.js:230 | from December of year -1, `next` gives January 1900 |
| `Picker.PrevFrom1900` | datepicker.js:293-296 | from January 1900, `prev` gives December 1899 |
| `Picker.PrevFromYear100` | datepicker.js:230 | from January of year 100, `prev` gives December 1999 and a following `next` January 2000 |
| `Picker.LeavingTheRange` | datepicker.js:293-296 | `next` from September 275760 and `prev` from May -271821 give the Invalid Date, and no turn leaves it |
| `Picker.ChosenDate` | datepicker.js:223-225 | the date `createDateArr` reads: the given one, else the stored anchor, which is truthy even when invalid, else today |
| `Picker.Page` | datepicker.js:220-241 | the page `createDateArr` builds from a date: `Calendar.BuildGrid` of its year and month, with a leading span of 7 when the rebuilt anchor is invalid, or `Calendar.NaNGrid` on the Invalid Date |
| `Picker.Shown` | datepicker.js:222-273 | the table body `render(createDateArr())` writes |
| `Picker.DateTitle` | datepicker.js:282-284 | the title `setTitle` writes, with NaN printed as `NaN` |
| `Picker.SelectedValue` | datepicker.js:359-363 | the value `selectDate` writes, with NaN printed as `NaN` |
| `Picker.InvalidDateShown` | datepicker.js:190-241 | on the Invalid Date the page is 25..31, 1..31, 1..4 with seven grey cells before and four after, the title is `NaN年NaN月` (datepicker.js:283) and a click writes `NaN-aN-` and the padded day (datepicker.js:359-363) |
| `Picker.Picker.constructor` | datepicker.js:9 | on load there is no anchor, the table body and title are the template's empty ones, the control keeps the host page's value, and the picker has the template's class `m-datepicker` |
| `Picker.Picker.CreateDateArr` | datepicker.js:220-241 | the chosen date is the given one, else the stored anchor, else today; the anchor becomes its rebuild, which the picker can always hold; the returned page is the chosen date's page; nothing else changes |
| `Picker.Picker.DoRender` | datepicker.js:250-273 | the table body becomes the page's markup, and nothing else changes |
| `Picker.Picker.SetTitle` | datepicker.js:282-284 | the title names the anchor's year and 1-based month, or is `NaN年NaN月`, and nothing else changes |
| `Picker.Picker.TurnTo` | datepicker.js:293-298 | the table body shows the page of the anchor moved by `offset` months, which may be the Invalid Date; the anchor is its rebuild and the title names it; the value and class are unchanged |
| `Picker.Picker.Prev` | datepicker.js:307-309 | the anchor moved a month back is rendered, and the anchor and title are its rebuild |
| `Picker.Picker.Next` | datepicker.js:318-320 | the anchor moved a month on is rendered, and the anchor and title are its rebuild |
| `Picker.Picker.Toggle` | datepicker.js:437-442 | the stored anchor, or on the first call today's month, is rendered; the anchor stays, or is `new Date` of today's month, and is titled; `z-show` is toggled on the picker's class |
| `Picker.Picker.SelectDate` | datepicker.js:356-367 | a click on a cell writes the anchor's year and month with the cell's text as the day, even for a grey cell, and deletes `z-show`; any other click changes nothing |
| `Picker.ShowClassAbsent` | datepicker.js:45 | the template's class string does not hold `z-show` |
| `Picker.Session` | datepicker.js:437-442 | from the loaded state, a toggle shows the picker; a click on a cell writes today's month, as `new Date` reads it, with that day and hides the picker; a second toggle shows it again; `next` then `prev` returns to that month exactly when it is neither December of year -1 nor September 275760 |

## Left out

- DOM construction and wiring (`template`, `html2Node`, `initDom`, `bindEvent`, `initEvent`, the `Datepicker` constructor): browser plumbing. The model keeps only the strings written into the document, as fields of `Picker.Picker`.
- Writing to `innerHTML` and `value`, and parsing the written HTML: these are DOM effects. The model records the written strings.
- `calcPosition` and `setPosition`: they read viewport and element sizes and compute fractional pixel offsets.
- `bodyClickHandler`, and the order in `toggle` that shows the picker before measuring it: both depend on DOM containment and layout.
- `new Date()` and `getDay`, and the weekday computation behind them: today's month and the weekday of day 1 are parameters.
- `Date.setMonth` when the day is not 1: the anchor is always day 1, so no day overflow can happen.
- `hasClass` on a missing element, which returns `undefined`: the picker always passes its own element.
- `trim` removes only the space character here. Class strings written by the picker hold no other white space.
- `datepicker-spec.js` as an executable test: it uses `createDateArr()`'s result as an array and the results of `prev()` and `next()`, which return nothing. Its numbers appear only as concrete examples.
- Picker.Picker.TurnTo: requires a stored anchor. The source reads `curFirstDate.getMonth()` and throws a `TypeError` before the first `createDateArr`; no button can be reached before `toggle` has set the anchor.
- Picker.Picker.SelectDate: requires a stored anchor on a cell click, for the same reason. The table body is empty until `toggle` has rendered it.
