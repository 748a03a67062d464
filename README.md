# fastui-calendar in Dafny

A model of the calendar components of `index.js`, a React Native
calendar built on `moment`. The modelled parts are:

- `Calendar`, the outer component. It steps `startTime` one month at a
  time, and lists one header entry and one body entry for each step that
  is on or before `endTime`'s day. It also lists the indices of the
  headers, which the scroll view keeps sticky. Because the comparison is
  by day, the month of `endTime` is dropped when the stepped day of the
  month is later than `endTime`'s (see Findings).
- `MonthBody`. It builds a dictionary of day cells for one month, merges
  three per-date feature maps into it (`holiday`, `active`, `note`), and
  precedes the first day with blank cells so that each day stands under
  its weekday.
- `MonthBodyCell`, `MonthHeader` and `CalendarHeader`. These decide what
  text a cell, a month title or the header row shows, and which style or
  colour it gets.

## Module layout

| file | module | what it holds |
|---|---|---|
| `wrappers.dfy` | `Wrappers` | `Option`, `Result` and the one error kind, a JavaScript `TypeError` |
| `dates.dfy` | `Dates` | the Gregorian arithmetic the components borrow from `moment` |
| `decimal.dfy` | `Decimal` | decimal rendering of integers, as JSX prints them, and its inverse |
| `day_cells.dfy` | `DayCells` | day cells, `addFeature` as a fold, and the dictionary as a class |
| `month_body.dfy` | `MonthBody` | the day-cell loop, the disabled flag, the three merges, the blanks |
| `calendar.dfy` | `Calendar` | moments as objects, the month loop, the default props |
| `month_body_cell.dfy` | `MonthBodyCell` | cell text, date style and text colour |
| `month_header.dfy` | `MonthHeader` | the `{year}年{month + 1}月` title |
| `calendar_header.dfy` | `CalendarHeader` | the weekday row and its weekend colour |

## Modelling choices

- **Dates.** A date is `Date(year, month, day)`, with a 0-based month and a
  1-based day, as `moment` reports them.
  - `DayNumber` counts days from 1 January of year 1.
  - `DayOfWeek` is `moment`'s `day()`, where 0 is Sunday.
  - Day-granularity comparisons (`isAfter(x, 'day')`,
    `isSameOrAfter(x, 'day')`) are the lexicographic order `Before` on
    (year, month, day). `DayNumberOrder` proves that this order is the same
    as comparing day counts.
- **Stepping a month.** `add(1, 'month')` is `AddOneMonth`. It clamps the
  day of the month to the length of the next month. `Calendar.render`
  calls it repeatedly on one object, so the clamping accumulates. That
  repeated stepping is `Step`, which differs from a single
  `add(k, 'month')` (`AddMonths`, which the default `endTime` uses).
- **The current time is a parameter** (`today` and `millis`, the
  milliseconds since local midnight). Instant comparison without a unit
  (`isBefore(moment().subtract(1, 'day'))`) compares
  `DayNumber * MsPerDay + millis`.
  - The cell's moment is first moved to midnight (index.js:83). So a cell is
    disabled exactly when its day is at least two days before today, or
    when it is yesterday and the clock is past midnight (`DisabledDays`).
  - At exactly 00:00:00.000, yesterday stays enabled.
- **Display keys.** `startDay.format(displayFormat)` is taken to be
  injective on the dates of one month, so a cell's key is its date. A
  feature key is matched to a cell by its formatted string (index.js:116-117),
  so the parameter `norm: K -> Option<Date>` of each month's render means:
  the date of this month whose key equals `format(parse(k))`, or `None`
  when there is none. A key that `moment` cannot parse formats as "Invalid
  date" and matches no cell. With a `displayFormat` that tells months apart
  (the default `YYYY-MM-DD`), `norm` names exactly the key's own date when
  it falls in this month; with one that omits the month or the year (such
  as `'D'`), a key dated in another month is matched to a cell of this one,
  and `norm` then names that cell.
- **Feature maps.** A feature map is a sequence of (key, value) pairs in
  `Object.keys` order.
  - An absent map (`undefined`) makes `Object.keys` throw, which the model
    returns as `Err(TypeError)`.
  - `addFeature` updates the dictionary in place. So `DayCellTable` is a
    class whose `AddFeature` loop is proved equal to `Merge`, a left fold.
- **Moments are objects.** `Calendar.Moment` has a date and a time of day.
  `Calendar.Render` changes the caller's `startTime`, as the source does
  (see Findings).

## Model

| member | source | states |
|---|---|---|
| `Dates.DaysInMonth` | index.js:75-79 | the body is the Gregorian month-length table (February 29 days in a leap year, 28 otherwise); the contract bounds every month to 28..31 days, and `MonthsFillYear` checks that the months add up to the year's length |
| `Dates.MonthsFillYear` | index.js:75-79 | the twelve month lengths add up to 365 days, 366 in a leap year |
| `Dates.NextDay` | index.js:88 | `add(1, 'day')`: the next day of the month, or the 1st of the next month after a month's last day, or 1 January after 31 December |
| `Dates.DayOfWeek` | index.js:97 | `day()`: the weekday as 0 (Sunday) to 6 (Saturday), computed from the day count |
| `Dates.Before` | index.js:79 | `isAfter(x, 'day')` and `isSameOrAfter(x, 'day')`: (year, month, day) compared in that order |
| `Dates.AddOneMonth` | index.js:156 | `add(1, 'month')` yields a valid date in the next month; the day of the month is kept when it fits and is otherwise clamped to the last day |
| `Dates.AddMonths` | index.js:174 | `add(k, 'month')` lands k months later, with the day clamped once to the target month's length |
| `Dates.Step` | index.js:138-157 | k successive `add(1, 'month')` calls on one moment land k months later, and the day of the month never grows |
| `Dates.StepShift` | index.js:156 | stepping once and then k times is stepping k + 1 times |
| `Dates.StepLater` | index.js:138-156 | more steps never give an earlier date |
| `Dates.AddOneMonthLater` | index.js:156 | each `add(1, 'month')` moves to a strictly later day, so the month loop ends |
| `Dates.NextDayNumber` | index.js:88 | `add(1, 'day')` gives a valid date whose day count is one more |
| `Dates.NextDayWeekday` | index.js:88 | one day later is one weekday later, with Saturday followed by Sunday |
| `Dates.NextMonthStart` | index.js:75-79 | the day after the last day of a month is the first of the next month, DaysInMonth days after this month's first |
| `Dates.WeekdayInMonth` | index.js:97 | day k of a month falls k - 1 weekdays after the first, modulo 7 |
| `Dates.DayNumberOrder` | index.js:79 | day-granularity comparison of valid dates is comparison of day counts, and equal day counts mean equal dates |
| `Dates.MonthIndexOrder` | index.js:138 | a date in an earlier month has a smaller day count |
| `Dates.FourHundredYearCycle` | index.js:97 | the calendar, weekdays included, repeats every 400 years (146097 days) |
| `Dates.EpochIsThursday` | index.js:97 | the weekday numbering is anchored correctly: 1 January 1970 has `day()` 4, a Thursday |
| `Decimal.FromInt` | index.js:57 | a rendered integer is non-empty, consists of digits with an optional leading minus, and starts with '-' exactly for negatives |
| `Decimal.IntRoundTrip` | index.js:30 | reading back a rendered integer gives the integer |
| `Decimal.FromIntInjective` | index.js:30 | different integers render differently |
| `DayCells.SetFeature` | index.js:118 | `dayCells[key][featureName] = value` writes that feature and leaves the other features, the date, the day number and the disabled flag alone |
| `DayCells.InsertKey` | index.js:80-82 | spreading a key into the dictionary keeps the old keys in their places, appends a new key last and otherwise changes nothing, and keeps the keys free of duplicates |
| `DayCells.ApplyEntry` | index.js:116-119 | one callback of `addFeature`: a key that names an existing cell sets that cell's feature to the key's value; any other key leaves the cells alone |
| `DayCells.Merge` | index.js:114-121 | `addFeature`: the callbacks applied one after another in the map's key order |
| `DayCells.LastValue` | index.js:115-118 | the reference for a merge's outcome: the value of the last key naming a date, or none |
| `DayCells.MergeSnoc` | index.js:115-120 | merging one more entry is applying that entry to the merge of the others |
| `DayCells.MergeEffect` | index.js:114-121 | `addFeature` adds and removes no key; each cell's feature becomes the value of the LAST key that names its date, or keeps its old value when no key does |
| `DayCells.MergeTouchesOnlyFeature` | index.js:118 | a merge changes only the named feature of any cell |
| `DayCells.MergeLeavesUnnamed` | index.js:117 | a cell that no key names is left exactly as it was |
| `DayCells.MergeIgnoresForeign` | index.js:116-117 | keys whose formatted string matches no cell key change nothing; with a `displayFormat` that tells months apart, these are the keys that do not parse or are dated outside the month |
| `DayCells.MergeIdempotent` | index.js:114-121 | merging the same map twice equals merging it once |
| `DayCells.MergeThree` | index.js:92-94 | after the holiday, active and note merges, a cell that had no features carries each feature's last matching value |
| `DayCells.LastValueNone` | index.js:115-118 | no value reaches a date exactly when no key names it |
| `DayCells.LastValueIsLatest` | index.js:115-118 | the value that wins is that of the latest key naming the date |
| `DayCells.DayCellTable.AddFeature` | index.js:114-121 | the in-place loop over the keys keeps the key order and leaves the dictionary equal to `Merge` of its old contents |
| `DayCells.DayCellTable.Cells` | index.js:104-107 | `Object.keys(dayCells).map(...)` lists one cell per key, in key order |
| `DayCells.InKeyOrder` | index.js:104-107 | the listed cells are the dictionary's values at each key, in order |
| `MonthBody.IsDisabled` | index.js:83-85 | the cell's midnight is earlier than the current instant one day ago |
| `MonthBody.NewCell` | index.js:80-86 | a fresh cell: its date, its day of the month as `dateText`, its disabled flag, and no feature |
| `MonthBody.DisabledDays` | index.js:83-85 | a cell is disabled exactly when its day is two or more days before today, or is yesterday with the clock past midnight |
| `MonthBody.DisabledIffPast` | index.js:85 | after midnight, a cell is disabled exactly when its day is before today |
| `MonthBody.TodayOnwardEnabled` | index.js:85 | today and later days are never disabled |
| `MonthBody.GenerateDayCells` | index.js:75-89 | the loop makes one cell per day of the month, keyed in order from the 1st, each with its date, its day number and its disabled flag and no feature |
| `MonthBody.Render` | index.js:71-111 | `TypeError` exactly when a feature map is absent; otherwise the blanks count is the weekday of the 1st, there is one cell per day in day order with the fields above and the last matching feature values, and each cell stands in the column of its weekday |
| `MonthBody.AddFeatures` | index.js:92-94 | the key order never changes; the merges succeed exactly when all three maps are present, and then the cells are the holiday, active and note merges applied in that order |
| `MonthBody.IsRenderedMonth` | index.js:97-110 | what a rendered month holds: the blank count and, cell by cell, the date, day number, disabled flag, last matching feature values and weekday column |
| `MonthBody.DaysAsGenerated` | index.js:80-94 | cell i of the listed, merged dictionary is day i + 1 with its day number, its disabled flag and its last matching feature values |
| `MonthBody.ColumnsAreWeekdays` | index.js:97-104 | after `blanksNum` blank cells, day cell i sits in column `(blanksNum + i) % 7`, which is its weekday |
| `MonthBody.BlanksInRange` | index.js:97-103 | between 0 and 6 blank cells precede the 1st |
| `MonthBodyCell.CellText` | index.js:57 | the holiday text when it is truthy, otherwise the decimal form of `dateText` |
| `MonthBodyCell.ResolveColour` | index.js:47-51 | a style array's colour: that of the last entry that sets one |
| `MonthBodyCell.TextColourOf` | index.js:47-51 | the date text's style array: the plain text style, then white when filled, then grey when disabled |
| `MonthBodyCell.CellTextMeaning` | index.js:57 | a cell shows its holiday text when one is set; otherwise it shows a decimal number that reads back as its day number |
| `MonthBodyCell.DateStyleOf` | index.js:42-44 | the date is a filled circle exactly for `active` 'fill' and a bordered circle exactly for 'border' |
| `MonthBodyCell.TextColourRule` | index.js:47-51 | disabled text is grey even on a filled circle; otherwise filled text is white, and other text keeps the default colour |
| `MonthBodyCell.StyleFollowsLatestKey` | index.js:115-118 | a cell's style follows the latest `active` key naming its day |
| `MonthHeader.Title` | index.js:30 | the month title: the year, 年, the 1-based month and 月 |
| `MonthHeader.TitleRoundTrip` | index.js:30 | the title `{year}年{month + 1}月` can be read back to the year and the 0-based month |
| `MonthHeader.TitleInjective` | index.js:30 | different months have different titles |
| `CalendarHeader.HeaderColour` | index.js:8-14 | over the names of the constant `Week` (日, 一, ... 六, Sunday first), a header column is red exactly under 日 (Sunday) and 六 (Saturday) |
| `CalendarHeader.HeaderOfDate` | index.js:12-14 | a date's column header is red exactly for weekend days, and the next day sits under the next name, cyclically |
| `CalendarHeader.EpochUnderThursday` | index.js:8 | the Sunday-first names line up with the weekdays: 1 January 1970 is under 四 |
| `Calendar.Moment.AddOneMonth` | index.js:156 | `startTime.add(1, 'month')` changes the moment itself, to the next month with the day clamped, and keeps its time of day |
| `Calendar.Moment.IsSameOrAfterDay` | index.js:138 | `isSameOrAfter(other, 'day')`: this moment's day is not before the other's |
| `Calendar.Moment.Clone` | index.js:130-131 | a fresh moment with the same date and time of day, the copy the corrected loop steps |
| `Calendar.MonthList` | index.js:138-151 | the entries the loop produces: while `endTime`'s day is not before the stepped start, a header and a body for the start's year and month, then the rest from one month later |
| `Calendar.Render` | index.js:130-157 | `months` is `MonthList` of the old `startTime`: one header/body pair per one-month step of `startTime` that is on or before `endTime`'s day; header j is at `stickyHeaderIndices[j] == 2 * j`; `startTime` is left stepped once per month listed, past `endTime` |
| `Calendar.MonthListLength` | index.js:138-157 | the list has even length, and stepping once per pair leads past `endTime` |
| `Calendar.MonthListPair` | index.js:139-151 | pair i is the header and the body of the start stepped i months, and that date is on or before `endTime` |
| `Calendar.MonthListShape` | index.js:138-157 | the list alternates headers and bodies for the successive steps; every listed step is on or before `endTime` and the next is after it |
| `Calendar.MonthListEmpty` | index.js:138 | no month is listed exactly when `endTime` is on an earlier day than `startTime` |
| `Calendar.MonthListSuccessive` | index.js:143-156 | consecutive pairs are consecutive months, and December is followed by January of the next year |
| `Calendar.DefaultEndTime` | index.js:174 | `moment().add(5, 'month')`: five months after now, the day clamped once |
| `Calendar.DefaultRangeSixMonths` | index.js:172-175 | with the default props the calendar lists six months: twelve entries |
| `Calendar.RenderTwice` | index.js:130-157 | rendering twice with the same moment objects: the second render lists no month |
| `Calendar.SharedDefaultsCounterexample` | index.js:172-175 | with the default props made on 15 January 2024, the first render lists twelve entries and the second none |
| `Calendar.RenderFromCopy` | index.js:130-157 | the month loop run on a clone of `startTime` gives the same list and sticky indices and leaves the caller's moments unchanged |
| `Calendar.RenderFromCopyTwice` | index.js:130-157 | rendering from a copy twice gives the same months both times |
| `Calendar.AliasedIterations` | index.js:138-156 | with one moment object as both bounds, the loop guard still holds after any number of iterations: the loop does not end before the date leaves JavaScript's `Date` range (millions of iterations), so in practice the render hangs |
| `Calendar.RenderFromCopySameMoment` | index.js:130-157 | rendering from a copy with one moment as both bounds ends, listing that moment's month once |
| `Calendar.DroppedEndMonth` | index.js:138-156 | from 20 January to 10 June 2024 the loop lists five months (ten entries), dropping June, while the months spanned are six (twelve entries) |
| `Calendar.MonthPair` | index.js:139-151 | the header and body entries of one month index, with its year and month |
| `Calendar.MonthSpan` | index.js:138-151 | the intended listing: a header and a body for every month from a first to a last month index |
| `Calendar.MonthSpanLength` | index.js:138-157 | a span lists two entries per month from the first to the last, both included |
| `Calendar.MonthSpanPair` | index.js:139-151 | pair i of a span is the header and the body of month `first + i` |
| `Calendar.MonthSpanHeaders` | index.js:152-155 | every even entry of a span is a header |
| `Calendar.MonthSpanCoversBothEnds` | index.js:138-157 | the span from `startTime`'s month to `endTime`'s month begins with the first and ends with the last, whatever the days of the month are |
| `Calendar.RenderMonthSpan` | index.js:130-157 | the loop compared at month granularity on a clone: `months` is the span of the months of `startTime` and `endTime`, with the same sticky indices, and the caller's moments unchanged |

## Left out

- React rendering, `StyleSheet`, the float layout, `PixelRatio` and `Dimensions`: the model stops at the values passed to the views (texts, style choices, blank count, the order of cells and entries).
- `ScrollView` and how it treats `stickyHeaderIndices`: only the indices are modelled.
- The clock: `moment()` is the parameter pair `today`/`millis`. The model takes one reading for a whole render, whereas the source reads the clock once per cell. Time zones and daylight-saving shifts are not modelled: every day is `MsPerDay` long.
- `moment`'s parsing and formatting: `norm` stands for matching `format(parse(k))` against this month's cell keys, and `format(displayFormat)` is assumed injective on the dates of one month. Different keys that match the same cell are handled: the later key wins.
- `Object.keys` ordering of integer-like keys, which JavaScript lists first in ascending order: the day-cell keys are taken in insertion order, which holds for any `displayFormat` whose keys are not integer-like (the default `YYYY-MM-DD` is not). A feature map's keys are taken in the order the caller's `Object.keys` gives; that order is the sequence passed in, whatever the caller's keys are.
- `moment.isMoment(x) ? x : moment(x)` (index.js:131-132): only moment objects are modelled, so `Calendar.Render` takes `Moment` objects. For a non-moment prop the source builds a fresh moment and does not change the prop.
- `Calendar.Render`: requires `startTime != endTime`. When both props are one moment object, each step advances the end as well, and the source loop does not end before the date leaves JavaScript's `Date` range (see Findings; `Calendar.AliasedIterations` shows it).
- JavaScript's `Date` range: dates are unbounded here, while a JavaScript `Date` ends in year 275760, past which `moment` comparisons return false. The model does not have that end.
- JavaScript truthiness is modelled for the string feature values only: a missing or empty holiday text falls back to the day number. Feature values are strings.
- `onPress` callbacks and `TouchableOpacity`: they hold no logic beyond passing `dayInfo` along.
- `new Date(startDay.startOf('day').valueOf())`: each cell's `date` field is the calendar date, not a JavaScript `Date` object.
- `MonthBody.Render`: takes the year and 0-based month as `moment().year(year).month(month).date(1)` resolves them; months outside 0..11 (which `moment` would roll over into another year) are not modelled.

## Findings

| source | as written | input that shows it | evidently intended | confidence | as-written member | corrected member |
|---|---|---|---|---|---|---|
| index.js:138-156 | the loop compares the stepped `startTime` with `endTime` by day (`isSameOrAfter(startTime, 'day')`), so the month of `endTime` is listed only if the stepped day of the month is not later than `endTime`'s | `startTime` 20 January 2024, `endTime` 10 June 2024: January to May are listed and June is dropped | list every month from `startTime`'s to `endTime`'s, comparing by month | not executed | `Calendar.DroppedEndMonth` | `Calendar.RenderMonthSpan`, `Calendar.MonthSpanCoversBothEnds` |
| index.js:138-156 | with one moment object passed as both `startTime` and `endTime`, `startTime.add(1, 'month')` advances `endTime` too, so the guard keeps holding | the same moment for both props: the loop does not end before the date leaves JavaScript's `Date` range, after about 3.3 million iterations that each copy a growing array, so in practice the render hangs | step a copy, so the bounds are distinct objects | not executed | `Calendar.AliasedIterations` | `Calendar.RenderFromCopy`, `Calendar.RenderFromCopySameMoment` |
| index.js:131-156 | the loop advances `startTime` with `startTime.add(1, 'month')`, which changes the caller's moment object, and that object is the shared `Calendar.defaultProps.startTime` (index.js:172-175) when the prop is not given | default props made on 15 January 2024: the first render lists six months; every later render (re-render, second calendar) lists none, because `startTime` already lies after `endTime` | step a copy (`startTime.clone()`) so that every render lists the same months | not executed | `Calendar.RenderTwice`, `Calendar.SharedDefaultsCounterexample` | `Calendar.RenderFromCopy`, `Calendar.RenderFromCopyTwice` |
