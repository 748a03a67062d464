/**
 * `MonthBody.render` (index.js:70-97): the day cells of one month, the three
 * feature merges, and the number of blank cells that put the first of the
 * month under its weekday in a Sunday-first, seven-column grid.
 *
 * "Now" is a parameter: today's date and the milliseconds since local midnight.
 */
module MonthBody {
  import opened Wrappers
  import opened Dates
  import opened DayCells

  predicate ValidNow(today: Date, millis: int) {
    ValidDate(today) && 0 <= millis < MsPerDay
  }

  /**
   * `startDay.isBefore(moment().subtract(1, 'day'))` once `startDay` has been
   * moved to midnight (index.js:83-85): the cell's midnight is earlier than
   * the current time of day, one calendar day ago.
   */
  function IsDisabled(day: Date, today: Date, millis: int): bool
    requires ValidDate(day) && ValidNow(today, millis)
  {
    DayNumber(day) * MsPerDay < (DayNumber(today) - 1) * MsPerDay + millis
  }

  /** A freshly generated cell, before any feature is merged. */
  function NewCell(day: Date, today: Date, millis: int): DayInfo
    requires ValidDate(day) && ValidNow(today, millis)
  {
    DayInfo(day, day.day, IsDisabled(day, today, millis), None, None, None)
  }

  /** A fully rendered month body: the blank cells, then the day cells in key order. */
  datatype MonthGrid = MonthGrid(blanks: int, days: seq<DayInfo>)

  // ---------------------------------------------------------------------
  // The disabled flag

  /**
   * Exactly the days before yesterday are disabled, and yesterday too unless
   * the clock reads exactly midnight.
   */
  lemma DisabledDays(day: Date, today: Date, millis: int)
    requires ValidDate(day) && ValidNow(today, millis)
    ensures IsDisabled(day, today, millis) <==>
      DayNumber(day) < DayNumber(today) - 1 || (DayNumber(day) == DayNumber(today) - 1 && millis > 0)
  {
    var a := DayNumber(day) - (DayNumber(today) - 1);
    assert DayNumber(day) * MsPerDay - (DayNumber(today) - 1) * MsPerDay == a * MsPerDay;
    if a >= 1 {
      assert a * MsPerDay >= MsPerDay;
    } else if a <= -1 {
      assert a * MsPerDay <= -MsPerDay;
    }
  }

  /** At any time after midnight a cell is disabled exactly when its day is before today. */
  lemma DisabledIffPast(day: Date, today: Date, millis: int)
    requires ValidDate(day) && ValidNow(today, millis) && millis > 0
    ensures IsDisabled(day, today, millis) <==> Before(day, today)
  {
    DisabledDays(day, today, millis);
    DayNumberOrder(day, today);
  }

  /** Today and every later day are never disabled. */
  lemma TodayOnwardEnabled(day: Date, today: Date, millis: int)
    requires ValidDate(day) && ValidNow(today, millis) && !Before(day, today)
    ensures !IsDisabled(day, today, millis)
  {
    DisabledDays(day, today, millis);
    DayNumberOrder(day, today);
  }

  // ---------------------------------------------------------------------
  // Generating the cells

  /**
   * The `while (endDay.isAfter(startDay, 'day'))` loop (index.js:75-89): from
   * the first of the month up to, not including, the first of the next month.
   */
  method GenerateDayCells(year: int, month: int, today: Date, millis: int)
    returns (order: seq<Date>, cells: map<Date, DayInfo>)
    requires 0 <= month < 12 && ValidNow(today, millis)
    ensures |order| == DaysInMonth(year, month)
    ensures forall i :: 0 <= i < |order| ==> order[i] == Date(year, month, i + 1)
    ensures NoDuplicates(order)
    ensures forall d :: d in cells <==> d in order
    ensures forall i :: 0 <= i < |order| ==> cells[order[i]] == NewCell(order[i], today, millis)
  {
    var n := DaysInMonth(year, month);
    var startDay := Date(year, month, 1);
    var endDay := AddOneMonth(startDay);
    assert NextDay(Date(year, month, n)) == endDay;
    order, cells := [], map[];
    while Before(startDay, endDay)
      invariant ValidDate(startDay) && |order| <= n
      invariant startDay == if |order| < n then Date(year, month, |order| + 1) else endDay
      invariant forall i :: 0 <= i < |order| ==> order[i] == Date(year, month, i + 1)
      invariant forall d :: d in cells <==> d in order
      invariant forall i :: 0 <= i < |order| ==> cells[order[i]] == NewCell(order[i], today, millis)
      decreases n - |order|
    {
      assert startDay !in order by {
        assert forall i :: 0 <= i < |order| ==> order[i].day < startDay.day;
      }
      cells := cells[startDay := NewCell(startDay, today, millis)];
      order := InsertKey(order, startDay);
      startDay := NextDay(startDay);
    }
  }

  /**
   * What a rendered month body holds: the blank count is the weekday of the
   * first of the month; day cell `i` is day `i + 1`, with its day number, its
   * disabled flag and, per feature, the value of the last key naming its date;
   * and each day cell stands in the grid column of its weekday.
   */
  predicate IsRenderedMonth<K>(year: int, month: int, today: Date, millis: int, norm: K -> Option<Date>,
                               holiday: seq<(K, string)>, active: seq<(K, string)>, note: seq<(K, string)>,
                               g: MonthGrid)
    requires 0 <= month < 12 && ValidNow(today, millis)
  {
    && g.blanks == DayOfWeek(Date(year, month, 1))
    && |g.days| == DaysInMonth(year, month)
    && (forall i :: 0 <= i < |g.days| ==>
          var d := Date(year, month, i + 1);
          && g.days[i].date == d
          && g.days[i].dateText == i + 1
          && g.days[i].disabled == IsDisabled(d, today, millis)
          && g.days[i].holiday == LastValue(norm, holiday, d)
          && g.days[i].active == LastValue(norm, active, d)
          && g.days[i].note == LastValue(norm, note, d)
          && (g.blanks + i) % 7 == DayOfWeek(d))
  }

  /**
   * `MonthBody.render` for `year` and 0-based `month`. A feature map that is
   * absent makes `Object.keys` throw a TypeError; otherwise the result is the
   * rendered month of those maps.
   */
  method Render<K>(year: int, month: int, today: Date, millis: int, norm: K -> Option<Date>,
                   holiday: Option<seq<(K, string)>>, active: Option<seq<(K, string)>>,
                   note: Option<seq<(K, string)>>)
    returns (r: Result<MonthGrid>)
    requires 0 <= month < 12 && ValidNow(today, millis)
    ensures r.Err? <==> holiday.None? || active.None? || note.None?
    ensures r.Ok? ==> IsRenderedMonth(year, month, today, millis, norm, holiday.value, active.value, note.value, r.value)
  {
    var order, cells := GenerateDayCells(year, month, today, millis);
    var dayCells := new DayCellTable(order, cells);
    var ok := AddFeatures(dayCells, norm, holiday, active, note);
    if !ok {
      return Err(TypeError);
    }
    var blanksNum := DayOfWeek(Date(year, month, 1));
    var days := dayCells.Cells();
    RenderedFromCells(year, month, today, millis, norm, holiday.value, active.value, note.value, order, cells, days);
    r := Ok(MonthGrid(blanksNum, days));
  }

  /** The generated cells, merged and listed in key order, make the rendered month. */
  lemma RenderedFromCells<K>(year: int, month: int, today: Date, millis: int, norm: K -> Option<Date>,
                             holiday: seq<(K, string)>, active: seq<(K, string)>, note: seq<(K, string)>,
                             order: seq<Date>, cells: map<Date, DayInfo>, days: seq<DayInfo>)
    requires 0 <= month < 12 && ValidNow(today, millis)
    requires |order| == DaysInMonth(year, month)
    requires forall i :: 0 <= i < |order| ==> order[i] == Date(year, month, i + 1)
    requires forall d :: d in cells <==> d in order
    requires forall i :: 0 <= i < |order| ==> cells[order[i]] == NewCell(order[i], today, millis)
    requires var merged := Merge(Merge(Merge(cells, Holiday, norm, holiday), Active, norm, active), Note, norm, note);
      |days| == |order| && forall i :: 0 <= i < |order| ==> order[i] in merged && days[i] == merged[order[i]]
    ensures IsRenderedMonth(year, month, today, millis, norm, holiday, active, note,
                            MonthGrid(DayOfWeek(Date(year, month, 1)), days))
  {
    DaysAsGenerated(year, month, today, millis, norm, holiday, active, note, order, cells, days);
    ColumnsAreWeekdays(year, month, days);
  }

  /**
   * The three `addFeature` calls of index.js:92-94 in order; `ok` is false when
   * one of the maps is absent, where `Object.keys` throws.
   */
  method AddFeatures<K>(dayCells: DayCellTable, norm: K -> Option<Date>, holiday: Option<seq<(K, string)>>,
                        active: Option<seq<(K, string)>>, note: Option<seq<(K, string)>>)
    returns (ok: bool)
    requires dayCells.Valid()
    modifies dayCells
    ensures dayCells.Valid() && dayCells.order == old(dayCells.order)
    ensures ok <==> holiday.Some? && active.Some? && note.Some?
    ensures ok ==>
      dayCells.cells == Merge(Merge(Merge(old(dayCells.cells), Holiday, norm, holiday.value), Active, norm, active.value), Note, norm, note.value)
  {
    if holiday.None? {
      return false;
    }
    dayCells.AddFeature(Holiday, norm, holiday.value);
    if active.None? {
      return false;
    }
    dayCells.AddFeature(Active, norm, active.value);
    if note.None? {
      return false;
    }
    dayCells.AddFeature(Note, norm, note.value);
    ok := true;
  }

  /** The cells after the three merges, field by field. */
  lemma DaysAsGenerated<K>(year: int, month: int, today: Date, millis: int, norm: K -> Option<Date>,
                           holiday: seq<(K, string)>, active: seq<(K, string)>, note: seq<(K, string)>,
                           order: seq<Date>, cells: map<Date, DayInfo>, days: seq<DayInfo>)
    requires 0 <= month < 12 && ValidNow(today, millis)
    requires |order| == DaysInMonth(year, month)
    requires forall i :: 0 <= i < |order| ==> order[i] == Date(year, month, i + 1)
    requires forall d :: d in cells <==> d in order
    requires forall i :: 0 <= i < |order| ==> cells[order[i]] == NewCell(order[i], today, millis)
    requires var merged := Merge(Merge(Merge(cells, Holiday, norm, holiday), Active, norm, active), Note, norm, note);
      |days| == |order| && forall i :: 0 <= i < |order| ==> order[i] in merged && days[i] == merged[order[i]]
    ensures forall i :: 0 <= i < |days| ==>
      var d := Date(year, month, i + 1);
      && days[i].date == d
      && days[i].dateText == i + 1
      && days[i].disabled == IsDisabled(d, today, millis)
      && days[i].holiday == LastValue(norm, holiday, d)
      && days[i].active == LastValue(norm, active, d)
      && days[i].note == LastValue(norm, note, d)
  {
    forall i | 0 <= i < |days|
      ensures var d := Date(year, month, i + 1);
        && days[i].date == d
        && days[i].dateText == i + 1
        && days[i].disabled == IsDisabled(d, today, millis)
        && days[i].holiday == LastValue(norm, holiday, d)
        && days[i].active == LastValue(norm, active, d)
        && days[i].note == LastValue(norm, note, d)
    {
      MergeThree(cells, norm, holiday, active, note, order[i]);
    }
  }

  /**
   * In a seven-column grid that starts with `blanksNum` blanks, day cell `i`
   * stands in column `(blanksNum + i) % 7`, which is its weekday.
   */
  lemma ColumnsAreWeekdays(year: int, month: int, days: seq<DayInfo>)
    requires 0 <= month < 12 && |days| <= DaysInMonth(year, month)
    requires forall i :: 0 <= i < |days| ==> days[i].date == Date(year, month, i + 1)
    ensures ValidDate(Date(year, month, 1))
    ensures forall i :: 0 <= i < |days| ==>
      ValidDate(days[i].date) && (DayOfWeek(Date(year, month, 1)) + i) % 7 == DayOfWeek(days[i].date)
  {
    forall i | 0 <= i < |days|
      ensures ValidDate(days[i].date) && (DayOfWeek(Date(year, month, 1)) + i) % 7 == DayOfWeek(days[i].date)
    {
      WeekdayInMonth(year, month, i + 1);
    }
  }

  /** The first of a month is preceded by 0 to 6 blanks. */
  lemma BlanksInRange(year: int, month: int)
    requires 0 <= month < 12
    ensures ValidDate(Date(year, month, 1))
    ensures 0 <= DayOfWeek(Date(year, month, 1)) <= 6
  {
  }
}
