/**
 * `Calendar.render` (index.js:128-157): the list of month entries, one header
 * and one body per one-month step of `startTime` that is on or before
 * `endTime`'s day, and the indices of the headers, which the scroll view
 * keeps sticky.
 *
 * `startTime` and `endTime` are moment objects. The loop advances `startTime`
 * itself with `add(1, 'month')`, so the caller's moment is changed.
 */
module Calendar {
  import opened Dates

  /** A moment: a local date and the milliseconds since its midnight. */
  class Moment {
    var date: Date
    var millis: int

    ghost predicate Valid()
      reads this
    {
      ValidDate(date) && 0 <= millis < MsPerDay
    }

    constructor (date: Date, millis: int)
      requires ValidDate(date) && 0 <= millis < MsPerDay
      ensures Valid() && this.date == date && this.millis == millis
    {
      this.date := date;
      this.millis := millis;
    }

    /** `m.add(1, 'month')`: changes this moment and keeps its time of day. */
    method AddOneMonth()
      requires Valid()
      modifies this
      ensures Valid() && date == Dates.AddOneMonth(old(date)) && millis == old(millis)
    {
      date := Dates.AddOneMonth(date);
    }

    /** `m.clone()`. */
    method Clone() returns (c: Moment)
      requires Valid()
      ensures fresh(c) && c.Valid() && c.date == date && c.millis == millis
    {
      c := new Moment(date, millis);
    }

    /** `this.isSameOrAfter(other, 'day')`. */
    predicate IsSameOrAfterDay(other: Moment)
      reads this, other
      requires Valid() && other.Valid()
    {
      !Before(date, other.date)
    }
  }

  datatype Kind = Header | Body

  /** One entry of `months`: `{type, year, month}`. */
  datatype MonthItem = MonthItem(kind: Kind, year: int, month: int)

  /** The month entries for a start date stepped month by month while on or before `end`. */
  ghost function MonthList(start: Date, end: Date): seq<MonthItem>
    requires ValidDate(start) && ValidDate(end)
    decreases MonthIndex(end) - MonthIndex(start)
  {
    if Before(end, start) then []
    else
      [MonthItem(Header, start.year, start.month), MonthItem(Body, start.year, start.month)]
        + MonthList(AddOneMonth(start), end)
  }

  lemma MonthListUnfold(d: Date, end: Date)
    requires ValidDate(d) && ValidDate(end) && !Before(end, d)
    ensures MonthList(d, end) == [MonthItem(Header, d.year, d.month), MonthItem(Body, d.year, d.month)]
                                 + MonthList(AddOneMonth(d), end)
  {
  }

  /** One loop iteration moves one month's entries from the remaining list to `months`. */
  lemma MonthListAppend(done: seq<MonthItem>, d: Date, end: Date)
    requires ValidDate(d) && ValidDate(end) && !Before(end, d)
    ensures done + MonthList(d, end)
         == (done + [MonthItem(Header, d.year, d.month), MonthItem(Body, d.year, d.month)]) + MonthList(AddOneMonth(d), end)
  {
    MonthListUnfold(d, end);
  }

  /** One loop iteration moves the next month's entries from the remaining list to `months`. */
  lemma RenderStep(start: Date, end: Date, months: seq<MonthItem>, n: nat)
    requires ValidDate(start) && ValidDate(end) && !Before(end, Step(start, n))
    requires months + MonthList(Step(start, n), end) == MonthList(start, end)
    ensures var d := Step(start, n);
      && (months + [MonthItem(Header, d.year, d.month), MonthItem(Body, d.year, d.month)]) + MonthList(Step(start, n + 1), end)
         == MonthList(start, end)
      && Step(start, n + 1) == AddOneMonth(d)
  {
    MonthListAppend(months, Step(start, n), end);
  }

  /**
   * The `while (endTime.isSameOrAfter(startTime, 'day'))` loop: `months`,
   * `stickyHeaderIndices`, and `startTime` left one step past `endTime`.
   */
  method Render(startTime: Moment, endTime: Moment) returns (months: seq<MonthItem>, stickyHeaderIndices: seq<int>)
    requires startTime.Valid() && endTime.Valid() && startTime != endTime
    modifies startTime
    ensures startTime.Valid()
    ensures months == MonthList(old(startTime.date), endTime.date)
    ensures |stickyHeaderIndices| == |months| / 2
    ensures forall j :: 0 <= j < |stickyHeaderIndices| ==> stickyHeaderIndices[j] == 2 * j
    ensures forall j :: 0 <= j < |stickyHeaderIndices| ==> months[stickyHeaderIndices[j]].kind == Header
    ensures startTime.date == Step(old(startTime.date), |months| / 2) && startTime.millis == old(startTime.millis)
    ensures Before(endTime.date, startTime.date)
  {
    months, stickyHeaderIndices := [], [];
    ghost var start := startTime.date;
    while endTime.IsSameOrAfterDay(startTime)
      invariant startTime.Valid() && startTime.millis == old(startTime.millis)
      invariant months + MonthList(startTime.date, endTime.date) == MonthList(start, endTime.date)
      invariant |months| == 2 * |stickyHeaderIndices|
      invariant forall j :: 0 <= j < |stickyHeaderIndices| ==> stickyHeaderIndices[j] == 2 * j
      invariant startTime.date == Step(start, |stickyHeaderIndices|)
      decreases MonthIndex(endTime.date) - MonthIndex(startTime.date)
    {
      ghost var n := |stickyHeaderIndices|;
      RenderStep(start, endTime.date, months, n);
      months := months + [MonthItem(Header, startTime.date.year, startTime.date.month),
                          MonthItem(Body, startTime.date.year, startTime.date.month)];
      stickyHeaderIndices := stickyHeaderIndices + [|stickyHeaderIndices| * 2];
      startTime.AddOneMonth();
    }
    RenderDone(start, endTime.date, months, startTime.date);
  }

  /** When the loop stops, `months` is the whole list, and its even entries are headers. */
  lemma RenderDone(start: Date, end: Date, months: seq<MonthItem>, d: Date)
    requires ValidDate(start) && ValidDate(end) && ValidDate(d) && Before(end, d)
    requires months + MonthList(d, end) == MonthList(start, end)
    ensures months == MonthList(start, end)
    ensures forall i :: 0 <= i < |months| / 2 ==> months[2 * i].kind == Header
  {
    assert MonthList(d, end) == [];
    MonthListShape(start, end);
  }

  // ---------------------------------------------------------------------
  // What the month list is

  /** The list has a header and a body for each month, and ends one step past `end`. */
  lemma {:induction false} MonthListLength(start: Date, end: Date)
    requires ValidDate(start) && ValidDate(end)
    ensures |MonthList(start, end)| % 2 == 0
    ensures Before(end, Step(start, |MonthList(start, end)| / 2))
    decreases MonthIndex(end) - MonthIndex(start)
  {
    if !Before(end, start) {
      var next := AddOneMonth(start);
      MonthListLength(next, end);
      var rest := MonthList(next, end);
      assert |MonthList(start, end)| / 2 == |rest| / 2 + 1;
      StepShift(start, |rest| / 2);
    }
  }

  /** Pair `i` names the start stepped `i` months, and that step is on or before `end`. */
  lemma {:induction false} MonthListPair(start: Date, end: Date, i: nat)
    requires ValidDate(start) && ValidDate(end) && 2 * i + 1 < |MonthList(start, end)|
    ensures var l := MonthList(start, end);
      && l[2 * i] == MonthItem(Header, Step(start, i).year, Step(start, i).month)
      && l[2 * i + 1] == MonthItem(Body, Step(start, i).year, Step(start, i).month)
      && !Before(end, Step(start, i))
    decreases i
  {
    MonthListUnfold(start, end);
    if i > 0 {
      var next := AddOneMonth(start);
      var rest := MonthList(next, end);
      MonthListPair(next, end, i - 1);
      StepShift(start, i - 1);
      assert MonthList(start, end)[2 * i] == rest[2 * (i - 1)];
      assert MonthList(start, end)[2 * i + 1] == rest[2 * (i - 1) + 1];
    }
  }

  /**
   * The list alternates headers and bodies; pair `i` names the year and month
   * of the start stepped `i` months; those steps are all on or before `end`,
   * and the next step is after it.
   */
  lemma MonthListShape(start: Date, end: Date)
    requires ValidDate(start) && ValidDate(end)
    ensures var l := MonthList(start, end);
      && |l| % 2 == 0
      && (forall i :: 0 <= i < |l| / 2 ==>
            l[2 * i] == MonthItem(Header, Step(start, i).year, Step(start, i).month)
            && l[2 * i + 1] == MonthItem(Body, Step(start, i).year, Step(start, i).month)
            && !Before(end, Step(start, i)))
      && Before(end, Step(start, |l| / 2))
  {
    MonthListLength(start, end);
    forall i | 0 <= i < |MonthList(start, end)| / 2
      ensures var l := MonthList(start, end);
        && l[2 * i] == MonthItem(Header, Step(start, i).year, Step(start, i).month)
        && l[2 * i + 1] == MonthItem(Body, Step(start, i).year, Step(start, i).month)
        && !Before(end, Step(start, i))
    {
      MonthListPair(start, end, i);
    }
  }

  /**
   * No month is listed exactly when `end` falls on an earlier day than
   * `start`, which is when its day count is smaller.
   */
  lemma MonthListEmpty(start: Date, end: Date)
    requires ValidDate(start) && ValidDate(end)
    ensures MonthList(start, end) == [] <==> Before(end, start)
    ensures MonthList(start, end) == [] <==> DayNumber(end) < DayNumber(start)
  {
    DayNumberOrder(end, start);
    if !Before(end, start) {
      MonthListUnfold(start, end);
    }
  }

  /** Successive pairs are successive months; December is followed by January of the next year. */
  lemma MonthListSuccessive(start: Date, end: Date, i: int)
    requires ValidDate(start) && ValidDate(end)
    requires 0 <= i && 2 * i + 3 < |MonthList(start, end)|
    ensures var l := MonthList(start, end);
      && 0 <= l[2 * i].month < 12
      && l[2 * i + 2].month == (if l[2 * i].month == 11 then 0 else l[2 * i].month + 1)
      && l[2 * i + 2].year == (if l[2 * i].month == 11 then l[2 * i].year + 1 else l[2 * i].year)
  {
    MonthListShape(start, end);
    var l := MonthList(start, end);
    var a, b := Step(start, i), Step(start, i + 1);
    assert l[2 * i].year == a.year && l[2 * i].month == a.month;
    assert l[2 * (i + 1)].year == b.year && l[2 * (i + 1)].month == b.month;
    assert MonthIndex(b) == MonthIndex(a) + 1;
  }

  /** `Calendar.defaultProps.endTime`: five months after now, clamped once. */
  function DefaultEndTime(now: Date): Date
    requires ValidDate(now)
  {
    AddMonths(now, 5)
  }

  /** With the default range the calendar lists six months: this month and the next five. */
  lemma DefaultRangeSixMonths(now: Date)
    requires ValidDate(now)
    ensures |MonthList(now, DefaultEndTime(now))| == 12
  {
    var end := DefaultEndTime(now);
    MonthListShape(now, end);
    var k := |MonthList(now, end)| / 2;
    assert !Before(end, Step(now, 5));
    assert Before(end, Step(now, 6));
    StepLater(now, Min(k, 5), 5);
  }

  // ---------------------------------------------------------------------
  // Rendering with the same moment objects twice

  /**
   * Two renders with the same props: the first advances `startTime` past
   * `endTime`, so the second lists no month at all.
   */
  method RenderTwice(startTime: Moment, endTime: Moment) returns (first: seq<MonthItem>, second: seq<MonthItem>)
    requires startTime.Valid() && endTime.Valid() && startTime != endTime
    modifies startTime
    ensures first == MonthList(old(startTime.date), endTime.date)
    ensures second == []
  {
    var sticky;
    first, sticky := Render(startTime, endTime);
    second, sticky := Render(startTime, endTime);
  }

  /**
   * The default props of index.js:172-175 as moments made on 15 January 2024:
   * the first render lists six months, the second none.
   */
  method SharedDefaultsCounterexample() returns (first: seq<MonthItem>, second: seq<MonthItem>)
    ensures |first| == 12 && second == []
  {
    var now := Date(2024, 0, 15);
    var startTime := new Moment(now, 0);
    var endTime := new Moment(DefaultEndTime(now), 0);
    DefaultRangeSixMonths(now);
    first, second := RenderTwice(startTime, endTime);
  }

  /** The month loop run on a clone of `startTime`, leaving the caller's moments alone. */
  method RenderFromCopy(startTime: Moment, endTime: Moment) returns (months: seq<MonthItem>, stickyHeaderIndices: seq<int>)
    requires startTime.Valid() && endTime.Valid()
    ensures months == MonthList(startTime.date, endTime.date)
    ensures |stickyHeaderIndices| == |months| / 2
    ensures forall j :: 0 <= j < |stickyHeaderIndices| ==> stickyHeaderIndices[j] == 2 * j
    ensures forall j :: 0 <= j < |stickyHeaderIndices| ==> months[stickyHeaderIndices[j]].kind == Header
  {
    var cursor := startTime.Clone();
    months, stickyHeaderIndices := Render(cursor, endTime);
  }

  /** Rendering from a copy twice gives the same months both times. */
  method RenderFromCopyTwice(startTime: Moment, endTime: Moment) returns (first: seq<MonthItem>, second: seq<MonthItem>)
    requires startTime.Valid() && endTime.Valid()
    ensures first == second && first == MonthList(startTime.date, endTime.date)
  {
    var sticky;
    first, sticky := RenderFromCopy(startTime, endTime);
    second, sticky := RenderFromCopy(startTime, endTime);
  }

  /** Rendering from a copy with one moment as both bounds lists exactly that moment's month. */
  method RenderFromCopySameMoment(time: Moment) returns (months: seq<MonthItem>)
    requires time.Valid()
    ensures months == [MonthItem(Header, time.date.year, time.date.month), MonthItem(Body, time.date.year, time.date.month)]
  {
    var sticky;
    months, sticky := RenderFromCopy(time, time);
    MonthListUnfold(time.date, time.date);
    assert Before(time.date, AddOneMonth(time.date));
  }

  /**
   * The loop of index.js:138-157 with one moment object passed as both
   * `startTime` and `endTime`: each step advances the end too, so after any
   * number `k` of iterations the loop guard still holds.
   */
  method AliasedIterations(time: Moment, k: nat) returns (months: seq<MonthItem>, guard: bool)
    requires time.Valid()
    modifies time
    ensures |months| == 2 * k && guard
  {
    months := [];
    guard := time.IsSameOrAfterDay(time);
    var i := 0;
    while i < k
      invariant 0 <= i <= k && time.Valid() && |months| == 2 * i && guard
    {
      months := months + [MonthItem(Header, time.date.year, time.date.month),
                          MonthItem(Body, time.date.year, time.date.month)];
      time.AddOneMonth();
      guard := time.IsSameOrAfterDay(time);
      i := i + 1;
    }
  }

  // ---------------------------------------------------------------------
  // Month granularity: the months spanned by the two bounds

  /** The header and body entries of month index `idx` (months since the start of year 0). */
  function MonthPair(idx: int): (p: seq<MonthItem>)
    ensures |p| == 2 && p[0].kind == Header && p[1].kind == Body
    ensures p[0].year == p[1].year && p[0].month == p[1].month && 12 * p[0].year + p[0].month == idx
  {
    [MonthItem(Header, idx / 12, idx % 12), MonthItem(Body, idx / 12, idx % 12)]
  }

  /** The entries of every month from month index `first` to `last`, both included. */
  ghost function MonthSpan(first: int, last: int): seq<MonthItem>
    decreases last - first
  {
    if last < first then [] else MonthPair(first) + MonthSpan(first + 1, last)
  }

  /** A span lists two entries for each month from `first` to `last`. */
  lemma {:induction false} MonthSpanLength(first: int, last: int)
    ensures |MonthSpan(first, last)| == if last < first then 0 else 2 * (last - first + 1)
    decreases last - first
  {
    if first <= last {
      MonthSpanLength(first + 1, last);
    }
  }

  /** Pair `i` of a span is the header and the body of month `first + i`. */
  lemma {:induction false} MonthSpanPair(first: int, last: int, i: nat)
    requires 2 * i + 1 < |MonthSpan(first, last)|
    ensures MonthSpan(first, last)[2 * i] == MonthPair(first + i)[0]
    ensures MonthSpan(first, last)[2 * i + 1] == MonthPair(first + i)[1]
    decreases i
  {
    var rest := MonthSpan(first + 1, last);
    assert MonthSpan(first, last) == MonthPair(first) + rest;
    if i > 0 {
      MonthSpanPair(first + 1, last, i - 1);
      assert MonthSpan(first, last)[2 * i] == rest[2 * (i - 1)];
      assert MonthSpan(first, last)[2 * i + 1] == rest[2 * (i - 1) + 1];
    }
  }

  /**
   * The intended listing: one pair per month from the month of `start` to the
   * month of `end`, in order, ending with the month of `end` itself whatever
   * the days of the month are.
   */
  lemma MonthSpanCoversBothEnds(start: Date, end: Date)
    requires ValidDate(start) && ValidDate(end) && MonthIndex(start) <= MonthIndex(end)
    ensures var l := MonthSpan(MonthIndex(start), MonthIndex(end));
      && |l| == 2 * (MonthIndex(end) - MonthIndex(start) + 1)
      && l[0] == MonthItem(Header, start.year, start.month)
      && l[|l| - 2] == MonthItem(Header, end.year, end.month)
      && l[|l| - 1] == MonthItem(Body, end.year, end.month)
  {
    var first, last := MonthIndex(start), MonthIndex(end);
    MonthSpanLength(first, last);
    MonthIndexParts(start);
    MonthIndexParts(end);
    MonthSpanPair(first, last, 0);
    MonthSpanPair(first, last, last - first);
  }

  /** Every even entry of a span is a header. */
  lemma MonthSpanHeaders(first: int, last: int)
    ensures forall j :: 0 <= j < |MonthSpan(first, last)| / 2 ==> MonthSpan(first, last)[2 * j].kind == Header
  {
    forall j | 0 <= j < |MonthSpan(first, last)| / 2
      ensures MonthSpan(first, last)[2 * j].kind == Header
    {
      MonthSpanLength(first, last);
      MonthSpanPair(first, last, j);
    }
  }

  /**
   * The month loop compared at month granularity, on a clone of `startTime`:
   * `while (endTime.isSameOrAfter(cursor, 'month'))`.
   */
  method RenderMonthSpan(startTime: Moment, endTime: Moment) returns (months: seq<MonthItem>, stickyHeaderIndices: seq<int>)
    requires startTime.Valid() && endTime.Valid()
    ensures months == MonthSpan(MonthIndex(startTime.date), MonthIndex(endTime.date))
    ensures |stickyHeaderIndices| == |months| / 2
    ensures forall j :: 0 <= j < |stickyHeaderIndices| ==> stickyHeaderIndices[j] == 2 * j
    ensures forall j :: 0 <= j < |stickyHeaderIndices| ==> months[stickyHeaderIndices[j]].kind == Header
  {
    var cursor := startTime.Clone();
    months, stickyHeaderIndices := [], [];
    ghost var first, last := MonthIndex(startTime.date), MonthIndex(endTime.date);
    while MonthIndex(cursor.date) <= MonthIndex(endTime.date)
      invariant fresh(cursor) && cursor.Valid()
      invariant months + MonthSpan(MonthIndex(cursor.date), last) == MonthSpan(first, last)
      invariant |months| == 2 * |stickyHeaderIndices|
      invariant forall j :: 0 <= j < |stickyHeaderIndices| ==> stickyHeaderIndices[j] == 2 * j
      decreases last - MonthIndex(cursor.date)
    {
      ghost var idx := MonthIndex(cursor.date);
      MonthIndexParts(cursor.date);
      MonthSpanStep(months, idx, last);
      months := months + [MonthItem(Header, cursor.date.year, cursor.date.month),
                          MonthItem(Body, cursor.date.year, cursor.date.month)];
      stickyHeaderIndices := stickyHeaderIndices + [|stickyHeaderIndices| * 2];
      cursor.AddOneMonth();
    }
    MonthSpanLength(first, last);
    MonthSpanHeaders(first, last);
  }

  /** One iteration of the month-granular loop moves month `idx` from the remaining span to `months`. */
  lemma MonthSpanStep(months: seq<MonthItem>, idx: int, last: int)
    requires idx <= last
    ensures months + MonthSpan(idx, last) == (months + MonthPair(idx)) + MonthSpan(idx + 1, last)
  {
  }

  /**
   * Counterexample for the day-granular loop: from 20 January to 10 June 2024
   * the source lists January to May (ten entries) and drops June, which the
   * month-granular loop keeps (twelve entries).
   */
  lemma DroppedEndMonth()
    ensures |MonthList(Date(2024, 0, 20), Date(2024, 5, 10))| == 10
    ensures |MonthSpan(MonthIndex(Date(2024, 0, 20)), MonthIndex(Date(2024, 5, 10)))| == 12
  {
    var start, end := Date(2024, 0, 20), Date(2024, 5, 10);
    MonthListShape(start, end);
    var k := |MonthList(start, end)| / 2;
    assert Step(start, 1) == Date(2024, 1, 20);
    assert Step(start, 2) == Date(2024, 2, 20);
    assert Step(start, 3) == Date(2024, 3, 20);
    assert Step(start, 4) == Date(2024, 4, 20);
    assert Step(start, 5) == Date(2024, 5, 20);
    StepLater(start, Min(k, 4), 4);
    MonthSpanLength(MonthIndex(start), MonthIndex(end));
  }
}
