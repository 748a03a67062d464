/**
 * `CalendarHeader` (index.js:6-22): the Sunday-first row of weekday names,
 * with the weekend columns in red.
 */
module CalendarHeader {
  import opened Dates

  /** Sunday, Monday, ..., Saturday. */
  const Week: seq<string> := ["日", "一", "二", "三", "四", "五", "六"]

  /** '#ff3c30' and '#000'. */
  datatype Colour = Red | Black

  /** The colour of header column `i`: red under Sunday and Saturday. */
  function HeaderColour(i: int): (c: Colour)
    requires 0 <= i < |Week|
    ensures c == Red <==> Week[i] == "日" || Week[i] == "六"
  {
    if i == 0 || i == 6 then Red else Black
  }

  /**
   * The column of a date in the Sunday-first grid is its weekday, and its
   * header is red exactly when the date is a Saturday or a Sunday; the
   * column's name follows the date one column on per day.
   */
  lemma HeaderOfDate(d: Date)
    requires ValidDate(d)
    ensures HeaderColour(DayOfWeek(d)) == Red <==> DayOfWeek(d) == 0 || DayOfWeek(d) == 6
    ensures ValidDate(NextDay(d))
    ensures Week[DayOfWeek(NextDay(d))] == Week[(DayOfWeek(d) + 1) % 7]
  {
    NextDayWeekday(d);
  }

  /** Anchor of the naming: 1 January 1970, a Thursday, stands under "四". */
  lemma EpochUnderThursday()
    ensures ValidDate(Date(1970, 0, 1)) && Week[DayOfWeek(Date(1970, 0, 1))] == "四"
  {
    EpochIsThursday();
  }
}
