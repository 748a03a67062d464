/**
 * `MonthHeader` (index.js:24-34): the title `{year}年{month + 1}月` above each
 * month, with the 0-based month shown 1-based.
 */
module MonthHeader {
  import opened Wrappers
  import opened Decimal

  function Title(year: int, month: int): string
    requires 0 <= month < 12
  {
    FromInt(year) + "年" + FromInt(month + 1) + "月"
  }

  /** The first position of `c` in `s`. */
  function IndexOf(s: string, c: char): (r: Option<nat>)
    ensures r.Some? ==> r.value < |s| && s[r.value] == c && c !in s[..r.value]
    ensures r.None? ==> c !in s
  {
    if s == [] then None
    else if s[0] == c then Some(0)
    else
      var r := IndexOf(s[1..], c);
      if r.Some? then
        assert s[..r.value + 1] == [s[0]] + s[1..][..r.value];
        Some(r.value + 1)
      else None
  }

  /** Reads a title back into the year and the 0-based month. */
  function ParseTitle(s: string): Option<(int, int)> {
    var p := IndexOf(s, '年');
    if p.None? || |s| < p.value + 3 || s[|s| - 1] != '月' then None
    else
      var y := ParseInt(s[..p.value]);
      var m := ParseInt(s[p.value + 1..|s| - 1]);
      if y.Some? && m.Some? && 1 <= m.value <= 12 then Some((y.value, m.value - 1)) else None
  }

  lemma {:induction false} IndexAfterNumber(n: string, rest: string)
    requires forall k :: 0 <= k < |n| ==> IsDigit(n[k]) || n[k] == '-'
    ensures IndexOf(n + "年" + rest, '年') == Some(|n|)
    decreases |n|
  {
    var s := n + "年" + rest;
    if n != [] {
      assert s[1..] == n[1..] + "年" + rest;
      IndexAfterNumber(n[1..], rest);
    }
  }

  /** The title names its month: reading it back gives the year and the month. */
  lemma TitleRoundTrip(year: int, month: int)
    requires 0 <= month < 12
    ensures ParseTitle(Title(year, month)) == Some((year, month))
  {
    var ys, ms := FromInt(year), FromInt(month + 1);
    var s := Title(year, month);
    assert s == ys + "年" + (ms + "月");
    IndexAfterNumber(ys, ms + "月");
    assert s[..|ys|] == ys;
    assert s[|ys| + 1..|s| - 1] == ms;
    IntRoundTrip(year);
    IntRoundTrip(month + 1);
  }

  /** Different months get different titles. */
  lemma TitleInjective(y1: int, m1: int, y2: int, m2: int)
    requires 0 <= m1 < 12 && 0 <= m2 < 12
    requires Title(y1, m1) == Title(y2, m2)
    ensures y1 == y2 && m1 == m2
  {
    TitleRoundTrip(y1, m1);
    TitleRoundTrip(y2, m2);
  }
}
