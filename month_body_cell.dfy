/**
 * `MonthBodyCell` (index.js:36-68): what one day cell shows and how it is
 * styled. JavaScript truthiness is modelled for the string-valued features:
 * a missing or empty holiday text does not count as set.
 */
module MonthBodyCell {
  import opened Wrappers
  import opened Decimal
  import opened Dates
  import opened DayCells

  predicate Truthy(v: Option<string>) {
    v.Some? && v.value != ""
  }

  /** `{dayInfo.holiday ? dayInfo.holiday : dayInfo.dateText}`. */
  function CellText(info: DayInfo): string {
    if Truthy(info.holiday) then info.holiday.value else FromInt(info.dateText)
  }

  /** The cell shows the holiday text when one is set, otherwise its day number. */
  lemma CellTextMeaning(info: DayInfo)
    ensures Truthy(info.holiday) ==> CellText(info) == info.holiday.value
    ensures !Truthy(info.holiday) ==> ParseInt(CellText(info)) == Some(info.dateText)
  {
    if !Truthy(info.holiday) {
      IntRoundTrip(info.dateText);
    }
  }

  /** The `styles.monthBodyCellDate` variants: filled circle, bordered circle, or neither. */
  datatype DateStyle = Plain | Filled | Bordered

  /** `dayInfo.active === 'fill' ? ... : dayInfo.active === 'border' ? ... : null`. */
  function DateStyleOf(active: Option<string>): (s: DateStyle)
    ensures s == Filled <==> active == Some("fill")
    ensures s == Bordered <==> active == Some("border")
  {
    if active == Some("fill") then Filled
    else if active == Some("border") then Bordered
    else Plain
  }

  /** Text colours: `activeMonthBodyCellDateText` and `disabledText`. */
  datatype TextColour = White | Grey

  /** A React Native style array: the last entry that sets the colour decides it. */
  function ResolveColour(layers: seq<Option<TextColour>>): Option<TextColour> {
    if layers == [] then None
    else if layers[|layers| - 1].Some? then layers[|layers| - 1]
    else ResolveColour(layers[..|layers| - 1])
  }

  /** `[styles.text, fill ? activeText : null, disabled ? disabledText : null]`. */
  function TextColourOf(info: DayInfo): Option<TextColour> {
    ResolveColour([None,
                   if info.active == Some("fill") then Some(White) else None,
                   if info.disabled then Some(Grey) else None])
  }

  /** A disabled cell is grey even when filled; a filled one is white; otherwise the default. */
  lemma TextColourRule(info: DayInfo)
    ensures info.disabled ==> TextColourOf(info) == Some(Grey)
    ensures !info.disabled && info.active == Some("fill") ==> TextColourOf(info) == Some(White)
    ensures !info.disabled && info.active != Some("fill") ==> TextColourOf(info) == None
  {
    var layers := [None,
                   if info.active == Some("fill") then Some(White) else None,
                   if info.disabled then Some(Grey) else None];
    assert TextColourOf(info) == ResolveColour(layers);
    assert ResolveColour(layers) == if layers[2].Some? then layers[2] else ResolveColour(layers[..2]);
    assert layers[..2] == [None, layers[1]];
    assert layers[..2][..1] == [None];
    var first: seq<Option<TextColour>> := [None];
    assert first[..0] == [];
    assert ResolveColour(first) == None;
  }

  /**
   * After `addFeature('active', ...)` the style follows the latest key naming
   * the day: a later 'border' replaces an earlier 'fill'.
   */
  lemma StyleFollowsLatestKey<K>(norm: K -> Option<Date>, active: seq<(K, string)>, d: Date, i: int)
    requires 0 <= i < |active| && norm(active[i].0) == Some(d)
    requires forall j :: i < j < |active| ==> norm(active[j].0) != Some(d)
    ensures active[i].1 == "fill" ==> DateStyleOf(LastValue(norm, active, d)) == Filled
    ensures active[i].1 == "border" ==> DateStyleOf(LastValue(norm, active, d)) == Bordered
    ensures active[i].1 != "fill" && active[i].1 != "border" ==> DateStyleOf(LastValue(norm, active, d)) == Plain
  {
    LastValueIsLatest(norm, active, d, i);
  }
}
