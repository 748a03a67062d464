/**
 * The day-cell dictionary of `MonthBody` and `addFeature` (index.js:114-121),
 * which overlays a caller's per-date map onto cells that already exist.
 *
 * A cell's key is its display date, kept as the date itself. A caller's
 * feature map is a sequence of (key, value) pairs in `Object.keys` order;
 * `norm` stands for parsing a key with `parseFormat` and formatting it with
 * `displayFormat`: Some(date) for a key that parses, None for one that does not
 * (moment then formats "Invalid date", which matches no cell).
 */
module DayCells {
  import opened Wrappers
  import opened Dates

  datatype Feature = Holiday | Active | Note

  /** One day cell: `date`, `dateText`, `disabled`, and the three features once set. */
  datatype DayInfo = DayInfo(
    date: Date,
    dateText: int,
    disabled: bool,
    holiday: Option<string>,
    active: Option<string>,
    note: Option<string>)

  function Get(info: DayInfo, f: Feature): Option<string> {
    match f
    case Holiday => info.holiday
    case Active => info.active
    case Note => info.note
  }

  /** `dayCells[key][featureName] = value`: the named field is written, nothing else. */
  function SetFeature(info: DayInfo, f: Feature, v: string): (r: DayInfo)
    ensures Get(r, f) == Some(v)
    ensures forall g :: g != f ==> Get(r, g) == Get(info, g)
    ensures r.date == info.date && r.dateText == info.dateText && r.disabled == info.disabled
  {
    match f
    case Holiday => info.(holiday := Some(v))
    case Active => info.(active := Some(v))
    case Note => info.(note := Some(v))
  }

  /** One call of the `addFeature` callback: only a key that names an existing cell is written. */
  function ApplyEntry<K>(cells: map<Date, DayInfo>, f: Feature, norm: K -> Option<Date>, e: (K, string)): map<Date, DayInfo> {
    var d := norm(e.0);
    if d.Some? && d.value in cells then cells[d.value := SetFeature(cells[d.value], f, e.1)] else cells
  }

  /** `addFeature(f, content, dayCells)`: the callbacks applied in key order. */
  function Merge<K>(cells: map<Date, DayInfo>, f: Feature, norm: K -> Option<Date>, content: seq<(K, string)>): map<Date, DayInfo>
    decreases |content|
  {
    if content == [] then cells else Merge(ApplyEntry(cells, f, norm, content[0]), f, norm, content[1..])
  }

  /** The value of the last entry whose key normalises to `d`, if any. */
  function LastValue<K>(norm: K -> Option<Date>, content: seq<(K, string)>, d: Date): Option<string>
    decreases |content|
  {
    if content == [] then None
    else if norm(content[|content| - 1].0) == Some(d) then Some(content[|content| - 1].1)
    else LastValue(norm, content[..|content| - 1], d)
  }

  /** The cell `d` ends up as after merging: its field `f` takes the last matching value. */
  function Overlay(info: DayInfo, f: Feature, v: Option<string>): DayInfo {
    if v.Some? then SetFeature(info, f, v.value) else info
  }

  // ---------------------------------------------------------------------
  // What a merge does

  lemma {:induction false} MergeSnoc<K>(cells: map<Date, DayInfo>, f: Feature, norm: K -> Option<Date>, content: seq<(K, string)>, e: (K, string))
    ensures Merge(cells, f, norm, content + [e]) == ApplyEntry(Merge(cells, f, norm, content), f, norm, e)
    decreases |content|
  {
    if content == [] {
      assert [e][1..] == [];
    } else {
      assert (content + [e])[1..] == content[1..] + [e];
      MergeSnoc(ApplyEntry(cells, f, norm, content[0]), f, norm, content[1..], e);
    }
  }

  /**
   * The whole effect of a merge, cell by cell: no key is added or removed, and
   * each cell takes in field `f` the value of the LAST entry whose key
   * normalises to that cell's date (later keys win), or keeps its old value
   * when no entry does. Entries for dates outside the table change nothing.
   */
  lemma {:induction false} MergeEffect<K>(cells: map<Date, DayInfo>, f: Feature, norm: K -> Option<Date>, content: seq<(K, string)>)
    ensures Merge(cells, f, norm, content).Keys == cells.Keys
    ensures forall d :: d in cells ==> Merge(cells, f, norm, content)[d] == Overlay(cells[d], f, LastValue(norm, content, d))
    decreases |content|
  {
    if content != [] {
      var front, e := content[..|content| - 1], content[|content| - 1];
      assert content == front + [e];
      MergeSnoc(cells, f, norm, front, e);
      MergeEffect(cells, f, norm, front);
      forall d | d in cells
        ensures Merge(cells, f, norm, content)[d] == Overlay(cells[d], f, LastValue(norm, content, d))
      {
        assert LastValue(norm, content, d) == if norm(e.0) == Some(d) then Some(e.1) else LastValue(norm, front, d);
      }
    }
  }

  /** Only field `f` can change, in any cell. */
  lemma MergeTouchesOnlyFeature<K>(cells: map<Date, DayInfo>, f: Feature, norm: K -> Option<Date>, content: seq<(K, string)>, d: Date)
    requires d in cells
    ensures d in Merge(cells, f, norm, content)
    ensures var r := Merge(cells, f, norm, content)[d];
      && r.date == cells[d].date && r.dateText == cells[d].dateText && r.disabled == cells[d].disabled
      && forall g :: g != f ==> Get(r, g) == Get(cells[d], g)
  {
    MergeEffect(cells, f, norm, content);
  }

  /** A cell no entry names is left exactly as it was. */
  lemma MergeLeavesUnnamed<K>(cells: map<Date, DayInfo>, f: Feature, norm: K -> Option<Date>, content: seq<(K, string)>, d: Date)
    requires d in cells
    requires forall i :: 0 <= i < |content| ==> norm(content[i].0) != Some(d)
    ensures d in Merge(cells, f, norm, content) && Merge(cells, f, norm, content)[d] == cells[d]
  {
    MergeEffect(cells, f, norm, content);
    LastValueNone(norm, content, d);
  }

  /** A map with no key inside the table changes nothing at all. */
  lemma MergeIgnoresForeign<K>(cells: map<Date, DayInfo>, f: Feature, norm: K -> Option<Date>, content: seq<(K, string)>)
    requires forall i :: 0 <= i < |content| ==> norm(content[i].0).None? || norm(content[i].0).value !in cells
    ensures Merge(cells, f, norm, content) == cells
  {
    MergeEffect(cells, f, norm, content);
    forall d | d in cells ensures Merge(cells, f, norm, content)[d] == cells[d] {
      assert forall i :: 0 <= i < |content| ==> norm(content[i].0) != Some(d);
      LastValueNone(norm, content, d);
    }
  }

  /** Merging the same map twice gives the same cells as merging it once. */
  lemma MergeIdempotent<K>(cells: map<Date, DayInfo>, f: Feature, norm: K -> Option<Date>, content: seq<(K, string)>)
    ensures Merge(Merge(cells, f, norm, content), f, norm, content) == Merge(cells, f, norm, content)
  {
    var once := Merge(cells, f, norm, content);
    MergeEffect(cells, f, norm, content);
    MergeEffect(once, f, norm, content);
  }

  /**
   * The three merges of `MonthBody.render` in their order (holiday, active, note):
   * a cell that had no feature ends with each feature's last matching value.
   */
  lemma MergeThree<K>(cells: map<Date, DayInfo>, norm: K -> Option<Date>,
                      holiday: seq<(K, string)>, active: seq<(K, string)>, note: seq<(K, string)>, d: Date)
    requires d in cells && cells[d].holiday.None? && cells[d].active.None? && cells[d].note.None?
    ensures var r := Merge(Merge(Merge(cells, Holiday, norm, holiday), Active, norm, active), Note, norm, note);
      && d in r
      && r[d] == cells[d].(holiday := LastValue(norm, holiday, d), active := LastValue(norm, active, d),
                           note := LastValue(norm, note, d))
  {
    var c1 := Merge(cells, Holiday, norm, holiday);
    var c2 := Merge(c1, Active, norm, active);
    var v1, v2, v3 := LastValue(norm, holiday, d), LastValue(norm, active, d), LastValue(norm, note, d);
    MergeEffect(cells, Holiday, norm, holiday);
    assert c1[d] == cells[d].(holiday := v1);
    MergeEffect(c1, Active, norm, active);
    assert c2[d] == cells[d].(holiday := v1, active := v2);
    MergeEffect(c2, Note, norm, note);
  }

  lemma {:induction false} LastValueNone<K>(norm: K -> Option<Date>, content: seq<(K, string)>, d: Date)
    ensures LastValue(norm, content, d).None? <==> forall i :: 0 <= i < |content| ==> norm(content[i].0) != Some(d)
    decreases |content|
  {
    if content != [] {
      var front := content[..|content| - 1];
      LastValueNone(norm, front, d);
      assert forall i :: 0 <= i < |front| ==> front[i] == content[i];
    }
  }

  /** The entry that wins is the latest one naming `d`. */
  lemma {:induction false} LastValueIsLatest<K>(norm: K -> Option<Date>, content: seq<(K, string)>, d: Date, i: int)
    requires 0 <= i < |content| && norm(content[i].0) == Some(d)
    requires forall j :: i < j < |content| ==> norm(content[j].0) != Some(d)
    ensures LastValue(norm, content, d) == Some(content[i].1)
    decreases |content|
  {
    if i < |content| - 1 {
      var front := content[..|content| - 1];
      assert forall j :: i < j < |front| ==> front[j] == content[j];
      LastValueIsLatest(norm, front, d, i);
    }
  }

  // ---------------------------------------------------------------------
  // The dictionary as an object that addFeature updates in place

  /**
   * Where `{...dayCells, [key]: cell}` puts the key in `Object.keys` order:
   * the old keys keep their places, and a new key goes last.
   */
  function InsertKey(order: seq<Date>, k: Date): (r: seq<Date>)
    ensures k in r && forall x :: x in order ==> x in r
    ensures forall x :: x in r ==> x == k || x in order
    ensures |order| <= |r| <= |order| + 1 && r[..|order|] == order
    ensures k !in order ==> r == order + [k]
    ensures NoDuplicates(order) ==> NoDuplicates(r)
  {
    if k in order then order else order + [k]
  }

  predicate NoDuplicates(s: seq<Date>) {
    forall i, j :: 0 <= i < j < |s| ==> s[i] != s[j]
  }

  class DayCellTable {
    /** The keys in `Object.keys` order. */
    var order: seq<Date>
    var cells: map<Date, DayInfo>

    /** Every key appears once in `order`, and nothing else does. */
    ghost predicate Valid()
      reads this
    {
      NoDuplicates(order) && (forall d :: d in cells <==> d in order)
    }

    constructor (order: seq<Date>, cells: map<Date, DayInfo>)
      requires NoDuplicates(order) && forall d :: d in cells <==> d in order
      ensures Valid() && this.order == order && this.cells == cells
    {
      this.order := order;
      this.cells := cells;
    }

    /** `addFeature(featureName, featureContent, dayCells)`. */
    method AddFeature<K>(f: Feature, norm: K -> Option<Date>, content: seq<(K, string)>)
      requires Valid()
      modifies this
      ensures Valid() && order == old(order)
      ensures cells == Merge(old(cells), f, norm, content)
    {
      var i := 0;
      while i < |content|
        invariant 0 <= i <= |content|
        invariant order == old(order)
        invariant cells == Merge(old(cells), f, norm, content[..i])
      {
        var d := norm(content[i].0);
        if d.Some? && d.value in cells {
          cells := cells[d.value := SetFeature(cells[d.value], f, content[i].1)];
        }
        assert content[..i + 1] == content[..i] + [content[i]];
        MergeSnoc(old(cells), f, norm, content[..i], content[i]);
        i := i + 1;
      }
      assert content[..i] == content;
      MergeEffect(old(cells), f, norm, content);
    }

    /** `Object.keys(dayCells).map(date => dayCells[date])`: the cells in key order. */
    function Cells(): (r: seq<DayInfo>)
      reads this
      requires Valid()
      ensures |r| == |order| && forall i :: 0 <= i < |order| ==> r[i] == cells[order[i]]
    {
      InKeyOrder(cells, order)
    }
  }

  function InKeyOrder(cells: map<Date, DayInfo>, order: seq<Date>): (r: seq<DayInfo>)
    requires forall i :: 0 <= i < |order| ==> order[i] in cells
    ensures |r| == |order| && forall i :: 0 <= i < |order| ==> r[i] == cells[order[i]]
  {
    if order == [] then [] else [cells[order[0]]] + InKeyOrder(cells, order[1..])
  }
}
