// The permissible-values editor of an enumerated custom column
// (src/calibre/gui2/dialogs/enum_values_edit.py): a table of rows, each a
// value, its colour and the number of books that use it, with row edits and
// a validating `accept`.
//
// The Qt table is the sequence `rows`; the current row, which Qt keeps,
// is passed to each button handler and the handler says where it moves.

module EnumValuesEdit {
  import opened Wrappers
  import Text

  /** One table row: the value cell (its text, the original value kept
      under UserRole and its check box), the colour combo box's current
      index and the text of the count cell. */
  datatype EnumRow = EnumRow(text: string, original: string, checked: bool,
                             colorIndex: int, countText: string)

  /** `CountTableWidgetItem`'s text: `str(count)`, or "0" for no count. */
  function CountText(count: Option<nat>): (s: string)
    ensures |s| > 0 && Text.AllDigits(s)
    ensures count.Some? ==> Text.ParseDigits(s) == count.value
    ensures count.None? ==> s == "0"
  {
    match count
    case None => "0"
    case Some(n) =>
      Text.ParseNatToString(n);
      Text.NatToString(n)
  }

  /** No count and a count of zero display the same. */
  lemma CountTextNoneIsZero()
    ensures CountText(None) == CountText(Some(0))
  {
  }

  /** `dict.get(k)` */
  function Get(m: map<string, nat>, k: string): (r: Option<nat>)
    ensures r.Some? <==> k in m
    ensures r.Some? ==> r.value == m[k]
  {
    if k in m then Some(m[k]) else None
  }

  /** The text a combo box shows: the items are the empty string followed
      by Qt's colour names; an index outside them shows nothing. */
  function ColorText(colorNames: seq<string>, index: int): (s: string)
    ensures 1 <= index <= |colorNames| ==> s == colorNames[index - 1]
    ensures (index <= 0 || index > |colorNames|) ==> s == []
  {
    var items := [""] + colorNames;
    if 0 <= index < |items| then items[index] else []
  }

  /** `make_color_combobox(row, dex)`: a new box shows item 0 unless a
      non-negative index is given. */
  function NewColorIndex(dex: int): (i: nat)
    ensures dex >= 0 ==> i == dex
    ensures dex < 0 ==> i == 0
  {
    if dex >= 0 then dex else 0
  }

  /** The row `insertRow` plus `make_name_item(row, '')` and friends give. */
  function BlankRow(nameToCount: map<string, nat>): EnumRow {
    EnumRow("", "", false, NewColorIndex(-1), CountText(Get(nameToCount, "")))
  }

  /** `move_row(row, direction)`: the row is taken out and put back at
      `row + direction` with the same value and count items and a new
      colour box on the same index. */
  function MoveRowSpec(rows: seq<EnumRow>, row: nat, direction: int): (r: seq<EnumRow>)
    requires row < |rows| && 0 <= row + direction < |rows|
    ensures |r| == |rows|
  {
    var moved := rows[row].(colorIndex := NewColorIndex(rows[row].colorIndex));
    var rest := rows[..row] + rows[row + 1..];
    rest[..row + direction] + [moved] + rest[row + direction..]
  }

  /** A move by one swaps the row with its neighbour; nothing else moves. */
  lemma MoveRowSwaps(rows: seq<EnumRow>, row: nat, direction: int)
    requires direction == 1 || direction == -1
    requires row < |rows| && 0 <= row + direction < |rows|
    ensures var moved := rows[row].(colorIndex := NewColorIndex(rows[row].colorIndex));
            MoveRowSpec(rows, row, direction) == rows[row := rows[row + direction]][row + direction := moved]
  {
    var moved := rows[row].(colorIndex := NewColorIndex(rows[row].colorIndex));
    var r := MoveRowSpec(rows, row, direction);
    var q := rows[row := rows[row + direction]][row + direction := moved];
    forall k | 0 <= k < |rows| ensures r[k] == q[k] {
    }
  }

  /** A move keeps the colour each row shows. */
  lemma MoveRowKeepsColors(colorNames: seq<string>, rows: seq<EnumRow>, row: nat, direction: int)
    requires direction == 1 || direction == -1
    requires row < |rows| && 0 <= row + direction < |rows|
    ensures var r := MoveRowSpec(rows, row, direction);
            ColorText(colorNames, r[row + direction].colorIndex) == ColorText(colorNames, rows[row].colorIndex)
            && r[row].colorIndex == rows[row + direction].colorIndex
  {
    MoveRowSwaps(rows, row, direction);
  }

  /** Moving a row up and then down again puts everything back. */
  lemma{:induction false} MoveUpThenDown(rows: seq<EnumRow>, row: nat)
    requires 0 < row < |rows| && rows[row].colorIndex >= 0
    ensures MoveRowSpec(MoveRowSpec(rows, row, -1), row - 1, 1) == rows
  {
    MoveRowSwaps(rows, row, -1);
    var once := MoveRowSpec(rows, row, -1);
    MoveRowSwaps(once, row - 1, 1);
    var twice := MoveRowSpec(once, row - 1, 1);
    assert rows[row - 1].colorIndex == once[row].colorIndex;
    forall k | 0 <= k < |rows| ensures twice[k] == rows[k] {
    }
  }

  /** `rows[..row] + rows[row + 1..]` */
  function RemoveAt(rows: seq<EnumRow>, row: nat): (r: seq<EnumRow>)
    requires row < |rows|
    ensures |r| == |rows| - 1
    ensures forall k :: 0 <= k < row ==> r[k] == rows[k]
    ensures forall k :: row <= k < |r| ==> r[k] == rows[k + 1]
  {
    rows[..row] + rows[row + 1..]
  }

  /** `insertRow(row)` followed by filling it with `x` */
  function InsertAt(rows: seq<EnumRow>, row: nat, x: EnumRow): (r: seq<EnumRow>)
    requires row <= |rows|
    ensures |r| == |rows| + 1 && r[row] == x
    ensures forall k :: 0 <= k < row ==> r[k] == rows[k]
    ensures forall k :: row < k < |r| ==> r[k] == rows[k - 1]
  {
    rows[..row] + [x] + rows[row..]
  }

  // ---------------------------------------------------------------------
  // accept

  /** How accept ends: one of its three error dialogs, or the new display
      metadata, the rename map and whether `rename_items` is called. */
  datatype Outcome<Id> =
    | EmptyValue
    | DuplicateValue(value: string)
    | InvalidColors
    | Accepted(values: seq<string>, colors: seq<string>, idMap: map<Id, string>, renamed: bool)

  /** The row texts, in row order. */
  function Values(rows: seq<EnumRow>): (r: seq<string>)
    ensures |r| == |rows|
    ensures forall k :: 0 <= k < |rows| ==> r[k] == rows[k].text
  {
    seq(|rows|, k requires 0 <= k < |rows| => rows[k].text)
  }

  /** The non-empty colours shown, in row order. */
  function Colors(colorNames: seq<string>, rows: seq<EnumRow>): (r: seq<string>)
    ensures |r| <= |rows|
    ensures forall k :: 0 <= k < |r| ==> r[k] != []
    decreases |rows|
  {
    if rows == [] then []
    else
      var c := ColorText(colorNames, rows[|rows| - 1].colorIndex);
      Colors(colorNames, rows[..|rows| - 1]) + (if c != [] then [c] else [])
  }

  /** A row asks to be renamed when its text differs from the original
      value and its box is checked. */
  predicate Renames(row: EnumRow) {
    row.text != row.original && row.checked
  }

  /** The rename map: for each renaming row, in order, the id of its
      original value maps to its new text. */
  function IdMap<Id(==)>(getItemId: string -> Id, rows: seq<EnumRow>): map<Id, string>
    decreases |rows|
  {
    if rows == [] then map[]
    else
      var m := IdMap(getItemId, rows[..|rows| - 1]);
      var row := rows[|rows| - 1];
      if Renames(row) then m[getItemId(row.original) := row.text] else m
  }

  /** Every renaming row has its entry in the rename map. */
  lemma {:induction false} IdMapComplete<Id>(getItemId: string -> Id, rows: seq<EnumRow>)
    ensures forall k :: 0 <= k < |rows| && Renames(rows[k]) ==> getItemId(rows[k].original) in IdMap(getItemId, rows)
    decreases |rows|
  {
    if rows != [] {
      var init := rows[..|rows| - 1];
      IdMapComplete(getItemId, init);
      assert forall k :: 0 <= k < |init| ==> rows[k] == init[k];
    }
  }

  /** Every key of the rename map is the id of a renaming row's original
      value, and maps to the text of the last such row. */
  lemma {:induction false} IdMapSound<Id>(getItemId: string -> Id, rows: seq<EnumRow>, id: Id)
    requires id in IdMap(getItemId, rows)
    ensures exists k :: 0 <= k < |rows| && Renames(rows[k]) && getItemId(rows[k].original) == id
                        && IdMap(getItemId, rows)[id] == rows[k].text
                        && forall j :: k < j < |rows| && Renames(rows[j]) ==> getItemId(rows[j].original) != id
    decreases |rows|
  {
    var n := |rows| - 1;
    var init := rows[..n];
    var m := IdMap(getItemId, rows);
    if Renames(rows[n]) && getItemId(rows[n].original) == id {
      assert m[id] == rows[n].text;
    } else {
      var mi := IdMap(getItemId, init);
      assert id in mi && m[id] == mi[id];
      IdMapSound(getItemId, init, id);
      var k :| 0 <= k < n && Renames(init[k]) && getItemId(init[k].original) == id
               && mi[id] == init[k].text
               && forall j :: k < j < n && Renames(init[j]) ==> getItemId(init[j].original) != id;
      assert rows[k] == init[k];
      assert forall j :: k < j < n ==> rows[j] == init[j];
    }
  }

  /** The rename map is non-empty exactly when some row renames. */
  lemma {:induction false} IdMapNonEmpty<Id>(getItemId: string -> Id, rows: seq<EnumRow>)
    ensures |IdMap(getItemId, rows)| > 0 <==> exists k :: 0 <= k < |rows| && Renames(rows[k])
  {
    var m := IdMap(getItemId, rows);
    if |m| > 0 {
      var id :| id in m;
      IdMapSound(getItemId, rows, id);
    }
    if exists k :: 0 <= k < |rows| && Renames(rows[k]) {
      var k :| 0 <= k < |rows| && Renames(rows[k]);
      IdMapComplete(getItemId, rows);
      assert getItemId(rows[k].original) in m;
    }
  }

  /** The index of the first row whose text is empty, or |rows|. */
  function FirstEmpty(rows: seq<EnumRow>): (i: nat)
    ensures i <= |rows|
    ensures forall k :: 0 <= k < i ==> rows[k].text != []
    ensures i < |rows| ==> rows[i].text == []
    decreases |rows|
  {
    if rows == [] then 0
    else if rows[0].text == [] then 0
    else 1 + FirstEmpty(rows[1..])
  }

  /** The first index whose value occurs again later, or |s|. */
  function FirstRepeated(s: seq<string>): (i: nat)
    ensures i <= |s|
    ensures forall k, m :: 0 <= k < i && k < m < |s| ==> s[k] != s[m]
    ensures i < |s| ==> exists m :: i < m < |s| && s[m] == s[i]
    decreases |s|
  {
    if s == [] then 0
    else if s[0] in s[1..] then
      var m :| 0 <= m < |s[1..]| && s[1..][m] == s[0];
      assert s[m + 1] == s[0];
      0
    else
      var j := 1 + FirstRepeated(s[1..]);
      assert forall m :: 0 < m < |s| ==> s[m] == s[1..][m - 1];
      j
  }

  /** `[v.lower() for v in values]` */
  function Lowered(lower: string -> string, values: seq<string>): (r: seq<string>)
    ensures |r| == |values|
    ensures forall k :: 0 <= k < |values| ==> r[k] == lower(values[k])
  {
    seq(|values|, k requires 0 <= k < |values| => lower(values[k]))
  }

  /** accept, as a function of the table. `lower` is Python's `str.lower`. */
  function AcceptSpec<Id(==)>(colorNames: seq<string>, getItemId: string -> Id, lower: string -> string,
                              rows: seq<EnumRow>): Outcome<Id>
  {
    var values := Values(rows);
    var lows := Lowered(lower, values);
    var colors := Colors(colorNames, rows);
    var idMap := IdMap(getItemId, rows);
    if FirstEmpty(rows) < |rows| then EmptyValue
    else if FirstRepeated(lows) < |lows| then DuplicateValue(values[FirstRepeated(lows)])
    else if colors != [] && |colors| != |values| then InvalidColors
    else Accepted(values, colors, idMap, |idMap| > 0)
  }

  /** What an accepted table satisfies: no empty value, no two values equal
      after `lower`, colours on all rows or on none, the values and colours
      in row order, and `rename_items` called exactly when there is
      something to rename. */
  lemma AcceptedSpec<Id>(colorNames: seq<string>, getItemId: string -> Id, lower: string -> string,
                         rows: seq<EnumRow>)
    requires AcceptSpec(colorNames, getItemId, lower, rows).Accepted?
    ensures var o := AcceptSpec(colorNames, getItemId, lower, rows);
            && o.values == Values(rows)
            && (forall k :: 0 <= k < |rows| ==> rows[k].text != [])
            && (forall i, j :: 0 <= i < j < |rows| ==> lower(rows[i].text) != lower(rows[j].text))
            && (o.colors == [] || |o.colors| == |rows|)
            && o.colors == Colors(colorNames, rows)
            && o.idMap == IdMap(getItemId, rows)
            && (o.renamed <==> exists k :: 0 <= k < |rows| && Renames(rows[k]))
  {
    DistinctLower(lower, rows);
    IdMapNonEmpty(getItemId, rows);
  }

  /** No lowered value repeating means no two values equal after `lower`. */
  lemma DistinctLower(lower: string -> string, rows: seq<EnumRow>)
    requires FirstRepeated(Lowered(lower, Values(rows))) == |rows|
    ensures forall i, j :: 0 <= i < j < |rows| ==> lower(rows[i].text) != lower(rows[j].text)
  {
  }

  /** A duplicate is reported with the first value that occurs again, in
      its own case, and only when there is one. */
  lemma DuplicateSpec<Id>(colorNames: seq<string>, getItemId: string -> Id, lower: string -> string,
                          rows: seq<EnumRow>)
    ensures var o := AcceptSpec(colorNames, getItemId, lower, rows);
            o.DuplicateValue? <==>
              ((forall k :: 0 <= k < |rows| ==> rows[k].text != [])
               && exists i, j :: 0 <= i < j < |rows| && lower(rows[i].text) == lower(rows[j].text))
    ensures var o := AcceptSpec(colorNames, getItemId, lower, rows);
            o.DuplicateValue? ==>
              exists j :: 0 <= j < |rows| && lower(rows[FirstRepeated(Lowered(lower, Values(rows)))].text) == lower(rows[j].text)
                          && FirstRepeated(Lowered(lower, Values(rows))) < j
                          && o.value == rows[FirstRepeated(Lowered(lower, Values(rows)))].text
  {
    var lows := Lowered(lower, Values(rows));
    assert forall k :: 0 <= k < |rows| ==> lows[k] == lower(rows[k].text);
  }

  /** An empty value stops accept before any other test. */
  lemma EmptySpec<Id>(colorNames: seq<string>, getItemId: string -> Id, lower: string -> string,
                          rows: seq<EnumRow>)
    ensures AcceptSpec(colorNames, getItemId, lower, rows) == EmptyValue
            <==> exists k :: 0 <= k < |rows| && rows[k].text == []
  {
  }

  /** Partial colours are refused exactly when the values are otherwise fine. */
  lemma InvalidColorsSpec<Id>(colorNames: seq<string>, getItemId: string -> Id, lower: string -> string,
                                  rows: seq<EnumRow>)
    requires forall k :: 0 <= k < |rows| ==> rows[k].text != []
    requires forall i, j :: 0 <= i < j < |rows| ==> lower(rows[i].text) != lower(rows[j].text)
    ensures AcceptSpec(colorNames, getItemId, lower, rows) == InvalidColors
            <==> (Colors(colorNames, rows) != [] && |Colors(colorNames, rows)| != |rows|)
  {
    NoRepeatedLower(lower, rows);
  }

  /** With no two values equal after `lower`, no lowered value repeats. */
  lemma NoRepeatedLower(lower: string -> string, rows: seq<EnumRow>)
    requires forall i, j :: 0 <= i < j < |rows| ==> lower(rows[i].text) != lower(rows[j].text)
    ensures FirstRepeated(Lowered(lower, Values(rows))) == |rows|
  {
    var lows := Lowered(lower, Values(rows));
    assert forall k :: 0 <= k < |rows| ==> lows[k] == lower(rows[k].text);
    FirstRepeatedIs(lows, |lows|);
  }

  // ---------------------------------------------------------------------
  // The dialog

  /** One more row extends the values, the colours and the rename map as
      the loop of accept does. */
  lemma ScanStep<Id>(colorNames: seq<string>, getItemId: string -> Id, rows: seq<EnumRow>, i: nat)
    requires i < |rows|
    ensures Values(rows[..i + 1]) == Values(rows[..i]) + [rows[i].text]
    ensures var c := ColorText(colorNames, rows[i].colorIndex);
            Colors(colorNames, rows[..i + 1]) == Colors(colorNames, rows[..i]) + (if c != [] then [c] else [])
    ensures IdMap(getItemId, rows[..i + 1])
            == if Renames(rows[i]) then IdMap(getItemId, rows[..i])[getItemId(rows[i].original) := rows[i].text]
               else IdMap(getItemId, rows[..i])
  {
    assert rows[..i + 1][..i] == rows[..i];
    assert Values(rows[..i + 1]) == Values(rows[..i]) + [rows[i].text];
  }

  class EnumValuesEditor {
    var rows: seq<EnumRow>
    /** `name_to_count`: the number of books using each value. */
    const nameToCount: map<string, nat>
    /** `QColor.colorNames()` */
    const colorNames: seq<string>

    constructor (nameToCount: map<string, nat>, colorNames: seq<string>, rows: seq<EnumRow>)
      ensures this.rows == rows && this.nameToCount == nameToCount && this.colorNames == colorNames
    {
      this.rows := rows;
      this.nameToCount := nameToCount;
      this.colorNames := colorNames;
    }

    /** cell_changed: an edit of a value cell refreshes that row's count. */
    method CellChanged(row: int, col: int)
      modifies this
      ensures 0 <= row < |old(rows)| && col == 0 ==>
                rows == old(rows)[row := old(rows)[row].(countText := CountText(Get(nameToCount, old(rows)[row].text)))]
      ensures !(0 <= row < |old(rows)| && col == 0) ==> rows == old(rows)
    {
      if col == 0 && 0 <= row < |rows| {
        rows := rows[row := rows[row].(countText := CountText(Get(nameToCount, rows[row].text)))];
      }
    }

    /** move_up_clicked with current row `current` (-1 for none). Returns
        the current row afterwards and whether the "Select a cell" error
        was shown. */
    method MoveUp(current: int) returns (newCurrent: int, noSelection: bool)
      requires -1 <= current < |rows|
      modifies this
      ensures noSelection <==> current < 0
      ensures current <= 0 ==> rows == old(rows) && newCurrent == current
      ensures current > 0 ==> rows == MoveRowSpec(old(rows), current, -1) && newCurrent == current - 1
    {
      if current < 0 {
        return current, true;
      }
      if current == 0 {
        return current, false;
      }
      newCurrent := MoveRow(current, -1);
      noSelection := false;
    }

    /** move_down_clicked */
    method MoveDown(current: int) returns (newCurrent: int, noSelection: bool)
      requires -1 <= current < |rows|
      modifies this
      ensures noSelection <==> current < 0
      ensures (current < 0 || current >= |old(rows)| - 1) ==> rows == old(rows) && newCurrent == current
      ensures 0 <= current < |old(rows)| - 1 ==> rows == MoveRowSpec(old(rows), current, 1) && newCurrent == current + 1
    {
      if current < 0 {
        return current, true;
      }
      if current >= |rows| - 1 {
        return current, false;
      }
      newCurrent := MoveRow(current, 1);
      noSelection := false;
    }

    /** move_row: take the row's items, remove the row, insert a row at
        `row + direction`, put the items back and make it current. */
    method MoveRow(row: nat, direction: int) returns (newCurrent: int)
      requires row < |rows| && 0 <= row + direction < |rows|
      modifies this
      ensures rows == MoveRowSpec(old(rows), row, direction)
      ensures newCurrent == row + direction
    {
      var taken := rows[row];
      var c := taken.colorIndex;
      rows := RemoveAt(rows, row);
      var target := row + direction;
      rows := InsertAt(rows, target, taken.(colorIndex := NewColorIndex(c)));
      newCurrent := target;
    }

    /** del_line: the current row is removed unless its value is used by
        some book (a missing count is 0). Returns whether the "Cannot
        remove value" error was shown. */
    method DelLine(current: int) returns (refused: bool)
      requires -1 <= current < |rows|
      modifies this
      ensures current >= 0 ==> (refused <==> Get(nameToCount, old(rows)[current].text).GetOr(0) > 0)
      ensures current < 0 ==> !refused
      ensures (current < 0 || refused) ==> rows == old(rows)
      ensures current >= 0 && !refused ==> rows == RemoveAt(old(rows), current)
    {
      refused := false;
      if current >= 0 {
        var txt := rows[current].text;
        var count := Get(nameToCount, txt).GetOr(0);
        if count > 0 {
          refused := true;
          return;
        }
        rows := RemoveAt(rows, current);
      }
    }

    /** ins_button_clicked: a blank row at the current row. */
    method Insert(current: int) returns (noSelection: bool)
      requires -1 <= current < |rows|
      modifies this
      ensures noSelection <==> current < 0
      ensures current < 0 ==> rows == old(rows)
      ensures current >= 0 ==> rows == InsertAt(old(rows), current, BlankRow(nameToCount))
    {
      if current < 0 {
        return true;
      }
      rows := InsertAt(rows, current, BlankRow(nameToCount));
      noSelection := false;
    }

    /** The first half of accept: one pass over the rows collecting values,
        colours and renames, stopping at the first empty value. `complete`
        is false when it stopped. */
    method ScanRows<Id(==)>(getItemId: string -> Id)
      returns (values: seq<string>, colors: seq<string>, idMap: map<Id, string>, complete: bool)
      ensures complete <==> FirstEmpty(rows) == |rows|
      ensures complete ==> values == Values(rows) && colors == Colors(colorNames, rows)
                           && idMap == IdMap(getItemId, rows)
    {
      var table, names := rows, colorNames;
      values, colors, idMap := [], [], map[];
      for i := 0 to |table|
        invariant values == Values(table[..i])
        invariant colors == Colors(names, table[..i])
        invariant idMap == IdMap(getItemId, table[..i])
        invariant forall k :: 0 <= k < i ==> table[k].text != []
      {
        ScanStep(names, getItemId, table, i);
        var it := table[i];
        if it.text == [] {
          assert FirstEmpty(table) <= i;
          return values, colors, idMap, false;
        }
        if it.text != it.original && it.checked {
          idMap := idMap[getItemId(it.original) := it.text];
        }
        values := values + [it.text];
        var c := ColorText(names, it.colorIndex);
        if c != [] {
          colors := colors + [c];
        }
      }
      assert table[..|table|] == table;
      complete := true;
    }

    /** accept: the scan of the rows, then the duplicate test on the
        lowered values, then the colour test. */
    method Accept<Id(==)>(getItemId: string -> Id, lower: string -> string) returns (o: Outcome<Id>)
      ensures o == AcceptSpec(colorNames, getItemId, lower, rows)
    {
      var values, colors, idMap, complete := ScanRows(getItemId);
      if !complete {
        return EmptyValue;
      }
      var lows := Lowered(lower, values);
      var i := FindRepeated(lows);
      if i < |lows| {
        return DuplicateValue(values[i]);
      }
      if colors != [] && |colors| != |values| {
        return InvalidColors;
      }
      o := Accepted(values, colors, idMap, |idMap| > 0);
    }
  }

  /** The loop of accept that looks for a lowered value occurring again
      later (`v in l_lower[i+1:]`). */
  method FindRepeated(lows: seq<string>) returns (i: nat)
    ensures i == FirstRepeated(lows)
  {
    i := 0;
    while i < |lows|
      invariant i <= |lows|
      invariant forall k, m :: 0 <= k < i && k < m < |lows| ==> lows[k] != lows[m]
    {
      if lows[i] in lows[i + 1..] {
        var m :| 0 <= m < |lows[i + 1..]| && lows[i + 1..][m] == lows[i];
        assert lows[i + 1 + m] == lows[i];
        FirstRepeatedIs(lows, i);
        return;
      }
      assert forall m :: i < m < |lows| ==> lows[m] == lows[i + 1..][m - i - 1];
      i := i + 1;
    }
    FirstRepeatedIs(lows, i);
  }

  /** FirstRepeated is the first index that occurs again. */
  lemma {:induction false} FirstRepeatedIs(s: seq<string>, i: nat)
    requires i <= |s|
    requires forall k, m :: 0 <= k < i && k < m < |s| ==> s[k] != s[m]
    requires i < |s| ==> exists m :: i < m < |s| && s[m] == s[i]
    ensures FirstRepeated(s) == i
    decreases |s|
  {
    if s != [] {
      if i == 0 {
        var m :| 0 < m < |s| && s[m] == s[0];
        assert s[1..][m - 1] == s[0];
      } else {
        assert s[0] !in s[1..];
        assert forall m :: 0 < m < |s| ==> s[m] == s[1..][m - 1];
        FirstRepeatedIs(s[1..], i - 1);
      }
    }
  }
}
