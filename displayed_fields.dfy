// The list model behind the "displayed fields" preference lists
// (src/calibre/gui2/preferences/look_feel_tabs/__init__.py): an ordered
// list of (field key, visible) pairs with a dirty flag, edited by swapping
// neighbours and by ticking check boxes, and its `data` method.

module DisplayedFields {
  import opened Wrappers
  import Text

  /** One `[field, visible]` entry. */
  datatype Field = Field(key: string, visible: bool)

  /** `Qt.CheckState`, whose integer values are 0, 1 and 2. */
  datatype CheckState = Unchecked | PartiallyChecked | Checked

  function CheckStateValue(s: CheckState): int {
    match s
    case Unchecked => 0
    case PartiallyChecked => 1
    case Checked => 2
  }

  /** The value handed to `setData`: a check state or a plain integer. */
  datatype CheckValue = State(state: CheckState) | Int(n: int)

  /** `val in (Qt.CheckState.Checked, Qt.CheckState.Checked.value)` */
  predicate IsChecked(val: CheckValue) {
    val == State(Checked) || val == Int(CheckStateValue(Checked))
  }

  /** The item data roles this model answers; any other role is `OtherRole`. */
  datatype Role = DisplayRole | CheckStateRole | DecorationRole | OtherRole(code: int)

  /** What `data` returns: None, a string, a check state or an icon (named
      by its file or by the category it belongs to). */
  datatype DataValue = NoData | Label(text: string) | Check(state: CheckState) | Icon(name: string)

  /** The outcome of `field_metadata[field]['name']`: the lookup raises (no
      such field), gives None, or gives a name. */
  datatype MetaName = NoEntry | NullName | Name(name: string)

  function LookupName(names: map<string, Option<string>>, key: string): (m: MetaName)
    ensures m == NoEntry <==> key !in names
    ensures m == NullName <==> key in names && names[key] == None
    ensures m.Name? ==> key in names && names[key] == Some(m.name)
  {
    if key !in names then NoEntry
    else match names[key]
      case None => NullName
      case Some(n) => Name(n)
  }

  /** `s.partition(c)[0]`: everything before the first `c`. */
  function PartitionHead(s: string, c: char): (r: string)
    ensures c !in r
    ensures Text.StartsWith(s, r)
    ensures r == s || s[|r|] == c
    decreases |s|
  {
    if s == [] || s[0] == c then []
    else
      var r := [s[0]] + PartitionHead(s[1..], c);
      assert s[..|r|] == [s[0]] + s[1..][..|r| - 1];
      r
  }

  /** The name `data` settles on before its emptiness test: the metadata
      name, else the field itself; `Folders/path` for `path`; and for a
      field starting with `@`, the part before the first dot without the
      `@`. None is Python's None. */
  function ShownName(field: string, meta: MetaName): (n: Option<string>)
    ensures Text.StartsWith(field, "@") ==>
              n.Some? && |n.value| < |field| && n.value + field[|n.value| + 1..] == field[1..]
              && '.' !in n.value
              && (|n.value| + 1 == |field| || field[|n.value| + 1] == '.')
    ensures !Text.StartsWith(field, "@") && field == "path" ==> n == Some("Folders/path")
    ensures !Text.StartsWith(field, "@") && field != "path" ==>
              n == (match meta case NoEntry => Some(field) case NullName => None case Name(x) => Some(x))
  {
    if Text.StartsWith(field, "@") then
      var head := PartitionHead(field, '.');
      assert field[..|head|] == head;
      assert head[1..] + field[|head|..] == field[1..];
      Some(head[1..])
    else if field == "path" then Some("Folders/path")
    else match meta
      case NoEntry => Some(field)
      case NullName => None
      case Name(x) => Some(x)
  }

  /** The display role: `"name (field)"`, or the bare field when the name
      is empty or None. */
  function DisplayName(field: string, meta: MetaName): (r: string)
    ensures var n := ShownName(field, meta);
            (n == None || n == Some("")) ==> r == field
    ensures var n := ShownName(field, meta);
            (n.Some? && n.value != "") ==> r == n.value + " (" + field + ")"
  {
    match ShownName(field, meta)
    case None => field
    case Some(n) => if n == "" then field else n + " (" + field + ")"
  }

  /** Whatever the metadata says, the field key itself is shown. */
  lemma DisplayNameShowsField(field: string, meta: MetaName)
    ensures Text.Contains(DisplayName(field, meta), field)
  {
    var r := DisplayName(field, meta);
    var n := ShownName(field, meta);
    if n.Some? && n.value != "" {
      assert Text.OccursAt(r, field, |n.value| + 2);
    } else {
      assert Text.OccursAt(r, field, 0);
    }
  }

  /** A `@` field is named from its own key, never from the metadata. */
  lemma AtFieldIgnoresMetadata(field: string, m1: MetaName, m2: MetaName)
    requires Text.StartsWith(field, "@")
    ensures DisplayName(field, m1) == DisplayName(field, m2)
  {
  }

  /** `path` always shows as "Folders/path (path)". */
  lemma PathDisplay(meta: MetaName)
    ensures DisplayName("path", meta) == "Folders/path (path)"
  {
    assert "path"[..1] != "@" by { assert "path"[..1][0] == 'p'; }
  }

  /** An ordinary field with no metadata entry shows as "field (field)". */
  lemma UnknownFieldDisplay(field: string)
    requires field != [] && field[0] != '@' && field != "path"
    ensures DisplayName(field, NoEntry) == field + " (" + field + ")"
  {
  }

  /** Python's `fields[row]` index: a negative row counts from the end. */
  function PyIndex(len: nat, row: int): (k: nat)
    requires -(len as int) <= row < len
    ensures k < len
    ensures row >= 0 ==> k == row
    ensures row < 0 ==> k + (-row) == len
  {
    if row < 0 then len + row else row
  }

  /** `category_icons` is truthy: present and not empty. */
  predicate HasIcons(icons: Option<map<string, Option<string>>>) {
    icons.Some? && |icons.value| > 0
  }

  /** `data(index, role)` for the model's fields, the field names from the
      metadata and the category icons. */
  function Data(names: map<string, Option<string>>, icons: Option<map<string, Option<string>>>,
                fields: seq<Field>, row: int, role: Role): (r: DataValue)
    ensures !(-|fields| <= row < |fields|) ==> r == NoData
    ensures -|fields| <= row < |fields| && role == CheckStateRole ==>
              r == Check(if fields[PyIndex(|fields|, row)].visible then Checked else Unchecked)
    ensures -|fields| <= row < |fields| && role == DisplayRole ==>
              var key := fields[PyIndex(|fields|, row)].key;
              r == Label(DisplayName(key, LookupName(names, key)))
    ensures role.OtherRole? ==> r == NoData
  {
    if !(-|fields| <= row < |fields|) then NoData
    else
      var f := fields[PyIndex(|fields|, row)];
      match role
      case DisplayRole => Label(DisplayName(f.key, LookupName(names, f.key)))
      case CheckStateRole => Check(if f.visible then Checked else Unchecked)
      case DecorationRole =>
        if HasIcons(icons) && f.key in icons.value && icons.value[f.key].Some? then
          Icon(icons.value[f.key].value)
        else if Text.StartsWith(f.key, "#") then Icon("column.png")
        else NoData
      case OtherRole(_) => NoData
  }

  /** The decoration role: a category icon when one is given for the field,
      otherwise the column icon for a custom (`#`) field, otherwise none. */
  lemma DecorationSpec(names: map<string, Option<string>>, icons: Option<map<string, Option<string>>>,
                       fields: seq<Field>, row: int)
    requires 0 <= row < |fields|
    ensures var key := fields[row].key;
            var r := Data(names, icons, fields, row, DecorationRole);
            (HasIcons(icons) && key in icons.value && icons.value[key].Some? ==> r == Icon(icons.value[key].value))
            && (!(HasIcons(icons) && key in icons.value && icons.value[key].Some?) ==>
                  (r == Icon("column.png") <==> Text.StartsWith(key, "#")) && (r.Icon? || r == NoData))
  {
  }

  /** `fields[i]` and `fields[j]` exchanged. */
  function Swap(fields: seq<Field>, i: nat, j: nat): (r: seq<Field>)
    requires i < |fields| && j < |fields|
    ensures |r| == |fields| && r[i] == fields[j] && r[j] == fields[i]
    ensures forall k :: 0 <= k < |r| && k != i && k != j ==> r[k] == fields[k]
    ensures multiset(r) == multiset(fields)
  {
    fields[i := fields[j]][j := fields[i]]
  }

  /** Swapping back undoes a swap: a move followed by the opposite move
      restores the list. */
  lemma SwapBack(fields: seq<Field>, i: nat, j: nat)
    requires i < |fields| && j < |fields|
    ensures Swap(Swap(fields, i, j), j, i) == fields
  {
    var r := Swap(Swap(fields, i, j), j, i);
    assert forall k :: 0 <= k < |fields| ==> r[k] == fields[k];
  }

  /** Every entry with its visibility set to `show`; the keys and their
      order stay. */
  function AllSetTo(fields: seq<Field>, show: bool): (r: seq<Field>)
    ensures |r| == |fields|
    ensures forall k :: 0 <= k < |r| ==> r[k].key == fields[k].key && r[k].visible == show
  {
    seq(|fields|, k requires 0 <= k < |fields| => fields[k].(visible := show))
  }

  /** After toggle_all(show) every row reports Checked exactly when `show`. */
  lemma ToggledRowsReport(names: map<string, Option<string>>, icons: Option<map<string, Option<string>>>,
                          fields: seq<Field>, show: bool, row: nat)
    requires row < |fields|
    ensures Data(names, icons, AllSetTo(fields, show), row, CheckStateRole)
            == Check(if show then Checked else Unchecked)
  {
  }

  /** After setData on a row, that row reports the state set. */
  lemma SetRowReports(names: map<string, Option<string>>, icons: Option<map<string, Option<string>>>,
                      fields: seq<Field>, row: int, val: CheckValue)
    requires -|fields| <= row < |fields|
    ensures var k := PyIndex(|fields|, row);
            Data(names, icons, fields[k := fields[k].(visible := IsChecked(val))], row, CheckStateRole)
            == Check(if IsChecked(val) then Checked else Unchecked)
  {
  }

  /** `pref_name or 'book_display_fields'` */
  function PrefName(prefName: string): (r: string)
    ensures prefName != "" ==> r == prefName
    ensures prefName == "" ==> r == "book_display_fields"
  {
    if prefName != "" then prefName else "book_display_fields"
  }

  class DisplayedFieldsModel {
    var fields: seq<Field>
    var changed: bool
    const prefName: string
    /** The field names from the library's field metadata. */
    const names: map<string, Option<string>>
    const categoryIcons: Option<map<string, Option<string>>>

    /** `__init__`: no fields yet and nothing changed. An absent or empty
        preference name is given as "". */
    constructor (prefName: string, names: map<string, Option<string>>,
                 categoryIcons: Option<map<string, Option<string>>>)
      ensures fields == [] && !changed
      ensures this.prefName == PrefName(prefName)
      ensures this.names == names && this.categoryIcons == categoryIcons
    {
      fields := [];
      changed := false;
      this.prefName := PrefName(prefName);
      this.names := names;
      this.categoryIcons := categoryIcons;
    }

    /** `initialize`: the list comes from the stored or default field list
        (`get_field_list`, given here as `fieldList`) and counts as changed;
        `restore_defaults` is the same with the defaults. */
    method Initialize(fieldList: seq<(string, bool)>)
      modifies this
      ensures |fields| == |fieldList|
      ensures forall k :: 0 <= k < |fields| ==> fields[k] == Field(fieldList[k].0, fieldList[k].1)
      ensures changed
    {
      fields := seq(|fieldList|, k requires 0 <= k < |fieldList| => Field(fieldList[k].0, fieldList[k].1));
      changed := true;
    }

    function RowCount(): (n: nat)
      reads this
      ensures n == |fields|
    {
      |fields|
    }

    /** `setData(index, val, role)` */
    method SetData(row: int, val: CheckValue, role: Role) returns (ret: bool)
      requires role == CheckStateRole ==> -|fields| <= row < |fields|
      modifies this
      ensures ret <==> role == CheckStateRole
      ensures role == CheckStateRole ==>
                var k := PyIndex(|old(fields)|, row);
                fields == old(fields)[k := old(fields)[k].(visible := IsChecked(val))] && changed
      ensures role != CheckStateRole ==> fields == old(fields) && changed == old(changed)
    {
      ret := false;
      if role == CheckStateRole {
        var k := PyIndex(|fields|, row);
        fields := fields[k := fields[k].(visible := IsChecked(val))];
        changed := true;
        ret := true;
      }
    }

    /** `toggle_all(show)`: every row is set to Checked or Unchecked through
        setData, so the list is marked changed when it has any row. */
    method ToggleAll(show: bool)
      modifies this
      ensures fields == AllSetTo(old(fields), show)
      ensures changed == (old(changed) || |old(fields)| > 0)
    {
      var state := if show then Checked else Unchecked;
      for i := 0 to |fields|
        invariant |fields| == |old(fields)|
        invariant forall k :: 0 <= k < i ==> fields[k] == old(fields)[k].(visible := show)
        invariant forall k :: i <= k < |fields| ==> fields[k] == old(fields)[k]
        invariant changed == (old(changed) || i > 0)
      {
        var _ := SetData(i, State(state), CheckStateRole);
      }
    }

    /** `move(idx, delta)` for a valid index `row`: with the target row in
        range the two entries are exchanged, the list is marked changed and
        the target row is returned; otherwise nothing happens and None is
        returned. */
    method Move(row: nat, delta: int) returns (r: Option<nat>)
      requires row < |fields|
      modifies this
      ensures 0 <= row + delta < |old(fields)| ==>
                r == Some(row + delta) && fields == Swap(old(fields), row + delta, row) && changed
      ensures !(0 <= row + delta < |old(fields)|) ==>
                r == None && fields == old(fields) && changed == old(changed)
    {
      var target := row + delta;
      if target >= 0 && target < |fields| {
        var t := fields[target];
        fields := fields[target := fields[target - delta]];
        fields := fields[target - delta := t];
        changed := true;
        return Some(target);
      }
      return None;
    }

    /** `commit`: the preference is written, with the current list, only
        when something changed. Returns the write, if any. */
    method Commit() returns (written: Option<(string, seq<Field>)>)
      ensures written.Some? <==> changed
      ensures written.Some? ==> written.value == (prefName, fields)
    {
      if changed {
        return Some((prefName, fields));
      }
      return None;
    }
  }
}
