// The tag-browser icon-rules preference tab
// (src/calibre/gui2/preferences/look_feel_tabs/tb_icon_rules.py): the rules
// stored in `tags_browser_value_icons` (category -> value -> [icon file or
// template, for children]) are listed one per table row; rows can be
// marked deleted, their icon and "for children" setting changed and
// undone, and `commit` writes the edited rules back.
//
// The table's items are values held in the rows of the tab; the row and
// column that Qt keeps current are passed to the handlers that read them.

module TbIconRules {
  import opened Wrappers
  import opened Dicts
  import Text

  const DeletedColumn: nat := 0
  const CategoryColumn: nat := 1
  const ValueColumn: nat := 2
  const IconModifiedColumn: nat := 3
  const IconColumn: nat := 4
  const ForChildrenModifiedColumn: nat := 5
  const ForChildrenColumn: nat := 6
  const HeaderSectionCount: nat := 7

  /** The value key under which a category's template rule is stored. */
  const TemplateIconIndicator := " template "

  /** A stored rule: `[icon file name or template text, for children]`. */
  datatype Rule = Rule(icon: string, forChildren: Option<bool>)

  /** `tags_browser_value_icons`: category -> value -> rule. */
  type ValueIcons = Dict<string, Dict<string, Rule>>

  /** The "for children" cell: the original value, the value shown and
      its modified flag. */
  datatype ChildrenItem = ChildrenItem(original: Option<bool>, value: Option<bool>, modified: bool)
  {
    /** `set_value(val)` */
    function SetValue(val: Option<bool>): (r: ChildrenItem)
      ensures r.original == original && r.value == val
      ensures r.modified <==> val != original
    {
      ChildrenItem(original, val, val != original)
    }

    /** `undo()` */
    function Undo(): (r: ChildrenItem)
      ensures r.original == original && r.value == original && !r.modified
    {
      ChildrenItem(original, original, false)
    }
  }

  /** Undoing after any sequence of `set_value` calls gives the item as it
      was created; setting the original value back clears the flag. */
  lemma ChildrenUndoRestores(c: ChildrenItem, val: Option<bool>)
    ensures c.SetValue(val).Undo() == c.Undo()
    ensures !c.SetValue(c.original).modified
    ensures c.SetValue(val).SetValue(c.original).value == c.Undo().value
  {
  }

  /** The text the "for children" cell shows: nothing for a template rule,
      otherwise Yes for a true value and No for false or None. */
  function ChildrenText(itemValue: string, value: Option<bool>): (t: string)
    ensures itemValue == TemplateIconIndicator ==> t == ""
    ensures itemValue != TemplateIconIndicator ==> (t == "Yes" <==> value == Some(true))
    ensures itemValue != TemplateIconIndicator ==> (t == "No" <==> value != Some(true))
  {
    if itemValue == TemplateIconIndicator then ""
    else if value == Some(true) then "Yes" else "No"
  }

  /** The icon cell: the original file name or template, the current text,
      the modified flag and the bytes of a newly chosen icon. */
  datatype IconItem = IconItem(original: string, text: string, modified: bool, newIcon: Option<Bytes>)
  {
    /** `undo()`: the flag is cleared and the original text put back; a
        chosen icon's bytes are kept. */
    function Undo(): (r: IconItem)
      ensures r.text == original && r.original == original && !r.modified && r.newIcon == newIcon
    {
      IconItem(original, original, false, newIcon)
    }

    /** The template dialog was accepted with `rule`. */
    function WithTemplate(rule: string): IconItem {
      this.(text := rule, modified := true)
    }

    /** A new image was chosen; its bytes wait for commit. */
    function WithIcon(data: Bytes): IconItem {
      this.(newIcon := Some(data), modified := true)
    }
  }

  /** Undoing a template edit gives back the item as it was populated;
      undoing a chosen image restores the text and flag but keeps the
      bytes, which commit no longer writes. */
  lemma IconUndoRestores(i: IconItem, rule: string, data: Bytes)
    ensures i.WithTemplate(rule).Undo() == i.Undo()
    ensures i.WithIcon(data).Undo() == i.Undo().(newIcon := Some(data))
    ensures i.WithTemplate(rule).modified && i.WithTemplate(rule).text == rule
    ensures i.WithIcon(data).modified && i.WithIcon(data).text == i.text
  {
  }

  /** One table row. `deleted` is the category item's `is_modified`. */
  datatype RuleRow = RuleRow(category: string, categoryText: string, deleted: bool,
                             valueText: string, icon: IconItem, children: ChildrenItem)

  /** `ValueTableWidgetItem.is_template` */
  predicate IsTemplate(row: RuleRow) {
    row.valueText == TemplateIconIndicator
  }

  /** A row as populate_content creates it: nothing deleted or modified. */
  predicate Fresh(row: RuleRow) {
    !row.deleted && !row.icon.modified && !row.children.modified && row.icon.newIcon == None
    && row.icon.text == row.icon.original && row.children.value == row.children.original
  }

  // ---------------------------------------------------------------------
  // populate_content

  /** What the current library gives: the display name of each category
      it has (`field_metadata[category]['name']`) and the values in use in
      a category (`all_field_names`). */
  datatype Library = Library(names: map<string, string>, allFieldNames: string -> set<string>)

  /** `s.removeprefix(p)` */
  function RemovePrefix(s: string, p: string): (r: string)
    ensures Text.StartsWith(s, p) ==> p + r == s
    ensures !Text.StartsWith(s, p) ==> r == s
  {
    if Text.StartsWith(s, p) then
      assert s == s[..|p|] + s[|p|..];
      s[|p|..]
    else s
  }

  function DisplayNameOf(lib: Library, category: string): string {
    if category in lib.names then lib.names[category] else RemovePrefix(category, "#")
  }

  function AllValues(lib: Library, category: string): set<string> {
    if category in lib.names then lib.allFieldNames(category) else {}
  }

  /** Whether a rule gets a row. With `only_current_library` set, a category
      the library lacks is skipped, and so is a value other than the
      template indicator that the library does not use. */
  predicate Shown(lib: Library, onlyCurrent: bool, category: string, value: string) {
    (category in lib.names || !onlyCurrent)
    && !(onlyCurrent && value != TemplateIconIndicator && value !in AllValues(lib, category))
  }

  /** The row made for rule `entry` of `category`. */
  function NewRow(lib: Library, category: string, entry: (string, Rule)): (r: RuleRow)
    ensures Fresh(r) && r.category == category && r.valueText == entry.0
    ensures r.icon.text == entry.1.icon && r.children.value == entry.1.forChildren
  {
    var d := entry.1;
    RuleRow(category, DisplayNameOf(lib, category) + " (" + category + ")", false, entry.0,
            IconItem(d.icon, d.icon, false, None), ChildrenItem(d.forChildren, d.forChildren, false))
  }

  /** `[f(x) for x in s if keep(x)]` */
  function FilterMap<A, B>(keep: A -> bool, f: A -> B, s: seq<A>): seq<B>
    decreases |s|
  {
    if s == [] then []
    else FilterMap(keep, f, s[..|s| - 1]) + if keep(s[|s| - 1]) then [f(s[|s| - 1])] else []
  }

  lemma {:induction false} FilterMapSound<A, B>(keep: A -> bool, f: A -> B, s: seq<A>)
    ensures forall x :: x in FilterMap(keep, f, s) ==> exists j :: 0 <= j < |s| && keep(s[j]) && x == f(s[j])
    decreases |s|
  {
    if s != [] {
      var n := |s| - 1;
      var t := s[..n];
      FilterMapSound(keep, f, t);
      var r := FilterMap(keep, f, s);
      assert r == FilterMap(keep, f, t) + if keep(s[n]) then [f(s[n])] else [];
      forall x | x in r ensures exists j :: 0 <= j < |s| && keep(s[j]) && x == f(s[j]) {
        if x in FilterMap(keep, f, t) {
          var j :| 0 <= j < |t| && keep(t[j]) && x == f(t[j]);
          assert t[j] == s[j];
        } else {
          assert x == f(s[n]);
        }
      }
    } else {
      assert FilterMap(keep, f, s) == [];
    }
  }

  lemma {:induction false} FilterMapComplete<A, B>(keep: A -> bool, f: A -> B, s: seq<A>)
    ensures forall j :: 0 <= j < |s| && keep(s[j]) ==> f(s[j]) in FilterMap(keep, f, s)
    decreases |s|
  {
    if s != [] {
      var n := |s| - 1;
      var t := s[..n];
      FilterMapComplete(keep, f, t);
      var r := FilterMap(keep, f, s);
      assert r == FilterMap(keep, f, t) + if keep(s[n]) then [f(s[n])] else [];
      forall j | 0 <= j < |s| && keep(s[j]) ensures f(s[j]) in r {
        if j < n {
          assert t[j] == s[j];
        }
      }
    }
  }

  lemma {:induction false} FilterMapNone<A, B>(keep: A -> bool, f: A -> B, s: seq<A>)
    requires forall j :: 0 <= j < |s| ==> !keep(s[j])
    ensures FilterMap(keep, f, s) == []
    decreases |s|
  {
    if s != [] {
      var n := |s| - 1;
      assert forall j :: 0 <= j < n ==> s[..n][j] == s[j];
      FilterMapNone(keep, f, s[..n]);
    }
  }

  /** The concatenation of `g(x)` for the `x` of `s`, in order. */
  function FlatMap<A, B>(g: A -> seq<B>, s: seq<A>): seq<B>
    decreases |s|
  {
    if s == [] then [] else FlatMap(g, s[..|s| - 1]) + g(s[|s| - 1])
  }

  lemma {:induction false} FlatMapSound<A, B>(g: A -> seq<B>, s: seq<A>)
    ensures forall x :: x in FlatMap(g, s) ==> exists c :: 0 <= c < |s| && x in g(s[c])
    decreases |s|
  {
    if s != [] {
      var n := |s| - 1;
      var t := s[..n];
      FlatMapSound(g, t);
      var r := FlatMap(g, s);
      assert r == FlatMap(g, t) + g(s[n]);
      forall x | x in r ensures exists c :: 0 <= c < |s| && x in g(s[c]) {
        if x in FlatMap(g, t) {
          var c :| 0 <= c < |t| && x in g(t[c]);
          assert t[c] == s[c];
        } else {
          assert x in g(s[n]);
        }
      }
    } else {
      assert FlatMap(g, s) == [];
    }
  }

  lemma {:induction false} FlatMapComplete<A, B>(g: A -> seq<B>, s: seq<A>)
    ensures forall c, x :: 0 <= c < |s| && x in g(s[c]) ==> x in FlatMap(g, s)
    decreases |s|
  {
    if s != [] {
      var n := |s| - 1;
      var t := s[..n];
      FlatMapComplete(g, t);
      var r := FlatMap(g, s);
      assert r == FlatMap(g, t) + g(s[n]);
      forall c, x | 0 <= c < |s| && x in g(s[c]) ensures x in r {
        if c < n {
          assert t[c] == s[c];
        }
      }
    }
  }

  /** The filter of populate_content for one category. */
  function KeepRule(lib: Library, onlyCurrent: bool, category: string): ((string, Rule)) -> bool {
    (e: (string, Rule)) => Shown(lib, onlyCurrent, category, e.0)
  }

  function MakeRow(lib: Library, category: string): ((string, Rule)) -> RuleRow {
    (e: (string, Rule)) => NewRow(lib, category, e)
  }

  /** The rows for one category's rules, in dict order. */
  function CategoryRows(lib: Library, onlyCurrent: bool, category: string, rules: Dict<string, Rule>)
    : seq<RuleRow>
  {
    FilterMap(KeepRule(lib, onlyCurrent, category), MakeRow(lib, category), rules)
  }

  function RowsOf(lib: Library, onlyCurrent: bool): ((string, Dict<string, Rule>)) -> seq<RuleRow> {
    (entry: (string, Dict<string, Rule>)) => CategoryRows(lib, onlyCurrent, entry.0, entry.1)
  }

  /** All rows, category after category in dict order. */
  function PopulateSpec(lib: Library, onlyCurrent: bool, v: ValueIcons): seq<RuleRow> {
    FlatMap(RowsOf(lib, onlyCurrent), v)
  }

  /** With only the current library's rules shown, a category it lacks
      gets no rows. */
  lemma CategoryRowsSkipped(lib: Library, category: string, rules: Dict<string, Rule>)
    requires category !in lib.names
    ensures CategoryRows(lib, true, category, rules) == []
  {
    FilterMapNone(KeepRule(lib, true, category), MakeRow(lib, category), rules);
  }

  /** Every row is a shown rule: its category is one of the stored
      categories and its value one of that category's values. */
  lemma PopulateSound(lib: Library, onlyCurrent: bool, v: ValueIcons)
    ensures forall row :: row in PopulateSpec(lib, onlyCurrent, v) ==>
              exists c, j :: 0 <= c < |v| && 0 <= j < |v[c].1| && Shown(lib, onlyCurrent, v[c].0, v[c].1[j].0)
                             && row == NewRow(lib, v[c].0, v[c].1[j])
  {
    var g := RowsOf(lib, onlyCurrent);
    FlatMapSound(g, v);
    forall row | row in PopulateSpec(lib, onlyCurrent, v)
      ensures exists c, j :: 0 <= c < |v| && 0 <= j < |v[c].1| && Shown(lib, onlyCurrent, v[c].0, v[c].1[j].0)
                             && row == NewRow(lib, v[c].0, v[c].1[j])
    {
      var c :| 0 <= c < |v| && row in g(v[c]);
      var keep := KeepRule(lib, onlyCurrent, v[c].0);
      var f := MakeRow(lib, v[c].0);
      FilterMapSound(keep, f, v[c].1);
      var j :| 0 <= j < |v[c].1| && keep(v[c].1[j]) && row == f(v[c].1[j]);
    }
  }

  /** Every shown rule has its row. */
  lemma PopulateComplete(lib: Library, onlyCurrent: bool, v: ValueIcons)
    ensures forall c, j :: 0 <= c < |v| && 0 <= j < |v[c].1| && Shown(lib, onlyCurrent, v[c].0, v[c].1[j].0) ==>
              NewRow(lib, v[c].0, v[c].1[j]) in PopulateSpec(lib, onlyCurrent, v)
  {
    var g := RowsOf(lib, onlyCurrent);
    FlatMapComplete(g, v);
    forall c, j | 0 <= c < |v| && 0 <= j < |v[c].1| && Shown(lib, onlyCurrent, v[c].0, v[c].1[j].0)
      ensures NewRow(lib, v[c].0, v[c].1[j]) in PopulateSpec(lib, onlyCurrent, v)
    {
      var keep := KeepRule(lib, onlyCurrent, v[c].0);
      var f := MakeRow(lib, v[c].0);
      FilterMapComplete(keep, f, v[c].1);
      assert keep(v[c].1[j]);
      assert NewRow(lib, v[c].0, v[c].1[j]) in g(v[c]);
    }
  }

  /** Without the current-library filter every stored rule has a row. */
  lemma AllShownWithoutFilter(lib: Library, category: string, value: string)
    ensures Shown(lib, false, category, value)
  {
  }

  // ---------------------------------------------------------------------
  // undo_changes

  /** Which handler `undo_changes` calls for the current column. */
  datatype UndoAction = CallUndoDelete | CallUndoModification | NoUndo

  /** The column mapping of `undo_changes`: a marker column stands for the
      column it marks. */
  function UndoColumn(column: nat): (c: nat)
    ensures column == DeletedColumn ==> c == CategoryColumn
    ensures column == IconModifiedColumn ==> c == IconColumn
    ensures column == ForChildrenModifiedColumn ==> c == ForChildrenColumn
    ensures column !in {DeletedColumn, IconModifiedColumn, ForChildrenModifiedColumn} ==> c == column
  {
    if column == DeletedColumn then CategoryColumn
    else if column == IconModifiedColumn then IconColumn
    else if column == ForChildrenModifiedColumn then ForChildrenColumn
    else column
  }

  function UndoActionFor(column: nat): (a: UndoAction)
    ensures a == CallUndoDelete <==> column in {DeletedColumn, CategoryColumn, ValueColumn}
    ensures a == CallUndoModification <==>
              column in {IconModifiedColumn, IconColumn, ForChildrenModifiedColumn, ForChildrenColumn}
    ensures a == NoUndo <==> column >= HeaderSectionCount
  {
    var c := UndoColumn(column);
    if c == CategoryColumn || c == ValueColumn then CallUndoDelete
    else if c == IconColumn || c == ForChildrenColumn then CallUndoModification
    else NoUndo
  }

  /** The outcome of an undo handler: the item's `undo` ran, the item at
      the current cell has no `undo` method (AttributeError), or there was
      nothing to do. */
  datatype UndoOutcome = Undone | NoUndoMethod | NothingDone

  /** `undo_modification` on column `column` of `row`: the category item's
      undo clears the deletion, the icon and "for children" items undo
      their edits, and the value and marker items have no undo method. */
  function UndoModified(row: RuleRow, column: nat): (r: Option<RuleRow>)
    ensures r.Some? <==> column in {CategoryColumn, IconColumn, ForChildrenColumn}
    ensures column == CategoryColumn ==> r == Some(row.(deleted := false))
    ensures column == IconColumn ==> r.Some? && !r.value.icon.modified && r.value.icon.text == row.icon.original
                                     && r.value.children == row.children && r.value.deleted == row.deleted
    ensures column == ForChildrenColumn ==> r.Some? && !r.value.children.modified
                                            && r.value.children.value == row.children.original
                                            && r.value.icon == row.icon && r.value.deleted == row.deleted
  {
    if column == CategoryColumn then Some(row.(deleted := false))
    else if column == IconColumn then Some(row.(icon := row.icon.Undo()))
    else if column == ForChildrenColumn then Some(row.(children := row.children.Undo()))
    else None
  }

  /** `undo_changes` on column `column` of `row`: the outcome and the row
      afterwards. A marker column is mapped to the column it marks to pick
      the handler, but `undo_modification` then reads the item of the
      marker column itself, which has no undo method. */
  function UndoChangesSpec(row: RuleRow, column: nat): (r: (UndoOutcome, RuleRow))
    ensures column in {DeletedColumn, CategoryColumn, ValueColumn} ==> r == (Undone, row.(deleted := false))
    ensures column in {IconColumn, ForChildrenColumn} ==> r == (Undone, UndoModified(row, column).value)
    ensures column in {IconModifiedColumn, ForChildrenModifiedColumn} ==> r == (NoUndoMethod, row)
    ensures column >= HeaderSectionCount ==> r == (NothingDone, row)
  {
    match UndoActionFor(column)
    case CallUndoDelete => (Undone, row.(deleted := false))
    case CallUndoModification =>
      (match UndoModified(row, column)
       case Some(r) => (Undone, r)
       case None => (NoUndoMethod, row))
    case NoUndo => (NothingDone, row)
  }

  /** Undoing an edit of a freshly populated row, in the edited column,
      gives a row that commits exactly as the fresh one. */
  lemma UndoRestoresCommit(d: Rule, row: RuleRow, edited: RuleRow, column: nat)
    requires Fresh(row) && column in {IconColumn, ForChildrenColumn}
    requires edited.category == row.category && edited.valueText == row.valueText && !edited.deleted
    requires column == IconColumn ==> edited.children == row.children && edited.icon.original == row.icon.original
    requires column == ForChildrenColumn ==> edited.icon == row.icon && edited.children.original == row.children.original
    ensures Updated(d, UndoChangesSpec(edited, column).1) == d
    ensures OwnFiles(UndoChangesSpec(edited, column).1) == []
  {
  }

  // ---------------------------------------------------------------------
  // Context menu

  /** The context menu for an item: none on a marker column; otherwise
      Copy, preceded for the category, value, icon and "for children"
      columns by an action and its undo, of which exactly one is enabled. */
  datatype Menu = NoMenu | CopyOnly | Actions(actionEnabled: bool, undoEnabled: bool)

  function MenuFor(row: RuleRow, column: nat): (m: Menu)
    ensures m == NoMenu <==> column in {DeletedColumn, IconModifiedColumn, ForChildrenModifiedColumn}
    ensures m.Actions? <==> column in {CategoryColumn, ValueColumn, IconColumn, ForChildrenColumn}
    ensures m.Actions? ==> m.actionEnabled == !m.undoEnabled
    ensures column in {CategoryColumn, ValueColumn} ==> m == Actions(!row.deleted, row.deleted)
    ensures column == IconColumn ==> m == Actions(!row.icon.modified, row.icon.modified)
    ensures column == ForChildrenColumn ==> m == Actions(!row.children.modified, row.children.modified)
  {
    if column in {DeletedColumn, IconModifiedColumn, ForChildrenModifiedColumn} then NoMenu
    else if column in {CategoryColumn, ValueColumn} then Actions(!row.deleted, row.deleted)
    else if column == IconColumn then Actions(!row.icon.modified, row.icon.modified)
    else if column == ForChildrenColumn then Actions(!row.children.modified, row.children.modified)
    else CopyOnly
  }

  // ---------------------------------------------------------------------
  // commit

  /** The rule a kept row writes back: a modified template rule takes the
      edited template text; a changed icon file keeps its file name (the
      new image is written to that file); a modified "for children" value
      replaces the stored one. */
  function Updated(d: Rule, row: RuleRow): (r: Rule)
    ensures r.icon == (if row.icon.modified && IsTemplate(row) then row.icon.text else d.icon)
    ensures !IsTemplate(row) ==> r.icon == d.icon
    ensures r.forChildren == (if row.children.modified then row.children.value else d.forChildren)
    ensures Fresh(row) ==> r == d
  {
    var d1 := if row.icon.modified && IsTemplate(row) then d.(icon := row.icon.text) else d;
    if row.children.modified then d1.(forChildren := row.children.value) else d1
  }

  /** `v[category][value]`, None when either key is missing. */
  function Lookup2(v: ValueIcons, category: string, value: string): Option<Rule> {
    match Lookup(v, category)
    case None => None
    case Some(rules) => Lookup(rules, value)
  }

  /** How commit ends: the new rules, a KeyError raised by a lookup, or
      an AttributeError on an empty table cell of row `row`. */
  datatype CommitOutcome = Committed(v: ValueIcons) | KeyError(key: string) | MissingItem(row: nat)

  /** The loop body of commit for one row. */
  function CommitRow(v: ValueIcons, row: RuleRow): (o: CommitOutcome)
    ensures o.KeyError? <==> Lookup(v, row.category).None?
                             || (!row.deleted && Lookup2(v, row.category, row.valueText).None?)
    ensures !o.MissingItem?
  {
    var cat := row.category;
    match Lookup(v, cat)
    case None => KeyError(cat)
    case Some(rules) =>
      if row.deleted then Committed(Put(v, cat, Pop(rules, row.valueText)))
      else match Lookup(rules, row.valueText)
        case None => KeyError(row.valueText)
        case Some(d) =>
          var d1 := if row.icon.modified && IsTemplate(row) then d.(icon := row.icon.text) else d;
          var v1 := if row.icon.modified && IsTemplate(row)
                    then Put(v, cat, Put(rules, TemplateIconIndicator, d1)) else v;
          if row.children.modified then
            var rules1 := if row.icon.modified && IsTemplate(row) then Put(rules, TemplateIconIndicator, d1) else rules;
            Committed(Put(v1, cat, Put(rules1, row.valueText, d1.(forChildren := row.children.value))))
          else Committed(v1)
  }

  /** The row loop of commit over `rows`, in table order. */
  function CommitRows(v: ValueIcons, rows: seq<RuleRow>): CommitOutcome
    decreases |rows|
  {
    if rows == [] then Committed(v)
    else
      match CommitRows(v, rows[..|rows| - 1])
      case KeyError(k) => KeyError(k)
      case Committed(w) => CommitRow(w, rows[|rows| - 1])
  }

  /** The categories left with at least one rule, in order. */
  function NonEmpty(v: ValueIcons): (r: ValueIcons)
    decreases |v|
  {
    if v == [] then []
    else NonEmpty(v[..|v| - 1]) + if |v[|v| - 1].1| > 0 then [v[|v| - 1]] else []
  }

  /** commit, as a function of the stored rules and the table. */
  function CommitSpec(v: ValueIcons, rows: seq<RuleRow>): CommitOutcome {
    match CommitRows(v, rows)
    case KeyError(k) => KeyError(k)
    case Committed(w) => Committed(NonEmpty(w))
  }

  /** What a kept or deleted row does to its own rule. */
  function RowResult(d: Rule, row: RuleRow): Option<Rule> {
    if row.deleted then None else Some(Updated(d, row))
  }

  /** The step of commit for one row whose rule is stored: the row's own
      rule is removed or updated, every other rule and the set of
      categories stay as they were. */
  lemma CommitRowEffect(v: ValueIcons, row: RuleRow, c: string, x: string)
    requires Lookup2(v, row.category, row.valueText).Some?
    ensures CommitRow(v, row).Committed?
    ensures Lookup(CommitRow(v, row).v, c).Some? <==> Lookup(v, c).Some?
    ensures Lookup2(CommitRow(v, row).v, c, x)
            == if c == row.category && x == row.valueText
               then RowResult(Lookup2(v, c, x).value, row)
               else Lookup2(v, c, x)
  {
    var cat := row.category;
    var rules := Lookup(v, cat).value;
    var d := Lookup(rules, row.valueText).value;
    var d1 := if row.icon.modified && IsTemplate(row) then d.(icon := row.icon.text) else d;
    var v1 := if row.icon.modified && IsTemplate(row)
              then Put(v, cat, Put(rules, TemplateIconIndicator, d1)) else v;
    var rules1 := if row.icon.modified && IsTemplate(row) then Put(rules, TemplateIconIndicator, d1) else rules;
    if row.deleted {
      PutLookup(v, cat, Pop(rules, row.valueText), c);
      PopLookup(rules, row.valueText, x);
    } else {
      PutLookup(v, cat, rules1, c);
      PutLookup(rules, TemplateIconIndicator, d1, x);
      PutLookup(v1, cat, Put(rules1, row.valueText, d1.(forChildren := row.children.value)), c);
      PutLookup(rules1, row.valueText, d1.(forChildren := row.children.value), x);
    }
  }

  /** The key a row's rule is stored under. */
  function RowKey(row: RuleRow): (string, string) {
    (row.category, row.valueText)
  }

  /** Every row's rule is stored in `v`. */
  ghost predicate RowsPresent(v: ValueIcons, rows: seq<RuleRow>) {
    forall i :: 0 <= i < |rows| ==> Lookup2(v, rows[i].category, rows[i].valueText).Some?
  }

  /** No two rows stand for the same rule, as in a populated table. */
  ghost predicate RowKeysDistinct(rows: seq<RuleRow>) {
    forall i, j :: 0 <= i < j < |rows| ==> RowKey(rows[i]) != RowKey(rows[j])
  }

  /** The row loop of commit: when every row's rule is stored and no two
      rows share one, no KeyError is raised, each row's rule is removed
      or updated from its original value, every rule without a row is
      untouched, and no category appears or disappears. */
  lemma {:induction false} CommitRowsEffect(v: ValueIcons, rows: seq<RuleRow>, c: string, x: string)
    requires RowsPresent(v, rows) && RowKeysDistinct(rows)
    ensures CommitRows(v, rows).Committed?
    ensures Lookup(CommitRows(v, rows).v, c).Some? <==> Lookup(v, c).Some?
    ensures forall i :: 0 <= i < |rows| && RowKey(rows[i]) == (c, x) ==>
              Lookup2(CommitRows(v, rows).v, c, x) == RowResult(Lookup2(v, c, x).value, rows[i])
    ensures (forall i :: 0 <= i < |rows| ==> RowKey(rows[i]) != (c, x)) ==>
              Lookup2(CommitRows(v, rows).v, c, x) == Lookup2(v, c, x)
    decreases |rows|
  {
    if rows != [] {
      var n := |rows| - 1;
      var p := rows[..n];
      var last := rows[n];
      assert RowsPresent(v, p) by {
        forall i | 0 <= i < |p| ensures Lookup2(v, p[i].category, p[i].valueText).Some? {
          assert p[i] == rows[i];
        }
      }
      assert RowKeysDistinct(p) by {
        forall i, j | 0 <= i < j < |p| ensures RowKey(p[i]) != RowKey(p[j]) {
          assert p[i] == rows[i] && p[j] == rows[j];
        }
      }
      CommitRowsEffect(v, p, last.category, last.valueText);
      assert forall i :: 0 <= i < |p| ==> RowKey(p[i]) != RowKey(last) by {
        forall i | 0 <= i < |p| ensures RowKey(p[i]) != RowKey(last) {
          assert p[i] == rows[i];
        }
      }
      CommitRowsEffect(v, p, c, x);
      var w := CommitRows(v, p).v;
      CommitRowEffect(w, last, c, x);
      assert CommitRows(v, rows) == CommitRow(w, last);
      if RowKey(last) != (c, x) {
        forall i | 0 <= i < |p| ensures p[i] == rows[i] {
        }
      }
    }
  }

  /** The row loop keeps the category keys distinct. */
  lemma {:induction false} CommitRowsDistinct(v: ValueIcons, rows: seq<RuleRow>)
    requires KeysDistinct(v)
    ensures CommitRows(v, rows).Committed? ==> KeysDistinct(CommitRows(v, rows).v)
    decreases |rows|
  {
    if rows != [] {
      var n := |rows| - 1;
      CommitRowsDistinct(v, rows[..n]);
      if CommitRows(v, rows[..n]).Committed? {
        var w := CommitRows(v, rows[..n]).v;
        var row := rows[n];
        var cat := row.category;
        match Lookup(w, cat)
        case None =>
        case Some(rules) =>
          if row.deleted {
            PutDistinct(w, cat, Pop(rules, row.valueText));
          } else if Lookup(rules, row.valueText).Some? {
            var d := Lookup(rules, row.valueText).value;
            var d1 := if row.icon.modified && IsTemplate(row) then d.(icon := row.icon.text) else d;
            var rules1 := if row.icon.modified && IsTemplate(row) then Put(rules, TemplateIconIndicator, d1) else rules;
            PutDistinct(w, cat, rules1);
            var v1 := if row.icon.modified && IsTemplate(row) then Put(w, cat, rules1) else w;
            PutDistinct(v1, cat, Put(rules1, row.valueText, d1.(forChildren := row.children.value)));
          }
      }
    }
  }

  /** Every entry the sweep keeps is an entry of `v`. */
  lemma {:induction false} NonEmptySubset(v: ValueIcons)
    ensures forall e :: e in NonEmpty(v) ==> e in v
    decreases |v|
  {
    if v != [] {
      var n := |v| - 1;
      NonEmptySubset(v[..n]);
      forall e | e in NonEmpty(v) ensures e in v {
        if e in NonEmpty(v[..n]) {
          var j :| 0 <= j < n && v[..n][j] == e;
          assert v[j] == e;
        } else {
          assert e == v[n];
        }
      }
    }
  }

  /** The sweep: a category looks up its rules afterwards exactly when it
      had at least one rule. */
  lemma {:induction false} NonEmptyLookup(v: ValueIcons, c: string)
    requires KeysDistinct(v)
    ensures Lookup(NonEmpty(v), c) == if Lookup(v, c).Some? && |Lookup(v, c).value| > 0 then Lookup(v, c) else None
    decreases |v|
  {
    if v != [] {
      var n := |v| - 1;
      var p := v[..n];
      var e := v[n];
      assert v == p + [e];
      assert KeysDistinct(p) by {
        forall i, j | 0 <= i < j < |p| ensures p[i].0 != p[j].0 {
          assert p[i] == v[i] && p[j] == v[j];
        }
      }
      NonEmptyLookup(p, c);
      var tail := if |e.1| > 0 then [e] else [];
      assert NonEmpty(v) == NonEmpty(p) + tail;
      LookupAppend(NonEmpty(p), tail, c);
      LookupAppend(p, [e], c);
      LookupSpec(NonEmpty(p), c);
      LookupSpec(p, c);
      if HasKey(p, c) {
        var i :| 0 <= i < |p| && p[i].0 == c;
        assert v[i].0 != v[n].0;
      }
    }
  }

  /** The sweep changes no rule lookup: an empty category has none. */
  lemma NonEmptyLookup2(v: ValueIcons, c: string, x: string)
    requires KeysDistinct(v)
    ensures Lookup2(NonEmpty(v), c, x) == Lookup2(v, c, x)
    ensures Lookup(NonEmpty(v), c).Some? ==> |Lookup(NonEmpty(v), c).value| > 0
  {
    NonEmptyLookup(v, c);
  }

  /** commit, when every row's rule is stored and no two rows share one:
      the outcome holds exactly the rules of the table that are not
      deleted, as edited, and the untouched rules, with no empty
      category left. */
  lemma CommitSpecEffect(v: ValueIcons, rows: seq<RuleRow>, c: string, x: string)
    requires KeysDistinct(v) && RowsPresent(v, rows) && RowKeysDistinct(rows)
    ensures CommitSpec(v, rows).Committed?
    ensures forall i :: 0 <= i < |rows| && RowKey(rows[i]) == (c, x) ==>
              Lookup2(CommitSpec(v, rows).v, c, x) == RowResult(Lookup2(v, c, x).value, rows[i])
    ensures (forall i :: 0 <= i < |rows| ==> RowKey(rows[i]) != (c, x)) ==>
              Lookup2(CommitSpec(v, rows).v, c, x) == Lookup2(v, c, x)
    ensures Lookup(CommitSpec(v, rows).v, c).Some? ==> |Lookup(CommitSpec(v, rows).v, c).value| > 0
  {
    CommitRowsEffect(v, rows, c, x);
    CommitRowsDistinct(v, rows);
    NonEmptyLookup2(CommitRows(v, rows).v, c, x);
  }

  /** The sweep loop of commit over `list(v.keys())`. */
  method RemoveEmptyCategories(v: ValueIcons) returns (w: ValueIcons)
    requires KeysDistinct(v)
    ensures w == NonEmpty(v)
  {
    var keys := seq(|v|, i requires 0 <= i < |v| => v[i].0);
    w := v;
    for i := 0 to |keys|
      invariant w == NonEmpty(v[..i]) + v[i..]
    {
      SweepStep(v, i);
      var rules := Lookup(w, keys[i]).value;
      if |rules| == 0 {
        w := Pop(w, keys[i]);
      }
    }
    assert v[..|v|] == v;
  }

  lemma SweepStep(v: ValueIcons, i: nat)
    requires KeysDistinct(v) && i < |v|
    ensures Lookup(NonEmpty(v[..i]) + v[i..], v[i].0) == Some(v[i].1)
    ensures Pop(NonEmpty(v[..i]) + v[i..], v[i].0) == NonEmpty(v[..i]) + v[i + 1..]
    ensures NonEmpty(v[..i + 1]) == NonEmpty(v[..i]) + if |v[i].1| > 0 then [v[i]] else []
    ensures |v[i].1| > 0 ==> NonEmpty(v[..i]) + v[i..] == NonEmpty(v[..i + 1]) + v[i + 1..]
  {
    var k := v[i].0;
    var a := NonEmpty(v[..i]);
    NonEmptySubset(v[..i]);
    assert !HasKey(a, k) by {
      forall j | 0 <= j < |a| ensures a[j].0 != k {
        assert a[j] in v[..i];
        var m :| 0 <= m < i && v[..i][m] == a[j];
        assert v[m] == a[j];
      }
    }
    var rest := v[i + 1..];
    assert !HasKey(rest, k) by {
      forall j | 0 <= j < |rest| ensures rest[j].0 != k {
        assert rest[j] == v[i + 1 + j];
      }
    }
    LookupAppend(a, v[i..], k);
    assert v[i..] == [v[i]] + v[i + 1..];
    PopAppend(a, v[i..], k);
    PopAbsent(a, k);
    PopAbsent(v[i + 1..], k);
    assert v[..i + 1][..i] == v[..i];
    assert NonEmpty(v[..i]) + v[i..] == (NonEmpty(v[..i]) + [v[i]]) + v[i + 1..];
  }

  /** A populated table that nobody edited commits back the stored rules
      (before the sweep). */
  lemma {:induction false} CommitFreshRows(v: ValueIcons, rows: seq<RuleRow>)
    requires RowsPresent(v, rows) && forall i :: 0 <= i < |rows| ==> Fresh(rows[i])
    ensures CommitRows(v, rows) == Committed(v)
    decreases |rows|
  {
    if rows != [] {
      var n := |rows| - 1;
      var p := rows[..n];
      assert forall i :: 0 <= i < |p| ==> p[i] == rows[i];
      CommitFreshRows(v, p);
    }
  }

  /** Every row of a populated table stands for a stored rule, and none
      is edited. */
  lemma PopulatedRowsPresent(lib: Library, onlyCurrent: bool, v: ValueIcons)
    requires KeysDistinct(v)
    ensures RowsPresent(v, PopulateSpec(lib, onlyCurrent, v))
    ensures forall i :: 0 <= i < |PopulateSpec(lib, onlyCurrent, v)| ==> Fresh(PopulateSpec(lib, onlyCurrent, v)[i])
  {
    var rows := PopulateSpec(lib, onlyCurrent, v);
    PopulateSound(lib, onlyCurrent, v);
    forall i | 0 <= i < |rows|
      ensures Lookup2(v, rows[i].category, rows[i].valueText).Some? && Fresh(rows[i])
    {
      assert rows[i] in rows;
      var c, j :| 0 <= c < |v| && 0 <= j < |v[c].1| && Shown(lib, onlyCurrent, v[c].0, v[c].1[j].0)
                  && rows[i] == NewRow(lib, v[c].0, v[c].1[j]);
      LookupAt(v, c);
      LookupSpec(v[c].1, v[c].1[j].0);
    }
  }

  /** Committing an untouched table gives back the stored rules, with the
      empty categories swept out. */
  lemma PopulateThenCommit(lib: Library, onlyCurrent: bool, v: ValueIcons)
    requires KeysDistinct(v)
    ensures CommitSpec(v, PopulateSpec(lib, onlyCurrent, v)) == Committed(NonEmpty(v))
  {
    PopulatedRowsPresent(lib, onlyCurrent, v);
    CommitFreshRows(v, PopulateSpec(lib, onlyCurrent, v));
  }

  // ---------------------------------------------------------------------
  // Icon files touched by commit (under `tb_icons` in the configuration
  // directory)

  datatype FileOp = RemoveIcon(name: string) | WriteIcon(name: string, data: Bytes)

  /** The file operations of one row: a deleted rule other than a template
      removes its icon file; a kept rule other than a template whose icon
      was replaced writes the new image over its file. */
  function OwnFiles(row: RuleRow): (r: seq<FileOp>)
    ensures r == [] || |r| == 1
    ensures (exists name :: RemoveIcon(name) in r) <==> row.deleted && !IsTemplate(row)
    ensures (exists name, data :: WriteIcon(name, data) in r) <==>
              !row.deleted && row.icon.modified && !IsTemplate(row) && row.icon.newIcon.Some?
    ensures forall op :: op in r ==> op.name == row.icon.text
    ensures Fresh(row) ==> r == []
  {
    if row.deleted then
      if IsTemplate(row) then [] else [RemoveIcon(row.icon.text)]
    else if row.icon.modified && !IsTemplate(row) && row.icon.newIcon.Some? then
      [WriteIcon(row.icon.text, row.icon.newIcon.value)]
    else []
  }

  /** The file operations done while committing `row` against `v`: a
      kept row raises its KeyError before writing anything. */
  function RowFiles(v: ValueIcons, row: RuleRow): seq<FileOp> {
    if row.deleted || Lookup2(v, row.category, row.valueText).Some? then OwnFiles(row) else []
  }

  /** The file operations of the row loop, up to the row that raised. */
  function CommitFiles(v: ValueIcons, rows: seq<RuleRow>): seq<FileOp>
    decreases |rows|
  {
    if rows == [] then []
    else
      var n := |rows| - 1;
      match CommitRows(v, rows[..n])
      case Committed(w) => CommitFiles(v, rows[..n]) + RowFiles(w, rows[n])
      case _ => CommitFiles(v, rows[..n])
  }

  /** When every row's rule is stored and no two rows share one, commit
      performs each row's own file operation, in table order. */
  lemma {:induction false} CommitFilesAll(v: ValueIcons, rows: seq<RuleRow>)
    requires RowsPresent(v, rows) && RowKeysDistinct(rows)
    ensures CommitFiles(v, rows) == FlatMap(OwnFiles, rows)
    decreases |rows|
  {
    if rows != [] {
      var n := |rows| - 1;
      var p := rows[..n];
      var last := rows[n];
      assert RowsPresent(v, p) by {
        forall i | 0 <= i < |p| ensures Lookup2(v, p[i].category, p[i].valueText).Some? {
          assert p[i] == rows[i];
        }
      }
      assert RowKeysDistinct(p) by {
        forall i, j | 0 <= i < j < |p| ensures RowKey(p[i]) != RowKey(p[j]) {
          assert p[i] == rows[i] && p[j] == rows[j];
        }
      }
      assert forall i :: 0 <= i < |p| ==> RowKey(p[i]) != RowKey(last) by {
        forall i | 0 <= i < |p| ensures RowKey(p[i]) != RowKey(last) {
          assert p[i] == rows[i];
        }
      }
      CommitRowsEffect(v, p, last.category, last.valueText);
      CommitFilesAll(v, p);
    }
  }

  /** Once the row loop has raised, the later rows change nothing. */
  lemma {:induction false} CommitRowsStop(v: ValueIcons, rows: seq<RuleRow>, m: nat)
    requires m <= |rows| && CommitRows(v, rows[..m]).KeyError?
    ensures CommitRows(v, rows) == CommitRows(v, rows[..m])
    ensures CommitFiles(v, rows) == CommitFiles(v, rows[..m])
    decreases |rows|
  {
    if |rows| == m {
      assert rows[..m] == rows;
    } else {
      var n := |rows| - 1;
      assert rows[..n][..m] == rows[..m];
      CommitRowsStop(v, rows[..n], m);
    }
  }

  // ---------------------------------------------------------------------
  // Row count after populate_content

  /** The table's row count after populate_content as written:
      `clearContents` keeps the old count and `setRowCount(row + 1)` runs
      only for a shown rule, so a population with no rows leaves the old
      count of now empty rows. */
  function PopulatedRowCount(oldCount: nat, shown: nat): (n: nat)
    ensures shown > 0 ==> n == shown
    ensures shown == 0 ==> n == oldCount
  {
    if shown == 0 then oldCount else shown
  }

  /** The evidently intended row count: one row per shown rule. */
  function CorrectedRowCount(oldCount: nat, shown: nat): (n: nat)
    ensures n == shown
  {
    shown
  }

  /** commit over a table of `rowCount` rows of which the first `|rows|`
      hold items: a row without items ends it in an AttributeError. */
  function CommitTable(v: ValueIcons, rows: seq<RuleRow>, rowCount: nat): (o: CommitOutcome)
    ensures rowCount <= |rows| ==> o == CommitSpec(v, rows)
    ensures rowCount > |rows| && CommitRows(v, rows).Committed? ==> o == MissingItem(|rows|)
  {
    if rowCount > |rows| then
      match CommitRows(v, rows)
      case Committed(_) => MissingItem(|rows|)
      case o => o
    else CommitSpec(v, rows)
  }

  /** A rule of a category the current library lacks. */
  function OtherLibraryRules(): ValueIcons {
    [("#genre", [("sf", Rule("sf.png", None))])]
  }

  function NoCategories(): Library {
    Library(map[], (_: string) => {})
  }

  /** As written: with all rules shown the table has one row; switching to
      the current library's rules shows none but keeps that row, now
      empty, and commit then fails on it. */
  lemma FilterToEmptyBreaksCommit()
    ensures |PopulateSpec(NoCategories(), false, OtherLibraryRules())| == 1
    ensures PopulateSpec(NoCategories(), true, OtherLibraryRules()) == []
    ensures CommitTable(OtherLibraryRules(), PopulateSpec(NoCategories(), true, OtherLibraryRules()),
                        PopulatedRowCount(|PopulateSpec(NoCategories(), false, OtherLibraryRules())|,
                                          |PopulateSpec(NoCategories(), true, OtherLibraryRules())|))
            == MissingItem(0)
  {
    var v := OtherLibraryRules();
    var lib := NoCategories();
    assert v[..0] == [];
    assert v[0].1[..0] == [];
    assert CategoryRows(lib, false, "#genre", v[0].1) == [NewRow(lib, "#genre", v[0].1[0])];
    assert CategoryRows(lib, true, "#genre", v[0].1) == [];
  }

  /** With the corrected row count every table populate_content builds
      commits without error, and an untouched one gives back the stored
      rules. */
  lemma CorrectedPopulateCommits(lib: Library, onlyCurrent: bool, v: ValueIcons, oldCount: nat)
    requires KeysDistinct(v)
    ensures CommitTable(v, PopulateSpec(lib, onlyCurrent, v),
                        CorrectedRowCount(oldCount, |PopulateSpec(lib, onlyCurrent, v)|))
            == Committed(NonEmpty(v))
  {
    PopulateThenCommit(lib, onlyCurrent, v);
  }

  // ---------------------------------------------------------------------
  // The tab

  /** The table's current cell. */
  datatype Cell = Cell(row: nat, column: nat)

  /** `do_sort`'s update of the sort orders: the clicked section's order
      flips between ascending (0) and descending (1). */
  function FlipOrder(orders: seq<int>, section: nat): (r: seq<int>)
    requires section < |orders|
    ensures |r| == |orders| && r[section] == 1 - orders[section]
    ensures forall i :: 0 <= i < |orders| && i != section ==> r[i] == orders[i]
  {
    orders[section := 1 - orders[section]]
  }

  /** Clicking a header twice restores its order; orders stay 0 or 1. */
  lemma FlipTwice(orders: seq<int>, section: nat)
    requires section < |orders|
    ensures FlipOrder(FlipOrder(orders, section), section) == orders
    ensures (forall i :: 0 <= i < |orders| ==> orders[i] in {0, 1}) ==>
              forall i :: 0 <= i < |orders| ==> FlipOrder(orders, section)[i] in {0, 1}
  {
  }

  /** lazy_initialize's orders [0, 1, 1, 0, 0, 0, 0], after sorting the
      value column and then the category column, are all ascending. */
  lemma InitialSortOrders()
    ensures FlipOrder(FlipOrder([0, 1, 1, 0, 0, 0, 0], ValueColumn), CategoryColumn) == [0, 0, 0, 0, 0, 0, 0]
  {
  }

  /** The outer loop of populate_content, over the categories. */
  method BuildRows(lib: Library, onlyCurrent: bool, v: ValueIcons) returns (acc: seq<RuleRow>)
    ensures acc == PopulateSpec(lib, onlyCurrent, v)
  {
    acc := [];
    for c := 0 to |v|
      invariant acc == FlatMap(RowsOf(lib, onlyCurrent), v[..c])
    {
      var category := v[c].0;
      assert v[..c + 1][..c] == v[..c];
      if category !in lib.names && onlyCurrent {
        CategoryRowsSkipped(lib, category, v[c].1);
        continue;
      }
      var more := BuildCategoryRows(lib, onlyCurrent, category, v[c].1);
      acc := acc + more;
    }
    assert v[..|v|] == v;
  }

  /** The inner loop of populate_content, over one category's values. */
  method BuildCategoryRows(lib: Library, onlyCurrent: bool, category: string, rules: Dict<string, Rule>)
    returns (acc: seq<RuleRow>)
    requires category in lib.names || !onlyCurrent
    ensures acc == CategoryRows(lib, onlyCurrent, category, rules)
  {
    acc := [];
    for j := 0 to |rules|
      invariant acc == FilterMap(KeepRule(lib, onlyCurrent, category), MakeRow(lib, category), rules[..j])
    {
      assert rules[..j + 1][..j] == rules[..j];
      if onlyCurrent && rules[j].0 != TemplateIconIndicator && rules[j].0 !in AllValues(lib, category) {
        continue;
      }
      acc := acc + [NewRow(lib, category, rules[j])];
    }
    assert rules[..|rules|] == rules;
  }

  class TbIconRulesTab {
    /** The table, one row per listed rule, in populate order. */
    var rows: seq<RuleRow>
    /** The table's row count. Rows from `|rows|` on hold no items: they
        are left over from an earlier population (see PopulatedRowCount). */
    var rowCount: nat
    /** `section_order`: the sort order of each header section. */
    var sectionOrder: seq<int>
    var lastSectionSorted: nat
    /** The "show only current library" check box. */
    var onlyCurrentLibrary: bool

    ghost predicate Valid()
      reads this
    {
      |sectionOrder| == HeaderSectionCount
      && (forall i :: 0 <= i < |sectionOrder| ==> sectionOrder[i] in {0, 1})
      && lastSectionSorted < HeaderSectionCount
    }

    predicate ValidCell(current: Option<Cell>)
      reads this
    {
      current.Some? ==> current.value.row < |rows| && current.value.column < HeaderSectionCount
    }

    /** genesis: the check box takes the saved preference; the table is
        empty until lazy_initialize. */
    constructor (showOnlyCurrent: bool)
      ensures rows == [] && rowCount == 0 && sectionOrder == [] && lastSectionSorted == 0
      ensures onlyCurrentLibrary == showOnlyCurrent
    {
      rows := [];
      rowCount := 0;
      sectionOrder := [];
      lastSectionSorted := 0;
      onlyCurrentLibrary := showOnlyCurrent;
    }

    /** populate_content: one row per shown rule, category after category
        in dict order; the row count only grows to fit a shown rule, so
        with no rule shown the old rows stay, emptied. */
    method PopulateContent(lib: Library, v: ValueIcons)
      modifies this
      ensures rows == PopulateSpec(lib, onlyCurrentLibrary, v)
      ensures rowCount == PopulatedRowCount(old(rowCount), |rows|) && |rows| <= rowCount
      ensures onlyCurrentLibrary == old(onlyCurrentLibrary)
      ensures sectionOrder == old(sectionOrder) && lastSectionSorted == old(lastSectionSorted)
    {
      rows := BuildRows(lib, onlyCurrentLibrary, v);
      rowCount := PopulatedRowCount(rowCount, |rows|);
    }

    /** do_sort: flips the section's order and remembers the section; the
        table is sorted by it in that order. */
    method DoSort(section: nat) returns (order: int)
      requires |sectionOrder| == HeaderSectionCount && section < HeaderSectionCount
      modifies this
      ensures sectionOrder == FlipOrder(old(sectionOrder), section) && lastSectionSorted == section
      ensures order == sectionOrder[section]
      ensures rows == old(rows) && rowCount == old(rowCount) && onlyCurrentLibrary == old(onlyCurrentLibrary)
      ensures old(Valid()) ==> Valid()
    {
      order := 1 - sectionOrder[section];
      sectionOrder := sectionOrder[section := order];
      lastSectionSorted := section;
      FlipTwice(old(sectionOrder), section);
    }

    /** lazy_initialize: populate, then sort by value and by category. */
    method LazyInitialize(lib: Library, v: ValueIcons)
      modifies this
      ensures Valid()
      ensures rows == PopulateSpec(lib, onlyCurrentLibrary, v)
      ensures rowCount == PopulatedRowCount(old(rowCount), |rows|)
      ensures sectionOrder == [0, 0, 0, 0, 0, 0, 0] && lastSectionSorted == CategoryColumn
      ensures onlyCurrentLibrary == old(onlyCurrentLibrary)
    {
      PopulateContent(lib, v);
      sectionOrder := [0, 1, 1, 0, 0, 0, 0];
      lastSectionSorted := 0;
      var _ := DoSort(ValueColumn);
      var _ := DoSort(CategoryColumn);
      InitialSortOrders();
    }

    /** change_filter_library: the check box is saved, the table rebuilt
        and sorted again by the last sorted section and its order. */
    method ChangeFilterLibrary(lib: Library, v: ValueIcons, checked: bool) returns (section: nat, order: int)
      requires Valid()
      modifies this
      ensures Valid()
      ensures onlyCurrentLibrary == checked && rows == PopulateSpec(lib, checked, v)
      ensures rowCount == PopulatedRowCount(old(rowCount), |rows|)
      ensures sectionOrder == old(sectionOrder) && lastSectionSorted == old(lastSectionSorted)
      ensures section == lastSectionSorted && order == sectionOrder[section]
    {
      onlyCurrentLibrary := checked;
      PopulateContent(lib, v);
      section := lastSectionSorted;
      order := sectionOrder[section];
    }

    /** delete_rule: the current row's category item is marked deleted. */
    method DeleteRule(current: Option<Cell>)
      requires ValidCell(current)
      modifies this
      ensures current.None? ==> rows == old(rows)
      ensures current.Some? ==> rows == old(rows)[current.value.row := old(rows)[current.value.row].(deleted := true)]
      ensures sectionOrder == old(sectionOrder) && lastSectionSorted == old(lastSectionSorted)
      ensures onlyCurrentLibrary == old(onlyCurrentLibrary) && rowCount == old(rowCount)
    {
      if current.Some? {
        var r := current.value.row;
        rows := rows[r := rows[r].(deleted := true)];
      }
    }

    /** undo_delete: the current row's category item is undone. */
    method UndoDelete(current: Option<Cell>)
      requires ValidCell(current)
      modifies this
      ensures current.None? ==> rows == old(rows)
      ensures current.Some? ==> rows == old(rows)[current.value.row := old(rows)[current.value.row].(deleted := false)]
      ensures sectionOrder == old(sectionOrder) && lastSectionSorted == old(lastSectionSorted)
      ensures onlyCurrentLibrary == old(onlyCurrentLibrary) && rowCount == old(rowCount)
    {
      if current.Some? {
        var r := current.value.row;
        rows := rows[r := rows[r].(deleted := false)];
      }
    }

    /** undo_modification: the item at the current cell is undone, if it
        has an undo method. */
    method UndoModification(current: Option<Cell>) returns (o: UndoOutcome)
      requires ValidCell(current)
      modifies this
      ensures current.None? ==> o == NothingDone && rows == old(rows)
      ensures current.Some? ==>
                var r := current.value.row;
                match UndoModified(old(rows)[r], current.value.column)
                case Some(row) => o == Undone && rows == old(rows)[r := row]
                case None => o == NoUndoMethod && rows == old(rows)
      ensures sectionOrder == old(sectionOrder) && lastSectionSorted == old(lastSectionSorted)
      ensures onlyCurrentLibrary == old(onlyCurrentLibrary) && rowCount == old(rowCount)
    {
      o := NothingDone;
      if current.Some? {
        var r := current.value.row;
        match UndoModified(rows[r], current.value.column)
        case Some(row) =>
          rows := rows[r := row];
          o := Undone;
        case None =>
          o := NoUndoMethod;
      }
    }

    /** undo_changes: picks undo_delete or undo_modification by the
        current column, a marker column standing for the column it marks. */
    method UndoChanges(current: Option<Cell>) returns (o: UndoOutcome)
      requires ValidCell(current)
      modifies this
      ensures current.None? ==> o == NothingDone && rows == old(rows)
      ensures current.Some? ==>
                var r := current.value.row;
                var (outcome, row) := UndoChangesSpec(old(rows)[r], current.value.column);
                o == outcome && rows == old(rows)[r := row]
      ensures sectionOrder == old(sectionOrder) && lastSectionSorted == old(lastSectionSorted)
      ensures onlyCurrentLibrary == old(onlyCurrentLibrary) && rowCount == old(rowCount)
    {
      o := NothingDone;
      if current.Some? {
        var action := UndoActionFor(current.value.column);
        if action == CallUndoDelete {
          UndoDelete(current);
          o := Undone;
        } else if action == CallUndoModification {
          o := UndoModification(current);
          assert old(rows)[current.value.row := old(rows)[current.value.row]] == old(rows);
        }
      }
    }

    /** IconColumnDelegate.createEditor on row `r`: a template rule takes
        the text of an accepted template dialog; any other rule takes the
        bytes of a chosen image. Nothing changes when the dialog is
        cancelled. */
    method IconEdited(r: nat, dialogRule: Option<string>, chosenImage: Option<Bytes>)
      requires r < |rows|
      modifies this
      ensures IsTemplate(old(rows)[r]) ==>
                rows == if dialogRule.Some? then old(rows)[r := old(rows)[r].(icon := old(rows)[r].icon.WithTemplate(dialogRule.value))]
                        else old(rows)
      ensures !IsTemplate(old(rows)[r]) ==>
                rows == if chosenImage.Some? then old(rows)[r := old(rows)[r].(icon := old(rows)[r].icon.WithIcon(chosenImage.value))]
                        else old(rows)
      ensures sectionOrder == old(sectionOrder) && lastSectionSorted == old(lastSectionSorted)
      ensures onlyCurrentLibrary == old(onlyCurrentLibrary) && rowCount == old(rowCount)
    {
      if IsTemplate(rows[r]) {
        if dialogRule.Some? {
          rows := rows[r := rows[r].(icon := rows[r].icon.WithTemplate(dialogRule.value))];
        }
      } else if chosenImage.Some? {
        rows := rows[r := rows[r].(icon := rows[r].icon.WithIcon(chosenImage.value))];
      }
    }

    /** ChildrenColumnDelegate.setModelData on row `r` with the editor on
        Yes or No; a template rule gets no editor. */
    method ChildEdited(r: nat, yes: bool)
      requires r < |rows|
      modifies this
      ensures IsTemplate(old(rows)[r]) ==> rows == old(rows)
      ensures !IsTemplate(old(rows)[r]) ==>
                rows == old(rows)[r := old(rows)[r].(children := old(rows)[r].children.SetValue(Some(yes)))]
      ensures sectionOrder == old(sectionOrder) && lastSectionSorted == old(lastSectionSorted)
      ensures onlyCurrentLibrary == old(onlyCurrentLibrary) && rowCount == old(rowCount)
    {
      if !IsTemplate(rows[r]) {
        rows := rows[r := rows[r].(children := rows[r].children.SetValue(Some(yes)))];
      }
    }

    /** commit against a copy `v` of the stored rules: the rules to store
        and the icon file operations done on the way; a row without items
        stops it with an AttributeError. */
    method Commit(v: ValueIcons) returns (o: CommitOutcome, files: seq<FileOp>)
      requires KeysDistinct(v)
      ensures o == CommitTable(v, rows, rowCount)
      ensures files == CommitFiles(v, rows)
    {
      var w := v;
      files := [];
      var r := 0;
      while r < |rows|
        invariant 0 <= r <= |rows|
        invariant CommitRows(v, rows[..r]) == Committed(w)
        invariant files == CommitFiles(v, rows[..r])
      {
        assert rows[..r + 1][..r] == rows[..r];
        files := files + RowFiles(w, rows[r]);
        var step := CommitRow(w, rows[r]);
        if step.KeyError? {
          CommitRowsStop(v, rows, r + 1);
          o := step;
          return;
        }
        w := step.v;
        r := r + 1;
      }
      assert rows[..r] == rows;
      if rowCount > |rows| {
        o := MissingItem(|rows|);
        return;
      }
      CommitRowsDistinct(v, rows);
      var swept := RemoveEmptyCategories(w);
      o := Committed(swept);
    }
  }
}
