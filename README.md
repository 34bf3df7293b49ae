# calibre: seven small pieces, modelled and proved

This project models seven pieces of logic from calibre, the e-book manager,
and proves what each piece promises:

- **Metadata worker** (`MetadataWorker`, `metadata_worker.dfy`). Three steps
  read the metadata of files about to be added to the library:
  - import plugins run over the paths: unreadable files are dropped, and a
    plugin's converted file replaces a path;
  - the metadata record is serialized with its cover taken out;
  - the title is looked up among the books already present, to catch
    duplicates.
- **eReader reader** (`EreaderReader`, `ereader_reader.dfy`). The eReader
  PDB reader picks its variant from the size of record 0 and forwards
  every call to that variant.
- **Kobo markup** (`Kepubify`, `kepubify.dfy`). These are the tree edits
  that turn XHTML into Kobo's KEPUB form:
  - the `kobostylehacks` style sheet is added and removed;
  - the body is wrapped in `div#book-columns > div#book-inner`, and
    unwrapped again;
  - a counter hands out `kobo.<para>.<segment>` span ids;
  - leading whitespace is split off text before it is wrapped in spans.
- **Enum-values editor** (`EnumValuesEdit`, `enum_values_edit.dfy`). This
  is the dialog that edits the permitted values of an enumerated custom
  column:
  - rows move up and down, are deleted (only when unused), and are
    inserted;
  - a row's book count refreshes when its value is edited;
  - the OK button validates the rows and builds the rename map.
- **Displayed-fields list** (`DisplayedFields`, `displayed_fields.dfy`).
  This is the list of `[field, visible]` pairs behind the "fields to
  display" preferences. It covers display names, check states, moves,
  toggling all rows and saving.
- **Tag-browser icon rules** (`TbIconRules`, `tb_icon_rules.dfy`). This is
  the preferences tab that lists the value-icon rules:
  - the rule table is filled, with an optional "current library only"
    filter;
  - the table items keep a modified flag and can be undone;
  - columns sort with an order that flips on each click;
  - commit writes the edited rules back as a nested dictionary.
- **Message dialogs** (`MessageBox`, `message_box.dfy`):
  - a MessageBox takes its icon from its type, limits its own size, and
    toggles its details pane;
  - the JobError dialog shows the errors of background jobs one at a
    time, from a first-in first-out queue, with a suppress check box
    and a retry button.

Shared helpers live in `text.dfy`, `posix_path.dfy` and `dicts.dfy`:
- `Wrappers` and `Text` cover digits, whitespace, `str.strip`, and
  decimal printing and parsing of numbers;
- `PosixPath` covers `os.path.join`, `basename` and `splitext` for POSIX
  paths;
- `Dicts` models a Python dict as an association list in insertion order,
  with lookup, assignment and `pop`.

How the pieces are modelled:
- Code that computes a value becomes functions over datatypes.
- Where the source updates an object's fields, the object is a class. This
  covers the editor dialog, the list model, the rules tab, the message
  boxes and the span counter.
- Where the source loops, there is a method with invariants, proved equal
  to a function that states the result. This covers the import-plugin
  loop, the body wrap and unwrap, the accept check, the table fill and
  the empty-category sweep.

Some things are passed in rather than modelled:
- calls into code outside these files, such as metadata extraction, OPF
  writing, import plugins, `icu_lower`, the two eReader variants and the
  database;
- the file system tests.

These are function-typed fields or parameters. Effects on files come back
as values, such as the cover file written and the icon files removed or
written.

Where the code and its documentation differ, the model follows the code:
- `has_book` returns the title itself when the title is None or empty,
  not `False`.
- A title made only of whitespace is looked up as the empty string. If
  `""` is among the known titles, such a title counts as a duplicate
  (`MetadataWorker.HasBookWhitespaceTitle`).

## Model

| member | source | states |
|---|---|---|
| `MetadataWorker.KeptCover` | src/calibre/ebooks/metadata/worker.py:17-19 | the cover kept is the last entry of the cover data, or none when there is no cover data |
| `MetadataWorker.Stripped` | src/calibre/ebooks/metadata/worker.py:16-22 | the cover becomes None and the cover data `(None, None)`; a falsy application id becomes exactly `__calibre_dummy__`, a truthy one is kept; title and authors are untouched |
| `MetadataWorker.SerializeMetadataFor` | src/calibre/ebooks/metadata/worker.py:14-29 | the OPF is built from the stripped record with language `und`; `has_cover` holds exactly when the kept cover bytes are non-empty, and `<tdir>/<group_id>.cdata` is written with those bytes exactly then |
| `MetadataWorker.ReadMetadataBulk` | src/calibre/ebooks/metadata/worker.py:32-46 | the answer has exactly the two entries; `opf` is set exactly when asked for, and then is the OPF of the stripped record; `cdata` is None unless the cover was asked for, and then is the kept cover |
| `MetadataWorker.BulkAgreesWithSerialize` | src/calibre/ebooks/metadata/worker.py:14-46 | the bulk reader and the serializer produce the same OPF, and the serializer reports a cover exactly when the bulk reader returns non-empty cover bytes, which are the bytes it writes |
| `MetadataWorker.AcceptedTransform` | src/calibre/ebooks/metadata/worker.py:54-60 | a plugin result is used only when the plugin returned (did not raise), its path is truthy and readable, and it is not the same file as the input |
| `MetadataWorker.FinalPath` | src/calibre/ebooks/metadata/worker.py:54-65 | the input path is kept when the plugin raises, returns a falsy path, an unreadable file or the same file; otherwise the path is the relocation of the plugin's file |
| `MetadataWorker.RunImportPlugins` | src/calibre/ebooks/metadata/worker.py:49-72 | the loop returns, in input order, the final path of every readable input and nothing for unreadable ones |
| `MetadataWorker.ImportedConcat` | src/calibre/ebooks/metadata/worker.py:50-53 | the paths of a concatenated batch are the paths of its two halves, concatenated: order is kept and one path never affects another |
| `MetadataWorker.ImportedSingle` | src/calibre/ebooks/metadata/worker.py:51-53 | a single input yields its final path when readable and nothing otherwise |
| `MetadataWorker.ImportedLength` | src/calibre/ebooks/metadata/worker.py:71-72 | the output has one path per readable input, so it is never longer than the input |
| `MetadataWorker.RelocationShape` | src/calibre/ebooks/metadata/worker.py:63-65 | a relocated file lies under `tdir/group_id` and is named with the original's stem followed by the new file's extension |
| `MetadataWorker.BasenameOfJoin` | src/calibre/ebooks/metadata/worker.py:65 | joining a directory and a name without `/` gives a path that starts with the directory and whose basename is the name |
| `PosixPath.SplitExt` | src/calibre/ebooks/metadata/worker.py:63-64 | root and extension concatenate back to the path, and the extension is empty or one dot followed by text with no other dot and no `/` |
| `PosixPath.SplitExtOfSuffix` | src/calibre/ebooks/metadata/worker.py:63-64 | a name that does not end in a dot, followed by a dot and text with no other dot, splits back into that name and that extension |
| `MetadataWorker.HasBook` | src/calibre/ebooks/metadata/worker.py:75-76 | a None or empty title gives back that falsy title; otherwise the result is whether the lower-cased, stripped title is among the known titles, and it is truthy exactly then |
| `MetadataWorker.HasBookWhitespaceTitle` | src/calibre/ebooks/metadata/worker.py:76 | a title made only of whitespace is looked up as the empty string |
| `Text.StripSpec` | src/calibre/ebooks/metadata/worker.py:76 | `strip` removes the longest whitespace prefix and suffix: the result sits inside the input and is empty or starts and ends with a non-space |
| `MetadataWorker.ReadMetadata` | src/calibre/ebooks/metadata/worker.py:79-85 | the paths are those of the import plugins, the OPF and cover flag those of the serializer on them, and the duplicate check runs only for a set or frozenset, with the result None otherwise |
| `EreaderReader.SelectVariant` | src/calibre/ebooks/pdb/ereader/reader.py:18-25 | size 132 selects the 132-byte reader, 116 or 202 the 202-byte reader, and every other size is an error |
| `EreaderReader.SizeMismatchMessage` | src/calibre/ebooks/pdb/ereader/reader.py:25 | the error message contains the record size in decimal |
| `EreaderReader.NewReader` | src/calibre/ebooks/pdb/ereader/reader.py:17-25 | a reader is built exactly when a variant is selected, holds that variant with the constructor's own arguments, and otherwise the error carries the size message and no delegate exists |
| `EreaderReader.ChoiceDependsOnlyOnRecord0Size` | src/calibre/ebooks/pdb/ereader/reader.py:18 | two headers with records 0 of the same length give the same outcome and the same variant, whatever the other arguments |
| `EreaderReader.ExtractContent` | src/calibre/ebooks/pdb/ereader/reader.py:27-28 | returns exactly what the chosen variant's `extract_content` returns for the same output directory |
| `EreaderReader.DumpPml` | src/calibre/ebooks/pdb/ereader/reader.py:30-31 | returns exactly what the chosen variant's `dump_pml` returns |
| `EreaderReader.DumpImages` | src/calibre/ebooks/pdb/ereader/reader.py:33-34 | returns exactly what the chosen variant's `dump_images` returns for the same directory |
| `EreaderReader.ForwardingFromHeader` | src/calibre/ebooks/pdb/ereader/reader.py:17-34 | for a successfully built reader, all three calls reach the variant that record 0's size selects |
| `Kepubify.StyleTarget` | src/calibre/ebooks/oeb/polish/kepubify.py:43-48 | the style goes to the last direct `head` child when there is one, else to the last direct `body` child |
| `Kepubify.AddStyle` | src/calibre/ebooks/oeb/polish/kepubify.py:35-49 | returns True exactly when the root has a direct head or body; then that element gains, as its last child, a `style` with type `text/css`, the given class and the css as text, and nothing else changes; otherwise the tree is unchanged |
| `Kepubify.ExtractFoldKeepsOthers` | src/calibre/ebooks/oeb/polish/kepubify.py:53-54 | removing the selected children keeps every other child, in order, apart from its tail |
| `Kepubify.ExtractFoldKeepsText` | src/calibre/ebooks/oeb/polish/kepubify.py:54 | removing an element keeps its tail text in the parent's text content |
| `Kepubify.RemoveKoboStyles` | src/calibre/ebooks/oeb/polish/kepubify.py:52-54 | the root keeps its tag, attributes and tail, and every child is processed in turn; which elements go is stated by the three lemmas below |
| `Kepubify.RemoveKoboStylesRemovesAll` | src/calibre/ebooks/oeb/polish/kepubify.py:52-54 | afterwards no element below the root is a `style` of type `text/css` and class `kobostylehacks` |
| `Kepubify.RemoveKoboStylesNoop` | src/calibre/ebooks/oeb/polish/kepubify.py:52-54 | a tree without such styles is left exactly as it was |
| `Kepubify.RemoveKoboStylesIdempotent` | src/calibre/ebooks/oeb/polish/kepubify.py:52-54 | removing twice is the same as removing once |
| `Kepubify.AddStyleThenRemove` | src/calibre/ebooks/oeb/polish/kepubify.py:35-54 | removing the Kobo styles after adding one gives what removing them from the original gives |
| `Kepubify.StripIdsClears` | src/calibre/ebooks/oeb/polish/kepubify.py:61-62 | after the id clean-up no element has the id `book-columns`; with the intended test, none has `book-inner` either |
| `Kepubify.WrapBodyContents` | src/calibre/ebooks/oeb/polish/kepubify.py:57-72 | the body's text becomes None and its only child is `div#book-columns`, whose only child is the returned `div#book-inner`; that div holds the body's former text and children in order; the other children of the document are only cleaned of wrapper ids, by the clean-up that `test` selects: as written at line 61 (`book-inner` ids kept) or as intended (both ids stripped) |
| `Kepubify.WrapLeavesUniqueIds` | src/calibre/ebooks/oeb/polish/kepubify.py:61-72 | with the intended clean-up the wrapped document has exactly one element with each wrapper id |
| `Kepubify.WrapAsWrittenLeavesDuplicateInnerId` | src/calibre/ebooks/oeb/polish/kepubify.py:61 | with the test as written, a body that already holds a `div#book-inner` ends up with two elements with that id |
| `Kepubify.CollectInner` | src/calibre/ebooks/oeb/polish/kepubify.py:78-81 | the loop collects the children of every direct `div#book-columns > div#book-inner`, in order, and the concatenation of their non-empty texts |
| `Kepubify.UnwrapBodyContents` | src/calibre/ebooks/oeb/polish/kepubify.py:75-84 | the wrapper pairs are removed, the inner children are appended to the end of the body in order, and the body's text becomes the concatenated inner texts, `""` when there are none |
| `Kepubify.UnwrapAfterWrap` | src/calibre/ebooks/oeb/polish/kepubify.py:57-84 | unwrapping a freshly wrapped body gives back the cleaned body's children in order, and its text with None becoming `""` |
| `Kepubify.UnwrapAfterWrapRestores` | src/calibre/ebooks/oeb/polish/kepubify.py:57-84 | for a body that uses neither wrapper id, the round trip restores the original children exactly |
| `Kepubify.SpanId` | src/calibre/ebooks/oeb/polish/kepubify.py:99 | a span id starts with `kobo.` |
| `Kepubify.SpanIdInjective` | src/calibre/ebooks/oeb/polish/kepubify.py:99 | different (paragraph, segment) pairs give different ids |
| `Kepubify.SpanIdsDistinct` | src/calibre/ebooks/oeb/polish/kepubify.py:96-99 | an id differs from the id of every other pair issued before it |
| `Kepubify.KoboSpanCounter.constructor` | src/calibre/ebooks/oeb/polish/kepubify.py:91-92 | counting starts at paragraph 0, segment 0, with a new paragraph pending |
| `Kepubify.KoboSpanCounter.NextSpanId` | src/calibre/ebooks/oeb/polish/kepubify.py:96-99 | the segment number goes up by one before each span, and the id issued was never issued before |
| `Kepubify.KoboSpanCounter.BeginText` | src/calibre/ebooks/oeb/polish/kepubify.py:102-106 | when a new paragraph is pending, the paragraph number goes up and the segment number restarts at 0; the pending flag is cleared |
| `Kepubify.KoboSpanCounter.EnterElement` | src/calibre/ebooks/oeb/polish/kepubify.py:125-126 | entering a block element marks a new paragraph as pending, and nothing else changes |
| `Kepubify.KoboSpanCounter.WrapImage` | src/calibre/ebooks/oeb/polish/kepubify.py:135-139 | an image starts a new paragraph with a single segment, and its id was never issued before |
| `Kepubify.SplitLeadingWhitespace` | src/calibre/ebooks/oeb/polish/kepubify.py:107-110 | the whitespace part followed by the rest is the text; the whitespace part is None exactly when the text does not start with whitespace, and the rest does not start with whitespace |
| `EnumValuesEdit.CountText` | src/calibre/gui2/dialogs/enum_values_edit.py:24-33 | the count shows as its decimal digits, and a missing count as `0` |
| `EnumValuesEdit.CountTextNoneIsZero` | src/calibre/gui2/dialogs/enum_values_edit.py:27 | a missing count shows the same as a count of zero |
| `EnumValuesEdit.Get` | src/calibre/gui2/dialogs/enum_values_edit.py:117 | `dict.get`: the value when the key is present, None otherwise |
| `EnumValuesEdit.ColorText` | src/calibre/gui2/dialogs/enum_values_edit.py:133-136 | index 0 of the colour box is the empty entry, index k is the k-th colour name, and no selection is empty |
| `EnumValuesEdit.NewColorIndex` | src/calibre/gui2/dialogs/enum_values_edit.py:140-141 | a non-negative index is selected as given; a negative one leaves the new box on its first entry |
| `EnumValuesEdit.MoveRowSwaps` | src/calibre/gui2/dialogs/enum_values_edit.py:158-168 | moving by one swaps the row with its neighbour, carrying its text, colour index and count, and leaves every other row alone |
| `EnumValuesEdit.MoveRowKeepsColors` | src/calibre/gui2/dialogs/enum_values_edit.py:160-166 | a moved row shows the same colour as before |
| `EnumValuesEdit.MoveUpThenDown` | src/calibre/gui2/dialogs/enum_values_edit.py:148-178 | moving a row up and then down again restores the table |
| `EnumValuesEdit.RemoveAt` | src/calibre/gui2/dialogs/enum_values_edit.py:193 | exactly the given row is removed and the rest keep their order |
| `EnumValuesEdit.InsertAt` | src/calibre/gui2/dialogs/enum_values_edit.py:201-204 | one row is inserted at the given position and the rest keep their order |
| `EnumValuesEdit.Values` | src/calibre/gui2/dialogs/enum_values_edit.py:225 | the values are the row texts in row order |
| `EnumValuesEdit.Colors` | src/calibre/gui2/dialogs/enum_values_edit.py:226-228 | only non-empty colours are collected, at most one per row |
| `EnumValuesEdit.IdMapComplete` | src/calibre/gui2/dialogs/enum_values_edit.py:221-224 | every checked row whose text differs from its original has the id of its original value in the rename map |
| `EnumValuesEdit.IdMapSound` | src/calibre/gui2/dialogs/enum_values_edit.py:221-224 | every key of the rename map is the id of some renaming row's original value and maps to the text of the last renaming row with that id |
| `EnumValuesEdit.IdMapNonEmpty` | src/calibre/gui2/dialogs/enum_values_edit.py:248-249 | the rename map is non-empty exactly when some row renames its value |
| `EnumValuesEdit.FirstEmpty` | src/calibre/gui2/dialogs/enum_values_edit.py:214-220 | the first row with an empty text, with every row before it non-empty |
| `EnumValuesEdit.FirstRepeated` | src/calibre/gui2/dialogs/enum_values_edit.py:230-232 | the first value that occurs again later in the list, or the list's length when none does |
| `EnumValuesEdit.FirstRepeatedIs` | src/calibre/gui2/dialogs/enum_values_edit.py:230-232 | any index with the two defining properties is the first repeated one |
| `EnumValuesEdit.FindRepeated` | src/calibre/gui2/dialogs/enum_values_edit.py:230-237 | the duplicate-scanning loop finds exactly the first repeated value |
| `EnumValuesEdit.EmptySpec` | src/calibre/gui2/dialogs/enum_values_edit.py:214-220 | a table with an empty row is refused with the empty-value error, before any duplicate check |
| `EnumValuesEdit.DuplicateSpec` | src/calibre/gui2/dialogs/enum_values_edit.py:230-237 | with no empty row, a value that repeats after lower-casing is refused, naming the first such value as typed |
| `EnumValuesEdit.InvalidColorsSpec` | src/calibre/gui2/dialogs/enum_values_edit.py:239-242 | with distinct non-empty values, colours on some rows but not all are refused |
| `EnumValuesEdit.DistinctLower` | src/calibre/gui2/dialogs/enum_values_edit.py:230-237 | when the scan finds no repeat, no two values are equal after lower-casing |
| `EnumValuesEdit.NoRepeatedLower` | src/calibre/gui2/dialogs/enum_values_edit.py:230-237 | values distinct after lower-casing make the scan find no repeat |
| `EnumValuesEdit.AcceptedSpec` | src/calibre/gui2/dialogs/enum_values_edit.py:209-251 | an accepted table has non-empty values, distinct after lower-casing, with all colours or none; it writes the values in row order, the non-empty colours and the rename map, and renames only when the map is non-empty |
| `EnumValuesEdit.EnumValuesEditor.constructor` | src/calibre/gui2/dialogs/enum_values_edit.py:81-96 | the editor starts with the given rows, usage counts and colour names |
| `EnumValuesEdit.EnumValuesEditor.CellChanged` | src/calibre/gui2/dialogs/enum_values_edit.py:113-118 | editing column 0 of a row refreshes that row's count from the usage counts, and any other edit changes nothing |
| `EnumValuesEdit.EnumValuesEditor.MoveUp` | src/calibre/gui2/dialogs/enum_values_edit.py:148-156 | with no selection it reports an error, on the first row it does nothing, and otherwise the row moves up and stays current |
| `EnumValuesEdit.EnumValuesEditor.MoveDown` | src/calibre/gui2/dialogs/enum_values_edit.py:170-178 | with no selection it reports an error, on the last row it does nothing, and otherwise the row moves down and stays current |
| `EnumValuesEdit.EnumValuesEditor.MoveRow` | src/calibre/gui2/dialogs/enum_values_edit.py:158-168 | the row moves by the direction and the current cell follows it |
| `EnumValuesEdit.EnumValuesEditor.DelLine` | src/calibre/gui2/dialogs/enum_values_edit.py:180-193 | a row whose value is used by books (count above 0, a missing count being 0) is refused and kept; otherwise exactly the current row is removed; with no selection nothing happens |
| `EnumValuesEdit.EnumValuesEditor.Insert` | src/calibre/gui2/dialogs/enum_values_edit.py:195-204 | one blank row goes in at the current row; with no selection an error is reported and nothing changes |
| `EnumValuesEdit.EnumValuesEditor.ScanRows` | src/calibre/gui2/dialogs/enum_values_edit.py:214-228 | the collection loop completes exactly when no row is empty, and then holds the row values, the non-empty colours and the rename map |
| `EnumValuesEdit.EnumValuesEditor.Accept` | src/calibre/gui2/dialogs/enum_values_edit.py:209-251 | the dialog's outcome is the one the validation rules give for its rows |
| `DisplayedFields.LookupName` | src/calibre/gui2/preferences/look_feel_tabs/__init__.py:44-47 | the metadata name of a field: missing, null, or the name itself |
| `DisplayedFields.PartitionHead` | src/calibre/gui2/preferences/look_feel_tabs/__init__.py:50 | `partition('.')[0]` is the longest prefix without a dot, ending where the first dot is |
| `DisplayedFields.ShownName` | src/calibre/gui2/preferences/look_feel_tabs/__init__.py:43-50 | a field starting with `@` is named by its text up to the first dot without the `@`; otherwise `path` is named `Folders/path`, and any other field by its metadata name, or by itself when it has none |
| `DisplayedFields.DisplayName` | src/calibre/gui2/preferences/look_feel_tabs/__init__.py:42-53 | an empty name shows the field alone, any other name shows as `name (field)` |
| `DisplayedFields.DisplayNameShowsField` | src/calibre/gui2/preferences/look_feel_tabs/__init__.py:51-53 | the displayed text always contains the field's key |
| `DisplayedFields.AtFieldIgnoresMetadata` | src/calibre/gui2/preferences/look_feel_tabs/__init__.py:50 | the name of an `@` field does not depend on the field metadata |
| `DisplayedFields.PathDisplay` | src/calibre/gui2/preferences/look_feel_tabs/__init__.py:48-53 | `path` always shows as `Folders/path (path)` |
| `DisplayedFields.UnknownFieldDisplay` | src/calibre/gui2/preferences/look_feel_tabs/__init__.py:43-53 | a field without metadata shows as `field (field)` |
| `DisplayedFields.PyIndex` | src/calibre/gui2/preferences/look_feel_tabs/__init__.py:39 | Python list indexing: a negative row counts from the end |
| `DisplayedFields.Data` | src/calibre/gui2/preferences/look_feel_tabs/__init__.py:37-63 | a row outside the list gives None; the check-state role reports Checked exactly when the field is visible; the display role gives the display name; other roles give None |
| `DisplayedFields.DecorationSpec` | src/calibre/gui2/preferences/look_feel_tabs/__init__.py:56-63 | the field's own category icon when there is one, else the column icon for `#` fields, else nothing |
| `DisplayedFields.Swap` | src/calibre/gui2/preferences/look_feel_tabs/__init__.py:94-96 | the two positions trade their entries, every other position is unchanged, and the list is a permutation of the old one |
| `DisplayedFields.SwapBack` | src/calibre/gui2/preferences/look_feel_tabs/__init__.py:91-101 | swapping back restores the list |
| `DisplayedFields.AllSetTo` | src/calibre/gui2/preferences/look_feel_tabs/__init__.py:65-69 | every row keeps its field and has visibility equal to `show` |
| `DisplayedFields.ToggledRowsReport` | src/calibre/gui2/preferences/look_feel_tabs/__init__.py:54-55 | after toggling all rows, each row reports Checked exactly when `show` is set |
| `DisplayedFields.SetRowReports` | src/calibre/gui2/preferences/look_feel_tabs/__init__.py:75-82 | after setting a row's check state, that row reports Checked exactly when the value set was Checked |
| `DisplayedFields.PrefName` | src/calibre/gui2/preferences/look_feel_tabs/__init__.py:17 | an empty preference name falls back to `book_display_fields` |
| `DisplayedFields.DisplayedFieldsModel.constructor` | src/calibre/gui2/preferences/look_feel_tabs/__init__.py:16-23 | the list starts empty and unchanged, under the chosen preference name |
| `DisplayedFields.DisplayedFieldsModel.Initialize` | src/calibre/gui2/preferences/look_feel_tabs/__init__.py:28-32 | the list becomes the given field list, in order, and is marked changed |
| `DisplayedFields.DisplayedFieldsModel.RowCount` | src/calibre/gui2/preferences/look_feel_tabs/__init__.py:34-35 | the row count is the number of fields |
| `DisplayedFields.DisplayedFieldsModel.SetData` | src/calibre/gui2/preferences/look_feel_tabs/__init__.py:75-82 | the check-state role sets the row's visibility to "the value is Checked", marks the list changed and returns True; any other role returns False and changes nothing |
| `DisplayedFields.DisplayedFieldsModel.ToggleAll` | src/calibre/gui2/preferences/look_feel_tabs/__init__.py:65-69 | every row gets visibility `show`, and the list is marked changed when it has a row |
| `DisplayedFields.DisplayedFieldsModel.Move` | src/calibre/gui2/preferences/look_feel_tabs/__init__.py:91-101 | a move within bounds swaps the row with its target, marks the list changed and returns the new row; one out of bounds returns None and changes nothing |
| `DisplayedFields.DisplayedFieldsModel.Commit` | src/calibre/gui2/preferences/look_feel_tabs/__init__.py:87-89 | the preference is written, with the current fields, exactly when the list was changed |
| `TbIconRules.ChildrenItem.SetValue` | src/calibre/gui2/preferences/look_feel_tabs/tb_icon_rules.py:241-243 | the value is stored, and the item is modified exactly when the value differs from the original |
| `TbIconRules.ChildrenItem.Undo` | src/calibre/gui2/preferences/look_feel_tabs/tb_icon_rules.py:245-247 | the original value comes back and the modified flag is cleared |
| `TbIconRules.ChildrenUndoRestores` | src/calibre/gui2/preferences/look_feel_tabs/tb_icon_rules.py:241-247 | undo after any edit gives the original item, and setting the original value back is not a modification |
| `TbIconRules.ChildrenText` | src/calibre/gui2/preferences/look_feel_tabs/tb_icon_rules.py:204-216 | a template rule shows no text; any other rule shows `Yes` exactly when the value is true, and `No` otherwise |
| `TbIconRules.IconItem.Undo` | src/calibre/gui2/preferences/look_feel_tabs/tb_icon_rules.py:153-156 | the original file name comes back and the modified flag is cleared; a chosen new icon stays held |
| `TbIconRules.IconUndoRestores` | src/calibre/gui2/preferences/look_feel_tabs/tb_icon_rules.py:149-191 | editing a template or choosing an image marks the item modified, and undo then gives back the original item |
| `TbIconRules.RemovePrefix` | src/calibre/gui2/preferences/look_feel_tabs/tb_icon_rules.py:372 | `str.removeprefix`: the prefix is cut off when present, and the text is unchanged otherwise |
| `TbIconRules.NewRow` | src/calibre/gui2/preferences/look_feel_tabs/tb_icon_rules.py:377-388 | a new row is unmodified and carries its category, value, icon file and for-children setting |
| `TbIconRules.CategoryRowsSkipped` | src/calibre/gui2/preferences/look_feel_tabs/tb_icon_rules.py:366-370 | with the current-library filter, a category unknown to the library gives no rows |
| `TbIconRules.PopulateSound` | src/calibre/gui2/preferences/look_feel_tabs/tb_icon_rules.py:365-388 | every row of the table is the row of some rule that the filter shows |
| `TbIconRules.PopulateComplete` | src/calibre/gui2/preferences/look_feel_tabs/tb_icon_rules.py:365-388 | every rule that the filter shows has its row in the table |
| `TbIconRules.AllShownWithoutFilter` | src/calibre/gui2/preferences/look_feel_tabs/tb_icon_rules.py:375 | without the filter every rule is shown |
| `TbIconRules.BuildRows` | src/calibre/gui2/preferences/look_feel_tabs/tb_icon_rules.py:365-388 | the loop over categories builds exactly the filtered rows, numbered from 0 in dictionary order |
| `TbIconRules.BuildCategoryRows` | src/calibre/gui2/preferences/look_feel_tabs/tb_icon_rules.py:374-388 | the loop over one category's rules skips a value only when the filter is on, the value is not the template indicator and the library lacks it |
| `TbIconRules.UndoColumn` | src/calibre/gui2/preferences/look_feel_tabs/tb_icon_rules.py:442-447 | the deleted-marker column maps to the category column, the icon marker to the icon column, the for-children marker to the for-children column, and every other column to itself |
| `TbIconRules.UndoActionFor` | src/calibre/gui2/preferences/look_feel_tabs/tb_icon_rules.py:441-452 | the category and value columns (and the deleted marker) undo a delete, the icon and for-children columns (and their markers) undo a modification, and no other column does anything |
| `TbIconRules.UndoModified` | src/calibre/gui2/preferences/look_feel_tabs/tb_icon_rules.py:474-479 | undoing at the category, icon or for-children column calls that item's undo; any other column has no item with an undo |
| `TbIconRules.UndoChangesSpec` | src/calibre/gui2/preferences/look_feel_tabs/tb_icon_rules.py:438-452 | undo at the deleted, category or value column restores the rule; undo at the icon or for-children column undoes that item; undo at the two modified-marker columns reaches an item with no undo method |
| `TbIconRules.UndoRestoresCommit` | src/calibre/gui2/preferences/look_feel_tabs/tb_icon_rules.py:438-553 | after an edit is undone, commit leaves that rule as it was and touches no file |
| `TbIconRules.MenuFor` | src/calibre/gui2/preferences/look_feel_tabs/tb_icon_rules.py:390-410 | marker columns give no menu; the category and value columns offer delete or undo-delete, the icon and for-children columns modify or undo-modification, exactly one of each pair enabled by the modified flag |
| `TbIconRules.Updated` | src/calibre/gui2/preferences/look_feel_tabs/tb_icon_rules.py:537-553 | a template rule with a modified icon takes the new template text; a non-template rule keeps its file name; the for-children entry is overwritten only when that item is modified; an unmodified row changes nothing |
| `TbIconRules.CommitRow` | src/calibre/gui2/preferences/look_feel_tabs/tb_icon_rules.py:517-553 | a row whose category is missing from the dictionary raises KeyError, and no row reaches a missing table item |
| `TbIconRules.CommitRowEffect` | src/calibre/gui2/preferences/look_feel_tabs/tb_icon_rules.py:522-553 | committing one present row removes its rule when deleted, updates it otherwise, and leaves every other rule and the set of categories as they were |
| `TbIconRules.CommitRowsEffect` | src/calibre/gui2/preferences/look_feel_tabs/tb_icon_rules.py:517-553 | over rows for distinct present rules, each rule ends removed or updated by its own row, and rules no row names are unchanged |
| `TbIconRules.NonEmptyLookup` | src/calibre/gui2/preferences/look_feel_tabs/tb_icon_rules.py:555-558 | after the sweep, a category is present exactly when it was present with at least one rule |
| `TbIconRules.NonEmptyLookup2` | src/calibre/gui2/preferences/look_feel_tabs/tb_icon_rules.py:555-558 | the sweep keeps every rule, and leaves no category without rules |
| `TbIconRules.RemoveEmptyCategories` | src/calibre/gui2/preferences/look_feel_tabs/tb_icon_rules.py:555-558 | the sweeping loop removes exactly the categories with no rules |
| `TbIconRules.CommitSpecEffect` | src/calibre/gui2/preferences/look_feel_tabs/tb_icon_rules.py:515-559 | commit succeeds, each named rule is removed or updated by its row, the others are unchanged, and no category is left with zero rules |
| `TbIconRules.CommitFreshRows` | src/calibre/gui2/preferences/look_feel_tabs/tb_icon_rules.py:517-553 | unmodified rows leave the dictionary unchanged |
| `TbIconRules.PopulatedRowsPresent` | src/calibre/gui2/preferences/look_feel_tabs/tb_icon_rules.py:365-388 | every row the table is filled with names a rule of the dictionary and starts unmodified |
| `TbIconRules.PopulateThenCommit` | src/calibre/gui2/preferences/look_feel_tabs/tb_icon_rules.py:355-559 | committing an untouched table only drops the empty categories |
| `TbIconRules.OwnFiles` | src/calibre/gui2/preferences/look_feel_tabs/tb_icon_rules.py:522-548 | a deleted non-template rule removes its icon file; a modified non-template icon with a new image writes that file; nothing else touches a file |
| `TbIconRules.CommitFilesAll` | src/calibre/gui2/preferences/look_feel_tabs/tb_icon_rules.py:517-548 | over present rows, commit's file operations are those of each row, in row order |
| `TbIconRules.CommitRowsStop` | src/calibre/gui2/preferences/look_feel_tabs/tb_icon_rules.py:517-535 | once a row raises KeyError, later rows change nothing and touch no file |
| `TbIconRules.PopulatedRowCount` | src/calibre/gui2/preferences/look_feel_tabs/tb_icon_rules.py:363-377 | the row count after filling is the number of shown rules, or the old count when no rule is shown |
| `TbIconRules.CommitTable` | src/calibre/gui2/preferences/look_feel_tabs/tb_icon_rules.py:517-520 | rows beyond the filled ones hold no items, so commit stops there with an error |
| `TbIconRules.FilterToEmptyBreaksCommit` | src/calibre/gui2/preferences/look_feel_tabs/tb_icon_rules.py:355-388 | a table that showed one rule, filtered to none, keeps an empty row that makes commit fail |
| `TbIconRules.CorrectedRowCount` | src/calibre/gui2/preferences/look_feel_tabs/tb_icon_rules.py:363 | the intended row count is the number of shown rules |
| `TbIconRules.CorrectedPopulateCommits` | src/calibre/gui2/preferences/look_feel_tabs/tb_icon_rules.py:355-388 | with the row count reset, committing an untouched table always succeeds and only drops empty categories |
| `TbIconRules.FlipOrder` | src/calibre/gui2/preferences/look_feel_tabs/tb_icon_rules.py:510-511 | the section's order becomes 1 minus the old one, and every other section keeps its order |
| `TbIconRules.FlipTwice` | src/calibre/gui2/preferences/look_feel_tabs/tb_icon_rules.py:509-513 | sorting the same section twice restores the order, and orders stay 0 or 1 |
| `TbIconRules.InitialSortOrders` | src/calibre/gui2/preferences/look_feel_tabs/tb_icon_rules.py:350-353 | after the initial sorts every section is ascending |
| `TbIconRules.TbIconRulesTab.constructor` | src/calibre/gui2/preferences/look_feel_tabs/tb_icon_rules.py:291 | the tab starts with no rows, a row count of 0 and the saved "current library only" setting |
| `TbIconRules.TbIconRulesTab.PopulateContent` | src/calibre/gui2/preferences/look_feel_tabs/tb_icon_rules.py:355-388 | the filled rows are exactly the filtered rules; the row count is that number, or the old count when no rule is shown, leaving item-less rows as written; the sort state is untouched |
| `TbIconRules.TbIconRulesTab.DoSort` | src/calibre/gui2/preferences/look_feel_tabs/tb_icon_rules.py:509-513 | the section's order flips, the section becomes the last sorted one, and the new order is returned |
| `TbIconRules.TbIconRulesTab.LazyInitialize` | src/calibre/gui2/preferences/look_feel_tabs/tb_icon_rules.py:345-353 | the table is filled as by populate_content, row count included, and every section ends ascending, with the category column last sorted |
| `TbIconRules.TbIconRulesTab.ChangeFilterLibrary` | src/calibre/gui2/preferences/look_feel_tabs/tb_icon_rules.py:433-436 | the filter setting is stored, the table refilled with it as populate_content does (so filtering down to no rule keeps the old, now item-less rows), and the last sort is reapplied |
| `TbIconRules.TbIconRulesTab.DeleteRule` | src/calibre/gui2/preferences/look_feel_tabs/tb_icon_rules.py:461-466 | the current row is marked deleted and nothing else changes |
| `TbIconRules.TbIconRulesTab.UndoDelete` | src/calibre/gui2/preferences/look_feel_tabs/tb_icon_rules.py:468-472 | the current row is no longer deleted and nothing else changes |
| `TbIconRules.TbIconRulesTab.UndoModification` | src/calibre/gui2/preferences/look_feel_tabs/tb_icon_rules.py:474-479 | the item in the current cell is undone, or the outcome says that cell has no undo |
| `TbIconRules.TbIconRulesTab.UndoChanges` | src/calibre/gui2/preferences/look_feel_tabs/tb_icon_rules.py:438-452 | the current row changes as the column mapping prescribes, and no other row changes |
| `TbIconRules.TbIconRulesTab.IconEdited` | src/calibre/gui2/preferences/look_feel_tabs/tb_icon_rules.py:166-191 | a template rule takes the template the dialog returns; another rule takes the chosen image; a cancelled edit changes nothing |
| `TbIconRules.TbIconRulesTab.ChildEdited` | src/calibre/gui2/preferences/look_feel_tabs/tb_icon_rules.py:257-274 | template rules have no for-children editor; others store the chosen Yes or No |
| `TbIconRules.TbIconRulesTab.Commit` | src/calibre/gui2/preferences/look_feel_tabs/tb_icon_rules.py:515-561 | commit's outcome is that of the commit rules over the table's row count, failing at the first item-less row; its file operations are those of the filled rows in order |
| `MessageBox.TypeName` | src/calibre/gui2/dialogs/message_box.py:109-115 | error, warning, info and question map to `error`, `warning`, `information` and `question`; any other type is a KeyError |
| `MessageBox.TypeIcon` | src/calibre/gui2/dialogs/message_box.py:109-116 | the icon file is `dialog_<name>.png`, for the four types only |
| `MessageBox.IconFor` | src/calibre/gui2/dialogs/message_box.py:109-119 | an icon given by the caller wins, and otherwise the type's icon is used |
| `MessageBox.TypeIconsDistinct` | src/calibre/gui2/dialogs/message_box.py:109-116 | different types get different icons |
| `MessageBox.MaxSize` | src/calibre/gui2/dialogs/message_box.py:185-189 | the maximum height is the hint capped at 500; the maximum width is the larger of the hint capped at 500 and the buttons' width plus 100 |
| `MessageBox.MaxSizeIdempotent` | src/calibre/gui2/dialogs/message_box.py:185-189 | limiting an already limited size changes nothing |
| `MessageBox.MaxSizeMonotone` | src/calibre/gui2/dialogs/message_box.py:185-189 | a larger size hint never gives a smaller limit |
| `MessageBox.Details.ToggledByPane` | src/calibre/gui2/dialogs/message_box.py:179-182 | the details' visibility flips, and the button then reads "show" when they were visible and "hide" otherwise |
| `MessageBox.Details.ToggledByLabel` | src/calibre/gui2/dialogs/message_box.py:454-458 | the button label decides: when it read "hide" the details hide and it reads "show", and the reverse otherwise |
| `MessageBox.TogglesAgree` | src/calibre/gui2/dialogs/message_box.py:179-182 | while label and pane agree, both toggles act alike, keep them in agreement, and toggling twice restores the state |
| `MessageBox.MessageBox.constructor` | src/calibre/gui2/dialogs/message_box.py:96-174 | the dialog takes its icon from the caller or its type, starts with the details hidden and the button reading "show", hides the button when there are no details, and limits its size |
| `MessageBox.MessageBox.DoResize` | src/calibre/gui2/dialogs/message_box.py:185-190 | the maximum size becomes the limited size hint |
| `MessageBox.MessageBox.ToggleDetMsg` | src/calibre/gui2/dialogs/message_box.py:179-183 | the details toggle, the button relabels to undo that, and the dialog is resized |
| `MessageBox.SuppressText` | src/calibre/gui2/dialogs/message_box.py:439-441 | one waiting error gives the singular label, any other count the plural label with the count |
| `MessageBox.SuppressTextInjective` | src/calibre/gui2/dialogs/message_box.py:439-441 | different counts give different labels |
| `MessageBox.JobError.constructor` | src/calibre/gui2/dialogs/message_box.py:386-431 | the dialog starts hidden with an empty queue and no retry function, the retry button shown, the details hidden and the suppress box hidden and unchecked |
| `MessageBox.JobError.UpdateSuppressState` | src/calibre/gui2/dialogs/message_box.py:438-443 | the suppress box is labelled with the queue length and visible exactly when more than three errors wait |
| `MessageBox.JobError.ShowError` | src/calibre/gui2/dialogs/message_box.py:474-477 | the error joins the tail of the queue and the suppress box is relabelled; when the dialog was visible nothing else changes; when it was hidden the oldest error is shown at once as `pop` shows it |
| `MessageBox.JobError.Pop` | src/calibre/gui2/dialogs/message_box.py:479-496 | nothing changes when the queue is empty or the dialog is visible; otherwise the head leaves the queue and is shown, with the details hidden, the suppress box unchecked, and the retry button visible exactly when it has a retry function |
| `MessageBox.JobError.Done` | src/calibre/gui2/dialogs/message_box.py:498-502 | the dialog closes, and the queue empties when the suppress box is checked; the shown error, details, suppress box and retry button stay |
| `MessageBox.JobError.Retry` | src/calibre/gui2/dialogs/message_box.py:433-436 | with a retry function the dialog is accepted as `done` does and that function is returned to be called; without one nothing changes |
| `MessageBox.JobError.ToggleDetMsg` | src/calibre/gui2/dialogs/message_box.py:454-459 | the details toggle according to the button label, and the queue is untouched |
| `MessageBox.JobError.SetSuppressChecked` | src/calibre/gui2/dialogs/message_box.py:499 | ticking or clearing the suppress box changes its checked state and nothing else |
| `MessageBox.QueueOrder` | src/calibre/gui2/dialogs/message_box.py:474-496 | errors leave the queue in the order they were submitted |

## Left out

- Qt widgets, layouts, painting, signals, tool tips, icons as images, the clipboard (`copy_to_clipboard`), `error_dialog` pop-ups and geometry saving are not modelled. Only the state the handlers read and write is kept, and an error dialog shows up as an outcome value.
- Calls into code outside these files are parameters of the model: `metadata_from_formats`, `metadata_to_opf`, `run_plugins_on_import`, `os.access`, `samefile`, `icu_lower`, `str.lower`, the two eReader variants, `sentence_positions`, `lang_for_elem`, `canonicalize_lang`, `get_field_list`, the database's `get_item_id` and `all_field_names`, and the field metadata.
- File writes and deletions are returned as values rather than performed. This covers the `.cdata` cover file, the relocated plugin output, and the icon files that commit removes or writes. For the relocated file, the fallback from `os.replace` to `shutil.copyfile` and the `os.makedirs` call are not distinguished, because only the resulting path is modelled.
- The traceback printed when an import plugin raises is not modelled.
- Element trees are values, not objects: an edit returns a new tree. Node identity, aliasing between tree and caller, and `getparent` are not modelled. XPath queries are written as direct predicates on the tree, and only the XHTML namespace is modelled.
- `extract` and `insert_self_closing` (`src/calibre/ebooks/oeb/polish/utils.py`) are not part of this model. `extract` is modelled as removing the element and keeping its tail text in place. `insert_self_closing` is modelled as appending the element as the last child.
- `Kepubify.RemoveKoboStyles`: the root itself is never removed, even if it is such a style, because `extract` on the root has no parent to remove it from.
- The full `add_kobo_spans` traversal, `add_kobo_markup_to_html`, `remove_kobo_markup_from_html`, `kepubify_html` and `kepubify` are not modelled. Only the span-id counter and the whitespace split are kept, because the traversal cannot complete as written:
  - `isinstance(child.tag, 'str')` (kepubify.py:133) raises TypeError for every element with children;
  - the sentences are inserted at one index (kepubify.py:118), which reverses their order;
  - `kepubify(container)` is a stub.
- `merge_multiple_html_heads_and_bodies` is not part of this model.
- Enum editor: Qt's current row is a parameter of each operation, because Qt's own update of the current row after a row is inserted or removed is not in these files.
- Enum editor: `__init__`'s building of the rows from the column's display metadata is the constructor's argument.
- Enum editor: `sizeHint`, `save_geometry` and `reject` are not modelled.
- Enum editor: the `_count` kept by `CountTableWidgetItem` is not modelled, because nothing reads it.
- Displayed fields: `restore_defaults` is `Initialize` with the default field list. `flags`, `dataChanged` emission, and `move_field_up`/`move_field_down` (widget selection handling) are not modelled.
- Icon rules: the table's own sorting by `sortByColumn` is not modelled. Rows stay in fill order, and commit's effect does not depend on that order.
- Icon rules: `resizeEvent`, `table_column_resized`, `genesis`, `context_menu_handler`'s dispatch, `keyPressEvent` and `edit_column` are not modelled. The delete key reaches `DeleteRule`, and the edit dialogs' results reach `IconEdited` and `ChildEdited`.
- Icon rules: the item-less rows left by a population that shows no rule only count for `Commit`; edits and undo on such a row (which raise in the source) are not modelled, since the current cell is taken to be a filled row.
- Icon rules: `TEMPLATE_ICON_INDICATOR` comes from `src/calibre/db/constants.py`, which is not part of this model. It is fixed here as `" template "`.
- Message dialogs: `ProceedNotification`, `ErrorNotification`, `ViewLog`, JobError's `do_resize` and `showEvent` are not modelled.
- Message dialogs: the `do_pop` signal that `done` emits is queued by Qt, so it is modelled as a later, separate call of `Pop`.
- Message dialogs: translated texts are taken in their English forms.
- PosixPath.SplitExt: the contract does not pin down which dot starts the extension; the body follows `os.path.splitext`, and `PosixPath.SplitExtOfSuffix` states the case used here.
- `MetadataWorker.HasBook`: the result is a small datatype (None, empty string or a boolean) rather than Python's untyped value.

## Findings

| source | as written | input that shows it | evidently intended | confidence | as-written member | corrected member |
|---|---|---|---|---|---|---|
| src/calibre/ebooks/oeb/polish/kepubify.py:61 | `@id={INNER_DIV_ID}` is not quoted, so the XPath compares the id with the text of child elements named `book-inner` and never matches the id `book-inner` | a body holding `<div id="book-inner">`: after wrapping, the document has two elements with id `book-inner` | strip both wrapper ids, as the quoted `book-columns` test does | high; not executed | `Kepubify.WrapAsWrittenLeavesDuplicateInnerId` | `Kepubify.WrapLeavesUniqueIds` |
| src/calibre/gui2/preferences/look_feel_tabs/tb_icon_rules.py:363-377 | `clearContents` keeps the row count, and `setRowCount` is called only for a shown rule | one rule in a category the current library lacks, shown, then "only current library" ticked: the table keeps one row with no items, and commit then fails at tb_icon_rules.py:520, reading `_original_text` of the missing value item | the row count equals the number of shown rules, as with `setRowCount(0)` before filling | medium; not executed | `TbIconRules.FilterToEmptyBreaksCommit` | `TbIconRules.CorrectedPopulateCommits` |
