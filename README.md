# Spreadsheet row store, query pipeline and dialogs — a Dafny model

This project models the data core of a single-page spreadsheet for job
requests. Rows live in an in-memory store (`useSpreadsheetData`) that is
seeded with five rows. The store can append a row with the next numeric id,
delete rows by id, merge field updates into the rows with a given id, export
the displayed rows as CSV text, and import rows from CSV text. The displayed
rows are derived from the store as follows:

- a case-insensitive search over five fields;
- four conjunctive filters (status list, priority list, submitter text,
  submitted-date range);
- an optional stable sort by one field's string value.

Around the store sit small UI state machines: row selection in the grid, the
page's tab/selection/hidden-field state, and the filter, sort, new-action and
edit dialogs.

Modules, one per source file (plus three helper modules):

| module | file | source |
|---|---|---|
| `Wrappers` | wrappers.dfy | `Option`, for optional properties, `null` and callbacks |
| `Seqs` | seqs.dfy | `Array.prototype.filter` and the toggle idiom used by several components |
| `Text` | text.dfy | `toLowerCase`, `includes`, `trim`, `split`, `join`, `replace(/"/g, '')`, `<` on strings, `parseInt`/`toString` on ids |
| `Spreadsheet` | spreadsheet.dfy | src/types/spreadsheet.ts |
| `Query` | query.dfy | `filteredAndSortedData` in src/hooks/useSpreadsheetData.ts |
| `Csv` | csv.dfy | the text built by `exportData` and read by `importData` |
| `SpreadsheetData` | store.dfy | the store of src/hooks/useSpreadsheetData.ts, as class `Store` |
| `Grid` | grid.dfy | src/components/SpreadsheetGrid.tsx |
| `SpreadsheetViewState` | spreadsheet_view.dfy | src/components/SpreadsheetView.tsx, as class `ViewState` |
| `FilterModal` | filter_modal.dfy | src/components/modals/FilterModal.tsx, as class `FilterForm` |
| `BottomTabs` | bottom_tabs.dfy | src/components/BottomTabs.tsx, as class `Tabs` |
| `NewActionModal` | new_action_modal.dfy | src/components/modals/NewActionModal.tsx, as class `NewActionForm` |
| `EditRowModal` | edit_row_modal.dfy | src/components/modals/EditRowModal.tsx, as class `EditForm` |
| `SortModal` | sort_modal.dfy | src/components/modals/SortModal.tsx, as class `SortForm` |

Conventions:

- **React state** becomes class fields. Each handler is a method with a
  `modifies` clause, and its `ensures` states the whole new state.
- **The view** is the pure function `Query.View`. `Store.FilteredAndSortedData`
  computes it step by step on a copy and sorts an array in place, as the
  hook does.
- **Callbacks** a handler calls (`onFilter`, `onSort`, `onSubmit`, `onSave`,
  `onTabChange`) become out-parameters: `Some(argument)` when the callback is
  called, `None` when it is not.
- **`onClose`** clears the parent's "dialog open" flag, modelled as an
  `isOpen` field.
- **Dialog lifetime:** the sort, filter and new-action dialogs are mounted
  once with the page and stay mounted while hidden (src/components/SpreadsheetView.tsx:144-162).
  So each form class starts closed, its state is seeded only at that mount,
  and `Open`/`Close` change the flag and nothing else: edits not applied
  before closing are still there when the dialog is shown again.
- **Clock and confirmation prompt:** today's date is the parameter `today`,
  and the answer to `window.confirm` is the parameter `confirmed`.

**Where the code and the written description disagree, the model follows
the code:**

- `importData` stores non-empty `status` and `priority` values verbatim. It
  does not coerce values outside the unions to 'Need to start' / 'Medium'.
  So `Row` keeps both as strings, and `WellTyped` holds only on the
  non-import paths (see `SpreadsheetViewState.NewActionRowWellTyped`).
- On an empty store, `importData` does not fail. It assigns the id
  "-Infinity" to every imported row (see Findings).
- The default date is whatever `toLocaleDateString('en-GB')` returns, taken
  as the parameter `today`. The model does not fix its format.

## Model

| member | source | states |
|---|---|---|
| Spreadsheet.Set | src/components/modals/EditRowModal.tsx:24 | `{ ...row, [f]: v }`: field `f` reads `v` and every other field is unchanged |
| Spreadsheet.Merge | src/hooks/useSpreadsheetData.ts:140 | `{ ...row, ...updates }`: every field in `updates` takes the update's value, every other field keeps the row's |
| Spreadsheet.AllFields | src/components/SpreadsheetView.tsx:99-101 | passing a whole row as `Partial<SpreadsheetRow>` gives a value for every field |
| Spreadsheet.MergeAllFields | src/components/SpreadsheetView.tsx:99-101 | merging all fields of `updated` into any row yields exactly `updated` |
| Spreadsheet.FieldNamed | src/types/spreadsheet.ts:18-21 | a property name denotes the field whose name it is, or no field at all; `selectedField as keyof` in the sort dialog resolves through it |
| Spreadsheet.FieldNameRoundTrip | src/types/spreadsheet.ts:18-21 | every field, including `id`, is a valid sort key: its name maps back to it |
| Seqs.Filter | src/hooks/useSpreadsheetData.ts:74 | `filter` keeps exactly the elements satisfying the predicate and never lengthens the sequence |
| Seqs.FilterIsSubsequence | src/hooks/useSpreadsheetData.ts:135 | a filter result is a subsequence of its input: order is kept |
| Seqs.Toggle | src/components/SpreadsheetView.tsx:104-110 | the value's membership flips, no other value's does, other entries keep their order, an absent value is appended at the end |
| Seqs.ToggleTwice | src/components/modals/FilterModal.tsx:21-27 | toggling the same value twice restores membership |
| Text.Lower | src/hooks/useSpreadsheetData.ts:73 | ASCII `toLowerCase`: same length, each character lowered |
| Text.LowerIdempotent | src/hooks/useSpreadsheetData.ts:73-79 | lower-casing twice is lower-casing once |
| Text.ContainsAt | src/hooks/useSpreadsheetData.ts:75 | `includes` holds iff the query occurs at some position |
| Text.Trim | src/components/modals/FilterModal.tsx:42 | `trim` leaves no whitespace at either end, and is empty iff the input is all whitespace |
| Text.TrimIdempotent | src/components/modals/FilterModal.tsx:42 | a trimmed string has nothing left to trim |
| Text.Split | src/hooks/useSpreadsheetData.ts:172 | `split` yields at least one piece and no piece contains the separator |
| Text.JoinSplit | src/hooks/useSpreadsheetData.ts:101 | joining the pieces of a split restores the string |
| Text.SplitJoin | src/hooks/useSpreadsheetData.ts:145-159 | splitting a join of separator-free parts restores the parts |
| Text.RemoveChar | src/hooks/useSpreadsheetData.ts:178 | `replace(/"/g, '')` removes every quote and keeps every other character |
| Text.LessTotal | src/hooks/useSpreadsheetData.ts:114-120 | string `<` is total: two strings are equal or one is less |
| Text.LessTransitive | src/hooks/useSpreadsheetData.ts:114-120 | string `<` is transitive |
| Text.LessAsymmetric | src/hooks/useSpreadsheetData.ts:114-120 | string `<` never holds both ways |
| Text.NatToString | src/hooks/useSpreadsheetData.ts:128 | `toString` of an id gives decimal digits that `parseInt` reads back as the same number |
| Text.NatToStringInjective | src/hooks/useSpreadsheetData.ts:180 | different numbers give different id strings |
| Query.SearchStage | src/hooks/useSpreadsheetData.ts:72-81 | an empty query keeps every row; otherwise a row is kept iff the lower-cased query occurs in one of the five lower-cased fields |
| Query.SearchIgnoresQueryCase | src/hooks/useSpreadsheetData.ts:73 | the search result does not depend on the query's case |
| Query.StatusStage | src/hooks/useSpreadsheetData.ts:84-86 | an absent or empty status list keeps every row; otherwise only rows whose status is listed |
| Query.PriorityStage | src/hooks/useSpreadsheetData.ts:88-90 | an absent or empty priority list keeps every row; otherwise only rows whose priority is listed |
| Query.SubmitterStage | src/hooks/useSpreadsheetData.ts:92-96 | an absent or empty submitter text keeps every row; otherwise rows whose submitter contains it, ignoring case |
| Query.ParseIsoDate | src/hooks/useSpreadsheetData.ts:101-103 | a date read from a text names a valid `YYYY-MM-DD` date (month 1..12, day 1..31) and prints back as exactly that text |
| Query.ParseFormatIsoDate | src/hooks/useSpreadsheetData.ts:101-103 | every valid date is read back from its `YYYY-MM-DD` text |
| Query.ParseIsoDateExact | src/hooks/useSpreadsheetData.ts:101-103 | a text reads as date `d` iff `d` is valid and the text is its `YYYY-MM-DD` form; every other text is an invalid date |
| Query.ReverseDisplayDate | src/hooks/useSpreadsheetData.ts:101 | `split('-').reverse().join('-')` turns `DD-MM-YYYY` into `YYYY-MM-DD` |
| Query.DateStage | src/hooks/useSpreadsheetData.ts:98-106 | with a range, a row is kept iff its reversed submitted date and both bounds parse and start <= date <= end; without a range every row is kept |
| Query.NarrowIsFilter | src/hooks/useSpreadsheetData.ts:69-106 | the five stages in order are one order-preserving filter by the conjunction of the search and all filter parts |
| Query.Narrow | src/hooks/useSpreadsheetData.ts:69-106 | the rows before sorting are exactly the stored rows that pass the search and every configured filter, never more rows than stored |
| Query.Compare | src/hooks/useSpreadsheetData.ts:110-121 | the comparator returns -1, 0 or 1; 0 iff the keys are equal; negative iff the key is smaller (ascending) or larger (descending) |
| Query.CompareAntisymmetric | src/hooks/useSpreadsheetData.ts:110-121 | swapping the arguments negates the comparator |
| Query.CompareTransitive | src/hooks/useSpreadsheetData.ts:110-121 | the comparator is a consistent (transitive) order |
| Query.Insert | src/hooks/useSpreadsheetData.ts:110 | one insertion step adds exactly the one row |
| Query.SortRows | src/hooks/useSpreadsheetData.ts:110-121 | the sort result is a permutation of its input |
| Query.InsertSorted | src/hooks/useSpreadsheetData.ts:110-121 | inserting into a sorted sequence keeps it sorted |
| Query.SortRowsSorted | src/hooks/useSpreadsheetData.ts:110-121 | the sort result is ordered by the comparator |
| Query.SortRowsStable | src/hooks/useSpreadsheetData.ts:110-121 | rows with equal keys keep their relative order, as `Array.prototype.sort` has guaranteed since the 2019 edition of ECMA-262 |
| Query.SortedStableUnique | src/hooks/useSpreadsheetData.ts:110-121 | any two ordered, stable rearrangements of the same rows are equal, so the insertion sort is the only result a stable sort may give |
| Query.InsertInPlace | src/hooks/useSpreadsheetData.ts:110-121 | shifting larger rows right and placing the new row in the gap performs one insertion step on the array prefix; the rest of the array is untouched |
| Query.SortInPlace | src/hooks/useSpreadsheetData.ts:110-121 | sorting the array in place leaves it holding the stable sort of its old contents |
| Query.View | src/hooks/useSpreadsheetData.ts:68-125 | a row is displayed iff it is stored and passes the search and every filter; the view never has more rows than the store |
| Query.ViewUnsorted | src/hooks/useSpreadsheetData.ts:108-124 | without a sort the view is the stored rows with rejected ones dropped, in stored order |
| Query.ViewSorted | src/hooks/useSpreadsheetData.ts:108-124 | with a sort the view is a permutation of the filtered rows, ordered, stable, and the only such sequence |
| Csv.ColumnTitles | src/hooks/useSpreadsheetData.ts:147 | the eight column titles in export order |
| Csv.Header | src/hooks/useSpreadsheetData.ts:147 | the header is one line that splits at `,` back into the eight column titles |
| Csv.ExportFields | src/hooks/useSpreadsheetData.ts:149-158 | column 0 holds the quoted job request, and each later column the field listed under its title, as stored; the id is not exported |
| Csv.RowLine | src/hooks/useSpreadsheetData.ts:149-158 | a data line opens with the quote around the job request, so it is never blank |
| Csv.RowLineNonBlank | src/hooks/useSpreadsheetData.ts:149-176 | the import's blank-line filter never drops an exported data line |
| Csv.RowLines | src/hooks/useSpreadsheetData.ts:149-158 | one data line per displayed row, in order |
| Csv.ExportText | src/hooks/useSpreadsheetData.ts:145-159 | the export opens with the header and is only the header when no row is displayed |
| Csv.RowLineSingleLine | src/hooks/useSpreadsheetData.ts:149-158 | a row without line breaks in its fields exports as a single line |
| Csv.ExportLines | src/hooks/useSpreadsheetData.ts:145-159 | the export text splits into the header followed by the data lines: `\n` between lines, none at the end |
| Csv.DataLines | src/hooks/useSpreadsheetData.ts:172-176 | the lines that become rows are fewer than the text's lines, since line 0 is dropped |
| Csv.DataLinesMembers | src/hooks/useSpreadsheetData.ts:172-176 | a line is imported iff it comes after line 0 and is not blank |
| Csv.Values | src/hooks/useSpreadsheetData.ts:178 | one value per comma-separated piece, with every quote removed |
| Csv.ValueOr | src/hooks/useSpreadsheetData.ts:181-188 | `values[i] \|\| fallback`: the value when present and non-empty, else the fallback |
| Csv.ParseLine | src/hooks/useSpreadsheetData.ts:177-189 | the imported row has the given id; each column's field is the value read there, or its fallback (`today` for both dates, 'Need to start', 'Medium', '0', else empty) when that value is missing or empty |
| Csv.ImportWithEmptyColumn | src/hooks/useSpreadsheetData.ts:178-189 | the line `"Task A",01-01-2025,Complete,Bob,,High,2025-02-01,500` imports with assigned empty and every other field as written |
| Csv.ImportShortLine | src/hooks/useSpreadsheetData.ts:178-189 | a line holding only a job request imports with every other field at its fallback |
| Csv.ImportRows | src/hooks/useSpreadsheetData.ts:175-190 | one row per non-blank data line, in line order, the `k`-th with id `max + k + 1` |
| Csv.ImportIds | src/hooks/useSpreadsheetData.ts:180 | imported ids are decimal, above the stored maximum, and strictly increasing |
| Csv.ParseLineClean | src/hooks/useSpreadsheetData.ts:178-188 | no imported field keeps a double quote or a comma |
| Csv.RowLineFields | src/hooks/useSpreadsheetData.ts:149-158 | a data line of a plain row splits back into its eight exported fields |
| Csv.UnquoteQuote | src/hooks/useSpreadsheetData.ts:149-178 | stripping quotes from a quoted quote-free job request gives it back |
| Csv.ParseRowLine | src/hooks/useSpreadsheetData.ts:149-189 | importing the line exported for a plain row gives that row with the new id and the column fallbacks in place of its empty fields |
| Csv.Defaulted | src/hooks/useSpreadsheetData.ts:181-188 | the new id, every non-empty field kept and every empty field replaced by its column's fallback |
| Csv.DefaultedFilled | src/hooks/useSpreadsheetData.ts:181-188 | a row with no empty field is only renumbered |
| Csv.ExportDataLines | src/hooks/useSpreadsheetData.ts:145-176 | the lines import reads back from an export are exactly its data lines |
| Csv.ImportCount | src/hooks/useSpreadsheetData.ts:193 | importing an export of plain rows adds exactly as many rows as were exported |
| Csv.ExportImport | src/hooks/useSpreadsheetData.ts:144-193 | round trip: importing an export of rows free of `,` `"` and line breaks gives the same rows in the same order, renumbered from `max + 1`, with the column fallbacks in place of empty fields |
| Csv.ExportImportFilled | src/hooks/useSpreadsheetData.ts:144-193 | round trip for rows with no empty field: exactly the exported rows, renumbered from `max + 1` |
| SpreadsheetData.MaxId | src/hooks/useSpreadsheetData.ts:128 | the largest parsed id: bounds every id, is attained, and is 0 for an empty store |
| SpreadsheetData.NextId | src/hooks/useSpreadsheetData.ts:127-132 | the new id is decimal and greater than every stored id |
| SpreadsheetData.NextIdOfEmpty | src/hooks/useSpreadsheetData.ts:128 | the corrected id of the first row of an empty store is "1" |
| SpreadsheetData.JsMax | src/hooks/useSpreadsheetData.ts:128 | `Math.max`: `-Infinity` iff there are no arguments, else the attained maximum |
| SpreadsheetData.ParsedIds | src/hooks/useSpreadsheetData.ts:128 | `data.map(row => parseInt(row.id))`: the numeric value of each id, in order |
| SpreadsheetData.IdAsWritten | src/hooks/useSpreadsheetData.ts:128 | the id text the source computes is "-Infinity" on an empty store and decimal digits otherwise |
| SpreadsheetData.IdAsWrittenAgrees | src/hooks/useSpreadsheetData.ts:128-180 | on a non-empty store the source's id arithmetic equals the model's |
| SpreadsheetData.EmptyStoreIdAsWritten | src/hooks/useSpreadsheetData.ts:128-180 | on an empty store the source yields the non-numeric id "-Infinity", the same for every imported row |
| SpreadsheetData.FilterKeepsIdsValid | src/hooks/useSpreadsheetData.ts:134-136 | deleting rows keeps ids unique and numeric |
| SpreadsheetData.AppendKeepsIdsValid | src/hooks/useSpreadsheetData.ts:130-192 | appending rows with increasing ids above the maximum keeps ids unique and numeric |
| SpreadsheetData.AddKeepsIdsValid | src/hooks/useSpreadsheetData.ts:127-132 | `addRow` keeps ids unique and numeric |
| SpreadsheetData.ImportKeepsIdsValid | src/hooks/useSpreadsheetData.ts:170-193 | `importData` keeps ids unique and numeric |
| SpreadsheetData.DeleteRowsKeeps | src/hooks/useSpreadsheetData.ts:134-136 | `deleteRows` keeps exactly the rows whose id is not listed, in order; unknown ids change nothing |
| SpreadsheetData.UpdateRows | src/hooks/useSpreadsheetData.ts:138-142 | `updateRow` keeps the number of rows |
| SpreadsheetData.UpdateRowsFields | src/hooks/useSpreadsheetData.ts:138-142 | in each row with the id the given fields are overwritten; every other field and row is unchanged |
| SpreadsheetData.UpdateRowsNoMatch | src/hooks/useSpreadsheetData.ts:138-142 | an id that matches no row changes nothing |
| SpreadsheetData.UpdateKeepsIdsValid | src/hooks/useSpreadsheetData.ts:138-142 | an update that does not change the row's id keeps ids unique and numeric |
| SpreadsheetData.SeedIds | src/hooks/useSpreadsheetData.ts:4-60 | the seed rows carry ids "1" to "5" in order |
| SpreadsheetData.NumberedIdsValid | src/hooks/useSpreadsheetData.ts:4-60 | rows numbered 1, 2, … have valid ids and maximum equal to their count |
| SpreadsheetData.SeedIdsValid | src/hooks/useSpreadsheetData.ts:4-63 | the seed rows satisfy the store invariant and their largest id is 5 |
| SpreadsheetData.SeedNextId | src/hooks/useSpreadsheetData.ts:4-128 | the first row added to the seed store gets id "6" |
| SpreadsheetData.NarrowHighOnly | src/hooks/useSpreadsheetData.ts:83-106 | with only a priority list set, the pipeline is that one filter |
| SpreadsheetData.HighOfFive | src/hooks/useSpreadsheetData.ts:88-90 | filtering five rows with priorities High, other, other, other, High keeps the first and the last |
| SpreadsheetData.SeedHighPriority | src/hooks/useSpreadsheetData.ts:4-90 | filtering the seed rows to priority High keeps ids 1 and 5 |
| SpreadsheetData.SortSwapsPair | src/hooks/useSpreadsheetData.ts:109-121 | sorting two out-of-order rows swaps them |
| SpreadsheetData.SubmitterSwap | src/hooks/useSpreadsheetData.ts:109-121 | sorting by submitter ascending puts the submitter with the earlier first letter first |
| SpreadsheetData.SeedHighBySubmitter | src/hooks/useSpreadsheetData.ts:4-121 | on the seed rows, priority High sorted by submitter ascending shows Jessica Brown before Max Khan |
| SpreadsheetData.Store.constructor | src/hooks/useSpreadsheetData.ts:63-66 | the store starts with the seed rows, no sort, no filter, an empty search, and valid ids |
| SpreadsheetData.Store.FilteredAndSortedData | src/hooks/useSpreadsheetData.ts:68-125 | the stages run on a copy and the copy is sorted in place; the result is the view, and the store is not modified |
| SpreadsheetData.Store.SetSortConfig | src/hooks/useSpreadsheetData.ts:64 | sets the sort and nothing else |
| SpreadsheetData.Store.SetFilterConfig | src/hooks/useSpreadsheetData.ts:65 | sets the filter and nothing else |
| SpreadsheetData.Store.SetSearchQuery | src/hooks/useSpreadsheetData.ts:66 | sets the search and nothing else |
| SpreadsheetData.Store.AddRow | src/hooks/useSpreadsheetData.ts:127-132 | appends exactly the input row with the next id, returns it, leaves earlier rows and the query state unchanged, keeps ids valid |
| SpreadsheetData.Store.DeleteRows | src/hooks/useSpreadsheetData.ts:134-136 | the stored rows become those whose id is not listed, in order; ids stay valid |
| SpreadsheetData.Store.UpdateRow | src/hooks/useSpreadsheetData.ts:138-142 | the stored rows become the merged rows; ids stay valid when the id is not changed |
| SpreadsheetData.Store.ExportData | src/hooks/useSpreadsheetData.ts:144-159 | the exported text is the CSV of the displayed rows |
| SpreadsheetData.Store.ImportData | src/hooks/useSpreadsheetData.ts:170-193 | the imported rows are appended after all stored rows, the count returned is the number added, and ids stay valid |
| Grid.Ids | src/components/SpreadsheetGrid.tsx:69 | the set of displayed ids |
| Grid.AllSelected | src/components/SpreadsheetGrid.tsx:89 | `allSelected` holds iff there is a displayed row and every displayed id is selected; it implies `someSelected` |
| Grid.SomeSelected | src/components/SpreadsheetGrid.tsx:90 | `someSelected` holds iff some displayed id is selected |
| Grid.Flip | src/components/SpreadsheetGrid.tsx:56-66 | the given id's membership flips and no other id's does |
| Grid.FlipTwice | src/components/SpreadsheetGrid.tsx:56-66 | selecting a row twice restores the selection |
| Grid.HandleRowSelect | src/components/SpreadsheetGrid.tsx:56-66 | the handler's copy-then-add-or-delete gives the flipped selection |
| Grid.SelectAll | src/components/SpreadsheetGrid.tsx:68-79 | when every displayed id is selected (also when none is displayed) the selection becomes empty; otherwise it becomes exactly the displayed ids |
| Grid.SelectAllToggles | src/components/SpreadsheetGrid.tsx:68-90 | on a non-empty grid, select-all makes `allSelected` true unless it was, and then makes `someSelected` false |
| Grid.IndeterminateMeans | src/components/SpreadsheetGrid.tsx:89-150 | the header box is mixed iff one displayed row is selected and another is not |
| Grid.FlipCompletes | src/components/SpreadsheetGrid.tsx:56-89 | selecting the last unselected row makes `allSelected` true |
| Grid.IsFieldVisible | src/components/SpreadsheetGrid.tsx:92 | a field is shown iff no entry of the hidden list names it |
| Grid.ToggleFlipsVisibility | src/components/SpreadsheetGrid.tsx:92 | toggling a field flips its visibility and no other field's |
| Grid.StatusStyle | src/components/SpreadsheetGrid.tsx:28-41 | any value outside the status union gets the gray class |
| Grid.PriorityStyle | src/components/SpreadsheetGrid.tsx:43-54 | any value outside the priority union gets the gray class |
| Grid.StatusStyleNotGray | src/components/SpreadsheetGrid.tsx:28-41 | no known status gets the gray class |
| Grid.StatusStylesDistinct | src/components/SpreadsheetGrid.tsx:28-41 | distinct known statuses get distinct classes |
| Grid.PriorityStylesDistinct | src/components/SpreadsheetGrid.tsx:43-54 | distinct known priorities get distinct, non-gray classes |
| SpreadsheetViewState.NewActionRow | src/components/SpreadsheetView.tsx:69-77 | the new row is the form data with submitted set to today and status 'Need to start' |
| SpreadsheetViewState.NewActionRowWellTyped | src/components/SpreadsheetView.tsx:69-77 | a row added from a form with one of the three priorities holds members of the status and priority unions |
| SpreadsheetViewState.SelectionToList | src/components/SpreadsheetView.tsx:62 | `Array.from(selectedRows)` lists each selected id once |
| SpreadsheetViewState.ViewState.constructor | src/components/SpreadsheetView.tsx:19-46 | tab 'All Orders', empty selection, nothing hidden, no row being edited, a fresh store with the seed rows |
| SpreadsheetViewState.ViewState.HandleTabChange | src/components/SpreadsheetView.tsx:48-52 | sets the active tab and empties the selection |
| SpreadsheetViewState.ViewState.HandleSelectionChange | src/components/SpreadsheetView.tsx:54-56 | replaces the selection |
| SpreadsheetViewState.ViewState.HandleDeleteSelected | src/components/SpreadsheetView.tsx:58-67 | with an empty selection or no confirmation nothing changes; otherwise exactly the selected rows are deleted and the selection is emptied |
| SpreadsheetViewState.ViewState.HandleNewAction | src/components/SpreadsheetView.tsx:69-77 | appends the form's row, submitted today, status 'Need to start', with the next id; it is well typed when the form's priority is one of the three |
| SpreadsheetViewState.ViewState.HandleEditRow | src/components/SpreadsheetView.tsx:94-97 | remembers the row and opens the editor |
| SpreadsheetViewState.ViewState.HandleSaveRow | src/components/SpreadsheetView.tsx:99-102 | every row with the saved row's id becomes the saved row; all other rows are unchanged |
| SpreadsheetViewState.ViewState.HandleToggleField | src/components/SpreadsheetView.tsx:104-110 | the hidden-field list is toggled at the field |
| FilterModal.BuildConfig | src/components/modals/FilterModal.tsx:37-44 | each part is set only when the form holds a value: non-empty lists, a non-blank submitter (trimmed), a range with both ends; the result never holds an empty list or an untrimmed submitter |
| FilterModal.Applicable | src/components/modals/FilterModal.tsx:37-44 | what `handleApply` can hand on: no empty list, a non-blank trimmed submitter, a range with both ends; so each status, priority and submitter part it sets takes effect, keeping exactly the rows that match it |
| FilterModal.ClearedKeepsAll | src/components/modals/FilterModal.tsx:49-55 | the cleared config `{}` keeps every row the search keeps |
| FilterModal.AppliedFiltersLikeForm | src/components/modals/FilterModal.tsx:40-41 | omitting empty lists does not change which rows are kept |
| FilterModal.FilterForm.constructor | src/components/modals/FilterModal.tsx:12-16 | mounted closed, the form seeded from the filter current at mount, with `[]`, `[]`, `''` and an empty range for missing parts |
| FilterModal.FilterForm.Open | src/components/SpreadsheetView.tsx:151-156 | showing the dialog changes only the flag: unapplied edits are still there |
| FilterModal.FilterForm.Close | src/components/modals/FilterModal.tsx:65 | the close button clears the flag without resetting the form |
| FilterModal.FilterForm.HandleStatusChange | src/components/modals/FilterModal.tsx:21-27 | toggles the value in the status list |
| FilterModal.FilterForm.HandlePriorityChange | src/components/modals/FilterModal.tsx:29-35 | toggles the value in the priority list |
| FilterModal.FilterForm.SetSubmitter | src/components/modals/FilterModal.tsx:113-119 | the submitter box sets the submitter text and nothing else |
| FilterModal.FilterForm.SetDateRange | src/components/modals/FilterModal.tsx:127-138 | the two date inputs set the range and nothing else |
| FilterModal.FilterForm.HandleApply | src/components/modals/FilterModal.tsx:37-47 | hands the built config to `onFilter` and closes |
| FilterModal.FilterForm.HandleClear | src/components/modals/FilterModal.tsx:49-56 | resets all four fields, applies `{}` and closes |
| BottomTabs.TabCount | src/components/BottomTabs.tsx:14-23 | a tab has a positive mock count iff it is one of the four initial tabs |
| BottomTabs.Tabs.constructor | src/components/BottomTabs.tsx:10-12 | the tabs start as All Orders, Pending, Reviewed, Arrived; add mode off; empty name |
| BottomTabs.Tabs.AddNamedTab | src/components/BottomTabs.tsx:30-74 | appends the trimmed name, makes it active, empties the field, leaves add mode |
| BottomTabs.Tabs.HandleAddTabClick | src/components/BottomTabs.tsx:30-43 | in add mode with a non-blank name it adds the tab; otherwise it only enters add mode |
| BottomTabs.Tabs.HandleNewTabNameChange | src/components/BottomTabs.tsx:59-61 | sets the name field |
| BottomTabs.Tabs.HandleNewTabSubmit | src/components/BottomTabs.tsx:63-74 | a non-blank name adds the tab; a blank one changes nothing |
| BottomTabs.Tabs.HandleNewTabBlur | src/components/BottomTabs.tsx:76-81 | leaving a blank name field ends add mode; otherwise nothing changes |
| BottomTabs.Tabs.HandleRemoveTab | src/components/BottomTabs.tsx:45-57 | the last tab stays; otherwise every tab with the name is removed, and if it was active the first remaining tab (or `undefined`) becomes active |
| BottomTabs.RemoveKeepsOthers | src/components/BottomTabs.tsx:48 | removal keeps exactly the other tabs, in order |
| BottomTabs.DuplicateRemovalEmpties | src/components/BottomTabs.tsx:33-48 | two tabs with the same name are both removed, leaving no tab |
| NewActionModal.SetField | src/components/modals/NewActionModal.tsx:21-23 | exactly the named field is replaced |
| NewActionModal.CanSubmit | src/components/modals/NewActionModal.tsx:27 | the submit guard holds iff both the job request and the submitter hold a non-whitespace character |
| NewActionModal.EmptyFormBlocked | src/components/modals/NewActionModal.tsx:12-27 | the initial form cannot be submitted |
| NewActionModal.FilledFormSubmits | src/components/modals/NewActionModal.tsx:21-27 | after typing a non-blank job request and submitter the form can be submitted |
| NewActionModal.NewActionForm.constructor | src/components/modals/NewActionModal.tsx:12-19 | mounted closed, the form empty with priority 'Medium' |
| NewActionModal.NewActionForm.Open | src/components/SpreadsheetView.tsx:158-162 | showing the dialog changes only the flag: what was typed is still there |
| NewActionModal.NewActionForm.Close | src/components/modals/NewActionModal.tsx:48 | the close and cancel buttons clear the flag without resetting the form |
| NewActionModal.NewActionForm.HandleChange | src/components/modals/NewActionModal.tsx:21-23 | replaces one field; the priority, set only from its select, stays one of the three |
| NewActionModal.NewActionForm.HandleSubmit | src/components/modals/NewActionModal.tsx:25-39 | with a non-blank job request and submitter the untrimmed form is submitted, the form reset and the dialog closed; otherwise nothing changes; a submitted priority is one of the three |
| EditRowModal.EditsKeepIdentity | src/components/modals/EditRowModal.tsx:63-152 | edits through the form's inputs never change the id or the submitted date |
| EditRowModal.LastEditWins | src/components/modals/EditRowModal.tsx:21-26 | the last edit of a field decides its value |
| EditRowModal.ApplyEdits | src/components/modals/EditRowModal.tsx:21-26 | a field that no edit names keeps its value |
| EditRowModal.EditForm.constructor | src/components/modals/EditRowModal.tsx:13-14 | the form starts with the given row and no changes |
| EditRowModal.EditForm.RowChanged | src/components/modals/EditRowModal.tsx:16-19 | a new row prop replaces the form and clears the changes flag |
| EditRowModal.EditForm.HandleChange | src/components/modals/EditRowModal.tsx:21-26 | without a row nothing changes; otherwise one editable field is set and the form is marked changed, even for the same value; the id and submitted date stay those of the given row |
| EditRowModal.EditForm.HandleSave | src/components/modals/EditRowModal.tsx:28-36 | saves iff there is a row with changes, then clears the flag; closes in every case; a saved row has the id and submitted date of the row the form was given |
| EditRowModal.EditForm.HandleClose | src/components/modals/EditRowModal.tsx:38-48 | with changes it closes and clears them only when confirmed; without changes it closes |
| SortModal.OfferedFieldsExact | src/components/modals/SortModal.tsx:16-25 | exactly the eight data fields are offered, each once; `id` is not |
| SortModal.Label | src/components/modals/SortModal.tsx:16-25 | every offered field is listed under a non-empty label |
| SortModal.LabelsAreColumnTitles | src/components/modals/SortModal.tsx:16-25 | the offered fields are the CSV columns in the same order, listed under the column titles, and the export writes each offered field into its column |
| SortModal.InitialField | src/components/modals/SortModal.tsx:13 | `currentSort?.key \|\| ''`: empty without a sort, else a name that resolves to the sort's key |
| SortModal.SortForm.constructor | src/components/modals/SortModal.tsx:12-14 | mounted closed, seeded from the sort current at mount, else no field and ascending |
| SortModal.SortForm.Open | src/components/SpreadsheetView.tsx:144-149 | showing the dialog changes only the flag: the earlier choice is still there |
| SortModal.SortForm.Close | src/components/modals/SortModal.tsx:50 | the close button clears the flag without touching the choice |
| SortModal.SortForm.SelectField | src/components/modals/SortModal.tsx:60-71 | the list sets the empty choice or an offered field's name, which always resolves to a field |
| SortModal.SortForm.SetDirection | src/components/modals/SortModal.tsx:79-100 | the two buttons set the direction |
| SortModal.SortForm.HandleApply | src/components/modals/SortModal.tsx:27-35 | with a field chosen, calls `onSort` with the field its name resolves to and the direction; closes in every case, keeping the choice |
| SortModal.SortForm.HandleClear | src/components/modals/SortModal.tsx:37-41 | calls `onSort(null)`, forgets the field and closes |

## Left out

- Browser I/O: the Blob, object URL and anchor click of `exportData`; only the CSV text is modelled. The FileReader in the import dialog, `alert` and `console.log` are also left out.
- `window.confirm` is the Boolean parameter `confirmed`. `new Date().toLocaleDateString('en-GB')` is the string parameter `today`.
- JS `Date` parsing in the date filter is reduced to a strict `YYYY-MM-DD` parse into (year, month, day), compared in calendar order. Other strings that `new Date` accepts count as invalid dates. An invalid date makes the comparison false, as `NaN` does. A day past the end of its month (31 February, say) is compared as written; JS engines differ on such dates, some rejecting them and some rolling them into the next month.
- `toLowerCase` is modelled on ASCII letters only.
- `parseInt` is modelled on ids that are all decimal digits (`AllDecimal`). NaN ids are outside the model.
- Ids are exact natural numbers. In the source they are JS numbers (doubles). Above 2^53, `parseInt` and `+ 1` round, so a new id can equal the largest stored one. From 10^21 up, `toString` writes exponent notation such as "1e+21". Spreading a very large store into `Math.max(...)` can throw a `RangeError`. The id lemmas (`NextId`, `ImportIds`, the `…KeepsIdsValid` lemmas) therefore hold for the model's exact integers only.
- The `try`/`catch` in `importData`, which turns an exception into 'Invalid CSV format': the modelled body cannot throw, so that path is not modelled. In the source, the `Math.max` spread above is the one call that can throw.
- String `<` in the sort is modelled as the order of code points (`char`). JS compares UTF-16 code units. The two orders differ when, at the first difference, one string has a character above U+FFFF and the other a character in U+E000..U+FFFF. Sorting such text may give a different order.
- React scheduling (`useState` batching, `useMemo` caching, effects): state is modelled as class fields updated at once, and the view as a function.
- `SpreadsheetData.Store.AddRow`: requires numeric ids, and uses the corrected id rule (maximum 0 for an empty store) instead of `Math.max()` of nothing; see Findings.
- `SpreadsheetData.Store.ImportData`: requires numeric ids, and numbers imported rows from the corrected maximum; see Findings.
- `SortModal.SortForm.SelectField`: requires one of the offered choices, because the `select` element only produces those.
- `NewActionModal.NewActionForm.HandleChange`: requires a priority value to be one of the three priorities, because only the priority `select`, whose options are those, calls it for that field.
- `EditRowModal.EditForm.HandleChange`: requires an editable field, because the form has inputs for every field except `id` and `submitted`, and only those inputs call it.
- The dialogs, the toolbar, the header and the tab bar's rendering, and the extract, question, ABC, import and hide-fields dialogs, are not part of this model.
- `handleAddRow`, `handleExport`, `handleImport` and the `show…Modal` flags of src/components/SpreadsheetView.tsx only open dialogs or forward to the store: the store's methods stand for them.

## Findings

| source | as written | input that shows it | evidently intended | confidence | as-written member | corrected member |
|---|---|---|---|---|---|---|
| src/hooks/useSpreadsheetData.ts:128 | the new id is `(Math.max(...ids) + offset).toString()`, and `Math.max()` of no ids is `-Infinity` | delete every row, then add a row (id "-Infinity") or import two lines (both get "-Infinity") | the first row of an empty store gets id "1", and imported rows "1", "2", … | not executed | SpreadsheetData.EmptyStoreIdAsWritten | SpreadsheetData.NextIdOfEmpty |
