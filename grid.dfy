/** The selection logic and cell styles of the grid component
    (src/components/SpreadsheetGrid.tsx). The grid owns no state: the
    selection and the hidden fields are handed to it, and a changed
    selection is handed back. */
module Grid {
  import opened Seqs
  import opened Spreadsheet

  // ------------------------------------------------------------ selection

  /** The ids of the displayed rows. */
  function Ids(data: seq<Row>): (r: set<string>)
    ensures forall id :: id in r <==> exists i :: 0 <= i < |data| && data[i].id == id
  {
    set i | 0 <= i < |data| :: data[i].id
  }

  /** The selection with the membership of one id flipped. */
  function Flip(selected: set<string>, rowId: string): (r: set<string>)
    ensures rowId in r <==> rowId !in selected
    ensures forall id :: id != rowId ==> (id in r <==> id in selected)
  {
    if rowId in selected then selected - {rowId} else selected + {rowId}
  }

  /** Flipping the same id twice restores the selection. */
  lemma FlipTwice(selected: set<string>, rowId: string)
    ensures Flip(Flip(selected, rowId), rowId) == selected
  {
    var r := Flip(Flip(selected, rowId), rowId);
    assert forall id :: id in r <==> id in selected;
  }

  /** `handleRowSelect`: copy the selection, then delete or add the id in
      the copy; the incoming set is a value and stays as it was. */
  method HandleRowSelect(selectedRows: set<string>, rowId: string) returns (newSelected: set<string>)
    ensures newSelected == Flip(selectedRows, rowId)
  {
    newSelected := selectedRows;
    if rowId in newSelected {
      newSelected := newSelected - {rowId};
    } else {
      newSelected := newSelected + {rowId};
    }
  }

  /** `handleSelectAll`: clear the selection when every displayed id is
      selected already (also when nothing is displayed), else select
      exactly the displayed ids. */
  function SelectAll(data: seq<Row>, selectedRows: set<string>): (r: set<string>)
    ensures Ids(data) <= selectedRows ==> r == {}
    ensures !(Ids(data) <= selectedRows) ==> r == Ids(data) && r != {}
  {
    if forall i :: 0 <= i < |data| ==> data[i].id in selectedRows then {} else Ids(data)
  }

  /** Some displayed row's id is in `s` exactly when the displayed ids meet `s`. */
  lemma IdsMeet(data: seq<Row>, s: set<string>)
    ensures (exists i :: 0 <= i < |data| && data[i].id in s) <==> Ids(data) * s != {}
  {
    if exists i :: 0 <= i < |data| && data[i].id in s {
      var i :| 0 <= i < |data| && data[i].id in s;
      assert data[i].id in Ids(data) * s;
    }
  }

  /** `allSelected`: at least one row, and every row selected. */
  predicate AllSelected(data: seq<Row>, selectedRows: set<string>): (r: bool)
    ensures r <==> data != [] && Ids(data) <= selectedRows
    ensures r ==> SomeSelected(data, selectedRows)
  {
    IdsMeet(data, selectedRows);
    assert data != [] ==> data[0].id in Ids(data);
    |data| > 0 && forall i :: 0 <= i < |data| ==> data[i].id in selectedRows
  }

  /** `someSelected`: some row selected. */
  predicate SomeSelected(data: seq<Row>, selectedRows: set<string>): (r: bool)
    ensures r <==> Ids(data) * selectedRows != {}
  {
    IdsMeet(data, selectedRows);
    exists i :: 0 <= i < |data| && data[i].id in selectedRows
  }

  /** The header check box shows the mixed state. */
  predicate Indeterminate(data: seq<Row>, selectedRows: set<string>)
  {
    SomeSelected(data, selectedRows) && !AllSelected(data, selectedRows)
  }

  /** The header box is mixed exactly when one displayed row is selected and
      another is not. */
  lemma IndeterminateMeans(data: seq<Row>, selectedRows: set<string>)
    ensures Indeterminate(data, selectedRows) <==>
      (exists i :: 0 <= i < |data| && data[i].id in selectedRows) &&
      (exists j :: 0 <= j < |data| && data[j].id !in selectedRows)
  {
  }

  /** Clicking the header box on a partly selected (or empty) selection of a
      non-empty grid selects every row; clicking it when all are selected
      leaves none selected. */
  lemma SelectAllToggles(data: seq<Row>, selectedRows: set<string>)
    ensures data != [] && !AllSelected(data, selectedRows) ==> AllSelected(data, SelectAll(data, selectedRows))
    ensures AllSelected(data, selectedRows) ==> !SomeSelected(data, SelectAll(data, selectedRows))
  {
    if data != [] && !AllSelected(data, selectedRows) {
      var j :| 0 <= j < |data| && data[j].id !in selectedRows;
      assert data[j].id in Ids(data);
      assert forall i :: 0 <= i < |data| ==> data[i].id in Ids(data);
    }
  }

  /** A selection made with the row boxes is reported as all selected after
      every displayed row was flipped into it. */
  lemma FlipCompletes(data: seq<Row>, selectedRows: set<string>, rowId: string)
    requires data != [] && rowId !in selectedRows
    requires forall i :: 0 <= i < |data| ==> data[i].id in selectedRows || data[i].id == rowId
    ensures AllSelected(data, Flip(selectedRows, rowId))
  {
  }

  // --------------------------------------------------------------- fields

  /** `isFieldVisible` */
  predicate IsFieldVisible(hiddenFields: seq<string>, field: string): (r: bool)
    ensures r <==> forall i :: 0 <= i < |hiddenFields| ==> hiddenFields[i] != field
  {
    field !in hiddenFields
  }

  /** Toggling a field in the hidden list flips its visibility and no other. */
  lemma ToggleFlipsVisibility(hiddenFields: seq<string>, field: string, other: string)
    ensures IsFieldVisible(Toggle(hiddenFields, field), field) <==> !IsFieldVisible(hiddenFields, field)
    ensures other != field ==> (IsFieldVisible(Toggle(hiddenFields, field), other) <==> IsFieldVisible(hiddenFields, other))
  {
  }

  // --------------------------------------------------------------- styles

  const GrayStatus := "bg-gray-100 text-gray-800 border-gray-200"
  const GrayPriority := "bg-gray-100 text-gray-800"

  /** `getStatusStyle` */
  function StatusStyle(status: string): (r: string)
    ensures !IsStatus(status) ==> r == GrayStatus
  {
    if status == "Complete" then "bg-green-100 text-green-800 border-green-200"
    else if status == "In-progress" then "bg-yellow-100 text-yellow-800 border-yellow-200"
    else if status == "Need to start" then "bg-blue-100 text-blue-800 border-blue-200"
    else if status == "Blocked" then "bg-red-100 text-red-800 border-red-200"
    else GrayStatus
  }

  /** `getPriorityStyle` */
  function PriorityStyle(priority: string): (r: string)
    ensures !IsPriority(priority) ==> r == GrayPriority
  {
    if priority == "High" then "bg-red-100 text-red-800"
    else if priority == "Medium" then "bg-yellow-100 text-yellow-800"
    else if priority == "Low" then "bg-green-100 text-green-800"
    else GrayPriority
  }

  /** A known status never gets the gray default. */
  lemma StatusStyleNotGray(a: string)
    requires IsStatus(a)
    ensures StatusStyle(a) != GrayStatus
  {
  }

  /** Distinct known statuses get distinct classes. */
  lemma StatusStylesDistinct(a: string, b: string)
    requires IsStatus(a) && IsStatus(b) && a != b
    ensures StatusStyle(a) != StatusStyle(b)
  {
  }

  /** Each known priority has a class of its own, distinct from the others
      and from the gray default. */
  lemma PriorityStylesDistinct(a: string, b: string)
    requires IsPriority(a) && IsPriority(b) && a != b
    ensures PriorityStyle(a) != PriorityStyle(b)
    ensures PriorityStyle(a) != GrayPriority
  {
  }
}
