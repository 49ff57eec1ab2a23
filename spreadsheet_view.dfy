/** The page-level state of src/components/SpreadsheetView.tsx: the active
    tab, the selected row ids, the hidden fields and the row being edited,
    on top of the row store of the `useSpreadsheetData` hook. */
module SpreadsheetViewState {
  import opened Wrappers
  import opened Seqs
  import opened Spreadsheet
  import SpreadsheetData

  /** The filter predicate "the id is not selected". */
  function NotSelected(selected: set<string>): Row -> bool
  {
    (row: Row) => row.id !in selected
  }

  /** The row `handleNewAction` hands to `addRow`: the form data with
      today's date as `submitted` and the status 'Need to start'. */
  function NewActionRow(data: NewActionData, today: string): (row: Row)
    ensures row.submitted == today && row.status == "Need to start"
    ensures row.jobRequest == data.jobRequest && row.submitter == data.submitter
    ensures row.assignedTo == data.assignedTo && row.priority == data.priority
    ensures row.dueDate == data.dueDate && row.estValue == data.estValue
  {
    Row("", data.jobRequest, today, "Need to start", data.submitter, data.assignedTo,
        data.priority, data.dueDate, data.estValue)
  }

  /** A row built from the form is well typed when the form's priority is. */
  lemma NewActionRowWellTyped(data: NewActionData, today: string, id: string)
    requires IsPriority(data.priority)
    ensures WellTyped(Set(NewActionRow(data, today), Id, id))
  {
    assert "Need to start" == StatusValues[0];
  }

  /** `Array.from(selectedRows)`: the selected ids, each once, in some order. */
  method SelectionToList(selected: set<string>) returns (ids: seq<string>)
    ensures forall id :: id in ids <==> id in selected
    ensures |ids| == |selected|
  {
    ids := [];
    var rest := selected;
    while rest != {}
      invariant rest <= selected
      invariant forall id :: id in ids <==> id in selected && id !in rest
      invariant |ids| + |rest| == |selected|
      decreases |rest|
    {
      var id :| id in rest;
      ghost var listed := set x | x in ids;
      assert selected - rest == listed;
      ids := ids + [id];
      rest := rest - {id};
    }
  }

  class ViewState {
    const store: SpreadsheetData.Store
    var activeTab: string
    var selectedRows: set<string>
    var hiddenFields: seq<string>
    var editingRow: Option<Row>
    var showEditRowModal: bool

    /** The initial page: tab 'All Orders', nothing selected or hidden, no
        row being edited, and a store holding the seed rows. */
    constructor ()
      ensures activeTab == "All Orders" && selectedRows == {} && hiddenFields == []
      ensures editingRow == None && !showEditRowModal
      ensures fresh(store) && store.data == SpreadsheetData.Seed && store.Valid()
    {
      store := new SpreadsheetData.Store();
      activeTab := "All Orders";
      selectedRows := {};
      hiddenFields := [];
      editingRow := None;
      showEditRowModal := false;
    }

    /** `handleTabChange`: switch tab and clear the selection. */
    method HandleTabChange(tab: string)
      modifies this
      ensures activeTab == tab && selectedRows == {}
      ensures hiddenFields == old(hiddenFields) && editingRow == old(editingRow)
      ensures showEditRowModal == old(showEditRowModal)
    {
      activeTab := tab;
      selectedRows := {};
    }

    /** `handleSelectionChange` */
    method HandleSelectionChange(selected: set<string>)
      modifies this
      ensures selectedRows == selected
      ensures activeTab == old(activeTab) && hiddenFields == old(hiddenFields)
      ensures editingRow == old(editingRow) && showEditRowModal == old(showEditRowModal)
    {
      selectedRows := selected;
    }

    /** `handleDeleteSelected`; `confirmed` is the answer to the browser's
        confirmation prompt, which is only shown for a non-empty selection. */
    method HandleDeleteSelected(confirmed: bool)
      modifies this, store
      ensures |old(selectedRows)| == 0 || !confirmed ==>
        selectedRows == old(selectedRows) && store.data == old(store.data)
      ensures |old(selectedRows)| > 0 && confirmed ==>
        selectedRows == {} && store.data == Filter(NotSelected(old(selectedRows)), old(store.data))
      ensures store.sortConfig == old(store.sortConfig) && store.filterConfig == old(store.filterConfig)
      ensures store.searchQuery == old(store.searchQuery)
      ensures activeTab == old(activeTab) && hiddenFields == old(hiddenFields)
      ensures editingRow == old(editingRow) && showEditRowModal == old(showEditRowModal)
      ensures old(store.Valid()) ==> store.Valid()
    {
      if |selectedRows| > 0 {
        if confirmed {
          var ids := SelectionToList(selectedRows);
          FilterExt(SpreadsheetData.NotListed(ids), NotSelected(selectedRows), store.data);
          store.DeleteRows(ids);
          selectedRows := {};
        }
      }
    }

    /** `handleNewAction`: add the form's row, submitted today, not started. */
    method HandleNewAction(data: NewActionData, today: string) returns (added: Row)
      requires SpreadsheetData.AllDecimal(store.data)
      modifies store
      ensures added == Set(NewActionRow(data, today), Id, SpreadsheetData.NextId(old(store.data)))
      ensures store.data == old(store.data) + [added]
      ensures store.sortConfig == old(store.sortConfig) && store.filterConfig == old(store.filterConfig)
      ensures store.searchQuery == old(store.searchQuery)
      ensures old(store.Valid()) ==> store.Valid()
      ensures IsPriority(data.priority) ==> WellTyped(added)
    {
      added := store.AddRow(NewActionRow(data, today));
      if IsPriority(data.priority) {
        NewActionRowWellTyped(data, today, SpreadsheetData.NextId(old(store.data)));
      }
    }

    /** `handleEditRow`: remember the row and open the edit dialog. */
    method HandleEditRow(row: Row)
      modifies this
      ensures editingRow == Some(row) && showEditRowModal
      ensures activeTab == old(activeTab) && selectedRows == old(selectedRows)
      ensures hiddenFields == old(hiddenFields)
    {
      editingRow := Some(row);
      showEditRowModal := true;
    }

    /** `handleSaveRow`: every row with the saved row's id becomes the saved
        row, and every other row stays as it was. */
    method HandleSaveRow(updatedRow: Row)
      modifies store
      ensures |store.data| == |old(store.data)|
      ensures forall i :: 0 <= i < |store.data| ==>
        store.data[i] == if old(store.data)[i].id == updatedRow.id then updatedRow else old(store.data)[i]
      ensures store.sortConfig == old(store.sortConfig) && store.filterConfig == old(store.filterConfig)
      ensures store.searchQuery == old(store.searchQuery)
      ensures old(store.Valid()) ==> store.Valid()
    {
      store.UpdateRow(updatedRow.id, AllFields(updatedRow));
      forall i | 0 <= i < |store.data| && old(store.data)[i].id == updatedRow.id
        ensures store.data[i] == updatedRow
      {
        MergeAllFields(old(store.data)[i], updatedRow);
      }
    }

    /** `handleToggleField`: show a hidden field, or hide a shown one. */
    method HandleToggleField(field: string)
      modifies this
      ensures hiddenFields == Toggle(old(hiddenFields), field)
      ensures activeTab == old(activeTab) && selectedRows == old(selectedRows)
      ensures editingRow == old(editingRow) && showEditRowModal == old(showEditRowModal)
    {
      hiddenFields := Toggle(hiddenFields, field);
    }
  }
}
