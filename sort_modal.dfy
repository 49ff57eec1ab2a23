/** The sort dialog (src/components/modals/SortModal.tsx): the chosen field
    as the select's string value (`""` for the empty choice) and a
    direction. The dialog is mounted once, closed, with the page; its state
    is seeded at that mount and survives closing and reopening. A call of
    `onSort` is returned as `Some(config)`, where `config` is `None` for
    `onSort(null)`, and no call as `None`; `isOpen` stands for the parent's
    flag that `onClose` clears. */
module SortModal {
  import opened Wrappers
  import opened Spreadsheet
  import Csv

  /** The fields the dialog offers, in display order: every field but `id`. */
  const OfferedFields: seq<Field> := [JobRequest, Submitted, Status, Submitter, Assigned, Priority, DueDate, EstValue]

  /** The label each offered field is listed under. */
  function Label(f: Field): (r: string)
    requires f != Id
    ensures r != ""
  {
    match f
    case JobRequest => "Job Request"
    case Submitted => "Submitted"
    case Status => "Status"
    case Submitter => "Submitter"
    case Assigned => "Assigned"
    case Priority => "Priority"
    case DueDate => "Due Date"
    case EstValue => "Est. Value"
  }

  /** Exactly the eight data fields are offered, each once; `id` is not. */
  lemma OfferedFieldsExact(f: Field)
    ensures f in OfferedFields <==> f != Id
    ensures |OfferedFields| == 8
    ensures forall i, j :: 0 <= i < j < |OfferedFields| ==> OfferedFields[i] != OfferedFields[j]
  {
  }

  /** The dialog lists the fields under the titles the CSV export uses for
      its header, in the same order, and the export writes the field listed
      under each title into that column. */
  lemma LabelsAreColumnTitles(row: Row)
    ensures OfferedFields == Csv.ColumnFields
    ensures forall i :: 0 <= i < 8 ==> Label(OfferedFields[i]) == Csv.ColumnTitle(i)
    ensures forall i :: 1 <= i < 8 ==> Csv.ExportFields(row)[i] == Get(row, OfferedFields[i])
  {
  }

  /** The select's value: the empty choice or the name of an offered field. */
  predicate IsChoice(value: string)
  {
    value == "" || exists f :: f in OfferedFields && FieldName(f) == value
  }

  /** The value the select shows for `currentSort?.key || ''`. */
  function InitialField(currentSort: Option<SortConfig>): (r: string)
    ensures currentSort.None? ==> r == ""
    ensures currentSort.Some? ==> FieldNamed(r) == Some(currentSort.value.key)
  {
    FieldNameRoundTrip(if currentSort.Some? then currentSort.value.key else Id);
    if currentSort.Some? then FieldName(currentSort.value.key) else ""
  }

  class SortForm {
    var selectedField: string
    var direction: Direction
    var isOpen: bool

    /** `selectedField as keyof …` names a field whenever one is chosen. */
    predicate Valid()
      reads this
    {
      selectedField == "" || FieldNamed(selectedField).Some?
    }

    /** Mounted with the page, closed, seeded from the current sort, else no
        field and ascending. */
    constructor (currentSort: Option<SortConfig>)
      ensures Valid() && !isOpen
      ensures selectedField == InitialField(currentSort)
      ensures direction == (if currentSort.Some? then currentSort.value.direction else Asc)
    {
      selectedField := InitialField(currentSort);
      direction := if currentSort.Some? then currentSort.value.direction else Asc;
      isOpen := false;
    }

    /** The parent shows the dialog; the choices made before are still there. */
    method Open()
      modifies this
      ensures isOpen && selectedField == old(selectedField) && direction == old(direction)
    {
      isOpen := true;
    }

    /** The close button: `onClose` without touching the choices. */
    method Close()
      modifies this
      ensures !isOpen && selectedField == old(selectedField) && direction == old(direction)
    {
      isOpen := false;
    }

    /** Choosing in the field list: the empty choice or an offered field. */
    method SelectField(value: string)
      requires IsChoice(value)
      modifies this
      ensures Valid()
      ensures selectedField == value && direction == old(direction) && isOpen == old(isOpen)
    {
      if value != "" {
        var f :| f in OfferedFields && FieldName(f) == value;
        FieldNameRoundTrip(f);
      }
      selectedField := value;
    }

    /** The two direction buttons. */
    method SetDirection(d: Direction)
      modifies this
      ensures direction == d && selectedField == old(selectedField) && isOpen == old(isOpen)
    {
      direction := d;
    }

    /** `handleApply`: with a field chosen, sort by the field it names in
        the chosen direction; the dialog closes either way. */
    method HandleApply() returns (sort: Option<Option<SortConfig>>)
      requires Valid()
      modifies this
      ensures old(selectedField) != "" ==>
        sort.Some? && sort.value.Some? && sort.value.value.direction == old(direction)
        && FieldName(sort.value.value.key) == old(selectedField)
      ensures old(selectedField) == "" ==> sort == None
      ensures !isOpen && selectedField == old(selectedField) && direction == old(direction)
    {
      if selectedField != "" {
        var key := FieldNamed(selectedField).value;
        sort := Some(Some(SortConfig(key, direction)));
      } else {
        sort := None;
      }
      isOpen := false;
    }

    /** `handleClear`: remove the sort, forget the field, close. */
    method HandleClear() returns (sort: Option<Option<SortConfig>>)
      modifies this
      ensures sort == Some(None) && selectedField == "" && !isOpen && Valid()
      ensures direction == old(direction)
    {
      sort := Some(None);
      selectedField := "";
      isOpen := false;
    }
  }
}
