/** The record and query-state types of the grid (src/types/spreadsheet.ts). */
module Spreadsheet {
  import opened Wrappers

  /** `keyof SpreadsheetRow`. */
  datatype Field = Id | JobRequest | Submitted | Status | Submitter | Assigned | Priority | DueDate | EstValue

  /** `SpreadsheetRow` (`assigned` is a Dafny keyword, so that field is
      `assignedTo` here). `status` and `priority` are kept as strings: the
      union types are not enforced at run time, and CSV import stores
      whatever text the file holds. */
  datatype Row = Row(
    id: string,
    jobRequest: string,
    submitted: string,
    status: string,
    submitter: string,
    assignedTo: string,
    priority: string,
    dueDate: string,
    estValue: string)

  /** The members of the `status` union. */
  const StatusValues: seq<string> := ["Need to start", "In-progress", "Complete", "Blocked"]

  /** The members of the `priority` union. */
  const PriorityValues: seq<string> := ["High", "Medium", "Low"]

  predicate IsStatus(s: string)
  {
    s in StatusValues
  }

  predicate IsPriority(s: string)
  {
    s in PriorityValues
  }

  /** A row whose union-typed fields hold members of their unions. */
  predicate WellTyped(row: Row)
  {
    IsStatus(row.status) && IsPriority(row.priority)
  }

  /** `row[key]`. */
  function Get(row: Row, f: Field): string
  {
    match f
    case Id => row.id
    case JobRequest => row.jobRequest
    case Submitted => row.submitted
    case Status => row.status
    case Submitter => row.submitter
    case Assigned => row.assignedTo
    case Priority => row.priority
    case DueDate => row.dueDate
    case EstValue => row.estValue
  }

  /** `{ ...row, [f]: v }`: exactly one field replaced. */
  function Set(row: Row, f: Field, v: string): (r: Row)
    ensures Get(r, f) == v
    ensures forall g :: g != f ==> Get(r, g) == Get(row, g)
  {
    match f
    case Id => row.(id := v)
    case JobRequest => row.(jobRequest := v)
    case Submitted => row.(submitted := v)
    case Status => row.(status := v)
    case Submitter => row.(submitter := v)
    case Assigned => row.(assignedTo := v)
    case Priority => row.(priority := v)
    case DueDate => row.(dueDate := v)
    case EstValue => row.(estValue := v)
  }

  /** Two rows are equal when every field is. */
  lemma RowExt(a: Row, b: Row)
    requires forall f :: Get(a, f) == Get(b, f)
    ensures a == b
  {
    assert Get(a, Id) == Get(b, Id) && Get(a, JobRequest) == Get(b, JobRequest);
    assert Get(a, Submitted) == Get(b, Submitted) && Get(a, Status) == Get(b, Status);
    assert Get(a, Submitter) == Get(b, Submitter) && Get(a, Assigned) == Get(b, Assigned);
    assert Get(a, Priority) == Get(b, Priority) && Get(a, DueDate) == Get(b, DueDate);
    assert Get(a, EstValue) == Get(b, EstValue);
  }

  /** `Partial<SpreadsheetRow>`: the fields an update supplies. */
  type Updates = map<Field, string>

  /** The value field `f` takes under `{ ...row, ...updates }`. */
  function Pick(row: Row, updates: Updates, f: Field): string
  {
    if f in updates then updates[f] else Get(row, f)
  }

  /** `{ ...row, ...updates }`: supplied fields are overwritten, the others kept. */
  function Merge(row: Row, updates: Updates): (r: Row)
    ensures forall f :: Get(r, f) == if f in updates then updates[f] else Get(row, f)
  {
    Row(Pick(row, updates, Id), Pick(row, updates, JobRequest), Pick(row, updates, Submitted),
        Pick(row, updates, Status), Pick(row, updates, Submitter), Pick(row, updates, Assigned),
        Pick(row, updates, Priority), Pick(row, updates, DueDate), Pick(row, updates, EstValue))
  }

  /** A whole row passed as a partial update: every field supplied. */
  function AllFields(row: Row): (u: Updates)
    ensures forall f :: f in u && u[f] == Get(row, f)
  {
    map f: Field | true :: Get(row, f)
  }

  /** Merging every field of `updated` yields `updated` itself. */
  lemma MergeAllFields(row: Row, updated: Row)
    ensures Merge(row, AllFields(updated)) == updated
  {
    RowExt(Merge(row, AllFields(updated)), updated);
  }

  /** The property names, as the source spells them in field-name strings. */
  function FieldName(f: Field): string
  {
    match f
    case Id => "id"
    case JobRequest => "jobRequest"
    case Submitted => "submitted"
    case Status => "status"
    case Submitter => "submitter"
    case Assigned => "assigned"
    case Priority => "priority"
    case DueDate => "dueDate"
    case EstValue => "estValue"
  }

  /** The field a property name denotes, if any. */
  function FieldNamed(name: string): (r: Option<Field>)
    ensures r.Some? ==> FieldName(r.value) == name
    ensures r.None? ==> forall f :: FieldName(f) != name
  {
    if name == "id" then Some(Id)
    else if name == "jobRequest" then Some(JobRequest)
    else if name == "submitted" then Some(Submitted)
    else if name == "status" then Some(Status)
    else if name == "submitter" then Some(Submitter)
    else if name == "assigned" then Some(Assigned)
    else if name == "priority" then Some(Priority)
    else if name == "dueDate" then Some(DueDate)
    else if name == "estValue" then Some(EstValue)
    else None
  }

  /** Every field is recovered from its name. */
  lemma FieldNameRoundTrip(f: Field)
    ensures FieldNamed(FieldName(f)) == Some(f)
  {
  }

  /** `SortConfig`: any field, including `id`, ascending or descending. */
  datatype Direction = Asc | Desc
  datatype SortConfig = SortConfig(key: Field, direction: Direction)

  /** `FilterConfig`: every part optional; a date range carries both bounds. */
  datatype DateRange = DateRange(start: string, end: string)
  datatype FilterConfig = FilterConfig(
    status: Option<seq<string>>,
    priority: Option<seq<string>>,
    submitter: Option<string>,
    dateRange: Option<DateRange>)

  /** `{}`: the configuration with no part set. */
  const NoFilter: FilterConfig := FilterConfig(None, None, None, None)

  /** `NewActionData`: a row without `id`, `submitted` and `status`. Its
      `priority` is one of `PriorityValues` wherever the form produces it. */
  datatype NewActionData = NewActionData(
    jobRequest: string,
    submitter: string,
    assignedTo: string,
    priority: string,
    dueDate: string,
    estValue: string)
}
