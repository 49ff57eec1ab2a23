/** The new-action dialog (src/components/modals/NewActionModal.tsx): a form
    over `NewActionData`, a per-field change handler and a guarded submit.
    A call of `onSubmit` is returned as `Some(data)`, no call as `None`;
    `isOpen` stands for the parent's flag that `onClose` clears. The dialog
    is mounted once, closed, with the page; what was typed survives closing
    and reopening until a submit resets it. */
module NewActionModal {
  import opened Wrappers
  import opened Text
  import opened Spreadsheet

  /** The keys of `NewActionData` the form edits. */
  datatype FormField = JobRequestField | SubmitterField | AssignedField | PriorityField | DueDateField | EstValueField

  /** The initial and the reset form: empty texts, priority 'Medium'. */
  const EmptyForm: NewActionData := NewActionData("", "", "", "Medium", "", "")

  /** `{ ...prev, [field]: value }` */
  function SetField(data: NewActionData, field: FormField, value: string): (r: NewActionData)
    ensures field == JobRequestField ==> r == data.(jobRequest := value)
    ensures field == SubmitterField ==> r == data.(submitter := value)
    ensures field == AssignedField ==> r == data.(assignedTo := value)
    ensures field == PriorityField ==> r == data.(priority := value)
    ensures field == DueDateField ==> r == data.(dueDate := value)
    ensures field == EstValueField ==> r == data.(estValue := value)
  {
    match field
    case JobRequestField => data.(jobRequest := value)
    case SubmitterField => data.(submitter := value)
    case AssignedField => data.(assignedTo := value)
    case PriorityField => data.(priority := value)
    case DueDateField => data.(dueDate := value)
    case EstValueField => data.(estValue := value)
  }

  /** The submit guard: job request and submitter are not blank, that is,
      each holds a character that is not white space. */
  predicate CanSubmit(data: NewActionData): (r: bool)
    ensures r <==> (exists i :: 0 <= i < |data.jobRequest| && !IsWhitespace(data.jobRequest[i]))
                   && (exists i :: 0 <= i < |data.submitter| && !IsWhitespace(data.submitter[i]))
  {
    Trim(data.jobRequest) != "" && Trim(data.submitter) != ""
  }

  /** The reset form cannot be submitted until both required fields are
      filled in. */
  lemma EmptyFormBlocked()
    ensures !CanSubmit(EmptyForm)
  {
  }

  /** A form filled by typing a job request and a submitter that are not
      blank can be submitted, whatever else was typed. */
  lemma FilledFormSubmits(data: NewActionData, jobRequest: string, submitter: string)
    requires Trim(jobRequest) != "" && Trim(submitter) != ""
    ensures CanSubmit(SetField(SetField(data, JobRequestField, jobRequest), SubmitterField, submitter))
  {
  }

  class NewActionForm {
    var formData: NewActionData
    var isOpen: bool

    /** The priority is one the select offers: 'Low', 'Medium' or 'High'. */
    predicate Valid()
      reads this
    {
      IsPriority(formData.priority)
    }

    /** Mounted with the page, closed, on the empty form. */
    constructor ()
      ensures formData == EmptyForm && !isOpen && Valid()
    {
      formData := EmptyForm;
      isOpen := false;
    }

    /** The parent shows the dialog; the form is as it was left. */
    method Open()
      modifies this
      ensures isOpen && formData == old(formData)
    {
      isOpen := true;
    }

    /** The close and cancel buttons: `onClose` without resetting the form. */
    method Close()
      modifies this
      ensures !isOpen && formData == old(formData)
    {
      isOpen := false;
    }

    /** `handleChange`, called by the inputs; the priority comes from its
        select, whose options are the three priorities. */
    method HandleChange(field: FormField, value: string)
      requires Valid()
      requires field == PriorityField ==> IsPriority(value)
      modifies this
      ensures Valid()
      ensures formData == SetField(old(formData), field, value)
      ensures isOpen == old(isOpen)
    {
      formData := SetField(formData, field, value);
    }

    /** `handleSubmit`: when the guard holds, the form as typed (not trimmed)
        is submitted, the form is reset and the dialog closes; otherwise
        nothing changes. */
    method HandleSubmit() returns (submitted: Option<NewActionData>)
      requires Valid()
      modifies this
      ensures Valid()
      ensures submitted.Some? ==> IsPriority(submitted.value.priority)
      ensures CanSubmit(old(formData)) ==>
        submitted == Some(old(formData)) && formData == EmptyForm && !isOpen
      ensures !CanSubmit(old(formData)) ==>
        submitted == None && formData == old(formData) && isOpen == old(isOpen)
    {
      if Trim(formData.jobRequest) != "" && Trim(formData.submitter) != "" {
        submitted := Some(formData);
        formData := EmptyForm;
        isOpen := false;
      } else {
        submitted := None;
      }
    }
  }
}
