/** The row editor (src/components/modals/EditRowModal.tsx): a copy of the
    row being edited, a "has changes" flag, and save and close handlers.
    A call of `onSave` is returned as `Some(row)`, no call as `None`;
    `isOpen` stands for the parent's flag that `onClose` clears, and
    `confirmed` for the answer to the browser's confirmation prompt. */
module EditRowModal {
  import opened Wrappers
  import opened Spreadsheet

  /** The fields the form has inputs for: all but `id` and `submitted`. */
  predicate Editable(f: Field)
  {
    f != Id && f != Submitted
  }

  /** The row after a series of edits, each `(field, value)`: a field no
      edit names keeps its value. */
  function ApplyEdits(row: Row, edits: seq<(Field, string)>): (r: Row)
    ensures forall f :: (forall i :: 0 <= i < |edits| ==> edits[i].0 != f) ==> Get(r, f) == Get(row, f)
    decreases |edits|
  {
    if edits == [] then row
    else ApplyEdits(Set(row, edits[0].0, edits[0].1), edits[1..])
  }

  /** Edits made through the form never change the row's id or submitted
      date, so the saved row replaces the row it was opened for. */
  lemma {:induction false} EditsKeepIdentity(row: Row, edits: seq<(Field, string)>)
    requires forall i :: 0 <= i < |edits| ==> Editable(edits[i].0)
    ensures ApplyEdits(row, edits).id == row.id
    ensures ApplyEdits(row, edits).submitted == row.submitted
    decreases |edits|
  {
    if edits != [] {
      EditsKeepIdentity(Set(row, edits[0].0, edits[0].1), edits[1..]);
    }
  }

  /** The last edit of a field decides its value. */
  lemma {:induction false} LastEditWins(row: Row, edits: seq<(Field, string)>, f: Field, v: string)
    ensures Get(ApplyEdits(row, edits + [(f, v)]), f) == v
    decreases |edits|
  {
    if edits == [] {
      assert edits + [(f, v)] == [(f, v)];
    } else {
      assert (edits + [(f, v)])[1..] == edits[1..] + [(f, v)];
      LastEditWins(Set(row, edits[0].0, edits[0].1), edits[1..], f, v);
    }
  }

  class EditForm {
    var formData: Option<Row>
    var hasChanges: bool
    var isOpen: bool
    /** The `row` prop the form was last seeded from. */
    ghost var original: Option<Row>

    /** The form holds a row exactly when it was given one, with that row's
        id and submitted date. */
    ghost predicate Valid()
      reads this
    {
      && formData.Some? == original.Some?
      && (formData.Some? ==> formData.value.id == original.value.id
                             && formData.value.submitted == original.value.submitted)
    }

    /** The form starts with the row it was given and no changes. */
    constructor (row: Option<Row>, isOpen: bool)
      ensures formData == row && original == row && !hasChanges && this.isOpen == isOpen
      ensures Valid()
    {
      formData := row;
      original := row;
      hasChanges := false;
      this.isOpen := isOpen;
    }

    /** The effect run whenever the `row` prop changes. */
    method RowChanged(row: Option<Row>)
      modifies this
      ensures formData == row && original == row && !hasChanges && isOpen == old(isOpen)
      ensures Valid()
    {
      formData := row;
      original := row;
      hasChanges := false;
    }

    /** `handleChange`, called by the inputs, which exist for the editable
        fields only: without a row nothing happens; otherwise the field is
        set and the form is marked changed, even when the value is the same. */
    method HandleChange(field: Field, value: string)
      requires Valid() && Editable(field)
      modifies this
      ensures Valid() && original == old(original)
      ensures old(formData).None? ==> formData == None && hasChanges == old(hasChanges)
      ensures old(formData).Some? ==> formData == Some(Set(old(formData).value, field, value)) && hasChanges
      ensures isOpen == old(isOpen)
    {
      if formData.Some? {
        formData := Some(Set(formData.value, field, value));
        hasChanges := true;
      }
    }

    /** `handleSave`: a changed row is saved and the flag cleared; the dialog
        closes either way. */
    method HandleSave() returns (saved: Option<Row>)
      requires Valid()
      modifies this
      ensures saved.Some? ==> original.Some? && saved.value.id == original.value.id
                              && saved.value.submitted == original.value.submitted
      ensures Valid() && original == old(original)
      ensures saved == (if old(formData).Some? && old(hasChanges) then old(formData) else None)
      ensures !isOpen && formData == old(formData)
      ensures hasChanges == (old(hasChanges) && old(formData).None?)
    {
      if formData.Some? && hasChanges {
        saved := formData;
        hasChanges := false;
        isOpen := false;
      } else {
        saved := None;
        isOpen := false;
      }
    }

    /** `handleClose`: pending changes are discarded only when the user
        confirms; without pending changes the dialog closes at once. */
    method HandleClose(confirmed: bool)
      modifies this
      ensures original == old(original)
      ensures old(hasChanges) && !confirmed ==> hasChanges && isOpen == old(isOpen)
      ensures !(old(hasChanges) && !confirmed) ==> !hasChanges && !isOpen
      ensures formData == old(formData)
    {
      if hasChanges {
        if confirmed {
          hasChanges := false;
          isOpen := false;
        }
      } else {
        isOpen := false;
      }
    }
  }
}
