/** The roster component's state and its event handlers. Each handler is one atomic step;
    the ghost field `stored` stands for the browser's "students" storage slot, which the
    component rewrites whenever the list changes. */
module StudentApp {
  import opened Records
  import opened AgeInput
  import opened Roster
  import opened Form

  class App {
    var students: seq<Student>
    var formData: Draft
    var isEditing: bool
    /** The record waiting for delete confirmation; `None` when the dialog is closed. */
    var deleteConfirmOpen: Option<string>
    ghost var stored: seq<Student>

    /** The draft carries an id exactly while the form edits; the storage slot mirrors the list. */
    ghost predicate Valid()
      reads this
    {
      && (isEditing <==> formData.id.Some?)
      && stored == students
    }

    /** The component once the saved list has been read back from storage. */
    constructor (saved: seq<Student>)
      ensures Valid()
      ensures students == saved && formData == EmptyDraft()
      ensures !isEditing && deleteConfirmOpen == None
    {
      students := saved;
      formData := EmptyDraft();
      isEditing := false;
      deleteConfirmOpen := None;
      stored := saved;
    }

    /** An input reports new text: only the draft changes, and only the named field. */
    method HandleChange(field: Field, value: string)
      requires Valid()
      modifies this
      ensures Valid()
      ensures formData == SetField(old(formData), field, value)
      ensures students == old(students) && isEditing == old(isEditing)
      ensures deleteConfirmOpen == old(deleteConfirmOpen)
    {
      formData := SetField(formData, field, value);
    }

    /** The form is submitted; `freshId` is the text of the current time in milliseconds,
        which the create branch uses as the new record's id. */
    method HandleSubmit(freshId: string)
      requires Valid()
      modifies this
      ensures Valid()
      ensures students == Submit(old(students), old(formData), old(isEditing), freshId)
      ensures formData == EmptyDraft() && !isEditing
      ensures deleteConfirmOpen == old(deleteConfirmOpen)
    {
      if isEditing && Truthy(formData.id) {
        students := UpdateMatching(students, formData.id.value, formData);
      } else {
        students := students + [NewStudent(freshId, formData)];
      }
      stored := students;
      formData := EmptyDraft();
      isEditing := false;
    }

    /** The edit button of record `id`: the first record with that id is loaded into the draft
        and the form switches to editing; with no such record nothing changes. */
    method HandleEdit(id: string)
      requires Valid()
      modifies this
      ensures Valid()
      ensures students == old(students) && deleteConfirmOpen == old(deleteConfirmOpen)
      ensures match FindById(old(students), id)
        case Some(st) => formData == LoadDraft(st) && isEditing
        case None => formData == old(formData) && isEditing == old(isEditing)
    {
      var found := FindById(students, id);
      if found.Some? {
        formData := LoadDraft(found.value);
        isEditing := true;
      }
    }

    /** Every record with id `id` is removed and the confirmation dialog closes. */
    method HandleDelete(id: string)
      requires Valid()
      modifies this
      ensures Valid()
      ensures students == RemoveById(old(students), id) && deleteConfirmOpen == None
      ensures formData == old(formData) && isEditing == old(isEditing)
    {
      students := RemoveById(students, id);
      stored := students;
      deleteConfirmOpen := None;
    }

    /** The delete button of record `id`: only opens the confirmation for that id, replacing
        any confirmation already pending. */
    method RequestDelete(id: string)
      requires Valid()
      modifies this
      ensures Valid()
      ensures deleteConfirmOpen == Some(id)
      ensures students == old(students) && formData == old(formData) && isEditing == old(isEditing)
    {
      deleteConfirmOpen := Some(id);
    }

    /** The dialog's Cancel button, or the dialog closing: nothing is deleted. */
    method CancelDelete()
      requires Valid()
      modifies this
      ensures Valid()
      ensures deleteConfirmOpen == None
      ensures students == old(students) && formData == old(formData) && isEditing == old(isEditing)
    {
      deleteConfirmOpen := None;
    }

    /** The dialog's Delete button: deletes the pending id when it is truthy; with nothing
        pending, or with an empty id pending, it does nothing and the dialog stays as it is. */
    method ConfirmDelete()
      requires Valid()
      modifies this
      ensures Valid()
      ensures formData == old(formData) && isEditing == old(isEditing)
      ensures if Truthy(old(deleteConfirmOpen))
        then students == RemoveById(old(students), old(deleteConfirmOpen).value) && deleteConfirmOpen == None
        else students == old(students) && deleteConfirmOpen == old(deleteConfirmOpen)
    {
      if Truthy(deleteConfirmOpen) {
        HandleDelete(deleteConfirmOpen.value);
      }
    }
  }

  /** Clicking delete and then cancelling leaves every record in place. */
  method DeleteThenCancel(app: App, id: string)
    requires app.Valid()
    modifies app
    ensures app.Valid()
    ensures app.students == old(app.students) && app.deleteConfirmOpen == None
  {
    app.RequestDelete(id);
    app.CancelDelete();
  }

  /** Clicking delete on a non-empty id and then confirming removes exactly the records with
      that id, keeps the rest in order, and closes the dialog. */
  method DeleteThenConfirm(app: App, id: string)
    requires app.Valid() && id != ""
    modifies app
    ensures app.Valid()
    ensures app.students == RemoveById(old(app.students), id) && app.deleteConfirmOpen == None
    ensures IsSubsequence(app.students, old(app.students))
    ensures !HasId(app.students, id)
  {
    app.RequestDelete(id);
    app.ConfirmDelete();
    RemoveByIdKeepsOrder(old(app.students), id);
  }

  /** A new record followed by a submit in create mode: the list grows by one record at the end
      and the storage slot holds the same list. */
  method CreateRecord(app: App, name: string, age: string, email: string, freshId: string)
    requires app.Valid() && !app.isEditing
    modifies app
    ensures app.Valid() && app.stored == app.students
    ensures app.students == old(app.students) + [Student(freshId, name, CoerceAge(age), Some(email))]
  {
    app.HandleChange(Name, name);
    app.HandleChange(Age, age);
    app.HandleChange(Email, email);
    app.HandleSubmit(freshId);
  }
}
