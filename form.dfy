/** The form's draft and what submitting it does to the list of records: the draft reset,
    the field update behind `handleChange`, the copy `handleEdit` makes of a record, and the
    two branches of `handleSubmit`, here as functions of the state they read. */
module Form {
  import opened Records
  import opened AgeInput
  import opened Roster

  /** The draft the form starts with and returns to after every submit: no id, so the next
      submit creates a record unless a record is loaded for editing first. */
  function EmptyDraft(): (d: Draft)
    ensures !Truthy(d.id)
  {
    Draft(None, "", 0, Some(""))
  }

  /** `handleChange`: the named input's field takes the new text; the age input stores
      `parseInt(value, 10) || 0` instead of the text. The draft's id is never touched. */
  function SetField(d: Draft, field: Field, value: string): (r: Draft)
    ensures r.id == d.id
    ensures r.name == if field == Name then value else d.name
    ensures r.age == if field == Age then CoerceAge(value) else d.age
    ensures r.email == if field == Email then Some(value) else d.email
  {
    match field
    case Name => d.(name := value)
    case Age => d.(age := CoerceAge(value))
    case Email => d.(email := Some(value))
  }

  /** `setFormData(student)`: the draft becomes the record, id included. It is an edit target
      exactly when the record's id is not empty. */
  function LoadDraft(st: Student): (d: Draft)
    ensures d.id == Some(st.id)
    ensures Truthy(d.id) <==> st.id != ""
  {
    Draft(Some(st.id), st.name, st.age, st.email)
  }

  /** The record the create branch builds from the draft and a fresh id. Loading it back into
      the form gives the draft again, now carrying the fresh id. */
  function NewStudent(freshId: string, d: Draft): (st: Student)
    ensures st.id == freshId
    ensures LoadDraft(st) == d.(id := Some(freshId))
  {
    Student(freshId, d.name, d.age, d.email)
  }

  /** The list after `handleSubmit`: a merge into every record with the draft's id when the form
      is editing and that id is truthy (present and not empty), otherwise an append. Either way
      every existing record keeps its place and its id. */
  function Submit(ss: seq<Student>, d: Draft, editing: bool, freshId: string): (r: seq<Student>)
    ensures |r| == if editing && Truthy(d.id) then |ss| else |ss| + 1
    ensures forall k :: 0 <= k < |ss| ==> r[k].id == ss[k].id
  {
    UpdateMatchingSpec(ss, if d.id.Some? then d.id.value else "", d);
    if editing && Truthy(d.id) then UpdateMatching(ss, d.id.value, d)
    else ss + [NewStudent(freshId, d)]
  }

  /** Create branch: exactly one record is appended at the end, carrying the fresh id and the
      draft's name, age and email; the records before it are the old ones, in order. */
  lemma SubmitCreate(ss: seq<Student>, d: Draft, editing: bool, freshId: string)
    requires !(editing && Truthy(d.id))
    ensures |Submit(ss, d, editing, freshId)| == |ss| + 1
    ensures Submit(ss, d, editing, freshId)[..|ss|] == ss
    ensures Submit(ss, d, editing, freshId)[|ss|] == Student(freshId, d.name, d.age, d.email)
  {
  }

  /** Update branch: length, order and ids are kept; every record whose id equals the draft's
      takes the draft's name, age and email; every other record is unchanged. */
  lemma SubmitUpdate(ss: seq<Student>, d: Draft, freshId: string)
    requires Truthy(d.id)
    ensures |Submit(ss, d, true, freshId)| == |ss|
    ensures forall k :: 0 <= k < |ss| ==>
      Submit(ss, d, true, freshId)[k] ==
        if ss[k].id == d.id.value then Student(ss[k].id, d.name, d.age, d.email) else ss[k]
  {
    UpdateMatchingSpec(ss, d.id.value, d);
  }

  /** Update branch with an id that no record carries (the record was deleted while it was being
      edited): the list is unchanged and nothing is appended. */
  lemma SubmitUpdateAbsent(ss: seq<Student>, d: Draft, freshId: string)
    requires Truthy(d.id) && !HasId(ss, d.id.value)
    ensures Submit(ss, d, true, freshId) == ss
  {
    UpdateMatchingAbsent(ss, d.id.value, d);
  }

  /** Submitting keeps ids unique, provided the create branch is given an id no record has. */
  lemma SubmitKeepsUniqueIds(ss: seq<Student>, d: Draft, editing: bool, freshId: string)
    requires UniqueIds(ss)
    requires !(editing && Truthy(d.id)) ==> !HasId(ss, freshId)
    ensures UniqueIds(Submit(ss, d, editing, freshId))
  {
  }

  /** Loading a record for editing and submitting the draft unchanged leaves the list as it was,
      when ids are unique and the record's id is not empty. */
  lemma EditThenSubmitUnchanged(ss: seq<Student>, id: string, freshId: string)
    requires UniqueIds(ss) && id != "" && FindById(ss, id).Some?
    ensures Submit(ss, LoadDraft(FindById(ss, id).value), true, freshId) == ss
  {
    var st := FindById(ss, id).value;
    var r := Submit(ss, LoadDraft(st), true, freshId);
    SubmitUpdate(ss, LoadDraft(st), freshId);
    var i :| 0 <= i < |ss| && ss[i] == st;
    assert forall k :: 0 <= k < |ss| && ss[k].id == id ==> k == i;
  }

  /** Editing only the age: loading a record, typing the decimal text of `n` into the age input
      and submitting sets that age on the record and keeps its id, name and email; the other
      records are unchanged. */
  lemma EditAgeThenSubmit(ss: seq<Student>, id: string, n: int, freshId: string)
    requires UniqueIds(ss) && id != "" && FindById(ss, id).Some?
    ensures var d := SetField(LoadDraft(FindById(ss, id).value), Age, ShowInt(n));
      && |Submit(ss, d, true, freshId)| == |ss|
      && forall k :: 0 <= k < |ss| ==>
           Submit(ss, d, true, freshId)[k] == if ss[k].id == id then ss[k].(age := n) else ss[k]
  {
    var st := FindById(ss, id).value;
    var d := SetField(LoadDraft(st), Age, ShowInt(n));
    ParseIntShow(n);
    assert d.age == n;
    SubmitUpdate(ss, d, freshId);
    var i :| 0 <= i < |ss| && ss[i] == st;
    assert forall k :: 0 <= k < |ss| && ss[k].id == id ==> k == i;
  }

  /** Age text without any digit, such as "abc", is stored as age 0 by the next create. */
  lemma NonNumericAgeStoresZero(ss: seq<Student>, d: Draft, value: string, editing: bool, freshId: string)
    requires forall i :: 0 <= i < |value| ==> !IsDigit(value[i])
    requires !(editing && Truthy(d.id))
    ensures Submit(ss, SetField(d, Age, value), editing, freshId)[|ss|].age == 0
  {
  }

  /** A record whose id is the empty string is falsy as an edit target: loading it and
      submitting appends a copy under the fresh id instead of updating it. */
  lemma EditEmptyIdAppendsCopy(ss: seq<Student>, st: Student, freshId: string)
    requires st.id == ""
    ensures Submit(ss, LoadDraft(st), true, freshId) == ss + [st.(id := freshId)]
  {
  }

  /** With a repeated id, the edit button loads the first record with that id, and submitting it
      unchanged copies its name, age and email onto every later record sharing the id; the first
      record itself stays as it was. */
  lemma EditWithRepeatedIdOverwritesLater(ss: seq<Student>, i: nat, j: nat, freshId: string)
    requires i < j < |ss| && ss[i].id == ss[j].id && ss[i].id != ""
    requires forall k :: 0 <= k < i ==> ss[k].id != ss[i].id
    ensures FindById(ss, ss[i].id) == Some(ss[i])
    ensures var r := Submit(ss, LoadDraft(ss[i]), true, freshId);
      && r[i] == ss[i]
      && r[j] == ss[j].(name := ss[i].name, age := ss[i].age, email := ss[i].email)
  {
    FindByIdFirst(ss, ss[i].id, i);
    SubmitUpdate(ss, LoadDraft(ss[i]), freshId);
  }
}
