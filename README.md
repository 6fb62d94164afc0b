# Student roster: a Dafny model

This project models the state machine behind the single-page student roster in `src/App.tsx`.
The component keeps four pieces of state:

- `students`: the ordered list of records `{id, name, age, email?}`.
- `formData`: the draft, whose `id` is present only while a record is being edited.
- `isEditing`: whether the form edits a record or creates one.
- `deleteConfirmOpen`: the id waiting for delete confirmation, or nothing.

It also has the handlers that change that state: `handleChange`, `handleSubmit`, `handleEdit`
and `handleDelete`, and the delete confirmation dialog in front of `handleDelete`. Each handler
is one atomic step. The list is also written to the browser's `"students"` storage slot after
every change.

Layout:

- `records.dfy` (module `Records`): the record, the draft, the input names, `Option` for
  `undefined`, and JavaScript truthiness of an optional string.
- `age_input.dfy` (module `AgeInput`): `parseInt(value, 10) || 0`. Leading white space and line
  terminators are dropped, then one optional sign and the longest run of decimal digits are read.
  This module also proves that a rendered integer reads back as itself.
- `roster.dfy` (module `Roster`): the pure list transformations used by the handlers. They are
  `map` with object spread (`UpdateMatching`), `find` (`FindById`) and `filter` (`RemoveById`),
  with lemmas on length, order, contents and unique ids.
- `form.dfy` (module `Form`): the draft operations and `Submit`, the list a submit produces. The
  lemmas cover the create and update branches and edit-then-submit scenarios.
- `app.dfy` (module `StudentApp`): class `App`, with the four state fields and a ghost `stored`
  field for the storage slot. Its methods are the handlers and the dialog transitions.
  `Valid()` is the invariant the handlers keep: the form is editing exactly when the draft has an id, and the
  storage slot equals the list.

Modelling choices, following the code:

- Ids are never assumed unique. The update merges into every record with the draft's id. The
  delete removes every record with the id. Uniqueness is proved to be preserved only under a
  stated condition: the create branch must be given an id that no record has.
- `formData.id` and `deleteConfirmOpen` are tested for truthiness. An id that is the empty
  string is therefore not an edit target: submitting appends a copy instead of updating. It is
  also not deletable through the dialog: confirm does nothing.
- Where a reader might expect otherwise, the code's behaviour is modelled:
  - Update and delete act on every matching record, not on one.
  - Editing needs a non-empty id, not just a present one.
- The new record's id (`Date.now().toString()`) is a parameter of `HandleSubmit`.

## Model

| member | source | states |
|---|---|---|
| AgeInput.ParseInt | src/App.tsx:71 | `parseInt(value, 10)` is NaN (`None`) exactly when the text, after its leading white space and one optional sign, does not start with a decimal digit ("-", " +x" and "a5" included) |
| AgeInput.CoerceAge | src/App.tsx:71 | parseInt with radix 10, with NaN replaced by 0: 0 for text that does not start with a number, the parsed integer otherwise |
| AgeInput.ParseIntLayout | src/App.tsx:71 | after leading white space and one optional sign, `parseInt` reads the maximal run of decimal digits, negated after '-', and ignores the text after it |
| AgeInput.ParseIntShow | src/App.tsx:71 | round trip: the decimal text of any integer parses back to that integer, and the age coercion stores it |
| AgeInput.NoDigitsCoerceToZero | src/App.tsx:71 | text with no decimal digit (such as "abc" or "") is NaN for `parseInt`; the age coercion stores 0 |
| Roster.Merge | src/App.tsx:80 | the object spread `{ ...student, ...formData }` of a matching record keeps the record's id |
| Roster.UpdateMatching | src/App.tsx:79-81 | the `map` returns a list of the same length as its input |
| Roster.UpdateMatchingSpec | src/App.tsx:79-81 | the merge keeps length, order and every id; each record whose id matches takes the draft's name, age and email; every other record is unchanged |
| Roster.UpdateMatchingAbsent | src/App.tsx:78-81 | merging under an id no record carries leaves the list unchanged |
| Roster.UpdateMatchingIdempotent | src/App.tsx:79-81 | merging the same draft twice equals merging it once |
| Roster.UpdateMatchingKeepsUniqueIds | src/App.tsx:79-81 | the merge keeps ids unique |
| Roster.FindById | src/App.tsx:98 | a record found by the lookup is in the list and carries the searched id |
| Roster.FindByIdFirst | src/App.tsx:98 | when records carry the id, the lookup returns the one with the smallest index |
| Roster.FindByIdNone | src/App.tsx:98-99 | the lookup finds nothing if and only if no record carries the id |
| Roster.RemoveById | src/App.tsx:106 | the list never grows; every survivor was in the list and does not carry the removed id |
| Roster.RemoveByIdCounts | src/App.tsx:106 | each record without the id keeps its multiplicity, records with the id are gone |
| Roster.RemoveByIdShrinks | src/App.tsx:106 | the removal strictly shortens the list if and only if some record carries the id |
| Roster.RemoveByIdKeepsOrder | src/App.tsx:106 | the survivors are a subsequence of the input: their relative order is kept |
| Roster.RemoveByIdAbsent | src/App.tsx:106 | removing an id no record carries leaves the list unchanged |
| Roster.RemoveByIdIdempotent | src/App.tsx:106 | removing the same id twice equals removing it once |
| Roster.RemoveByIdKeepsUniqueIds | src/App.tsx:106 | the removal keeps ids unique |
| Form.EmptyDraft | src/App.tsx:47-52 | the initial and reset draft `{id: undefined, name: "", age: 0, email: ""}` has no truthy id, so the next submit creates unless an edit is loaded |
| Form.LoadDraft | src/App.tsx:100 | the draft loaded from a record carries that record's id, and is an edit target exactly when the id is not empty |
| Form.NewStudent | src/App.tsx:84-89 | the created record carries the fresh id; loading it back gives the draft with that id |
| Form.Submit | src/App.tsx:77-90 | submit keeps the length in the update branch and adds one in the create branch; every existing record keeps its position and id |
| Form.SetField | src/App.tsx:67-73 | only the named draft field changes; the age takes the coerced integer, name and email the raw text; the id is never touched |
| Form.SubmitCreate | src/App.tsx:83-90 | outside editing with a truthy id, submit appends exactly one record at the end, with the fresh id and the draft's name, age and email; earlier records unchanged and in order |
| Form.SubmitUpdate | src/App.tsx:77-82 | editing with a truthy draft id, submit keeps length and order; matching records take the draft's name, age and email and keep their id; others unchanged |
| Form.SubmitUpdateAbsent | src/App.tsx:77-82 | editing under an id no record carries (deleted meanwhile) leaves the list unchanged and appends nothing |
| Form.SubmitKeepsUniqueIds | src/App.tsx:75-91 | submit keeps ids unique when the create branch gets an id not already in the list |
| Form.EditThenSubmitUnchanged | src/App.tsx:75-103 | with unique ids, loading a record with a non-empty id and submitting the draft unchanged leaves the list unchanged |
| Form.EditAgeThenSubmit | src/App.tsx:67-103 | with unique ids, loading a record, typing the decimal text of any integer n (negative ones included) as age and submitting changes that record's age to n and nothing else |
| Form.NonNumericAgeStoresZero | src/App.tsx:71-90 | age text with no digit, then a create submit, stores age 0 |
| Form.EditEmptyIdAppendsCopy | src/App.tsx:77-90 | a record whose id is "" is not a truthy edit target: edit then submit appends a copy under the fresh id |
| Form.EditWithRepeatedIdOverwritesLater | src/App.tsx:77-101 | when records i < j share a non-empty id and i is its first occurrence, edit then submit leaves record i as it was and gives record j the name, age and email of record i |
| StudentApp.App.constructor | src/App.tsx:46-64 | after the saved list is read back: list equals it, the draft is empty, not editing, no pending delete, storage mirrors the list |
| StudentApp.App.HandleChange | src/App.tsx:67-73 | only the draft changes, as `SetField` says; list, mode and pending delete are unchanged; the invariant is kept |
| StudentApp.App.HandleSubmit | src/App.tsx:75-95 | the list becomes `Submit` of the old state and the fresh id; the draft is reset to the empty draft; editing is cleared |
| StudentApp.App.HandleEdit | src/App.tsx:97-103 | if a record has the id, the draft becomes the first such record and editing is set; otherwise nothing changes; the list never changes |
| StudentApp.App.HandleDelete | src/App.tsx:105-108 | the list becomes the old list without the id's records; the pending delete is cleared; the draft and mode are unchanged |
| StudentApp.App.RequestDelete | src/App.tsx:208 | clicking delete only sets the pending id; the list is untouched |
| StudentApp.App.CancelDelete | src/App.tsx:221-230 | cancel or close clears the pending id; the list is untouched |
| StudentApp.App.ConfirmDelete | src/App.tsx:233 | confirm deletes the pending id's records and clears it when the pending id is truthy; otherwise nothing changes |
| StudentApp.DeleteThenCancel | src/App.tsx:204-230 | clicking delete and then cancelling leaves the list unchanged and closes the dialog |
| StudentApp.DeleteThenConfirm | src/App.tsx:204-236 | clicking delete on a non-empty id and confirming removes exactly that id's records, keeps the survivors in order, and closes the dialog |
| StudentApp.CreateRecord | src/App.tsx:67-95 | typing name, age and email and submitting in create mode appends one record with the coerced age; the storage slot holds the new list |

## Left out

- Reading the storage slot and `JSON.parse` (lines 57-60) are left out, because they are browser
  input/output and library code. The constructor receives the list as already parsed. Malformed
  stored text, which makes `JSON.parse` throw, is not modelled.
- The model does not use a malformed-means-empty rule. `JSON.parse` throws on malformed text
  (line 58), and loading is left out.
- `JSON.stringify` and the storage write (lines 62-64) are left out. They are modelled only as
  the ghost field `stored`, which is set to the list after every change.
- The serialization drops `email` keys whose value is `undefined`. So a record read back from
  storage may lack the key, and the merge `{...student, ...formData}` with a draft lacking the
  key would keep the stored record's email. The model has one `None` for both absent and
  `undefined`. It matches the code for every record created in the session.
- `Date.now()` is a clock. The fresh id is a parameter, and it is not claimed to be unique.
- Ages are unbounded integers. `parseInt` results above 2^53 lose precision as JavaScript
  numbers, and a long enough digit run gives `Infinity`. Neither effect is modelled.
- Strings are sequences of Unicode scalar values, not UTF-16 code units. None of the characters
  `parseInt` inspects lies outside the Basic Multilingual Plane.
- `handleChange` writes the field named by the event target. Only the three inputs `name`, `age`
  and `email` exist, so other names are not modelled.
- React's scheduling is left out. This covers batched state updates, functional updaters and the
  order of effects on mount: the first render writes `[]` to storage before the read-back list is
  set. `preventDefault` and event objects are left out too.
- Rendering, styling, icons, the dialog's chrome and the conditional display of the email
  (lines 30-42 and 110-241) are presentation, so they are left out.
