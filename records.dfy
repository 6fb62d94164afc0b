/** The values the roster component keeps in its state: stored records, the form's draft,
    and the names of the three form inputs. */
module Records {

  /** A value that may be missing: `None` stands for JavaScript's `undefined` or `null`. */
  datatype Option<+T> = None | Some(value: T)

  /** A stored student record. `id` is the lookup and merge key; nothing forces it to be unique.
      `email` is optional. */
  datatype Student = Student(id: string, name: string, age: int, email: Option<string>)

  /** The form's working copy of a record. It has the shape of a `Student`, but its `id` is
      missing until an existing record is loaded for editing. */
  datatype Draft = Draft(id: Option<string>, name: string, age: int, email: Option<string>)

  /** The `name` attributes of the three inputs that report changes to the form. */
  datatype Field = Name | Age | Email

  /** JavaScript truthiness of a string that may be missing: present and not empty. */
  predicate Truthy(s: Option<string>)
  {
    s.Some? && s.value != ""
  }
}
