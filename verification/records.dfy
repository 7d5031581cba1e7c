/**
 The records the student manager keeps: students, the login accounts
 linked to them, and the operator-defined extra fields. A missing
 optional attribute is the empty string here: every place the component
 reads such an attribute goes through `||` or a truthiness test, which
 treat a missing value and "" alike. The form being edited is a partial
 student and is represented by the same `Student` type, with the empty id
 standing for "not yet admitted".
 */
module Records {

  datatype Option<T> = None | Some(value: T)

  datatype Student = Student(
    id: string,
    name: string,
    rollNo: string,
    className: string,
    medium: string,
    dob: string,
    placeOfBirth: string,
    address: string,
    phone: string,
    alternatePhone: string,
    customFields: map<string, string>)

  /** A login account; the only part the student manager looks at is the
      optional link to a student, compared with `!==`, so a missing link
      is kept apart from any id. */
  datatype User = User(
    id: string,
    username: string,
    password: string,
    name: string,
    role: string,
    linkedStudentId: Option<string>)

  /** `label` is a Dafny keyword, hence `caption` for the label text. */
  datatype FieldDef = FieldDef(id: string, caption: string)

  /** The three collections the component reads and replaces. */
  datatype Store = Store(students: seq<Student>, users: seq<User>, fieldDefs: seq<FieldDef>)

  /** No two students share an id. */
  predicate UniqueIds(xs: seq<Student>) {
    forall i, j :: 0 <= i < j < |xs| ==> xs[i].id != xs[j].id
  }

  /** No two field definitions share an id. */
  predicate UniqueDefIds(ds: seq<FieldDef>) {
    forall i, j :: 0 <= i < j < |ds| ==> ds[i].id != ds[j].id
  }

  predicate HasStudentId(xs: seq<Student>, id: string) {
    exists i :: 0 <= i < |xs| && xs[i].id == id
  }

  /** What `crypto.randomUUID()` is trusted to deliver: a non-empty id
      that no student has yet. */
  predicate FreshFor(id: string, xs: seq<Student>) {
    id != "" && !HasStudentId(xs, id)
  }
}
