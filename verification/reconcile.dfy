/**
 The three handlers that change the stored collections: saving the
 admission form (update by id, or append a new student), deleting a
 student together with the accounts linked to it, and adding a custom
 field definition. Each takes the current store and returns the next one.
 Fresh ids come from `crypto.randomUUID()`, which is a parameter here.
 */
module Reconcile {
  import opened Text
  import opened Seqs
  import opened Records
  import opened Validation

  /** JavaScript's `s || d` on strings: `d` when `s` is empty. */
  function OrElse(s: string, d: string): string {
    if s != "" then s else d
  }

  /** A record as a save leaves it: it has an id, its name carries no
      surrounding whitespace, and class and medium are filled in. */
  predicate Normalised(s: Student) {
    s.id != "" && Trim(s.name) == s.name && s.className != "" && s.medium != ""
  }

  /** The student `handleAddStudent` builds from the form: the form's id
      or else the fresh one, the trimmed name, "Class 1" and "English" for
      a missing class and medium, and every other field as entered. */
  function BuildRecord(form: Student, freshId: string): (r: Student)
    ensures r.id == (if form.id != "" then form.id else freshId)
    ensures r.name == Trim(form.name)
    ensures r.className == (if form.className != "" then form.className else "Class 1")
    ensures r.medium == (if form.medium != "" then form.medium else "English")
    ensures r.rollNo == form.rollNo && r.dob == form.dob && r.placeOfBirth == form.placeOfBirth
    ensures r.address == form.address && r.phone == form.phone
    ensures r.alternatePhone == form.alternatePhone && r.customFields == form.customFields
    ensures r.id != "" ==> Normalised(r)
    ensures Normalised(form) ==> r == form
  {
    TrimIdempotent(form.name);
    Student(
      id := OrElse(form.id, freshId),
      name := Trim(form.name),
      rollNo := form.rollNo,
      className := OrElse(form.className, "Class 1"),
      medium := OrElse(form.medium, "English"),
      dob := form.dob,
      placeOfBirth := form.placeOfBirth,
      address := form.address,
      phone := form.phone,
      alternatePhone := form.alternatePhone,
      customFields := form.customFields)
  }

  /** `xs.map(s => s.id === id ? rec : s)`. */
  function ReplaceById(xs: seq<Student>, id: string, rec: Student): (r: seq<Student>)
    ensures |r| == |xs|
    ensures forall i :: 0 <= i < |xs| ==> r[i] == if xs[i].id == id then rec else xs[i]
    decreases |xs|
  {
    if |xs| == 0 then []
    else [if xs[0].id == id then rec else xs[0]] + ReplaceById(xs[1..], id, rec)
  }

  /** `handleAddStudent`. An invalid form changes nothing. A form with an
      id replaces, in place, every student carrying that id by the built
      record and keeps all others where they were. A form without an id
      appends one new student carrying the fresh id. Accounts and field
      definitions are never touched. */
  function Save(st: Store, form: Student, freshId: string): (r: Store)
    requires form.id == "" ==> FreshFor(freshId, st.students)
    ensures r.users == st.users && r.fieldDefs == st.fieldDefs
    ensures !Validate(form).valid ==> r == st
    ensures Validate(form).valid && form.id != "" ==>
              |r.students| == |st.students|
              && forall i :: 0 <= i < |st.students| ==>
                   r.students[i] == if st.students[i].id == form.id then BuildRecord(form, freshId) else st.students[i]
    ensures Validate(form).valid && form.id == "" ==>
              |r.students| == |st.students| + 1
              && r.students[..|st.students|] == st.students
              && r.students[|st.students|] == BuildRecord(form, freshId)
              && r.students[|st.students|].id == freshId
              && !HasStudentId(st.students, r.students[|st.students|].id)
  {
    if !Validate(form).valid then st
    else
      var rec := BuildRecord(form, freshId);
      if form.id != "" then st.(students := ReplaceById(st.students, form.id, rec))
      else
        var r := st.(students := st.students + [rec]);
        assert r.students[..|st.students|] == st.students;
        r
  }

  /** An update never changes which ids are stored, or where. */
  lemma SaveUpdateKeepsIds(st: Store, form: Student, freshId: string)
    requires form.id != ""
    ensures |Save(st, form, freshId).students| == |st.students|
    ensures forall i :: 0 <= i < |st.students| ==> Save(st, form, freshId).students[i].id == st.students[i].id
  {
    var r := Save(st, form, freshId);
    if Validate(form).valid {
      var rec := BuildRecord(form, freshId);
      assert rec.id == form.id;
      forall i | 0 <= i < |st.students|
        ensures r.students[i].id == st.students[i].id
      {
        assert r.students[i] == if st.students[i].id == form.id then rec else st.students[i];
      }
    }
  }

  /** Saving keeps student ids unique, given that the fresh id is new. */
  lemma SavePreservesUniqueIds(st: Store, form: Student, freshId: string)
    requires form.id == "" ==> FreshFor(freshId, st.students)
    requires UniqueIds(st.students)
    ensures UniqueIds(Save(st, form, freshId).students)
  {
    var r := Save(st, form, freshId);
    if Validate(form).valid && form.id == "" {
      forall i, j | 0 <= i < j < |r.students|
        ensures r.students[i].id != r.students[j].id
      {
        if j == |st.students| {
          assert r.students[i] == st.students[i];
        } else {
          assert r.students[i] == st.students[i] && r.students[j] == st.students[j];
        }
      }
    }
  }

  /** A form whose id no stored student carries changes nothing: the
      update path never falls back to appending. */
  lemma SaveUnknownIdIsNoOp(st: Store, form: Student, freshId: string)
    requires form.id != "" && !HasStudentId(st.students, form.id)
    ensures Save(st, form, freshId) == st
  {
    var r := Save(st, form, freshId);
    if Validate(form).valid {
      assert r.students == st.students;
    }
  }

  /** Opening a stored, normalised, valid student for editing and saving
      it without changes leaves the store as it was. */
  lemma ResaveUnchanged(st: Store, k: int, freshId: string)
    requires UniqueIds(st.students)
    requires 0 <= k < |st.students|
    requires Normalised(st.students[k]) && Acceptable(st.students[k])
    ensures Save(st, st.students[k], freshId) == st
  {
    var s := st.students[k];
    var r := Save(st, s, freshId);
    assert forall i :: 0 <= i < |st.students| ==> r.students[i] == st.students[i];
    assert r.students == st.students;
  }

  /** Saving the same edit twice is the same as saving it once. */
  lemma SaveUpdateIdempotent(st: Store, form: Student, freshId: string)
    requires form.id != ""
    ensures Save(Save(st, form, freshId), form, freshId) == Save(st, form, freshId)
  {
    var once := Save(st, form, freshId);
    var twice := Save(once, form, freshId);
    if Validate(form).valid {
      assert forall i :: 0 <= i < |once.students| ==> twice.students[i] == once.students[i];
      assert twice.students == once.students;
    }
  }

  /** Among the characters a name may use, the only whitespace is ' '. */
  lemma NameCharSpace(c: char)
    requires IsNameChar(c)
    ensures IsSpace(c) <==> c == ' '
  {
  }

  /** Trimming only removes characters, so a name of permitted characters
      stays one. */
  lemma TrimKeepsNameChars(name: string)
    requires forall i :: 0 <= i < |name| ==> IsNameChar(name[i])
    ensures forall i :: 0 <= i < |Trim(name)| ==> IsNameChar(Trim(name)[i])
  {
    var k := LeadingSpace(name);
    var t := Trim(name);
    forall i | 0 <= i < |t|
      ensures IsNameChar(t[i])
    {
      assert t[i] == name[k + i];
    }
  }

  /** Trimming a name made of permitted characters leaves a name that
      passes the name rule exactly when it had a character other than a
      space. */
  lemma TrimmedNameOk(name: string)
    requires forall i :: 0 <= i < |name| ==> IsNameChar(name[i])
    ensures NameOk(Trim(name)) <==> exists i :: 0 <= i < |name| && name[i] != ' '
  {
    TrimKeepsNameChars(name);
    assert NameOk(Trim(name)) <==> Trim(name) != [];
    TrimBlankIffAllSpace(name);
    NameSpacesAreBlanks(name);
  }

  /** Among the permitted name characters the space is the only
      whitespace. */
  lemma NameSpacesAreBlanks(name: string)
    requires forall i :: 0 <= i < |name| ==> IsNameChar(name[i])
    ensures AllSpace(name) <==> forall i :: 0 <= i < |name| ==> name[i] == ' '
  {
    forall i | 0 <= i < |name|
      ensures IsSpace(name[i]) <==> name[i] == ' '
    {
      NameCharSpace(name[i]);
    }
  }

  /** The name rule is checked on the name as typed, but the trimmed name
      is stored. So a valid form yields a stored record that passes the
      same check again exactly when its name has a character other than a
      space: a name of spaces alone is accepted and stored as "". */
  lemma SavedRecordRevalidates(form: Student, freshId: string)
    requires Validate(form).valid
    ensures Acceptable(BuildRecord(form, freshId))
            <==> exists i :: 0 <= i < |form.name| && form.name[i] != ' '
  {
    var rec := BuildRecord(form, freshId);
    assert Holds(NameRule, form);
    TrimmedNameOk(form.name);
    assert Holds(PhoneRule, form) && Holds(RollRule, form) && Holds(ClassRule, form);
    assert Holds(PhoneRule, rec) && Holds(RollRule, rec) && Holds(ClassRule, rec);
    assert Acceptable(rec) <==> Holds(NameRule, rec);
  }

  /** A name of one space passes the check and is stored as the empty
      name, whatever the rest of an otherwise valid form holds. */
  lemma BlankNameIsStoredEmpty(form: Student, freshId: string)
    requires form.name == " "
    requires PhoneOk(form.phone) && RollOk(form.rollNo) && ClassOk(form.className)
    ensures Validate(form).valid
    ensures BuildRecord(form, freshId).name == ""
  {
    SpaceName(form.name);
    VerdictOnNameAndRoll(form);
  }

  lemma SpaceName(name: string)
    requires name == " "
    ensures NameOk(name) && Trim(name) == ""
  {
    assert IsNameChar(name[0]) && IsSpace(name[0]);
  }

  /** Keeps the students whose id is not `id`. */
  function OtherStudent(id: string): Student -> bool {
    (s: Student) => s.id != id
  }

  /** Keeps the accounts not linked to `id`; an account without a link is
      always kept. */
  function NotLinkedTo(id: string): User -> bool {
    (u: User) => u.linkedStudentId != Some(id)
  }

  /** `deleteStudent` once confirmed: removes exactly the students with
      that id and exactly the accounts linked to it, keeps every other
      student and account, in order, and leaves field definitions (and so
      the custom-field values stored in other students) alone. */
  function Delete(st: Store, id: string): (r: Store)
    ensures r.fieldDefs == st.fieldDefs
    ensures forall s :: s in r.students ==> s.id != id
    ensures forall s :: s in st.students && s.id != id ==> multiset(r.students)[s] == multiset(st.students)[s]
    ensures multiset(r.students) <= multiset(st.students)
    ensures IsSubsequence(r.students, st.students)
    ensures forall u :: u in r.users ==> u.linkedStudentId != Some(id)
    ensures forall u :: u in st.users && u.linkedStudentId != Some(id) ==> multiset(r.users)[u] == multiset(st.users)[u]
    ensures multiset(r.users) <= multiset(st.users)
    ensures IsSubsequence(r.users, st.users)
  {
    FilterCounts(st.students, OtherStudent(id));
    FilterOrder(st.students, OtherStudent(id));
    FilterCounts(st.users, NotLinkedTo(id));
    FilterOrder(st.users, NotLinkedTo(id));
    Store(Filter(st.students, OtherStudent(id)), Filter(st.users, NotLinkedTo(id)), st.fieldDefs)
  }

  /** Deleting the same id twice is deleting it once. */
  lemma DeleteIdempotent(st: Store, id: string)
    ensures Delete(Delete(st, id), id) == Delete(st, id)
  {
    FilterIdempotent(st.students, OtherStudent(id));
    FilterIdempotent(st.users, NotLinkedTo(id));
  }

  /** Deleting an id that no student has and no account links to changes
      nothing. */
  lemma DeleteAbsentIsNoOp(st: Store, id: string)
    requires !HasStudentId(st.students, id)
    requires forall i :: 0 <= i < |st.users| ==> st.users[i].linkedStudentId != Some(id)
    ensures Delete(st, id) == st
  {
    FilterAll(st.students, OtherStudent(id));
    FilterAll(st.users, NotLinkedTo(id));
  }

  lemma {:induction false} FilterKeepsUniqueIds(xs: seq<Student>, p: Student -> bool)
    requires UniqueIds(xs)
    ensures UniqueIds(Filter(xs, p))
    decreases |xs|
  {
    if |xs| > 0 {
      var rest := Filter(xs[1..], p);
      FilterKeepsUniqueIds(xs[1..], p);
      FilterCounts(xs[1..], p);
      if p(xs[0]) {
        var r := [xs[0]] + rest;
        forall j | 0 <= j < |rest|
          ensures rest[j].id != xs[0].id
        {
          assert rest[j] in multiset(xs[1..]);
          var k :| 0 <= k < |xs[1..]| && xs[1..][k] == rest[j];
          assert xs[k + 1] == rest[j];
        }
        forall i, j | 0 <= i < j < |r|
          ensures r[i].id != r[j].id
        {
          assert r[j] == rest[j - 1];
          if i > 0 {
            assert r[i] == rest[i - 1];
          }
        }
      }
    }
  }

  /** Deleting keeps student ids unique. */
  lemma DeletePreservesUniqueIds(st: Store, id: string)
    requires UniqueIds(st.students)
    ensures UniqueIds(Delete(st, id).students)
  {
    FilterKeepsUniqueIds(st.students, OtherStudent(id));
  }

  /** `handleAddFieldDef`: a label that trims to nothing changes nothing;
      any other label appends one definition with the fresh id and the
      trimmed label, behind the existing ones. Students, and so their
      custom-field values, and accounts are never touched. */
  function AddFieldDef(st: Store, labelText: string, freshId: string): (r: Store)
    ensures r.students == st.students && r.users == st.users
    ensures r == st <==> AllSpace(labelText)
    ensures !AllSpace(labelText) ==>
              |r.fieldDefs| == |st.fieldDefs| + 1
              && r.fieldDefs[..|st.fieldDefs|] == st.fieldDefs
              && r.fieldDefs[|st.fieldDefs|] == FieldDef(freshId, Trim(labelText))
              && Trim(labelText) != ""
  {
    TrimBlankIffAllSpace(labelText);
    var caption := Trim(labelText);
    if caption == "" then st
    else
      var r := st.(fieldDefs := st.fieldDefs + [FieldDef(freshId, caption)]);
      assert r.fieldDefs[..|st.fieldDefs|] == st.fieldDefs;
      r
  }

  /** Adding a definition keeps definition ids unique. */
  lemma AddFieldDefPreservesUniqueIds(st: Store, labelText: string, freshId: string)
    requires freshId != ""
    requires forall i :: 0 <= i < |st.fieldDefs| ==> st.fieldDefs[i].id != freshId
    requires UniqueDefIds(st.fieldDefs)
    ensures UniqueDefIds(AddFieldDef(st, labelText, freshId).fieldDefs)
  {
    var r := AddFieldDef(st, labelText, freshId);
    if !AllSpace(labelText) {
      forall i, j | 0 <= i < j < |r.fieldDefs|
        ensures r.fieldDefs[i].id != r.fieldDefs[j].id
      {
        assert r.fieldDefs[i] == st.fieldDefs[i];
        if j < |st.fieldDefs| {
          assert r.fieldDefs[j] == st.fieldDefs[j];
        }
      }
    }
  }
}
