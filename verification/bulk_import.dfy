/**
 The row handling of the spreadsheet import. Reading the file and
 decoding the sheet happen outside; what arrives here is the list of rows
 of the first sheet, each a map from column header to cell text. Every
 row is turned into a student (class label prefixed, medium mapped, phone
 reduced to its digits), rows with a name and a 10-digit phone are
 admitted, and the admitted ones are appended to the store in one step.
 Import does not run the form validation and fills no custom fields.
 */
module BulkImport {
  import opened Text
  import opened Seqs
  import opened Records
  import opened Validation
  import opened Reconcile

  /** One decoded row: column header to cell text. A blank cell is absent. */
  type Row = map<string, string>

  /** `String(row[key] || d)`: a missing cell and an empty one are both
      falsy, so either gives `d`; any other cell gives its own text. */
  function CellOr(row: Row, key: string, d: string): (r: string)
    ensures key in row && row[key] != "" ==> r == row[key]
    ensures key !in row || row[key] == "" ==> r == d
    ensures r == "" ==> d == ""
  {
    if key in row && row[key] != "" then row[key] else d
  }

  /** The grades whose labels do not start with "Class". */
  const NamedGrades: seq<string> := ["Nursery", "Jr. KG", "Sr. KG"]

  predicate IsClassLabel(s: string) {
    StartsWith(s, "Class") || s in NamedGrades
  }

  /** A class cell that neither starts with "Class" nor names one of the
      named grades gets "Class " in front; any other is kept as it is. */
  function NormaliseClass(cls: string): (r: string)
    ensures IsClassLabel(r)
    ensures r == cls <==> IsClassLabel(cls)
    ensures r != cls ==> r == "Class " + cls
  {
    if IsClassLabel(cls) then cls
    else
      assert ("Class " + cls)[..5] == "Class";
      "Class " + cls
  }

  /** Normalising a class label twice is normalising it once, so a label
      the import already produced is left alone. */
  lemma NormaliseClassIdempotent(cls: string)
    ensures NormaliseClass(NormaliseClass(cls)) == NormaliseClass(cls)
  {
  }

  /** How the rule treats a few typical cells, including a lower-case
      "class" prefix, which is not recognised. */
  lemma NormaliseClassExamples()
    ensures NormaliseClass("5") == "Class 5"
    ensures NormaliseClass("Class 5") == "Class 5"
    ensures NormaliseClass("Jr. KG") == "Jr. KG"
    ensures NormaliseClass("class 5") == "Class class 5"
  {
    assert !StartsWith("5", "Class");
    assert StartsWith("Class 5", "Class");
    assert !StartsWith("class 5", "Class") by {
      assert "class 5"[0] != "Class"[0];
    }
    assert "5" !in NamedGrades && "class 5" !in NamedGrades;
  }

  /** "Semi" when the lower-cased cell contains "semi", else "English". */
  function NormaliseMedium(cell: string): (r: string)
    ensures r == "Semi" || r == "English"
    ensures r == "Semi" <==> exists i :: OccursAt(Lower(cell), "semi", i)
  {
    if Contains(Lower(cell), "semi") then "Semi" else "English"
  }

  /** The two labels the import produces map to themselves. */
  lemma NormaliseMediumIdempotent(cell: string)
    ensures NormaliseMedium(NormaliseMedium(cell)) == NormaliseMedium(cell)
  {
    if NormaliseMedium(cell) == "Semi" {
      assert Lower("Semi") == "semi";
      assert OccursAt(Lower("Semi"), "semi", 0);
    } else {
      assert Lower("English") == "english";
      assert NormaliseMedium(cell) == "English";
      forall i | 0 <= i <= 3
        ensures !OccursAt("english", "semi", i)
      {
        assert "english"[i..i + 4][0] == "english"[i] != 's';
      }
    }
  }

  /** `s.replace(/\D/g, '')`: the digits of `s`, all of them, in order. */
  function DigitsOnly(s: string): (r: string)
    ensures forall i :: 0 <= i < |r| ==> IsDigit(r[i])
    ensures forall c :: c in s && IsDigit(c) ==> multiset(r)[c] == multiset(s)[c]
    ensures IsSubsequence(r, s)
  {
    FilterCounts(s, IsDigit);
    FilterOrder(s, IsDigit);
    Filter(s, IsDigit)
  }

  /** Nothing but characters of the cell is kept, none more often than it
      occurs there. */
  lemma DigitsOnlyWithinCell(s: string)
    ensures multiset(DigitsOnly(s)) <= multiset(s)
  {
    FilterCounts(s, IsDigit);
  }

  lemma DigitsOnlyIdempotent(s: string)
    ensures DigitsOnly(DigitsOnly(s)) == DigitsOnly(s)
  {
    FilterIdempotent(s, IsDigit);
  }

  /** The student one row becomes, with the id drawn for it: each field
      is taken from its own column, normalised as the contracts of
      `NormaliseClass`, `NormaliseMedium` and `DigitsOnly` describe. Place
      of birth and alternate phone are not read from the sheet. */
  function BuildImported(row: Row, id: string): (s: Student)
    ensures s.id == id
    ensures s.name == Trim(CellOr(row, "Full Name", ""))
    ensures s.rollNo == CellOr(row, "Roll No", "")
    ensures s.className == NormaliseClass(CellOr(row, "Class", "Class 1"))
    ensures s.medium == NormaliseMedium(CellOr(row, "Medium", ""))
    ensures s.dob == CellOr(row, "DOB", "")
    ensures s.address == CellOr(row, "Address", "")
    ensures s.phone == DigitsOnly(CellOr(row, "Phone", ""))
    ensures s.placeOfBirth == "" && s.alternatePhone == ""
    ensures IsClassLabel(s.className)
    ensures s.medium == "Semi" || s.medium == "English"
    ensures forall i :: 0 <= i < |s.phone| ==> IsDigit(s.phone[i])
    ensures s.name == Trim(s.name)
    ensures s.customFields == map[]
  {
    TrimIdempotent(CellOr(row, "Full Name", ""));
    Student(
      id := id,
      name := Trim(CellOr(row, "Full Name", "")),
      rollNo := CellOr(row, "Roll No", ""),
      className := NormaliseClass(CellOr(row, "Class", "Class 1")),
      medium := NormaliseMedium(CellOr(row, "Medium", "")),
      dob := CellOr(row, "DOB", ""),
      placeOfBirth := "",
      address := CellOr(row, "Address", ""),
      phone := DigitsOnly(CellOr(row, "Phone", "")),
      alternatePhone := "",
      customFields := map[])
  }

  /** A class label is never empty. */
  lemma ClassLabelNonEmpty(s: string)
    requires IsClassLabel(s)
    ensures s != ""
  {
    if s in NamedGrades {
      assert |NamedGrades[0]| > 0 && |NamedGrades[1]| > 0 && |NamedGrades[2]| > 0;
    }
  }

  /** What every built row satisfies regardless of admission: a filled-in
      class and medium, a trimmed name and a phone of digits only. */
  lemma BuiltRowNormalised(row: Row, id: string)
    ensures BuildImported(row, id).className != ""
    ensures id != "" ==> Normalised(BuildImported(row, id))
  {
    ClassLabelNonEmpty(BuildImported(row, id).className);
  }

  /** A row without a Class cell, or with an empty one, is placed in
      "Class 1". */
  lemma MissingClassIsClassOne(row: Row, id: string)
    requires "Class" !in row || row["Class"] == ""
    ensures BuildImported(row, id).className == "Class 1"
  {
    assert StartsWith("Class 1", "Class");
  }

  /** `s.name && s.phone.length === 10`. The length alone is checked, so
      it is the phone rule of the form check once the phone has been
      reduced to digits. */
  predicate Admitted(s: Student): (b: bool)
    ensures (forall i :: 0 <= i < |s.phone| ==> IsDigit(s.phone[i])) ==> (b <==> s.name != "" && PhoneOk(s.phone))
  {
    s.name != "" && |s.phone| == 10
  }

  /** The admission rule read directly off the row's cells. */
  predicate RowAdmissible(row: Row) {
    Trim(CellOr(row, "Full Name", "")) != "" && |DigitsOnly(CellOr(row, "Phone", ""))| == 10
  }

  /** Every row built, each with its own id, in row order. */
  function BuildAll(rows: seq<Row>, ids: seq<string>): (built: seq<Student>)
    requires |ids| == |rows|
    ensures |built| == |rows|
  {
    seq(|rows|, i requires 0 <= i < |rows| => BuildImported(rows[i], ids[i]))
  }

  /** A built row is admitted exactly when the row's cells say so. */
  lemma AdmittedIffRowAdmissible(row: Row, id: string)
    ensures Admitted(BuildImported(row, id)) <==> RowAdmissible(row)
  {
    AdmittedByCells(BuildImported(row, id), row);
  }

  lemma AdmittedByCells(s: Student, row: Row)
    requires s.name == Trim(CellOr(row, "Full Name", ""))
    requires s.phone == DigitsOnly(CellOr(row, "Phone", ""))
    ensures Admitted(s) <==> RowAdmissible(row)
  {
  }

  /** The admitted rows as students, in row order. */
  function Batch(rows: seq<Row>, ids: seq<string>): (b: seq<Student>)
    requires |ids| == |rows|
    ensures |b| <= |rows|
    ensures forall s :: s in b ==> Admitted(s)
    ensures IsSubsequence(b, BuildAll(rows, ids))
  {
    FilterOrder(BuildAll(rows, ids), Admitted);
    Filter(BuildAll(rows, ids), Admitted)
  }

  /** The batch holds exactly the built rows that pass the admission
      rule. */
  lemma BatchMembers(rows: seq<Row>, ids: seq<string>)
    requires |ids| == |rows|
    ensures forall s :: s in Batch(rows, ids) <==> s in BuildAll(rows, ids) && Admitted(s)
  {
    FilterMembers(BuildAll(rows, ids), Admitted);
  }

  /** Each row that passes the admission rule is in the batch. */
  lemma AdmissibleRowInBatch(rows: seq<Row>, ids: seq<string>, i: int)
    requires |ids| == |rows| && 0 <= i < |rows|
    requires RowAdmissible(rows[i])
    ensures BuildImported(rows[i], ids[i]) in Batch(rows, ids)
  {
    BatchMembers(rows, ids);
    AdmittedIffRowAdmissible(rows[i], ids[i]);
    assert BuildAll(rows, ids)[i] == BuildImported(rows[i], ids[i]);
  }

  /** The row handling of `handleBulkImport`: one id is drawn per row,
      admitted or not, and the store receives the admitted students behind
      the existing ones in a single append, or stays as it was when none
      is admitted. Accounts and field definitions are not touched. */
  function Import(st: Store, rows: seq<Row>, ids: seq<string>): (r: Store)
    requires |ids| == |rows|
    ensures r.users == st.users && r.fieldDefs == st.fieldDefs
    ensures |r.students| == |st.students| + |Batch(rows, ids)|
    ensures r.students[..|st.students|] == st.students
    ensures r.students[|st.students|..] == Batch(rows, ids)
    ensures Batch(rows, ids) == [] ==> r == st
  {
    var batch := Batch(rows, ids);
    if |batch| > 0 then
      var r := st.(students := st.students + batch);
      assert r.students[..|st.students|] == st.students;
      assert r.students[|st.students|..] == batch;
      r
    else
      st
  }

  predicate DistinctIds(ids: seq<string>) {
    forall i, j :: 0 <= i < j < |ids| ==> ids[i] != ids[j]
  }

  /** With distinct ids per row, a row's student is in the batch exactly
      when the row has a non-blank name and a phone with exactly ten
      digits once everything else is removed. */
  lemma RowAdmission(rows: seq<Row>, ids: seq<string>, i: int)
    requires |ids| == |rows| && DistinctIds(ids)
    requires 0 <= i < |rows|
    ensures (exists s :: s in Batch(rows, ids) && s.id == ids[i]) <==> RowAdmissible(rows[i])
  {
    if exists s :: s in Batch(rows, ids) && s.id == ids[i] {
      var s :| s in Batch(rows, ids) && s.id == ids[i];
      BatchIdAdmissible(rows, ids, s, i);
    }
    if RowAdmissible(rows[i]) {
      AdmissibleRowIdInBatch(rows, ids, i);
    }
  }

  lemma BatchIdAdmissible(rows: seq<Row>, ids: seq<string>, s: Student, i: int)
    requires |ids| == |rows| && DistinctIds(ids)
    requires 0 <= i < |rows|
    requires s in Batch(rows, ids) && s.id == ids[i]
    ensures RowAdmissible(rows[i])
  {
    var k := BatchRowAdmissible(rows, ids, s);
    DrawnIdsIdentifyRows(ids, k, i);
  }

  lemma DrawnIdsIdentifyRows(ids: seq<string>, k: int, i: int)
    requires DistinctIds(ids)
    requires 0 <= k < |ids| && 0 <= i < |ids| && ids[k] == ids[i]
    ensures k == i
  {
  }

  lemma BatchRowAdmissible(rows: seq<Row>, ids: seq<string>, s: Student) returns (k: int)
    requires |ids| == |rows|
    requires s in Batch(rows, ids)
    ensures 0 <= k < |rows| && s.id == ids[k] && RowAdmissible(rows[k])
  {
    k := BatchElement(rows, ids, s);
    AdmittedIffRowAdmissible(rows[k], ids[k]);
  }

  lemma AdmissibleRowIdInBatch(rows: seq<Row>, ids: seq<string>, i: int)
    requires |ids| == |rows| && 0 <= i < |rows|
    requires RowAdmissible(rows[i])
    ensures exists s :: s in Batch(rows, ids) && s.id == ids[i]
  {
    AdmissibleRowInBatch(rows, ids, i);
    assert BuildImported(rows[i], ids[i]).id == ids[i];
  }

  /** A student of the batch was built from the row at the same position
      as one of the ids and passed the admission test. */
  lemma BatchInBuilt(rows: seq<Row>, ids: seq<string>, s: Student)
    requires |ids| == |rows|
    requires s in Batch(rows, ids)
    ensures s in BuildAll(rows, ids) && Admitted(s)
  {
    BatchMembers(rows, ids);
  }

  lemma BuiltElement(rows: seq<Row>, ids: seq<string>, s: Student) returns (k: int)
    requires |ids| == |rows|
    requires s in BuildAll(rows, ids)
    ensures 0 <= k < |rows| && s == BuildImported(rows[k], ids[k])
  {
    var built := BuildAll(rows, ids);
    k :| 0 <= k < |built| && built[k] == s;
  }

  /** One imported student: it is the student some row became, with that
      row's id. */
  lemma BatchElement(rows: seq<Row>, ids: seq<string>, s: Student) returns (k: int)
    requires |ids| == |rows|
    requires s in Batch(rows, ids)
    ensures 0 <= k < |rows| && s == BuildImported(rows[k], ids[k]) && Admitted(s)
  {
    BatchInBuilt(rows, ids, s);
    k := BuiltElement(rows, ids, s);
  }

  /** Every imported student satisfies the phone and class rules of the
      form check. */
  lemma BatchPassesPhoneAndClassRules(rows: seq<Row>, ids: seq<string>, s: Student)
    requires |ids| == |rows|
    requires s in Batch(rows, ids)
    ensures PhoneOk(s.phone) && ClassOk(s.className)
  {
    var k := BatchElement(rows, ids, s);
    BuiltRowNormalised(rows[k], ids[k]);
  }

  /** Imported students are in the same normal form a save produces,
      provided the ids drawn are non-empty. */
  lemma BatchNormalised(rows: seq<Row>, ids: seq<string>, s: Student)
    requires |ids| == |rows|
    requires forall i :: 0 <= i < |ids| ==> ids[i] != ""
    requires s in Batch(rows, ids)
    ensures Normalised(s)
  {
    var k := BatchElement(rows, ids, s);
    BuiltRowNormalised(rows[k], ids[k]);
  }

  /** The form check is not applied on import: the student of an
      admitted row always meets the phone and class rules, and passes the
      form check only if the trimmed name uses the name characters and a
      roll number was given; it is imported either way (see
      `AdmittedIffRowAdmissible`). */
  lemma ImportSkipsValidation(row: Row, id: string)
    requires RowAdmissible(row)
    ensures Validate(BuildImported(row, id)).valid
            <==> NameOk(Trim(CellOr(row, "Full Name", ""))) && CellOr(row, "Roll No", "") != ""
  {
    AdmittedPassesPhoneRule(row, id);
    BuiltRowNormalised(row, id);
    VerdictOnNameAndRoll(BuildImported(row, id));
  }

  lemma AdmittedPassesPhoneRule(row: Row, id: string)
    requires RowAdmissible(row)
    ensures PhoneOk(BuildImported(row, id).phone)
  {
    AdmittedIffRowAdmissible(row, id);
  }

  /** A concrete row the import admits and the form refuses: the name has
      an apostrophe and there is no roll number. */
  lemma ApostropheRowImportedUnchecked()
    ensures RowAdmissible(SampleRow())
    ensures !Validate(BuildImported(SampleRow(), "x")).valid
  {
    SampleRowAdmissible();
    SampleCells();
    SampleNameRefused();
    ImportSkipsValidation(SampleRow(), "x");
  }

  lemma SampleRowAdmissible()
    ensures RowAdmissible(SampleRow())
  {
    SampleCells();
    TrimOfTrimmed("O'Neil");
    FilterAll("9876543210", IsDigit);
  }

  lemma SampleNameRefused()
    ensures !NameOk(Trim("O'Neil"))
  {
    var name := "O'Neil";
    assert name[0] == 'O' && name[|name| - 1] == 'l';
    TrimOfTrimmed(name);
    assert !IsNameChar(name[1]);
  }

  function SampleRow(): Row {
    map["Full Name" := "O'Neil", "Phone" := "9876543210"]
  }

  lemma SampleCells()
    ensures CellOr(SampleRow(), "Full Name", "") == "O'Neil"
    ensures CellOr(SampleRow(), "Phone", "") == "9876543210"
  {
  }

  /** Importing keeps student ids unique when the ids drawn are distinct
      and new to the store. */
  lemma ImportPreservesUniqueIds(st: Store, rows: seq<Row>, ids: seq<string>)
    requires |ids| == |rows| && DistinctIds(ids)
    requires forall i :: 0 <= i < |ids| ==> FreshFor(ids[i], st.students)
    requires UniqueIds(st.students)
    ensures UniqueIds(Import(st, rows, ids).students)
  {
    var b := Batch(rows, ids);
    BatchUnique(rows, ids);
    forall s | s in b
      ensures !HasStudentId(st.students, s.id)
    {
      var k := BatchIdDrawn(rows, ids, s);
      assert FreshFor(ids[k], st.students);
    }
    AppendKeepsUniqueIds(st.students, b);
    if b != [] {
      assert Import(st, rows, ids).students == st.students + b;
    }
  }

  /** Each imported student carries the id drawn for its row. */
  lemma BatchIdDrawn(rows: seq<Row>, ids: seq<string>, s: Student) returns (k: int)
    requires |ids| == |rows|
    requires s in Batch(rows, ids)
    ensures 0 <= k < |ids| && s.id == ids[k]
  {
    k := BatchElement(rows, ids, s);
  }

  /** Distinct ids make the imported students' ids distinct. */
  lemma BatchUnique(rows: seq<Row>, ids: seq<string>)
    requires |ids| == |rows| && DistinctIds(ids)
    ensures UniqueIds(Batch(rows, ids))
  {
    var built := BuildAll(rows, ids);
    forall i, j | 0 <= i < j < |built|
      ensures built[i].id != built[j].id
    {
      assert built[i] == BuildImported(rows[i], ids[i]);
      assert built[j] == BuildImported(rows[j], ids[j]);
    }
    FilterKeepsUniqueIds(built, Admitted);
  }

  lemma AppendKeepsUniqueIds(a: seq<Student>, b: seq<Student>)
    requires UniqueIds(a) && UniqueIds(b)
    requires forall s :: s in b ==> !HasStudentId(a, s.id)
    ensures UniqueIds(a + b)
  {
    var r := a + b;
    forall i, j | 0 <= i < j < |r|
      ensures r[i].id != r[j].id
    {
      if i >= |a| {
        assert r[i] == b[i - |a|] && r[j] == b[j - |a|];
      } else if j >= |a| {
        assert r[j] == b[j - |a|] && r[j] in b;
        assert r[i] == a[i];
      } else {
        assert r[i] == a[i] && r[j] == a[j];
      }
    }
  }
}
