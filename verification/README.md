# Student manager: record logic

A Dafny model of the record-management logic of the `StudentManager`
React component, with the rendering stripped away. The component keeps
three collections: students, login accounts (users) and custom-field
definitions. Its handlers replace these collections with new ones. The
model treats each handler as a pure function from one `Store` to the next
and proves what each one promises.

- **Form check** (`validateStudent`). Four independent rules run on the
  form: name, primary phone, roll number and class. Every broken rule
  adds its message, in rule order. The form is valid exactly when no
  message was added.
- **Save** (`handleAddStudent`). An invalid form changes nothing.
  Otherwise a record is built from the form. Then either every student
  carrying the form's id is replaced in place, or one new student with a
  fresh id is appended.
- **Delete** (`deleteStudent`). Removes the students with the id and the
  accounts linked to it, and keeps everything else in order.
- **Custom fields** (`handleAddFieldDef`). A label that trims to nothing
  is ignored. Any other label appends one definition with a fresh id and
  the trimmed label.
- **Spreadsheet import** (`handleBulkImport`, row handling only). Each
  decoded row becomes a student:
  - the class is prefixed with "Class " unless it is already a class
    label;
  - the medium becomes "Semi" or "English";
  - the phone is reduced to its digits.

  Rows with a non-blank name and a 10-digit phone are admitted. All
  admitted rows are appended in one step, or nothing is appended when
  none is admitted. The form check is not applied.
- **View** (`filteredStudents`). Keeps the students matching the search
  text and the class-and-medium selector, then sorts them by
  `parseInt(rollNo) || 0` with JavaScript's stable sort.

Files, one module each:

- `text.dfy`: the string primitives with their JavaScript meaning (`trim`,
  `includes`, `startsWith`, `split`, `toLowerCase`, `\d`).
- `numbers.dfy`: `parseInt`.
- `seqs.dfy`: `filter` and the stable `sort`.
- `records.dfy`: the records.
- `validation.dfy`, `reconcile.dfy`, `bulk_import.dfy` and `view.dfy`:
  the four parts of the component.

What the component does, and so what the model does:

- New ids come from `crypto.randomUUID()`. The model takes them as
  parameters and assumes they are fresh: not empty and not already in
  use.
- Ids are not derived from the name and date of birth.
- Saving creates, renames or updates no login account. The only account
  logic is the cascade in delete.
- Import does not run the form check, knows only the exact column
  headers "Full Name", "Roll No", "Class", "Medium", "Phone", "DOB" and
  "Address", and fills no custom fields.
- A missing optional attribute is the empty string. The component only
  reads optional attributes through `||` or a truthiness test, and these
  treat a missing value and "" alike.

## Model

| member | source | states |
|---|---|---|
| Text.Trim | components/StudentManager.tsx:98 | the trimmed name is the slice of the input that starts after the leading whitespace, and it neither starts nor ends with whitespace |
| Text.TrimDropsSpace | components/StudentManager.tsx:98 | everything trimming removes, at either end, is JavaScript whitespace or a line terminator |
| Text.TrimIdempotent | components/StudentManager.tsx:98 | trimming an already trimmed name changes nothing |
| Text.TrimBlankIffAllSpace | components/StudentManager.tsx:139 | a label trims to the empty string exactly when it consists of whitespace only, which is the blank-label test |
| Text.Lower | components/StudentManager.tsx:54 | lower-casing keeps the length, turns every ASCII upper-case letter into its lower-case partner, leaves every other character alone, and leaves no upper-case ASCII letter behind |
| Text.Contains | components/StudentManager.tsx:54 | the `includes` scan succeeds exactly when the needle occurs at some index, so an empty search text is found in every string |
| Text.SplitOn | components/StudentManager.tsx:57 | `split` gives at least one piece, no piece contains the separator, and joining the pieces with the separator gives back the string that was split |
| Text.SplitJoin | components/StudentManager.tsx:57 | splitting pieces that were joined with a separator they do not contain gives back exactly those pieces |
| Numbers.DigitRun | components/StudentManager.tsx:61 | `parseInt` reads the longest run of digits at the front: all of them are digits, and the next character is not one |
| Numbers.ParseInt | components/StudentManager.tsx:61 | text with no decimal digit anywhere parses to NaN, whatever whitespace, sign or letters it holds |
| Numbers.ParseIntOrZero | components/StudentManager.tsx:61 | `\|\| 0` turns the falsy results NaN and 0 into 0 and keeps every other parsed value; a non-zero key is always the number parsed |
| Numbers.ParseDecimal | components/StudentManager.tsx:61 | a roll number made of optional whitespace, the decimal digits of n and then a tail that does not start with a digit sorts with key n. The one exception is n = 0 followed by x or X, which is a hex prefix |
| Numbers.HexRollNumber | components/StudentManager.tsx:61 | "0x1A" sorts with key 26: after `0x`, `parseInt` reads base 16 |
| Numbers.NegativeHexRollNumber | components/StudentManager.tsx:61 | "-0X1a" sorts with key -26: the sign comes before the prefix, and `0X` and lower-case hex digits work too |
| Numbers.EmptyHexSortsAsZero | components/StudentManager.tsx:61 | a hex prefix not followed by a hex digit, as in "0x" or "0xG", parses to NaN, and so sorts with key 0 |
| Numbers.ParseNegativeDecimal | components/StudentManager.tsx:61 | the same text with a minus sign before the digits sorts with key -n, with the same hex exception for n = 0 |
| Seqs.Filter | components/StudentManager.tsx:53 | `filter` never lengthens the list, and every element it keeps is accepted by the predicate |
| Seqs.FilterCounts | components/StudentManager.tsx:132 | `filter` keeps every accepted element exactly as often as it occurs, and adds nothing |
| Seqs.FilterMembers | components/StudentManager.tsx:132 | an element survives `filter` exactly when it was in the list and the predicate accepts it |
| Seqs.FilterOrder | components/StudentManager.tsx:132 | `filter` keeps the surviving elements in their original order |
| Seqs.SortBy | components/StudentManager.tsx:61 | the sorted list is a permutation of its input, with keys in non-decreasing order |
| Seqs.SortByStable | components/StudentManager.tsx:61 | elements with equal keys appear in the sorted list in the order they had in the input |
| Validation.Broken | components/StudentManager.tsx:72-80 | a rule is listed exactly when the form breaks it, and the rules are listed in checking order |
| Validation.Validate | components/StudentManager.tsx:69-82 | the form is valid exactly when the error list is empty, and exactly when every rule holds; each broken rule contributes its own message, at most four in all, in rule order |
| Validation.NameOk | components/StudentManager.tsx:71 | the name rule holds exactly when the name is non-empty and removing every character outside letters, digits, space and dot removes nothing |
| Validation.PhoneOk | components/StudentManager.tsx:75 | the phone rule holds exactly when the phone has ten characters and removing the non-digits removes nothing |
| Validation.NameRuleExact | components/StudentManager.tsx:71-74 | the name message appears exactly when the name as typed is empty or has a character outside letters, digits, space and dot |
| Validation.PhoneRuleExact | components/StudentManager.tsx:75-78 | the phone message appears exactly when the phone is not 10 characters long or has a non-digit |
| Validation.ErrorsDistinct | components/StudentManager.tsx:72-80 | no message is listed twice |
| Validation.VerdictOnNameAndRoll | components/StudentManager.tsx:69-82 | when phone and class are in order, the form is valid exactly when the name and the roll number are |
| Reconcile.BuildRecord | components/StudentManager.tsx:96-108 | the record keeps the form's id or takes the fresh one, stores the trimmed name, defaults class to "Class 1" and medium to "English", copies every other field, and is in saved form; a form already in saved form is rebuilt unchanged |
| Reconcile.ReplaceById | components/StudentManager.tsx:111 | the update keeps the length, and each position holds the new record exactly where the old one carried the id |
| Reconcile.Save | components/StudentManager.tsx:88-119 | an invalid form leaves the store unchanged. An update keeps the length and replaces exactly the students with the form's id. A create appends one student with the fresh id behind the unchanged old list. Accounts and field definitions are untouched |
| Reconcile.SaveUpdateKeepsIds | components/StudentManager.tsx:110-111 | an update never changes which id sits at which position |
| Reconcile.SavePreservesUniqueIds | components/StudentManager.tsx:96-116 | when the fresh id is new, saving keeps student ids pairwise distinct |
| Reconcile.SaveUnknownIdIsNoOp | components/StudentManager.tsx:110-111 | a form whose id no student has changes nothing; an update never falls back to appending |
| Reconcile.ResaveUnchanged | components/StudentManager.tsx:96-111 | opening a stored valid student and saving it unchanged leaves the store as it was |
| Reconcile.SaveUpdateIdempotent | components/StudentManager.tsx:110-111 | saving the same edit twice is the same as saving it once |
| Reconcile.SavedRecordRevalidates | components/StudentManager.tsx:72-98 | a valid form's stored record passes the form check again exactly when its name has a character other than a space |
| Reconcile.BlankNameIsStoredEmpty | components/StudentManager.tsx:72-98 | a name of one space passes the check and is stored as the empty name |
| Reconcile.Delete | components/StudentManager.tsx:130-136 | afterwards no student has the id and no account links to it. Every other student and account is kept as often as before and in the same order. Field definitions are unchanged |
| Reconcile.DeleteIdempotent | components/StudentManager.tsx:132-133 | deleting the same id twice is deleting it once |
| Reconcile.DeleteAbsentIsNoOp | components/StudentManager.tsx:132-133 | deleting an id that no student carries and no account links to changes nothing |
| Reconcile.DeletePreservesUniqueIds | components/StudentManager.tsx:132 | deleting keeps student ids pairwise distinct |
| Reconcile.AddFieldDef | components/StudentManager.tsx:138-142 | the store is unchanged exactly when the label is all whitespace; otherwise exactly one definition is appended, with the fresh id and the non-empty trimmed label, behind the unchanged old ones. Students and accounts are untouched |
| Reconcile.AddFieldDefPreservesUniqueIds | components/StudentManager.tsx:140 | with a fresh id, definition ids stay pairwise distinct |
| BulkImport.CellOr | components/StudentManager.tsx:164-176 | a missing cell and an empty one both give the default, and any other cell gives its own text; the result is empty only when the default is |
| BulkImport.NormaliseClass | components/StudentManager.tsx:164-167 | the result is always a class label. It equals the cell exactly when the cell already was a class label, and otherwise it is "Class " followed by the cell |
| BulkImport.NormaliseClassIdempotent | components/StudentManager.tsx:164-167 | normalising a class twice is normalising it once |
| BulkImport.NormaliseClassExamples | components/StudentManager.tsx:164-167 | "5" becomes "Class 5"; "Class 5" and "Jr. KG" stay; the lower-case "class 5" becomes "Class class 5" |
| BulkImport.MissingClassIsClassOne | components/StudentManager.tsx:164 | a row whose class cell is missing or empty is placed in "Class 1" |
| BulkImport.NormaliseMedium | components/StudentManager.tsx:173 | the medium is always "Semi" or "English", and it is "Semi" exactly when "semi" occurs somewhere in the lower-cased cell |
| BulkImport.NormaliseMediumIdempotent | components/StudentManager.tsx:173 | the two medium labels map to themselves |
| BulkImport.DigitsOnly | components/StudentManager.tsx:174 | the result has only digits, every digit of the cell is kept as often as it occurs, and the result is a subsequence of the cell, so the order is kept |
| BulkImport.DigitsOnlyWithinCell | components/StudentManager.tsx:174 | nothing is kept that is not in the cell, and nothing more often than the cell has it |
| BulkImport.DigitsOnlyIdempotent | components/StudentManager.tsx:174 | stripping non-digits twice is stripping them once |
| BulkImport.BuildImported | components/StudentManager.tsx:168-178 | a row's student has the drawn id. Its name is the trimmed "Full Name" cell. Its class is the normalised "Class" cell, or "Class 1" when that cell is missing or empty. Its medium is the normalised "Medium" cell. Its phone is the digits of the "Phone" cell. Roll number, date of birth and address are their cells as given. Place of birth and alternate phone are empty, and there are no custom fields. The result is always a class label, "Semi" or "English", a digit string and a trimmed name |
| BulkImport.BuiltRowNormalised | components/StudentManager.tsx:168-178 | with a non-empty id, an imported student is in the same saved form a save produces |
| BulkImport.Admitted | components/StudentManager.tsx:179 | for a phone already reduced to digits, admission is exactly a non-empty name plus the phone rule of the form check |
| BulkImport.AdmittedIffRowAdmissible | components/StudentManager.tsx:179 | a row's student is admitted exactly when the trimmed name cell is non-empty and the phone cell has exactly ten digits |
| BulkImport.Batch | components/StudentManager.tsx:162-180 | the batch holds admitted students only, no more than there were rows, in row order |
| BulkImport.BatchMembers | components/StudentManager.tsx:179 | a student is in the batch exactly when some row became it and it passes the admission rule |
| BulkImport.RowAdmission | components/StudentManager.tsx:169-179 | with distinct drawn ids, the row's student is imported exactly when the row is admissible |
| BulkImport.Import | components/StudentManager.tsx:181-184 | the old students stay as a prefix and the batch follows them, in one append. Accounts and field definitions are untouched. An empty batch leaves the store unchanged |
| BulkImport.ImportPreservesUniqueIds | components/StudentManager.tsx:169-182 | with distinct fresh ids, importing keeps student ids pairwise distinct |
| BulkImport.BatchPassesPhoneAndClassRules | components/StudentManager.tsx:174-179 | every imported student meets the phone and class rules of the form check |
| BulkImport.BatchNormalised | components/StudentManager.tsx:168-179 | every imported student is in saved form |
| BulkImport.ImportSkipsValidation | components/StudentManager.tsx:168-179 | the student of an admitted row passes the form check exactly when its trimmed name uses only the name characters and it has a roll number |
| BulkImport.ApostropheRowImportedUnchecked | components/StudentManager.tsx:168-179 | a row named "O'Neil" with no roll number is admitted, yet the form check refuses its student |
| View.MatchesSearch | components/StudentManager.tsx:54 | a student matches the search exactly when the lower-cased query occurs in the lower-cased name or the query occurs in the roll number; an empty query matches everyone |
| View.MatchesClass | components/StudentManager.tsx:55-58 | with no class selected every student matches; a selector value without a '\|' matches nobody |
| View.RollKey | components/StudentManager.tsx:61 | a roll number without a digit sorts as 0, and any other key is the number `parseInt` reads |
| View.Query | components/StudentManager.tsx:52-62 | the view is a sub-multiset of the students. A listed student is shown exactly when it matches both filters, and as often as it is listed. The view is sorted by roll key |
| View.QueryStable | components/StudentManager.tsx:61 | students with equal roll keys are shown in store order |
| View.EmptyFiltersMatchAll | components/StudentManager.tsx:54-58 | with an empty search and no class selected, every student matches |
| View.UnfilteredQueryIsPermutation | components/StudentManager.tsx:52-62 | with both filters empty, the view is a reordering of all students |
| View.ClassOptionMatches | components/StudentManager.tsx:56-58 | selecting "class\|medium", with neither part containing '\|', shows exactly the students of that class whose medium (or "English" when unset) is that medium |
| View.QueryIdempotent | components/StudentManager.tsx:52-62 | running the query again on the view changes nothing |

## Left out

- Rendering, the modal and expanded-row state, the toast and its
  `setTimeout` expiry, and `handleInputChange`/`resetForm`/`editStudent`:
  presentation and form plumbing with no logic to prove.
- `FileReader`, `XLSX.read`, `sheet_to_json`, `writeFile` and
  `downloadTemplate`: foreign library I/O. Import starts from the decoded
  rows of the first sheet, as maps from header to cell text.
- The `try`/`catch` around import: a failure inside the library leaves
  the store unchanged, which is the same outcome as an empty batch.
- `crypto.randomUUID()`: an external generator. The ids it delivers are
  parameters, assumed fresh (`Records.FreshFor`).
- `window.confirm`, `alert` and the toasts: user interaction. Delete is
  modelled as confirmed, and an invalid save as returning the store
  unchanged.
- Text.Lower: only ASCII letters are lower-cased. JavaScript's
  `toLowerCase` also folds non-ASCII letters, so a non-ASCII search or
  medium cell may match differently.
- Numbers.ParseIntOrZero: values are unbounded integers, not doubles. A
  roll number with more digits than a double holds exactly, or so many
  that it overflows to Infinity, is outside the model.
- View.Query: the comparator subtracts two doubles in JavaScript. It is
  modelled as comparing the integer keys, which agrees whenever the keys
  are exact.
- BulkImport.CellOr: cells are text. A numeric cell (for example a roll
  number or phone typed as a number) passes through `String(...)` in the
  component, and a cell holding the number 0 counts as missing there.
  Both cases are outside the model.
