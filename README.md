# University student records: store and spreadsheet mirror

This project models the student-record bookkeeping of the university web
application (`University-Website-main/app.py`) in Dafny. It also proves what
that code promises.

The application keeps students in a relational table. The table references
lookup tables of departments, programs and courses. The application mirrors
the students into a spreadsheet in two directions:

- **Push** (`sync_students_to_sheet`) replaces the whole sheet with a header
  row plus one seven-cell row per student, ordered by name.
- **Pull** (`sync_from_gsheet`) reads the sheet back and upserts every row
  into the table by its student ID.

The add, edit and delete handlers each change the table and then push. The
add and edit handlers first check the student ID against `^\d{2}-\d{5}$`. The
list page filters the joined table by department code, program key and course
key, and orders it by name.

Modules, in dependency order:

| file | module | what it holds |
|---|---|---|
| `wrappers.dfy` | `Wrappers` | `Option` for NULL; `COALESCE(x, '')` and `x or None` |
| `text.dfy` | `Text` | `str.strip()` and the code-point order on strings |
| `student_id.dfy` | `StudentIdFormat` | the anchored pattern `\d{2}-\d{5}` and its meaning |
| `store.dfy` | `StudentStore` | the table as a value and the SELECT/INSERT/UPDATE/DELETE statements |
| `name_order.dfy` | `NameOrder` | `ORDER BY s.name` as an insertion sort, ties broken by key |
| `push.dfy` | `PushSync` | the table the push writes, and its properties |
| `pull.dfy` | `PullSync` | the effect of the pull rows on the store, and its properties |
| `listing.dfy` | `Listing` | the filtered, ordered student list |
| `app.dfy` | `App` | the `StudentApp` class: store and sheet as fields, one method per handler |

State is the class `App.StudentApp`, with these fields:

- `store`: the `students` table, with rows in key order and an AUTO_INCREMENT counter;
- `sheet`: the spreadsheet's cells, as `seq<seq<string>>`;
- `catalog`: the lookup tables, which these handlers only read.

The methods follow the source's imperative form:

- the push builds `values` in a loop;
- the pull loops over the sheet rows and commits each row as it goes.

Both are proved against the functions `PushSheet`, `ApplyRows` and
`PullStore`. The properties are proved as lemmas about those functions.

The invariant kept by every handler is `StudentStore.WellFormed`: keys
increase along the table, every key is below the counter, and student IDs are
unique. Uniqueness rests on an assumed UNIQUE constraint on `student_id`; see
"## Left out".

Environment that becomes parameters:

- **Sheet calls during the push.** A `SheetClient` says how the service behaves:
  - it answers;
  - the sheet cannot be opened;
  - clearing raises;
  - writing raises after the clear, which leaves an empty sheet.
- **Opening the sheet during the pull.** This is the flag `reachable`.

### Where the behaviour is pinned down by the code

- A pulled row of more than seven cells is not truncated. `row + [''] * (7 - len(row))`
  leaves it as it is, and the seven-way unpacking on line 301 then raises.
  The model ends the pull with `MalformedRow(i)`, where `i` is the row's
  index in the sheet's values (the header is index 0). The rows before it
  stay applied, because each statement commits.
- Push writes the department's code and the program's and course's names.
  Pull stores those cells back as keys. `PullSync.RoundTrips` states exactly
  when a pushed row pulls back unchanged. `PullSync.PushThenPullRewritesKeys`
  shows the usual case, where it does not.
- `ORDER BY s.name` leaves equal names unordered. The model breaks ties by
  key, which is what a stable sort over key order gives.

## Model

| member | source | states |
|---|---|---|
| Wrappers.OrEmpty | University-Website-main/app.py:66-69 | `COALESCE(x, '')`: a set value comes back as it is, and the result is empty exactly when the value is NULL or the empty string |
| Wrappers.OrNone | University-Website-main/app.py:171-174 | `x or None`: NULL exactly for the empty string, and `COALESCE` of the result gives the field back |
| Text.Strip | University-Website-main/app.py:168-169 | the result is the input with leading and trailing whitespace removed: a middle slice of it, with only whitespace cut off and no whitespace left at either end |
| Text.StrLeqTotal | University-Website-main/app.py:74 | any two names are comparable in the ordering used by `ORDER BY s.name` |
| Text.StrLeqTransitive | University-Website-main/app.py:74 | the name ordering is transitive |
| Text.StrLeqAntisymmetric | University-Website-main/app.py:74 | two names each no greater than the other are equal |
| StudentIdFormat.ValidStudentIdShape | University-Website-main/app.py:176 | an ID is accepted iff it is exactly eight characters: two digits, a hyphen, five digits |
| StudentIdFormat.AcceptsExample | University-Website-main/app.py:177 | the example the error message gives, `25-12345`, is accepted |
| StudentIdFormat.RejectsMissingHyphen | University-Website-main/app.py:176 | `251234` is rejected |
| StudentIdFormat.Matches | University-Website-main/app.py:176 | definition, no contract of its own: the whole string is the pattern's pieces one after another, each a fixed number of characters of its class, as an anchored `re.match` reads `^\d{2}-\d{5}$` |
| StudentIdFormat.ValidStudentId | University-Website-main/app.py:176 | definition, no contract of its own: the stripped ID matches the ID pattern; `ValidStudentIdShape` states what that means |
| StudentStore.WellFormed | University-Website-main/app.py:181-182 | definition, no contract of its own: keys increase along the table and are below the AUTO_INCREMENT counter, and no two rows share a student ID (the assumed UNIQUE constraint) |
| StudentStore.IndexOfId | University-Website-main/app.py:196 | finds the position of the row with the key, or reports that no row has it |
| StudentStore.IndexOfStudentId | University-Website-main/app.py:302 | finds the first row with the student ID, or reports that no row has it |
| StudentStore.InsertStudent | University-Website-main/app.py:181-182 | succeeds iff no row has the student ID; then appends exactly one row holding the next key and the given columns, advances the counter, and keeps the table invariant |
| StudentStore.UpdateById | University-Website-main/app.py:216-217 | fails iff another row already has the new student ID; otherwise only the row with the key is rewritten, with the key kept, and the invariant holds |
| StudentStore.UpdateByStudentId | University-Website-main/app.py:304-306 | only rows with the student ID get the new columns, keeping their key and ID; all other rows stay the same; the invariant holds |
| StudentStore.DeleteById | University-Website-main/app.py:234 | removes exactly the row with the key; does nothing when no row has it; the counter is unchanged and the invariant holds |
| StudentStore.Joined | University-Website-main/app.py:71 | the inner join keeps exactly the students whose department exists |
| StudentStore.ProgramName | University-Website-main/app.py:72 | the left join gives a name exactly when the program key is set and names a program, and then it is that program's name |
| StudentStore.CourseName | University-Website-main/app.py:73 | the left join gives a name exactly when the course key is set and names a course, and then it is that course's name |
| StudentStore.WellFormedDistinctIds | University-Website-main/app.py:70 | keys in a well-formed table are pairwise distinct |
| NameOrder.Sort | University-Website-main/app.py:74 | the result is a permutation of the input, ordered by name |
| NameOrder.SortStrict | University-Website-main/app.py:74 | when keys are distinct, the order is strict |
| NameOrder.SortCharacterized | University-Website-main/app.py:74 | the sorted list is the only strictly ordered list with those members, so it depends only on which students there are |
| NameOrder.SortedNames | University-Website-main/app.py:74 | in a sorted list, names ascend |
| PushSync.ProjectRow | University-Website-main/app.py:82-90 | one student's row has seven cells and is led by its student ID |
| PushSync.PushOrder | University-Website-main/app.py:63-76 | the push query returns exactly the joined students, in name order |
| PushSync.ProjectAll | University-Website-main/app.py:81-90 | one row per student, in the same order, each being that student's projection |
| PushSync.ProjectAllStep | University-Website-main/app.py:81-90 | one more loop iteration appends exactly the next student's projection |
| PushSync.PushSheet | University-Website-main/app.py:79-90 | definition, no contract of its own: the header, then the projections of the push order; `PushSheetRows` and the lemmas below state its shape |
| PushSync.PushSheetRows | University-Website-main/app.py:79-90 | the written table has the header as row 0, and row i is the projection of the i-th student in name order |
| PushSync.PushSheetShape | University-Website-main/app.py:64-69 | every data row has exactly seven cells; program, course, semester and grade show `''` when unset |
| PushSync.PushOrderStrict | University-Website-main/app.py:70-74 | the pushed students are strictly ordered and have distinct student IDs |
| PushSync.PushRowsAreProjections | University-Website-main/app.py:63-90 | every joined student's row is on the sheet, and every data row is some joined student's row |
| PushSync.PushRowsDistinct | University-Website-main/app.py:63-90 | no student ID appears in two data rows |
| PushSync.JoinedStudentHasRow | University-Website-main/app.py:71 | a student whose department exists has a row with its ID |
| PushSync.RowMeansJoined | University-Website-main/app.py:71 | a row with a student's ID means that student's department exists |
| PushSync.PushRowIffJoined | University-Website-main/app.py:71 | a student has a row iff its department exists |
| PushSync.PushRowsSortedByName | University-Website-main/app.py:74 | the Name cells of the data rows ascend |
| PushSync.WithoutIdStrict | University-Website-main/app.py:234 | removing one student keeps the push order strict |
| PushSync.ProjectWithoutId | University-Website-main/app.py:234-235 | projecting after removing a student gives the earlier rows without that student's row |
| PushSync.DeleteThenPush | University-Website-main/app.py:234-235 | after a delete, the pushed sheet is the earlier sheet without the deleted student's row, or the same sheet when the key is unknown |
| PushSync.PushExample | University-Website-main/app.py:79-90 | a concrete store pushes to the expected header and row |
| PullSync.DataRows | University-Website-main/app.py:296 | drops exactly the first row: one row fewer, and row i is the sheet's row i+1; an empty sheet gives no rows |
| PullSync.Pad | University-Website-main/app.py:300 | a row of at most seven cells becomes exactly seven, the original cells first, then `''`; a longer row is unchanged |
| PullSync.PadKeepsCells | University-Website-main/app.py:300-301 | each cell the unpacking reads is the row's own cell or `''` |
| PullSync.Decode | University-Website-main/app.py:301-310 | no column a pulled row writes is NULL, and writing the columns back as cells in the pull's order gives the row again |
| PullSync.UpsertRow | University-Website-main/app.py:298-310 | an empty row changes nothing; for a known ID only that student's columns are replaced, with its key and ID kept and all other rows unchanged; for an unknown ID exactly one row is appended with the next key; the invariant holds |
| PullSync.ApplyRows | University-Website-main/app.py:297-310 | applying the rows in order keeps the invariant, and the counter never goes down |
| PullSync.ApplyRowsStep | University-Website-main/app.py:297-310 | one more loop iteration applies exactly the next row to the stored result |
| PullSync.FirstOverlong | University-Website-main/app.py:300-301 | the rows before it fit in seven cells, and the row at it does not |
| PullSync.FirstOverlongAt | University-Website-main/app.py:301 | the first overlong row is the one at which the unpacking first raises |
| PullSync.FirstOverlongNone | University-Website-main/app.py:301 | when every row fits, no row raises |
| PullSync.PullStore | University-Website-main/app.py:297-310 | the rows before the first overlong one, applied in order: the invariant holds afterwards and the counter never goes down |
| PullSync.PullResult | University-Website-main/app.py:296-301 | `Completed` exactly when every data row fits in seven cells; otherwise `MalformedRow(i)`, where i is the sheet index of an overlong row, below the sheet's length, and every row between the header and it fits |
| PullSync.PullStopsAt | University-Website-main/app.py:297-301 | an overlong row stops the pull with its index reported, and the rows before it stay applied |
| PullSync.PullCompletes | University-Website-main/app.py:297-310 | when all rows fit, the pull completes and applies every row |
| PullSync.PullIgnoresHeader | University-Website-main/app.py:296 | the first sheet row has no effect on the store or the outcome |
| PullSync.NonEmpty | University-Website-main/app.py:298-299 | keeps exactly the non-empty rows |
| PullSync.EmptyRowsChangeNothing | University-Website-main/app.py:298-299 | dropping the empty rows gives the same store |
| PullSync.IndexAfterUpdate | University-Website-main/app.py:302-306 | after an update, the lookup by student ID finds the same row |
| PullSync.IndexAfterInsert | University-Website-main/app.py:302-310 | after an insert for an unknown ID, the lookup finds the new last row |
| PullSync.UpdateTwice | University-Website-main/app.py:304-306 | two updates of the same student leave only the second |
| PullSync.LaterRowWins | University-Website-main/app.py:297-310 | of two rows with the same student ID applied one right after the other, the later one decides the result, whether or not the student existed |
| PullSync.UpsertRecords | University-Website-main/app.py:298-310 | after a non-empty row, some row has its student ID and every row with that ID holds the row's columns |
| PullSync.UpsertKeepsRecord | University-Website-main/app.py:298-310 | an empty row, or a row with another student ID, leaves a recorded student's columns as they were |
| PullSync.LastRowRecords | University-Website-main/app.py:297-310 | the last non-empty row with a student ID decides that student's columns, whatever rows come before it and whatever rows with other IDs follow |
| PullSync.LastRowWins | University-Website-main/app.py:297-310 | in a well-formed store, after the pull exactly one row has that student ID, and it holds the last such row's columns |
| PullSync.StoredRow | University-Website-main/app.py:301 | the row a student's own columns would give has seven cells, led by its ID |
| PullSync.UpsertStoredRow | University-Website-main/app.py:302-306 | pulling a row equal to a complete stored student changes nothing |
| PullSync.PullFixedPoint | University-Website-main/app.py:297-310 | rows that repeat stored, complete students leave the store unchanged |
| PullSync.PushedRowDecodes | University-Website-main/app.py:301 | a pushed row decodes to the student's own columns iff `RoundTrips` holds (code equals key, names equal keys, no NULL semester or grade) |
| PullSync.PushDataRows | University-Website-main/app.py:79-90 | the rows below the pushed header are the projections in push order |
| PullSync.ProjectionsAreStoredRows | University-Website-main/app.py:301 | the projections of round-tripping students are seven-cell rows equal to their stored rows |
| PullSync.PushedRowsAreStored | University-Website-main/app.py:297-301 | every pushed data row repeats a complete student of the store when all students round-trip |
| PullSync.PushThenPull | University-Website-main/app.py:297-310 | a push followed by a pull completes and leaves the store unchanged when every joined student round-trips |
| PullSync.PushThenPullRewritesKeys | University-Website-main/app.py:301-306 | a student of department key "1" with code "CS" comes back with "CS" as its key, and NULLs come back as `''` |
| PullSync.PullAcceptsAnyId | University-Website-main/app.py:300-310 | the pull applies no ID-format check and pads a one-cell row into a new student |
| Listing.Holds | University-Website-main/app.py:146-151 | definition, no contract of its own: `d.code=%s` compares the department's code; `p.id=%s` and `c.id=%s` need the key set and naming an existing row |
| Listing.Conditions | University-Website-main/app.py:144-151 | holds one condition for each supplied argument, and no others |
| Listing.MatchesFilter | University-Website-main/app.py:146-153 | definition, no contract of its own: one clause per supplied argument, combined with AND |
| Listing.ConditionsMatchFilter | University-Website-main/app.py:146-153 | the assembled WHERE clause holds iff every supplied filter holds |
| Listing.Filter | University-Website-main/app.py:152-153 | keeps exactly the students satisfying all conditions; with no conditions, everyone; keys stay distinct |
| Listing.Selected | University-Website-main/app.py:139-155 | exactly the joined students satisfying the conditions, in name order |
| Listing.View | University-Website-main/app.py:139 | definition, no contract of its own: the student's columns with `d.code`, `d.name`, `p.name` and `c.name` |
| Listing.Views | University-Website-main/app.py:139 | one listed row per student, in order, with the joined columns |
| Listing.ListingOf | University-Website-main/app.py:139-155 | definition, no contract of its own: the views of the selected students under the assembled conditions; the three lemmas below state what it holds |
| Listing.ListingMembers | University-Website-main/app.py:139-155 | a student is listed iff it is joined and passes every supplied filter |
| Listing.ListingStrictlyOrdered | University-Website-main/app.py:154 | the list is strictly ordered by name, so no student is listed twice |
| Listing.ListingViews | University-Website-main/app.py:139-143 | each listed row has its department's code and name, and its program's and course's name, or NULL |
| Listing.UnfilteredListingIsPushOrder | University-Website-main/app.py:139-155 | with no filter, the list shows the pushed students in the push order |
| Listing.EmptyArgumentIgnored | University-Website-main/app.py:146-151 | an empty department, program or course argument is the same as none |
| App.SheetAfterPush | University-Website-main/app.py:92-101 | definition, no contract of its own: a responsive service leaves `PushSheet`; failing to open or to clear leaves the sheet as it was; a failed write after the clear leaves it empty |
| App.PushIsFullReplace | University-Website-main/app.py:93-96 | the sheet after a successful push does not depend on what it held before, and pushing twice gives the same content |
| App.FormDetails | University-Website-main/app.py:169-174 | the name and semester are the stripped fields, so the semester is always set; the department key is kept as given; program, course and grade are NULL exactly when empty, and otherwise the field itself |
| App.BuildValues | University-Website-main/app.py:79-90 | the loop yields the header followed by each student's projection, in order |
| App.StudentApp.constructor | University-Website-main/app.py:70 | an empty table with the counter at 1 keeps the invariant |
| App.StudentApp.SyncStudentsToSheet | University-Website-main/app.py:56-101 | returns true iff the service answered; then the sheet is exactly `PushSheet` of the store; if opening or clearing fails the sheet is untouched; a failed write leaves it empty; the store never changes |
| App.StudentApp.AddStudent | University-Website-main/app.py:168-190 | a malformed stripped ID changes nothing; a duplicate fails with nothing changed; otherwise exactly the insert happens, followed by a push whose result is reported |
| App.StudentApp.EditStudent | University-Website-main/app.py:196-225 | an unknown key is reported first and changes nothing; a malformed ID or a duplicate changes nothing; otherwise exactly the update happens, followed by a push |
| App.StudentApp.DeleteStudent | University-Website-main/app.py:232-241 | the store becomes `DeleteById`, and the push runs in every case |
| App.StudentApp.ApplySheetRow | University-Website-main/app.py:298-310 | one loop iteration updates the store exactly as `UpsertRow` says |
| App.StudentApp.SyncFromSheet | University-Website-main/app.py:292-312 | the sheet is only read; an unreachable sheet changes nothing; otherwise the store becomes `PullStore` and the outcome is `PullResult` |
| App.StudentApp.ListStudents | University-Website-main/app.py:136-155 | returns exactly the joined students passing every supplied filter, strictly ordered by name, with their joined columns |

## Left out

- Flask routing, sessions, the login check at the top of every handler, `flash`,
  `render_template` and `redirect` are presentation and authentication. The
  login flow, password hashing and `ensure_default_users` belong here too.
- The schema is not part of this model. The model assumes a UNIQUE constraint
  on `students.student_id`: it is what makes `InsertStudent` and `UpdateById`
  fail on a duplicate ID, and so it decides the `StoreFailed` outcomes of
  `AddStudent` and `EditStudent`. Without the constraint the source would
  store the duplicate. The model also keeps the counter unchanged after a
  failed insert; InnoDB may consume an AUTO_INCREMENT value on a failed
  insert, so later keys can differ from the model's.
- Concurrency is left out. Each handler runs atomically in the model. In the
  source, two requests can interleave:
  - two pushes can race, and the sheet ends with whichever wrote last;
  - the row can be deleted between the edit handler's SELECT (line 196) and
    its UPDATE (line 216), and the UPDATE then changes no row;
  - the sheet can change while a pull reads and applies it.
- The push's `print` of the failure (line 100) is logging only; the model keeps
  just the `false` result.
- The MySQL connection and the `query` helper are left out. The table is a
  value, and a statement that raises for a reason other than a duplicate
  student ID is not modelled: lost connection, a foreign-key violation, a bad
  integer.
- Foreign keys are not checked. The form's department, program and course keys
  are stored as given, with no check that they name a row, and so are the
  pull's cells.
- Reference keys are text, so MySQL's conversion between the text the form and
  the sheet supply and the integer key columns is not modelled.
- The collation is not modelled. MySQL compares `student_id` and orders `name`
  under the column's collation, often case- and trailing-space-insensitive.
  The model compares code points exactly.
- `gspread_helper.py`, credentials and network access are I/O. The push's
  service behaviour is the `SheetClient` parameter. The pull's ability to open
  the sheet is the `reachable` flag. A pull that cannot open the sheet raises
  in the source; the model reports `NotReached`.
- `export_students` (the Excel export through pandas) is left out.
- The program and course admin handlers and `require_admin` are left out.
  They are one-statement inserts and deletes over the lookup tables, which
  `catalog` holds fixed.
- `static/js/main.js` is a client-side copy of the ID check.
- A missing form field is not modelled. In the source it raises (`request.form[...]`,
  or `.strip()` on `None`). The form is modelled with every field present, and
  an absent optional field is the empty string.
- Text.Strip: removes only ASCII whitespace, the characters `str.isspace`
  accepts below code 128. Unicode spaces are not stripped.
- StudentIdFormat.ValidStudentIdShape: `\d` accepts ASCII digits only, not
  every Unicode digit. `$` does not also match before a trailing newline,
  which cannot remain after `strip()` anyway.
- A pulled row of more than seven cells is not truncated: it makes the
  unpacking on line 301 raise, and the model ends the pull there.
- The pull's per-row lookup is case-sensitive here (the collation is left out),
  so two IDs differing only in case are distinct students.
