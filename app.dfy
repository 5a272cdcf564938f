/**
 * The application's student bookkeeping as one object: the `students` table
 * (with the lookup tables, which these handlers only read) and the content of
 * the mirrored spreadsheet. Each handler is a method: adding, editing and
 * deleting a student change the store and then push the whole table to the
 * sheet; the pull writes the sheet's rows into the store; the list reads both
 * and changes nothing.
 *
 * The spreadsheet service is a parameter of each push (`SheetClient`): it
 * answers, cannot be opened, fails on clearing, or fails on writing after the
 * clear. The push catches all of these and reports them as `false`.
 */
module App {
  import opened Wrappers
  import opened Text
  import opened StudentIdFormat
  import opened StudentStore
  import opened NameOrder
  import opened PushSync
  import opened PullSync
  import opened Listing

  /** How the spreadsheet service behaves during one push. */
  datatype SheetClient =
    | Responsive   // opening, clearing and writing all succeed
    | Unreachable  // opening the sheet raises; the sheet is not touched
    | ClearFails   // clearing raises; the sheet is not touched
    | UpdateFails  // writing raises after the clear; the sheet is left empty

  /** The sheet after a push attempt over `st`, starting from `before`. */
  function SheetAfterPush(before: seq<seq<string>>, st: Store, cat: Catalog, client: SheetClient): seq<seq<string>>
  {
    match client
    case Responsive => PushSheet(st, cat)
    case Unreachable => before
    case ClearFails => before
    case UpdateFails => []
  }

  /** After a successful push the sheet's content depends on the store alone: whatever the
      sheet held before, and however often the push runs, it is the same table. */
  lemma PushIsFullReplace(s0: seq<seq<string>>, s1: seq<seq<string>>, st: Store, cat: Catalog)
    ensures SheetAfterPush(s0, st, cat, Responsive) == SheetAfterPush(s1, st, cat, Responsive)
    ensures SheetAfterPush(SheetAfterPush(s0, st, cat, Responsive), st, cat, Responsive)
      == SheetAfterPush(s0, st, cat, Responsive)
  {
  }

  /** The loop of the push: the header, then one row per queried student, appended in
      the order of the query. */
  method BuildValues(rows: seq<Student>, cat: Catalog) returns (values: seq<seq<string>>)
    requires forall s :: s in rows ==> s.details.deptId in cat.departments
    ensures values == [Header] + ProjectAll(rows, cat)
  {
    values := [Header];
    for i := 0 to |rows|
      invariant values == [Header] + ProjectAll(rows[..i], cat)
    {
      ProjectAllStep(rows, i, cat);
      values := values + [ProjectRow(rows[i], cat)];
    }
    assert rows[..|rows|] == rows;
  }

  /** The fields of the add/edit form, as submitted. */
  datatype StudentForm = StudentForm(
    studentId: string,
    name: string,
    deptId: string,
    programId: string,
    courseId: string,
    semester: string,
    grade: string)

  /** The columns the handlers write from the form: name and semester stripped, an empty
      program, course or grade stored as NULL, the department key taken as it is. */
  function FormDetails(f: StudentForm): (d: Details)
    ensures d.name == Strip(f.name) && d.semester == Some(Strip(f.semester))
    ensures d.deptId == f.deptId
    ensures d.programId.None? <==> f.programId == ""
    ensures d.courseId.None? <==> f.courseId == ""
    ensures d.grade.None? <==> f.grade == ""
    ensures OrEmpty(d.programId) == f.programId && OrEmpty(d.courseId) == f.courseId
      && OrEmpty(d.grade) == f.grade
  {
    Details(Strip(f.name), f.deptId, OrNone(f.programId), OrNone(f.courseId),
      Some(Strip(f.semester)), OrNone(f.grade))
  }

  /** What an add or edit request ends in. */
  datatype Outcome =
    | Rejected              // the student ID does not have the NN-##### form
    | NotFound              // edit: no student has the given key
    | StoreFailed           // the statement raised (a duplicate student ID)
    | Saved(synced: bool)   // the change is committed; the push reported `synced`

  class StudentApp {
    var store: Store
    var sheet: seq<seq<string>>
    const catalog: Catalog

    ghost predicate Valid()
      reads this
    {
      WellFormed(store)
    }

    /** An empty table, AUTO_INCREMENT at 1, next to a sheet with any content. */
    constructor (cat: Catalog, initialSheet: seq<seq<string>>)
      ensures Valid()
      ensures store == Store([], 1) && sheet == initialSheet && catalog == cat
    {
      store := Store([], 1);
      sheet := initialSheet;
      catalog := cat;
    }

    /** `sync_students_to_sheet`: builds the header and one row per joined student in name
        order, then clears the sheet and writes the table. It reports `true` exactly when
        the service answered; it never changes the store. */
    method SyncStudentsToSheet(client: SheetClient) returns (ok: bool)
      modifies this`sheet
      ensures ok <==> client == Responsive
      ensures sheet == SheetAfterPush(old(sheet), store, catalog, client)
    {
      var rows := PushOrder(store, catalog);
      var values := BuildValues(rows, catalog);
      match client
      case Unreachable =>
        ok := false;
      case ClearFails =>
        ok := false;
      case UpdateFails =>
        sheet := [];
        ok := false;
      case Responsive =>
        sheet := [];
        sheet := values;
        ok := true;
    }

    /** `add_student`: the stripped ID must have the NN-##### form, or nothing happens. A
        valid ID is inserted with the form's columns under the next key and the sheet is
        pushed, unless the ID is already taken, in which case the statement fails and
        nothing changes. */
    method AddStudent(form: StudentForm, client: SheetClient) returns (o: Outcome)
      requires Valid()
      modifies this
      ensures Valid()
      ensures var sid := Strip(form.studentId);
        var inserted := InsertStudent(old(store), sid, FormDetails(form));
        && (!ValidStudentId(sid) ==> o == Rejected && store == old(store) && sheet == old(sheet))
        && (ValidStudentId(sid) && inserted.None? ==>
              o == StoreFailed && store == old(store) && sheet == old(sheet))
        && (ValidStudentId(sid) && inserted.Some? ==>
              && store == inserted.value
              && o == Saved(client == Responsive)
              && sheet == SheetAfterPush(old(sheet), store, catalog, client))
    {
      var sid := Strip(form.studentId);
      if !ValidStudentId(sid) {
        return Rejected;
      }
      var inserted := InsertStudent(store, sid, FormDetails(form));
      if inserted.None? {
        return StoreFailed;
      }
      store := inserted.value;
      var ok := SyncStudentsToSheet(client);
      o := Saved(ok);
    }

    /** `edit_student`: an unknown key is reported first; then the stripped ID must have the
        NN-##### form. The row with the key takes the new ID and the form's columns and the
        sheet is pushed, unless another row has that ID, in which case nothing changes. */
    method EditStudent(id: nat, form: StudentForm, client: SheetClient) returns (o: Outcome)
      requires Valid()
      modifies this
      ensures Valid()
      ensures var sid := Strip(form.studentId);
        var updated := UpdateById(old(store), id, sid, FormDetails(form));
        && (IndexOfId(old(store).rows, id).None? ==>
              o == NotFound && store == old(store) && sheet == old(sheet))
        && (IndexOfId(old(store).rows, id).Some? && !ValidStudentId(sid) ==>
              o == Rejected && store == old(store) && sheet == old(sheet))
        && (IndexOfId(old(store).rows, id).Some? && ValidStudentId(sid) && updated.None? ==>
              o == StoreFailed && store == old(store) && sheet == old(sheet))
        && (IndexOfId(old(store).rows, id).Some? && ValidStudentId(sid) && updated.Some? ==>
              && store == updated.value
              && o == Saved(client == Responsive)
              && sheet == SheetAfterPush(old(sheet), store, catalog, client))
    {
      if IndexOfId(store.rows, id).None? {
        return NotFound;
      }
      var sid := Strip(form.studentId);
      if !ValidStudentId(sid) {
        return Rejected;
      }
      var updated := UpdateById(store, id, sid, FormDetails(form));
      if updated.None? {
        return StoreFailed;
      }
      store := updated.value;
      var ok := SyncStudentsToSheet(client);
      o := Saved(ok);
    }

    /** `delete_student`: removes the row with the key, if any, and pushes in every case. */
    method DeleteStudent(id: nat, client: SheetClient) returns (synced: bool)
      requires Valid()
      modifies this
      ensures Valid()
      ensures store == DeleteById(old(store), id)
      ensures synced <==> client == Responsive
      ensures sheet == SheetAfterPush(old(sheet), store, catalog, client)
    {
      store := DeleteById(store, id);
      synced := SyncStudentsToSheet(client);
    }

    /** One pass of the pull loop: an empty row is skipped; otherwise the padded row's
        student is looked up by ID and its columns overwritten, or a new student inserted. */
    method ApplySheetRow(row: seq<string>)
      requires Valid() && |row| <= 7
      modifies this`store
      ensures Valid()
      ensures store == UpsertRow(old(store), row)
    {
      if row == [] {
        return;
      }
      var padded := Pad(row);
      var sid := padded[0];
      if IndexOfStudentId(store.rows, sid).Some? {
        store := UpdateByStudentId(store, sid, Decode(padded));
      } else {
        store := InsertStudent(store, sid, Decode(padded)).value;
      }
    }

    /** `sync_from_gsheet`: reads the sheet (when it can be opened) and applies its rows
        below the header one by one: an empty row is skipped, a short one padded, then the
        student with its ID is updated or a new one inserted. A row of more than seven cells
        stops the pull, and the rows before it stay applied. The sheet is only read. */
    method SyncFromSheet(reachable: bool) returns (outcome: PullOutcome)
      requires Valid()
      modifies this`store
      ensures Valid()
      ensures !reachable ==> outcome == NotReached && store == old(store)
      ensures reachable ==> outcome == PullResult(sheet) && store == PullStore(old(store), sheet)
    {
      if !reachable {
        return NotReached;
      }
      var records := DataRows(sheet);
      var i := 0;
      while i < |records|
        invariant i <= |records|
        invariant AllFit(records[..i])
        invariant store == ApplyRows(old(store), records[..i])
        invariant WellFormed(store)
      {
        var row := records[i];
        if |row| > 7 {
          PullStopsAt(old(store), sheet, i);
          return MalformedRow(i + 1);
        }
        ApplyRowsStep(old(store), records, i);
        ApplySheetRow(row);
        i := i + 1;
      }
      assert records[..i] == records;
      PullCompletes(old(store), sheet);
      outcome := Completed;
    }

    /** `students`: appends one condition per supplied query argument, then lists the
        joined students that satisfy them all, ordered by name. Nothing changes. */
    method ListStudents(dept: Option<string>, program: Option<string>, course: Option<string>)
      returns (l: seq<StudentView>)
      requires Valid()
      ensures forall s :: (exists i :: 0 <= i < |l| && l[i].student == s) <==>
        s in store.rows && s.details.deptId in catalog.departments && MatchesFilter(s, catalog, dept, program, course)
      ensures forall i, j :: 0 <= i < j < |l| ==> KeyLt(l[i].student, l[j].student)
      ensures forall i :: 0 <= i < |l| ==>
        l[i].student.details.deptId in catalog.departments && l[i] == View(l[i].student, catalog)
    {
      var conditions: seq<Condition> := [];
      if Supplied(dept) {
        conditions := conditions + [DeptCode(dept.value)];
      }
      if Supplied(program) {
        conditions := conditions + [ProgramIs(program.value)];
      }
      if Supplied(course) {
        conditions := conditions + [CourseIs(course.value)];
      }
      assert conditions == Conditions(dept, program, course);
      l := Views(Selected(store, catalog, conditions), catalog);
      assert l == ListingOf(store, catalog, dept, program, course);
      ListingMembers(store, catalog, dept, program, course);
      ListingStrictlyOrdered(store, catalog, dept, program, course);
      ListingViews(store, catalog, dept, program, course);
    }
  }
}
