/**
 * The pull direction of the mirror, `sync_from_gsheet`: every sheet row below
 * the header is upserted into the store by its student ID, in sheet order.
 * An empty row is skipped; a short row is right-padded with empty cells to
 * seven; a row of more than seven cells makes the seven-way unpacking raise,
 * which ends the pull with the earlier rows already committed. Columns 2-4
 * are stored as they are, as the keys of the department, program and course.
 * This module holds the rows' effect on the store as functions; the loop that
 * applies them is `StudentApp.SyncFromSheet`.
 */
module PullSync {
  import opened Wrappers
  import opened StudentStore
  import opened NameOrder
  import opened PushSync

  /** `get_all_values()[1:]`: the sheet without its first row. */
  function DataRows(sheet: seq<seq<string>>): (r: seq<seq<string>>)
    ensures |r| == if sheet == [] then 0 else |sheet| - 1
    ensures forall i :: 0 <= i < |r| ==> r[i] == sheet[i + 1]
  {
    if sheet == [] then [] else sheet[1..]
  }

  function Blanks(n: nat): (r: seq<string>)
    ensures |r| == n && forall k :: 0 <= k < n ==> r[k] == ""
  {
    if n == 0 then [] else Blanks(n - 1) + [""]
  }

  /** `row + [''] * (7 - len(row))`: a row shorter than seven cells is right-padded with
      empty cells to seven; a repetition by a negative count is empty, so a longer row is
      left as it is. */
  function Pad(row: seq<string>): (r: seq<string>)
    ensures |r| == if |row| <= 7 then 7 else |row|
    ensures r[..|row|] == row
    ensures forall k :: |row| <= k < |r| ==> r[k] == ""
  {
    if |row| < 7 then row + Blanks(7 - |row|) else row
  }

  /** The columns a seven-cell row writes: name, then the department, program and course
      keys exactly as the cells hold them, then semester and grade. */
  function Decode(row: seq<string>): (d: Details)
    requires |row| == 7
    ensures Complete(Student(0, row[0], d)) && StoredRow(Student(0, row[0], d)) == row
  {
    Details(row[1], row[2], Some(row[3]), Some(row[4]), Some(row[5]), Some(row[6]))
  }

  /** One pass of the pull loop over a row of at most seven cells: skip it when empty, else
      pad it and UPDATE the student with its ID, or INSERT a new one when there is none. */
  function UpsertRow(st: Store, row: seq<string>): (r: Store)
    requires |row| <= 7
    ensures row == [] ==> r == st
    ensures WellFormed(st) ==> WellFormed(r)
    ensures row != [] && IndexOfStudentId(st.rows, Pad(row)[0]).None? ==>
      && r.rows == st.rows + [Student(st.nextId, Pad(row)[0], Decode(Pad(row)))]
      && r.nextId == st.nextId + 1
    ensures row != [] && WellFormed(st) && IndexOfStudentId(st.rows, Pad(row)[0]).Some? ==>
      var k := IndexOfStudentId(st.rows, Pad(row)[0]).value;
      && |r.rows| == |st.rows| && r.nextId == st.nextId
      && r.rows[k] == Student(st.rows[k].id, st.rows[k].studentId, Decode(Pad(row)))
      && (forall j :: 0 <= j < |st.rows| && j != k ==> r.rows[j] == st.rows[j])
  {
    if row == [] then st
    else
      var padded := Pad(row);
      var sid := padded[0];
      if IndexOfStudentId(st.rows, sid).Some? then
        UpdateByStudentId(st, sid, Decode(padded))
      else
        InsertStudent(st, sid, Decode(padded)).value
  }

  predicate AllFit(rows: seq<seq<string>>)
  {
    forall row :: row in rows ==> |row| <= 7
  }

  /** The rows applied one after the other, in sheet order. */
  function ApplyRows(st: Store, rows: seq<seq<string>>): (r: Store)
    requires AllFit(rows)
    ensures WellFormed(st) ==> WellFormed(r)
    ensures st.nextId <= r.nextId
  {
    if rows == [] then st
    else
      assert rows[|rows| - 1] in rows;
      UpsertRow(ApplyRows(st, rows[..|rows| - 1]), rows[|rows| - 1])
  }

  /** One more row applied: the step of the pull loop. */
  lemma ApplyRowsStep(st: Store, rows: seq<seq<string>>, i: nat)
    requires i < |rows| && AllFit(rows[..i]) && |rows[i]| <= 7
    ensures AllFit(rows[..i + 1])
    ensures ApplyRows(st, rows[..i + 1]) == UpsertRow(ApplyRows(st, rows[..i]), rows[i])
  {
    assert rows[..i + 1] == rows[..i] + [rows[i]];
  }

  /** The position of the first row with more than seven cells, or the number of rows. */
  function FirstOverlong(rows: seq<seq<string>>): (k: nat)
    ensures k <= |rows|
    ensures AllFit(rows[..k])
    ensures k < |rows| ==> |rows[k]| > 7
  {
    if rows == [] then 0
    else if |rows[0]| > 7 then 0
    else
      var k := FirstOverlong(rows[1..]);
      assert rows[..k + 1] == [rows[0]] + rows[1..][..k];
      k + 1
  }

  /** FirstOverlong is characterised by its two properties: the rows before it fit, and the
      row at it does not. */
  lemma FirstOverlongAt(rows: seq<seq<string>>, i: nat)
    requires i < |rows| && AllFit(rows[..i]) && |rows[i]| > 7
    ensures FirstOverlong(rows) == i
  {
  }

  lemma FirstOverlongNone(rows: seq<seq<string>>)
    requires AllFit(rows)
    ensures FirstOverlong(rows) == |rows|
  {
  }

  datatype PullOutcome =
    | Completed
    | NotReached              // opening the sheet raised; nothing was read
    | MalformedRow(index: nat)  // the unpacking raised on the row at this index of the sheet's values

  /** The store after a pull of `sheet`: the data rows before the first overlong one,
      applied in order. */
  function PullStore(st: Store, sheet: seq<seq<string>>): (r: Store)
    ensures WellFormed(st) ==> WellFormed(r)
    ensures st.nextId <= r.nextId
  {
    var rows := DataRows(sheet);
    ApplyRows(st, rows[..FirstOverlong(rows)])
  }

  function PullResult(sheet: seq<seq<string>>): (r: PullOutcome)
    ensures !r.NotReached?
    ensures r.Completed? <==> AllFit(DataRows(sheet))
    ensures r.MalformedRow? ==>
      1 <= r.index < |sheet| && |sheet[r.index]| > 7 && AllFit(sheet[1..r.index])
  {
    var rows := DataRows(sheet);
    var k := FirstOverlong(rows);
    if k < |rows| then
      assert rows[k] in rows;
      assert sheet[1..k + 1] == rows[..k];
      MalformedRow(k + 1)
    else
      assert rows[..k] == rows;
      Completed
  }

  /** A pull that meets an overlong row reports it and keeps the rows before it applied. */
  lemma PullStopsAt(st: Store, sheet: seq<seq<string>>, i: nat)
    requires i < |DataRows(sheet)| && AllFit(DataRows(sheet)[..i]) && |DataRows(sheet)[i]| > 7
    ensures PullResult(sheet) == MalformedRow(i + 1)
    ensures PullStore(st, sheet) == ApplyRows(st, DataRows(sheet)[..i])
  {
    FirstOverlongAt(DataRows(sheet), i);
  }

  /** A pull over rows that all fit applies every one of them. */
  lemma PullCompletes(st: Store, sheet: seq<seq<string>>)
    requires AllFit(DataRows(sheet))
    ensures PullResult(sheet) == Completed
    ensures PullStore(st, sheet) == ApplyRows(st, DataRows(sheet))
  {
    var rows := DataRows(sheet);
    FirstOverlongNone(rows);
    assert rows[..|rows|] == rows;
  }

  /** The header row is never processed: only the rows below it matter. */
  lemma PullIgnoresHeader(st: Store, h1: seq<string>, h2: seq<string>, rest: seq<seq<string>>)
    ensures PullStore(st, [h1] + rest) == PullStore(st, [h2] + rest)
    ensures PullResult([h1] + rest) == PullResult([h2] + rest)
  {
    assert DataRows([h1] + rest) == rest == DataRows([h2] + rest);
  }

  /** The non-empty rows of `rows`, in order. */
  function NonEmpty(rows: seq<seq<string>>): (r: seq<seq<string>>)
    ensures forall row :: row in r <==> row in rows && row != []
  {
    if rows == [] then []
    else
      var last := rows[|rows| - 1];
      assert rows == rows[..|rows| - 1] + [last];
      if last == [] then NonEmpty(rows[..|rows| - 1]) else NonEmpty(rows[..|rows| - 1]) + [last]
  }

  /** Empty rows cause no change: dropping them, wherever they stand, gives the same store. */
  lemma {:induction false} EmptyRowsChangeNothing(st: Store, rows: seq<seq<string>>)
    requires AllFit(rows)
    ensures ApplyRows(st, NonEmpty(rows)) == ApplyRows(st, rows)
  {
    if rows != [] {
      var init := rows[..|rows| - 1];
      var last := rows[|rows| - 1];
      assert rows == init + [last];
      EmptyRowsChangeNothing(st, init);
      if last != [] {
        var t := NonEmpty(init);
        assert NonEmpty(rows) == t + [last];
        assert (t + [last])[..|t|] == t;
      }
    }
  }

  /** The padded row as the pull reads it. */
  lemma PadKeepsCells(row: seq<string>, k: nat)
    requires |row| <= 7 && k < 7
    ensures Pad(row)[k] == if k < |row| then row[k] else ""
  {
    if k < |row| {
      assert Pad(row)[..|row|][k] == row[k];
    }
  }

  /** The lookup by student ID finds the same row after that row's columns are overwritten. */
  lemma IndexAfterUpdate(st: Store, sid: string, d: Details)
    requires IndexOfStudentId(st.rows, sid).Some?
    ensures IndexOfStudentId(UpdateByStudentId(st, sid, d).rows, sid) == IndexOfStudentId(st.rows, sid)
  {
    var k := IndexOfStudentId(st.rows, sid).value;
    var r := UpdateByStudentId(st, sid, d);
    assert r.rows[k].studentId == sid;
    var m := IndexOfStudentId(r.rows, sid);
    assert m.Some?;
  }

  /** The lookup by student ID finds a freshly inserted row at the end. */
  lemma IndexAfterInsert(st: Store, sid: string, d: Details)
    requires IndexOfStudentId(st.rows, sid).None?
    ensures InsertStudent(st, sid, d).Some?
    ensures IndexOfStudentId(InsertStudent(st, sid, d).value.rows, sid) == Some(|st.rows|)
  {
    var r := InsertStudent(st, sid, d).value;
    assert r.rows[|st.rows|].studentId == sid;
  }

  /** Overwriting a student's columns twice leaves the second write. */
  lemma UpdateTwice(st: Store, sid: string, d1: Details, d2: Details)
    ensures UpdateByStudentId(UpdateByStudentId(st, sid, d1), sid, d2) == UpdateByStudentId(st, sid, d2)
  {
    var a := UpdateByStudentId(UpdateByStudentId(st, sid, d1), sid, d2);
    var b := UpdateByStudentId(st, sid, d2);
    assert a.rows == b.rows;
  }

  /** Two rows with the same student ID applied one right after the other: the later one
      wins, and the earlier one leaves no trace, whether the student existed before or was
      inserted by the earlier row. `LastRowWins` covers rows that stand apart. */
  lemma LaterRowWins(st: Store, r1: seq<string>, r2: seq<string>)
    requires 0 < |r1| <= 7 && 0 < |r2| <= 7
    requires Pad(r1)[0] == Pad(r2)[0]
    ensures UpsertRow(UpsertRow(st, r1), r2) == UpsertRow(st, r2)
  {
    var sid := Pad(r1)[0];
    var d1, d2 := Decode(Pad(r1)), Decode(Pad(r2));
    var st1 := UpsertRow(st, r1);
    if IndexOfStudentId(st.rows, sid).Some? {
      assert st1 == UpdateByStudentId(st, sid, d1);
      IndexAfterUpdate(st, sid, d1);
      assert UpsertRow(st1, r2) == UpdateByStudentId(st1, sid, d2);
      UpdateTwice(st, sid, d1, d2);
    } else {
      assert st1 == InsertStudent(st, sid, d1).value;
      IndexAfterInsert(st, sid, d1);
      var a := UpsertRow(st1, r2);
      assert a == UpdateByStudentId(st1, sid, d2);
      assert a.rows == st.rows + [Student(st.nextId, sid, d2)];
    }
  }

  /** Some row of the store has the student ID `sid`, and every row with it has the
      columns `d`. */
  predicate Records(st: Store, sid: string, d: Details)
  {
    && (exists i :: 0 <= i < |st.rows| && st.rows[i].studentId == sid)
    && (forall i :: 0 <= i < |st.rows| && st.rows[i].studentId == sid ==> st.rows[i].details == d)
  }

  /** A non-empty row leaves its student recorded with the row's columns. */
  lemma UpsertRecords(st: Store, row: seq<string>)
    requires 0 < |row| <= 7
    ensures Records(UpsertRow(st, row), Pad(row)[0], Decode(Pad(row)))
  {
    var sid, d := Pad(row)[0], Decode(Pad(row));
    var k := IndexOfStudentId(st.rows, sid);
    if k.Some? {
      var r := UpdateByStudentId(st, sid, d);
      assert UpsertRow(st, row) == r;
      assert r.rows[k.value].studentId == sid;
    } else {
      var r := InsertStudent(st, sid, d).value;
      assert UpsertRow(st, row) == r;
      assert r.rows[|st.rows|].studentId == sid;
      assert forall i :: 0 <= i < |st.rows| ==> r.rows[i] == r.rows[..|st.rows|][i];
    }
  }

  /** An empty row, or a row with another student ID, leaves a recorded student as it is. */
  lemma UpsertKeepsRecord(st: Store, row: seq<string>, sid: string, d: Details)
    requires |row| <= 7 && (row == [] || Pad(row)[0] != sid)
    requires Records(st, sid, d)
    ensures Records(UpsertRow(st, row), sid, d)
  {
    if row != [] {
      var y, e := Pad(row)[0], Decode(Pad(row));
      var i :| 0 <= i < |st.rows| && st.rows[i].studentId == sid;
      if IndexOfStudentId(st.rows, y).Some? {
        var r := UpdateByStudentId(st, y, e);
        assert UpsertRow(st, row) == r;
        assert r.rows[i] == st.rows[i];
      } else {
        var r := InsertStudent(st, y, e).value;
        assert UpsertRow(st, row) == r;
        assert forall j :: 0 <= j < |st.rows| ==> r.rows[j] == r.rows[..|st.rows|][j];
        assert r.rows[i] == st.rows[i];
      }
    }
  }

  /** No row after position `k` is a non-empty row with the student ID `sid`. */
  predicate NoLaterRow(rows: seq<seq<string>>, k: nat, sid: string)
  {
    forall j :: k < j < |rows| ==> rows[j] == [] || Pad(rows[j])[0] != sid
  }

  /** The last non-empty row with a student ID decides that student's columns, whatever
      rows come before it and whatever rows with other IDs come after it. */
  lemma {:induction false} LastRowRecords(st: Store, rows: seq<seq<string>>, k: nat)
    requires AllFit(rows) && k < |rows| && 0 < |rows[k]| <= 7
    requires NoLaterRow(rows, k, Pad(rows[k])[0])
    ensures Records(ApplyRows(st, rows), Pad(rows[k])[0], Decode(Pad(rows[k])))
  {
    var init, last := rows[..|rows| - 1], rows[|rows| - 1];
    assert last in rows;
    var before := ApplyRows(st, init);
    if k == |rows| - 1 {
      UpsertRecords(before, last);
    } else {
      var sid, d := Pad(rows[k])[0], Decode(Pad(rows[k]));
      assert AllFit(init) && init[k] == rows[k] by {
        assert forall row :: row in init ==> row in rows;
      }
      assert NoLaterRow(init, k, sid);
      LastRowRecords(st, init, k);
      UpsertKeepsRecord(before, last, sid, d);
    }
  }

  /** In a well-formed store, the pull then leaves exactly one row with that student ID,
      holding the last such row's columns. */
  lemma LastRowWins(st: Store, rows: seq<seq<string>>, k: nat)
    requires WellFormed(st) && AllFit(rows) && k < |rows| && 0 < |rows[k]| <= 7
    requires NoLaterRow(rows, k, Pad(rows[k])[0])
    ensures Records(ApplyRows(st, rows), Pad(rows[k])[0], Decode(Pad(rows[k])))
    ensures var r := ApplyRows(st, rows);
      forall i, j ::
        0 <= i < j < |r.rows| ==> r.rows[i].studentId != Pad(rows[k])[0] || r.rows[j].studentId != Pad(rows[k])[0]
  {
    LastRowRecords(st, rows, k);
    assert WellFormed(ApplyRows(st, rows));
  }

  /** A student whose optional columns are all set, written as a row in the order the pull
      reads: the stored keys, not the names. */
  predicate Complete(s: Student)
  {
    s.details.programId.Some? && s.details.courseId.Some? && s.details.semester.Some? && s.details.grade.Some?
  }

  function StoredRow(s: Student): (r: seq<string>)
    ensures |r| == 7 && r[0] == s.studentId
  {
    [ s.studentId, s.details.name, s.details.deptId,
      OrEmpty(s.details.programId), OrEmpty(s.details.courseId),
      OrEmpty(s.details.semester), OrEmpty(s.details.grade) ]
  }

  /** Pulling a row that repeats what the store holds for a complete student changes nothing. */
  lemma UpsertStoredRow(st: Store, s: Student)
    requires WellFormed(st) && s in st.rows && Complete(s)
    ensures UpsertRow(st, StoredRow(s)) == st
  {
    var row := StoredRow(s);
    assert Pad(row) == row;
    var k :| 0 <= k < |st.rows| && st.rows[k] == s;
    var m := IndexOfStudentId(st.rows, s.studentId);
    assert m.Some?;
    assert m.value == k;
    var r := UpsertRow(st, row);
    assert Decode(row) == s.details;
    assert r.rows[k] == s;
    assert r.rows == st.rows;
  }

  /** Pull is a fixed point once the sheet agrees with the store: rows that each repeat a
      complete student of the store leave the store unchanged. */
  lemma {:induction false} PullFixedPoint(st: Store, rows: seq<seq<string>>)
    requires WellFormed(st)
    requires forall row :: row in rows ==> exists s :: s in st.rows && Complete(s) && row == StoredRow(s)
    ensures AllFit(rows) && ApplyRows(st, rows) == st
  {
    if rows != [] {
      var init := rows[..|rows| - 1];
      var last := rows[|rows| - 1];
      assert rows == init + [last];
      assert forall row :: row in init ==> row in rows;
      PullFixedPoint(st, init);
      assert last in rows;
      var s :| s in st.rows && Complete(s) && last == StoredRow(s);
      UpsertStoredRow(st, s);
    }
  }

  /** The push writes the department's code and the program's and course's names where the
      pull reads keys: a pushed row pulls back to the student's own columns exactly when
      those labels coincide with the stored keys and no optional column is NULL. */
  predicate RoundTrips(s: Student, cat: Catalog)
    requires s.details.deptId in cat.departments
  {
    && cat.departments[s.details.deptId].code == s.details.deptId
    && s.details.programId == Some(OrEmpty(ProgramName(s, cat)))
    && s.details.courseId == Some(OrEmpty(CourseName(s, cat)))
    && s.details.semester.Some? && s.details.grade.Some?
  }

  lemma PushedRowDecodes(s: Student, cat: Catalog)
    requires s.details.deptId in cat.departments
    ensures Decode(ProjectRow(s, cat)) == s.details <==> RoundTrips(s, cat)
  {
  }

  /** The data rows of the pushed sheet are the projections of the push order. */
  lemma PushDataRows(st: Store, cat: Catalog)
    ensures forall s :: s in PushOrder(st, cat) ==> s.details.deptId in cat.departments
    ensures DataRows(PushSheet(st, cat)) == ProjectAll(PushOrder(st, cat), cat)
  {
    var rows := ProjectAll(PushOrder(st, cat), cat);
    assert ([Header] + rows)[1..] == rows;
  }

  /** Projections of round-tripping students are the rows the store itself holds. */
  lemma ProjectionsAreStoredRows(st: Store, cat: Catalog, o: seq<Student>)
    requires forall s :: s in o ==> s in st.rows && s.details.deptId in cat.departments && RoundTrips(s, cat)
    ensures forall row :: row in ProjectAll(o, cat) ==> |row| == 7
    ensures forall row :: row in ProjectAll(o, cat) ==> exists s :: s in st.rows && Complete(s) && row == StoredRow(s)
  {
    var rows := ProjectAll(o, cat);
    forall row | row in rows
      ensures |row| == 7
      ensures exists s :: s in st.rows && Complete(s) && row == StoredRow(s)
    {
      var i :| 0 <= i < |rows| && rows[i] == row;
      assert o[i] in o;
      assert ProjectRow(o[i], cat) == StoredRow(o[i]);
    }
  }

  /** Push then pull, with nothing in between, leaves the store as it was when every pushed
      student round-trips. */
  lemma PushThenPull(st: Store, cat: Catalog)
    requires WellFormed(st)
    requires forall s :: s in st.rows && s.details.deptId in cat.departments ==> RoundTrips(s, cat)
    ensures PullResult(PushSheet(st, cat)) == Completed
    ensures PullStore(st, PushSheet(st, cat)) == st
  {
    var sheet := PushSheet(st, cat);
    PushedRowsAreStored(st, cat);
    PullFixedPoint(st, DataRows(sheet));
    PullCompletes(st, sheet);
  }

  /** Under the same condition every data row of the pushed sheet repeats a complete
      student of the store. */
  lemma PushedRowsAreStored(st: Store, cat: Catalog)
    requires forall s :: s in st.rows && s.details.deptId in cat.departments ==> RoundTrips(s, cat)
    ensures forall row :: row in DataRows(PushSheet(st, cat)) ==>
      exists s :: s in st.rows && Complete(s) && row == StoredRow(s)
  {
    var o := PushOrder(st, cat);
    PushDataRows(st, cat);
    ProjectionsAreStoredRows(st, cat, o);
  }

  /** The usual case does not round-trip: pushing a student of department key "1" whose code
      is "CS" and pulling the sheet back stores "CS" as the department key, and an unset
      program, course or grade comes back as an empty string rather than NULL. */
  lemma PushThenPullRewritesKeys()
    ensures
      var cat := Catalog(map["1" := Department("CS", "Computer Science")], map[], map[]);
      var ana := Student(1, "25-12345", Details("Ana Cruz", "1", None, None, Some("1"), None));
      var st := Store([ana], 2);
      PullStore(st, PushSheet(st, cat)) ==
        Store([Student(1, "25-12345", Details("Ana Cruz", "CS", Some(""), Some(""), Some("1"), Some("")))], 2)
  {
    var cat := Catalog(map["1" := Department("CS", "Computer Science")], map[], map[]);
    var ana := Student(1, "25-12345", Details("Ana Cruz", "1", None, None, Some("1"), None));
    var st := Store([ana], 2);
    assert Joined([ana], cat) == [ana];
    assert PushOrder(st, cat) == [ana];
    var row := ["25-12345", "Ana Cruz", "CS", "", "", "1", ""];
    assert ProjectRow(ana, cat) == row;
    assert ProjectAll([ana], cat) == [row];
    assert PushSheet(st, cat) == [Header, row];
    assert DataRows(PushSheet(st, cat)) == [row];
    assert FirstOverlong([row]) == 1;
    assert [row][..1] == [row];
    assert ApplyRows(st, [row]) == UpsertRow(st, row);
    assert Pad(row) == row;
    assert IndexOfStudentId(st.rows, "25-12345") == Some(0);
    assert UpsertRow(st, row) == UpdateByStudentId(st, "25-12345", Decode(row));
  }

  /** The pull applies no format check to the student ID and pads short rows: a sheet row
      holding just "x" adds a student with ID "x" and every other column empty. */
  lemma PullAcceptsAnyId()
    ensures PullStore(Store([], 1), [Header, ["x"]]) ==
      Store([Student(1, "x", Details("", "", Some(""), Some(""), Some(""), Some("")))], 2)
  {
    assert DataRows([Header, ["x"]]) == [["x"]];
    assert FirstOverlong([["x"]]) == 1;
    assert [["x"]][..1] == [["x"]];
    assert Pad(["x"]) == ["x", "", "", "", "", "", ""];
    assert ApplyRows(Store([], 1), [["x"]]) == UpsertRow(Store([], 1), ["x"]);
  }
}
