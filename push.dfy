/**
 * The push direction of the mirror, `sync_students_to_sheet`: every student
 * with an existing department becomes one seven-cell row, the rows are ordered
 * by name, a fixed header row goes on top, and that table replaces the whole
 * content of the sheet. This module holds the table the push writes, as a
 * function of the store; the method that builds and writes it is
 * `StudentApp.SyncStudentsToSheet`.
 */
module PushSync {
  import opened Wrappers
  import opened Text
  import opened StudentStore
  import opened NameOrder

  const Header: seq<string> := ["StudentID", "Name", "Department", "Program", "Course", "Semester", "Grade"]

  /** The seven cells the query selects for one joined student; the left-joined names and
      the nullable columns are COALESCEd to the empty string. */
  function ProjectRow(s: Student, cat: Catalog): (r: seq<string>)
    requires s.details.deptId in cat.departments
    ensures |r| == 7 && r[0] == s.studentId
  {
    [ s.studentId,
      s.details.name,
      cat.departments[s.details.deptId].code,
      OrEmpty(ProgramName(s, cat)),
      OrEmpty(CourseName(s, cat)),
      OrEmpty(s.details.semester),
      OrEmpty(s.details.grade) ]
  }

  /** The rows of the push query: the students with an existing department, ordered by name. */
  function PushOrder(st: Store, cat: Catalog): (r: seq<Student>)
    ensures forall s :: s in r <==> s in st.rows && s.details.deptId in cat.departments
    ensures Sorted(r)
  {
    SortedMembers(Joined(st.rows, cat));
    Sort(Joined(st.rows, cat))
  }

  /** The projections of `xs`, one row each, in the same order (built from the end, as the
      loop appends them). */
  function ProjectAll(xs: seq<Student>, cat: Catalog): (r: seq<seq<string>>)
    requires forall s :: s in xs ==> s.details.deptId in cat.departments
    ensures |r| == |xs|
    ensures forall i :: 0 <= i < |xs| ==> r[i] == ProjectRow(xs[i], cat)
  {
    if xs == [] then []
    else ProjectAll(xs[..|xs| - 1], cat) + [ProjectRow(xs[|xs| - 1], cat)]
  }

  /** One more student projected: the step of the loop that appends rows. */
  lemma ProjectAllStep(xs: seq<Student>, i: nat, cat: Catalog)
    requires forall s :: s in xs ==> s.details.deptId in cat.departments
    requires i < |xs|
    ensures forall s :: s in xs[..i + 1] ==> s.details.deptId in cat.departments
    ensures ProjectAll(xs[..i + 1], cat) == ProjectAll(xs[..i], cat) + [ProjectRow(xs[i], cat)]
  {
    assert xs[..i + 1][..i] == xs[..i];
  }

  /** What the sheet holds after a successful push: the header, then one row per joined
      student in name order. It depends on the store and the lookup tables only. */
  function PushSheet(st: Store, cat: Catalog): (r: seq<seq<string>>)
  {
    [Header] + ProjectAll(PushOrder(st, cat), cat)
  }

  /** Row 0 is the header and row i is the projection of the (i-1)-th student in name order. */
  lemma PushSheetRows(st: Store, cat: Catalog)
    ensures |PushSheet(st, cat)| == |PushOrder(st, cat)| + 1
    ensures PushSheet(st, cat)[0] == Header
    ensures forall i :: 1 <= i < |PushSheet(st, cat)| ==>
      PushSheet(st, cat)[i] == ProjectRow(PushOrder(st, cat)[i - 1], cat)
  {
    var o := PushOrder(st, cat);
    var rows := ProjectAll(o, cat);
    assert PushSheet(st, cat) == [Header] + rows;
  }

  /** Every data row has exactly seven cells, and a missing program, course, semester or
      grade is an empty cell. */
  lemma PushSheetShape(st: Store, cat: Catalog)
    ensures forall i :: 1 <= i < |PushSheet(st, cat)| ==> |PushSheet(st, cat)[i]| == 7
    ensures forall i :: 1 <= i < |PushSheet(st, cat)| ==>
      var s := PushOrder(st, cat)[i - 1];
      && (s.details.programId.None? ==> PushSheet(st, cat)[i][3] == "")
      && (s.details.courseId.None? ==> PushSheet(st, cat)[i][4] == "")
      && (s.details.semester.None? ==> PushSheet(st, cat)[i][5] == "")
      && (s.details.grade.None? ==> PushSheet(st, cat)[i][6] == "")
  {
    PushSheetRows(st, cat);
  }

  /** In a well-formed store the students of the push query have pairwise different
      student IDs and are strictly ordered. */
  lemma PushOrderStrict(st: Store, cat: Catalog)
    requires WellFormed(st)
    ensures StrictlySorted(PushOrder(st, cat))
    ensures forall i, j :: 0 <= i < j < |PushOrder(st, cat)| ==>
      PushOrder(st, cat)[i].studentId != PushOrder(st, cat)[j].studentId
  {
    var o := PushOrder(st, cat);
    WellFormedDistinctIds(st);
    SortStrict(Joined(st.rows, cat));
    forall i, j | 0 <= i < j < |o| ensures o[i].studentId != o[j].studentId {
      var x, y := o[i], o[j];
      assert KeyLt(x, y);
      assert x in o && y in o;
      var p :| 0 <= p < |st.rows| && st.rows[p] == x;
      var q :| 0 <= q < |st.rows| && st.rows[q] == y;
      assert p != q;
    }
  }

  /** Each data row is the projection of a student whose department exists, and each such
      student's projection is a data row. */
  lemma PushRowsAreProjections(st: Store, cat: Catalog)
    ensures forall s :: s in st.rows && s.details.deptId in cat.departments ==>
      ProjectRow(s, cat) in PushSheet(st, cat)[1..]
    ensures forall i :: 1 <= i < |PushSheet(st, cat)| ==>
      exists s :: s in st.rows && s.details.deptId in cat.departments && PushSheet(st, cat)[i] == ProjectRow(s, cat)
  {
    var o := PushOrder(st, cat);
    var sheet := PushSheet(st, cat);
    PushSheetRows(st, cat);
    forall s | s in st.rows && s.details.deptId in cat.departments
      ensures ProjectRow(s, cat) in sheet[1..]
    {
      var k :| 0 <= k < |o| && o[k] == s;
      assert sheet[1..][k] == sheet[k + 1];
    }
    forall i | 1 <= i < |sheet|
      ensures exists s :: s in st.rows && s.details.deptId in cat.departments && sheet[i] == ProjectRow(s, cat)
    {
      assert o[i - 1] in o;
    }
  }

  /** One row per student: no student ID appears in two data rows. */
  lemma PushRowsDistinct(st: Store, cat: Catalog)
    requires WellFormed(st)
    ensures forall i, j :: 1 <= i < j < |PushSheet(st, cat)| ==> PushSheet(st, cat)[i][0] != PushSheet(st, cat)[j][0]
  {
    var o := PushOrder(st, cat);
    var sheet := PushSheet(st, cat);
    PushSheetRows(st, cat);
    PushOrderStrict(st, cat);
    forall i, j | 1 <= i < j < |sheet| ensures sheet[i][0] != sheet[j][0] {
      assert sheet[i][0] == o[i - 1].studentId;
      assert sheet[j][0] == o[j - 1].studentId;
    }
  }

  /** A student whose department exists has a row with its student ID. */
  lemma JoinedStudentHasRow(st: Store, cat: Catalog, s: Student)
    requires s in st.rows && s.details.deptId in cat.departments
    ensures exists i :: 1 <= i < |PushSheet(st, cat)| && PushSheet(st, cat)[i][0] == s.studentId
  {
    var o := PushOrder(st, cat);
    PushSheetRows(st, cat);
    var k :| 0 <= k < |o| && o[k] == s;
    assert PushSheet(st, cat)[k + 1][0] == s.studentId;
  }

  /** A row carrying a student's ID is that student's own row, so its department exists. */
  lemma RowMeansJoined(st: Store, cat: Catalog, s: Student, i: nat)
    requires WellFormed(st) && s in st.rows
    requires 1 <= i < |PushSheet(st, cat)| && PushSheet(st, cat)[i][0] == s.studentId
    ensures s.details.deptId in cat.departments
  {
    var o := PushOrder(st, cat);
    PushSheetRows(st, cat);
    var x := o[i - 1];
    assert x in o;
    assert x.studentId == s.studentId;
    var p :| 0 <= p < |st.rows| && st.rows[p] == x;
    var q :| 0 <= q < |st.rows| && st.rows[q] == s;
    assert p == q;
  }

  /** A student of the store has a row, found by its student ID, exactly when its
      department exists: the inner join drops the others. */
  lemma PushRowIffJoined(st: Store, cat: Catalog)
    requires WellFormed(st)
    ensures forall s :: s in st.rows ==>
      ((exists i :: 1 <= i < |PushSheet(st, cat)| && PushSheet(st, cat)[i][0] == s.studentId) <==>
        s.details.deptId in cat.departments)
  {
    var sheet := PushSheet(st, cat);
    forall s | s in st.rows
      ensures (exists i :: 1 <= i < |sheet| && sheet[i][0] == s.studentId) <==> s.details.deptId in cat.departments
    {
      if s.details.deptId in cat.departments {
        JoinedStudentHasRow(st, cat, s);
      }
      if i :| 1 <= i < |sheet| && sheet[i][0] == s.studentId {
        RowMeansJoined(st, cat, s, i);
      }
    }
  }

  /** The data rows are in ascending order of the Name cell. */
  lemma PushRowsSortedByName(st: Store, cat: Catalog)
    ensures forall i, j :: 1 <= i < j < |PushSheet(st, cat)| ==>
      StrLeq(PushSheet(st, cat)[i][1], PushSheet(st, cat)[j][1])
  {
    PushSheetRows(st, cat);
    SortedNames(PushOrder(st, cat));
  }

  /** The students of `xs` other than the one with key `id`, in order. */
  function WithoutId(xs: seq<Student>, id: nat): (r: seq<Student>)
    ensures forall s :: s in r <==> s in xs && s.id != id
  {
    if xs == [] then []
    else if xs[|xs| - 1].id == id then WithoutId(xs[..|xs| - 1], id)
    else
      assert xs == xs[..|xs| - 1] + [xs[|xs| - 1]];
      WithoutId(xs[..|xs| - 1], id) + [xs[|xs| - 1]]
  }

  /** The sheet rows other than those whose first cell is `sid`, in order. */
  function WithoutRowsOf(rows: seq<seq<string>>, sid: string): (r: seq<seq<string>>)
    ensures forall row :: row in r <==> row in rows && (row == [] || row[0] != sid)
  {
    if rows == [] then []
    else
      var last := rows[|rows| - 1];
      assert rows == rows[..|rows| - 1] + [last];
      if last != [] && last[0] == sid then WithoutRowsOf(rows[..|rows| - 1], sid)
      else WithoutRowsOf(rows[..|rows| - 1], sid) + [last]
  }

  lemma {:induction false} WithoutIdStrict(xs: seq<Student>, id: nat)
    requires StrictlySorted(xs)
    ensures StrictlySorted(WithoutId(xs, id))
  {
    if xs != [] {
      var init := xs[..|xs| - 1];
      var last := xs[|xs| - 1];
      WithoutIdStrict(init, id);
      var r := WithoutId(xs, id);
      if last.id != id {
        var t := WithoutId(init, id);
        assert r == t + [last];
        forall i, j | 0 <= i < j < |r| ensures KeyLt(r[i], r[j]) {
          if j == |r| - 1 {
            assert r[i] in t;
            var p :| 0 <= p < |init| && init[p] == r[i];
            assert xs[p] == r[i];
          } else {
            assert r[i] == t[i] && r[j] == t[j];
          }
        }
      }
    }
  }

  /** Dropping the student with key `id` drops exactly the rows carrying its student ID,
      when key and student ID identify the same students of `xs`. */
  lemma {:induction false} ProjectWithoutId(xs: seq<Student>, cat: Catalog, id: nat, sid: string)
    requires forall s :: s in xs ==> s.details.deptId in cat.departments
    requires forall s :: s in xs ==> (s.id == id <==> s.studentId == sid)
    ensures ProjectAll(WithoutId(xs, id), cat) == WithoutRowsOf(ProjectAll(xs, cat), sid)
  {
    if xs != [] {
      var init := xs[..|xs| - 1];
      var last := xs[|xs| - 1];
      assert xs == init + [last];
      assert forall s :: s in init ==> s in xs;
      ProjectWithoutId(init, cat, id, sid);
      var rows := ProjectAll(xs, cat);
      assert rows == ProjectAll(init, cat) + [ProjectRow(last, cat)];
      assert rows[..|rows| - 1] == ProjectAll(init, cat);
      var t := WithoutId(init, id);
      var lastRow := ProjectRow(last, cat);
      assert rows[|rows| - 1] == lastRow;
      assert lastRow != [] && lastRow[0] == last.studentId;
      if last.id == id {
        assert WithoutId(xs, id) == t;
        assert WithoutRowsOf(rows, sid) == WithoutRowsOf(ProjectAll(init, cat), sid);
      } else {
        assert WithoutId(xs, id) == t + [last];
        assert (t + [last])[..|t|] == t;
        assert ProjectAll(t + [last], cat) == ProjectAll(t, cat) + [lastRow];
        assert WithoutRowsOf(rows, sid) == WithoutRowsOf(ProjectAll(init, cat), sid) + [lastRow];
      }
    }
  }

  /** Deleting a student and pushing removes exactly that student's row from the sheet and
      no other; deleting a key no row has changes nothing. */
  lemma DeleteThenPush(st: Store, cat: Catalog, id: nat)
    requires WellFormed(st)
    ensures IndexOfId(st.rows, id).None? ==> PushSheet(DeleteById(st, id), cat) == PushSheet(st, cat)
    ensures IndexOfId(st.rows, id).Some? ==>
      PushSheet(DeleteById(st, id), cat) ==
        [Header] + WithoutRowsOf(PushSheet(st, cat)[1..], st.rows[IndexOfId(st.rows, id).value].studentId)
  {
    if IndexOfId(st.rows, id).Some? {
      var k := IndexOfId(st.rows, id).value;
      var sid := st.rows[k].studentId;
      var after := DeleteById(st, id);
      var o := PushOrder(st, cat);
      var o' := PushOrder(after, cat);
      WellFormedDistinctIds(st);
      SortStrict(Joined(st.rows, cat));
      WithoutIdStrict(o, id);
      WellFormedDistinctIds(after);
      SortCharacterized(Joined(after.rows, cat), WithoutId(o, id));
      assert o' == WithoutId(o, id);
      forall s | s in o ensures s.id == id <==> s.studentId == sid {
        var p :| 0 <= p < |st.rows| && st.rows[p] == s;
        if s.id == id || s.studentId == sid {
          assert p == k;
        }
      }
      ProjectWithoutId(o, cat, id, sid);
    }
  }

  /** The worked example: a student with a program but no course and no grade. */
  lemma PushExample()
    ensures
      var cat := Catalog(
        map["1" := Department("CS", "Computer Science")],
        map["4" := Program("1", "BSCS")],
        map[]);
      var ana := Student(1, "25-12345", Details("Ana Cruz", "1", Some("4"), None, Some("1"), None));
      PushSheet(Store([ana], 2), cat) == [Header, ["25-12345", "Ana Cruz", "CS", "BSCS", "", "1", ""]]
  {
    var cat := Catalog(
      map["1" := Department("CS", "Computer Science")],
      map["4" := Program("1", "BSCS")],
      map[]);
    var ana := Student(1, "25-12345", Details("Ana Cruz", "1", Some("4"), None, Some("1"), None));
    assert Joined([ana], cat) == [ana];
    assert PushOrder(Store([ana], 2), cat) == [ana];
  }
}
