/**
 * The relational store as a value: the `students` table, the lookup tables
 * `departments`, `programs` and `courses`, and the statements the core runs
 * against them (SELECT by key, INSERT, UPDATE, DELETE).
 *
 * The table's rows are kept in ascending order of the AUTO_INCREMENT primary
 * key `id`; `nextId` is the counter that hands out the next key. Reference
 * columns (`dept_id`, `program_id`, `course_id`) hold the key of the row they
 * refer to, written as text, since that is how the form and the sheet supply them.
 */
module StudentStore {
  import opened Wrappers

  datatype Department = Department(code: string, name: string)
  datatype Program = Program(deptId: string, name: string)
  datatype Course = Course(code: string, name: string)

  /** The lookup tables, each keyed by its primary key. */
  datatype Catalog = Catalog(
    departments: map<string, Department>,
    programs: map<string, Program>,
    courses: map<string, Course>)

  /** The columns of a student row other than `id` and `student_id`; NULL is None. */
  datatype Details = Details(
    name: string,
    deptId: string,
    programId: Option<string>,
    courseId: Option<string>,
    semester: Option<string>,
    grade: Option<string>)

  datatype Student = Student(id: nat, studentId: string, details: Details)

  datatype Store = Store(rows: seq<Student>, nextId: nat)

  /** The table invariant: primary keys increase along the rows and are all below
      the AUTO_INCREMENT counter, and no two rows share a `student_id`. The last part is
      an assumption about the schema, a UNIQUE constraint on `student_id`, which the
      model takes for granted. */
  predicate WellFormed(st: Store)
  {
    && (forall i, j :: 0 <= i < j < |st.rows| ==> st.rows[i].id < st.rows[j].id)
    && (forall i :: 0 <= i < |st.rows| ==> st.rows[i].id < st.nextId)
    && (forall i, j :: 0 <= i < j < |st.rows| ==> st.rows[i].studentId != st.rows[j].studentId)
  }

  /** `SELECT * FROM students WHERE id=%s`: the position of the row with that key. */
  function IndexOfId(rows: seq<Student>, id: nat): (r: Option<nat>)
    ensures r.Some? ==> r.value < |rows| && rows[r.value].id == id
    ensures r.Some? ==> forall k :: 0 <= k < r.value ==> rows[k].id != id
    ensures r.None? ==> forall k :: 0 <= k < |rows| ==> rows[k].id != id
  {
    if rows == [] then None
    else if rows[0].id == id then Some(0)
    else
      match IndexOfId(rows[1..], id)
      case None => None
      case Some(k) => Some(k + 1)
  }

  /** `SELECT * FROM students WHERE student_id=%s`: the position of the row with that
      student ID. */
  function IndexOfStudentId(rows: seq<Student>, sid: string): (r: Option<nat>)
    ensures r.Some? ==> r.value < |rows| && rows[r.value].studentId == sid
    ensures r.Some? ==> forall k :: 0 <= k < r.value ==> rows[k].studentId != sid
    ensures r.None? ==> forall k :: 0 <= k < |rows| ==> rows[k].studentId != sid
  {
    if rows == [] then None
    else if rows[0].studentId == sid then Some(0)
    else
      match IndexOfStudentId(rows[1..], sid)
      case None => None
      case Some(k) => Some(k + 1)
  }

  /** INSERT INTO students: the new row gets the next AUTO_INCREMENT key. Under the
      assumed UNIQUE constraint on `student_id` a duplicate is rejected (None) and the table,
      counter included, is left as it was. */
  function InsertStudent(st: Store, sid: string, d: Details): (r: Option<Store>)
    ensures r.Some? <==> forall k :: 0 <= k < |st.rows| ==> st.rows[k].studentId != sid
    ensures r.Some? ==>
      && |r.value.rows| == |st.rows| + 1
      && r.value.rows[..|st.rows|] == st.rows
      && r.value.rows[|st.rows|] == Student(st.nextId, sid, d)
      && r.value.nextId == st.nextId + 1
    ensures r.Some? && WellFormed(st) ==> WellFormed(r.value)
  {
    if IndexOfStudentId(st.rows, sid).Some? then None
    else Some(Store(st.rows + [Student(st.nextId, sid, d)], st.nextId + 1))
  }

  /** `UPDATE students SET student_id=.., name=.., ... WHERE id=%s`: the row with key `id`
      takes the new student ID and columns; every other row is untouched. Under the
      assumed UNIQUE constraint on `student_id` a student ID that another row already has is
      rejected (None). */
  function UpdateById(st: Store, id: nat, sid: string, d: Details): (r: Option<Store>)
    ensures r.None? <==> exists k :: 0 <= k < |st.rows| && st.rows[k].id != id && st.rows[k].studentId == sid
    ensures r.Some? ==>
      && |r.value.rows| == |st.rows|
      && r.value.nextId == st.nextId
      && (forall k :: 0 <= k < |st.rows| && st.rows[k].id == id ==> r.value.rows[k] == Student(id, sid, d))
      && (forall k :: 0 <= k < |st.rows| && st.rows[k].id != id ==> r.value.rows[k] == st.rows[k])
    ensures r.Some? && WellFormed(st) ==> WellFormed(r.value)
  {
    if exists k :: 0 <= k < |st.rows| && st.rows[k].id != id && st.rows[k].studentId == sid then None
    else
      var rows := seq(|st.rows|, k requires 0 <= k < |st.rows| =>
        if st.rows[k].id == id then Student(id, sid, d) else st.rows[k]);
      Some(Store(rows, st.nextId))
  }

  /** `UPDATE students SET name=.., dept_id=.., ... WHERE student_id=%s`: the columns of the
      row with that student ID are overwritten; its key and student ID stay, and so does
      every other row. */
  function UpdateByStudentId(st: Store, sid: string, d: Details): (r: Store)
    ensures |r.rows| == |st.rows| && r.nextId == st.nextId
    ensures forall k :: 0 <= k < |st.rows| && st.rows[k].studentId == sid ==>
      r.rows[k] == Student(st.rows[k].id, sid, d)
    ensures forall k :: 0 <= k < |st.rows| && st.rows[k].studentId != sid ==> r.rows[k] == st.rows[k]
    ensures WellFormed(st) ==> WellFormed(r)
  {
    var rows := seq(|st.rows|, k requires 0 <= k < |st.rows| =>
      if st.rows[k].studentId == sid then st.rows[k].(details := d) else st.rows[k]);
    Store(rows, st.nextId)
  }

  /** `DELETE FROM students WHERE id=%s`: removes the row with that key, if there is one;
      the counter is not rewound. */
  function DeleteById(st: Store, id: nat): (r: Store)
    ensures r.nextId == st.nextId
    ensures IndexOfId(st.rows, id).None? ==> r == st
    ensures WellFormed(st) ==> WellFormed(r)
    ensures WellFormed(st) ==> forall s :: s in r.rows <==> s in st.rows && s.id != id
  {
    match IndexOfId(st.rows, id)
    case None => st
    case Some(k) =>
      var r := Store(st.rows[..k] + st.rows[k + 1..], st.nextId);
      assert forall j :: 0 <= j < |r.rows| ==> r.rows[j] == st.rows[if j < k then j else j + 1];
      r
  }

  /** No two elements share a primary key (stated element by element, which is the
      form the sorting proofs use). */
  predicate DistinctIds(xs: seq<Student>)
  {
    xs == [] || ((forall y :: y in xs[1..] ==> y.id != xs[0].id) && DistinctIds(xs[1..]))
  }

  lemma {:induction false} WellFormedDistinctIds(st: Store)
    requires WellFormed(st)
    ensures DistinctIds(st.rows)
    decreases |st.rows|
  {
    if st.rows != [] {
      WellFormedDistinctIds(Store(st.rows[1..], st.nextId));
    }
  }

  /** The inner join `JOIN departments d ON s.dept_id = d.id`: the students whose
      department exists, in table order. */
  function Joined(rows: seq<Student>, cat: Catalog): (r: seq<Student>)
    ensures forall s :: s in r <==> s in rows && s.details.deptId in cat.departments
    ensures DistinctIds(rows) ==> DistinctIds(r)
  {
    if rows == [] then []
    else if rows[0].details.deptId in cat.departments then [rows[0]] + Joined(rows[1..], cat)
    else Joined(rows[1..], cat)
  }

  /** The left joins: the program's and course's name, or NULL when the reference is
      NULL or names no row. */
  function ProgramName(s: Student, cat: Catalog): (r: Option<string>)
    ensures r.Some? <==> s.details.programId.Some? && s.details.programId.value in cat.programs
    ensures r.Some? ==> r.value == cat.programs[s.details.programId.value].name
  {
    match s.details.programId
    case Some(p) => if p in cat.programs then Some(cat.programs[p].name) else None
    case None => None
  }

  function CourseName(s: Student, cat: Catalog): (r: Option<string>)
    ensures r.Some? <==> s.details.courseId.Some? && s.details.courseId.value in cat.courses
    ensures r.Some? ==> r.value == cat.courses[s.details.courseId.value].name
  {
    match s.details.courseId
    case Some(c) => if c in cat.courses then Some(cat.courses[c].name) else None
    case None => None
  }
}
