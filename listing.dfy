/**
 * The student list (`students`): the joined rows of the table, narrowed by
 * up to three optional query arguments that are combined with AND, and
 * ordered by name. An argument counts only when it is given and not empty.
 * The department filter compares the department's code; the program and
 * course filters compare the key of the joined row, so a student whose
 * program or course is NULL or names no row never passes them.
 */
module Listing {
  import opened Wrappers
  import opened StudentStore
  import opened NameOrder

  /** The conditions the handler can add to the WHERE clause. */
  datatype Condition =
    | DeptCode(code: string)  // d.code=%s
    | ProgramIs(pid: string)  // p.id=%s
    | CourseIs(cid: string)   // c.id=%s

  /** One listed row: the student's own columns and the joined labels, NULL as None. */
  datatype StudentView = StudentView(
    student: Student,
    deptCode: string,
    deptName: string,
    programName: Option<string>,
    courseName: Option<string>)

  /** A joined student satisfies a condition. */
  predicate Holds(c: Condition, s: Student, cat: Catalog)
    requires s.details.deptId in cat.departments
  {
    match c
    case DeptCode(code) => cat.departments[s.details.deptId].code == code
    case ProgramIs(p) => s.details.programId == Some(p) && p in cat.programs
    case CourseIs(k) => s.details.courseId == Some(k) && k in cat.courses
  }

  predicate AllHold(conds: seq<Condition>, s: Student, cat: Catalog)
    requires s.details.deptId in cat.departments
  {
    forall c :: c in conds ==> Holds(c, s, cat)
  }

  /** A query argument that the handler uses: present and not the empty string. */
  predicate Supplied(a: Option<string>)
  {
    a.Some? && a.value != ""
  }

  /** The conditions of the WHERE clause, in the order the handler appends them. */
  function Conditions(dept: Option<string>, program: Option<string>, course: Option<string>): (r: seq<Condition>)
    ensures forall c :: c in r <==>
      (Supplied(dept) && c == DeptCode(dept.value))
      || (Supplied(program) && c == ProgramIs(program.value))
      || (Supplied(course) && c == CourseIs(course.value))
  {
    (if Supplied(dept) then [DeptCode(dept.value)] else [])
    + (if Supplied(program) then [ProgramIs(program.value)] else [])
    + (if Supplied(course) then [CourseIs(course.value)] else [])
  }

  /** The filter stated directly, one clause per query argument. */
  predicate MatchesFilter(s: Student, cat: Catalog, dept: Option<string>, program: Option<string>, course: Option<string>)
    requires s.details.deptId in cat.departments
  {
    && (Supplied(dept) ==> cat.departments[s.details.deptId].code == dept.value)
    && (Supplied(program) ==> s.details.programId == program && program.value in cat.programs)
    && (Supplied(course) ==> s.details.courseId == course && course.value in cat.courses)
  }

  /** The WHERE clause the handler assembles selects exactly the students the three
      filters, taken together, allow. */
  lemma ConditionsMatchFilter(s: Student, cat: Catalog, dept: Option<string>, program: Option<string>, course: Option<string>)
    requires s.details.deptId in cat.departments
    ensures AllHold(Conditions(dept, program, course), s, cat) <==> MatchesFilter(s, cat, dept, program, course)
  {
    var conds := Conditions(dept, program, course);
    if Supplied(dept) { assert DeptCode(dept.value) in conds; }
    if Supplied(program) { assert ProgramIs(program.value) in conds; }
    if Supplied(course) { assert CourseIs(course.value) in conds; }
  }

  /** The joined students that satisfy every condition, in their given order. */
  function Filter(xs: seq<Student>, conds: seq<Condition>, cat: Catalog): (r: seq<Student>)
    requires forall s :: s in xs ==> s.details.deptId in cat.departments
    ensures forall s :: s in r <==> s in xs && AllHold(conds, s, cat)
    ensures conds == [] ==> r == xs
    ensures DistinctIds(xs) ==> DistinctIds(r)
  {
    if xs == [] then []
    else
      assert xs == [xs[0]] + xs[1..];
      var t := Filter(xs[1..], conds, cat);
      if AllHold(conds, xs[0], cat) then [xs[0]] + t else t
  }

  /** The selected students, ordered by name. */
  function Selected(st: Store, cat: Catalog, conds: seq<Condition>): (r: seq<Student>)
    ensures forall s :: s in r ==> s.details.deptId in cat.departments
    ensures forall s :: s in r <==> s in st.rows && s.details.deptId in cat.departments && AllHold(conds, s, cat)
    ensures Sorted(r)
  {
    var xs := Filter(Joined(st.rows, cat), conds, cat);
    SortedMembers(xs);
    Sort(xs)
  }

  /** The columns the query adds to a student: d.code, d.name, p.name, c.name. */
  function View(s: Student, cat: Catalog): StudentView
    requires s.details.deptId in cat.departments
  {
    var d := cat.departments[s.details.deptId];
    StudentView(s, d.code, d.name, ProgramName(s, cat), CourseName(s, cat))
  }

  function Views(xs: seq<Student>, cat: Catalog): (r: seq<StudentView>)
    requires forall s :: s in xs ==> s.details.deptId in cat.departments
    ensures |r| == |xs|
    ensures forall i :: 0 <= i < |xs| ==> r[i] == View(xs[i], cat)
  {
    if xs == [] then []
    else
      assert xs[0] in xs;
      assert forall s :: s in xs[1..] ==> s in xs;
      [View(xs[0], cat)] + Views(xs[1..], cat)
  }

  /** The page's student list for the given query arguments. */
  function ListingOf(st: Store, cat: Catalog, dept: Option<string>, program: Option<string>, course: Option<string>): seq<StudentView>
  {
    Views(Selected(st, cat, Conditions(dept, program, course)), cat)
  }

  /** The list holds exactly the joined students that pass every supplied filter. */
  lemma ListingMembers(st: Store, cat: Catalog, dept: Option<string>, program: Option<string>, course: Option<string>)
    ensures var l := ListingOf(st, cat, dept, program, course);
      forall s :: (exists i :: 0 <= i < |l| && l[i].student == s) <==>
        s in st.rows && s.details.deptId in cat.departments && MatchesFilter(s, cat, dept, program, course)
  {
    var sel := Selected(st, cat, Conditions(dept, program, course));
    var l := ListingOf(st, cat, dept, program, course);
    forall s ensures (exists i :: 0 <= i < |l| && l[i].student == s) <==> s in sel {
      if s in sel {
        var i :| 0 <= i < |sel| && sel[i] == s;
        assert l[i].student == s;
      }
      if exists i :: 0 <= i < |l| && l[i].student == s {
        var i :| 0 <= i < |l| && l[i].student == s;
        assert sel[i] in sel;
      }
    }
    forall s | s in st.rows && s.details.deptId in cat.departments
      ensures AllHold(Conditions(dept, program, course), s, cat) <==> MatchesFilter(s, cat, dept, program, course)
    {
      ConditionsMatchFilter(s, cat, dept, program, course);
    }
  }

  /** The list is strictly ordered by name, ties by key, so no student is listed twice. */
  lemma ListingStrictlyOrdered(st: Store, cat: Catalog, dept: Option<string>, program: Option<string>, course: Option<string>)
    requires WellFormed(st)
    ensures var l := ListingOf(st, cat, dept, program, course);
      forall i, j :: 0 <= i < j < |l| ==> KeyLt(l[i].student, l[j].student)
  {
    var conds := Conditions(dept, program, course);
    var xs := Filter(Joined(st.rows, cat), conds, cat);
    WellFormedDistinctIds(st);
    SortStrict(xs);
    SortedMembers(xs);
    var sel := Selected(st, cat, conds);
    var l := ListingOf(st, cat, dept, program, course);
    assert forall i :: 0 <= i < |l| ==> l[i].student == sel[i];
  }

  /** Every listed row carries its student's department code and name and its program's
      and course's name, NULL when the reference is unset or dangling. */
  lemma ListingViews(st: Store, cat: Catalog, dept: Option<string>, program: Option<string>, course: Option<string>)
    ensures var l := ListingOf(st, cat, dept, program, course);
      forall i :: 0 <= i < |l| ==> l[i].student.details.deptId in cat.departments && l[i] == View(l[i].student, cat)
  {
    var sel := Selected(st, cat, Conditions(dept, program, course));
    var l := ListingOf(st, cat, dept, program, course);
    forall i | 0 <= i < |l| ensures l[i].student.details.deptId in cat.departments && l[i] == View(l[i].student, cat) {
      assert sel[i] in sel;
    }
  }

  /** Without a filter the list shows the same students in the same order as the sheet the
      push writes. */
  lemma UnfilteredListingIsPushOrder(st: Store, cat: Catalog)
    ensures var l := ListingOf(st, cat, None, None, None);
      |l| == |Sort(Joined(st.rows, cat))|
      && forall i :: 0 <= i < |l| ==> l[i].student == Sort(Joined(st.rows, cat))[i]
  {
    assert Conditions(None, None, None) == [];
  }

  /** An empty query argument, for the department, the program or the course, is the same
      as none. */
  lemma EmptyArgumentIgnored(st: Store, cat: Catalog, dept: Option<string>, program: Option<string>, course: Option<string>)
    ensures ListingOf(st, cat, Some(""), program, course) == ListingOf(st, cat, None, program, course)
    ensures ListingOf(st, cat, dept, Some(""), course) == ListingOf(st, cat, dept, None, course)
    ensures ListingOf(st, cat, dept, program, Some("")) == ListingOf(st, cat, dept, program, None)
  {
  }
}
