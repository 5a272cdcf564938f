/**
 * `ORDER BY s.name ASC`. SQL leaves the order of equal names open; the model
 * breaks ties by the primary key, which is what a stable sort over the table's
 * key order gives. With distinct keys this is a strict total order, so the
 * sorted result is determined by the set of students alone.
 */
module NameOrder {
  import opened Text
  import opened StudentStore

  /** `a` is listed no later than `b`. */
  predicate KeyLe(a: Student, b: Student)
  {
    if a.details.name == b.details.name then a.id <= b.id else StrLeq(a.details.name, b.details.name)
  }

  /** `a` is listed strictly before `b`. */
  predicate KeyLt(a: Student, b: Student)
  {
    if a.details.name == b.details.name then a.id < b.id else StrLeq(a.details.name, b.details.name)
  }

  predicate Sorted(xs: seq<Student>)
  {
    forall i, j :: 0 <= i < j < |xs| ==> KeyLe(xs[i], xs[j])
  }

  predicate StrictlySorted(xs: seq<Student>)
  {
    forall i, j :: 0 <= i < j < |xs| ==> KeyLt(xs[i], xs[j])
  }

  lemma KeyLeTotal(a: Student, b: Student)
    ensures KeyLe(a, b) || KeyLe(b, a)
  {
    StrLeqTotal(a.details.name, b.details.name);
  }

  lemma KeyLeTransitive(a: Student, b: Student, c: Student)
    requires KeyLe(a, b) && KeyLe(b, c)
    ensures KeyLe(a, c)
  {
    var x, y, z := a.details.name, b.details.name, c.details.name;
    if x != y && y != z {
      StrLeqTransitive(x, y, z);
      if x == z {
        StrLeqAntisymmetric(x, y);
      }
    }
  }

  lemma KeyLtAsymmetric(a: Student, b: Student)
    requires KeyLt(a, b)
    ensures !KeyLt(b, a)
  {
    if a.details.name != b.details.name && KeyLt(b, a) {
      StrLeqAntisymmetric(a.details.name, b.details.name);
    }
  }

  /** Listed no later means the name is no greater. */
  lemma KeyLeNames(a: Student, b: Student)
    requires KeyLe(a, b)
    ensures StrLeq(a.details.name, b.details.name)
  {
    StrLeqReflexive(a.details.name);
  }

  /** A sorted list is in ascending order of names. */
  lemma SortedNames(xs: seq<Student>)
    requires Sorted(xs)
    ensures forall i, j :: 0 <= i < j < |xs| ==> StrLeq(xs[i].details.name, xs[j].details.name)
  {
    forall i, j | 0 <= i < j < |xs| ensures StrLeq(xs[i].details.name, xs[j].details.name) {
      KeyLeNames(xs[i], xs[j]);
    }
  }

  /** Inserts `x` into the sorted `ys` before the first element it does not follow. */
  function InsertSorted(x: Student, ys: seq<Student>): (r: seq<Student>)
    requires Sorted(ys)
    ensures multiset(r) == multiset(ys) + multiset{x}
    ensures Sorted(r)
  {
    if ys == [] then [x]
    else if KeyLe(x, ys[0]) then
      assert forall j :: 0 <= j < |ys| ==> KeyLe(x, ys[j]) by {
        forall j | 0 <= j < |ys| ensures KeyLe(x, ys[j]) {
          if j > 0 { KeyLeTransitive(x, ys[0], ys[j]); }
        }
      }
      [x] + ys
    else
      KeyLeTotal(x, ys[0]);
      var t := InsertSorted(x, ys[1..]);
      assert ys == [ys[0]] + ys[1..];
      assert forall z :: z in t ==> KeyLe(ys[0], z) by {
        forall z | z in t ensures KeyLe(ys[0], z) {
          assert z in multiset(t);
          if z != x {
            assert z in ys[1..];
          }
        }
      }
      [ys[0]] + t
  }

  /** Insertion sort by (name, id): a sorted permutation of its input. */
  function Sort(xs: seq<Student>): (r: seq<Student>)
    ensures multiset(r) == multiset(xs)
    ensures Sorted(r)
  {
    if xs == [] then []
    else
      assert xs == [xs[0]] + xs[1..];
      InsertSorted(xs[0], Sort(xs[1..]))
  }

  lemma {:induction false} SortedMembers(xs: seq<Student>)
    ensures forall s :: s in Sort(xs) <==> s in xs
  {
    var r := Sort(xs);
    forall s ensures s in r <==> s in xs {
      assert s in r <==> s in multiset(r);
      assert s in xs <==> s in multiset(xs);
    }
  }

  /** An element no later than the head of a strictly ordered list, with a key of its own,
      can go in front. */
  lemma PrependStrict(x: Student, ys: seq<Student>)
    requires StrictlySorted(ys) && ys != [] && KeyLe(x, ys[0])
    requires forall y :: y in ys ==> y.id != x.id
    ensures StrictlySorted([x] + ys)
  {
    var r := [x] + ys;
    forall j | 1 <= j < |r| ensures KeyLt(x, r[j]) {
      assert r[j] == ys[j - 1];
      if j > 1 { KeyLeTransitive(x, ys[0], ys[j - 1]); }
      assert ys[j - 1] in ys;
    }
    forall i, j | 0 <= i < j < |r| ensures KeyLt(r[i], r[j]) {
      if i > 0 {
        assert r[i] == ys[i - 1] && r[j] == ys[j - 1];
      }
    }
  }

  lemma ConsStrict(y: Student, t: seq<Student>)
    requires StrictlySorted(t)
    requires forall z :: z in t ==> KeyLt(y, z)
    ensures StrictlySorted([y] + t)
  {
    var r := [y] + t;
    forall i, j | 0 <= i < j < |r| ensures KeyLt(r[i], r[j]) {
      assert r[j] == t[j - 1];
      if i == 0 {
        assert t[j - 1] in t;
      } else {
        assert r[i] == t[i - 1];
      }
    }
  }

  /** With distinct keys the insertion keeps the order strict. */
  lemma {:induction false} InsertSortedStrict(x: Student, ys: seq<Student>)
    requires Sorted(ys) && StrictlySorted(ys)
    requires forall y :: y in ys ==> y.id != x.id
    ensures StrictlySorted(InsertSorted(x, ys))
  {
    var r := InsertSorted(x, ys);
    if ys == [] {
    } else if KeyLe(x, ys[0]) {
      PrependStrict(x, ys);
    } else {
      assert ys == [ys[0]] + ys[1..];
      InsertSortedStrict(x, ys[1..]);
      var t := InsertSorted(x, ys[1..]);
      assert r == [ys[0]] + t;
      KeyLeTotal(x, ys[0]);
      forall z | z in t ensures KeyLt(ys[0], z) {
        assert z in multiset(t);
        if z != x {
          assert z in ys[1..];
          var k :| 0 <= k < |ys[1..]| && ys[1..][k] == z;
          assert ys[k + 1] == z;
        } else {
          assert ys[0] in ys;
        }
      }
      ConsStrict(ys[0], t);
    }
  }

  /** Sorting students with distinct keys yields a strictly ordered list. */
  lemma {:induction false} SortStrict(xs: seq<Student>)
    requires DistinctIds(xs)
    ensures StrictlySorted(Sort(xs))
  {
    if xs != [] {
      SortStrict(xs[1..]);
      SortedMembers(xs[1..]);
      InsertSortedStrict(xs[0], Sort(xs[1..]));
    }
  }

  /** Two strictly ordered lists with the same members are equal: a strictly sorted list
      is determined by its set of elements. */
  lemma {:induction false} StrictlySortedUnique(a: seq<Student>, b: seq<Student>)
    requires StrictlySorted(a) && StrictlySorted(b)
    requires forall x :: x in a <==> x in b
    ensures a == b
  {
    assert a == [] <==> b == [] by {
      if a != [] { assert a[0] in a; }
      if b != [] { assert b[0] in b; }
    }
    if a != [] {
      assert a[0] in a;
      if a[0] != b[0] {
        assert b[0] in a;
        var j :| 0 <= j < |a| && a[j] == b[0];
        var i :| 0 <= i < |b| && b[i] == a[0];
        assert KeyLt(a[0], b[0]);
        KeyLtAsymmetric(a[0], b[0]);
        assert false;
      }
      assert a == [a[0]] + a[1..];
      assert b == [b[0]] + b[1..];
      forall x ensures x in a[1..] <==> x in b[1..] {
        if x in a[1..] {
          var j :| 0 <= j < |a[1..]| && a[1..][j] == x;
          assert KeyLt(a[0], a[j + 1]);
          assert x != b[0];
          assert x in b;
        }
        if x in b[1..] {
          var j :| 0 <= j < |b[1..]| && b[1..][j] == x;
          assert KeyLt(b[0], b[j + 1]);
          assert x != a[0];
          assert x in a;
        }
      }
      StrictlySortedUnique(a[1..], b[1..]);
      assert a == [a[0]] + a[1..];
      assert b == [b[0]] + b[1..];
    }
  }

  /** Sort(xs) is the one strictly ordered list holding exactly the members of `xs`. */
  lemma SortCharacterized(xs: seq<Student>, r: seq<Student>)
    requires DistinctIds(xs)
    requires StrictlySorted(r)
    requires forall s :: s in r <==> s in xs
    ensures r == Sort(xs)
  {
    SortStrict(xs);
    SortedMembers(xs);
    StrictlySortedUnique(r, Sort(xs));
  }
}
