/**
 * Text helpers the application relies on: Python's str.strip() on form input,
 * ASCII digits for the student-ID pattern, and the lexicographic order in
 * which names are sorted.
 */
module Text {

  /** The ASCII characters for which Python's str.isspace() holds: tab, line feed,
      vertical tab, form feed, carriage return, the four information separators and space. */
  predicate IsSpace(c: char)
  {
    (9 <= c as int <= 13) || (28 <= c as int <= 32)
  }

  predicate IsDigit(c: char)
  {
    '0' <= c <= '9'
  }

  /** Drops leading white space. */
  function TrimStart(s: string): (r: string)
    ensures |r| <= |s| && r == s[|s| - |r|..]
    ensures forall k :: 0 <= k < |s| - |r| ==> IsSpace(s[k])
    ensures r == [] || !IsSpace(r[0])
  {
    if s != [] && IsSpace(s[0]) then TrimStart(s[1..]) else s
  }

  /** Drops trailing white space. */
  function TrimEnd(s: string): (r: string)
    ensures |r| <= |s| && r == s[..|r|]
    ensures forall k :: |r| <= k < |s| ==> IsSpace(s[k])
    ensures r == [] || !IsSpace(r[|r| - 1])
  {
    if s != [] && IsSpace(s[|s| - 1]) then TrimEnd(s[..|s| - 1]) else s
  }

  /** `r` is the infix of `s` starting at `i`, and everything of `s` outside it is white space. */
  predicate SpaceAround(s: string, r: string, i: int)
  {
    0 <= i <= |s| - |r| && r == s[i..i + |r|]
    && (forall k :: 0 <= k < i ==> IsSpace(s[k]))
    && (forall k :: i + |r| <= k < |s| ==> IsSpace(s[k]))
  }

  /** Python's str.strip() with no argument: the infix of `s` left after removing
      white space at both ends. */
  function Strip(s: string): (r: string)
    ensures exists i :: SpaceAround(s, r, i)
    ensures r == [] || (!IsSpace(r[0]) && !IsSpace(r[|r| - 1]))
  {
    var t := TrimStart(s);
    var r := TrimEnd(t);
    assert SpaceAround(s, r, |s| - |t|);
    r
  }

  /** The lexicographic order on strings, comparing code points. */
  predicate StrLeq(a: string, b: string)
  {
    a == [] || (b != [] && (a[0] < b[0] || (a[0] == b[0] && StrLeq(a[1..], b[1..]))))
  }

  lemma {:induction false} StrLeqReflexive(a: string)
    ensures StrLeq(a, a)
  {
    if a != [] {
      StrLeqReflexive(a[1..]);
    }
  }

  lemma {:induction false} StrLeqTotal(a: string, b: string)
    ensures StrLeq(a, b) || StrLeq(b, a)
  {
    if a != [] && b != [] && a[0] == b[0] {
      StrLeqTotal(a[1..], b[1..]);
    }
  }

  lemma {:induction false} StrLeqAntisymmetric(a: string, b: string)
    requires StrLeq(a, b) && StrLeq(b, a)
    ensures a == b
  {
    if a != [] && b != [] {
      StrLeqAntisymmetric(a[1..], b[1..]);
      assert a == [a[0]] + a[1..];
      assert b == [b[0]] + b[1..];
    }
  }

  lemma {:induction false} StrLeqTransitive(a: string, b: string, c: string)
    requires StrLeq(a, b) && StrLeq(b, c)
    ensures StrLeq(a, c)
  {
    if a != [] && b != [] && c != [] && a[0] == b[0] && b[0] == c[0] {
      StrLeqTransitive(a[1..], b[1..], c[1..]);
    }
  }
}
