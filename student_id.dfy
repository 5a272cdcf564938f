/**
 * The student-ID format check that guards adding and editing a student:
 * `re.match(r'^\d{2}-\d{5}$', student_id)` on the already stripped form value.
 * The pattern is modelled as an anchored sequence of character classes, each
 * repeated a fixed number of times, which is exactly the shape of that regex.
 */
module StudentIdFormat {
  import opened Text

  datatype CharClass = Digit | Literal(c: char)

  /** One regex atom with a fixed repetition count, `\d{2}` or `-`. */
  datatype Piece = Piece(cls: CharClass, count: nat)

  predicate InClass(c: char, cls: CharClass)
  {
    match cls
    case Digit => IsDigit(c)
    case Literal(l) => c == l
  }

  /** The whole of `s` matches the pieces of `p` one after the other (the regex is
      anchored by ^ and $). */
  predicate Matches(p: seq<Piece>, s: string)
    decreases |p|
  {
    if p == [] then s == []
    else
      |s| >= p[0].count
      && (forall k :: 0 <= k < p[0].count ==> InClass(s[k], p[0].cls))
      && Matches(p[1..], s[p[0].count..])
  }

  /** ^\d{2}-\d{5}$ */
  const IdPattern: seq<Piece> := [Piece(Digit, 2), Piece(Literal('-'), 1), Piece(Digit, 5)]

  predicate ValidStudentId(s: string)
  {
    Matches(IdPattern, s)
  }

  /** An ID is accepted exactly when it is two digits, a hyphen and five digits. */
  lemma ValidStudentIdShape(s: string)
    ensures ValidStudentId(s) <==>
      |s| == 8 && IsDigit(s[0]) && IsDigit(s[1]) && s[2] == '-'
      && (forall k :: 3 <= k < 8 ==> IsDigit(s[k]))
  {
    var rest1 := [Piece(Literal('-'), 1), Piece(Digit, 5)];
    var rest2 := [Piece(Digit, 5)];
    assert IdPattern[1..] == rest1;
    assert rest1[1..] == rest2;
    assert rest2[1..] == [];
    if |s| >= 8 {
      forall k | 0 <= k < 5 ensures s[3..][k] == s[k + 3] { }
    }
  }

  /** The example of a valid ID the error message gives. */
  lemma AcceptsExample()
    ensures ValidStudentId("25-12345")
  {
    ValidStudentIdShape("25-12345");
  }

  /** An ID without the hyphen is rejected. */
  lemma RejectsMissingHyphen()
    ensures !ValidStudentId("251234")
  {
    ValidStudentIdShape("251234");
  }
}
