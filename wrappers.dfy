/** The optional value the store uses for NULL columns and for failed lookups. */
module Wrappers {

  datatype Option<+T> = None | Some(value: T)

  /** SQL's COALESCE(x, ''): the value of a nullable text column, or the empty string for NULL. */
  function OrEmpty(o: Option<string>): (r: string)
    ensures o.Some? ==> r == o.value
    ensures r == "" <==> o.None? || o == Some("")
  {
    match o
    case Some(v) => v
    case None => ""
  }

  /** Python's `x or None` on a form field: the empty string becomes NULL. */
  function OrNone(s: string): (r: Option<string>)
    ensures r.None? <==> s == ""
    ensures OrEmpty(r) == s
  {
    if s == "" then None else Some(s)
  }
}
