/** How the handlers read optional JSON fields: JavaScript truthiness and
    the `value || fallback` idiom. */
module Js {
  import opened Wrappers

  /** A string field is truthy unless it is absent or empty. */
  predicate Truthy(s: Option<string>)
  {
    s.Some? && s.value != ""
  }

  /** A number field is truthy unless it is absent or zero. */
  predicate TruthyNumber(n: Option<int>)
  {
    n.Some? && n.value != 0
  }

  /** `s || fallback` for a string field. */
  function Or(s: Option<string>, fallback: string): (r: string)
    ensures Truthy(s) ==> r == s.value
    ensures !Truthy(s) ==> r == fallback
  {
    if Truthy(s) then s.value else fallback
  }
}
