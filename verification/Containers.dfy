/** What several modules need: optional values, and sequences of context numbers. */
module Containers {

  datatype Option<+T> = None | Some(value: T)

  /** The numbers other than d, in order. */
  function Without(s: seq<nat>, d: nat): (r: seq<nat>)
    ensures forall x :: x in r <==> x in s && x != d
  {
    if s == [] then [] else (if s[0] == d then [] else [s[0]]) + Without(s[1..], d)
  }
}
