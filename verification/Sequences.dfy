/** Notions about sequences that several modules share. */
module Sequences {
  ghost predicate Distinct<E>(c: seq<E>)
  {
    forall i, j | 0 <= i < j < |c| :: c[i] != c[j]
  }

  function Reversed<E>(s: seq<E>): (r: seq<E>)
    ensures |r| == |s|
    ensures forall i | 0 <= i < |s| :: r[i] == s[|s| - 1 - i]
  {
    if s == [] then [] else Reversed(s[1..]) + [s[0]]
  }
}
