/** Sequences processed in chunks: their concatenation, and looking back from a place. */
module Chunks {
  function Concat<T>(chunks: seq<seq<T>>): seq<T> {
    if chunks == [] then [] else chunks[0] + Concat(chunks[1..])
  }

  /** The element j places before t. */
  function Back<T>(s: seq<T>, t: nat, j: nat): T
    requires j <= t < |s|
  {
    s[t - j]
  }

  /** The last n + 1 elements up to t in a and up to u in b are the same. */
  ghost predicate Agree<T>(a: seq<T>, t: nat, b: seq<T>, u: nat, n: nat) {
    n <= t < |a| && n <= u < |b| && forall j :: 0 <= j <= n ==> Back(a, t, j) == Back(b, u, j)
  }
}
