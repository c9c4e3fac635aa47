/** Index ranges, positions on a ring, and removal from a sequence. */
module Ranges {

  /** {0, ..., n-1} */
  ghost function UpTo(n: nat): (r: set<int>)
    ensures |r| == n && forall i :: i in r <==> 0 <= i < n
  {
    if n == 0 then {} else UpTo(n - 1) + {n - 1}
  }

  /** Position x on a ring of n places, for x < 2n. */
  function Wrap(x: nat, n: nat): nat
    requires n > 0 && x < 2 * n
  {
    if x < n then x else x - n
  }

  /** The sequence without the first occurrence of x. */
  function Without<A(==)>(s: seq<A>, x: A): seq<A> {
    if s == [] then [] else if s[0] == x then s[1..] else [s[0]] + Without(s[1..], x)
  }
}
