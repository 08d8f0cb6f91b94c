/** The divisor list that sympy's `divisors` returns, as a specification. */
module DivisorList {
  import opened Arithmetic
  import opened Sequences

  /** The divisors of `n` that are at least `lo`, in ascending order. */
  function DivisorsFrom(n: nat, lo: nat): (r: seq<nat>)
    requires 1 <= lo <= n + 1
    ensures forall x :: x in r <==> lo <= x <= n && Divides(x, n)
    ensures forall i :: 0 <= i < |r| ==> lo <= r[i]
    ensures StrictlyIncreasing(r)
    decreases n + 1 - lo
  {
    if lo == n + 1 then []
    else (if n % lo == 0 then [lo] else []) + DivisorsFrom(n, lo + 1)
  }

  /**
    * The ascending list of positive divisors of `n`; empty for `n == 0`,
    * which is what `divisors(0)` returns.
    */
  function Divisors(n: nat): (r: seq<nat>)
    ensures forall x :: x in r <==> 1 <= x <= n && Divides(x, n)
    ensures StrictlyIncreasing(r)
    ensures n == 0 ==> r == []
  {
    DivisorsFrom(n, 1)
  }
}
