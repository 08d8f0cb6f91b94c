/**
  * Candidate generation (`get_prime_candidates`): every positive divisor `x`
  * of `product - 1` whose successor `x + 1` is prime contributes `x + 1`.
  */
module Candidates {
  import opened Arithmetic
  import opened Sequences
  import opened DivisorList

  /** `[x + 1 for x in xs if isPrime(x + 1)]`, keeping the order of `xs`. */
  function PrimeSuccessors(xs: seq<nat>): (r: seq<nat>)
    ensures forall y :: y in r <==> IsPrime(y) && y - 1 in xs
    ensures StrictlyIncreasing(xs) ==> StrictlyIncreasing(r)
  {
    if xs == [] then []
    else
      var rest := PrimeSuccessors(xs[1..]);
      if IsPrime(xs[0] + 1) then
        assert StrictlyIncreasing(xs) ==> StrictlyIncreasing([xs[0] + 1] + rest) by {
          if StrictlyIncreasing(xs) {
            assert StrictlyIncreasing(xs[1..]);
            forall y | y in rest ensures xs[0] + 1 < y {
              var k :| 0 <= k < |xs[1..]| && xs[1..][k] == y - 1;
              assert xs[k + 1] == y - 1;
            }
            ConsIncreasing(xs[0] + 1, rest);
          }
        }
        [xs[0] + 1] + rest
      else
        assert StrictlyIncreasing(xs) ==> StrictlyIncreasing(xs[1..]);
        rest
  }

  /**
    * The prime candidates of an exponent product `m`: the primes `y` such that
    * `y - 1` is a positive divisor of `m - 1` (sign ignored, as sympy does),
    * listed in ascending order.
    */
  function GetPrimeCandidates(m: int): (r: seq<nat>)
    ensures forall y :: y in r <==> IsPrime(y) && y - 1 <= Abs(m - 1) && Divides(y - 1, Abs(m - 1))
    ensures StrictlyIncreasing(r)
  {
    PrimeSuccessors(Divisors(Abs(m - 1)))
  }

  /**
    * Why the attack works: when `e * d == 1 (mod (p - 1) * (q - 1))` for primes
    * `p` and `q`, both primes are among the candidates of `e * d`. The product
    * must differ from 1, because `divisors(0)` is empty.
    */
  lemma TrueFactorsAreCandidates(p: nat, q: nat, e: int, d: int)
    requires IsPrime(p) && IsPrime(q)
    requires e * d != 1
    requires (e * d) % ((p - 1) * (q - 1)) == 1
    ensures p in GetPrimeCandidates(e * d)
    ensures q in GetPrimeCandidates(e * d)
  {
    FactorIsCandidate(p, q, e * d);
    FactorIsCandidate(q, p, e * d);
  }

  /** One prime of the pair is a candidate of a product `m == 1 (mod (p - 1) * (q - 1))`. */
  lemma FactorIsCandidate(p: nat, q: nat, m: int)
    requires IsPrime(p) && IsPrime(q) && m != 1
    requires m % ((p - 1) * (q - 1)) == 1 || m % ((q - 1) * (p - 1)) == 1
    ensures p in GetPrimeCandidates(m)
  {
    var phi := (p - 1) * (q - 1);
    assert phi == (q - 1) * (p - 1);
    assert phi > 0;
    CongruentOneDivides(m, phi);
    FactorDividesAbs(p - 1, q - 1, m - 1);
    assert IsPrime(p) && p - 1 <= Abs(m - 1) && Divides(p - 1, Abs(m - 1));
  }

  /** `m == 1 (mod phi)` means that `phi` divides `m - 1`. */
  lemma CongruentOneDivides(m: int, phi: int)
    requires phi > 0 && m % phi == 1
    ensures Divides(phi, m - 1)
  {
    ModUnique(m - 1, phi, m / phi, 0);
  }

  /** A factor of a divisor of a non-zero `n` divides `|n|` and is at most `|n|`. */
  lemma FactorDividesAbs(a: int, b: int, n: int)
    requires a > 0 && b > 0 && n != 0
    requires Divides(a * b, n) || Divides(b * a, n)
    ensures Divides(a, Abs(n)) && a <= Abs(n)
  {
    assert a * b == b * a;
    DividesProduct(a, b, n);
    DividesAbs(a, n);
    DivisorBound(a, Abs(n));
  }

  /** A positive divisor of a positive number is no larger than it. */
  lemma DivisorBound(x: int, n: int)
    requires n > 0 && Divides(x, n)
    ensures x <= n
  {
    var k := n / x;
    assert n == k * x;
    assert k >= 1 ==> k * x >= x;
  }
}
