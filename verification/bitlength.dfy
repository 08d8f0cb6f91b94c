/**
  * The bit-size filter (`filter_valid_primes`), with its floating-point
  * `log2(p) // 1 == 127` read as the exact integer base-2 logarithm and the
  * target size `k` made a parameter.
  */
module BitLength {
  import opened Arithmetic
  import opened Sequences
  import opened Wrappers
  import opened Errors

  /** `floor(log2(x))`: the position of the most significant set bit of `x`. */
  function Log2Floor(x: nat): (r: nat)
    requires x >= 1
    ensures Pow(2, r) <= x < Pow(2, r + 1)
    decreases x
  {
    if x == 1 then 0 else 1 + Log2Floor(x / 2)
  }

  /** The exact logarithm is determined by the power-of-two window `x` lies in. */
  lemma Log2FloorIff(x: nat, k: nat)
    requires x >= 1
    ensures Log2Floor(x) == k <==> Pow(2, k) <= x < Pow(2, k + 1)
  {
    var r := Log2Floor(x);
    if Pow(2, k) <= x < Pow(2, k + 1) {
      if r + 1 < k {
        PowStrictlyIncreasing(2, r + 1, k);
      } else if k + 1 < r {
        PowStrictlyIncreasing(2, k + 1, r);
      }
    }
  }

  /** `x` is a `k + 1`-bit number. */
  predicate HasBitLength(x: int, k: nat) {
    Pow(2, k) <= x < Pow(2, k + 1)
  }

  /**
    * `[p for p in ps if log2(p) // 1 == k]`. A zero in the list makes `log2`
    * raise, and the whole comprehension with it.
    */
  function FilterValidPrimes(ps: seq<nat>, k: nat): (r: Result<seq<nat>, Error>)
    ensures r.Failure? <==> 0 in ps
    ensures r.Failure? ==> r.error == LogDomainError
    ensures r.Success? ==> forall x :: x in r.value <==> x in ps && HasBitLength(x, k)
    ensures r.Success? ==> IsSubsequence(r.value, ps)
    ensures r.Success? && StrictlyIncreasing(ps) ==> StrictlyIncreasing(r.value)
  {
    if ps == [] then Success([])
    else if ps[0] == 0 then Failure(LogDomainError)
    else
      match FilterValidPrimes(ps[1..], k)
      case Failure(err) => Failure(err)
      case Success(rest) =>
        assert ps == [ps[0]] + ps[1..];
        assert StrictlyIncreasing(ps) ==> StrictlyIncreasing(ps[1..]);
        Log2FloorIff(ps[0], k);
        if Log2Floor(ps[0]) == k then
          assert StrictlyIncreasing(ps) ==> StrictlyIncreasing([ps[0]] + rest) by {
            if StrictlyIncreasing(ps) {
              forall y | y in rest ensures ps[0] < y {
                var j :| 0 <= j < |ps[1..]| && ps[1..][j] == y;
                assert ps[j + 1] == y;
              }
              ConsIncreasing(ps[0], rest);
            }
          }
          assert ([ps[0]] + rest)[1..] == rest;
          Success([ps[0]] + rest)
        else
          Success(rest)
  }

  /**
    * The filter keeps every copy of a kept value: each value of the right size
    * occurs in the result exactly as often as in the input, any other not at all.
    */
  lemma {:induction false} FilterValidPrimesCounts(ps: seq<nat>, k: nat)
    ensures var r := FilterValidPrimes(ps, k);
      r.Success? ==> forall x :: multiset(r.value)[x] == if HasBitLength(x, k) then multiset(ps)[x] else 0
  {
    if ps != [] && 0 !in ps {
      assert ps == [ps[0]] + ps[1..];
      assert multiset(ps) == multiset([ps[0]]) + multiset(ps[1..]);
      FilterValidPrimesCounts(ps[1..], k);
      var rest := FilterValidPrimes(ps[1..], k).value;
      Log2FloorIff(ps[0], k);
      if HasBitLength(ps[0], k) {
        assert FilterValidPrimes(ps, k).value == [ps[0]] + rest;
        assert multiset([ps[0]] + rest) == multiset([ps[0]]) + multiset(rest);
      } else {
        assert FilterValidPrimes(ps, k).value == rest;
      }
    }
  }
}
