/** Integer facts shared by the pipeline: divisibility, primality and powers. */
module Arithmetic {

  function Abs(x: int): (r: nat)
    ensures r == x || r == -x
  {
    if x < 0 then -x else x
  }

  /** `d` is a positive divisor of `n`. */
  predicate Divides(d: int, n: int) {
    d > 0 && n % d == 0
  }

  /** Mathematical primality; the model of the library's primality test. */
  predicate IsPrime(n: int) {
    n >= 2 && forall d :: 1 < d < n ==> !Divides(d, n)
  }

  /** `b` raised to the power `e`, by repeated multiplication. */
  function Pow(b: int, e: nat): int
    decreases e
  {
    if e == 0 then 1 else b * Pow(b, e - 1)
  }

  lemma {:induction false} PowAdd(b: int, m: nat, k: nat)
    ensures Pow(b, m + k) == Pow(b, m) * Pow(b, k)
    decreases m
  {
    if m > 0 {
      PowAdd(b, m - 1, k);
      assert Pow(b, m + k) == b * Pow(b, (m - 1) + k);
      assert b * (Pow(b, m - 1) * Pow(b, k)) == (b * Pow(b, m - 1)) * Pow(b, k);
    }
  }

  lemma {:induction false} PowPositive(b: int, e: nat)
    requires b > 0
    ensures Pow(b, e) > 0
    decreases e
  {
    if e > 0 {
      PowPositive(b, e - 1);
      assert Pow(b, e) == b * Pow(b, e - 1);
    }
  }

  /** Powers of a base above one grow strictly with the exponent. */
  lemma {:induction false} PowStrictlyIncreasing(b: int, m: nat, k: nat)
    requires b > 1 && m < k
    ensures Pow(b, m) < Pow(b, k)
    decreases k - m
  {
    PowPositive(b, k - 1);
    assert Pow(b, k) == b * Pow(b, k - 1);
    if m < k - 1 {
      PowStrictlyIncreasing(b, m, k - 1);
    }
  }

  lemma ProductPositive(x: int, y: int)
    requires x > 0 && y > 0
    ensures x * y > 0
  {
  }

  /** Euclidean remainders are unique: the quotient/remainder split of `x` is determined. */
  lemma ModUnique(x: int, n: int, a: int, r: int)
    requires n > 0 && 0 <= r < n && x == a * n + r
    ensures x % n == r && x / n == a
  {
    var a', r' := x / n, x % n;
    assert x == a' * n + r';
    assert (a - a') * n == r' - r;
    assert a - a' >= 1 ==> (a - a') * n >= n;
    assert a' - a >= 1 ==> (a' - a) * n >= n;
  }

  lemma ModMulMod(x: int, y: int, n: int)
    requires n > 0
    ensures ((x % n) * (y % n)) % n == (x * y) % n
  {
    var a, r := x / n, x % n;
    var b, s := y / n, y % n;
    assert x * y == (a * n + r) * (b * n + s);
    ProductExpand(a, r, b, s, n);
    ModAddMultiple(a * b * n + a * s + r * b, n, r * s);
  }

  lemma ProductExpand(a: int, r: int, b: int, s: int, n: int)
    ensures (a * n + r) * (b * n + s) == (a * b * n + a * s + r * b) * n + r * s
  {
  }

  /** Adding a multiple of `n` does not change the remainder modulo `n`. */
  lemma ModAddMultiple(k: int, n: int, m: int)
    requires n > 0
    ensures (k * n + m) % n == m % n
  {
    ModUnique(k * n + m, n, k + m / n, m % n) by {
      assert m == (m / n) * n + m % n;
      assert k * n + m == (k + m / n) * n + m % n;
    }
  }

  /** A multiple of `a * b` is a multiple of `a`. */
  lemma DividesProduct(a: int, b: int, n: int)
    requires a > 0 && b > 0 && Divides(a * b, n)
    ensures Divides(a, n)
  {
    var k := n / (a * b);
    assert n == k * (a * b);
    assert n == (k * b) * a + 0;
    ModUnique(n, a, k * b, 0);
  }

  /** Divisibility ignores sign. */
  lemma DividesAbs(d: int, n: int)
    requires Divides(d, n)
    ensures Divides(d, Abs(n))
  {
    if n < 0 {
      var k := n / d;
      assert n == k * d;
      assert -n == (-k) * d + 0;
      ModUnique(-n, d, -k, 0);
    }
  }
}

/** Predicates on sequences used to state ordering facts. */
module Sequences {

  predicate StrictlyIncreasing(s: seq<int>) {
    forall i, j :: 0 <= i < j < |s| ==> s[i] < s[j]
  }

  /** `a` can be obtained from `b` by deleting elements, keeping the order of the rest. */
  predicate IsSubsequence<T(==)>(a: seq<T>, b: seq<T>)
    decreases |b|
  {
    if a == [] then true
    else if b == [] then false
    else (a[0] == b[0] && IsSubsequence(a[1..], b[1..])) || IsSubsequence(a, b[1..])
  }

  /** Putting an element below every element of an increasing sequence in front keeps it increasing. */
  lemma ConsIncreasing(h: int, s: seq<int>)
    requires StrictlyIncreasing(s)
    requires forall y :: y in s ==> h < y
    ensures StrictlyIncreasing([h] + s)
  {
    forall i, j | 0 <= i < j < |[h] + s|
      ensures ([h] + s)[i] < ([h] + s)[j]
    {
      assert ([h] + s)[j] == s[j - 1];
      if i > 0 {
        assert ([h] + s)[i] == s[i - 1];
      } else {
        assert s[j - 1] in s;
      }
    }
  }
}
