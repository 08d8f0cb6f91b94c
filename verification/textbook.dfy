/**
  * A small RSA instance worked through each stage: p = 17, q = 19, n = 323,
  * e = 173, d = 5 (e * d = 865 = 3 * 288 + 1), and the message 65 ("A")
  * encrypted to c = 107. The primes are 5-bit numbers, so the bit-size filter
  * is applied with `k = 4` (`floor(log2 17) == 4`), the analogue of 127 for
  * 128-bit primes.
  */
module Textbook {
  import opened Wrappers
  import opened Arithmetic
  import opened ModExp
  import opened Bytes
  import opened Ascii
  import opened Candidates
  import opened BitLength
  import opened Sequences
  import opened Search
  import opened Driver

  /** No divisor of `n` lies in `[lo, hi)`, checked one candidate at a time. */
  predicate NoDivisorIn(n: nat, lo: nat, hi: nat)
    requires lo >= 1
    decreases hi - lo
  {
    lo >= hi || (n % lo != 0 && NoDivisorIn(n, lo + 1, hi))
  }

  lemma {:induction false} NoDivisorInMeans(n: nat, lo: nat, hi: nat, d: int)
    requires lo >= 1 && NoDivisorIn(n, lo, hi) && lo <= d < hi
    ensures !Divides(d, n)
    decreases hi - lo
  {
    if d > lo {
      NoDivisorInMeans(n, lo + 1, hi, d);
    }
  }

  /** Trial division up to a bound `s` with `s * s > n` proves primality. */
  lemma PrimeByTrialDivision(n: nat, s: nat)
    requires n >= 2 && s >= 2 && s * s > n && NoDivisorIn(n, 2, s)
    ensures IsPrime(n)
  {
    forall d | 1 < d < n ensures !Divides(d, n) {
      if d < s {
        NoDivisorInMeans(n, 2, s, d);
      } else if Divides(d, n) {
        var k := CofactorBelow(n, s, d);
        NoDivisorInMeans(n, 2, s, k);
      }
    }
  }

  /** A divisor `d` of `n` at or above `s`, with `s * s > n`, leaves a cofactor in `[2, s)`. */
  lemma CofactorBelow(n: nat, s: nat, d: int) returns (k: int)
    requires s >= 2 && s * s > n && s <= d < n && Divides(d, n)
    ensures 2 <= k < s && Divides(k, n)
  {
    k := n / d;
    assert n == k * d;
    assert k >= 2 by {
      if k <= 1 {
        MulMonotone(1, k, d);
      }
    }
    assert k < s by {
      if k >= s {
        MulMonotone(k, s, d);
        MulMonotone(d, s, s);
      }
    }
    ModUnique(n, k, d, 0);
  }

  lemma MulMonotone(a: int, b: int, c: int)
    requires a >= b && c >= 0
    ensures a * c >= b * c
  {
  }

  /** One square-and-multiply step, from the value `h` at `e / 2` to the value `v` at `e`. */
  lemma ModPowStep(b: int, e: nat, n: nat, h: nat, v: nat)
    requires n > 0 && e > 0 && ModPow(b, e / 2, n) == h
    requires v == if e % 2 == 0 then (h * h) % n else (((h * h) % n) * (b % n)) % n
    ensures ModPow(b, e, n) == v
  {
  }

  /** Both factors are candidates of the exponent product 173 * 5 = 865. */
  lemma TextbookFactorsAreCandidates()
    ensures 17 in GetPrimeCandidates(173 * 5)
    ensures 19 in GetPrimeCandidates(173 * 5)
  {
    PrimeByTrialDivision(17, 5);
    PrimeByTrialDivision(19, 5);
    TrueFactorsAreCandidates(17, 19, 173, 5);
  }

  /** In `[16, 32)`, the only primes whose predecessor divides 864 are 17 and 19. */
  lemma OnlyTwoFactorSized(x: int)
    requires 16 <= x < 32 && IsPrime(x) && Divides(x - 1, 864)
    ensures x == 17 || x == 19
  {
    assert x == 25 ==> Divides(5, x);
    assert x == 28 ==> Divides(2, x);
  }

  /** Any product `m` with `|m - 1| = 864` keeps nothing but 17 and 19 at `k = 4`. */
  lemma FilterKeepsOnlyFactors(m: int, x: int)
    requires Abs(m - 1) == 864
    requires FilterValidPrimes(GetPrimeCandidates(m), 4).Success?
    requires x in FilterValidPrimes(GetPrimeCandidates(m), 4).value
    ensures x == 17 || x == 19
  {
    var cs := GetPrimeCandidates(m);
    assert x in cs && HasBitLength(x, 4);
    assert Pow(2, 4) == 16 && Pow(2, 5) == 32;
    assert IsPrime(x) && Divides(x - 1, 864);
    OnlyTwoFactorSized(x);
  }

  /** A strictly increasing list holding `a < b` and nothing else is `[a, b]`. */
  lemma ExactlyTwo(v: seq<int>, a: int, b: int)
    requires StrictlyIncreasing(v) && a < b && a in v && b in v
    requires forall x :: x in v ==> x == a || x == b
    ensures v == [a, b]
  {
    assert |v| >= 2 by {
      var i :| 0 <= i < |v| && v[i] == a;
      var j :| 0 <= j < |v| && v[j] == b;
      assert i != j;
    }
    assert v[0] in v && v[1] in v;
    if |v| > 2 {
      ThirdAboveBoth(v, a, b);
      assert false;
    }
  }

  /** In a strictly increasing list whose first two entries lie in `{a, b}`, a third entry lies outside. */
  lemma ThirdAboveBoth(v: seq<int>, a: int, b: int)
    requires StrictlyIncreasing(v) && |v| > 2
    requires v[0] == a || v[0] == b
    requires v[1] == a || v[1] == b
    ensures v[2] in v && v[2] != a && v[2] != b
  {
  }

  /** For any product `m` with `|m - 1| = 864 = 16 * 18 * 3`, both 17 and 19 are candidates. */
  lemma FactorsOf864AreCandidates(m: int)
    requires Abs(m - 1) == 864
    ensures 17 in GetPrimeCandidates(m) && 19 in GetPrimeCandidates(m)
  {
    assert m % 288 == 1 by {
      assert m == 865 || m == -863;
    }
    PrimeByTrialDivision(17, 5);
    PrimeByTrialDivision(19, 5);
    FactorIsCandidate(17, 19, m);
    FactorIsCandidate(19, 17, m);
  }

  /** For any product `m` with `|m - 1| = 864`, the filter at `k = 4` keeps 17 and 19. */
  lemma FactorsOf864PassFilter(m: int)
    requires Abs(m - 1) == 864
    ensures var r := FilterValidPrimes(GetPrimeCandidates(m), 4);
      r.Success? && 17 in r.value && 19 in r.value
  {
    FactorsOf864AreCandidates(m);
    assert 0 !in GetPrimeCandidates(m);
    assert Pow(2, 4) == 16 && Pow(2, 5) == 32;
    assert HasBitLength(17, 4) && HasBitLength(19, 4);
  }

  /** For any product `m` with `|m - 1| = 864`, the filter at `k = 4` leaves exactly 17 and 19, in order. */
  lemma FilteredFactorsOf864(m: int)
    requires Abs(m - 1) == 864
    ensures FilterValidPrimes(GetPrimeCandidates(m), 4) == Success([17, 19])
  {
    FactorsOf864PassFilter(m);
    var v := FilterValidPrimes(GetPrimeCandidates(m), 4).value;
    forall x | x in v ensures x == 17 || x == 19 {
      FilterKeepsOnlyFactors(m, x);
    }
    ExactlyTwo(v, 17, 19);
  }

  /** The filter at `k = 4` leaves exactly the two true factors of the example, in order. */
  lemma TextbookFilteredPrimes()
    ensures FilterValidPrimes(GetPrimeCandidates(173 * 5), 4) == Success([17, 19])
  {
    FilteredFactorsOf864(173 * 5);
  }

  /** Decrypting 107 with d = 5 modulo 17 * 19 = 323 gives back the message 65. */
  lemma TextbookDecryption()
    ensures ModPow(107, 5, 323) == 65
  {
    ModPowStep(107, 1, 323, 1, 107);
    ModPowStep(107, 2, 323, 107, 144);
    ModPowStep(107, 5, 323, 144, 65);
  }

  /** The single byte 65 decodes to "A". */
  lemma TextbookDecoding()
    ensures DecodeAscii([65]) == Some("A")
  {
    var r := DecodeAscii([65]);
    assert r.Some? && |r.value| == 1 && r.value[0] as int == 65;
    assert r.value[0] == 'A';
    assert r.value == "A";
  }

  /** The pair (17, 19) is accepted with the text "A". */
  lemma TextbookTrial()
    ensures Trial(107, 5, 17, 19) == Accept("A")
  {
    TextbookDecryption();
    TextbookDecoding();
    assert LongToBytes(65) == [65];
    assert DecryptedBytes(107, 5, 17, 19) == [65];
    assert AllInCharset("A");
  }

  /** The search over the two factors recovers "A"; over one prime it finds nothing. */
  lemma TextbookSearch()
    ensures DecryptMessage(107, 5, [17, 19]) == Found("A")
    ensures DecryptMessage(107, 5, [19]) == NotFound
  {
    TextbookTrial();
    assert IsFirstStop(107, 5, [17, 19], 0, 1);
  }

  /** The whole pipeline recovers "A" from c = 107, d = 5, e = 173 at `k = 4`. */
  lemma TextbookRecovery()
    ensures RecoverPlaintext(107, 5, 173, 4) == Found("A")
  {
    TextbookFilteredPrimes();
    TextbookSearch();
  }
}
