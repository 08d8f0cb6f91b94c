/**
  * The driver (`decrypt`): candidates from the leaked exponent product, the
  * bit-size filter, then the pairwise search, on the hard-coded instance.
  */
module Driver {
  import opened Arithmetic
  import opened Sequences
  import opened Wrappers
  import opened Candidates
  import opened BitLength
  import opened Search

  const Ciphertext: nat := 16397033758829274596113868636792378417270779111016278337049092851849768784178
  const Exponent: nat := 3179008223760288311914866770887612256153603179393241588778642261701153272613
  const PublicExponent: nat := 65537

  /** `log2(p) // 1 == 127`: the primes sought have 128 bits. */
  const TargetBits: nat := 127

  /** `p` is a prime of the sought size whose predecessor divides `m - 1`. */
  predicate IsFactorCandidate(p: int, m: int, k: nat) {
    IsPrime(p) && HasBitLength(p, k) && Divides(p - 1, Abs(m - 1))
  }

  /**
    * The pipeline for ciphertext `c`, leaked private exponent `d`, public
    * exponent `e` and target bit size `k`. It never raises: candidates are
    * primes, so neither `log2(0)` nor a zero modulus can occur. A recovered
    * text is the decryption under some pair of distinct `k + 1`-bit primes
    * whose predecessors divide `d * e - 1`.
    */
  function RecoverPlaintext(c: int, d: nat, e: nat, k: nat): (r: Outcome)
    ensures !r.Raised?
    ensures r.Found? ==> r.text != [] && AllInCharset(r.text)
    ensures r.Found? ==> exists p: nat, q: nat ::
      p < q && IsFactorCandidate(p, d * e, k) && IsFactorCandidate(q, d * e, k) && Trial(c, d, p, q) == Accept(r.text)
  {
    var m := d * e;
    var candidates := GetPrimeCandidates(m);
    assert 0 !in candidates;
    match FilterValidPrimes(candidates, k)
    case Failure(err) => Raised(err)
    case Success(valid) =>
      assert forall x :: x in valid ==> IsFactorCandidate(x, m, k);
      SearchOverFactors(c, d, valid, m, k);
      DecryptMessage(c, d, valid)
  }

  /** The search over an increasing list of factor candidates never raises and answers with a pair of them. */
  lemma SearchOverFactors(c: int, d: nat, valid: seq<nat>, m: int, k: nat)
    requires StrictlyIncreasing(valid)
    requires forall x :: x in valid ==> IsFactorCandidate(x, m, k)
    ensures !DecryptMessage(c, d, valid).Raised?
    ensures var r := DecryptMessage(c, d, valid);
      r.Found? ==> exists p: nat, q: nat ::
        p < q && IsFactorCandidate(p, m, k) && IsFactorCandidate(q, m, k) && Trial(c, d, p, q) == Accept(r.text)
  {
    var r := DecryptMessage(c, d, valid);
    assert 0 !in valid;
    NoRaiseWithoutZero(c, d, valid);
    if r.Found? {
      FoundIsAcceptedPair(c, d, valid);
      var a: nat, b: nat :| a < b < |valid| && Trial(c, d, valid[a], valid[b]) == Accept(r.text);
      assert valid[a] in valid && valid[b] in valid;
      assert valid[a] < valid[b];
    }
  }

  /**
    * Completeness: when the leaked product comes from two `k + 1`-bit primes
    * `p < q` and their pair decrypts to an accepted text, the pipeline finds
    * a text (the first accepted pair, which need not be `(p, q)`).
    */
  lemma RecoverPlaintextFindsFactors(c: int, d: nat, e: nat, k: nat, p: nat, q: nat)
    requires IsPrime(p) && IsPrime(q) && p < q
    requires HasBitLength(p, k) && HasBitLength(q, k)
    requires e * d != 1 && (e * d) % ((p - 1) * (q - 1)) == 1
    requires Trial(c, d, p, q).Accept?
    ensures RecoverPlaintext(c, d, e, k).Found?
  {
    TrueFactorsAreCandidates(p, q, e, d);
    assert d * e == e * d;
    var candidates := GetPrimeCandidates(d * e);
    assert 0 !in candidates;
    var valid := FilterValidPrimes(candidates, k).value;
    assert p in valid && q in valid;
    var a :| 0 <= a < |valid| && valid[a] == p;
    var b :| 0 <= b < |valid| && valid[b] == q;
    assert a < b;
    assert !Verdict(c, d, valid, a, b).Reject?;
    assert 0 !in valid;
    NoRaiseWithoutZero(c, d, valid);
  }

  /** `decrypt()` on the hard-coded instance; printing the outcome is not modelled. */
  function Decrypt(): (r: Outcome)
    ensures !r.Raised?
    ensures r.Found? ==> r.text != [] && AllInCharset(r.text)
  {
    RecoverPlaintext(Ciphertext, Exponent, PublicExponent, TargetBits)
  }
}
