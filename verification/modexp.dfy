/**
  * Three-argument `pow(c, e, n)` for a positive modulus: RSADP of section
  * 5.1.2 of RFC 8017 without its `c < n` range check.
  */
module ModExp {
  import opened Arithmetic

  /**
    * Square-and-multiply modular exponentiation. The base may be negative or
    * at least `n`; like Python, the result is always in `[0, n)`.
    */
  function ModPow(b: int, e: nat, n: nat): (r: nat)
    requires n > 0
    ensures r < n
    decreases e
  {
    if e == 0 then 1 % n
    else
      var h := ModPow(b, e / 2, n);
      var sq := (h * h) % n;
      if e % 2 == 0 then sq else (sq * (b % n)) % n
  }

  /** Square-and-multiply agrees with the definition of the power, reduced modulo `n`. */
  lemma {:induction false} ModPowIsPow(b: int, e: nat, n: nat)
    requires n > 0
    ensures ModPow(b, e, n) == Pow(b, e) % n
    decreases e
  {
    if e > 0 {
      var half := Pow(b, e / 2);
      ModPowIsPow(b, e / 2, n);
      PowAdd(b, e / 2, e / 2);
      ModMulMod(half, half, n);
      if e % 2 == 1 {
        PowAdd(b, e / 2 + e / 2, 1);
        ModMulMod(half * half, b, n);
      }
    }
  }
}
