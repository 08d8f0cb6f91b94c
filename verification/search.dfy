/**
  * Pairwise trial decryption (`decrypt_message`): for each pair of listed
  * primes, in `itertools.combinations` order, decrypt with their product as
  * modulus and return the first decoding made only of letters and digits.
  */
module Search {
  import opened Wrappers
  import opened Errors
  import opened Arithmetic
  import opened Bytes
  import opened Ascii
  import opened ModExp

  /** What one iteration of the loop does with a pair. */
  datatype Attempt =
    | Accept(text: string)   // the loop returns `text`
    | Reject                 // undecodable or outside the charset: `continue`
    | Raise(error: Error)    // an exception escapes the loop

  /** What `decrypt_message` ends with. */
  datatype Outcome =
    | Found(text: string)
    | NotFound
    | Raised(error: Error)

  /** `all(c in charset for c in text)`. */
  predicate AllInCharset(s: string) {
    forall i :: 0 <= i < |s| ==> s[i] in Charset
  }

  /** The minimal big-endian bytes of the RSA decryption of `c` modulo `p * q`. */
  function DecryptedBytes(c: int, e: nat, p: nat, q: nat): seq<byte>
    requires p * q > 0
  {
    LongToBytes(ModPow(c, e, p * q))
  }

  /** The body of the loop of `decrypt_message` for one pair `(p, q)`. */
  function Trial(c: int, e: nat, p: nat, q: nat): (t: Attempt)
    ensures t.Raise? <==> p * q == 0
    ensures t.Raise? ==> t.error == PowZeroModulus
    ensures t.Accept? ==> t.text != [] && AllInCharset(t.text)
  {
    if p * q == 0 then Raise(PowZeroModulus)
    else
      match DecodeAscii(DecryptedBytes(c, e, p, q))
      case None => Reject
      case Some(text) => if AllInCharset(text) then Accept(text) else Reject
  }

  /** The bytes tried for a pair encode `c^e mod p*q`, which lies below `p * q`. */
  lemma DecryptedBytesValue(c: int, e: nat, p: nat, q: nat)
    requires p * q > 0
    ensures DecryptedBytes(c, e, p, q) == LongToBytes(Pow(c, e) % (p * q))
    ensures BytesToNat(DecryptedBytes(c, e, p, q)) == Pow(c, e) % (p * q) < p * q
  {
    ModPowIsPow(c, e, p * q);
  }

  /** Acceptance of a decoded byte string: ASCII, and letters and digits only. */
  lemma AcceptsBytesIff(bs: seq<byte>)
    ensures var d := DecodeAscii(bs);
      (d.Some? && AllInCharset(d.value)) <==> forall i :: 0 <= i < |bs| ==> bs[i] < 128 && IsAlnum(bs[i] as char)
  {
    var d := DecodeAscii(bs);
    if d.Some? {
      forall i | 0 <= i < |bs| ensures d.value[i] in Charset <==> IsAlnum(bs[i] as char) {
        assert d.value[i] == bs[i] as char;
        CharsetIsAlnum(d.value[i]);
      }
    }
  }

  /**
    * A pair is accepted exactly when every byte of `c^e mod p*q` is an ASCII
    * letter or digit, and the accepted text is those bytes read as characters.
    */
  lemma TrialAcceptIff(c: int, e: nat, p: nat, q: nat)
    requires p * q > 0
    ensures var bs := LongToBytes(Pow(c, e) % (p * q));
      Trial(c, e, p, q).Accept? <==> forall i :: 0 <= i < |bs| ==> bs[i] < 128 && IsAlnum(bs[i] as char)
    ensures Trial(c, e, p, q).Accept? ==>
      var text := Trial(c, e, p, q).text;
      IsAsciiString(text) && BytesToNat(EncodeAscii(text)) == Pow(c, e) % (p * q)
  {
    var bs := DecryptedBytes(c, e, p, q);
    DecryptedBytesValue(c, e, p, q);
    AcceptsBytesIff(bs);
    if DecodeAscii(bs).Some? {
      EncodeDecode(bs);
    }
  }

  /** A decryption with a byte of 128 or more is skipped, not an error. */
  lemma HighByteIsRejected(c: int, e: nat, p: nat, q: nat, i: nat)
    requires p * q > 0
    requires i < |LongToBytes(Pow(c, e) % (p * q))|
    requires LongToBytes(Pow(c, e) % (p * q))[i] >= 128
    ensures Trial(c, e, p, q) == Reject
  {
    TrialAcceptIff(c, e, p, q);
  }

  /** The attempt for the pair of list positions `a < b`. */
  function Verdict(c: int, e: nat, ps: seq<nat>, a: nat, b: nat): Attempt
    requires a < b < |ps|
  {
    Trial(c, e, ps[a], ps[b])
  }

  /** Pair `(a, b)` comes strictly before pair `(i, j)` in combinations order. */
  predicate Earlier(a: nat, b: nat, i: nat, j: nat) {
    a < i || (a == i && b < j)
  }

  /**
    * Every pair from `(i, j)` on (inclusive) and strictly before `(a, b)` in
    * combinations order was rejected.
    */
  predicate RejectedBetween(c: int, e: nat, ps: seq<nat>, i: nat, j: nat, a: nat, b: nat) {
    forall x: nat, y: nat :: x < y < |ps| && !Earlier(x, y, i, j) && Earlier(x, y, a, b) ==>
      Verdict(c, e, ps, x, y) == Reject
  }

  /** Every pair of the list was rejected. */
  predicate AllRejected(c: int, e: nat, ps: seq<nat>) {
    forall x: nat, y: nat :: x < y < |ps| ==> Verdict(c, e, ps, x, y) == Reject
  }

  /** `(a, b)` is the first pair in combinations order that the loop does not skip. */
  predicate IsFirstStop(c: int, e: nat, ps: seq<nat>, a: nat, b: nat) {
    a < b < |ps| && !Verdict(c, e, ps, a, b).Reject? && RejectedBetween(c, e, ps, 0, 0, a, b)
  }

  /** How `decrypt_message` ends when it stops at an attempt. */
  function OutcomeOf(t: Attempt): Outcome {
    match t
    case Accept(text) => Found(text)
    case Reject => NotFound
    case Raise(err) => Raised(err)
  }

  /**
    * The first pair at or after `(i, j)` in combinations order whose attempt
    * is not a rejection, if any. `j == |ps|` means row `i` is exhausted.
    */
  function FirstStopFrom(c: int, e: nat, ps: seq<nat>, i: nat, j: nat): (r: Option<(nat, nat)>)
    requires i < j <= |ps|
    ensures r.None? <==> RejectedBetween(c, e, ps, i, j, |ps|, 0)
    ensures r.Some? ==>
      && r.value.0 < r.value.1 < |ps|
      && !Earlier(r.value.0, r.value.1, i, j)
      && !Verdict(c, e, ps, r.value.0, r.value.1).Reject?
      && RejectedBetween(c, e, ps, i, j, r.value.0, r.value.1)
    decreases |ps| - i, |ps| - j
  {
    if j < |ps| then
      if Verdict(c, e, ps, i, j).Reject? then
        var r := FirstStopFrom(c, e, ps, i, j + 1);
        SkipRejected(c, e, ps, i, j, if r.Some? then r.value.0 else |ps|, if r.Some? then r.value.1 else 0);
        r
      else Some((i, j))
    else if i + 2 <= |ps| then
      var r := FirstStopFrom(c, e, ps, i + 1, i + 2);
      NextRow(c, e, ps, i, if r.Some? then r.value.0 else |ps|, if r.Some? then r.value.1 else 0);
      r
    else
      None
  }

  /** A rejected pair `(i, j)` can be added to the front of a window of rejections. */
  lemma SkipRejected(c: int, e: nat, ps: seq<nat>, i: nat, j: nat, a: nat, b: nat)
    requires i < j < |ps| && Verdict(c, e, ps, i, j).Reject?
    ensures RejectedBetween(c, e, ps, i, j, a, b) <==> RejectedBetween(c, e, ps, i, j + 1, a, b)
  {
  }

  /** Once row `i` is exhausted, the window continues at the first pair of row `i + 1`. */
  lemma NextRow(c: int, e: nat, ps: seq<nat>, i: nat, a: nat, b: nat)
    requires i + 2 <= |ps|
    ensures RejectedBetween(c, e, ps, i, |ps|, a, b) <==> RejectedBetween(c, e, ps, i + 1, i + 2, a, b)
  {
  }

  /**
    * `decrypt_message(c, e, ps)`: the outcome of the first pair in
    * combinations order that is not skipped, or `NotFound` if every pair is.
    */
  function DecryptMessage(c: int, e: nat, ps: seq<nat>): (r: Outcome)
    ensures r.NotFound? <==> AllRejected(c, e, ps)
    ensures !r.NotFound? ==>
      exists a: nat, b: nat :: IsFirstStop(c, e, ps, a, b) && r == OutcomeOf(Verdict(c, e, ps, a, b))
    ensures r.Found? ==> r.text != [] && AllInCharset(r.text)
    ensures |ps| < 2 ==> r == NotFound
  {
    if |ps| < 2 then NotFound
    else
      match FirstStopFrom(c, e, ps, 0, 1)
      case None =>
        assert AllRejected(c, e, ps);
        NotFound
      case Some((a, b)) =>
        assert IsFirstStop(c, e, ps, a, b);
        OutcomeOf(Verdict(c, e, ps, a, b))
  }

  /** At most one pair is the first one not skipped. */
  lemma FirstStopUnique(c: int, e: nat, ps: seq<nat>, a: nat, b: nat, x: nat, y: nat)
    requires IsFirstStop(c, e, ps, a, b) && IsFirstStop(c, e, ps, x, y)
    ensures a == x && b == y
  {
    assert !Verdict(c, e, ps, x, y).Reject? && !Verdict(c, e, ps, a, b).Reject?;
    assert !Earlier(x, y, a, b) && !Earlier(a, b, x, y);
  }

  /** The first pair not skipped alone determines the outcome of the search. */
  lemma DecryptMessageAtFirstStop(c: int, e: nat, ps: seq<nat>, a: nat, b: nat)
    requires IsFirstStop(c, e, ps, a, b)
    ensures DecryptMessage(c, e, ps) == OutcomeOf(Verdict(c, e, ps, a, b))
  {
    var r := DecryptMessage(c, e, ps);
    assert !AllRejected(c, e, ps);
    var x: nat, y: nat :| IsFirstStop(c, e, ps, x, y) && r == OutcomeOf(Verdict(c, e, ps, x, y));
    FirstStopUnique(c, e, ps, a, b, x, y);
  }

  /** No pair of a list without zero raises: every modulus is positive. */
  lemma NoPairRaises(c: int, e: nat, ps: seq<nat>)
    requires 0 !in ps
    ensures forall a: nat, b: nat :: a < b < |ps| ==> !Verdict(c, e, ps, a, b).Raise?
  {
    forall a: nat, b: nat | a < b < |ps| ensures !Verdict(c, e, ps, a, b).Raise? {
      assert ps[a] in ps && ps[b] in ps;
      ProductPositive(ps[a], ps[b]);
    }
  }

  /** A list without zero never makes the search raise. */
  lemma NoRaiseWithoutZero(c: int, e: nat, ps: seq<nat>)
    requires 0 !in ps
    ensures !DecryptMessage(c, e, ps).Raised?
  {
    NoPairRaises(c, e, ps);
    var r := DecryptMessage(c, e, ps);
    if !r.NotFound? {
      var a: nat, b: nat :| IsFirstStop(c, e, ps, a, b) && r == OutcomeOf(Verdict(c, e, ps, a, b));
      assert !Verdict(c, e, ps, a, b).Raise?;
    }
  }

  /** A found text is accepted for two list entries, the earlier one first. */
  lemma FoundIsAcceptedPair(c: int, e: nat, ps: seq<nat>)
    requires DecryptMessage(c, e, ps).Found?
    ensures exists a: nat, b: nat :: a < b < |ps| && Trial(c, e, ps[a], ps[b]) == Accept(DecryptMessage(c, e, ps).text)
  {
    var r := DecryptMessage(c, e, ps);
    var a: nat, b: nat :| IsFirstStop(c, e, ps, a, b) && r == OutcomeOf(Verdict(c, e, ps, a, b));
    assert Trial(c, e, ps[a], ps[b]) == Accept(r.text);
  }
}
