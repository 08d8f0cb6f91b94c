/**
  * Integer/byte-string conversion: `long_to_bytes` (minimal big-endian, like
  * I2OSP of section 4.1 of RFC 8017 without a fixed length) and its inverse,
  * the big-endian reading OS2IP.
  */
module Bytes {
  import opened Arithmetic

  type byte = x: int | 0 <= x < 256

  /** OS2IP: the big-endian value of a byte string. */
  function BytesToNat(bs: seq<byte>): nat
    decreases |bs|
  {
    if bs == [] then 0 else BytesToNat(bs[..|bs| - 1]) * 256 + bs[|bs| - 1]
  }

  /** The big-endian bytes of `n` with no leading zero byte; empty for zero. */
  function MinimalBytes(n: nat): (r: seq<byte>)
    ensures BytesToNat(r) == n
    ensures r == [] <==> n == 0
    ensures r != [] ==> r[0] != 0
    decreases n
  {
    if n == 0 then []
    else
      var init := MinimalBytes(n / 256);
      assert (init + [n % 256])[..|init|] == init;
      init + [n % 256]
  }

  /** `long_to_bytes(n)`: the minimal big-endian encoding; zero becomes the single byte 0. */
  function LongToBytes(n: nat): (r: seq<byte>)
    ensures BytesToNat(r) == n
    ensures |r| >= 1
    ensures r[0] == 0 <==> n == 0
    ensures n == 0 ==> r == [0]
  {
    if n == 0 then [0] else MinimalBytes(n)
  }

  /** A byte string without leading zero bytes is the minimal encoding of its value. */
  lemma {:induction false} MinimalBytesOfValue(bs: seq<byte>)
    requires bs == [] || bs[0] != 0
    ensures MinimalBytes(BytesToNat(bs)) == bs
    decreases |bs|
  {
    if bs != [] {
      var init, last := bs[..|bs| - 1], bs[|bs| - 1];
      var n := BytesToNat(bs);
      assert n == BytesToNat(init) * 256 + last;
      ModUnique(n, 256, BytesToNat(init), last);
      assert init == [] || init[0] == bs[0];
      MinimalBytesOfValue(init);
      if init == [] {
        assert n == last && last == bs[0];
      }
      assert bs == init + [last];
    }
  }

  /**
    * Round trip in the other direction: a canonical byte string (no leading
    * zero, or the single zero byte) is what `long_to_bytes` gives for its value.
    */
  lemma LongToBytesOfValue(bs: seq<byte>)
    requires bs != []
    requires bs[0] != 0 || bs == [0]
    ensures LongToBytes(BytesToNat(bs)) == bs
  {
    if bs == [0] {
      assert BytesToNat(bs) == BytesToNat([]) * 256 + 0;
    } else {
      MinimalBytesOfValue(bs);
    }
  }

  /** A byte string with a non-zero leading byte has exactly as many bytes as its value needs. */
  lemma {:induction false} BytesToNatBounds(bs: seq<byte>)
    requires bs != [] && bs[0] != 0
    ensures Pow(256, |bs| - 1) <= BytesToNat(bs) < Pow(256, |bs|)
    decreases |bs|
  {
    var init := bs[..|bs| - 1];
    if init == [] {
      assert BytesToNat(bs) == BytesToNat([]) * 256 + bs[0];
    } else {
      assert init[0] == bs[0];
      BytesToNatBounds(init);
      assert Pow(256, |bs|) == 256 * Pow(256, |init|);
      assert Pow(256, |init|) == 256 * Pow(256, |init| - 1);
    }
  }

  /** `long_to_bytes(n)` uses the fewest bytes that can hold a positive `n`. */
  lemma LongToBytesIsMinimal(n: nat)
    requires n > 0
    ensures Pow(256, |LongToBytes(n)| - 1) <= n < Pow(256, |LongToBytes(n)|)
  {
    BytesToNatBounds(LongToBytes(n));
  }
}
