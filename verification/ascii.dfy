/** ASCII decoding (`bytes.decode("ascii")`) and the accepted character set. */
module Ascii {
  import opened Wrappers
  import opened Bytes

  /** `string.ascii_lowercase` and `string.ascii_uppercase`. */
  const AsciiLowercase: string := "abcdefghijklmnopqrstuvwxyz"
  const AsciiUppercase: string := "ABCDEFGHIJKLMNOPQRSTUVWXYZ"

  /** `string.ascii_letters`, defined as the lowercase letters followed by the uppercase ones. */
  const AsciiLetters: string := AsciiLowercase + AsciiUppercase

  /** `string.digits`. */
  const Digits: string := "0123456789"

  /** The characters a recovered plaintext may contain: `ascii_letters + digits`. */
  const Charset: string := AsciiLetters + Digits

  /** ASCII letters and digits, by code-point ranges. */
  predicate IsAlnum(c: char) {
    'a' <= c <= 'z' || 'A' <= c <= 'Z' || '0' <= c <= '9'
  }

  lemma LowercaseRange(c: char)
    ensures c in AsciiLowercase <==> 'a' <= c <= 'z'
  {
  }

  lemma UppercaseRange(c: char)
    ensures c in AsciiUppercase <==> 'A' <= c <= 'Z'
  {
  }

  lemma DigitsRange(c: char)
    ensures c in Digits <==> '0' <= c <= '9'
  {
  }

  lemma InConcat(c: char, a: string, b: string)
    ensures c in a + b <==> c in a || c in b
  {
    if c in a + b {
      var i :| 0 <= i < |a + b| && (a + b)[i] == c;
      if i >= |a| {
        assert b[i - |a|] == c;
      }
    }
  }

  /** The literal character set and the range description agree. */
  lemma CharsetIsAlnum(c: char)
    ensures c in Charset <==> IsAlnum(c)
  {
    InConcat(c, AsciiLetters, Digits);
    InConcat(c, AsciiLowercase, AsciiUppercase);
    LowercaseRange(c);
    UppercaseRange(c);
    DigitsRange(c);
  }

  predicate IsAsciiString(s: string) {
    forall i :: 0 <= i < |s| ==> s[i] as int < 128
  }

  /**
    * `bs.decode("ascii")`: each byte below 128 becomes the character with that
    * code; any byte of 128 or more makes decoding fail (`None` here, a
    * `UnicodeDecodeError` in the source).
    */
  function DecodeAscii(bs: seq<byte>): (r: Option<string>)
    ensures r.Some? <==> forall i :: 0 <= i < |bs| ==> bs[i] < 128
    ensures r.Some? ==> |r.value| == |bs| && forall i :: 0 <= i < |bs| ==> r.value[i] as int == bs[i]
  {
    if bs == [] then Some([])
    else if bs[0] >= 128 then None
    else
      match DecodeAscii(bs[1..])
      case None => None
      case Some(rest) => Some([bs[0] as char] + rest)
  }

  /** `s.encode("ascii")` for an ASCII string. */
  function EncodeAscii(s: string): (r: seq<byte>)
    requires IsAsciiString(s)
    ensures |r| == |s|
    ensures forall i :: 0 <= i < |s| ==> r[i] < 128 && r[i] == s[i] as int
  {
    seq(|s|, i requires 0 <= i < |s| => s[i] as int as byte)
  }

  /** Decoding recovers every ASCII string from its encoding. */
  lemma DecodeEncode(s: string)
    requires IsAsciiString(s)
    ensures DecodeAscii(EncodeAscii(s)) == Some(s)
  {
    var r := DecodeAscii(EncodeAscii(s));
    assert r.Some?;
    assert forall i :: 0 <= i < |s| ==> r.value[i] as int == s[i] as int;
    assert forall i :: 0 <= i < |s| ==> r.value[i] == s[i];
    assert |r.value| == |s|;
    assert r.value == s;
  }

  /** Whatever decodes successfully encodes back to the same bytes. */
  lemma EncodeDecode(bs: seq<byte>)
    requires DecodeAscii(bs).Some?
    ensures IsAsciiString(DecodeAscii(bs).value)
    ensures EncodeAscii(DecodeAscii(bs).value) == bs
  {
  }
}
