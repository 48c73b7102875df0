/** Lower-case hexadecimal text of byte strings, as the SDK's BinaryUtils.toHex
    produces it for every checksum sent to the service, and its decoder. */
module Hex {
  import opened Wrappers

  /** A lower-case hexadecimal digit. */
  predicate IsDigit(c: char) {
    '0' <= c <= '9' || 'a' <= c <= 'f'
  }

  /** The lower-case digit for a value below 16. */
  function Digit(v: nat): (c: char)
    requires v < 16
    ensures IsDigit(c)
  {
    if v < 10 then ('0' as int + v) as char else ('a' as int + v - 10) as char
  }

  /** The value of a lower-case hex digit. */
  function DigitValue(c: char): (v: nat)
    requires IsDigit(c)
    ensures v < 16 && Digit(v) == c
  {
    if c <= '9' then c as int - '0' as int else c as int - 'a' as int + 10
  }

  lemma DigitValueOfDigit(v: nat)
    requires v < 16
    ensures DigitValue(Digit(v)) == v
  {
  }

  /** Text made of whole bytes: an even number of lower-case hex digits. */
  predicate IsHex(s: string) {
    |s| % 2 == 0 && forall i :: 0 <= i < |s| ==> IsDigit(s[i])
  }

  /** Two digits per byte, high nibble first. */
  function ToHex(b: Bytes): (s: string)
    ensures |s| == 2 * |b|
    ensures IsHex(s)
  {
    seq(2 * |b|, k requires 0 <= k < 2 * |b| =>
      if k % 2 == 0 then Digit(b[k / 2] / 16) else Digit(b[k / 2] % 16))
  }

  /** The bytes written by `s`; nothing when `s` is not whole-byte hex text. */
  function FromHex(s: string): (r: Option<Bytes>)
    ensures r.Some? <==> IsHex(s)
    ensures r.Some? ==> 2 * |r.value| == |s|
  {
    if IsHex(s) then
      Some(seq(|s| / 2, i requires 0 <= i < |s| / 2 => 16 * DigitValue(s[2 * i]) + DigitValue(s[2 * i + 1])))
    else None
  }

  /** Decoding the hex text of any bytes gives those bytes back. */
  lemma FromToHex(b: Bytes)
    ensures FromHex(ToHex(b)) == Some(b)
  {
    var s := ToHex(b);
    var d := FromHex(s).value;
    forall i | 0 <= i < |b|
      ensures d[i] == b[i]
    {
      assert s[2 * i] == Digit(b[i] / 16) && s[2 * i + 1] == Digit(b[i] % 16);
      DigitValueOfDigit(b[i] / 16);
      DigitValueOfDigit(b[i] % 16);
    }
    assert d == b;
  }

  /** Whatever decodes is the hex text of the decoded bytes: ToHex and
      FromHex are inverse bijections between byte strings and whole-byte
      lower-case hex text. */
  lemma ToFromHex(s: string)
    requires IsHex(s)
    ensures ToHex(FromHex(s).value) == s
  {
    var d := FromHex(s).value;
    var t := ToHex(d);
    forall k | 0 <= k < |s|
      ensures t[k] == s[k]
    {
      var i := k / 2;
      var hi, lo := DigitValue(s[2 * i]), DigitValue(s[2 * i + 1]);
      assert d[i] == 16 * hi + lo;
      assert (16 * hi + lo) / 16 == hi && (16 * hi + lo) % 16 == lo;
    }
    assert t == s;
  }

  /** Distinct digests have distinct hex text. */
  lemma ToHexInjective(a: Bytes, b: Bytes)
    requires ToHex(a) == ToHex(b)
    ensures a == b
  {
    FromToHex(a);
    FromToHex(b);
  }
}
