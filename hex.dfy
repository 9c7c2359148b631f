/**
  Bytes and their hex text form, as produced by
  CryptographicBuffer.EncodeToHexString: two lower-case digits per byte, high
  nibble first. The decoder is not part of the program; it is the partner that
  shows the encoding loses nothing, so equal hex strings mean equal digests.
 */
module Hex {
  import opened Wrappers

  newtype byte = x: int | 0 <= x < 256

  /** The value of one hex digit, or None for any other character. */
  function DigitValue(c: char): (v: Option<nat>)
    ensures v.Some? <==> ('0' <= c <= '9' || 'a' <= c <= 'f')
    ensures v.Some? ==> v.value < 16
  {
    if '0' <= c <= '9' then Some(c as int - '0' as int)
    else if 'a' <= c <= 'f' then Some(c as int - 'a' as int + 10)
    else None
  }

  /** The lower-case digit for a nibble. */
  function HexDigit(d: nat): (c: char)
    requires d < 16
    ensures DigitValue(c) == Some(d)
  {
    if d < 10 then ('0' as int + d) as char else ('a' as int + d - 10) as char
  }

  function EncodeToHexString(bytes: seq<byte>): (s: string)
    ensures |s| == 2 * |bytes|
    ensures forall i :: 0 <= i < |s| ==> DigitValue(s[i]).Some?
  {
    if bytes == [] then ""
    else [HexDigit(bytes[0] as int / 16), HexDigit(bytes[0] as int % 16)] + EncodeToHexString(bytes[1..])
  }

  /** Reads pairs of digits back into bytes; None on an odd length or a non-digit. */
  function DecodeHexString(s: string): (r: Option<seq<byte>>)
    ensures r.Some? ==> 2 * |r.value| == |s|
  {
    if s == [] then Some([])
    else if |s| == 1 then None
    else
      match (DigitValue(s[0]), DigitValue(s[1]), DecodeHexString(s[2..]))
      case (Some(hi), Some(lo), Some(rest)) => Some([(hi * 16 + lo) as byte] + rest)
      case _ => None
  }

  lemma {:induction false} DecodeEncode(bytes: seq<byte>)
    ensures DecodeHexString(EncodeToHexString(bytes)) == Some(bytes)
  {
    if bytes != [] {
      var s := EncodeToHexString(bytes);
      DecodeEncode(bytes[1..]);
      assert s[2..] == EncodeToHexString(bytes[1..]);
      var hi, lo := bytes[0] as int / 16, bytes[0] as int % 16;
      assert DigitValue(s[0]) == Some(hi) && DigitValue(s[1]) == Some(lo);
      assert (hi * 16 + lo) as byte == bytes[0];
      assert [bytes[0]] + bytes[1..] == bytes;
    }
  }

  /** Two digests print the same exactly when they are the same bytes. */
  lemma EncodeInjective(a: seq<byte>, b: seq<byte>)
    ensures EncodeToHexString(a) == EncodeToHexString(b) <==> a == b
  {
    DecodeEncode(a);
    DecodeEncode(b);
  }
}
