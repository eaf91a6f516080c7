/** Bytes as the firmware sees them, and the unchecked byte-to-character
    coercion it applies when it turns a payload into an Arduino `String`. */
module Bytes {

  /** One octet of a tag payload or of the serial line, as its unsigned value. */
  type byte = x: int | 0 <= x < 256

  /** A string every character of which fits in one byte. */
  predicate IsByteString(s: string)
  {
    forall k :: 0 <= k < |s| ==> s[k] as int < 256
  }

  /** `(char)b` for every byte, in order: a raw passthrough, no charset check. */
  function ToChars(bs: seq<byte>): (s: string)
    ensures |s| == |bs|
    ensures forall k :: 0 <= k < |bs| ==> s[k] as int == bs[k] as int
    ensures IsByteString(s)
  {
    seq(|bs|, k requires 0 <= k < |bs| => bs[k] as char)
  }

  /** The inverse coercion, defined on strings whose characters fit in a byte. */
  function ToBytes(s: string): (bs: seq<byte>)
    requires IsByteString(s)
    ensures |bs| == |s|
    ensures forall k :: 0 <= k < |s| ==> bs[k] as int == s[k] as int
  {
    seq(|s|, k requires 0 <= k < |s| => s[k] as int)
  }

  /** Coercing a byte string to bytes and back gives the string again. */
  lemma CharsOfBytes(s: string)
    requires IsByteString(s)
    ensures ToChars(ToBytes(s)) == s
  {
  }

  /** The coercion is one-to-one: distinct payload bytes never print alike. */
  lemma ToCharsInjective(a: seq<byte>, b: seq<byte>)
    requires ToChars(a) == ToChars(b)
    ensures a == b
  {
  }
}
