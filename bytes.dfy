/**
 * Bytes, and the "binary strings" through which `btoa` and `atob` exchange them: strings whose
 * characters are all at or below U+00FF, one character per byte.
 */
module Bytes {

  newtype byte = x: int | 0 <= x < 256

  /** Every character of `s` fits in one byte, as `btoa` demands. */
  predicate IsBinaryString(s: string) {
    forall i :: 0 <= i < |s| ==> s[i] as int < 256
  }

  function BinaryToBytes(s: string): (r: seq<byte>)
    requires IsBinaryString(s)
    ensures |r| == |s| && forall i :: 0 <= i < |s| ==> r[i] as int == s[i] as int
  {
    if s == [] then [] else [s[0] as int as byte] + BinaryToBytes(s[1..])
  }

  function BytesToBinary(b: seq<byte>): (r: string)
    ensures IsBinaryString(r)
    ensures |r| == |b| && forall i :: 0 <= i < |b| ==> r[i] as int == b[i] as int
  {
    if b == [] then [] else [b[0] as int as char] + BytesToBinary(b[1..])
  }

  lemma BinaryRoundTrip(s: string)
    requires IsBinaryString(s)
    ensures BytesToBinary(BinaryToBytes(s)) == s
  {
  }

  lemma BytesRoundTrip(b: seq<byte>)
    ensures BinaryToBytes(BytesToBinary(b)) == b
  {
  }
}
