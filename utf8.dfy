/**
 * UTF-8 (RFC 3629): the encoding `TextEncoder` applies to a string, and the strict decoding
 * `new TextDecoder('utf-8', {fatal: true})` applies to bytes.
 */
module Utf8 {
  import opened Wrappers
  import opened Bytes

  /** The one to four bytes of a character. */
  function EncodeChar(c: char): (r: seq<byte>)
    ensures 1 <= |r| <= 4
  {
    var n := c as int;
    if n < 0x80 then [n as byte]
    else if n < 0x800 then [(0xC0 + n / 64) as byte, (0x80 + n % 64) as byte]
    else if n < 0x10000 then
      var r := n % 4096;
      [(0xE0 + n / 4096) as byte, (0x80 + r / 64) as byte, (0x80 + r % 64) as byte]
    else
      var r := n % 262144;
      var r2 := r % 4096;
      [(0xF0 + n / 262144) as byte, (0x80 + r / 4096) as byte, (0x80 + r2 / 64) as byte,
       (0x80 + r2 % 64) as byte]
  }

  function Encode(s: string): seq<byte> {
    if s == [] then [] else EncodeChar(s[0]) + Encode(s[1..])
  }

  predicate IsContinuation(b: byte) {
    0x80 <= b < 0xC0
  }

  /**
   * The character at the front of `b` and how many bytes it takes; fails on a malformed,
   * overlong or truncated sequence and on an encoded surrogate.
   */
  function DecodeChar(b: seq<byte>): (r: Option<(char, nat)>)
    ensures r.Some? ==> 1 <= r.value.1 <= |b|
  {
    if b == [] then None
    else
      var b0 := b[0] as int;
      if b0 < 0x80 then Some((b0 as char, 1))
      else if 0xC2 <= b0 < 0xE0 && |b| >= 2 && IsContinuation(b[1]) then
        Some((((b0 - 0xC0) * 64 + (b[1] as int - 0x80)) as char, 2))
      else if 0xE0 <= b0 < 0xF0 && |b| >= 3 && IsContinuation(b[1]) && IsContinuation(b[2]) then
        var n := (b0 - 0xE0) * 4096 + (b[1] as int - 0x80) * 64 + (b[2] as int - 0x80);
        if n < 0x800 || 0xD800 <= n < 0xE000 then None else Some((n as char, 3))
      else if 0xF0 <= b0 < 0xF5 && |b| >= 4 && IsContinuation(b[1]) && IsContinuation(b[2]) &&
              IsContinuation(b[3]) then
        var n := (b0 - 0xF0) * 262144 + (b[1] as int - 0x80) * 4096 + (b[2] as int - 0x80) * 64 +
                 (b[3] as int - 0x80);
        if n < 0x10000 || n > 0x10FFFF then None else Some((n as char, 4))
      else None
  }

  function Decode(b: seq<byte>): Option<string>
    decreases |b|
  {
    if b == [] then Some([])
    else
      match DecodeChar(b)
      case None => None
      case Some((c, k)) =>
        match Decode(b[k..])
        case None => None
        case Some(s) => Some([c] + s)
  }

  lemma DivMod(n: int, d: int)
    requires 0 <= n && (d == 64 || d == 4096 || d == 262144)
    ensures n == d * (n / d) + n % d && 0 <= n % d < d
  {
  }

  /** The bytes of a character, in front of anything, decode to that character. */
  lemma DecodeEncodeChar(c: char, rest: seq<byte>)
    ensures DecodeChar(EncodeChar(c) + rest) == Some((c, |EncodeChar(c)|))
  {
    var n := c as int;
    var e := EncodeChar(c) + rest;
    if n < 0x80 {
    } else if n < 0x800 {
      DivMod(n, 64);
      assert e[0] as int - 0xC0 == n / 64 && e[1] as int - 0x80 == n % 64;
    } else if n < 0x10000 {
      var r := n % 4096;
      DivMod(n, 4096);
      DivMod(r, 64);
      assert e[0] as int - 0xE0 == n / 4096;
      assert e[1] as int - 0x80 == r / 64 && e[2] as int - 0x80 == r % 64;
    } else {
      var r := n % 262144;
      var r2 := r % 4096;
      DivMod(n, 262144);
      DivMod(r, 4096);
      DivMod(r2, 64);
      assert e[0] as int - 0xF0 == n / 262144;
      assert e[1] as int - 0x80 == r / 4096;
      assert e[2] as int - 0x80 == r2 / 64 && e[3] as int - 0x80 == r2 % 64;
    }
  }

  /** One decoding step: a character read from the front, then the rest. */
  lemma DecodeStep(b: seq<byte>, c: char, k: nat, s: string)
    requires b != [] && k <= |b| && DecodeChar(b) == Some((c, k)) && Decode(b[k..]) == Some(s)
    ensures Decode(b) == Some([c] + s)
  {
  }

  /** Decoding the UTF-8 bytes of a string gives the string back. */
  lemma {:induction false} RoundTrip(s: string)
    ensures Decode(Encode(s)) == Some(s)
    decreases |s|
  {
    if s != [] {
      var e := EncodeChar(s[0]);
      var rest := Encode(s[1..]);
      assert Encode(s) == e + rest;
      DecodeEncodeChar(s[0], rest);
      assert (e + rest)[|e|..] == rest;
      RoundTrip(s[1..]);
      DecodeStep(e + rest, s[0], |e|, s[1..]);
      assert [s[0]] + s[1..] == s;
    }
  }

  /** On characters up to U+007F, UTF-8 and the one-byte binary string agree. */
  lemma {:induction false} AsciiEncoding(s: string)
    requires forall i :: 0 <= i < |s| ==> s[i] as int < 0x80
    ensures IsBinaryString(s) && Encode(s) == BinaryToBytes(s)
    decreases |s|
  {
    if s != [] {
      AsciiEncoding(s[1..]);
    }
  }
}
