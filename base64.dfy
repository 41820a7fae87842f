/**
 * Base 64 encoding as section 4 of RFC 4648 defines it (and the URL-safe alphabet of section 5),
 * with the decoder `atob` uses: the "forgiving-base64 decode" of the WHATWG Infra standard, which
 * drops ASCII whitespace, accepts missing padding and ignores leftover bits.
 */
module Base64 {
  import opened Wrappers
  import opened Bytes
  import Listing

  type Sextet = x: int | 0 <= x < 64

  /** The alphabet: A-Z, a-z, 0-9, then `+` `/` (standard) or `-` `_` (URL-safe). */
  function SextetChar(v: Sextet, url: bool): char {
    if v < 26 then ('A' as int + v) as char
    else if v < 52 then ('a' as int + v - 26) as char
    else if v < 62 then ('0' as int + v - 52) as char
    else if v == 62 then (if url then '-' else '+')
    else (if url then '_' else '/')
  }

  function CharSextet(c: char, url: bool): (r: Option<Sextet>)
    ensures r.Some? ==> SextetChar(r.value, url) == c
  {
    if 'A' <= c <= 'Z' then Some(c as int - 'A' as int)
    else if 'a' <= c <= 'z' then Some(c as int - 'a' as int + 26)
    else if '0' <= c <= '9' then Some(c as int - '0' as int + 52)
    else if c == (if url then '-' else '+') then Some(62)
    else if c == (if url then '_' else '/') then Some(63)
    else None
  }

  lemma CharSextetOfSextetChar(v: Sextet, url: bool)
    ensures CharSextet(SextetChar(v, url), url) == Some(v)
  {
  }

  /** One group: one to three bytes become two to four sextets, the last one zero-filled. */
  function Group(b: seq<byte>): (r: seq<Sextet>)
    requires 1 <= |b| <= 3
    ensures |r| == |b| + 1
  {
    var y0 := b[0] as int;
    var y1 := if |b| > 1 then b[1] as int else 0;
    var y2 := if |b| > 2 then b[2] as int else 0;
    [y0 / 4, (y0 % 4) * 16 + y1 / 16, (y1 % 16) * 4 + y2 / 64, y2 % 64][..|b| + 1]
  }

  /** The bytes two to four sextets carry; the bits left over are dropped. */
  function Ungroup(v: seq<Sextet>): (r: seq<byte>)
    requires 2 <= |v| <= 4
    ensures |r| == |v| - 1
  {
    var x0 := v[0] as int;
    var x1 := v[1] as int;
    var x2 := if |v| > 2 then v[2] as int else 0;
    var x3 := if |v| > 3 then v[3] as int else 0;
    [(x0 * 4 + x1 / 16) as byte, ((x1 % 16) * 16 + x2 / 4) as byte, ((x2 % 4) * 64 + x3) as byte][..|v| - 1]
  }

  lemma Div16(q: int, r: int)
    requires 0 <= q && 0 <= r < 16
    ensures (q * 16 + r) / 16 == q && (q * 16 + r) % 16 == r
  {
  }

  lemma Div4(q: int, r: int)
    requires 0 <= q && 0 <= r < 4
    ensures (q * 4 + r) / 4 == q && (q * 4 + r) % 4 == r
  {
  }

  lemma Bits(y0: int, y1: int, y2: int)
    requires 0 <= y0 < 256 && 0 <= y1 < 256 && 0 <= y2 < 256
    ensures (y0 / 4) * 4 + ((y0 % 4) * 16 + y1 / 16) / 16 == y0
    ensures (((y0 % 4) * 16 + y1 / 16) % 16) * 16 + ((y1 % 16) * 4 + y2 / 64) / 4 == y1
    ensures (((y1 % 16) * 4 + y2 / 64) % 4) * 64 + y2 % 64 == y2
  {
    Div16(y0 % 4, y1 / 16);
    Div4(y1 % 16, y2 / 64);
  }

  lemma GroupRoundTrip(b: seq<byte>)
    requires 1 <= |b| <= 3
    ensures Ungroup(Group(b)) == b
  {
    var y0 := b[0] as int;
    var y1 := if |b| > 1 then b[1] as int else 0;
    var y2 := if |b| > 2 then b[2] as int else 0;
    Bits(y0, y1, y2);
  }

  /** The sextets of `b`, group by group. */
  function ToSextets(b: seq<byte>): (r: seq<Sextet>)
    ensures |r| == 4 * (|b| / 3) + (if |b| % 3 == 0 then 0 else |b| % 3 + 1)
    decreases |b|
  {
    if |b| == 0 then []
    else if |b| <= 3 then Group(b)
    else Group(b[..3]) + ToSextets(b[3..])
  }

  function FromSextets(v: seq<Sextet>): (r: seq<byte>)
    requires |v| % 4 != 1
    ensures |r| == 3 * (|v| / 4) + (if |v| % 4 == 0 then 0 else |v| % 4 - 1)
    decreases |v|
  {
    if |v| == 0 then []
    else if |v| <= 4 then Ungroup(v)
    else Ungroup(v[..4]) + FromSextets(v[4..])
  }

  lemma ToSextetsStep(b: seq<byte>)
    requires |b| > 3
    ensures ToSextets(b) == Group(b[..3]) + ToSextets(b[3..])
  {
  }

  lemma FromSextetsStep(g: seq<Sextet>, t: seq<Sextet>)
    requires |g| == 4 && |t| % 4 != 1 && |t| >= 2
    ensures |g + t| % 4 != 1
    ensures FromSextets(g + t) == Ungroup(g) + FromSextets(t)
  {
    var v := g + t;
    assert v[..4] == g && v[4..] == t;
  }

  lemma {:induction false} SextetsRoundTrip(b: seq<byte>)
    ensures |ToSextets(b)| % 4 != 1
    ensures FromSextets(ToSextets(b)) == b
    decreases |b|
  {
    if |b| == 0 {
    } else if |b| <= 3 {
      GroupRoundTrip(b);
    } else {
      var g, t := Group(b[..3]), ToSextets(b[3..]);
      ToSextetsStep(b);
      SextetsRoundTrip(b[3..]);
      FromSextetsStep(g, t);
      GroupRoundTrip(b[..3]);
      assert b == b[..3] + b[3..];
    }
  }

  function Chars(v: seq<Sextet>, url: bool): (r: string)
    ensures |r| == |v| && forall i :: 0 <= i < |v| ==> r[i] == SextetChar(v[i], url)
  {
    if v == [] then [] else [SextetChar(v[0], url)] + Chars(v[1..], url)
  }

  /** The sextets the characters of `s` stand for; fails on a character outside the alphabet. */
  function Sextets(s: string, url: bool): (r: Option<seq<Sextet>>)
    ensures r.Some? ==> |r.value| == |s| && forall i :: 0 <= i < |s| ==> CharSextet(s[i], url).Some?
  {
    if s == [] then Some([])
    else
      match (CharSextet(s[0], url), Sextets(s[1..], url))
      case (Some(x), Some(xs)) => Some([x] + xs)
      case _ => None
  }

  lemma {:induction false} SextetsOfChars(v: seq<Sextet>, url: bool)
    ensures Sextets(Chars(v, url), url) == Some(v)
    decreases |v|
  {
    if v != [] {
      CharSextetOfSextetChar(v[0], url);
      assert Chars(v, url)[1..] == Chars(v[1..], url);
      SextetsOfChars(v[1..], url);
      assert [v[0]] + v[1..] == v;
    }
  }

  function Padding(n: nat): string {
    if n % 3 == 1 then "==" else if n % 3 == 2 then "=" else ""
  }

  /** The base 64 text of `b`, padded with `=` to a multiple of four characters. */
  function Encode(b: seq<byte>, url: bool): (r: string)
    ensures |r| % 4 == 0
  {
    Chars(ToSextets(b), url) + Padding(|b|)
  }

  predicate IsAsciiWhitespace(c: char) {
    c == '\t' || c == '\n' || c as int == 12 || c == '\r' || c == ' '
  }

  /** `atob` first removes ASCII whitespace. */
  function StripWhitespace(s: string): (r: string)
    ensures |r| <= |s|
    ensures forall i :: 0 <= i < |r| ==> !IsAsciiWhitespace(r[i]) && r[i] in s
  {
    if s == [] then []
    else if IsAsciiWhitespace(s[0]) then StripWhitespace(s[1..])
    else [s[0]] + StripWhitespace(s[1..])
  }

  /**
   * Removing whitespace keeps the other characters of `s`, in their order, each as often as it
   * occurs in `s`.
   */
  lemma {:induction false} StripWhitespaceKeeps(s: string)
    ensures Listing.IsSubsequence(StripWhitespace(s), s)
    ensures forall c :: multiset(StripWhitespace(s))[c] == if IsAsciiWhitespace(c) then 0 else multiset(s)[c]
    decreases |s|
  {
    if s != [] {
      var tail := StripWhitespace(s[1..]);
      StripWhitespaceKeeps(s[1..]);
      assert s == [s[0]] + s[1..];
      if IsAsciiWhitespace(s[0]) {
        Listing.SubsequenceDropFirst(tail, s);
      } else {
        assert ([s[0]] + tail)[1..] == tail;
      }
    }
  }

  /** When the length is a multiple of four, one or two final `=` are dropped. */
  function StripPadding(t: string): string {
    if |t| % 4 == 0 && |t| >= 2 && t[|t| - 1] == '=' && t[|t| - 2] == '=' then t[..|t| - 2]
    else if |t| % 4 == 0 && |t| >= 1 && t[|t| - 1] == '=' then t[..|t| - 1]
    else t
  }

  /** The forgiving decoder. */
  function Decode(s: string, url: bool): Option<seq<byte>> {
    var t := StripPadding(StripWhitespace(s));
    if |t| % 4 == 1 then None
    else
      match Sextets(t, url)
      case None => None
      case Some(v) => Some(FromSextets(v))
  }

  lemma {:induction false} StripWhitespaceNone(s: string)
    requires forall i :: 0 <= i < |s| ==> !IsAsciiWhitespace(s[i])
    ensures StripWhitespace(s) == s
    decreases |s|
  {
    if s != [] {
      StripWhitespaceNone(s[1..]);
    }
  }

  /** A single character that is not whitespace is one sextet short of a byte, so no decoding. */
  lemma DecodeSingle(s: string, url: bool)
    requires |s| == 1 && !IsAsciiWhitespace(s[0])
    ensures Decode(s, url).None?
  {
    StripWhitespaceNone(s);
  }

  /** No character of the alphabet is whitespace or `=`. */
  lemma SextetCharIsPlain(v: Sextet, url: bool)
    ensures !IsAsciiWhitespace(SextetChar(v, url)) && SextetChar(v, url) != '='
  {
  }

  lemma EncodeIsPlain(b: seq<byte>, url: bool)
    ensures forall i :: 0 <= i < |Encode(b, url)| ==> !IsAsciiWhitespace(Encode(b, url)[i])
  {
    var c := Chars(ToSextets(b), url);
    forall i | 0 <= i < |c| ensures !IsAsciiWhitespace(c[i]) {
      SextetCharIsPlain(ToSextets(b)[i], url);
    }
  }

  /** Dropping the padding of an encoding leaves exactly the alphabet characters. */
  lemma StripPaddingOfEncode(b: seq<byte>, url: bool)
    ensures StripPadding(Encode(b, url)) == Chars(ToSextets(b), url)
  {
    var v := ToSextets(b);
    var c := Chars(v, url);
    var e := Encode(b, url);
    var q := |b| / 3;
    assert e == c + Padding(|b|);
    if |b| % 3 == 1 {
      assert |c| == 4 * q + 2;
      assert e == c + "==";
      assert |e| % 4 == 0 && e[|e| - 1] == '=' && e[|e| - 2] == '=';
      assert e[..|e| - 2] == c;
    } else if |b| % 3 == 2 {
      assert |c| == 4 * q + 3;
      assert e == c + "=";
      SextetCharIsPlain(v[|v| - 1], url);
      assert |e| % 4 == 0 && e[|e| - 1] == '=' && e[|e| - 2] != '=';
      assert e[..|e| - 1] == c;
    } else {
      assert e == c;
      if |c| > 0 {
        SextetCharIsPlain(v[|v| - 1], url);
        assert e[|e| - 1] != '=';
      }
    }
  }

  /** Decoding what was encoded gives the bytes back, for either alphabet. */
  lemma RoundTrip(b: seq<byte>, url: bool)
    ensures Decode(Encode(b, url), url) == Some(b)
  {
    EncodeIsPlain(b, url);
    StripWhitespaceNone(Encode(b, url));
    StripPaddingOfEncode(b, url);
    SextetsOfChars(ToSextets(b), url);
    SextetsRoundTrip(b);
  }

  /** `btoa`: fails (throws InvalidCharacterError) on any character above U+00FF. */
  function Btoa(s: string): (r: Option<string>)
    ensures r.None? <==> exists i :: 0 <= i < |s| && s[i] as int >= 256
  {
    if IsBinaryString(s) then Some(Encode(BinaryToBytes(s), false)) else None
  }

  /** `atob`: the forgiving decoder, its bytes returned as a binary string, one character per byte. */
  function Atob(s: string): (r: Option<string>)
    ensures r.Some? <==> Decode(s, false).Some?
    ensures r.Some? ==> IsBinaryString(r.value) && BinaryToBytes(r.value) == Decode(s, false).value
  {
    match Decode(s, false)
    case None => None
    case Some(b) =>
      BytesRoundTrip(b);
      Some(BytesToBinary(b))
  }

  /** `atob(btoa(s)) === s` whenever `btoa(s)` does not throw. */
  lemma BtoaAtob(s: string)
    requires IsBinaryString(s)
    ensures Btoa(s).Some? && Atob(Btoa(s).value) == Some(s)
  {
    RoundTrip(BinaryToBytes(s), false);
    BinaryRoundTrip(s);
  }
}
