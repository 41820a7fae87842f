/**
 * Share links of the second app (blogcanhan2/App.tsx): `handleShare` puts a post into the query
 * parameter `post` as `btoa(JSON.stringify(post))`, and on load the parameter is read with
 * `URLSearchParams` and opened with `JSON.parse(atob(...))`. The module models that pair as
 * written, proves the two ways it fails, and gives a corrected pair that round-trips every post.
 */
module Share {
  import opened Wrappers
  import opened Types
  import opened Bytes
  import Json
  import Base64
  import Utf8
  import C = Constants2

  // ----- reading the parameter -----

  /**
   * What `URLSearchParams.get` returns for a parameter written without escaping: every `+` is read
   * as a space. (Percent signs are decoded too, but no base 64 alphabet contains one.)
   */
  function QueryValue(raw: string): (r: string)
    ensures |r| == |raw|
    ensures forall i :: 0 <= i < |raw| ==> r[i] == if raw[i] == '+' then ' ' else raw[i]
  {
    if raw == [] then [] else [if raw[0] == '+' then ' ' else raw[0]] + QueryValue(raw[1..])
  }

  lemma QueryValueAppend(x: string, y: string)
    ensures QueryValue(x + y) == QueryValue(x) + QueryValue(y)
  {
    assert QueryValue(x + y) == QueryValue(x) + QueryValue(y);
  }

  /** A text without `+` arrives unchanged. */
  lemma QueryValueWithoutPlus(raw: string)
    requires '+' !in raw
    ensures QueryValue(raw) == raw
  {
  }

  /** The index of the first `c` in `s`, or `|s|` when there is none. */
  function IndexOf(s: string, c: char): (r: nat)
    ensures r <= |s| && (r < |s| ==> s[r] == c)
    ensures forall i :: 0 <= i < r ==> s[i] != c
  {
    if s == [] || s[0] == c then 0 else 1 + IndexOf(s[1..], c)
  }

  /**
   * The value of the first `&`-separated pair of `s` whose name is `name`: the name ends at the
   * first `=`, empty pairs are skipped, and name and value are read with `+` as a space.
   */
  function FindParam(s: string, name: string): Option<string>
    decreases |s|
  {
    var k := IndexOf(s, '&');
    var pair := s[..k];
    var j := IndexOf(pair, '=');
    if pair != [] && QueryValue(pair[..j]) == name then
      Some(QueryValue(if j < |pair| then pair[j + 1..] else []))
    else if k < |s| then FindParam(s[k + 1..], name)
    else None
  }

  /** `new URLSearchParams(search).get(name)`; a leading `?` is dropped first. */
  function GetParam(search: string, name: string): Option<string> {
    FindParam(if search != [] && search[0] == '?' then search[1..] else search, name)
  }

  /**
   * A query of one pair without `&`, whose first `=` is at `n`, gives the text after it as the
   * value of the name before it.
   */
  lemma SinglePair(s: string, n: nat, name: string)
    requires '&' !in s && n < |s| && s[n] == '=' && '=' !in s[..n]
    requires QueryValue(s[..n]) == name
    ensures FindParam(s, name) == Some(QueryValue(s[n + 1..]))
  {
    var k := IndexOf(s, '&');
    assert k == |s| && s[..k] == s;
    var j := IndexOf(s, '=');
    assert j <= n;
  }

  /** The query `name=v`, with neither `&` nor `=` in the name and no `&` in `v`, gives `v`. */
  lemma PairParam(name: string, v: string)
    requires '&' !in name && '=' !in name && '&' !in v
    ensures FindParam(name + ("=" + v), QueryValue(name)) == Some(QueryValue(v))
  {
    var s := name + ("=" + v);
    var n := |name|;
    assert s[..n] == name && s[n] == '=' && s[n + 1..] == v;
    assert '&' !in s by {
      forall i | 0 <= i < |s| ensures s[i] != '&' {
        if i > n {
          assert s[i] == v[i - n - 1];
        }
      }
    }
    SinglePair(s, n, QueryValue(name));
  }

  /** A search starting with `?` is read from its second character. */
  lemma GetParamOfQuery(search: string, rest: string, name: string)
    requires search == ['?'] + rest
    ensures GetParam(search, name) == FindParam(rest, name)
  {
    assert search[1..] == rest;
  }

  lemma PostSearch(v: string)
    ensures "?post=" + v == ['?'] + ("post" + ("=" + v))
    ensures QueryValue("post") == "post"
    ensures '&' !in "post" && '=' !in "post"
  {
    assert "?post=" == ['?'] + "post" + "=";
  }

  /** The query `?post=` followed by a text without `&` gives that text back, read with `+` as a space. */
  lemma PostParam(v: string)
    requires '&' !in v
    ensures GetParam("?post=" + v, "post") == Some(QueryValue(v))
  {
    PostSearch(v);
    GetParamOfQuery("?post=" + v, "post" + ("=" + v), "post");
    PairParam("post", v);
  }

  // ----- the pair as written -----

  /**
   * `btoa(JSON.stringify(post))`; None where `btoa` throws. A payload is padded base 64 without
   * `&`, so it stays one query value, and `atob` gives back the post's JSON text.
   */
  function ShareAsWritten(p: Post<string>): (r: Option<string>)
    ensures r.Some? ==> |r.value| % 4 == 0 && '&' !in r.value
    ensures r.Some? ==> Base64.Atob(r.value) == Some(Json.EncodePost(p))
  {
    var r := Base64.Btoa(Json.EncodePost(p));
    if r.Some? then
      StandardHasNoAmpersand(BinaryToBytes(Json.EncodePost(p)));
      Base64.BtoaAtob(Json.EncodePost(p));
      r
    else r
  }

  /**
   * `JSON.parse(atob(value))`; None where either throws. A value opens only when `atob` accepts
   * it, and what `atob` gives is then at least as long as the opened post's own JSON text.
   */
  function OpenAsWritten(value: string): (r: Option<Post<string>>)
    ensures r.Some? ==> Base64.Atob(value).Some? && |Base64.Atob(value).value| >= |Json.EncodePost(r.value)|
  {
    match Base64.Atob(value)
    case None => None
    case Some(text) =>
      var r := Json.DecodePost(text);
      if r.Some? then
        Json.DecodePostShortest(text, r.value);
        r
      else r
  }

  /** Every field of the post is a Latin-1 string. */
  predicate IsLatin1Post(p: Post<string>) {
    IsBinaryString(p.id) && IsBinaryString(p.title) && IsBinaryString(p.content) &&
    IsBinaryString(p.excerpt) && IsBinaryString(p.category) && IsBinaryString(p.author) &&
    IsBinaryString(p.date) && IsBinaryString(p.imageUrl) && IsBinaryString(p.readTime)
  }

  lemma BinaryAppend(x: string, y: string)
    ensures IsBinaryString(x + y) <==> IsBinaryString(x) && IsBinaryString(y)
  {
    if IsBinaryString(x + y) {
      forall i | 0 <= i < |x| ensures x[i] as int < 256 {
        assert (x + y)[i] == x[i];
      }
      forall i | 0 <= i < |y| ensures y[i] as int < 256 {
        assert (x + y)[|x| + i] == y[i];
      }
    }
    if IsBinaryString(x) && IsBinaryString(y) {
      forall i | 0 <= i < |x + y| ensures (x + y)[i] as int < 256 {
        if i < |x| {
          assert (x + y)[i] == x[i];
        } else {
          assert (x + y)[i] == y[i - |x|];
        }
      }
    }
  }

  lemma EscapeCharBinary(c: char)
    ensures IsBinaryString(Json.EscapeChar(c)) <==> c as int < 256
  {
    var e := Json.EscapeChar(c);
    if c as int >= 256 {
      assert e == [c];
      assert !(e[0] as int < 256);
    } else if c as int < 0x20 && c as int !in {8, 9, 10, 12, 13} {
      assert e[4] as int < 0x80 && e[5] as int < 0x80;
    }
  }

  /** Escaping keeps every character at or below U+00FF within range, and every other one out. */
  lemma {:induction false} EscapeBinary(s: string)
    ensures IsBinaryString(Json.Escape(s)) <==> IsBinaryString(s)
    decreases |s|
  {
    if s != [] {
      BinaryAppend(Json.EscapeChar(s[0]), Json.Escape(s[1..]));
      EscapeCharBinary(s[0]);
      EscapeBinary(s[1..]);
      BinaryAppend([s[0]], s[1..]);
      assert [s[0]] + s[1..] == s;
    }
  }

  lemma QuoteBinary(s: string)
    ensures IsBinaryString(Json.Quote(s)) <==> IsBinaryString(s)
  {
    EscapeBinary(s);
    BinaryAppend(['"'], Json.Escape(s));
    BinaryAppend(['"'] + Json.Escape(s), ['"']);
  }

  lemma MemberBinary(m: (string, string))
    ensures IsBinaryString(Json.EncodeMember(m)) <==> IsBinaryString(m.0) && IsBinaryString(m.1)
  {
    QuoteBinary(m.0);
    QuoteBinary(m.1);
    BinaryAppend(Json.Quote(m.0), [':']);
    BinaryAppend(Json.Quote(m.0) + [':'], Json.Quote(m.1));
  }

  lemma {:induction false} MembersTailBinary(ms: seq<(string, string)>)
    requires ms != []
    ensures IsBinaryString(Json.EncodeMembersTail(ms)) <==> MembersBinary(ms)
    decreases |ms|
  {
    MemberBinary(ms[0]);
    if |ms| == 1 {
      BinaryAppend(Json.EncodeMember(ms[0]), ['}']);
    } else {
      MembersTailBinary(ms[1..]);
      BinaryAppend([','], Json.EncodeMembersTail(ms[1..]));
      BinaryAppend(Json.EncodeMember(ms[0]), [','] + Json.EncodeMembersTail(ms[1..]));
      assert forall i :: 1 <= i < |ms| ==> ms[i] == ms[1..][i - 1];
    }
  }

  predicate MembersBinary(ms: seq<(string, string)>) {
    forall i :: 0 <= i < |ms| ==> IsBinaryString(ms[i].0) && IsBinaryString(ms[i].1)
  }

  lemma KeysBinary(p: Post<string>)
    ensures forall i :: 0 <= i < 9 ==> IsBinaryString(Json.PostMembers(p)[i].0)
  {
    var ms := Json.PostMembers(p);
    forall i | 0 <= i < 9 ensures IsBinaryString(ms[i].0) {
      forall k | 0 <= k < |ms[i].0| ensures ms[i].0[k] as int < 0x80 {
      }
    }
  }

  lemma MembersBinaryOfPost(p: Post<string>)
    ensures MembersBinary(Json.PostMembers(p)) <==> IsLatin1Post(p)
  {
    var ms := Json.PostMembers(p);
    KeysBinary(p);
    assert forall i :: 0 <= i < 9 ==> ms[i].1 in [p.id, p.title, p.excerpt, p.content, p.category,
                                                  p.author, p.date, p.imageUrl, p.readTime];
    assert ms[0].1 == p.id && ms[1].1 == p.title && ms[2].1 == p.excerpt;
    assert ms[3].1 == p.content && ms[4].1 == p.category && ms[5].1 == p.author;
    assert ms[6].1 == p.date && ms[7].1 == p.imageUrl && ms[8].1 == p.readTime;
  }

  /** The JSON of a post is a binary string exactly when every field is Latin-1. */
  lemma PostBinary(p: Post<string>)
    ensures IsBinaryString(Json.EncodePost(p)) <==> IsLatin1Post(p)
  {
    var ms := Json.PostMembers(p);
    MembersTailBinary(ms);
    BinaryAppend(['{'], Json.EncodeMembersTail(ms));
    MembersBinaryOfPost(p);
  }

  /** `handleShare` produces a link exactly for posts whose every field is Latin-1. */
  lemma ShareAsWrittenFails(p: Post<string>)
    ensures ShareAsWritten(p).Some? <==> IsLatin1Post(p)
  {
    PostBinary(p);
  }

  /** The seed post cannot be shared: its title holds 'ừ' (U+1EEB). */
  lemma SeedCannotBeShared(today: string)
    ensures ShareAsWritten(C.InitialPosts(today)[0]).None?
  {
    assert C.SeedTitle[6] as int == 0x1EEB;
    ShareAsWrittenFails(C.InitialPosts(today)[0]);
  }

  /** A link without `+` opens the post it was made from. */
  lemma OpenAsWrittenWithoutPlus(p: Post<string>)
    requires ShareAsWritten(p).Some? && '+' !in ShareAsWritten(p).value
    ensures GetParam("?post=" + ShareAsWritten(p).value, "post") == Some(ShareAsWritten(p).value)
    ensures OpenAsWritten(ShareAsWritten(p).value) == Some(p)
  {
    PostBinary(p);
    StandardHasNoAmpersand(BinaryToBytes(Json.EncodePost(p)));
    PostParam(ShareAsWritten(p).value);
    QueryValueWithoutPlus(ShareAsWritten(p).value);
    Base64.BtoaAtob(Json.EncodePost(p));
    Json.PostRoundTrip(p);
  }

  // ----- the `+` that comes back as a space -----

  /** The number of bytes `FromSextets` yields for `m` sextets. */
  function DecodedLength(m: nat): nat {
    3 * (m / 4) + (if m % 4 == 0 then 0 else m % 4 - 1)
  }

  lemma DecodedLengthGrows(m: nat, n: nat)
    requires m < n && m % 4 != 1 && n % 4 != 1
    ensures DecodedLength(m) < DecodedLength(n)
  {
  }

  lemma {:induction false} StripWhitespaceAppend(x: string, y: string)
    ensures Base64.StripWhitespace(x + y) == Base64.StripWhitespace(x) + Base64.StripWhitespace(y)
    decreases |x|
  {
    if x == [] {
      assert x + y == y;
    } else {
      assert (x + y)[0] == x[0] && (x + y)[1..] == x[1..] + y;
      StripWhitespaceAppend(x[1..], y);
    }
  }

  lemma {:induction false} StripWhitespaceShortens(x: string, i: nat)
    requires i < |x| && Base64.IsAsciiWhitespace(x[i])
    ensures |Base64.StripWhitespace(x)| < |x|
    decreases |x|
  {
    if i > 0 {
      StripWhitespaceShortens(x[1..], i - 1);
    }
  }

  /** A text with a `=` is not a string of sextets. */
  lemma SextetsRejectPad(t: string, j: nat)
    requires j < |t| && t[j] == '='
    ensures Base64.Sextets(t, false).None?
  {
  }

  /** No standard base 64 text holds a `&`, so it is read back as one query value. */
  lemma StandardHasNoAmpersand(b: seq<byte>)
    ensures '&' !in Base64.Encode(b, false)
  {
    var v := Base64.ToSextets(b);
    var c := Base64.Chars(v, false);
    forall k | 0 <= k < |c| ensures c[k] != '&' {
      assert c[k] == Base64.SextetChar(v[k], false);
    }
    assert '&' !in Base64.Padding(|b|);
  }

  /** A `+` of an encoding stands in the alphabet part, before the padding. */
  lemma PlusBeforePadding(b: seq<byte>, j: nat)
    requires j < |Base64.Encode(b, false)| && Base64.Encode(b, false)[j] == '+'
    ensures j < |Base64.Chars(Base64.ToSextets(b), false)|
  {
  }

  /**
   * After the query turns a `+` into a space and the decoder drops it, fewer alphabet characters
   * than were encoded remain in front of the unchanged padding.
   */
  lemma ReceivedText(b: seq<byte>, j: nat)
    requires j < |Base64.Chars(Base64.ToSextets(b), false)|
    requires Base64.Chars(Base64.ToSextets(b), false)[j] == '+'
    ensures var c := Base64.Chars(Base64.ToSextets(b), false);
            var c' := Base64.StripWhitespace(QueryValue(c));
            Base64.StripWhitespace(QueryValue(Base64.Encode(b, false))) == c' + Base64.Padding(|b|) &&
            |c'| < |c| && '=' !in c'
  {
    var v := Base64.ToSextets(b);
    var c := Base64.Chars(v, false);
    var pad := Base64.Padding(|b|);
    forall k | 0 <= k < |c| ensures c[k] != '=' {
      Base64.SextetCharIsPlain(v[k], false);
    }
    QueryValueAppend(c, pad);
    assert QueryValue(pad) == pad;
    var qc := QueryValue(c);
    assert '=' !in qc;
    StripWhitespaceAppend(qc, pad);
    Base64.StripWhitespaceNone(pad);
    StripWhitespaceShortens(qc, j);
  }

  /** Stripping the padding from alphabet characters plus padding leaves them, or a text that fails. */
  lemma StripPaddingLeavesAlphabet(c': string, n: nat)
    requires '=' !in c'
    ensures var t := Base64.StripPadding(c' + Base64.Padding(n));
            t == c' || |t| % 4 == 1 || Base64.Sextets(t, false).None?
  {
    var pad := Base64.Padding(n);
    var w := c' + pad;
    var t := Base64.StripPadding(w);
    var m := |c'|;
    if m > 0 {
      assert w[m - 1] == c'[m - 1] != '=';
    }
    if n % 3 == 1 {
      assert pad == "==";
      if t != c' {
        assert t == w;
        SextetsRejectPad(t, m);
      }
    } else if n % 3 == 2 {
      assert pad == "=";
      if t != c' {
        assert t == w;
        SextetsRejectPad(t, m);
      }
    } else {
      assert w == c';
    }
  }

  /**
   * When a standard base 64 text holds a `+`, reading it back from the query gives fewer bytes
   * than were encoded, or none at all.
   */
  lemma PlusLosesBytes(s: string, j: nat)
    requires IsBinaryString(s)
    requires j < |Base64.Btoa(s).value| && Base64.Btoa(s).value[j] == '+'
    ensures var r := Base64.Atob(QueryValue(Base64.Btoa(s).value)); r.None? || |r.value| < |s|
  {
    var b := BinaryToBytes(s);
    var v := Base64.ToSextets(b);
    var c := Base64.Chars(v, false);
    PlusBeforePadding(b, j);
    ReceivedText(b, j);
    var c' := Base64.StripWhitespace(QueryValue(c));
    StripPaddingLeavesAlphabet(c', |b|);
    Base64.SextetsRoundTrip(b);
    var d := Base64.Decode(QueryValue(Base64.Btoa(s).value), false);
    if d.Some? {
      var x := Base64.Sextets(c', false).value;
      assert d.value == Base64.FromSextets(x);
      DecodedLengthGrows(|c'|, |v|);
    }
  }

  /** A link whose text holds a `+` never opens the post it was made from. */
  lemma PlusBreaksLink(p: Post<string>, j: nat)
    requires ShareAsWritten(p).Some?
    requires j < |ShareAsWritten(p).value| && ShareAsWritten(p).value[j] == '+'
    ensures GetParam("?post=" + ShareAsWritten(p).value, "post") == Some(QueryValue(ShareAsWritten(p).value))
    ensures OpenAsWritten(QueryValue(ShareAsWritten(p).value)) != Some(p)
  {
    var s := Json.EncodePost(p);
    PostBinary(p);
    StandardHasNoAmpersand(BinaryToBytes(s));
    PostParam(ShareAsWritten(p).value);
    PlusLosesBytes(s, j);
    var r := Base64.Atob(QueryValue(ShareAsWritten(p).value));
    if r.Some? && Json.DecodePost(r.value) == Some(p) {
      Json.DecodePostShortest(r.value, p);
    }
  }

  lemma {:induction false} EscapePlain(s: string)
    requires forall i :: 0 <= i < |s| ==> s[i] as int >= 0x20 && s[i] != '"' && s[i] != '\\'
    ensures Json.Escape(s) == s
    decreases |s|
  {
    if s != [] {
      EscapePlain(s[1..]);
      assert [s[0]] + s[1..] == s;
    }
  }

  /** Sextets `4k` to `4k + 3` come from bytes `3k` to `3k + 2`. */
  lemma {:induction false} SextetsOfGroup(b: seq<byte>, k: nat)
    requires 3 * k + 3 <= |b|
    ensures |Base64.ToSextets(b)| >= 4 * k + 4
    ensures Base64.ToSextets(b)[4 * k..4 * k + 4] == Base64.Group(b[3 * k..3 * k + 3])
    decreases k
  {
    if k == 0 {
      if |b| > 3 {
        Base64.ToSextetsStep(b);
      }
    } else {
      var g, t := Base64.Group(b[..3]), Base64.ToSextets(b[3..]);
      SextetsOfGroup(b[3..], k - 1);
      Base64.ToSextetsStep(b);
      SliceAfter(g, t, 4 * k, 4 * k + 4);
      assert b[3..][3 * (k - 1)..3 * (k - 1) + 3] == b[3 * k..3 * k + 3];
    }
  }

  /** A slice of `g + t` that lies past `g` is a slice of `t`. */
  lemma SliceAfter<T>(g: seq<T>, t: seq<T>, i: nat, j: nat)
    requires |g| <= i <= j <= |g| + |t|
    ensures (g + t)[i..j] == t[i - |g|..j - |g|]
  {
  }

  /** A post with the title '>>>' and every other field empty. */
  function PlusExample(): Post<string> {
    Post("", ">>>", "", "", "", "", "", "", "")
  }

  /** A member whose name and value need no escape: the value sits after the name and `":"`. */
  lemma PlainMember(k: string, v: string)
    requires forall i :: 0 <= i < |k| ==> k[i] as int >= 0x20 && k[i] != '"' && k[i] != '\\'
    requires forall i :: 0 <= i < |v| ==> v[i] as int >= 0x20 && v[i] != '"' && v[i] != '\\'
    ensures |Json.EncodeMember((k, v))| == |k| + |v| + 5
    ensures Json.EncodeMember((k, v))[|k| + 4..|k| + 4 + |v|] == v
  {
    EscapePlain(k);
    EscapePlain(v);
    var m := Json.EncodeMember((k, v));
    assert m == ['"'] + k + ['"'] + [':'] + ['"'] + v + ['"'];
  }

  /** The members text opens with the first two members. */
  lemma MembersTailHead(ms: seq<(string, string)>)
    requires |ms| >= 3
    ensures Json.EncodeMembersTail(ms) ==
              Json.EncodeMember(ms[0]) + ([','] + (Json.EncodeMember(ms[1]) + ([','] + Json.EncodeMembersTail(ms[2..]))))
  {
    assert Json.EncodeMembersTail(ms) == Json.EncodeMember(ms[0]) + ([','] + Json.EncodeMembersTail(ms[1..]));
    assert ms[1..][0] == ms[1] && ms[1..][1..] == ms[2..];
    assert Json.EncodeMembersTail(ms[1..]) == Json.EncodeMember(ms[1]) + ([','] + Json.EncodeMembersTail(ms[2..]));
  }

  /** The JSON of a post opens with its id, then its title. */
  lemma PostJsonHead(p: Post<string>)
    ensures Json.EncodePost(p) == ['{'] + (Json.EncodeMember(("id", p.id)) + ([','] +
              (Json.EncodeMember(("title", p.title)) + ([','] + Json.EncodeMembersTail(Json.PostMembers(p)[2..])))))
  {
    var ms := Json.PostMembers(p);
    MembersTailHead(ms);
    assert Json.EncodePost(p) == ['{'] + Json.EncodeMembersTail(ms);
  }

  lemma PlusExampleLatin1()
    ensures IsLatin1Post(PlusExample())
  {
    assert IsBinaryString(">>>");
  }

  lemma OffsetEighteen(s: string, m0: string, m1: string, z: string)
    requires s == ['{'] + (m0 + ([','] + (m1 + z)))
    requires |m0| == 7 && |m1| == 13 && m1[9..12] == ">>>"
    ensures |s| >= 21 && s[18..21] == ">>>"
  {
    assert s[18..21] == m1[9..12];
  }

  /** The JSON of a Latin-1 post with an empty id and the title '>>>' holds it at offsets 18 to 20. */
  lemma TitleAtEighteen(p: Post<string>)
    requires p.id == "" && p.title == ">>>" && IsLatin1Post(p)
    ensures var s := Json.EncodePost(p);
            IsBinaryString(s) && |s| >= 21 && s[18..21] == ">>>"
  {
    PlainMember("id", "");
    PlainMember("title", ">>>");
    PostJsonHead(p);
    OffsetEighteen(Json.EncodePost(p), Json.EncodeMember(("id", "")), Json.EncodeMember(("title", ">>>")),
                   [','] + Json.EncodeMembersTail(Json.PostMembers(p)[2..]));
    PostBinary(p);
  }

  /** The bytes `>>>`, 0x3E three times, are the sextets 15, 35, 56, 62: 'Pj4+'. */
  lemma GroupOfArrows()
    ensures Base64.Group([62, 62, 62]) == [15, 35, 56, 62]
  {
  }

  /** Three characters '>' at a multiple of three become a group ending in `+`. */
  lemma PlusFromGroup(s: string, k: nat)
    requires IsBinaryString(s) && 3 * k + 3 <= |s| && s[3 * k..3 * k + 3] == ">>>"
    ensures Base64.Btoa(s).Some?
    ensures |Base64.Btoa(s).value| > 4 * k + 3 && Base64.Btoa(s).value[4 * k + 3] == '+'
  {
    var b := BinaryToBytes(s);
    var v := Base64.ToSextets(b);
    var c := Base64.Chars(v, false);
    var e := c + Base64.Padding(|b|);
    assert Base64.Btoa(s) == Some(e);
    var g := s[3 * k..3 * k + 3];
    assert s[3 * k] == g[0] == '>' && s[3 * k + 1] == g[1] == '>' && s[3 * k + 2] == g[2] == '>';
    assert b[3 * k..3 * k + 3] == [62, 62, 62];
    SextetsOfGroup(b, k);
    GroupOfArrows();
    assert v[4 * k + 3] == v[4 * k..4 * k + 4][3] == 62;
    assert e[4 * k + 3] == c[4 * k + 3] == Base64.SextetChar(62, false);
  }

  /** A Latin-1 post with an empty id and the title `>>>` has a link with `+` at offset 27. */
  lemma ArrowTitleHasPlus(p: Post<string>)
    requires p.id == "" && p.title == ">>>" && IsLatin1Post(p)
    ensures ShareAsWritten(p).Some?
    ensures |ShareAsWritten(p).value| > 27 && ShareAsWritten(p).value[27] == '+'
  {
    TitleAtEighteen(p);
    var s := Json.EncodePost(p);
    assert s[3 * 6..3 * 6 + 3] == ">>>";
    PlusFromGroup(s, 6);
  }

  /** Its link holds a `+`: the title's three bytes 0x3E are the base 64 group 'Pj4+'. */
  lemma PlusExampleHasPlus()
    ensures ShareAsWritten(PlusExample()).Some?
    ensures |ShareAsWritten(PlusExample()).value| > 27 && ShareAsWritten(PlusExample()).value[27] == '+'
  {
    PlusExampleLatin1();
    ArrowTitleHasPlus(PlusExample());
  }

  /** So the example post, which can be shared, does not come back from its own link. */
  lemma PlusExampleBreaks()
    ensures ShareAsWritten(PlusExample()).Some?
    ensures GetParam("?post=" + ShareAsWritten(PlusExample()).value, "post") ==
              Some(QueryValue(ShareAsWritten(PlusExample()).value))
    ensures OpenAsWritten(QueryValue(ShareAsWritten(PlusExample()).value)) != Some(PlusExample())
  {
    PlusExampleHasPlus();
    PlusBreaksLink(PlusExample(), 27);
  }

  // ----- the corrected pair -----

  /** The post's JSON as UTF-8, in the URL-safe base 64 alphabet of section 5 of RFC 4648. */
  function SharePayload(p: Post<string>): string {
    Base64.Encode(Utf8.Encode(Json.EncodePost(p)), true)
  }

  function OpenPayload(value: string): Option<Post<string>> {
    match Base64.Decode(value, true)
    case None => None
    case Some(b) =>
      match Utf8.Decode(b)
      case None => None
      case Some(text) => Json.DecodePost(text)
  }

  /** An empty payload is no post, as written. */
  lemma OpenAsWrittenOfEmpty()
    ensures OpenAsWritten("").None?
  {
    assert Base64.StripWhitespace("") == "";
    assert Base64.Decode("", false) == Some([]);
    assert Base64.Atob("") == Some("");
    assert Json.ParseObject("").None?;
  }

  /** An empty payload is no post. */
  lemma OpenPayloadOfEmpty()
    ensures OpenPayload("").None?
  {
    assert Base64.StripWhitespace("") == "";
    assert Base64.Decode("", true) == Some([]);
    assert Utf8.Decode([]) == Some([]);
  }

  /** The search part of the link `handleShare` copies. */
  function ShareSearch(p: Post<string>): string {
    "?post=" + SharePayload(p)
  }

  /** The payload is made of the URL-safe alphabet and `=` only. */
  lemma SharePayloadIsPlain(p: Post<string>)
    ensures '+' !in SharePayload(p) && '&' !in SharePayload(p)
  {
    var b := Utf8.Encode(Json.EncodePost(p));
    var v := Base64.ToSextets(b);
    var c := Base64.Chars(v, true);
    forall k | 0 <= k < |c| ensures c[k] != '+' && c[k] != '&' {
      assert c[k] == Base64.SextetChar(v[k], true);
    }
    assert '+' !in Base64.Padding(|b|) && '&' !in Base64.Padding(|b|);
  }

  /** Every post, whatever its characters, comes back from its link. */
  lemma ShareRoundTrip(p: Post<string>)
    ensures GetParam(ShareSearch(p), "post") == Some(SharePayload(p))
    ensures OpenPayload(SharePayload(p)) == Some(p)
  {
    SharePayloadIsPlain(p);
    PostParam(SharePayload(p));
    QueryValueWithoutPlus(SharePayload(p));
    Base64.RoundTrip(Utf8.Encode(Json.EncodePost(p)), true);
    Utf8.RoundTrip(Json.EncodePost(p));
    Json.PostRoundTrip(p);
  }
}
