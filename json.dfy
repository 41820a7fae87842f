/**
 * `JSON.stringify` and `JSON.parse` for the values the apps store: posts (flat objects whose
 * members are all strings), arrays of posts and booleans. Strings are escaped the way
 * `JSON.stringify` escapes them; objects are written in one fixed key order, without whitespace.
 */
module Json {
  import opened Wrappers
  import opened Types

  // ----- strings -----

  function HexDigit(d: nat): (r: char)
    requires d < 16
    ensures r as int < 0x80
  {
    if d < 10 then ('0' as int + d) as char else ('a' as int + d - 10) as char
  }

  function HexValue(c: char): (r: Option<nat>)
    ensures r.Some? ==> r.value < 16
  {
    if '0' <= c <= '9' then Some(c as int - '0' as int)
    else if 'a' <= c <= 'f' then Some(c as int - 'a' as int + 10)
    else if 'A' <= c <= 'F' then Some(c as int - 'A' as int + 10)
    else None
  }

  lemma HexValueOfDigit(d: nat)
    requires d < 16
    ensures HexValue(HexDigit(d)) == Some(d)
  {
  }

  /** How `JSON.stringify` writes one character inside a string literal. */
  function EscapeChar(c: char): (r: string)
    ensures 1 <= |r| <= 6
    ensures |r| == 1 <==> (c as int >= 0x20 && c != '"' && c != '\\')
  {
    var n := c as int;
    if c == '"' then ['\\', '"']
    else if c == '\\' then ['\\', '\\']
    else if n == 8 then ['\\', 'b']
    else if n == 9 then ['\\', 't']
    else if n == 10 then ['\\', 'n']
    else if n == 12 then ['\\', 'f']
    else if n == 13 then ['\\', 'r']
    else if n < 0x20 then ['\\', 'u', '0', '0', HexDigit(n / 16), HexDigit(n % 16)]
    else [c]
  }

  function Escape(s: string): string {
    if s == [] then [] else EscapeChar(s[0]) + Escape(s[1..])
  }

  /** A JSON string literal. */
  function Quote(s: string): string {
    ['"'] + Escape(s) + ['"']
  }

  /** The character an escape sequence (what follows the backslash) stands for, and the rest. */
  function ParseEscape(s: string): (r: Option<(char, string)>)
    ensures r.Some? ==> |r.value.1| < |s|
  {
    if s == [] then None
    else if s[0] == '"' || s[0] == '\\' || s[0] == '/' then Some((s[0], s[1..]))
    else if s[0] == 'b' then Some((8 as char, s[1..]))
    else if s[0] == 't' then Some((9 as char, s[1..]))
    else if s[0] == 'n' then Some((10 as char, s[1..]))
    else if s[0] == 'f' then Some((12 as char, s[1..]))
    else if s[0] == 'r' then Some((13 as char, s[1..]))
    else if s[0] == 'u' && |s| >= 5 then
      match (HexValue(s[1]), HexValue(s[2]), HexValue(s[3]), HexValue(s[4]))
      case (Some(a), Some(b), Some(c), Some(d)) =>
        var n := 4096 * a + 256 * b + 16 * c + d;
        if 0xD800 <= n < 0xE000 then None else Some((n as char, s[5..]))
      case _ => None
    else None
  }

  /** The contents of a string literal whose opening quote has been read, and what follows it. */
  function ParseStringTail(s: string): (r: Option<(string, string)>)
    ensures r.Some? ==> |r.value.1| < |s|
    decreases |s|
  {
    if s == [] then None
    else if s[0] == '"' then Some(([], s[1..]))
    else if s[0] == '\\' then
      match ParseEscape(s[1..])
      case None => None
      case Some((c, t)) =>
        match ParseStringTail(t)
        case None => None
        case Some((v, u)) => Some(([c] + v, u))
    else if (s[0] as int) < 0x20 then None
    else
      match ParseStringTail(s[1..])
      case None => None
      case Some((v, u)) => Some(([s[0]] + v, u))
  }

  function ParseString(s: string): (r: Option<(string, string)>)
    ensures r.Some? ==> |r.value.1| < |s|
  {
    if s != [] && s[0] == '"' then ParseStringTail(s[1..]) else None
  }

  /** Parsing an escaped character in front of some text reads that character first. */
  lemma EscapeCharParses(c: char, t: string)
    ensures ParseStringTail(EscapeChar(c) + t) ==
              match ParseStringTail(t)
              case None => None
              case Some((v, u)) => Some(([c] + v, u))
  {
    var n := c as int;
    var e := EscapeChar(c) + t;
    if c == '"' || c == '\\' || n == 8 || n == 9 || n == 10 || n == 12 || n == 13 {
      assert e[1..][1..] == t;
    } else if n < 0x20 {
      HexValueOfDigit(n / 16);
      HexValueOfDigit(n % 16);
      HexValueOfDigit(0);
      assert e[1..][5..] == t;
      assert ParseEscape(e[1..]) == Some((c, t));
    } else {
      assert e[1..] == t;
    }
  }

  /** The string literal of `s` parses back to `s`, leaving what follows it. */
  lemma {:induction false} EscapeParses(s: string, rest: string)
    ensures ParseStringTail(Escape(s) + ['"'] + rest) == Some((s, rest))
    decreases |s|
  {
    if s == [] {
      assert (Escape(s) + ['"'] + rest)[1..] == rest;
    } else {
      assert Escape(s) + ['"'] + rest == EscapeChar(s[0]) + (Escape(s[1..]) + ['"'] + rest);
      EscapeCharParses(s[0], Escape(s[1..]) + ['"'] + rest);
      EscapeParses(s[1..], rest);
      assert [s[0]] + s[1..] == s;
    }
  }

  lemma QuoteParses(s: string, rest: string)
    ensures ParseString(Quote(s) + rest) == Some((s, rest))
  {
    assert (Quote(s) + rest)[1..] == Escape(s) + ['"'] + rest;
    EscapeParses(s, rest);
  }

  /** An escape sequence is never shorter than the one `JSON.stringify` writes for its character. */
  lemma EscapeCost(e: string)
    requires ParseEscape(e).Some?
    ensures |e| - |ParseEscape(e).value.1| + 1 >= |EscapeChar(ParseEscape(e).value.0)|
  {
  }

  /** A string literal is at least as long as the one `JSON.stringify` writes for its contents. */
  lemma {:induction false} StringTailShortest(s: string)
    requires ParseStringTail(s).Some?
    ensures |s| - |ParseStringTail(s).value.1| >= |Escape(ParseStringTail(s).value.0)| + 1
    decreases |s|
  {
    var (v, u) := ParseStringTail(s).value;
    if s[0] == '\\' {
      var (c, t) := ParseEscape(s[1..]).value;
      EscapeCost(s[1..]);
      StringTailShortest(t);
      var (w, _) := ParseStringTail(t).value;
      assert v == [c] + w && v[1..] == w;
    } else if s[0] != '"' {
      StringTailShortest(s[1..]);
      var (w, _) := ParseStringTail(s[1..]).value;
      assert v == [s[0]] + w && v[1..] == w;
    }
  }

  lemma StringShortest(s: string)
    requires ParseString(s).Some?
    ensures |s| - |ParseString(s).value.1| >= |Quote(ParseString(s).value.0)|
  {
    StringTailShortest(s[1..]);
  }

  // ----- flat objects whose members are strings -----

  function EncodeMember(m: (string, string)): string {
    Quote(m.0) + [':'] + Quote(m.1)
  }

  /** The members after the opening brace, then the closing brace. */
  function EncodeMembersTail(ms: seq<(string, string)>): string
    requires ms != []
  {
    EncodeMember(ms[0]) + if |ms| == 1 then ['}'] else [','] + EncodeMembersTail(ms[1..])
  }

  function EncodeObject(ms: seq<(string, string)>): string {
    if ms == [] then "{}" else ['{'] + EncodeMembersTail(ms)
  }

  function ParseMember(s: string): (r: Option<((string, string), string)>)
    ensures r.Some? ==> |r.value.1| < |s|
  {
    match ParseString(s)
    case None => None
    case Some((k, t)) =>
      if t != [] && t[0] == ':' then
        match ParseString(t[1..])
        case None => None
        case Some((v, u)) => Some(((k, v), u))
      else None
  }

  /** One or more members separated by commas, up to and including the closing brace. */
  function ParseMembersTail(s: string): (r: Option<(seq<(string, string)>, string)>)
    ensures r.Some? ==> |r.value.1| < |s|
    decreases |s|
  {
    match ParseMember(s)
    case None => None
    case Some((m, t)) =>
      if t != [] && t[0] == '}' then Some(([m], t[1..]))
      else if t != [] && t[0] == ',' then
        match ParseMembersTail(t[1..])
        case None => None
        case Some((ms, u)) => Some(([m] + ms, u))
      else None
  }

  function ParseObject(s: string): (r: Option<(seq<(string, string)>, string)>)
    ensures r.Some? ==> |r.value.1| < |s|
  {
    if s == [] || s[0] != '{' then None
    else if |s| >= 2 && s[1] == '}' then Some(([], s[2..]))
    else ParseMembersTail(s[1..])
  }

  lemma MemberParses(m: (string, string), rest: string)
    ensures ParseMember(EncodeMember(m) + rest) == Some((m, rest))
  {
    assert EncodeMember(m) + rest == Quote(m.0) + ([':'] + Quote(m.1) + rest);
    QuoteParses(m.0, [':'] + Quote(m.1) + rest);
    assert ([':'] + Quote(m.1) + rest)[1..] == Quote(m.1) + rest;
    QuoteParses(m.1, rest);
  }

  /** The last member: it is followed by the closing brace. */
  lemma MembersTailLast(s: string, m: (string, string), t: string)
    requires ParseMember(s) == Some((m, t)) && t != [] && t[0] == '}'
    ensures ParseMembersTail(s) == Some(([m], t[1..]))
  {
  }

  /** A member followed by a comma and the members after it. */
  lemma MembersTailStep(s: string, m: (string, string), t: string, ms: seq<(string, string)>, u: string)
    requires ParseMember(s) == Some((m, t)) && t != [] && t[0] == ','
    requires ParseMembersTail(t[1..]) == Some((ms, u))
    ensures ParseMembersTail(s) == Some(([m] + ms, u))
  {
  }

  /** A single member, then the closing brace. */
  lemma MembersTailUnfoldLast(ms: seq<(string, string)>)
    requires |ms| == 1
    ensures EncodeMembersTail(ms) == EncodeMember(ms[0]) + ['}']
  {
  }

  /** Several members: the first, a comma, then the others. */
  lemma MembersTailUnfold(ms: seq<(string, string)>)
    requires |ms| > 1
    ensures EncodeMembersTail(ms) == EncodeMember(ms[0]) + ([','] + EncodeMembersTail(ms[1..]))
  {
  }

  lemma Regroup(e: string, t: string, rest: string)
    ensures (e + ([','] + t)) + rest == e + ([','] + (t + rest))
  {
  }

  lemma RegroupLast(e: string, c: char, rest: string)
    ensures (e + [c]) + rest == e + ([c] + rest)
  {
  }

  lemma {:induction false} MembersTailParsesOne(ms: seq<(string, string)>, rest: string)
    requires |ms| == 1
    ensures ParseMembersTail(EncodeMembersTail(ms) + rest) == Some((ms, rest))
  {
    var s := EncodeMembersTail(ms) + rest;
    MembersTailUnfoldLast(ms);
    RegroupLast(EncodeMember(ms[0]), '}', rest);
    MemberParses(ms[0], ['}'] + rest);
    assert (['}'] + rest)[1..] == rest;
    MembersTailLast(s, ms[0], ['}'] + rest);
    assert [ms[0]] == ms;
  }

  /** The first member of a longer list parses, leaving the comma and the rest. */
  lemma {:induction false} MembersHeadParses(ms: seq<(string, string)>, rest: string)
    requires |ms| > 1
    ensures ParseMember(EncodeMembersTail(ms) + rest) == Some((ms[0], [','] + (EncodeMembersTail(ms[1..]) + rest)))
  {
    MembersTailUnfold(ms);
    Regroup(EncodeMember(ms[0]), EncodeMembersTail(ms[1..]), rest);
    MemberParses(ms[0], [','] + (EncodeMembersTail(ms[1..]) + rest));
  }

  /** A text whose first member is followed by a comma and the text of the others. */
  lemma MembersTailCons(s: string, ms: seq<(string, string)>, more: string, rest: string)
    requires |ms| > 1
    requires ParseMember(s) == Some((ms[0], [','] + more))
    requires ParseMembersTail(more) == Some((ms[1..], rest))
    ensures ParseMembersTail(s) == Some((ms, rest))
  {
    assert ([','] + more)[1..] == more;
    MembersTailStep(s, ms[0], [','] + more, ms[1..], rest);
    assert [ms[0]] + ms[1..] == ms;
  }

  lemma {:induction false} MembersTailParsesMore(ms: seq<(string, string)>, rest: string)
    requires |ms| > 1
    requires ParseMembersTail(EncodeMembersTail(ms[1..]) + rest) == Some((ms[1..], rest))
    ensures ParseMembersTail(EncodeMembersTail(ms) + rest) == Some((ms, rest))
  {
    MembersHeadParses(ms, rest);
    MembersTailCons(EncodeMembersTail(ms) + rest, ms, EncodeMembersTail(ms[1..]) + rest, rest);
  }

  lemma {:induction false} MembersTailParses(ms: seq<(string, string)>, rest: string)
    requires ms != []
    ensures ParseMembersTail(EncodeMembersTail(ms) + rest) == Some((ms, rest))
    decreases |ms|
  {
    if |ms| == 1 {
      MembersTailParsesOne(ms, rest);
    } else {
      MembersTailParses(ms[1..], rest);
      MembersTailParsesMore(ms, rest);
    }
  }

  lemma ObjectParses(ms: seq<(string, string)>, rest: string)
    ensures ParseObject(EncodeObject(ms) + rest) == Some((ms, rest))
  {
    if ms == [] {
      assert (EncodeObject(ms) + rest)[2..] == rest;
    } else {
      var t := EncodeMembersTail(ms) + rest;
      assert EncodeObject(ms) + rest == ['{'] + t;
      assert (['{'] + t)[1..] == t;
      MembersTailParses(ms, rest);
      MembersTailStartsWithQuote(ms);
    }
  }

  lemma MembersTailStartsWithQuote(ms: seq<(string, string)>)
    requires ms != []
    ensures |EncodeMembersTail(ms)| > 0 && EncodeMembersTail(ms)[0] == '"'
  {
    var q := Quote(ms[0].0);
    assert q[0] == '"';
    assert EncodeMembersTail(ms)[0] == q[0];
  }

  lemma MemberShortest(s: string)
    requires ParseMember(s).Some?
    ensures |s| - |ParseMember(s).value.1| >= |EncodeMember(ParseMember(s).value.0)|
  {
    StringShortest(s);
    var (_, t) := ParseString(s).value;
    StringShortest(t[1..]);
  }

  lemma {:induction false} MembersTailShortest(s: string)
    requires ParseMembersTail(s).Some?
    ensures ParseMembersTail(s).value.0 != []
    ensures |s| - |ParseMembersTail(s).value.1| >= |EncodeMembersTail(ParseMembersTail(s).value.0)|
    decreases |s|
  {
    MemberShortest(s);
    var (m, t) := ParseMember(s).value;
    var (ms, u) := ParseMembersTail(s).value;
    if !(t != [] && t[0] == '}') {
      MembersTailShortest(t[1..]);
      var (ns, _) := ParseMembersTail(t[1..]).value;
      assert ms == [m] + ns && ms[1..] == ns;
    }
  }

  lemma ObjectShortest(s: string)
    requires ParseObject(s).Some?
    ensures |s| - |ParseObject(s).value.1| >= |EncodeObject(ParseObject(s).value.0)|
  {
    if !(|s| >= 2 && s[1] == '}') {
      MembersTailShortest(s[1..]);
    }
  }

  // ----- posts -----

  /** The members of a post, in the order both apps' post literals list them. */
  function PostMembers(p: Post<string>): seq<(string, string)> {
    [("id", p.id), ("title", p.title), ("excerpt", p.excerpt), ("content", p.content),
     ("category", p.category), ("author", p.author), ("date", p.date),
     ("imageUrl", p.imageUrl), ("readTime", p.readTime)]
  }

  /** The nine keys of a post, in that order. */
  function PostKeys(): seq<string> {
    ["id", "title", "excerpt", "content", "category", "author", "date", "imageUrl", "readTime"]
  }

  /** The field of a post a key names (no field for any other key). */
  function Field(p: Post<string>, k: string): string {
    if k == "id" then p.id
    else if k == "title" then p.title
    else if k == "excerpt" then p.excerpt
    else if k == "content" then p.content
    else if k == "category" then p.category
    else if k == "author" then p.author
    else if k == "date" then p.date
    else if k == "imageUrl" then p.imageUrl
    else if k == "readTime" then p.readTime
    else ""
  }

  predicate Distinct(keys: seq<string>) {
    forall i, j :: 0 <= i < j < |keys| ==> keys[i] != keys[j]
  }

  /**
   * An order in which an object can list the keys of a post: each of the nine keys exactly once
   * and no other key. `JSON.stringify` keeps the order in which the keys were added.
   */
  predicate IsKeyOrder(keys: seq<string>) {
    Distinct(keys) && (forall i :: 0 <= i < |keys| ==> keys[i] in PostKeys()) &&
    forall k :: k in PostKeys() ==> k in keys
  }

  /** The members of a post with its keys in the order `keys`. */
  function MembersIn(p: Post<string>, keys: seq<string>): (ms: seq<(string, string)>)
    ensures |ms| == |keys| && forall i :: 0 <= i < |keys| ==> ms[i] == (keys[i], Field(p, keys[i]))
  {
    seq(|keys|, i requires 0 <= i < |keys| => (keys[i], Field(p, keys[i])))
  }

  lemma PostKeysIsKeyOrder()
    ensures IsKeyOrder(PostKeys())
  {
  }

  lemma RecordOrder(p: Post<string>)
    ensures IsKeyOrder(PostKeys())
    ensures MembersIn(p, PostKeys()) == PostMembers(p)
  {
    PostKeysIsKeyOrder();
  }

  function KeysOf(ms: seq<(string, string)>): (keys: seq<string>)
    ensures |keys| == |ms| && forall i :: 0 <= i < |ms| ==> keys[i] == ms[i].0
  {
    seq(|ms|, i requires 0 <= i < |ms| => ms[i].0)
  }

  /** The value of the first member named `k`. */
  function ValueOf(ms: seq<(string, string)>, k: string): string {
    if ms == [] then "" else if ms[0].0 == k then ms[0].1 else ValueOf(ms[1..], k)
  }

  lemma {:induction false} ValueOfDistinct(ms: seq<(string, string)>, i: nat)
    requires Distinct(KeysOf(ms)) && i < |ms|
    ensures ValueOf(ms, ms[i].0) == ms[i].1
    decreases i
  {
    if i > 0 {
      assert ms[0].0 != ms[i].0 by {
        assert KeysOf(ms)[0] != KeysOf(ms)[i];
      }
      assert Distinct(KeysOf(ms[1..])) by {
        forall a, b | 0 <= a < b < |ms| - 1 ensures KeysOf(ms[1..])[a] != KeysOf(ms[1..])[b] {
          assert KeysOf(ms)[a + 1] != KeysOf(ms)[b + 1];
        }
      }
      ValueOfDistinct(ms[1..], i - 1);
    }
  }

  /** The post whose every field is the value its key has among `ms`. */
  function PostOfMembers(ms: seq<(string, string)>): Post<string> {
    Post(ValueOf(ms, "id"), ValueOf(ms, "title"), ValueOf(ms, "content"), ValueOf(ms, "excerpt"),
         ValueOf(ms, "category"), ValueOf(ms, "author"), ValueOf(ms, "date"), ValueOf(ms, "imageUrl"),
         ValueOf(ms, "readTime"))
  }

  lemma FieldOfPostOfMembers(ms: seq<(string, string)>, k: string)
    requires k in PostKeys()
    ensures Field(PostOfMembers(ms), k) == ValueOf(ms, k)
  {
    var q := PostOfMembers(ms);
    if k == "id" {
    } else if k == "title" {
    } else if k == "excerpt" {
    } else if k == "content" {
    } else if k == "category" {
    } else if k == "author" {
    } else if k == "date" {
    } else if k == "imageUrl" {
    } else {
      assert k == "readTime";
    }
  }

  /**
   * The post an object of string members denotes: its keys must be the nine keys of a post, in
   * any order, each once.
   */
  function PostFromMembers(ms: seq<(string, string)>): (r: Option<Post<string>>)
    ensures r.Some? <==> IsKeyOrder(KeysOf(ms))
    ensures r.Some? ==> MembersIn(r.value, KeysOf(ms)) == ms
  {
    if IsKeyOrder(KeysOf(ms)) then
      var p := PostOfMembers(ms);
      assert forall i :: 0 <= i < |ms| ==> ms[i] == (KeysOf(ms)[i], Field(p, KeysOf(ms)[i])) by {
        forall i | 0 <= i < |ms| ensures ms[i] == (KeysOf(ms)[i], Field(p, KeysOf(ms)[i])) {
          FieldOfPostOfMembers(ms, ms[i].0);
          ValueOfDistinct(ms, i);
        }
      }
      Some(p)
    else None
  }

  /** Two posts that agree on every key are equal. */
  lemma FieldsAgree(p: Post<string>, q: Post<string>)
    requires forall k :: k in PostKeys() ==> Field(p, k) == Field(q, k)
    ensures p == q
  {
    var keys := PostKeys();
    assert Field(p, keys[0]) == Field(q, keys[0]) && Field(p, keys[1]) == Field(q, keys[1]);
    assert Field(p, keys[2]) == Field(q, keys[2]) && Field(p, keys[3]) == Field(q, keys[3]);
    assert Field(p, keys[4]) == Field(q, keys[4]) && Field(p, keys[5]) == Field(q, keys[5]);
    assert Field(p, keys[6]) == Field(q, keys[6]) && Field(p, keys[7]) == Field(q, keys[7]);
    assert Field(p, keys[8]) == Field(q, keys[8]);
  }

  /** The members of a post, in any key order, name that post back. */
  lemma PostFromMembersIn(p: Post<string>, keys: seq<string>)
    requires IsKeyOrder(keys)
    ensures PostFromMembers(MembersIn(p, keys)) == Some(p)
  {
    var ms := MembersIn(p, keys);
    assert KeysOf(ms) == keys;
    var q := PostOfMembers(ms);
    forall k | k in PostKeys() ensures Field(q, k) == Field(p, k) {
      var i :| 0 <= i < |keys| && keys[i] == k;
      ValueOfDistinct(ms, i);
      FieldOfPostOfMembers(ms, k);
    }
    FieldsAgree(q, p);
  }

  /** `JSON.stringify` of a post whose keys were added in the order `keys`. */
  function EncodePostIn(p: Post<string>, keys: seq<string>): string {
    EncodeObject(MembersIn(p, keys))
  }

  /** `JSON.stringify` of a post built as a literal in the record's key order. */
  function EncodePost(p: Post<string>): string {
    EncodeObject(PostMembers(p))
  }

  lemma EncodePostInRecordOrder(p: Post<string>)
    ensures EncodePostIn(p, PostKeys()) == EncodePost(p)
  {
    RecordOrder(p);
  }

  function ParsePost(s: string): (r: Option<(Post<string>, string)>)
    ensures r.Some? ==> |r.value.1| < |s|
  {
    match ParseObject(s)
    case None => None
    case Some((ms, t)) =>
      match PostFromMembers(ms)
      case None => None
      case Some(p) => Some((p, t))
  }

  lemma PostParses(p: Post<string>, keys: seq<string>, rest: string)
    requires IsKeyOrder(keys)
    ensures ParsePost(EncodePostIn(p, keys) + rest) == Some((p, rest))
  {
    ObjectParses(MembersIn(p, keys), rest);
    PostFromMembersIn(p, keys);
  }

  /** `JSON.parse` of one post: the whole text must be the post. */
  function DecodePost(s: string): Option<Post<string>> {
    match ParsePost(s)
    case Some((p, t)) => if t == [] then Some(p) else None
    case None => None
  }

  /** Decoding a post written with its keys in any order gives the post back. */
  lemma PostInRoundTrip(p: Post<string>, keys: seq<string>)
    requires IsKeyOrder(keys)
    ensures DecodePost(EncodePostIn(p, keys)) == Some(p)
  {
    PostParses(p, keys, []);
    assert EncodePostIn(p, keys) + [] == EncodePostIn(p, keys);
  }

  /** Decoding what was encoded gives the post back. */
  lemma PostRoundTrip(p: Post<string>)
    ensures DecodePost(EncodePost(p)) == Some(p)
  {
    RecordOrder(p);
    EncodePostInRecordOrder(p);
    PostInRoundTrip(p, PostKeys());
  }

  // ----- the length of a post's text, whatever its key order -----

  /** What one member adds to an object's text: the member and the comma or brace after it. */
  function MemberCost(p: Post<string>, k: string): nat {
    |EncodeMember((k, Field(p, k)))| + 1
  }

  function KeysCost(p: Post<string>, keys: seq<string>): nat {
    if keys == [] then 0 else MemberCost(p, keys[0]) + KeysCost(p, keys[1..])
  }

  lemma {:induction false} KeysCostAppend(p: Post<string>, x: seq<string>, y: seq<string>)
    ensures KeysCost(p, x + y) == KeysCost(p, x) + KeysCost(p, y)
    decreases |x|
  {
    if x == [] {
      assert x + y == y;
    } else {
      assert (x + y)[0] == x[0] && (x + y)[1..] == x[1..] + y;
      KeysCostAppend(p, x[1..], y);
    }
  }

  /** `b` without its `j`-th key. */
  function RemoveAt(b: seq<string>, j: nat): seq<string>
    requires j < |b|
  {
    b[..j] + b[j + 1..]
  }

  /** Taking one key out of a list takes its cost out of the list's cost. */
  lemma RemoveAtCost(p: Post<string>, b: seq<string>, j: nat)
    requires j < |b|
    ensures KeysCost(p, b) == MemberCost(p, b[j]) + KeysCost(p, RemoveAt(b, j))
  {
    assert b == b[..j] + ([b[j]] + b[j + 1..]);
    KeysCostAppend(p, b[..j], [b[j]] + b[j + 1..]);
    KeysCostAppend(p, b[..j], b[j + 1..]);
    assert ([b[j]] + b[j + 1..])[1..] == b[j + 1..];
  }

  /** Taking one key out of a list without repeats leaves the other keys, without repeats. */
  lemma RemoveAtKeys(b: seq<string>, j: nat)
    requires j < |b| && Distinct(b)
    ensures Distinct(RemoveAt(b, j))
    ensures forall k :: k in RemoveAt(b, j) <==> k in b && k != b[j]
  {
    var b' := RemoveAt(b, j);
    assert |b'| == |b| - 1;
    assert forall x :: 0 <= x < |b'| ==> b'[x] == b[if x < j then x else x + 1];
    forall k | k in b && k != b[j] ensures k in b' {
      var l :| 0 <= l < |b| && b[l] == k;
      assert b'[if l < j then l else l - 1] == k;
    }
  }

  /** A list that is not empty holds its first key. */
  lemma HeadIsIn(b: seq<string>)
    ensures b != [] ==> b[0] in b
  {
  }

  /** Two key lists holding the same keys, each once, cost the same. */
  lemma {:induction false} KeysCostReorder(p: Post<string>, a: seq<string>, b: seq<string>)
    requires Distinct(a) && Distinct(b) && forall k :: k in a <==> k in b
    ensures KeysCost(p, a) == KeysCost(p, b)
    decreases |a|
  {
    if a == [] {
      HeadIsIn(b);
    } else {
      assert a[0] in a;
      var j :| 0 <= j < |b| && b[j] == a[0];
      RemoveAtCost(p, b, j);
      RemoveAtKeys(b, j);
      RemoveAtKeys(a, 0);
      assert RemoveAt(a, 0) == a[1..];
      KeysCostReorder(p, a[1..], RemoveAt(b, j));
    }
  }

  /** The members after the opening brace cost what their keys cost. */
  lemma {:induction false} MembersTailLength(p: Post<string>, keys: seq<string>)
    requires keys != []
    ensures |EncodeMembersTail(MembersIn(p, keys))| == KeysCost(p, keys)
    decreases |keys|
  {
    var ms := MembersIn(p, keys);
    if |keys| > 1 {
      assert ms[1..] == MembersIn(p, keys[1..]);
      MembersTailLength(p, keys[1..]);
    }
  }

  /** A post's text is as long in every key order. */
  lemma EncodePostInLength(p: Post<string>, keys: seq<string>)
    requires IsKeyOrder(keys)
    ensures |EncodePostIn(p, keys)| == |EncodePost(p)|
  {
    RecordOrder(p);
    assert keys != [] by {
      assert "id" in PostKeys();
    }
    MembersTailLength(p, keys);
    MembersTailLength(p, PostKeys());
    KeysCostReorder(p, keys, PostKeys());
    EncodePostInRecordOrder(p);
  }

  /** No text that decodes to `p` is shorter than the one `JSON.stringify` writes for it. */
  lemma DecodePostShortest(s: string, p: Post<string>)
    requires DecodePost(s) == Some(p)
    ensures |s| >= |EncodePost(p)|
  {
    ObjectShortest(s);
    var (ms, _) := ParseObject(s).value;
    EncodePostInLength(p, KeysOf(ms));
  }

  // ----- arrays of posts -----

  /** The posts after the opening bracket, each with its own key order, then the closing bracket. */
  function EncodeElementsTail(ps: seq<Post<string>>, orders: seq<seq<string>>): string
    requires ps != [] && |orders| == |ps|
  {
    EncodePostIn(ps[0], orders[0]) + if |ps| == 1 then [']'] else [','] + EncodeElementsTail(ps[1..], orders[1..])
  }

  /** `JSON.stringify` of a list of posts, the `i`-th written with its keys in the order `orders[i]`. */
  function EncodePostsIn(ps: seq<Post<string>>, orders: seq<seq<string>>): string
    requires |orders| == |ps|
  {
    if ps == [] then "[]" else ['['] + EncodeElementsTail(ps, orders)
  }

  /** Every post in the record's key order. */
  function RecordOrders(n: nat): (orders: seq<seq<string>>)
    ensures |orders| == n && forall i :: 0 <= i < n ==> orders[i] == PostKeys()
  {
    seq(n, _ => PostKeys())
  }

  /** `JSON.stringify` of a list of posts built in the record's key order. */
  function EncodePosts(ps: seq<Post<string>>): string {
    EncodePostsIn(ps, RecordOrders(|ps|))
  }

  function ParseElementsTail(s: string): (r: Option<(seq<Post<string>>, string)>)
    ensures r.Some? ==> |r.value.1| < |s|
    decreases |s|
  {
    match ParsePost(s)
    case None => None
    case Some((p, t)) =>
      if t != [] && t[0] == ']' then Some(([p], t[1..]))
      else if t != [] && t[0] == ',' then
        match ParseElementsTail(t[1..])
        case None => None
        case Some((ps, u)) => Some(([p] + ps, u))
      else None
  }

  /** `JSON.parse` of an array of posts. */
  function DecodePosts(s: string): Option<seq<Post<string>>> {
    if s == "[]" then Some([])
    else if s == [] || s[0] != '[' then None
    else
      match ParseElementsTail(s[1..])
      case Some((ps, t)) => if t == [] then Some(ps) else None
      case None => None
  }

  lemma ElementsTailLast(s: string, p: Post<string>, t: string)
    requires ParsePost(s) == Some((p, t)) && t != [] && t[0] == ']'
    ensures ParseElementsTail(s) == Some(([p], t[1..]))
  {
  }

  lemma ElementsTailStep(s: string, p: Post<string>, t: string, ps: seq<Post<string>>, u: string)
    requires ParsePost(s) == Some((p, t)) && t != [] && t[0] == ','
    requires ParseElementsTail(t[1..]) == Some((ps, u))
    ensures ParseElementsTail(s) == Some(([p] + ps, u))
  {
  }

  lemma ElementsTailUnfoldLast(ps: seq<Post<string>>, orders: seq<seq<string>>)
    requires |ps| == 1 && |orders| == 1
    ensures EncodeElementsTail(ps, orders) == EncodePostIn(ps[0], orders[0]) + [']']
  {
  }

  lemma ElementsTailUnfold(ps: seq<Post<string>>, orders: seq<seq<string>>)
    requires |ps| > 1 && |orders| == |ps|
    ensures EncodeElementsTail(ps, orders) ==
              EncodePostIn(ps[0], orders[0]) + ([','] + EncodeElementsTail(ps[1..], orders[1..]))
  {
  }

  /** Every entry of `orders` is a key order. */
  predicate AllKeyOrders(orders: seq<seq<string>>) {
    forall i :: 0 <= i < |orders| ==> IsKeyOrder(orders[i])
  }

  lemma {:induction false} ElementsTailParsesOne(ps: seq<Post<string>>, orders: seq<seq<string>>, rest: string)
    requires |ps| == 1 && |orders| == 1 && AllKeyOrders(orders)
    ensures ParseElementsTail(EncodeElementsTail(ps, orders) + rest) == Some((ps, rest))
  {
    var s := EncodeElementsTail(ps, orders) + rest;
    ElementsTailUnfoldLast(ps, orders);
    RegroupLast(EncodePostIn(ps[0], orders[0]), ']', rest);
    PostParses(ps[0], orders[0], [']'] + rest);
    assert ([']'] + rest)[1..] == rest;
    ElementsTailLast(s, ps[0], [']'] + rest);
    assert [ps[0]] == ps;
  }

  /** The first post of a longer list parses, leaving the comma and the rest. */
  lemma {:induction false} ElementsHeadParses(ps: seq<Post<string>>, orders: seq<seq<string>>, rest: string)
    requires |ps| > 1 && |orders| == |ps| && AllKeyOrders(orders)
    ensures ParsePost(EncodeElementsTail(ps, orders) + rest) ==
              Some((ps[0], [','] + (EncodeElementsTail(ps[1..], orders[1..]) + rest)))
  {
    ElementsTailUnfold(ps, orders);
    Regroup(EncodePostIn(ps[0], orders[0]), EncodeElementsTail(ps[1..], orders[1..]), rest);
    PostParses(ps[0], orders[0], [','] + (EncodeElementsTail(ps[1..], orders[1..]) + rest));
  }

  /** A text whose first post is followed by a comma and the text of the others. */
  lemma ElementsTailCons(s: string, p: Post<string>, qs: seq<Post<string>>, more: string, rest: string)
    requires ParsePost(s) == Some((p, [','] + more))
    requires ParseElementsTail(more) == Some((qs, rest))
    ensures ParseElementsTail(s) == Some(([p] + qs, rest))
  {
    var t := [','] + more;
    assert t[0] == ',' && t[1..] == more;
    ElementsTailStep(s, p, t, qs, rest);
  }

  lemma {:induction false} ElementsTailParsesMore(ps: seq<Post<string>>, orders: seq<seq<string>>, rest: string)
    requires |ps| > 1 && |orders| == |ps| && AllKeyOrders(orders)
    requires ParseElementsTail(EncodeElementsTail(ps[1..], orders[1..]) + rest) == Some((ps[1..], rest))
    ensures ParseElementsTail(EncodeElementsTail(ps, orders) + rest) == Some((ps, rest))
  {
    ElementsHeadParses(ps, orders, rest);
    ElementsTailCons(EncodeElementsTail(ps, orders) + rest, ps[0], ps[1..], EncodeElementsTail(ps[1..], orders[1..]) + rest, rest);
    assert [ps[0]] + ps[1..] == ps;
  }

  lemma {:induction false} ElementsTailParses(ps: seq<Post<string>>, orders: seq<seq<string>>, rest: string)
    requires ps != [] && |orders| == |ps| && AllKeyOrders(orders)
    ensures ParseElementsTail(EncodeElementsTail(ps, orders) + rest) == Some((ps, rest))
    decreases |ps|
  {
    if |ps| == 1 {
      ElementsTailParsesOne(ps, orders, rest);
    } else {
      assert AllKeyOrders(orders[1..]) by {
        forall i | 0 <= i < |orders| - 1 ensures IsKeyOrder(orders[1..][i]) {
          assert orders[1..][i] == orders[i + 1];
        }
      }
      ElementsTailParses(ps[1..], orders[1..], rest);
      ElementsTailParsesMore(ps, orders, rest);
    }
  }

  /** Decoding a list of posts, each written with its keys in any order, gives the list back. */
  lemma PostsInRoundTrip(ps: seq<Post<string>>, orders: seq<seq<string>>)
    requires |orders| == |ps| && AllKeyOrders(orders)
    ensures DecodePosts(EncodePostsIn(ps, orders)) == Some(ps)
  {
    if ps != [] {
      var s := EncodePostsIn(ps, orders);
      ElementsTailParses(ps, orders, []);
      assert s[1..] == EncodeElementsTail(ps, orders) + [];
      assert s != "[]" by {
        assert s[1] == '{';
      }
    }
  }

  /** Decoding an encoded list of posts gives the list back. */
  lemma PostsRoundTrip(ps: seq<Post<string>>)
    ensures DecodePosts(EncodePosts(ps)) == Some(ps)
  {
    PostKeysIsKeyOrder();
    PostsInRoundTrip(ps, RecordOrders(|ps|));
  }

  // ----- booleans -----

  function EncodeBool(b: bool): string {
    if b then "true" else "false"
  }

  function DecodeBool(s: string): (r: Option<bool>)
    ensures r.Some? ==> EncodeBool(r.value) == s
  {
    if s == "true" then Some(true) else if s == "false" then Some(false) else None
  }
}
