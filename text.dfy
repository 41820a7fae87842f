/**
 * The string operations the filters use: `String.prototype.toLowerCase`,
 * `String.prototype.includes` and `String.prototype.length` (UTF-16 code units).
 */
module Text {

  /**
   * Lower-casing of one character. The table covers the letters blog text is written in here:
   * ASCII, the Latin-1 supplement, all of Latin Extended-A (U+0100-U+017F: upper case at even code
   * points up to U+0137 and from U+014A to U+0176, at odd code points from U+0139 to U+0147 and
   * from U+0179 to U+017D, U+0178 lowering to U+00FF; U+0130, whose lower case is two characters,
   * is left alone), the Vietnamese letters U+01A0 and U+01AF and the Vietnamese block
   * U+1EA0-U+1EF9 (upper case at even code points).
   */
  function LowerChar(c: char): (r: char)
    ensures 'A' <= c <= 'Z' ==> r as int == c as int + 32
    ensures c as int < 0x80 && !('A' <= c <= 'Z') ==> r == c
    ensures r == c || r as int == c as int + 32 || r as int == c as int + 1 || (c as int == 0x178 && r as int == 0xFF)
  {
    var n := c as int;
    if 'A' <= c <= 'Z' then (n + 32) as char
    else if 0xC0 <= n <= 0xDE && n != 0xD7 then (n + 32) as char
    else if 0x100 <= n <= 0x137 && n % 2 == 0 && n != 0x130 then (n + 1) as char
    else if 0x139 <= n <= 0x148 && n % 2 == 1 then (n + 1) as char
    else if 0x14A <= n <= 0x177 && n % 2 == 0 then (n + 1) as char
    else if n == 0x178 then 0xFF as char
    else if 0x179 <= n <= 0x17E && n % 2 == 1 then (n + 1) as char
    else if n == 0x1A0 || n == 0x1AF then (n + 1) as char
    else if 0x1EA0 <= n <= 0x1EF9 && n % 2 == 0 then (n + 1) as char
    else c
  }

  /** The capitals of Vietnamese outside ASCII and the Vietnamese block lower to their small letters. */
  lemma LowerVietnameseCapitals()
    ensures LowerChar('Ă') == 'ă' && LowerChar('Â') == 'â' && LowerChar('Đ') == 'đ'
    ensures LowerChar('Ê') == 'ê' && LowerChar('Ô') == 'ô' && LowerChar('Ơ') == 'ơ' && LowerChar('Ư') == 'ư'
    ensures LowerChar('Ĩ') == 'ĩ' && LowerChar('Ũ') == 'ũ'
  {
  }

  /** Lower-casing a character that is already lower case changes nothing. */
  lemma LowerCharIdempotent(c: char)
    ensures LowerChar(LowerChar(c)) == LowerChar(c)
  {
  }

  function Lower(s: string): (r: string)
    ensures |r| == |s|
    ensures forall i :: 0 <= i < |s| ==> r[i] == LowerChar(s[i])
  {
    if s == [] then [] else [LowerChar(s[0])] + Lower(s[1..])
  }

  /** Lower-casing works on each slice on its own. */
  lemma LowerSlice(s: string, i: nat, j: nat)
    requires i <= j <= |s|
    ensures Lower(s)[i..j] == Lower(s[i..j])
  {
    var whole, part := Lower(s), Lower(s[i..j]);
    forall k | 0 <= k < j - i ensures whole[i..j][k] == part[k] {
      assert whole[i + k] == LowerChar(s[i + k]);
      assert part[k] == LowerChar(s[i..j][k]);
    }
  }

  /** `sub` occurs in `s` starting at offset `i`. */
  predicate OccursAt(s: string, sub: string, i: nat) {
    i + |sub| <= |s| && s[i..i + |sub|] == sub
  }

  /** `s.includes(sub)`: `sub` occurs in `s` at some offset (the empty string occurs everywhere). */
  function Includes(s: string, sub: string): (r: bool)
    ensures r <==> exists i: nat :: OccursAt(s, sub, i)
    decreases |s|
  {
    if sub <= s then
      assert OccursAt(s, sub, 0);
      true
    else if s == [] then
      assert forall i: nat :: !OccursAt(s, sub, i);
      false
    else
      var r := Includes(s[1..], sub);
      if r then
        var i: nat :| OccursAt(s[1..], sub, i);
        assert OccursAt(s, sub, i + 1);
        r
      else
        forall i: nat | OccursAt(s, sub, i) ensures false {
          assert i != 0;
          assert OccursAt(s[1..], sub, i - 1);
        }
        r
  }

  /** The empty query occurs in every text. */
  lemma IncludesEmpty(s: string)
    ensures Includes(s, "")
  {
    assert OccursAt(s, "", 0);
  }

  /** Every text occurs in itself. */
  lemma IncludesSelf(s: string)
    ensures Includes(s, s)
  {
    assert OccursAt(s, s, 0);
  }

  /** A text occurring at a known offset is found. */
  lemma IncludesAt(s: string, sub: string, i: nat)
    requires OccursAt(s, sub, i)
    ensures Includes(s, sub)
  {
  }

  /** `s.length`: JavaScript counts UTF-16 code units, so characters above U+FFFF count twice. */
  function Utf16Length(s: string): (r: nat)
    ensures |s| <= r <= 2 * |s|
    ensures (forall i :: 0 <= i < |s| ==> s[i] as int <= 0xFFFF) ==> r == |s|
  {
    if s == [] then 0 else (if s[0] as int > 0xFFFF then 2 else 1) + Utf16Length(s[1..])
  }
}
