/**
 String operations the application takes from JavaScript: `toLowerCase`
 (modelled as ASCII lower-casing) and `String.prototype.includes`.
 */
module Text {

  predicate IsUpperChar(c: char) {
    'A' <= c <= 'Z'
  }

  /** Lower-cases one ASCII letter; every other character is left alone. */
  function LowerChar(c: char): (r: char)
    ensures !IsUpperChar(r)
    ensures !IsUpperChar(c) ==> r == c
    ensures IsUpperChar(c) ==> r as int - c as int == 'a' as int - 'A' as int
  {
    if IsUpperChar(c) then (c as int - 'A' as int + 'a' as int) as char else c
  }

  /** A string with no upper-case ASCII letter in it. */
  predicate IsLower(s: string) {
    forall i :: 0 <= i < |s| ==> !IsUpperChar(s[i])
  }

  /** `s.toLowerCase()`, restricted to ASCII letters. */
  function ToLower(s: string): (r: string)
    ensures |r| == |s|
    ensures forall i :: 0 <= i < |s| ==> r[i] == LowerChar(s[i])
    ensures IsLower(r)
  {
    seq(|s|, i requires 0 <= i < |s| => LowerChar(s[i]))
  }

  /** Lower-casing changes nothing in a string that is already lower case. */
  lemma LowerIsFixedPoint(s: string)
    requires IsLower(s)
    ensures ToLower(s) == s
  {
    assert forall i :: 0 <= i < |s| ==> ToLower(s)[i] == s[i];
  }

  /** Lower-casing twice is lower-casing once. */
  lemma ToLowerIdempotent(s: string)
    ensures ToLower(ToLower(s)) == ToLower(s)
  {
    LowerIsFixedPoint(ToLower(s));
  }

  /** Lower-casing keeps every character that is not an upper-case letter in place,
      so it neither adds nor removes an '@'. */
  lemma ToLowerKeepsAt(s: string)
    ensures '@' in ToLower(s) <==> '@' in s
  {
    if '@' in s {
      var i :| 0 <= i < |s| && s[i] == '@';
      assert ToLower(s)[i] == '@';
    }
    if '@' in ToLower(s) {
      var i :| 0 <= i < |s| && ToLower(s)[i] == '@';
      assert s[i] == '@';
    }
  }

  /** `needle` sits in `hay` starting at position `i`. */
  predicate OccursAt(hay: string, needle: string, i: int) {
    0 <= i && i + |needle| <= |hay| && hay[i..i + |needle|] == needle
  }

  /** The specification of `hay.includes(needle)`: some position holds `needle`. */
  ghost predicate IsSubstring(needle: string, hay: string) {
    exists i :: OccursAt(hay, needle, i)
  }

  /** When `needle` is not a prefix of a non-empty `hay`, it occurs in `hay`
      exactly when it occurs in `hay` without its first character. */
  lemma ShiftOccurrence(hay: string, needle: string)
    requires |hay| > 0 && !(needle <= hay)
    ensures IsSubstring(needle, hay) <==> IsSubstring(needle, hay[1..])
  {
    if IsSubstring(needle, hay[1..]) {
      var i :| OccursAt(hay[1..], needle, i);
      assert hay[1..][i..i + |needle|] == hay[i + 1..i + 1 + |needle|];
      assert OccursAt(hay, needle, i + 1);
    }
    if IsSubstring(needle, hay) {
      var i :| OccursAt(hay, needle, i);
      assert i != 0;
      assert hay[1..][i - 1..i - 1 + |needle|] == hay[i..i + |needle|];
      assert OccursAt(hay[1..], needle, i - 1);
    }
  }

  /** String inclusion, trying every start position from the left. It answers
      exactly the substring question; in particular the empty string occurs in
      every string, as it does in JavaScript. */
  function Includes(hay: string, needle: string): (r: bool)
    ensures r <==> IsSubstring(needle, hay)
    decreases |hay|
  {
    if needle <= hay then
      assert OccursAt(hay, needle, 0);
      true
    else if |hay| == 0 then
      assert forall i :: !OccursAt(hay, needle, i);
      false
    else
      ShiftOccurrence(hay, needle);
      Includes(hay[1..], needle)
  }
}
