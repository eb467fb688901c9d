/**
  The string built-ins the catalogue page relies on: `toLowerCase`, `includes`,
  `padStart` and `trim`. Strings are sequences of characters, and the model assumes
  every character lies in the Basic Multilingual Plane, so that one character is one
  UTF-16 code unit.
 */
module JsString {

  /** `c.toLowerCase()`, restricted by assumption to Basic Latin and the basic Cyrillic
      block (А..Я and the Ѐ..Џ row, which includes Ё); every other character is kept. */
  function LowerChar(c: char): (d: char)
    ensures 'A' <= c <= 'Z' ==> 'a' <= d <= 'z' && d as int - c as int == 32
    ensures 'А' <= c <= 'Я' ==> 'а' <= d <= 'я' && d as int - c as int == 32
    ensures 'Ѐ' <= c <= 'Џ' ==> 'ѐ' <= d <= 'џ' && d as int - c as int == 80
    ensures !IsUpper(c) ==> d == c
  {
    if 'A' <= c <= 'Z' then (c as int + 32) as char
    else if 'А' <= c <= 'Я' then (c as int + 32) as char
    else if 'Ѐ' <= c <= 'Џ' then (c as int + 80) as char
    else c
  }

  /** The upper-case letters `LowerChar` maps. */
  predicate IsUpper(c: char) {
    || 'A' <= c <= 'Z'
    || 'А' <= c <= 'Я'
    || 'Ѐ' <= c <= 'Џ'
  }

  /** `s.toLowerCase()`: lowers character by character, so the length is kept. */
  function Lower(s: string): (r: string)
    ensures |r| == |s|
    ensures forall i :: 0 <= i < |s| ==> r[i] == LowerChar(s[i])
    ensures forall i :: 0 <= i < |s| ==> !IsUpper(r[i])
    ensures forall i :: 0 <= i < |s| && !IsUpper(s[i]) ==> r[i] == s[i]
  {
    seq(|s|, i requires 0 <= i < |s| => LowerChar(s[i]))
  }

  /** Lowering produces no upper-case letter, so lowering twice is lowering once. */
  lemma LowerIdempotent(s: string)
    ensures forall i :: 0 <= i < |s| ==> !IsUpper(Lower(s)[i])
    ensures Lower(Lower(s)) == Lower(s)
  {
  }

  /** `needle` occurs in `hay` starting at index `k`. */
  predicate OccursAt(hay: string, needle: string, k: int) {
    0 <= k <= |hay| - |needle| && hay[k..k + |needle|] == needle
  }

  /** `hay.includes(needle)`: scans the start positions of `hay` from the left. */
  function Includes(hay: string, needle: string): (b: bool)
    ensures |needle| == 0 ==> b
    ensures b ==> |needle| <= |hay|
    decreases |hay|
  {
    if |needle| > |hay| then false
    else if hay[..|needle|] == needle then true
    else Includes(hay[1..], needle)
  }

  /** The scan of `Includes` finds `needle` exactly when it occurs somewhere in `hay`. */
  lemma {:induction false} IncludesIffOccurs(hay: string, needle: string)
    ensures Includes(hay, needle) <==> exists k :: OccursAt(hay, needle, k)
    decreases |hay|
  {
    if |needle| > |hay| {
      assert forall k :: !OccursAt(hay, needle, k);
    } else if hay[..|needle|] == needle {
      assert OccursAt(hay, needle, 0);
    } else {
      IncludesIffOccurs(hay[1..], needle);
      if Includes(hay[1..], needle) {
        var k :| OccursAt(hay[1..], needle, k);
        assert hay[1..][k..k + |needle|] == hay[k + 1..k + 1 + |needle|];
        assert OccursAt(hay, needle, k + 1);
      } else {
        forall k | OccursAt(hay, needle, k)
          ensures false
        {
          assert k != 0;
          assert hay[1..][k - 1..k - 1 + |needle|] == hay[k..k + |needle|];
          assert OccursAt(hay[1..], needle, k - 1);
        }
      }
    }
  }

  /** An occurrence of an occurrence is an occurrence: if `needle` occurs in `middle`
      and `middle` occurs in `hay`, then `needle` occurs in `hay`. */
  lemma OccursTransitive(hay: string, middle: string, needle: string, j: int, k: int)
    requires OccursAt(hay, middle, j) && OccursAt(middle, needle, k)
    ensures OccursAt(hay, needle, j + k)
  {
    forall i | 0 <= i < |needle|
      ensures hay[j + k + i] == needle[i]
    {
      assert middle[k + i] == needle[i];
      assert hay[j + k + i] == middle[k + i];
    }
  }

  /** A needle whose first character does not occur in `hay` occurs nowhere in it. */
  lemma NoOccurrenceWithoutFirstChar(hay: string, needle: string)
    requires |needle| > 0 && needle[0] !in hay
    ensures forall k :: !OccursAt(hay, needle, k)
  {
    forall k
      ensures !OccursAt(hay, needle, k)
    {
      if 0 <= k <= |hay| - |needle| {
        assert hay[k..k + |needle|][0] == hay[k] && hay[k] in hay;
      }
    }
  }

  /** `n` copies of the space character. */
  function Spaces(n: nat): (r: string)
    ensures |r| == n
    ensures forall i :: 0 <= i < n ==> r[i] == ' '
  {
    seq(n, _ => ' ')
  }

  /** `s.padStart(targetLength)` with the default filler, a single space: spaces are
      prepended until the length reaches `targetLength`; a longer string is returned as is. */
  function PadStart(s: string, targetLength: int): (r: string)
    ensures |r| == if targetLength <= |s| then |s| else targetLength
    ensures r[|r| - |s|..] == s
    ensures forall i :: 0 <= i < |r| - |s| ==> r[i] == ' '
  {
    if targetLength <= |s| then s else Spaces(targetLength - |s|) + s
  }

  /** The characters `trim` strips: WhiteSpace and LineTerminator of ECMAScript
      (section 12.2 and 12.3 of ECMA-262), the space separators of Unicode included. */
  predicate IsTrimmable(c: char) {
    || c == '\t' || c == '\n' || c == '\U{B}' || c == '\U{C}' || c == '\r' || c == ' '
    || c == '\U{A0}' || c == '\U{1680}' || '\U{2000}' <= c <= '\U{200A}'
    || c == '\U{2028}' || c == '\U{2029}' || c == '\U{202F}' || c == '\U{205F}'
    || c == '\U{3000}' || c == '\U{FEFF}'
  }

  /** `s.trimStart()`. */
  function TrimStart(s: string): (r: string)
    ensures |r| <= |s| && r == s[|s| - |r|..]
    ensures forall i :: 0 <= i < |s| - |r| ==> IsTrimmable(s[i])
    ensures |r| > 0 ==> !IsTrimmable(r[0])
  {
    if |s| > 0 && IsTrimmable(s[0]) then TrimStart(s[1..]) else s
  }

  /** `s.trimEnd()`. */
  function TrimEnd(s: string): (r: string)
    ensures |r| <= |s| && r == s[..|r|]
    ensures forall i :: |r| <= i < |s| ==> IsTrimmable(s[i])
    ensures |r| > 0 ==> !IsTrimmable(r[|r| - 1])
  {
    if |s| > 0 && IsTrimmable(s[|s| - 1]) then TrimEnd(s[..|s| - 1]) else s
  }

  /** `s.trim()`: `s` without its leading and trailing trimmable characters. */
  function Trim(s: string): (r: string)
    ensures |r| <= |s|
    ensures |r| > 0 ==> !IsTrimmable(r[0]) && !IsTrimmable(r[|r| - 1])
  {
    TrimEnd(TrimStart(s))
  }

  /** What `Trim` removes is trimmable, and what it keeps is a contiguous slice of `s`. */
  lemma TrimRemovesOnlyTrimmable(s: string)
    ensures exists a :: && OccursAt(s, Trim(s), a)
                         && (forall i :: 0 <= i < a ==> IsTrimmable(s[i]))
                         && (forall i :: a + |Trim(s)| <= i < |s| ==> IsTrimmable(s[i]))
  {
    var t := TrimStart(s);
    var r := TrimEnd(t);
    var a := |s| - |t|;
    assert r == s[a..a + |r|];
    forall i | a + |r| <= i < |s|
      ensures IsTrimmable(s[i])
    {
      assert s[i] == t[i - a];
    }
    assert Trim(s) == r;
    assert OccursAt(s, r, a) && forall i :: 0 <= i < a ==> IsTrimmable(s[i]);
  }



}
