/** Strings as the catalog engine uses them: ASCII lower-casing (Python's
    `str.lower` restricted to ASCII) and Python's substring test `p in s`. */
module Text {

  predicate IsUpper(c: char) {
    'A' <= c <= 'Z'
  }

  /** One character of `str.lower`: 'A'..'Z' become 'a'..'z', all else is kept. */
  function Lower(c: char): char {
    if IsUpper(c) then (c as int + 32) as char else c
  }

  /** `s.lower()` on an ASCII string. */
  function LowerStr(s: string): (r: string)
    ensures |r| == |s|
    ensures forall i :: 0 <= i < |s| ==> r[i] == Lower(s[i])
  {
    if s == [] then [] else [Lower(s[0])] + LowerStr(s[1..])
  }

  /** `p` occurs in `s` at offset `i`. */
  predicate OccursAt(p: string, s: string, i: int) {
    0 <= i && i + |p| <= |s| && s[i..i + |p|] == p
  }

  /** Python's `p in s` for strings: `p` occurs somewhere in `s` (the empty
      string occurs in every string, the empty one included). */
  predicate IsSubstring(p: string, s: string) {
    exists i :: 0 <= i <= |s| - |p| && OccursAt(p, s, i)
  }

  /** The empty string is a substring of every string. */
  lemma EmptyIsSubstring(s: string)
    ensures IsSubstring("", s)
  {
    assert OccursAt("", s, 0);
  }

  /** Lower-casing both sides keeps an occurrence, at the same offset. */
  lemma LowerKeepsSubstring(p: string, s: string)
    requires IsSubstring(p, s)
    ensures IsSubstring(LowerStr(p), LowerStr(s))
  {
    var i :| 0 <= i <= |s| - |p| && OccursAt(p, s, i);
    assert LowerStr(s)[i..i + |p|] == LowerStr(p);
    assert OccursAt(LowerStr(p), LowerStr(s), i);
  }

  /** A string with no upper-case letter is its own lower-case form. */
  lemma LowerWithoutUpper(s: string)
    requires forall i :: 0 <= i < |s| ==> !IsUpper(s[i])
    ensures LowerStr(s) == s
  {
  }

  /** Lower-casing is idempotent. */
  lemma LowerIdempotent(s: string)
    ensures LowerStr(LowerStr(s)) == LowerStr(s)
  {
  }

  /** A pattern holding a character the text lacks does not occur in it. */
  lemma MissingCharNotSubstring(p: string, s: string, c: char)
    requires c in p && c !in s
    ensures !IsSubstring(p, s)
  {
    var k :| 0 <= k < |p| && p[k] == c;
    forall i | 0 <= i && i + |p| <= |s| ensures !OccursAt(p, s, i) {
      assert s[i..i + |p|][k] != c;
    }
  }

  /** Lower-casing introduces no character other than a lower-case letter. */
  lemma LowerAddsNoOther(s: string, c: char)
    requires !('a' <= c <= 'z') && c !in s
    ensures c !in LowerStr(s)
  {
    forall k | 0 <= k < |s| ensures LowerStr(s)[k] != c {
      assert s[k] != c;
    }
  }

  /** Between strings of equal length, occurrence is equality. */
  lemma SameLengthSubstring(p: string, s: string)
    requires |p| == |s|
    ensures IsSubstring(p, s) <==> p == s
  {
    if p == s {
      assert OccursAt(p, s, 0);
    }
  }

  /** A letter absent from `s` in both cases is absent from `s.lower()`. */
  lemma LowerMissingLetter(s: string, c: char)
    requires 'a' <= c <= 'z' && c !in s && (c as int - 32) as char !in s
    ensures c !in LowerStr(s)
  {
    forall k | 0 <= k < |s| ensures LowerStr(s)[k] != c {
      assert s[k] != c && s[k] != (c as int - 32) as char;
    }
  }
}
