/** The JavaScript string operations the notes app relies on:
    `String.prototype.trim`, `toLowerCase` and `includes`. */
module Text {

  /** JavaScript's WhiteSpace and LineTerminator code points, the set
      `trim` strips from both ends. */
  const WhiteSpace: set<char> := {
    ' ', '\t', '\n', '\r', '\U{B}', '\U{C}', '\U{A0}', '\U{FEFF}', '\U{1680}',
    '\U{2000}', '\U{2001}', '\U{2002}', '\U{2003}', '\U{2004}', '\U{2005}',
    '\U{2006}', '\U{2007}', '\U{2008}', '\U{2009}', '\U{200A}',
    '\U{2028}', '\U{2029}', '\U{202F}', '\U{205F}', '\U{3000}'
  }

  predicate IsSpace(c: char) {
    c in WhiteSpace
  }

  /** True when every character of `s` is whitespace (vacuously so for ""). */
  ghost predicate AllSpace(s: string) {
    forall i :: 0 <= i < |s| ==> IsSpace(s[i])
  }

  /** The end of the whitespace run that starts at `i`: the first position
      at or after `i` that is not whitespace, or `|s|`. */
  function LeadEnd(s: string, i: nat): (r: nat)
    requires i <= |s|
    ensures i <= r <= |s|
    ensures forall k :: i <= k < r ==> IsSpace(s[k])
    ensures r < |s| ==> !IsSpace(s[r])
    decreases |s| - i
  {
    if i < |s| && IsSpace(s[i]) then LeadEnd(s, i + 1) else i
  }

  /** The start of the whitespace run that ends at `j`, not going below
      `lo`: the smallest `r` with only whitespace in `s[r..j]`. */
  function TrailStart(s: string, lo: nat, j: nat): (r: nat)
    requires lo <= j <= |s|
    ensures lo <= r <= j
    ensures forall k :: r <= k < j ==> IsSpace(s[k])
    ensures r > lo ==> !IsSpace(s[r - 1])
  {
    if j > lo && IsSpace(s[j - 1]) then TrailStart(s, lo, j - 1) else j
  }

  /** `r` is the infix of `s` that starts at offset `a`. */
  ghost predicate InfixAt(r: string, s: string, a: int) {
    0 <= a <= |s| - |r| && r == s[a..a + |r|]
  }

  /** `s.trim()`: a contiguous infix of `s` with no whitespace at either end;
      everything dropped before and after it is whitespace. */
  function Trim(s: string): (r: string)
    ensures exists a :: InfixAt(r, s, a) && AllSpace(s[..a]) && AllSpace(s[a + |r|..])
    ensures r == [] || (!IsSpace(r[0]) && !IsSpace(r[|r| - 1]))
  {
    var a := LeadEnd(s, 0);
    var b := TrailStart(s, a, |s|);
    assert InfixAt(s[a..b], s, a);
    s[a..b]
  }

  /** A string is blank for JavaScript when its trimmed form is "", exactly
      when it consists of whitespace only. */
  lemma BlankIffAllSpace(s: string)
    ensures Trim(s) == [] <==> AllSpace(s)
  {
    var a := LeadEnd(s, 0);
    var b := TrailStart(s, a, |s|);
    if AllSpace(s) {
      assert a == |s|;
    } else {
      var k :| 0 <= k < |s| && !IsSpace(s[k]);
      assert a <= k < b;
    }
  }

  /** `c.toLowerCase()` restricted to ASCII letters. */
  function LowerChar(c: char): (l: char) {
    if 'A' <= c <= 'Z' then (c as int + 32) as char else c
  }

  /** `s.toLowerCase()`, ASCII-only: same length, letters folded one by one. */
  function Lower(s: string): (r: string)
    ensures |r| == |s|
    ensures forall i :: 0 <= i < |s| ==> r[i] == LowerChar(s[i])
  {
    seq(|s|, i requires 0 <= i < |s| => LowerChar(s[i]))
  }

  /** Folding case twice is the same as folding it once. */
  lemma LowerIdempotent(s: string)
    ensures Lower(Lower(s)) == Lower(s)
  {
  }

  /** Reference meaning of `hay.includes(needle)`: `needle` occurs at some
      offset of `hay`. */
  ghost predicate OccursIn(needle: string, hay: string) {
    exists i :: InfixAt(needle, hay, i)
  }

  /** `needle` occurs in `hay` at some offset `i` or later. */
  ghost predicate OccursFrom(needle: string, hay: string, i: int) {
    exists j :: i <= j && InfixAt(needle, hay, j)
  }

  /** Tries the offsets from `i` upwards. */
  function IncludesFrom(hay: string, needle: string, i: nat): (r: bool)
    ensures r <==> OccursFrom(needle, hay, i)
    decreases |hay| - i
  {
    if i + |needle| > |hay| then
      assert !OccursFrom(needle, hay, i);
      false
    else if hay[i..i + |needle|] == needle then
      assert InfixAt(needle, hay, i);
      true
    else
      var r := IncludesFrom(hay, needle, i + 1);
      assert OccursFrom(needle, hay, i) ==> OccursFrom(needle, hay, i + 1) by {
        if OccursFrom(needle, hay, i) {
          var j :| i <= j && InfixAt(needle, hay, j);
          assert j != i;
        }
      }
      r
  }

  /** `hay.includes(needle)`. */
  function Includes(hay: string, needle: string): (r: bool)
    ensures r <==> OccursIn(needle, hay)
  {
    IncludesFrom(hay, needle, 0)
  }

  /** Every string contains the empty string. */
  lemma IncludesEmpty(hay: string)
    ensures Includes(hay, "")
  {
    assert InfixAt("", hay, 0);
  }
}
