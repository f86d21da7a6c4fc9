/**
 The string primitives the helpers use on names that are already converted
 from UTF-16: `_strupr`, `strstr`, and the case-insensitive comparisons
 `_stricmp` / `g_strcasecmp`. Only ASCII letters are folded, as in the C locale.
 */
module Ascii {

  function ToUpper(c: char): char {
    if 'a' <= c <= 'z' then (c as int - 32) as char else c
  }

  function ToLower(c: char): char {
    if 'A' <= c <= 'Z' then (c as int + 32) as char else c
  }

  /** Folding to lower case and folding to upper case identify the same characters. */
  lemma LowerAgreesWithUpper(x: char, y: char)
    ensures ToLower(x) == ToLower(y) <==> ToUpper(x) == ToUpper(y)
  {
  }

  /**
   `_strupr`: every character upper-cased in place. No lower-case ASCII
   letter is left; each one becomes its capital, 32 code points lower, and
   every other character is kept.
   */
  function Upper(s: string): (r: string)
    ensures |r| == |s|
    ensures forall i :: 0 <= i < |s| ==> r[i] == ToUpper(s[i])
    ensures forall i :: 0 <= i < |r| ==> !('a' <= r[i] <= 'z')
    ensures forall i :: 0 <= i < |s| && 'a' <= s[i] <= 'z' ==> r[i] as int == s[i] as int - 32
    ensures forall i :: 0 <= i < |s| && !('a' <= s[i] <= 'z') ==> r[i] == s[i]
  {
    seq(|s|, i requires 0 <= i < |s| => ToUpper(s[i]))
  }

  /**
   `_stricmp` and `g_strcasecmp`: compares the strings character by character
   after folding to lower case; zero means equal. When one string is a proper
   prefix of the other, the C code compares a letter against the terminating
   NUL, which only the sign of the result records here.
   */
  function StrICmp(a: string, b: string): (r: int)
    ensures r == 0 <==> Upper(a) == Upper(b)
    decreases |a|
  {
    if a == [] && b == [] then 0
    else if a == [] then -1
    else if b == [] then 1
    else
      LowerAgreesWithUpper(a[0], b[0]);
      assert Upper(a) == [ToUpper(a[0])] + Upper(a[1..]);
      assert Upper(b) == [ToUpper(b[0])] + Upper(b[1..]);
      if ToLower(a[0]) != ToLower(b[0]) then
        assert Upper(a)[0] != Upper(b)[0];
        ToLower(a[0]) as int - ToLower(b[0]) as int
      else
        StrICmp(a[1..], b[1..])
  }

  /** `needle` starts at position `k` of `hay`. */
  ghost predicate OccursAt(needle: string, hay: string, k: int) {
    0 <= k && k + |needle| <= |hay| && hay[k..k + |needle|] == needle
  }

  /** `needle` occurs somewhere in `hay`, as a contiguous run. */
  ghost predicate Occurs(needle: string, hay: string) {
    exists k :: OccursAt(needle, hay, k)
  }

  /** Dropping the first character of `hay` shifts every occurrence one place left. */
  lemma OccursAtShift(needle: string, hay: string, k: int)
    requires hay != [] && 0 <= k
    ensures OccursAt(needle, hay[1..], k) <==> OccursAt(needle, hay, k + 1)
  {
    if k + |needle| <= |hay[1..]| {
      assert hay[1..][k..k + |needle|] == hay[k + 1..k + 1 + |needle|];
    }
  }

  /**
   `strstr(hay, needle) != NULL`: scans `hay` for the first position where
   `needle` starts. It succeeds exactly when `needle` occurs in `hay`.
   */
  function Contains(hay: string, needle: string): (r: bool)
    ensures r <==> Occurs(needle, hay)
    decreases |hay|
  {
    if needle <= hay then
      assert OccursAt(needle, hay, 0);
      true
    else if hay == [] then
      assert forall k :: !OccursAt(needle, hay, k);
      false
    else
      var rest := Contains(hay[1..], needle);
      assert rest <==> Occurs(needle, hay) by {
        assert !OccursAt(needle, hay, 0);
        if Occurs(needle, hay[1..]) {
          var k :| OccursAt(needle, hay[1..], k);
          OccursAtShift(needle, hay, k);
        }
        if Occurs(needle, hay) {
          var k :| OccursAt(needle, hay, k);
          OccursAtShift(needle, hay, k - 1);
        }
      }
      rest
  }
}
