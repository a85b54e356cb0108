/** Substring search as used by the scanner's exclusion test. */
module Strings {

  /** `p` is a prefix of `s`. */
  ghost predicate IsPrefix(p: string, s: string) {
    |p| <= |s| && s[..|p|] == p
  }

  /** `needle` occurs somewhere in `haystack` (the empty needle occurs everywhere). */
  ghost predicate IsSubstring(needle: string, haystack: string) {
    exists i :: 0 <= i <= |haystack| && IsPrefix(needle, haystack[i..])
  }

  /** Go's `strings.Contains(haystack, needle)`, by scanning start positions left to right. */
  function StringContains(haystack: string, needle: string): (r: bool)
    ensures r <==> IsSubstring(needle, haystack)
    decreases |haystack|
  {
    if |needle| <= |haystack| && haystack[..|needle|] == needle then
      assert IsPrefix(needle, haystack[0..]);
      true
    else if |haystack| <= |needle| then
      assert forall i :: 0 <= i <= |haystack| ==> !IsPrefix(needle, haystack[i..]);
      false
    else
      var r := StringContains(haystack[1..], needle);
      assert r ==> IsSubstring(needle, haystack) by {
        if r {
          var i :| 0 <= i <= |haystack[1..]| && IsPrefix(needle, haystack[1..][i..]);
          assert haystack[1..][i..] == haystack[i + 1..];
        }
      }
      assert IsSubstring(needle, haystack) ==> r by {
        if IsSubstring(needle, haystack) {
          var i :| 0 <= i <= |haystack| && IsPrefix(needle, haystack[i..]);
          assert i != 0;
          assert haystack[1..][i - 1..] == haystack[i..];
        }
      }
      r
  }

  /**
   * `contains(haystack, needle...)`: true as soon as one needle occurs in
   * `haystack`, false when none does (in particular when there are no needles).
   */
  function Contains(haystack: string, needles: seq<string>): (r: bool)
    ensures r <==> exists k :: 0 <= k < |needles| && IsSubstring(needles[k], haystack)
    ensures needles == [] ==> !r
  {
    if needles == [] then false
    else if StringContains(haystack, needles[0]) then true
    else
      var r := Contains(haystack, needles[1..]);
      assert forall k :: 1 <= k < |needles| ==> needles[k] == needles[1..][k - 1];
      r
  }

  /** Appending to the haystack never removes an occurrence. */
  lemma {:induction false} SubstringExtend(needle: string, haystack: string, suffix: string)
    requires IsSubstring(needle, haystack)
    ensures IsSubstring(needle, haystack + suffix)
  {
    var i :| 0 <= i <= |haystack| && IsPrefix(needle, haystack[i..]);
    assert (haystack + suffix)[i..][..|needle|] == haystack[i..][..|needle|];
    assert IsPrefix(needle, (haystack + suffix)[i..]);
  }

  /** Once a haystack contains one of the needles, every extension of it does too. */
  lemma {:induction false} ContainsExtend(haystack: string, needles: seq<string>, suffix: string)
    requires Contains(haystack, needles)
    ensures Contains(haystack + suffix, needles)
  {
    var k :| 0 <= k < |needles| && IsSubstring(needles[k], haystack);
    SubstringExtend(needles[k], haystack, suffix);
  }
}
