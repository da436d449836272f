/** Python's `str.isspace` and `str.strip()` (no argument), as the custom-prompt check uses them. */
module Whitespace {

  /** The code points for which Python's `str.isspace()` holds: tab to carriage return,
      the four information separators, space, NEL, no-break space, and the Unicode
      space and line/paragraph separators. */
  predicate IsSpace(c: char)
  {
    || c == ' '
    || ('\t' <= c <= '\r')
    || ('\U{1c}' <= c <= '\U{1f}')
    || c == '\U{85}'
    || c == '\U{a0}'
    || c == '\U{1680}'
    || ('\U{2000}' <= c <= '\U{200a}')
    || c == '\U{2028}'
    || c == '\U{2029}'
    || c == '\U{202f}'
    || c == '\U{205f}'
    || c == '\U{3000}'
  }

  /** Every character of `s` is whitespace (vacuously so for the empty string). */
  predicate AllSpace(s: string)
  {
    forall i :: 0 <= i < |s| ==> IsSpace(s[i])
  }

  /** The position of the first non-whitespace character of `s` at or after `i`, or `|s|`. */
  function SkipLeading(s: string, i: nat): (lo: nat)
    requires i <= |s|
    ensures i <= lo <= |s|
    ensures forall k :: i <= k < lo ==> IsSpace(s[k])
    ensures lo < |s| ==> !IsSpace(s[lo])
    decreases |s| - i
  {
    if i == |s| || !IsSpace(s[i]) then i else SkipLeading(s, i + 1)
  }

  /** The end of the last non-whitespace character of `s[lo..j]`, or `lo` when it has none. */
  function SkipTrailing(s: string, lo: nat, j: nat): (hi: nat)
    requires lo <= j <= |s|
    ensures lo <= hi <= j
    ensures forall k :: hi <= k < j ==> IsSpace(s[k])
    ensures hi > lo ==> !IsSpace(s[hi - 1])
    decreases j
  {
    if j == lo || !IsSpace(s[j - 1]) then j else SkipTrailing(s, lo, j - 1)
  }

  /** `s.strip()`: the longest slice of `s` that neither starts nor ends with whitespace. */
  function Strip(s: string): (r: string)
    ensures exists lo, hi ::
              && 0 <= lo <= hi <= |s| && r == s[lo..hi]
              && (forall i :: 0 <= i < lo ==> IsSpace(s[i]))
              && (forall i :: hi <= i < |s| ==> IsSpace(s[i]))
    ensures r != [] ==> !IsSpace(r[0]) && !IsSpace(r[|r| - 1])
    ensures r == [] <==> AllSpace(s)
  {
    var lo := SkipLeading(s, 0);
    var hi := SkipTrailing(s, lo, |s|);
    s[lo..hi]
  }
}
