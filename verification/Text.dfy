/** Characters and strings, as both the line editor and the formatter need them. */
module Text {

  predicate IsDigit(c: char) {
    '0' <= c <= '9'
  }

  function Reversed(s: string): (r: string)
    ensures |r| == |s| && forall k :: 0 <= k < |s| ==> r[k] == s[|s| - 1 - k]
  {
    seq(|s|, k requires 0 <= k < |s| => s[|s| - 1 - k])
  }
}
