/** `strings.TrimSpace` from Go's standard library, on strings of Unicode code points. */
module Strings {

  /**
    Go's `unicode.IsSpace`: the ASCII spaces tab, newline, vertical tab, form
    feed, carriage return and space, U+0085, U+00A0, and the other characters
    with the Unicode White_Space property.
  */
  predicate IsSpace(c: char)
  {
    || c == ' '
    || ('\t' <= c <= '\r')
    || c == '\U{0085}'
    || c == '\U{00A0}'
    || c == '\U{1680}'
    || ('\U{2000}' <= c <= '\U{200A}')
    || c == '\U{2028}'
    || c == '\U{2029}'
    || c == '\U{202F}'
    || c == '\U{205F}'
    || c == '\U{3000}'
  }

  /** The first position at or after `i` that does not hold white space, or `|s|`. */
  function FirstNonSpace(s: string, i: nat): (r: nat)
    requires i <= |s|
    ensures i <= r <= |s|
    ensures forall k :: i <= k < r ==> IsSpace(s[k])
    ensures r < |s| ==> !IsSpace(s[r])
    decreases |s| - i
  {
    if i < |s| && IsSpace(s[i]) then FirstNonSpace(s, i + 1) else i
  }

  /**
    Scanning back from `j`, but not past `lo`: the end of the last character
    that is not white space, or `lo`.
  */
  function EndOfNonSpace(s: string, lo: nat, j: nat): (r: nat)
    requires lo <= j <= |s|
    ensures lo <= r <= j
    ensures forall k :: r <= k < j ==> IsSpace(s[k])
    ensures r > lo ==> !IsSpace(s[r - 1])
    decreases j
  {
    if j > lo && IsSpace(s[j - 1]) then EndOfNonSpace(s, lo, j - 1) else j
  }

  /** Leading and trailing white space removed: the start is found first, then the end, never before the start. */
  function TrimSpace(s: string): string
  {
    var start := FirstNonSpace(s, 0);
    s[start..EndOfNonSpace(s, start, |s|)]
  }

  /**
    TrimSpace keeps a contiguous middle part of `s`: everything cut off at
    either end is white space, and what is kept neither starts nor ends with
    white space.
  */
  lemma TrimSpaceSpec(s: string)
    ensures |TrimSpace(s)| <= |s|
    ensures TrimSpace(s) == [] || (!IsSpace(TrimSpace(s)[0]) && !IsSpace(TrimSpace(s)[|TrimSpace(s)| - 1]))
    ensures exists i: nat, j: nat ::
              && i <= j <= |s|
              && TrimSpace(s) == s[i..j]
              && (forall k :: 0 <= k < i ==> IsSpace(s[k]))
              && (forall k :: j <= k < |s| ==> IsSpace(s[k]))
  {
    var i := FirstNonSpace(s, 0);
    var j := EndOfNonSpace(s, i, |s|);
    assert TrimSpace(s) == s[i..j];
  }

  /** A string with no white space at either end is its own trim. */
  lemma TrimSpaceFixpoint(s: string)
    requires s == [] || (!IsSpace(s[0]) && !IsSpace(s[|s| - 1]))
    ensures TrimSpace(s) == s
  {
  }

  /** Trimming an already trimmed string changes nothing. */
  lemma TrimSpaceIdempotent(s: string)
    ensures TrimSpace(TrimSpace(s)) == TrimSpace(s)
  {
    TrimSpaceSpec(s);
    TrimSpaceFixpoint(TrimSpace(s));
  }
}
