/** String.prototype.trim: strips the ECMAScript WhiteSpace and
    LineTerminator code points from both ends of a string. */
module Text {

  /** WhiteSpace (TAB, VT, FF, ZWNBSP and the Unicode Zs category) and
      LineTerminator (LF, CR, LS, PS) of section 12.2 and 12.3 of ECMA-262. */
  predicate IsWhitespace(c: char) {
    || c == '\t' || c == '\n' || c == '\U{000B}' || c == '\U{000C}' || c == '\r'
    || c == ' ' || c == '\U{00A0}' || c == '\U{1680}'
    || ('\U{2000}' <= c <= '\U{200A}')
    || c == '\U{2028}' || c == '\U{2029}' || c == '\U{202F}' || c == '\U{205F}'
    || c == '\U{3000}' || c == '\U{FEFF}'
  }

  /** Where the leading white space of s ends, searching from `from`: the
      first index at or after `from` that does not hold white space, or |s|. */
  function SkipForward(s: string, from: nat): (i: nat)
    requires from <= |s|
    ensures from <= i <= |s|
    ensures forall k :: from <= k < i ==> IsWhitespace(s[k])
    ensures i == |s| || !IsWhitespace(s[i])
    decreases |s| - from
  {
    if from < |s| && IsWhitespace(s[from]) then SkipForward(s, from + 1) else from
  }

  /** Where the trailing white space of s starts, searching back from `to`:
      one past the last index below `to` that does not hold white space, or 0. */
  function SkipBackward(s: string, to: nat): (j: nat)
    requires to <= |s|
    ensures j <= to
    ensures forall k :: j <= k < to ==> IsWhitespace(s[k])
    ensures j == 0 || !IsWhitespace(s[j - 1])
  {
    if to > 0 && IsWhitespace(s[to - 1]) then SkipBackward(s, to - 1) else to
  }

  /** `s.trim()`: the part of s between its leading and its trailing white
      space; it has white space on neither end. */
  function Trim(s: string): (r: string)
    ensures |r| <= |s|
    ensures r != [] ==> !IsWhitespace(r[0]) && !IsWhitespace(r[|r| - 1])
  {
    var i, j := SkipForward(s, 0), SkipBackward(s, |s|);
    if i < j then s[i..j] else []
  }

  /** The trimmed string is empty exactly when s is all white space, which
      is when JavaScript treats `s.trim()` as false. */
  lemma TrimEmptyIff(s: string)
    ensures Trim(s) == [] <==> forall k :: 0 <= k < |s| ==> IsWhitespace(s[k])
  {
    var i, j := SkipForward(s, 0), SkipBackward(s, |s|);
    if i < |s| {
      assert i < j;
    }
  }

  /** The trimmed string is a slice s[i..i + |r|] of s with only white space
      outside it. */
  lemma TrimSlice(s: string)
    ensures var i, r := SkipForward(s, 0), Trim(s);
      && i + |r| <= |s| && r == s[i..i + |r|]
      && (forall k :: 0 <= k < i ==> IsWhitespace(s[k]))
      && (forall k :: i + |r| <= k < |s| ==> IsWhitespace(s[k]))
  {
    var i, j := SkipForward(s, 0), SkipBackward(s, |s|);
    if i < |s| {
      assert i < j;
    }
  }
}
