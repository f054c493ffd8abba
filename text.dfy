/**
 * The string trimming every validation in the task store relies on:
 * JavaScript's `String.prototype.trim`, which strips ECMAScript white space
 * and line terminators from both ends of a string.
 */
module Text {

  /**
   * ECMAScript WhiteSpace (TAB, VT, FF, ZWNBSP and every Unicode "Zs" space)
   * and LineTerminator (LF, CR, LS, PS) code points.
   */
  predicate IsWhitespace(c: char) {
    || c == '\t' || c == '\n' || c == '\U{000B}' || c == '\U{000C}' || c == '\r'
    || c == ' ' || c == '\U{00A0}' || c == '\U{1680}'
    || ('\U{2000}' <= c <= '\U{200A}')
    || c == '\U{2028}' || c == '\U{2029}' || c == '\U{202F}' || c == '\U{205F}'
    || c == '\U{3000}' || c == '\U{FEFF}'
  }

  /** Every character is white space: exactly the strings whose trim is falsy. */
  predicate IsBlank(s: string) {
    forall i :: 0 <= i < |s| ==> IsWhitespace(s[i])
  }

  /** Length of the longest all-white-space prefix of `s`. */
  function LeadingSpace(s: string): (k: nat)
    ensures k <= |s|
    ensures forall i :: 0 <= i < k ==> IsWhitespace(s[i])
    ensures k < |s| ==> !IsWhitespace(s[k])
  {
    if s != [] && IsWhitespace(s[0]) then 1 + LeadingSpace(s[1..]) else 0
  }

  /** Length of the longest all-white-space suffix of `s`. */
  function TrailingSpace(s: string): (k: nat)
    ensures k <= |s|
    ensures forall i :: |s| - k <= i < |s| ==> IsWhitespace(s[i])
    ensures k < |s| ==> !IsWhitespace(s[|s| - 1 - k])
  {
    if s != [] && IsWhitespace(s[|s| - 1]) then 1 + TrailingSpace(s[..|s| - 1]) else 0
  }

  /**
   * `s.trim()`: `s` with its white-space prefix and suffix removed. The result
   * is empty exactly when `s` is blank, otherwise it starts and ends with a
   * character that is not white space and sits in `s` right after the
   * white-space prefix, followed only by white space.
   */
  function Trim(s: string): (r: string)
    ensures r == [] <==> IsBlank(s)
    ensures r != [] ==> !IsWhitespace(r[0]) && !IsWhitespace(r[|r| - 1])
    ensures LeadingSpace(s) + |r| <= |s|
    ensures r == s[LeadingSpace(s)..LeadingSpace(s) + |r|]
    ensures forall i :: LeadingSpace(s) + |r| <= i < |s| ==> IsWhitespace(s[i])
  {
    var k := LeadingSpace(s);
    var t := s[k..];
    var m := TrailingSpace(t);
    TrimBounds(s, k, t, m);
    t[..|t| - m]
  }

  /** The facts about the two strips that `Trim`'s contract is made of. */
  lemma TrimBounds(s: string, k: nat, t: string, m: nat)
    requires k <= |s| && t == s[k..] && m == TrailingSpace(t)
    requires forall i :: 0 <= i < k ==> IsWhitespace(s[i])
    requires k < |s| ==> !IsWhitespace(s[k])
    ensures t[..|t| - m] == s[k..|s| - m]
    ensures forall i :: |s| - m <= i < |s| ==> IsWhitespace(s[i])
    ensures |t| == m <==> IsBlank(s)
    ensures m < |t| ==> !IsWhitespace(s[k]) && !IsWhitespace(s[|s| - 1 - m])
  {
    assert |t| == |s| - k;
    forall i | |s| - m <= i < |s| ensures IsWhitespace(s[i]) {
      assert s[i] == t[i - k];
    }
    if k < |s| {
      assert !IsWhitespace(s[k]);
    }
    if m < |t| {
      assert s[k] == t[0];
      assert s[|s| - 1 - m] == t[|t| - 1 - m];
    }
  }

  /** Trimming twice is trimming once: a trimmed title or text is stable. */
  lemma TrimIdempotent(s: string)
    ensures Trim(Trim(s)) == Trim(s)
  {
    var r := Trim(s);
    if r != [] {
      assert LeadingSpace(r) == 0;
      assert TrailingSpace(r) == 0;
    }
  }
}
