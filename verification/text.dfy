/**
 The two character classes of ECMAScript the page depends on: the line
 terminators that a regular-expression `.` refuses, and the white space that
 `String.prototype.trim` strips from both ends of a string.
 */
module Text {

  /** LF, CR, LINE SEPARATOR and PARAGRAPH SEPARATOR. */
  predicate IsLineTerminator(c: char) {
    c == '\n' || c == '\r' || c == '\U{2028}' || c == '\U{2029}'
  }

  /**
   ECMAScript WhiteSpace (TAB, VT, FF, ZWNBSP and the Unicode space separators)
   together with the line terminators: the characters `trim` removes.
   */
  predicate IsWhitespace(c: char) {
    || IsLineTerminator(c)
    || c == '\t' || c == '\U{B}' || c == '\U{C}' || c == '\U{FEFF}'
    || c == ' ' || c == '\U{A0}' || c == '\U{1680}'
    || ('\U{2000}' <= c <= '\U{200A}')
    || c == '\U{202F}' || c == '\U{205F}' || c == '\U{3000}'
  }

  predicate NoLineTerminator(t: string) {
    forall k :: 0 <= k < |t| ==> !IsLineTerminator(t[k])
  }

  /** Neither the first nor the last character is white space. */
  predicate Trimmed(t: string) {
    t == [] || (!IsWhitespace(t[0]) && !IsWhitespace(t[|t| - 1]))
  }

  /**
   The reference meaning of trimming: `t` is the part of `s` between a
   white-space prefix and a white-space suffix, and `t` itself is trimmed.
   */
  ghost predicate IsTrimOf(s: string, t: string) {
    exists a, b :: 0 <= a <= b <= |s| && IsCut(s, a, b) && t == s[a..b]
  }

  /** `s[..a]` and `s[b..]` are white space and `s[a..b]` neither starts nor ends with it. */
  predicate IsCut(s: string, a: int, b: int)
    requires 0 <= a <= b <= |s|
  {
    && (forall k :: 0 <= k < a ==> IsWhitespace(s[k]))
    && (forall k :: b <= k < |s| ==> IsWhitespace(s[k]))
    && (a < b ==> !IsWhitespace(s[a]) && !IsWhitespace(s[b - 1]))
  }

  /** Scans right from `i` past white space. */
  function SkipLeading(s: string, i: nat): (n: nat)
    requires i <= |s|
    ensures i <= n <= |s|
    ensures forall k :: i <= k < n ==> IsWhitespace(s[k])
    ensures n < |s| ==> !IsWhitespace(s[n])
    decreases |s| - i
  {
    if i < |s| && IsWhitespace(s[i]) then SkipLeading(s, i + 1) else i
  }

  /** Scans left from `j` past white space. */
  function SkipTrailing(s: string, j: nat): (m: nat)
    requires j <= |s|
    ensures m <= j
    ensures forall k :: m <= k < j ==> IsWhitespace(s[k])
    ensures 0 < m ==> !IsWhitespace(s[m - 1])
  {
    if 0 < j && IsWhitespace(s[j - 1]) then SkipTrailing(s, j - 1) else j
  }

  /** `String.prototype.trim`. */
  function Trim(s: string): (r: string)
    ensures Trimmed(r)
    ensures |r| <= |s|
  {
    var a := SkipLeading(s, 0);
    if a == |s| then []
    else
      var b := SkipTrailing(s, |s|);
      assert a < b;
      assert s[a..b][0] == s[a] && s[a..b][b - a - 1] == s[b - 1];
      s[a..b]
  }

  /** `Trim` cuts only white space from the two ends of a string. */
  lemma TrimIsCut(s: string)
    ensures IsTrimOf(s, Trim(s))
  {
    var a := SkipLeading(s, 0);
    var b := SkipTrailing(s, |s|);
    if a == |s| {
      assert IsCut(s, a, a) && s[a..a] == [];
    } else {
      assert IsCut(s, a, b);
    }
  }

  /** Any cut of `s` into white space, a trimmed middle and white space has the middle `Trim(s)`. */
  lemma TrimUnique(s: string, t: string)
    requires IsTrimOf(s, t)
    ensures t == Trim(s)
  {
    var a, b :| 0 <= a <= b <= |s| && IsCut(s, a, b) && t == s[a..b];
    var r := Trim(s);
    TrimIsCut(s);
    var a', b' :| 0 <= a' <= b' <= |s| && IsCut(s, a', b') && r == s[a'..b'];
    CutUnique(s, a, b, a', b');
  }

  /** A string has one cut, up to where an empty middle sits. */
  lemma CutUnique(s: string, a: int, b: int, a': int, b': int)
    requires 0 <= a <= b <= |s| && IsCut(s, a, b)
    requires 0 <= a' <= b' <= |s| && IsCut(s, a', b')
    ensures s[a..b] == s[a'..b']
  {
  }

  /** Trimming a trimmed string changes nothing, so `trim` is idempotent. */
  lemma TrimOfTrimmed(t: string)
    requires Trimmed(t)
    ensures Trim(t) == t
  {
    assert IsCut(t, 0, |t|) && t[0..|t|] == t;
    TrimUnique(t, t);
  }

  lemma TrimIdempotent(s: string)
    ensures Trim(Trim(s)) == Trim(s)
  {
    TrimOfTrimmed(Trim(s));
  }

  /** Gluing the empty prefix `d[..0]` in front of a suffix leaves its trim as it is. */
  lemma TrimAfterEmptyPrefix(d: string, k: nat)
    requires k <= |d|
    ensures Trim(d[..0] + d[k..]) == Trim(d[k..])
  {
    assert d[..0] + d[k..] == d[k..];
  }

  /** A single blank before a trimmed, non-empty string is trimmed away. */
  lemma TrimSingleLeadingSpace(t: string)
    requires Trimmed(t) && t != []
    ensures Trim(" " + t) == t
  {
    var s := " " + t;
    assert s[..1] == " " && s[|s|..] == [] && s[1..|s|] == t;
    assert IsCut(s, 1, |s|);
    TrimUnique(s, t);
  }

}
