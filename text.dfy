/**
 * Character classes of ECMAScript regular expressions and the whitespace
 * trimming of `String.prototype.trim`, on Unicode scalar values.
 */
module Text {

  /** ECMAScript WhiteSpace: TAB, VT, FF, SPACE, NBSP, ZWNBSP and every character of category Zs. */
  predicate IsWhiteSpace(c: char) {
    c == '\t' || c == '\U{B}' || c == '\U{C}' || c == ' ' || c == '\U{A0}' || c == '\U{FEFF}'
    || c == '\U{1680}' || ('\U{2000}' <= c <= '\U{200A}') || c == '\U{202F}' || c == '\U{205F}'
    || c == '\U{3000}'
  }

  /** ECMAScript LineTerminator: LF, CR, LINE SEPARATOR, PARAGRAPH SEPARATOR. */
  predicate IsLineTerminator(c: char) {
    c == '\n' || c == '\r' || c == '\U{2028}' || c == '\U{2029}'
  }

  /** What the class `\s` matches, and what `trim` removes at either end. */
  predicate IsSpace(c: char) {
    IsWhiteSpace(c) || IsLineTerminator(c)
  }

  /** What the class `\w` matches without the `u` flag: ASCII letters, digits and `_`. */
  predicate IsWordChar(c: char) {
    ('A' <= c <= 'Z') || ('a' <= c <= 'z') || ('0' <= c <= '9') || c == '_'
  }

  /** A string that `(.*)` can match whole: no line terminator in it. */
  predicate IsSingleLine(s: string) {
    forall i :: 0 <= i < |s| ==> !IsLineTerminator(s[i])
  }

  /** `toUpperCase` of a word character: only `a`-`z` change, each to its capital. */
  function UpperWordChar(c: char): (u: char)
    requires IsWordChar(c)
    ensures IsWordChar(u) && !('a' <= u <= 'z')
    ensures !('a' <= c <= 'z') ==> u == c
    ensures 'a' <= c <= 'z' ==> u as int == c as int - 32
  {
    if 'a' <= c <= 'z' then (c as int - 32) as char else c
  }

  /** `s` with its leading `\s` characters removed. */
  function TrimStart(s: string): (r: string)
    ensures |r| <= |s| && r == s[|s| - |r|..]
    ensures forall i :: 0 <= i < |s| - |r| ==> IsSpace(s[i])
    ensures r == [] || !IsSpace(r[0])
    decreases |s|
  {
    if s != [] && IsSpace(s[0]) then TrimStart(s[1..]) else s
  }

  /** `s` with its trailing `\s` characters removed. */
  function TrimEnd(s: string): (r: string)
    ensures |r| <= |s| && r == s[..|r|]
    ensures forall i :: |r| <= i < |s| ==> IsSpace(s[i])
    ensures r == [] || !IsSpace(r[|r| - 1])
    decreases |s|
  {
    if s != [] && IsSpace(s[|s| - 1]) then TrimEnd(s[..|s| - 1]) else s
  }

  /** `r` is the part of `s` from index `i` on, with only whitespace before and after it. */
  predicate IsCutOutAt(s: string, r: string, i: int) {
    && 0 <= i <= |s| - |r| && r == s[i..i + |r|]
    && (forall k :: 0 <= k < i ==> IsSpace(s[k]))
    && (forall k :: i + |r| <= k < |s| ==> IsSpace(s[k]))
  }

  /**
   * `String.prototype.trim`: the longest middle part of `s` that neither
   * starts nor ends with whitespace; what is cut off is all whitespace.
   */
  function Trim(s: string): (r: string)
    ensures r == [] || (!IsSpace(r[0]) && !IsSpace(r[|r| - 1]))
    ensures r == [] <==> forall i :: 0 <= i < |s| ==> IsSpace(s[i])
    ensures IsSingleLine(s) ==> IsSingleLine(r)
    ensures exists i :: IsCutOutAt(s, r, i)
  {
    var t := TrimStart(s);
    var r := TrimEnd(t);
    TrimCutsOut(s, t, r);
    r
  }

  /**
   * Cutting whitespace off the front of `s` to get `t`, then off the back of
   * `t` to get `r`, leaves a part of `s` with only whitespace around it.
   */
  lemma TrimCutsOut(s: string, t: string, r: string)
    requires |t| <= |s| && t == s[|s| - |t|..] && forall i :: 0 <= i < |s| - |t| ==> IsSpace(s[i])
    requires |r| <= |t| && r == t[..|r|] && forall i :: |r| <= i < |t| ==> IsSpace(t[i])
    ensures IsCutOutAt(s, r, |s| - |t|)
  {
    var i := |s| - |t|;
    assert t == s[i..] && r == t[..|r|];
    assert s[i..][..|r|] == s[i..i + |r|];
    forall k | i + |r| <= k < |s| ensures IsSpace(s[k]) {
      assert s[k] == t[k - i];
    }
  }

  /** A string without whitespace at either end is left as it is. */
  lemma TrimUnspaced(s: string)
    requires s != [] && !IsSpace(s[0]) && !IsSpace(s[|s| - 1])
    ensures Trim(s) == s
  {
  }

  /** Trimming twice trims no more than trimming once. */
  lemma TrimIdempotent(s: string)
    ensures Trim(Trim(s)) == Trim(s)
  {
    var r := Trim(s);
    if r != [] {
      TrimUnspaced(r);
    }
  }

  /** A concatenation has no line terminator when neither part has one. */
  lemma SingleLineConcat(a: string, b: string)
    requires IsSingleLine(a) && IsSingleLine(b)
    ensures IsSingleLine(a + b)
  {
    forall i | 0 <= i < |a + b| ensures !IsLineTerminator((a + b)[i]) {
      if i >= |a| {
        assert (a + b)[i] == b[i - |a|];
      }
    }
  }
}
