/**
 * The trimming that `basename(path).trimStart().trimEnd()` performs: the TrimString
 * operation of ECMA-262 (2024 edition, section 22.1.3.32.1), which removes leading and
 * trailing code points that are WhiteSpace (section 12.2) or LineTerminator (section 12.3).
 */
module TrimString {

  /** WhiteSpace: TAB, VT, FF, ZWNBSP and every code point of Unicode category Zs. */
  predicate IsWhiteSpace(c: char) {
    c == '\t' || c == '\U{000B}' || c == '\U{000C}' || c == '\U{FEFF}'
    || c == ' ' || c == '\U{00A0}' || c == '\U{1680}'
    || ('\U{2000}' <= c <= '\U{200A}')
    || c == '\U{202F}' || c == '\U{205F}' || c == '\U{3000}'
  }

  /** LineTerminator: LF, CR, LINE SEPARATOR and PARAGRAPH SEPARATOR. */
  predicate IsLineTerminator(c: char) {
    c == '\n' || c == '\r' || c == '\U{2028}' || c == '\U{2029}'
  }

  /** The code points TrimString removes. */
  predicate IsStrippable(c: char) {
    IsWhiteSpace(c) || IsLineTerminator(c)
  }

  /** A string with nothing strippable at either end. */
  predicate IsTrimmed(s: string) {
    s == [] || (!IsStrippable(s[0]) && !IsStrippable(s[|s| - 1]))
  }

  /** The first position at or after `i` whose code point is not strippable, or `|s|`. */
  function FirstKept(s: string, i: nat): (j: nat)
    requires i <= |s|
    ensures i <= j <= |s| && (j == |s| || !IsStrippable(s[j]))
    decreases |s| - i
  {
    if i < |s| && IsStrippable(s[i]) then FirstKept(s, i + 1) else i
  }

  /** The position just after the last code point before `j` that is not strippable, or 0. */
  function LastKept(s: string, j: nat): (i: nat)
    requires j <= |s|
    ensures i <= j && (i == 0 || !IsStrippable(s[i - 1]))
    decreases j
  {
    if j > 0 && IsStrippable(s[j - 1]) then LastKept(s, j - 1) else j
  }

  /** `String.prototype.trimStart`: the suffix left after dropping leading white space. */
  function TrimStart(s: string): (r: string)
    ensures r == [] || !IsStrippable(r[0])
  {
    s[FirstKept(s, 0)..]
  }

  /** `String.prototype.trimEnd`: the prefix left after dropping trailing white space. */
  function TrimEnd(s: string): (r: string)
    ensures r == [] || !IsStrippable(r[|r| - 1])
  {
    s[..LastKept(s, |s|)]
  }

  /**
   * `s.trimStart().trimEnd()`: itself trimmed, and equal to `s` exactly when `s` is
   * trimmed (so trimming it again changes nothing).
   */
  function Trim(s: string): (r: string)
    ensures IsTrimmed(r)
    ensures r == s <==> IsTrimmed(s)
  {
    TrimEnd(TrimStart(s))
  }

  /** Everything `FirstKept` skips is strippable. */
  lemma {:induction false} FirstKeptSkips(s: string, i: nat)
    requires i <= |s|
    ensures forall k :: i <= k < FirstKept(s, i) ==> IsStrippable(s[k])
    decreases |s| - i
  {
    if i < |s| && IsStrippable(s[i]) {
      FirstKeptSkips(s, i + 1);
    }
  }

  /** Everything `LastKept` skips is strippable. */
  lemma {:induction false} LastKeptSkips(s: string, j: nat)
    requires j <= |s|
    ensures forall k :: LastKept(s, j) <= k < j ==> IsStrippable(s[k])
    decreases j
  {
    if j > 0 && IsStrippable(s[j - 1]) {
      LastKeptSkips(s, j - 1);
    }
  }

  /** `Trim(s)` is the slice of `s` left once strippable code points are cut from both ends. */
  lemma TrimSlice(s: string)
    ensures exists i, j :: 0 <= i <= j <= |s| && Trim(s) == s[i..j]
                           && (forall k :: 0 <= k < i ==> IsStrippable(s[k]))
                           && (forall k :: j <= k < |s| ==> IsStrippable(s[k]))
  {
    var i := FirstKept(s, 0);
    var u := s[i..];
    var e := LastKept(u, |u|);
    FirstKeptSkips(s, 0);
    LastKeptSkips(u, |u|);
    assert Trim(s) == s[i..i + e];
    assert forall k :: i + e <= k < |s| ==> s[k] == u[k - i];
  }

  /** Trimming a string leaves nothing exactly when every code point of it is strippable. */
  lemma TrimEmpty(s: string)
    ensures Trim(s) == [] <==> forall k :: 0 <= k < |s| ==> IsStrippable(s[k])
  {
    var i := FirstKept(s, 0);
    var u := s[i..];
    var e := LastKept(u, |u|);
    FirstKeptSkips(s, 0);
    LastKeptSkips(u, |u|);
  }
}
