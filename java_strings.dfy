/**
  The few java.lang.String operations the kill lifecycle relies on:
  `trim().isEmpty()`, `toUpperCase()` and `equalsIgnoreCase`.
  Case mapping is modelled for the ASCII letters only.
 */
module JavaStrings {

  /** How many leading characters `trim()` cuts: those at most U+0020. */
  function LeadingBlanks(s: string): (n: nat)
    ensures n <= |s|
    ensures forall k :: 0 <= k < n ==> s[k] <= ' '
    ensures n == |s| || s[n] > ' '
  {
    if s == [] || s[0] > ' ' then 0 else 1 + LeadingBlanks(s[1..])
  }

  /** Where the part `trim()` keeps at the back ends: after it come only
      characters at most U+0020. */
  function TrailingStart(s: string): (m: nat)
    ensures m <= |s|
    ensures forall k :: m <= k < |s| ==> s[k] <= ' '
    ensures m == 0 || s[m - 1] > ' '
  {
    if s == [] || s[|s| - 1] > ' ' then |s| else TrailingStart(s[..|s| - 1])
  }

  /** `s.trim()`: the slice of `s` left after cutting off the characters at
      most U+0020 at both ends; what is left starts and ends with a
      character above U+0020. */
  function Trim(s: string): (t: string)
    ensures |t| <= |s|
    ensures t == [] || (t[0] > ' ' && t[|t| - 1] > ' ')
    ensures var i := LeadingBlanks(s);
      && i + |t| <= |s| && t == s[i..i + |t|]
      && (forall k :: 0 <= k < i ==> s[k] <= ' ')
      && (forall k :: i + |t| <= k < |s| ==> s[k] <= ' ')
  {
    var i, j := LeadingBlanks(s), TrailingStart(s);
    if i < j then s[i..j] else []
  }

  /** `s.trim().isEmpty()`, stated directly: every character of `s` is at
      most U+0020. */
  predicate IsBlank(s: string) {
    forall i :: 0 <= i < |s| ==> s[i] <= ' '
  }

  /** The direct statement agrees with trimming and testing for empty. */
  lemma IsBlankIsTrimEmpty(s: string)
    ensures IsBlank(s) <==> Trim(s) == []
  {
  }

  predicate IsLowerAscii(c: char) {
    'a' <= c <= 'z'
  }

  function UpperChar(c: char): (u: char)
    ensures !IsLowerAscii(u)
    ensures IsLowerAscii(c) ==> u as int == c as int - 32
    ensures !IsLowerAscii(c) ==> u == c
  {
    if IsLowerAscii(c) then (c as int - 32) as char else c
  }

  /** `s.toUpperCase()` restricted to ASCII letters. */
  function ToUpper(s: string): (u: string)
    ensures |u| == |s|
    ensures forall i :: 0 <= i < |u| ==> !IsLowerAscii(u[i])
    ensures forall i :: 0 <= i < |u| ==> u[i] == UpperChar(s[i])
  {
    seq(|s|, i requires 0 <= i < |s| => UpperChar(s[i]))
  }

  /** `a.equalsIgnoreCase(b)` for a non-null `b`: same length and equal
      characters after case mapping, which is comparing the upper-cased
      strings. */
  predicate EqualsIgnoreCase(a: string, b: string)
    ensures EqualsIgnoreCase(a, b) <==> ToUpper(a) == ToUpper(b)
  {
    |a| == |b| && forall i :: 0 <= i < |a| ==> UpperChar(a[i]) == UpperChar(b[i])
  }
}
