/**
  jQuery's `$.trim`, which the blur handler uses to decide whether the
  phone-number field is blank. It strips, from both ends, the characters
  that JavaScript's `\s` class matches (white space and line terminators)
  together with U+FEFF and U+00A0.
*/
module JsString {

  /** The characters `$.trim` removes: `\s`, U+FEFF and U+00A0. */
  const TrimmedChars: set<char> := {
    '\t', '\n', '\U{B}', '\U{C}', '\r', ' ', '\U{A0}', '\U{1680}',
    '\U{2000}', '\U{2001}', '\U{2002}', '\U{2003}', '\U{2004}', '\U{2005}',
    '\U{2006}', '\U{2007}', '\U{2008}', '\U{2009}', '\U{200A}',
    '\U{2028}', '\U{2029}', '\U{202F}', '\U{205F}', '\U{3000}', '\U{FEFF}'
  }

  predicate IsTrimmed(c: char) {
    c in TrimmedChars
  }

  predicate AllTrimmed(s: string) {
    forall i :: 0 <= i < |s| ==> IsTrimmed(s[i])
  }

  /** How many characters of white space `s` starts with. */
  function LeadingSpace(s: string): (n: nat)
    ensures n <= |s|
    ensures forall i :: 0 <= i < n ==> IsTrimmed(s[i])
    ensures n < |s| ==> !IsTrimmed(s[n])
  {
    if s != [] && IsTrimmed(s[0]) then 1 + LeadingSpace(s[1..]) else 0
  }

  /** How many characters of white space `s` ends with. */
  function TrailingSpace(s: string): (n: nat)
    ensures n <= |s|
    ensures forall i :: |s| - n <= i < |s| ==> IsTrimmed(s[i])
    ensures n < |s| ==> !IsTrimmed(s[|s| - n - 1])
  {
    if s != [] && IsTrimmed(s[|s| - 1]) then 1 + TrailingSpace(s[..|s| - 1]) else 0
  }

  /** `$.trim(s)`: the text between the leading and the trailing white space. */
  function Trim(s: string): string {
    var t := s[LeadingSpace(s)..];
    t[..|t| - TrailingSpace(t)]
  }

  /** The blur handler's test `$.trim(value)` is falsy exactly for these values. */
  predicate IsBlank(s: string) {
    Trim(s) == ""
  }

  /**
    What `$.trim` keeps is the part of the input between its white-space
    ends: the input is that part with white space before and after it, and
    the part neither starts nor ends with white space.
  */
  lemma TrimIsCore(s: string)
    ensures exists i, j :: (0 <= i <= j <= |s| && Trim(s) == s[i..j]
                            && AllTrimmed(s[..i]) && AllTrimmed(s[j..]))
    ensures Trim(s) != [] ==> !IsTrimmed(Trim(s)[0]) && !IsTrimmed(Trim(s)[|Trim(s)| - 1])
  {
    var i := LeadingSpace(s);
    var t := s[i..];
    var j := |s| - TrailingSpace(t);
    assert Trim(s) == s[i..j];
    assert forall k :: j <= k < |s| ==> s[k] == t[k - i];
    assert AllTrimmed(s[..i]) && AllTrimmed(s[j..]);
  }

  /** A value is blank exactly when every character of it is white space. */
  lemma BlankIffAllWhiteSpace(s: string)
    ensures IsBlank(s) <==> AllTrimmed(s)
  {
    var i := LeadingSpace(s);
    var t := s[i..];
    assert t != [] ==> t[0] == s[i];
    assert t != [] ==> TrailingSpace(t) < |t|;
  }
}
