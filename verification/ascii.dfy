/** Character classes of the C locale (`isalpha`, `isalnum`, `tolower`) over
    ASCII, and the lower-casing of whole words that the index applies to
    every keyword it stores or looks up. */
module Ascii {


  predicate IsUpper(c: char) { 'A' <= c <= 'Z' }

  predicate IsLowerLetter(c: char) { 'a' <= c <= 'z' }

  predicate IsAlpha(c: char) { IsUpper(c) || IsLowerLetter(c) }

  predicate IsDigit(c: char) { '0' <= c <= '9' }

  predicate IsAlnum(c: char) { IsAlpha(c) || IsDigit(c) }

  /** `::tolower` in the C locale: only 'A'..'Z' change. */
  function ToLower(c: char): (r: char)
    ensures IsUpper(c) ==> IsLowerLetter(r) && r as int == c as int + 32
    ensures !IsUpper(c) ==> r == c
    ensures IsAlpha(r) <==> IsAlpha(c)
    ensures IsAlnum(r) <==> IsAlnum(c)
  {
    if IsUpper(c) then (c as int + 32) as char else c
  }

  /** `std::transform(..., ::tolower)` over a whole string. */
  function Lower(s: string): (r: string)
    ensures |r| == |s|
    ensures forall i :: 0 <= i < |s| ==> r[i] == ToLower(s[i])
  {
    seq(|s|, i requires 0 <= i < |s| => ToLower(s[i]))
  }

  /** A word with no upper-case letter: the form in which keyword names are kept. */
  predicate IsLowerWord(s: string) {
    forall i :: 0 <= i < |s| ==> !IsUpper(s[i])
  }

  predicate HasAlpha(s: string) {
    exists i :: 0 <= i < |s| && IsAlpha(s[i])
  }

  lemma LowerIsLowerWord(s: string)
    ensures IsLowerWord(Lower(s))
    ensures Lower(s) == s <==> IsLowerWord(s)
  {
    if IsLowerWord(s) {
      assert forall i :: 0 <= i < |s| ==> Lower(s)[i] == s[i];
    } else {
      var i :| 0 <= i < |s| && IsUpper(s[i]);
      assert Lower(s)[i] != s[i];
    }
  }

  /** Lower-casing twice is lower-casing once, which is why `Items("Tesla")`
      and `Items("tesla")` look up the same entry. */
  lemma LowerIdempotent(s: string)
    ensures Lower(Lower(s)) == Lower(s)
  {
    LowerIsLowerWord(s);
    LowerIsLowerWord(Lower(s));
  }

  /** Lower-casing neither creates nor destroys letters. */
  lemma LowerKeepsAlpha(s: string)
    ensures HasAlpha(Lower(s)) <==> HasAlpha(s)
  {
    if HasAlpha(s) {
      var i :| 0 <= i < |s| && IsAlpha(s[i]);
      assert IsAlpha(Lower(s)[i]);
    }
    if HasAlpha(Lower(s)) {
      var i :| 0 <= i < |s| && IsAlpha(Lower(s)[i]);
      assert IsAlpha(s[i]);
    }
  }

  lemma LowerAppend(a: string, b: string)
    ensures Lower(a + b) == Lower(a) + Lower(b)
  {
  }
}
