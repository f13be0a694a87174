/** Splitting a string into delimiter-separated tokens, the way the query
    processors cut a query into keywords: jump to the first non-delimiter,
    take everything up to the next delimiter, repeat. */
module Splitting {
  /** The delimiters queries are split on: newline, carriage return, tab, space. */
  const Whitespace: string := "\n\r\t "

  /** A token: non-empty and free of delimiters. */
  predicate IsToken(w: string, delims: string) {
    |w| > 0 && forall k :: 0 <= k < |w| ==> w[k] !in delims
  }

  /** First index at or after `i` that is not a delimiter; `|s|` plays npos. */
  function SkipDelims(s: string, delims: string, i: nat): (j: nat)
    requires i <= |s|
    ensures i <= j <= |s|
    ensures forall k :: i <= k < j ==> s[k] in delims
    ensures j < |s| ==> s[j] !in delims
    decreases |s| - i
  {
    if i < |s| && s[i] in delims then SkipDelims(s, delims, i + 1) else i
  }

  /** First index at or after `i` that is a delimiter; `|s|` plays npos. */
  function FindDelim(s: string, delims: string, i: nat): (j: nat)
    requires i <= |s|
    ensures i <= j <= |s|
    ensures forall k :: i <= k < j ==> s[k] !in delims
    ensures j < |s| ==> s[j] in delims
    decreases |s| - i
  {
    if i < |s| && s[i] !in delims then FindDelim(s, delims, i + 1) else i
  }

  /** The split loop, entered with the position it resumes searching from. */
  function SplitAt(s: string, delims: string, pos: nat): (r: seq<string>)
    requires pos <= |s|
    ensures forall t :: 0 <= t < |r| ==> IsToken(r[t], delims)
    decreases |s| - pos
  {
    var p := SkipDelims(s, delims, pos);
    if p == |s| then []
    else
      var e := FindDelim(s, delims, p);
      [s[p..e]] + SplitAt(s, delims, e)
  }

  /** The tokens of `s`, in order. */
  function Split(s: string, delims: string): (r: seq<string>)
    ensures forall t :: 0 <= t < |r| ==> IsToken(r[t], delims)
  {
    SplitAt(s, delims, 0)
  }

  /** A string with no token splits into nothing, and only such a string does. */
  lemma SplitEmptyIff(s: string, delims: string)
    ensures Split(s, delims) == [] <==> forall k :: 0 <= k < |s| ==> s[k] in delims
  {
    var p := SkipDelims(s, delims, 0);
    if p < |s| {
      assert Split(s, delims) != [];
    }
  }

  /** A single token splits into itself. */
  lemma SplitToken(w: string, delims: string)
    requires IsToken(w, delims)
    ensures Split(w, delims) == [w]
  {
    assert SkipDelims(w, delims, 0) == 0;
    var e := FindDelim(w, delims, 0);
    assert e == |w|;
    assert w[0..e] == w;
    assert SkipDelims(w, delims, e) == |w|;
    assert SplitAt(w, delims, e) == [];
    assert SplitAt(w, delims, 0) == [w[0..e]] + SplitAt(w, delims, e);
  }

  /** `s` ends with `b`, which starts at offset `off`. */
  predicate EndsWith(s: string, off: nat, b: string) {
    off + |b| == |s| && forall k :: 0 <= k < |b| ==> s[off + k] == b[k]
  }

  lemma SliceShift(s: string, off: nat, b: string, p: nat, e: nat)
    requires EndsWith(s, off, b) && p <= e <= |b|
    ensures s[off + p..off + e] == b[p..e]
  {
    var t := s[off + p..off + e];
    assert forall k :: 0 <= k < e - p ==> t[k] == b[p + k];
  }

  lemma ShiftSkip(s: string, off: nat, b: string, delims: string, j: nat)
    requires EndsWith(s, off, b) && j <= |b|
    ensures SkipDelims(s, delims, off + j) == off + SkipDelims(b, delims, j)
    decreases |b| - j
  {
    if j < |b| {
      ShiftSkip(s, off, b, delims, j + 1);
    }
  }

  lemma ShiftFind(s: string, off: nat, b: string, delims: string, j: nat)
    requires EndsWith(s, off, b) && j <= |b|
    ensures FindDelim(s, delims, off + j) == off + FindDelim(b, delims, j)
    decreases |b| - j
  {
    if j < |b| {
      ShiftFind(s, off, b, delims, j + 1);
    }
  }

  /** What lies before a position does not affect the split from it on. */
  lemma {:induction false} ShiftSplit(s: string, off: nat, b: string, delims: string, j: nat)
    requires EndsWith(s, off, b) && j <= |b|
    ensures SplitAt(s, delims, off + j) == SplitAt(b, delims, j)
    decreases |b| - j
  {
    ShiftSkip(s, off, b, delims, j);
    var p := SkipDelims(b, delims, j);
    if p < |b| {
      ShiftFind(s, off, b, delims, p);
      var e := FindDelim(b, delims, p);
      SliceShift(s, off, b, p, e);
      ShiftSplit(s, off, b, delims, e);
      SplitAtAgree(s, off, b, delims, j, p, e);
    }
  }

  /** Splits whose first tokens agree and whose rests agree are equal. */
  lemma SplitAtAgree(s: string, off: nat, b: string, delims: string, j: nat, p: nat, e: nat)
    requires off + |b| == |s| && j <= |b|
    requires p == SkipDelims(b, delims, j) < |b| && SkipDelims(s, delims, off + j) == off + p
    requires e == FindDelim(b, delims, p) && FindDelim(s, delims, off + p) == off + e
    requires s[off + p..off + e] == b[p..e] && SplitAt(s, delims, off + e) == SplitAt(b, delims, e)
    ensures SplitAt(s, delims, off + j) == SplitAt(b, delims, j)
  {
  }

  lemma SkipConcat(a: string, d: char, b: string, delims: string, p: nat)
    requires d in delims && p <= |a|
    ensures var q := SkipDelims(a, delims, p);
      SkipDelims(a + [d] + b, delims, p)
      == if q < |a| then q else |a| + 1 + SkipDelims(b, delims, 0)
    decreases |a| - p
  {
    var s := a + [d] + b;
    if p < |a| {
      assert s[p] == a[p];
      if a[p] in delims {
        SkipConcat(a, d, b, delims, p + 1);
      }
    } else {
      assert s[p] == d;
      assert EndsWith(s, |a| + 1, b);
      ShiftSkip(s, |a| + 1, b, delims, 0);
    }
  }

  lemma FindConcat(a: string, d: char, b: string, delims: string, p: nat)
    requires d in delims && p <= |a|
    ensures FindDelim(a + [d] + b, delims, p) == FindDelim(a, delims, p)
    decreases |a| - p
  {
    var s := a + [d] + b;
    if p < |a| {
      assert s[p] == a[p];
      FindConcat(a, d, b, delims, p + 1);
    } else {
      assert s[p] == d;
    }
  }

  /** The split from `p` starts with the token from `q` to `e`. */
  lemma SplitAtToken(s: string, delims: string, p: nat, q: nat, e: nat)
    requires p <= |s| && SkipDelims(s, delims, p) == q < |s| && FindDelim(s, delims, q) == e
    ensures SplitAt(s, delims, p) == [s[q..e]] + SplitAt(s, delims, e)
  {
  }

  /** Positions whose delimiters run up to the same point split alike. */
  lemma SplitAtSameSkip(s: string, delims: string, p: nat, p': nat)
    requires p <= |s| && p' <= |s| && SkipDelims(s, delims, p) == SkipDelims(s, delims, p')
    ensures SplitAt(s, delims, p) == SplitAt(s, delims, p')
  {
  }

  lemma {:induction false} SplitAtConcat(a: string, d: char, b: string, delims: string, p: nat)
    requires d in delims && p <= |a|
    ensures SplitAt(a + [d] + b, delims, p) == SplitAt(a, delims, p) + Split(b, delims)
    decreases |a| - p
  {
    var q := SkipDelims(a, delims, p);
    if q < |a| {
      var e := FindDelim(a, delims, q);
      SplitAtConcat(a, d, b, delims, e);
      ConcatToken(a, d, b, delims, p, q, e);
    } else {
      ConcatTail(a, d, b, delims, p);
    }
  }

  /** A token of `a` comes first in the split of `a + [d] + b` too. */
  lemma ConcatToken(a: string, d: char, b: string, delims: string, p: nat, q: nat, e: nat)
    requires d in delims && p <= |a| && SkipDelims(a, delims, p) == q < |a| && FindDelim(a, delims, q) == e
    requires SplitAt(a + [d] + b, delims, e) == SplitAt(a, delims, e) + Split(b, delims)
    ensures SplitAt(a + [d] + b, delims, p) == SplitAt(a, delims, p) + Split(b, delims)
  {
    var s := a + [d] + b;
    SkipConcat(a, d, b, delims, p);
    FindConcat(a, d, b, delims, q);
    SliceBefore(a, [d] + b, q, e);
    assert s == a + ([d] + b);
    SplitAtToken(s, delims, p, q, e);
    SplitAtToken(a, delims, p, q, e);
    ConsAssoc(a[q..e], SplitAt(a, delims, e), Split(b, delims));
  }

  lemma SliceBefore(a: string, c: string, q: nat, e: nat)
    requires q <= e <= |a|
    ensures (a + c)[q..e] == a[q..e]
  {
  }

  lemma ConsAssoc(t: string, ra: seq<string>, rb: seq<string>)
    ensures [t] + (ra + rb) == ([t] + ra) + rb
  {
  }

  /** Once `a` has no token left, the split goes on with `b`. */
  lemma ConcatTail(a: string, d: char, b: string, delims: string, p: nat)
    requires d in delims && p <= |a| && SkipDelims(a, delims, p) == |a|
    ensures SplitAt(a + [d] + b, delims, p) == SplitAt(a, delims, p) + Split(b, delims)
  {
    var s := a + [d] + b;
    SkipConcat(a, d, b, delims, p);
    assert SplitAt(a, delims, p) == [];
    assert EndsWith(s, |a| + 1, b);
    ShiftSkip(s, |a| + 1, b, delims, 0);
    SplitAtSameSkip(s, delims, p, |a| + 1);
    ShiftSplit(s, |a| + 1, b, delims, 0);
    assert SplitAt(s, delims, p) == SplitAt(b, delims, 0);
  }

  /** A delimiter cuts the string into two independently split halves. */
  lemma SplitConcat(a: string, d: char, b: string, delims: string)
    requires d in delims
    ensures Split(a + [d] + b, delims) == Split(a, delims) + Split(b, delims)
  {
    SplitAtConcat(a, d, b, delims, 0);
  }
}
