/** Levenshtein distance: the recursive definition, its basic laws, and the
    two-row dynamic programme of both index versions. */
module EditDistance {

  function Min(a: int, b: int): int { if a <= b then a else b }

  /** The cell update of the programme: the cheaper of a deletion or an
      insertion next to a known cell (`d`, `i`), or the diagonal cell `r`
      plus one for a mismatch. */
  function Dist(r: int, d: int, i: int, eq: bool): int {
    Min(Min(d, i) + 1, r + if eq then 0 else 1)
  }

  /** Distance between the prefixes `a[..i]` and `b[..j]`: the fewest
      insertions, deletions and substitutions turning one into the other. */
  function Lev(a: string, b: string, i: nat, j: nat): nat
    requires i <= |a| && j <= |b|
    decreases i + j
  {
    if i == 0 then j
    else if j == 0 then i
    else Dist(Lev(a, b, i - 1, j - 1), Lev(a, b, i - 1, j), Lev(a, b, i, j - 1), a[i - 1] == b[j - 1])
  }

  /** Distance between two whole words. */
  function Distance(a: string, b: string): nat {
    Lev(a, b, |a|, |b|)
  }

  lemma DistSymmetric(r: int, d: int, i: int, eq: bool)
    ensures Dist(r, d, i, eq) == Dist(r, i, d, eq)
  {
  }

  lemma {:induction false} LevSymmetric(a: string, b: string, i: nat, j: nat)
    requires i <= |a| && j <= |b|
    ensures Lev(a, b, i, j) == Lev(b, a, j, i)
    decreases i + j
  {
    if i > 0 && j > 0 {
      LevSymmetric(a, b, i - 1, j);
      LevSymmetric(a, b, i, j - 1);
      LevSymmetric(a, b, i - 1, j - 1);
      LevSymmetricStep(a, b, i, j);
    }
  }

  lemma LevSymmetricStep(a: string, b: string, i: nat, j: nat)
    requires 0 < i <= |a| && 0 < j <= |b|
    requires Lev(a, b, i - 1, j) == Lev(b, a, j, i - 1) && Lev(a, b, i, j - 1) == Lev(b, a, j - 1, i)
    requires Lev(a, b, i - 1, j - 1) == Lev(b, a, j - 1, i - 1)
    ensures Lev(a, b, i, j) == Lev(b, a, j, i)
  {
    DistSymmetric(Lev(a, b, i - 1, j - 1), Lev(a, b, i - 1, j), Lev(a, b, i, j - 1), a[i - 1] == b[j - 1]);
  }

  /** The distance does not depend on the order of the words. */
  lemma DistanceSymmetric(a: string, b: string)
    ensures Distance(a, b) == Distance(b, a)
  {
    LevSymmetric(a, b, |a|, |b|);
  }

  lemma {:induction false} LevLowerBound(a: string, b: string, i: nat, j: nat)
    requires i <= |a| && j <= |b|
    ensures Lev(a, b, i, j) >= i - j && Lev(a, b, i, j) >= j - i
    decreases i + j
  {
    if i > 0 && j > 0 {
      LevLowerBound(a, b, i - 1, j);
      LevLowerBound(a, b, i, j - 1);
      LevLowerBound(a, b, i - 1, j - 1);
    }
  }

  lemma {:induction false} LevUpperBound(a: string, b: string, i: nat, j: nat)
    requires i <= |a| && j <= |b|
    ensures Lev(a, b, i, j) <= if i <= j then j else i
    decreases i + j
  {
    if i > 0 && j > 0 {
      LevUpperBound(a, b, i - 1, j - 1);
    }
  }

  /** The distance is at least the length difference and at most the longer length. */
  lemma DistanceBounds(a: string, b: string)
    ensures Distance(a, b) >= |a| - |b| && Distance(a, b) >= |b| - |a|
    ensures Distance(a, b) <= if |a| <= |b| then |b| else |a|
  {
    LevLowerBound(a, b, |a|, |b|);
    LevUpperBound(a, b, |a|, |b|);
  }

  lemma {:induction false} LevSame(a: string, i: nat)
    requires i <= |a|
    ensures Lev(a, a, i, i) == 0
    decreases i
  {
    if i > 0 {
      LevSame(a, i - 1);
    }
  }

  /** Zero exactly for equal words. */
  lemma DistanceZeroIff(a: string, b: string)
    ensures Distance(a, b) == 0 <==> a == b
  {
    if a == b {
      LevSame(a, |a|);
    } else if Distance(a, b) == 0 {
      LevZero(a, b, |a|, |b|);
    }
  }

  lemma {:induction false} LevZero(a: string, b: string, i: nat, j: nat)
    requires i <= |a| && j <= |b|
    requires Lev(a, b, i, j) == 0
    ensures i == j && a[..i] == b[..j]
    decreases i + j
  {
    if i > 0 && j > 0 {
      LevLowerBound(a, b, i - 1, j);
      LevLowerBound(a, b, i, j - 1);
      LevZero(a, b, i - 1, j - 1);
      assert a[..i] == a[..i - 1] + [a[i - 1]];
      assert b[..j] == b[..j - 1] + [b[j - 1]];
    }
  }

  /** Against the empty word the distance is the other word's length. */
  lemma DistanceFromEmpty(b: string)
    ensures Distance("", b) == |b| && Distance(b, "") == |b|
  {
  }

  /** The row of distances between all prefixes of `a` and `b[..j]`. */
  ghost predicate IsRow(a: string, b: string, j: nat, row: seq<int>)
    requires j <= |b|
  {
    |row| == |a| + 1 && forall i :: 0 <= i <= |a| ==> row[i] == Lev(a, b, i, j)
  }

  /** The rolling-rows programme with the shorter word along the row: row
      entry `w1 + 1` of the new row is computed from entries `w1` and
      `w1 + 1` of the old one. */
  method EditDistanceRows(word1: string, word2: string) returns (d: int)
    ensures d == Distance(word1, word2)
    decreases if |word1| > |word2| then 1 else 0
  {
    if |word1| > |word2| {
      d := EditDistanceRows(word2, word1);
      DistanceSymmetric(word1, word2);
      return;
    }
    var size1 := |word1|;
    var dists: seq<int> := seq(size1 + 1, i => i);
    var w2 := 0;
    while w2 < |word2|
      invariant w2 <= |word2|
      invariant IsRow(word1, word2, w2, dists)
    {
      dists := NextRow(word1, word2, w2, dists);
      w2 := w2 + 1;
    }
    d := dists[size1];
  }

  /** The row of `word2`'s prefix of length `w2 + 1` from the previous one. */
  method NextRow(word1: string, word2: string, w2: nat, dists: seq<int>) returns (newDists: seq<int>)
    requires w2 < |word2| && IsRow(word1, word2, w2, dists)
    ensures IsRow(word1, word2, w2 + 1, newDists)
  {
    var size1 := |word1|;
    newDists := [dists[0] + 1];
    var w1 := 0;
    while w1 < size1
      invariant w1 <= size1
      invariant |newDists| == w1 + 1
      invariant forall i :: 0 <= i <= w1 ==> newDists[i] == Lev(word1, word2, i, w2 + 1)
    {
      newDists := newDists + [Dist(dists[w1], dists[w1 + 1], newDists[w1], word1[w1] == word2[w2])];
      w1 := w1 + 1;
    }
  }

  /** The same programme as written in the earlier version, which indexes
      the new row by `d1` from 1 and reads entries `d1 - 1` and `d1`. */
  method EditDistanceRowsEarly(word1: string, word2: string) returns (d: int)
    ensures d == Distance(word1, word2)
    decreases if |word1| > |word2| then 1 else 0
  {
    if |word1| > |word2| {
      d := EditDistanceRowsEarly(word2, word1);
      DistanceSymmetric(word1, word2);
      return;
    }
    var size1 := |word1|;
    var dists: seq<int> := [0];
    var i := 1;
    while i < size1 + 1
      invariant 1 <= i <= size1 + 1 && |dists| == i
      invariant forall k :: 0 <= k < i ==> dists[k] == k
    {
      dists := dists + [i];
      i := i + 1;
    }
    var w2 := 0;
    while w2 < |word2|
      invariant w2 <= |word2|
      invariant IsRow(word1, word2, w2, dists)
    {
      dists := NextRowEarly(word1, word2, w2, dists);
      w2 := w2 + 1;
    }
    d := dists[size1];
  }

  /** The next row as the earlier version computes it. */
  method NextRowEarly(word1: string, word2: string, w2: nat, dists: seq<int>) returns (newDists: seq<int>)
    requires w2 < |word2| && IsRow(word1, word2, w2, dists)
    ensures IsRow(word1, word2, w2 + 1, newDists)
  {
    var size1 := |word1|;
    newDists := [dists[0] + 1];
    var d1 := 1;
    while d1 < size1 + 1
      invariant 1 <= d1 <= size1 + 1
      invariant |newDists| == d1
      invariant forall k :: 0 <= k < d1 ==> newDists[k] == Lev(word1, word2, k, w2 + 1)
    {
      newDists := newDists + [Dist(dists[d1 - 1], dists[d1], newDists[d1 - 1], word1[d1 - 1] == word2[w2])];
      d1 := d1 + 1;
    }
  }
}
