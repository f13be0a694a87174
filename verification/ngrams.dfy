/** Boundary-padded n-grams of a word, of the wildcard-separated parts of a
    query, and the earlier n-gram routine that leaves slots unfilled. */
module NGramming {
  import opened Wrappers

  /** The word with the boundary marker `#` on both sides. */
  function Padded(w: string): (p: string)
    ensures |p| == |w| + 2
  {
    "#" + w + "#"
  }

  /** Number of n-grams the routine aims for: `|w| - n + 3`. */
  function Count(w: string, n: nat): int {
    |w| - n + 3
  }

  /** All n-grams of `w`: `"#" + w[..n-1]`, the inner windows `w[i..i+n]`,
      then `w[|w|-n+1..] + "#"`; nothing when fewer than two would result.
      The count is computed in an unsigned type, so an `n` above `|w| + 3`
      wraps around; such calls are excluded. */
  function NGrams(w: string, n: nat): (r: seq<string>)
    requires 2 <= n <= |w| + 3
    ensures |r| == if Count(w, n) < 2 then 0 else Count(w, n)
    ensures forall i :: 0 <= i < |r| ==> |r[i]| == n
  {
    var c := Count(w, n);
    if c < 2 then []
    else
      ["#" + w[..n - 1]] + seq(c - 2, i requires 0 <= i < c - 2 => w[i..i + n]) + [w[c - 2..] + "#"]
  }

  /** The n-grams are exactly the length-`n` windows of the padded word. */
  lemma NGramsAreWindows(w: string, n: nat, i: nat)
    requires 2 <= n <= |w| + 3
    requires i < |NGrams(w, n)|
    ensures NGrams(w, n)[i] == Padded(w)[i..i + n]
  {
    var r := NGrams(w, n);
    var c := Count(w, n);
    var p := Padded(w);
    if i == 0 {
      assert r[0] == "#" + w[..n - 1];
      assert p[0..n] == "#" + w[..n - 1];
    } else if i == c - 1 {
      assert r[i] == w[c - 2..] + "#";
      assert p[i..i + n] == w[c - 2..] + "#";
    } else {
      assert r[i] == w[i - 1..i - 1 + n];
      assert p[i..i + n] == w[i - 1..i - 1 + n];
    }
  }

  /** A word produces n-grams exactly when its padded form is longer than one
      n-gram; in particular every word of at least `n - 1` characters does. */
  lemma NGramsNonEmptyIff(w: string, n: nat)
    requires 2 <= n <= |w| + 3
    ensures |NGrams(w, n)| > 0 <==> |Padded(w)| > n
    ensures |w| + 1 >= n ==> |NGrams(w, n)| >= 2
  {
  }

  /** The n-grams of the wildcard-separated query parts, in order: every
      part's n-grams, except that a part's leading `#` n-gram is dropped
      unless it is the first part and its trailing `#` n-gram is dropped
      unless it is the last part. Parts without n-grams contribute nothing. */
  function NGramsOfParts(words: seq<string>, n: nat): (r: seq<string>)
    requires 2 <= n
    requires forall k :: 0 <= k < |words| ==> n <= |words[k]| + 3
    ensures forall i :: 0 <= i < |r| ==> |r[i]| == n
  {
    PartsFrom(words, n, 0)
  }

  /** The contribution of part `k`. */
  function PartNGrams(words: seq<string>, n: nat, k: nat): (r: seq<string>)
    requires 2 <= n && k < |words| && n <= |words[k]| + 3
    ensures forall i :: 0 <= i < |r| ==> |r[i]| == n
  {
    var g := NGrams(words[k], n);
    if |g| == 0 then []
    else
      var lo := if k != 0 then 1 else 0;
      var hi := if k != |words| - 1 then |g| - 1 else |g|;
      if lo < hi then g[lo..hi] else []
  }

  function PartsFrom(words: seq<string>, n: nat, k: nat): (r: seq<string>)
    requires 2 <= n && k <= |words|
    requires forall j :: 0 <= j < |words| ==> n <= |words[j]| + 3
    ensures forall i :: 0 <= i < |r| ==> |r[i]| == n
    decreases |words| - k
  {
    if k == |words| then [] else PartNGrams(words, n, k) + PartsFrom(words, n, k + 1)
  }

  /** A query without wildcards has the n-grams of its only word. */
  lemma SinglePart(w: string, n: nat)
    requires 2 <= n <= |w| + 3
    ensures NGramsOfParts([w], n) == NGrams(w, n)
  {
    var g := NGrams(w, n);
    assert PartsFrom([w], n, 1) == [];
    if |g| > 0 {
      assert g[0..|g|] == g;
    }
  }

  /** An inner part of at least `n + 1` characters keeps exactly its
      windows that lie inside the word, without the `#` boundary ones. */
  lemma InnerPartDropsBoundaries(words: seq<string>, n: nat, k: nat)
    requires 2 <= n && 0 < k < |words| - 1 && n <= |words[k]| + 3
    requires |words[k]| >= n - 1
    ensures var g := NGrams(words[k], n);
      PartNGrams(words, n, k) == g[1..|g| - 1]
  {
    NGramsNonEmptyIff(words[k], n);
  }

  /** The n-grams produced for a part all come from that part's n-grams. */
  lemma PartsFromSound(words: seq<string>, n: nat, k: nat, i: nat)
    requires 2 <= n && k <= |words|
    requires forall j :: 0 <= j < |words| ==> n <= |words[j]| + 3
    requires i < |PartsFrom(words, n, k)|
    ensures exists j :: k <= j < |words| && PartsFrom(words, n, k)[i] in NGrams(words[j], n)
    decreases |words| - k
  {
    var here := PartNGrams(words, n, k);
    var rest := PartsFrom(words, n, k + 1);
    assert PartsFrom(words, n, k) == here + rest;
    if i < |here| {
      var g := NGrams(words[k], n);
      assert here[i] in g;
    } else {
      PartsFromSound(words, n, k + 1, i - |here|);
      assert PartsFrom(words, n, k)[i] == rest[i - |here|];
    }
  }

  /** The earlier n-gram routine, with its assertions as `None`: it sizes the
      result to `|w| - n + 3` slots of `""`, writes the `#` n-grams to the
      first and last slot, and fills only the inner slots `1 .. c - n - 1`
      where `c` is the slot count. */
  function NGramsEarly(w: string, n: int): (r: Option<seq<string>>)
    ensures r.Some? <==> n > 1 && |w| - n + 3 > 1 && |w| > 1
    ensures r.Some? ==> |r.value| == |w| - n + 3
  {
    var c := |w| - n + 3;
    if n <= 1 || c <= 1 || |w| <= 1 then None
    else
      Some(seq(c, i requires 0 <= i < c =>
        if i == 0 then "#" + w[..n - 1]
        else if i == c - 1 then w[|w| - n + 1..] + "#"
        else if i < c - n then w[i - 1..i - 1 + n]
        else ""))
  }

  /** Whenever the word is at least `n` long, the slot just before the last
      stays empty, where the padded windows have an n-gram of length `n`. */
  lemma NGramsEarlyLeavesGap(w: string, n: nat)
    requires 2 <= n <= |w|
    ensures NGramsEarly(w, n).Some?
    ensures var r := NGramsEarly(w, n).value;
      r[|r| - 2] == "" && |NGrams(w, n)[|r| - 2]| == n
  {
  }

  /** The example word of the n-gram tests: the earlier routine gives
      `#ha, hal, "", "", lo#` where `#ha, hal, all, llo, lo#` is expected. */
  lemma NGramsEarlyHallo()
    ensures NGramsEarly("hallo", 3) == Some(["#ha", "hal", "", "", "lo#"])
    ensures NGrams("hallo", 3) == ["#ha", "hal", "all", "llo", "lo#"]
  {
    var r := NGramsEarly("hallo", 3).value;
    assert r[0] == "#ha" && r[1] == "hal" && r[4] == "lo#";
    assert r == ["#ha", "hal", "", "", "lo#"];
    var g := NGrams("hallo", 3);
    assert g[1] == "hal" && g[2] == "all" && g[3] == "llo";
    assert g == ["#ha", "hal", "all", "llo", "lo#"];
  }

  /** On the slots it does fill, the earlier routine agrees with `NGrams`. */
  lemma NGramsEarlyAgreesWhereFilled(w: string, n: nat, i: nat)
    requires 2 <= n <= |w| + 1 && |w| > 1
    requires i < |w| - n + 3
    requires i == 0 || i == |w| - n + 2 || i < |w| - 2 * n + 3
    ensures NGramsEarly(w, n).Some?
    ensures NGramsEarly(w, n).value[i] == NGrams(w, n)[i]
  {
    var r := NGramsEarly(w, n).value;
    var g := NGrams(w, n);
    var c := |w| - n + 3;
    if i == c - 1 {
      assert g[i] == w[c - 2..] + "#";
    } else if i > 0 {
      assert g[i] == w[i - 1..i - 1 + n];
    }
  }
}
