/** Fuzzy keyword search: the n-gram index over the keywords, and the
    approximate matching of a query, whose `*` wildcards split it into
    parts, against that index. Candidates come from the k-way union of the
    query n-grams' keyword lists, are filtered by how many n-grams they
    share with the query, and are kept when their edit distance to the
    query is within the bound. */
module Fuzzy {
  import opened Wrappers
  import opened SearchIndex
  import opened NGramming
  import opened EditDistance
  import Merging
  import Splitting

  /** `k` copies of `x`. */
  function Repeat(x: int, k: nat): (r: seq<int>)
    ensures |r| == k && forall i :: 0 <= i < k ==> r[i] == x
  {
    seq(k, i => x)
  }

  lemma RepeatAdd(x: int, a: nat, b: nat)
    ensures Repeat(x, a) + Repeat(x, b) == Repeat(x, a + b)
  {
  }

  // ----- Building the n-gram index -----------------------------------------

  /** Adds keyword `kid` under each n-gram of `gs`, in order. */
  function AddNGrams(idx: Index, kid: int, gs: seq<string>): (r: Index)
    ensures r.records == idx.records && r.keywords == idx.keywords
    ensures r.keywordIndex == idx.keywordIndex && r.numItems == idx.numItems
    ensures r.totalSize == idx.totalSize && r.ngramN == idx.ngramN
    decreases |gs|
  {
    if |gs| == 0 then idx else AddNGrams(AddNGram(idx, kid, gs[0]), kid, gs[1..])
  }

  /** Each n-gram's list grows by `kid` once per occurrence of that n-gram in
      `gs`, and the lists of other n-grams stay as they are. */
  lemma {:induction false} AddNGramsItems(idx: Index, kid: int, gs: seq<string>, g: string)
    ensures NGramItems(AddNGrams(idx, kid, gs), g) == NGramItems(idx, g) + Repeat(kid, multiset(gs)[g])
    decreases |gs|
  {
    if |gs| > 0 {
      var idx1 := AddNGram(idx, kid, gs[0]);
      AddNGramItems(idx, kid, gs[0], g);
      AddNGramsItems(idx1, kid, gs[1..], g);
      assert AddNGrams(idx, kid, gs) == AddNGrams(idx1, kid, gs[1..]);
      RepeatCons(NGramItems(idx, g), kid, gs, g);
    }
  }

  /** The step of `AddNGramsItems`: the first n-gram's posting, then those
      of the others, are the postings of all of them. */
  lemma RepeatCons(items: seq<int>, kid: int, gs: seq<string>, g: string)
    requires |gs| > 0
    ensures (items + (if g == gs[0] then [kid] else [])) + Repeat(kid, multiset(gs[1..])[g])
      == items + Repeat(kid, multiset(gs)[g])
  {
    assert gs == [gs[0]] + gs[1..];
    var here := if g == gs[0] then 1 else 0;
    assert multiset(gs)[g] == here + multiset(gs[1..])[g];
    RepeatAdd(kid, here, multiset(gs[1..])[g]);
    assert (if g == gs[0] then [kid] else []) == Repeat(kid, here);
  }

  /** Adding a keyword's n-grams keeps every n-gram list to keyword ids. */
  lemma {:induction false} AddNGramsIdsValid(idx: Index, kid: int, gs: seq<string>)
    requires NGramsValid(idx) && 0 <= kid < |idx.keywords|
    ensures NGramsValid(AddNGrams(idx, kid, gs))
    decreases |gs|
  {
    if |gs| > 0 {
      var idx1 := AddNGram(idx, kid, gs[0]);
      assert NGramsValid(idx1);
      AddNGramsIdsValid(idx1, kid, gs[1..]);
    }
  }

  /** Every keyword from `lo` on is long enough for n-grams of size `n`:
      the n-gram count `|name| - n + 3`, computed unsigned, does not wrap. */
  ghost predicate FitsFrom(ks: seq<Keyword>, n: int, lo: nat) {
    forall k :: lo <= k < |ks| ==> n <= |ks[k].name| + 3
  }

  /** The loop of `BuildNGrams` from keyword `kid` on. `None` where taking
      the n-grams of a keyword shorter than `n - 3` fails. */
  function BuildFrom(idx: Index, n: int, kid: nat): (r: Option<Index>)
    requires 2 <= n && kid <= |idx.keywords|
    ensures r.Some? ==> r.value.records == idx.records && r.value.keywords == idx.keywords
    ensures r.Some? ==> r.value.keywordIndex == idx.keywordIndex && r.value.numItems == idx.numItems
    ensures r.Some? ==> r.value.totalSize == idx.totalSize && r.value.ngramN == idx.ngramN
    decreases |idx.keywords| - kid
  {
    if kid == |idx.keywords| then Some(idx)
    else
      var name := idx.keywords[kid].name;
      if |name| + 3 < n then None
      else BuildFrom(AddNGrams(idx, kid, NGrams(name, n)), n, kid + 1)
  }

  /** Sets the n-gram size and adds every keyword under each of its n-grams.
      `None` where the size assertion `n > 1` fails or a keyword is too
      short for the size. */
  function BuildNGrams(idx: Index, n: int): (r: Option<Index>)
    ensures r.Some? ==> r.value.ngramN == n && r.value.keywords == idx.keywords
  {
    if n <= 1 then None else BuildFrom(idx.(ngramN := n), n, 0)
  }

  /** How often `g` is among the n-grams of keyword `x`. */
  function Mult(ks: seq<Keyword>, n: int, g: string, x: nat): nat
    requires 2 <= n && x < |ks| && n <= |ks[x].name| + 3
  {
    multiset(NGrams(ks[x].name, n))[g]
  }

  /** Reference postings of n-gram `g`: the keyword ids from `lo` on in
      ascending order, each repeated as often as `g` is among its n-grams. */
  function Postings(ks: seq<Keyword>, n: int, g: string, lo: nat): seq<int>
    requires 2 <= n && lo <= |ks| && FitsFrom(ks, n, lo)
    decreases |ks| - lo
  {
    if lo == |ks| then [] else Repeat(lo, Mult(ks, n, g, lo)) + Postings(ks, n, g, lo + 1)
  }

  /** One keyword of the loop and of the reference. */
  lemma BuildFromStep(idx: Index, n: int, kid: nat, g: string)
    requires 2 <= n && kid < |idx.keywords| && n <= |idx.keywords[kid].name| + 3
    ensures var gs := NGrams(idx.keywords[kid].name, n);
      BuildFrom(idx, n, kid) == BuildFrom(AddNGrams(idx, kid, gs), n, kid + 1)
    ensures FitsFrom(idx.keywords, n, kid) <==> FitsFrom(idx.keywords, n, kid + 1)
  {
  }

  lemma PostingsStep(ks: seq<Keyword>, n: int, g: string, lo: nat)
    requires 2 <= n && lo < |ks| && FitsFrom(ks, n, lo)
    ensures Postings(ks, n, g, lo) == Repeat(lo, Mult(ks, n, g, lo)) + Postings(ks, n, g, lo + 1)
  {
  }

  /** The loop appends exactly the reference postings to every n-gram list. */
  lemma {:induction false} BuildFromCorrect(idx: Index, n: int, kid: nat, g: string)
    requires 2 <= n && kid <= |idx.keywords|
    ensures BuildFrom(idx, n, kid).Some? <==> FitsFrom(idx.keywords, n, kid)
    ensures BuildFrom(idx, n, kid).Some? ==>
      NGramItems(BuildFrom(idx, n, kid).value, g) == NGramItems(idx, g) + Postings(idx.keywords, n, g, kid)
    decreases |idx.keywords| - kid
  {
    if kid < |idx.keywords| {
      var name := idx.keywords[kid].name;
      if |name| + 3 >= n {
        var gs := NGrams(name, n);
        var idx1 := AddNGrams(idx, kid, gs);
        BuildFromStep(idx, n, kid, g);
        BuildFromCorrect(idx1, n, kid + 1, g);
        if BuildFrom(idx1, n, kid + 1).Some? {
          BuildFromAppends(idx, n, kid, g, gs, idx1, BuildFrom(idx1, n, kid + 1).value);
        }
      }
    }
  }

  /** The step of `BuildFromCorrect` where the rest of the loop succeeds:
      this keyword's postings come before those of the later keywords. */
  lemma BuildFromAppends(idx: Index, n: int, kid: nat, g: string, gs: seq<string>, idx1: Index, r: Index)
    requires 2 <= n && kid < |idx.keywords| && n <= |idx.keywords[kid].name| + 3
    requires gs == NGrams(idx.keywords[kid].name, n) && idx1 == AddNGrams(idx, kid, gs)
    requires FitsFrom(idx.keywords, n, kid)
    requires NGramItems(r, g) == NGramItems(idx1, g) + Postings(idx1.keywords, n, g, kid + 1)
    ensures NGramItems(r, g) == NGramItems(idx, g) + Postings(idx.keywords, n, g, kid)
  {
    AddNGramsItems(idx, kid, gs, g);
    PostingsStep(idx.keywords, n, g, kid);
    assert idx1.keywords == idx.keywords;
    var here := Repeat(kid, Mult(idx.keywords, n, g, kid));
    assert NGramItems(idx1, g) == NGramItems(idx, g) + here;
    var rest := Postings(idx.keywords, n, g, kid + 1);
    assert NGramItems(r, g) == (NGramItems(idx, g) + here) + rest;
    SeqAssoc(NGramItems(idx, g), here, rest);
  }

  lemma SeqAssoc(a: seq<int>, b: seq<int>, c: seq<int>)
    ensures (a + b) + c == a + (b + c)
  {
  }

  lemma BuildFromValid(idx: Index, n: int, kid: nat)
    requires 2 <= n && kid <= |idx.keywords| && Valid(idx)
    ensures BuildFrom(idx, n, kid).Some? ==> Valid(BuildFrom(idx, n, kid).value)
  {
    BuildFromIdsValid(idx, n, kid);
    if BuildFrom(idx, n, kid).Some? {
      ValidFromNGrams(idx, BuildFrom(idx, n, kid).value);
    }
  }

  /** The build loop keeps every n-gram list to keyword ids. */
  lemma {:induction false} BuildFromIdsValid(idx: Index, n: int, kid: nat)
    requires 2 <= n && kid <= |idx.keywords| && NGramsValid(idx)
    ensures BuildFrom(idx, n, kid).Some? ==> NGramsValid(BuildFrom(idx, n, kid).value)
    decreases |idx.keywords| - kid
  {
    if kid < |idx.keywords| {
      var name := idx.keywords[kid].name;
      if |name| + 3 >= n {
        var idx' := AddNGrams(idx, kid, NGrams(name, n));
        AddNGramsIdsValid(idx, kid, NGrams(name, n));
        BuildFromIdsValid(idx', n, kid + 1);
        assert BuildFrom(idx, n, kid) == BuildFrom(idx', n, kid + 1);
      }
    }
  }

  /** Only the n-gram lists differ: the index stays valid when they hold
      keyword ids. */
  lemma ValidFromNGrams(idx: Index, r: Index)
    requires Valid(idx) && NGramsValid(r)
    requires r.records == idx.records && r.keywords == idx.keywords && r.keywordIndex == idx.keywordIndex
    requires r.numItems == idx.numItems && r.totalSize == idx.totalSize
    ensures Valid(r)
  {
  }

  /** The reference postings are ascending keyword ids from `lo` on, and a
      keyword is listed exactly when `g` is one of its n-grams. */
  lemma {:induction false} PostingsSorted(ks: seq<Keyword>, n: int, g: string, lo: nat)
    requires 2 <= n && lo <= |ks| && FitsFrom(ks, n, lo)
    ensures Merging.Sorted(Postings(ks, n, g, lo))
    ensures forall x :: x in Postings(ks, n, g, lo) <==> lo <= x < |ks| && Mult(ks, n, g, x) > 0
    decreases |ks| - lo
  {
    if lo < |ks| {
      PostingsSorted(ks, n, g, lo + 1);
      PostingsStep(ks, n, g, lo);
      SortedBlock(lo, Mult(ks, n, g, lo), Postings(ks, n, g, lo + 1));
    }
  }

  /** A block of copies of `x` before a sorted list of larger values. */
  lemma SortedBlock(x: int, k: nat, rest: seq<int>)
    requires Merging.Sorted(rest) && forall y :: y in rest ==> x < y
    ensures Merging.Sorted(Repeat(x, k) + rest)
    ensures forall y :: y in Repeat(x, k) + rest <==> (k > 0 && y == x) || y in rest
  {
    var s := Repeat(x, k) + rest;
    forall i, j | 0 <= i < j < |s| ensures s[i] <= s[j] {
      if j >= k {
        assert s[j] == rest[j - k] && rest[j - k] in rest;
        if i >= k {
          assert s[i] == rest[i - k];
        }
      }
    }
    if k > 0 {
      assert Repeat(x, k)[0] == x;
    }
    assert forall y :: y in s <==> y in Repeat(x, k) || y in rest;
  }

  /** N-gram lists that `Union` can merge: each non-decreasing. */
  ghost predicate NGramListsSorted(idx: Index) {
    forall g :: g in idx.ngramIndex ==> Merging.Sorted(idx.ngramIndex[g])
  }

  /** Building the n-grams succeeds exactly when `n > 1` and every keyword
      is at least `n - 3` long, and keeps the index valid. */
  lemma BuildNGramsCorrect(idx: Index, n: int)
    requires Valid(idx)
    ensures BuildNGrams(idx, n).Some? <==> n > 1 && FitsFrom(idx.keywords, n, 0)
    ensures BuildNGrams(idx, n).Some? ==> Valid(BuildNGrams(idx, n).value)
  {
    if n > 1 {
      var idx0 := idx.(ngramN := n);
      assert Valid(idx0);
      BuildFromValid(idx0, n, 0);
      BuildFromCorrect(idx0, n, 0, "");
    }
  }

  /** Built into an empty n-gram index, every list holds ascending keyword
      ids, and lists keyword `x` exactly when the n-gram is among `x`'s. */
  lemma BuildNGramsLists(idx: Index, n: int, g: string)
    requires BuildNGrams(idx, n).Some? && idx.ngramIndex == map[]
    ensures var r := BuildNGrams(idx, n).value;
      && Merging.Sorted(NGramItems(r, g))
      && forall x :: x in NGramItems(r, g) <==>
           0 <= x < |idx.keywords| && n <= |idx.keywords[x].name| + 3 && g in NGrams(idx.keywords[x].name, n)
  {
    var idx0 := idx.(ngramN := n);
    BuildFromCorrect(idx0, n, 0, g);
    PostingsSorted(idx.keywords, n, g, 0);
    assert NGramItems(idx0, g) == [];
    forall x | 0 <= x < |idx.keywords|
      ensures Mult(idx.keywords, n, g, x) > 0 <==> g in NGrams(idx.keywords[x].name, n)
    {
    }
  }

  /** So the lists of a freshly built n-gram index can be merged by `Union`. */
  lemma BuildNGramsSorted(idx: Index, n: int)
    requires BuildNGrams(idx, n).Some? && idx.ngramIndex == map[]
    ensures NGramListsSorted(BuildNGrams(idx, n).value)
  {
    var r := BuildNGrams(idx, n).value;
    forall g | g in r.ngramIndex ensures Merging.Sorted(r.ngramIndex[g]) {
      BuildNGramsLists(idx, n, g);
    }
  }

  // ----- Approximate matching ----------------------------------------------

  /** The n-grams of the query's `*`-separated parts. `None` where a part is
      shorter than `n - 3`, for which the n-gram count wraps around. */
  function QueryNGrams(query: string, n: int): (r: Option<seq<string>>)
    requires 2 <= n
    ensures r.Some? <==> forall k :: 0 <= k < |Splitting.Split(query, "*")| ==>
      n <= |Splitting.Split(query, "*")[k]| + 3
    ensures r.Some? ==> forall i :: 0 <= i < |r.value| ==> |r.value[i]| == n
  {
    var parts := Splitting.Split(query, "*");
    if exists k :: 0 <= k < |parts| && |parts[k]| + 3 < n then None
    else Some(NGramsOfParts(parts, n))
  }

  /** The keyword lists of the n-grams, one per n-gram, in order. */
  function Lists(idx: Index, grams: seq<string>): (lists: seq<seq<int>>)
    ensures |lists| == |grams| && forall i :: 0 <= i < |grams| ==> lists[i] == NGramItems(idx, grams[i])
  {
    seq(|grams|, i requires 0 <= i < |grams| => NGramItems(idx, grams[i]))
  }

  function Max(a: int, b: int): int { if a >= b then a else b }

  /** The two tests a candidate keyword must pass: its overlap `freq` with
      the query reaches `max(|name|, |query|) - maxEd * n`, and its edit
      distance to the query is at most `maxEd`. */
  predicate Accepts(name: string, query: string, maxEd: int, n: int, freq: int) {
    freq >= Max(|name|, |query|) - maxEd * n && Distance(name, query) <= maxEd
  }

  /** The candidates `ids` (with overlaps `freqs`) that pass, in order. */
  function Filter(ks: seq<Keyword>, query: string, maxEd: int, n: int, ids: seq<int>, freqs: seq<nat>): (kept: seq<int>)
    requires |ids| == |freqs| && forall i :: 0 <= i < |ids| ==> 0 <= ids[i] < |ks|
    ensures forall j :: 0 <= j < |kept| ==> kept[j] in ids
    decreases |ids|
  {
    if |ids| == 0 then []
    else
      var rest := Filter(ks, query, maxEd, n, ids[1..], freqs[1..]);
      if Accepts(ks[ids[0]].name, query, maxEd, n, freqs[0]) then [ids[0]] + rest else rest
  }

  /** From distinct ascending candidates the filter keeps, in ascending
      order, exactly those that pass. */
  lemma {:induction false} FilterCorrect(ks: seq<Keyword>, query: string, maxEd: int, n: int, ids: seq<int>, freqs: seq<nat>)
    requires |ids| == |freqs| && forall i :: 0 <= i < |ids| ==> 0 <= ids[i] < |ks|
    requires Merging.StrictlySorted(ids)
    ensures var kept := Filter(ks, query, maxEd, n, ids, freqs);
      && Merging.StrictlySorted(kept)
      && forall i :: 0 <= i < |ids| ==> (ids[i] in kept <==> Accepts(ks[ids[i]].name, query, maxEd, n, freqs[i]))
    decreases |ids|
  {
    if |ids| > 0 {
      var rest := Filter(ks, query, maxEd, n, ids[1..], freqs[1..]);
      FilterCorrect(ks, query, maxEd, n, ids[1..], freqs[1..]);
      FilterHead(ks, query, maxEd, n, ids, freqs, rest);
    }
  }

  /** One step of `FilterCorrect`: the head candidate is below every id the
      filter keeps from the tail, and the tail's verdicts carry over. */
  lemma FilterHead(ks: seq<Keyword>, query: string, maxEd: int, n: int, ids: seq<int>, freqs: seq<nat>, rest: seq<int>)
    requires |ids| == |freqs| > 0 && forall i :: 0 <= i < |ids| ==> 0 <= ids[i] < |ks|
    requires Merging.StrictlySorted(ids)
    requires rest == Filter(ks, query, maxEd, n, ids[1..], freqs[1..]) && Merging.StrictlySorted(rest)
    requires forall i :: 0 <= i < |ids[1..]| ==>
      (ids[1..][i] in rest <==> Accepts(ks[ids[1..][i]].name, query, maxEd, n, freqs[1..][i]))
    ensures var kept := Filter(ks, query, maxEd, n, ids, freqs);
      && Merging.StrictlySorted(kept)
      && forall i :: 0 <= i < |ids| ==> (ids[i] in kept <==> Accepts(ks[ids[i]].name, query, maxEd, n, freqs[i]))
  {
    var pass := Accepts(ks[ids[0]].name, query, maxEd, n, freqs[0]);
    var kept := Filter(ks, query, maxEd, n, ids, freqs);
    assert kept == (if pass then [ids[0]] else []) + rest;
    HeadBelowRest(ids, rest);
    KeptSorted(ids[0], pass, rest, kept);
    forall i | 0 < i < |ids|
      ensures ids[i] in rest <==> Accepts(ks[ids[i]].name, query, maxEd, n, freqs[i])
    {
      assert ids[1..][i - 1] == ids[i] && freqs[1..][i - 1] == freqs[i];
    }
    forall i | 0 <= i < |ids|
      ensures ids[i] in kept <==> Accepts(ks[ids[i]].name, query, maxEd, n, freqs[i])
    {
      if i > 0 {
        assert ids[0] < ids[i];
      }
    }
  }

  /** The head of a strictly ascending list is below every later id, and so
      below every id in `rest`, which holds later ids only. */
  lemma HeadBelowRest(ids: seq<int>, rest: seq<int>)
    requires |ids| > 0 && Merging.StrictlySorted(ids)
    requires forall j :: 0 <= j < |rest| ==> rest[j] in ids[1..]
    ensures forall j :: 0 <= j < |rest| ==> ids[0] < rest[j]
  {
    forall j | 0 <= j < |rest| ensures ids[0] < rest[j] {
      var k :| 0 <= k < |ids[1..]| && ids[1..][k] == rest[j];
      assert ids[k + 1] == rest[j];
    }
  }

  /** Putting an id below all of an ascending list in front keeps it ascending. */
  lemma KeptSorted(h: int, pass: bool, rest: seq<int>, kept: seq<int>)
    requires Merging.StrictlySorted(rest) && forall j :: 0 <= j < |rest| ==> h < rest[j]
    requires kept == (if pass then [h] else []) + rest
    ensures Merging.StrictlySorted(kept)
    ensures h in kept <==> pass
  {
  }

  /** The ids of the matching keywords. `None` where an assertion fails: the
      n-gram size is not above 1, or the query n-grams cannot be taken, or a
      listed keyword id is out of range. */
  function MatchIds(idx: Index, query: string, maxEd: int): (r: Option<seq<int>>)
    ensures r.Some? ==> forall j :: 0 <= j < |r.value| ==> 0 <= r.value[j] < |idx.keywords|
  {
    var n := idx.ngramN;
    if n <= 1 then None
    else
      match QueryNGrams(query, n)
      case None => None
      case Some(grams) =>
        var (ids, freqs) := Merging.Union(Lists(idx, grams));
        if exists i :: 0 <= i < |ids| && !(0 <= ids[i] < |idx.keywords|) then None
        else
          var kept := Filter(idx.keywords, query, maxEd, n, ids, freqs);
          assert forall j :: 0 <= j < |kept| ==> kept[j] in ids;
          Some(kept)
  }

  /** The matching keywords, as strings, in the order of their ids. */
  function ApproximateMatches(idx: Index, query: string, maxEd: int): (r: Option<seq<string>>)
    ensures r.Some? <==> MatchIds(idx, query, maxEd).Some?
    ensures r.Some? ==> var ids := MatchIds(idx, query, maxEd).value;
      |r.value| == |ids| && forall j :: 0 <= j < |ids| ==> r.value[j] == idx.keywords[ids[j]].name
  {
    match MatchIds(idx, query, maxEd)
    case None => None
    case Some(ids) => Some(seq(|ids|, j requires 0 <= j < |ids| => idx.keywords[ids[j]].name))
  }

  /** How many entries for keyword `x` the query n-grams' lists hold together:
      with lists from `BuildNGrams`, the number of n-grams `x` shares with the
      query, counted with multiplicity. */
  function Overlap(idx: Index, grams: seq<string>, x: int): nat {
    Merging.AllEntries(Lists(idx, grams))[x]
  }

  /** An entry of the union comes from one of the lists. */
  lemma {:induction false} AllEntriesMember(lists: seq<seq<int>>, x: int)
    requires x in Merging.AllEntries(lists)
    ensures exists l :: 0 <= l < |lists| && x in lists[l]
    decreases |lists|
  {
    var last := |lists| - 1;
    if x !in multiset(lists[last]) {
      AllEntriesMember(lists[..last], x);
      var l :| 0 <= l < last && x in lists[..last][l];
      assert x in lists[l];
    }
  }

  /** Over a valid index, matching fails only on the n-gram size or on a
      query part shorter than `n - 3`. */
  lemma MatchIdsSomeIff(idx: Index, query: string, maxEd: int)
    requires NGramsValid(idx)
    ensures MatchIds(idx, query, maxEd).Some? <==>
      idx.ngramN > 1 && QueryNGrams(query, idx.ngramN).Some?
  {
    var n := idx.ngramN;
    if n > 1 && QueryNGrams(query, n).Some? {
      var lists := Lists(idx, QueryNGrams(query, n).value);
      var ids := Merging.Union(lists).0;
      Merging.UnionMembers(lists);
      forall i | 0 <= i < |ids| ensures 0 <= ids[i] < |idx.keywords| {
        AllEntriesMember(lists, ids[i]);
      }
    }
  }

  /** Over lists that `Union` can merge, the matches are distinct keyword
      ids in ascending order, and a keyword is a match exactly when it
      shares an n-gram with the query, its overlap passes the filter and its
      edit distance to the query is at most `maxEd`. */
  lemma MatchIdsCorrect(idx: Index, query: string, maxEd: int)
    requires NGramListsSorted(idx)
    requires MatchIds(idx, query, maxEd).Some?
    ensures var kept := MatchIds(idx, query, maxEd).value;
      var n := idx.ngramN;
      var grams := QueryNGrams(query, n).value;
      && Merging.StrictlySorted(kept)
      && (forall x :: x in kept <==>
            0 <= x < |idx.keywords| && Overlap(idx, grams, x) > 0
            && Accepts(idx.keywords[x].name, query, maxEd, n, Overlap(idx, grams, x)))
  {
    var n := idx.ngramN;
    var grams := QueryNGrams(query, n).value;
    var lists := Lists(idx, grams);
    var (ids, freqs) := Merging.Union(lists);
    assert Merging.SortedLists(lists);
    Merging.UnionCorrect(lists);
    var kept := Filter(idx.keywords, query, maxEd, n, ids, freqs);
    FilterCorrect(idx.keywords, query, maxEd, n, ids, freqs);
    forall x
      ensures x in kept <==>
        0 <= x < |idx.keywords| && Overlap(idx, grams, x) > 0
        && Accepts(idx.keywords[x].name, query, maxEd, n, Overlap(idx, grams, x))
    {
      KeptMember(idx.keywords, query, maxEd, n, Merging.AllEntries(lists), ids, freqs, kept, x);
    }
  }

  /** A keyword id is kept exactly when it is a candidate whose count in
      `all` passes the filter. */
  lemma KeptMember(ks: seq<Keyword>, query: string, maxEd: int, n: int, all: multiset<int>,
                   ids: seq<int>, freqs: seq<nat>, kept: seq<int>, x: int)
    requires |ids| == |freqs| && forall i :: 0 <= i < |ids| ==> 0 <= ids[i] < |ks|
    requires forall y :: y in ids <==> y in all
    requires forall i :: 0 <= i < |ids| ==> freqs[i] == all[ids[i]]
    requires forall j :: 0 <= j < |kept| ==> kept[j] in ids
    requires forall i :: 0 <= i < |ids| ==> (ids[i] in kept <==> Accepts(ks[ids[i]].name, query, maxEd, n, freqs[i]))
    ensures x in kept <==> 0 <= x < |ks| && all[x] > 0 && Accepts(ks[x].name, query, maxEd, n, all[x])
  {
    if x in kept {
      var j :| 0 <= j < |kept| && kept[j] == x;
      assert kept[j] in ids;
      var i :| 0 <= i < |ids| && ids[i] == x;
    } else if all[x] > 0 {
      assert x in all;
      var i :| 0 <= i < |ids| && ids[i] == x;
    }
  }

  /** Every match is within the edit distance bound of the query. */
  lemma ApproximateMatchesSound(idx: Index, query: string, maxEd: int)
    requires NGramListsSorted(idx)
    requires ApproximateMatches(idx, query, maxEd).Some?
    ensures forall j :: 0 <= j < |ApproximateMatches(idx, query, maxEd).value| ==>
      Distance(ApproximateMatches(idx, query, maxEd).value[j], query) <= maxEd
  {
    MatchIdsCorrect(idx, query, maxEd);
    var ids := MatchIds(idx, query, maxEd).value;
    assert forall j :: 0 <= j < |ids| ==> ids[j] in ids;
  }
}
