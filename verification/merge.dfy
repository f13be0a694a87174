/** The k-way merge behind `Union` (and the query processors' `Intersect`):
    a priority queue holds one `(head, list)` pair per list that still has
    entries, ordered lexicographically, and each pop advances that list.
    The queue itself is not modelled; its pop order is, as the minimum
    `(head, list)` pair among the lists with entries left. */
module Merging {

  /** Non-decreasing. */
  ghost predicate Sorted(s: seq<int>) {
    forall i, j :: 0 <= i < j < |s| ==> s[i] <= s[j]
  }

  /** Strictly ascending. */
  ghost predicate StrictlySorted(s: seq<int>) {
    forall i, j :: 0 <= i < j < |s| ==> s[i] < s[j]
  }

  /** Cursor state of the merge: `cons[l]` entries of list `l` are taken. */
  predicate Cursors(lists: seq<seq<int>>, cons: seq<nat>) {
    |cons| == |lists| && forall l :: 0 <= l < |lists| ==> cons[l] <= |lists[l]|
  }

  predicate Active(lists: seq<seq<int>>, cons: seq<nat>, l: nat)
    requires Cursors(lists, cons)
  {
    l < |lists| && cons[l] < |lists[l]|
  }

  function Head(lists: seq<seq<int>>, cons: seq<nat>, l: nat): int
    requires Cursors(lists, cons) && Active(lists, cons, l)
  {
    lists[l][cons[l]]
  }

  /** `(Head(l), l)` comes before `(Head(m), m)` in the queue order. */
  predicate Before(lists: seq<seq<int>>, cons: seq<nat>, l: nat, m: nat)
    requires Cursors(lists, cons) && Active(lists, cons, l) && Active(lists, cons, m)
  {
    Head(lists, cons, l) < Head(lists, cons, m)
    || (Head(lists, cons, l) == Head(lists, cons, m) && l <= m)
  }

  /** Scan of lists `l..` for the queue minimum, `best` being the minimum
      among lists `0..l-1`, or -1 when none of them has entries left. */
  function TopFrom(lists: seq<seq<int>>, cons: seq<nat>, l: nat, best: int): (t: int)
    requires Cursors(lists, cons) && l <= |lists|
    requires -1 <= best < l
    requires best >= 0 ==> Active(lists, cons, best)
    requires best >= 0 ==> forall m :: 0 <= m < l && Active(lists, cons, m) ==> Before(lists, cons, best, m)
    requires best < 0 ==> forall m :: 0 <= m < l ==> !Active(lists, cons, m)
    ensures -1 <= t < |lists|
    ensures t >= 0 ==> Active(lists, cons, t)
    ensures t >= 0 ==> forall m :: 0 <= m < |lists| && Active(lists, cons, m) ==> Before(lists, cons, t, m)
    ensures t < 0 ==> forall m :: 0 <= m < |lists| ==> !Active(lists, cons, m)
    decreases |lists| - l
  {
    if l == |lists| then best
    else if Active(lists, cons, l) && (best < 0 || Head(lists, cons, l) < Head(lists, cons, best)) then
      TopStep(lists, cons, l, best);
      TopFrom(lists, cons, l + 1, l)
    else
      TopFrom(lists, cons, l + 1, best)
  }

  lemma TopStep(lists: seq<seq<int>>, cons: seq<nat>, l: nat, best: int)
    requires Cursors(lists, cons) && l < |lists| && -1 <= best < l
    requires Active(lists, cons, l)
    requires best >= 0 ==> Active(lists, cons, best) && Head(lists, cons, l) < Head(lists, cons, best)
    requires best >= 0 ==> forall m :: 0 <= m < l && Active(lists, cons, m) ==> Before(lists, cons, best, m)
    requires best < 0 ==> forall m :: 0 <= m < l ==> !Active(lists, cons, m)
    ensures forall m :: 0 <= m < l + 1 && Active(lists, cons, m) ==> Before(lists, cons, l, m)
  {
    forall m | 0 <= m < l + 1 && Active(lists, cons, m)
      ensures Before(lists, cons, l, m)
    {
      if m < l {
        assert Before(lists, cons, best, m);
      }
    }
  }

  /** The list the queue pops next, or -1 when the queue is empty. */
  function Top(lists: seq<seq<int>>, cons: seq<nat>): (t: int)
    requires Cursors(lists, cons)
    ensures -1 <= t < |lists|
    ensures t >= 0 ==> Active(lists, cons, t)
    ensures t >= 0 ==> forall m :: 0 <= m < |lists| && Active(lists, cons, m) ==> Before(lists, cons, t, m)
    ensures t < 0 ==> forall m :: 0 <= m < |lists| ==> !Active(lists, cons, m)
  {
    TopFrom(lists, cons, 0, -1)
  }

  /** Entries not yet taken, from list `l` on. */
  function RemainingFrom(lists: seq<seq<int>>, cons: seq<nat>, l: nat): nat
    requires Cursors(lists, cons) && l <= |lists|
    decreases |lists| - l
  {
    if l == |lists| then 0 else |lists[l]| - cons[l] + RemainingFrom(lists, cons, l + 1)
  }

  /** The multiset of entries not yet taken, from list `l` on. */
  function RestFrom(lists: seq<seq<int>>, cons: seq<nat>, l: nat): multiset<int>
    requires Cursors(lists, cons) && l <= |lists|
    decreases |lists| - l
  {
    if l == |lists| then multiset{} else multiset(lists[l][cons[l]..]) + RestFrom(lists, cons, l + 1)
  }

  /** Taking the head of an active list `t`. */
  function Advance(lists: seq<seq<int>>, cons: seq<nat>, t: nat): (c: seq<nat>)
    requires Cursors(lists, cons) && Active(lists, cons, t)
    ensures Cursors(lists, c)
  {
    cons[t := cons[t] + 1]
  }

  lemma {:induction false} AdvanceRemaining(lists: seq<seq<int>>, cons: seq<nat>, t: nat, l: nat)
    requires Cursors(lists, cons) && Active(lists, cons, t) && l <= |lists|
    ensures RemainingFrom(lists, Advance(lists, cons, t), l)
      == if l <= t then RemainingFrom(lists, cons, l) - 1 else RemainingFrom(lists, cons, l)
    decreases |lists| - l
  {
    if l < |lists| {
      AdvanceRemaining(lists, cons, t, l + 1);
    }
  }

  /** Lists at or beyond `l` with the same cursors hold the same rest. */
  lemma {:induction false} RestSameCursors(lists: seq<seq<int>>, cons: seq<nat>, c: seq<nat>, l: nat)
    requires Cursors(lists, cons) && Cursors(lists, c) && l <= |lists|
    requires forall m :: l <= m < |lists| ==> c[m] == cons[m]
    ensures RestFrom(lists, cons, l) == RestFrom(lists, c, l)
    decreases |lists| - l
  {
    if l < |lists| {
      RestSameCursors(lists, cons, c, l + 1);
    }
  }

  lemma {:induction false} AdvanceRest(lists: seq<seq<int>>, cons: seq<nat>, t: nat, l: nat)
    requires Cursors(lists, cons) && Active(lists, cons, t) && l <= t
    ensures RestFrom(lists, cons, l) == RestFrom(lists, Advance(lists, cons, t), l) + multiset{Head(lists, cons, t)}
    decreases t - l
  {
    if l == t {
      AdvanceRestAt(lists, cons, t, Advance(lists, cons, t));
    } else {
      AdvanceRest(lists, cons, t, l + 1);
      AdvanceRestBefore(lists, cons, t, l, Advance(lists, cons, t));
    }
  }

  /** The list taken from loses exactly its head. */
  lemma AdvanceRestAt(lists: seq<seq<int>>, cons: seq<nat>, t: nat, c: seq<nat>)
    requires Cursors(lists, cons) && Active(lists, cons, t) && c == Advance(lists, cons, t)
    ensures RestFrom(lists, cons, t) == RestFrom(lists, c, t) + multiset{Head(lists, cons, t)}
  {
    RestSameCursors(lists, cons, c, t + 1);
    var h := Head(lists, cons, t);
    assert lists[t][cons[t]..] == [h] + lists[t][c[t]..];
    assert RestFrom(lists, c, t) == multiset(lists[t][c[t]..]) + RestFrom(lists, c, t + 1);
    assert RestFrom(lists, cons, t) == multiset(lists[t][cons[t]..]) + RestFrom(lists, cons, t + 1);
  }

  /** A list before the one taken from keeps its rest. */
  lemma AdvanceRestBefore(lists: seq<seq<int>>, cons: seq<nat>, t: nat, l: nat, c: seq<nat>)
    requires Cursors(lists, cons) && Active(lists, cons, t) && l < t && c == Advance(lists, cons, t)
    requires RestFrom(lists, cons, l + 1) == RestFrom(lists, c, l + 1) + multiset{Head(lists, cons, t)}
    ensures RestFrom(lists, cons, l) == RestFrom(lists, c, l) + multiset{Head(lists, cons, t)}
  {
    assert c[l] == cons[l];
    assert RestFrom(lists, c, l) == multiset(lists[l][c[l]..]) + RestFrom(lists, c, l + 1);
    MultisetShuffle(multiset(lists[l][cons[l]..]), RestFrom(lists, c, l + 1), multiset{Head(lists, cons, t)});
  }

  lemma MultisetShuffle(x: multiset<int>, y: multiset<int>, z: multiset<int>)
    ensures x + (y + z) == (x + y) + z
  {
  }

  /** One pop: the value and the list it came from. */
  datatype Pop = Pop(value: int, list: nat)

  /** The pops of the merge, in queue order, from cursor state `cons` on. */
  function Pops(lists: seq<seq<int>>, cons: seq<nat>): seq<Pop>
    requires Cursors(lists, cons)
    decreases RemainingFrom(lists, cons, 0)
  {
    var t := Top(lists, cons);
    if t < 0 then []
    else
      AdvanceRemaining(lists, cons, t, 0);
      [Pop(Head(lists, cons, t), t)] + Pops(lists, Advance(lists, cons, t))
  }

  function Values(ps: seq<Pop>): (vs: seq<int>)
    ensures |vs| == |ps|
    ensures forall i :: 0 <= i < |ps| ==> vs[i] == ps[i].value
  {
    seq(|ps|, i requires 0 <= i < |ps| => ps[i].value)
  }

  /** Every list is non-decreasing from its cursor on. */
  ghost predicate SortedLists(lists: seq<seq<int>>) {
    forall l :: 0 <= l < |lists| ==> Sorted(lists[l])
  }

  /** With all lists empty the queue has nothing to pop. */
  lemma EmptyRest(lists: seq<seq<int>>, cons: seq<nat>, l: nat)
    requires Cursors(lists, cons) && l <= |lists|
    requires forall m :: l <= m < |lists| ==> !Active(lists, cons, m)
    ensures RestFrom(lists, cons, l) == multiset{}
    decreases |lists| - l
  {
    if l < |lists| {
      EmptyRest(lists, cons, l + 1);
      assert !Active(lists, cons, l);
      assert lists[l][cons[l]..] == [];
    }
  }

  /** Every entry not yet taken is at least the head the queue pops next. */
  lemma {:induction false} TopIsMinimal(lists: seq<seq<int>>, cons: seq<nat>, t: nat, l: nat, x: int)
    requires Cursors(lists, cons) && SortedLists(lists) && l <= |lists|
    requires Active(lists, cons, t)
    requires forall m :: 0 <= m < |lists| && Active(lists, cons, m) ==> Before(lists, cons, t, m)
    requires x in RestFrom(lists, cons, l)
    ensures Head(lists, cons, t) <= x
    decreases |lists| - l
  {
    if x in multiset(lists[l][cons[l]..]) {
      var s := lists[l][cons[l]..];
      var k :| 0 <= k < |s| && s[k] == x;
      assert Before(lists, cons, t, l);
      assert lists[l][cons[l]] <= lists[l][cons[l] + k];
    } else {
      TopIsMinimal(lists, cons, t, l + 1, x);
    }
  }

  /** A pop from a non-empty queue. */
  lemma PopsStep(lists: seq<seq<int>>, cons: seq<nat>)
    requires Cursors(lists, cons) && Top(lists, cons) >= 0
    ensures var t := Top(lists, cons);
      Values(Pops(lists, cons)) == [Head(lists, cons, t)] + Values(Pops(lists, Advance(lists, cons, t)))
  {
    var t := Top(lists, cons);
    assert Pops(lists, cons) == [Pop(Head(lists, cons, t), t)] + Pops(lists, Advance(lists, cons, t));
  }

  /** The pops take every remaining entry exactly once. */
  lemma {:induction false} PopsPermutation(lists: seq<seq<int>>, cons: seq<nat>)
    requires Cursors(lists, cons)
    ensures multiset(Values(Pops(lists, cons))) == RestFrom(lists, cons, 0)
    decreases RemainingFrom(lists, cons, 0)
  {
    var t := Top(lists, cons);
    if t < 0 {
      EmptyRest(lists, cons, 0);
    } else {
      var c := Advance(lists, cons, t);
      AdvanceRemaining(lists, cons, t, 0);
      AdvanceRest(lists, cons, t, 0);
      PopsPermutation(lists, c);
      PopsStep(lists, cons);
    }
  }

  /** Everything popped after the first pop is at least its value. */
  lemma PopsAfterTop(lists: seq<seq<int>>, cons: seq<nat>)
    requires Cursors(lists, cons) && SortedLists(lists) && Top(lists, cons) >= 0
    ensures var t := Top(lists, cons);
      var rest := Values(Pops(lists, Advance(lists, cons, t)));
      forall i :: 0 <= i < |rest| ==> Head(lists, cons, t) <= rest[i]
  {
    var t := Top(lists, cons);
    var c := Advance(lists, cons, t);
    AdvanceRest(lists, cons, t, 0);
    PopsPermutation(lists, c);
    var rest := Values(Pops(lists, c));
    forall i | 0 <= i < |rest|
      ensures Head(lists, cons, t) <= rest[i]
    {
      assert rest[i] in multiset(rest);
      TopIsMinimal(lists, cons, t, 0, rest[i]);
    }
  }

  /** The pops come out in non-decreasing order of value. */
  lemma {:induction false} PopsSorted(lists: seq<seq<int>>, cons: seq<nat>)
    requires Cursors(lists, cons) && SortedLists(lists)
    ensures Sorted(Values(Pops(lists, cons)))
    decreases RemainingFrom(lists, cons, 0)
  {
    var t := Top(lists, cons);
    if t >= 0 {
      var c := Advance(lists, cons, t);
      AdvanceRemaining(lists, cons, t, 0);
      PopsSorted(lists, c);
      PopsAfterTop(lists, cons);
      PopsStep(lists, cons);
      ConsSorted(Head(lists, cons, t), Values(Pops(lists, c)));
    }
  }

  lemma ConsSorted(v: int, rest: seq<int>)
    requires Sorted(rest) && forall i :: 0 <= i < |rest| ==> v <= rest[i]
    ensures Sorted([v] + rest)
  {
    var vs := [v] + rest;
    assert forall i :: 0 < i < |vs| ==> vs[i] == rest[i - 1];
  }

  function Zeros(k: nat): (c: seq<nat>)
    ensures |c| == k && forall l :: 0 <= l < k ==> c[l] == 0
  {
    seq(k, l => 0)
  }

  /** All entries of all lists, as a multiset. */
  function AllEntries(lists: seq<seq<int>>): multiset<int>
  {
    if |lists| == 0 then multiset{} else AllEntries(lists[..|lists| - 1]) + multiset(lists[|lists| - 1])
  }

  lemma {:induction false} RestFromZeros(lists: seq<seq<int>>, l: nat)
    requires l <= |lists|
    ensures Cursors(lists, Zeros(|lists|))
    ensures RestFrom(lists, Zeros(|lists|), l) + AllEntries(lists[..l]) == AllEntries(lists)
    decreases |lists| - l
  {
    var z := Zeros(|lists|);
    if l < |lists| {
      RestFromZeros(lists, l + 1);
      assert lists[..l + 1][..l] == lists[..l];
      assert lists[l][0..] == lists[l];
    } else {
      assert lists[..l] == lists;
    }
  }

  /** Run-length tally of a sequence of values, as the loop body of `Union`
      builds it: a new value opens a new slot with count 0, and every value
      increments the count of the last slot. */
  function Tally(vals: seq<int>): (r: (seq<int>, seq<nat>))
    ensures |r.0| == |r.1|
    ensures |vals| > 0 ==> |r.0| > 0 && r.0[|r.0| - 1] == vals[|vals| - 1]
    decreases |vals|
  {
    if |vals| == 0 then ([], [])
    else
      var prev := Tally(vals[..|vals| - 1]);
      var id := vals[|vals| - 1];
      if |prev.0| == 0 || prev.0[|prev.0| - 1] != id then (prev.0 + [id], prev.1 + [1])
      else (prev.0, prev.1[..|prev.1| - 1] + [prev.1[|prev.1| - 1] + 1])
  }

  function Sum(s: seq<nat>): nat {
    if |s| == 0 then 0 else Sum(s[..|s| - 1]) + s[|s| - 1]
  }

  /** `vs` lists every distinct value of `vals` once, ascending, and `fs`
      holds how often each occurs; the counts add up to the length. */
  ghost predicate Counted(vals: seq<int>, vs: seq<int>, fs: seq<nat>) {
    && |vs| == |fs|
    && StrictlySorted(vs)
    && (forall x :: x in vs <==> x in vals)
    && (forall i :: 0 <= i < |vs| ==> fs[i] == multiset(vals)[vs[i]])
    && Sum(fs) == |vals|
  }

  /** On sorted input the tally counts every distinct value. */
  lemma {:induction false} TallySorted(vals: seq<int>)
    requires Sorted(vals)
    ensures Counted(vals, Tally(vals).0, Tally(vals).1)
    decreases |vals|
  {
    if |vals| > 0 {
      var init := vals[..|vals| - 1];
      var id := vals[|vals| - 1];
      assert vals == init + [id];
      TallySorted(init);
      var prev := Tally(init);
      if |prev.0| == 0 || prev.0[|prev.0| - 1] != id {
        NewValueAbove(init, id);
        TallyNewBranch(vals, init, id, prev);
      } else {
        TallySameBranch(vals, init, id, prev);
      }
    }
  }

  /** The last value differs from the one before: it opens a new entry. */
  lemma TallyNewBranch(vals: seq<int>, init: seq<int>, id: int, prev: (seq<int>, seq<nat>))
    requires vals == init + [id]
    requires prev == Tally(init) && Counted(init, prev.0, prev.1)
    requires |prev.0| == 0 || prev.0[|prev.0| - 1] != id
    requires forall k :: 0 <= k < |init| ==> init[k] < id
    ensures Counted(vals, Tally(vals).0, Tally(vals).1)
  {
    assert vals[..|vals| - 1] == init;
    assert Tally(vals) == (prev.0 + [id], prev.1 + [1]);
    TallyNewValue(init, id, prev.0, prev.1);
  }

  /** The last value repeats the one before: its count grows by one. */
  lemma TallySameBranch(vals: seq<int>, init: seq<int>, id: int, prev: (seq<int>, seq<nat>))
    requires vals == init + [id]
    requires prev == Tally(init) && Counted(init, prev.0, prev.1)
    requires |prev.0| > 0 && prev.0[|prev.0| - 1] == id
    ensures Counted(vals, Tally(vals).0, Tally(vals).1)
  {
    var n := |prev.1|;
    assert vals[..|vals| - 1] == init;
    assert Tally(vals) == (prev.0, prev.1[..n - 1] + [prev.1[n - 1] + 1]);
    TallySameValue(init, id, prev.0, prev.1);
  }

  lemma TallyNewValue(init: seq<int>, id: int, vs: seq<int>, fs: seq<nat>)
    requires Counted(init, vs, fs)
    requires forall k :: 0 <= k < |init| ==> init[k] < id
    ensures Counted(init + [id], vs + [id], fs + [1])
  {
    TallyNewSorted(vs, init, id);
    TallyNewCounts(vs, fs, init, id);
    SumLast(fs, 1);
  }

  lemma TallyNewSorted(rs: seq<int>, init: seq<int>, id: int)
    requires StrictlySorted(rs)
    requires forall x :: x in rs <==> x in init
    requires forall k :: 0 <= k < |init| ==> init[k] < id
    ensures StrictlySorted(rs + [id])
    ensures forall x :: x in rs + [id] <==> x in init + [id]
  {
    forall i, j | 0 <= i < j < |rs + [id]|
      ensures (rs + [id])[i] < (rs + [id])[j]
    {
      if j == |rs| {
        assert rs[i] in rs;
        var k :| 0 <= k < |init| && init[k] == rs[i];
      }
    }
  }

  lemma TallyNewCounts(rs: seq<int>, fs: seq<nat>, init: seq<int>, id: int)
    requires |rs| == |fs|
    requires forall x :: x in rs <==> x in init
    requires forall i :: 0 <= i < |rs| ==> fs[i] == multiset(init)[rs[i]]
    requires forall k :: 0 <= k < |init| ==> init[k] < id
    ensures forall i :: 0 <= i < |rs + [id]| ==> (fs + [1])[i] == multiset(init + [id])[(rs + [id])[i]]
  {
    assert multiset(init + [id]) == multiset(init) + multiset{id};
    assert id !in init;
    forall i | 0 <= i < |rs|
      ensures rs[i] != id
    {
      assert rs[i] in init;
    }
  }

  /** In a sorted sequence, a last value different from its predecessor
      exceeds everything before it. */
  lemma NewValueAbove(init: seq<int>, id: int)
    requires Sorted(init + [id])
    requires |init| > 0 ==> init[|init| - 1] != id
    ensures forall k :: 0 <= k < |init| ==> init[k] < id
  {
    var vals := init + [id];
    forall k | 0 <= k < |init| ensures init[k] < id {
      assert vals[k] == init[k] && vals[|init|] == id;
      assert vals[|init| - 1] == init[|init| - 1];
    }
  }

  lemma TallySameValue(init: seq<int>, id: int, vs: seq<int>, fs: seq<nat>)
    requires Counted(init, vs, fs)
    requires |vs| > 0 && vs[|vs| - 1] == id
    ensures var n := |fs|;
      Counted(init + [id], vs, fs[..n - 1] + [fs[n - 1] + 1])
  {
    var vals := init + [id];
    var n := |fs|;
    var gs := fs[..n - 1] + [fs[n - 1] + 1];
    assert multiset(vals) == multiset(init) + multiset{id};
    forall i | 0 <= i < |vs|
      ensures gs[i] == multiset(vals)[vs[i]]
    {
      if i < n - 1 {
        assert vs[i] < vs[n - 1];
      }
    }
    assert fs == fs[..n - 1] + [fs[n - 1]];
    SumLast(fs[..n - 1], fs[n - 1]);
    SumLast(fs[..n - 1], fs[n - 1] + 1);
  }

  lemma SumLast(s: seq<nat>, x: nat)
    ensures Sum(s + [x]) == Sum(s) + x
  {
    assert (s + [x])[..|s|] == s;
  }

  /** `Union`: the distinct entries of all lists and how often each occurs. */
  function Union(lists: seq<seq<int>>): (r: (seq<int>, seq<nat>))
    ensures |r.0| == |r.1|
  {
    Tally(Values(Pops(lists, Zeros(|lists|))))
  }

  /** For non-decreasing lists, `Union` returns the strictly ascending union;
      each frequency is the entry's total number of occurrences across all
      lists, and the frequencies add up to the total input length. */
  lemma UnionCorrect(lists: seq<seq<int>>)
    requires SortedLists(lists)
    ensures StrictlySorted(Union(lists).0)
    ensures forall x :: x in Union(lists).0 <==> x in AllEntries(lists)
    ensures forall i :: 0 <= i < |Union(lists).0| ==> Union(lists).1[i] == AllEntries(lists)[Union(lists).0[i]]
    ensures Sum(Union(lists).1) == |AllEntries(lists)|
  {
    var z := Zeros(|lists|);
    var vs := Values(Pops(lists, z));
    PopsSorted(lists, z);
    PopsPermutation(lists, z);
    RestFromZeros(lists, 0);
    assert lists[..0] == [];
    assert multiset(vs) == AllEntries(lists);
    TallySorted(vs);
    forall x ensures x in vs <==> x in AllEntries(lists) {
      assert x in vs <==> x in multiset(vs);
    }
  }

  /** Whatever the order of the values, the tally lists only values that occur. */
  lemma {:induction false} TallyMembers(vals: seq<int>)
    ensures forall x :: x in Tally(vals).0 ==> x in vals
    decreases |vals|
  {
    if |vals| > 0 {
      var init := vals[..|vals| - 1];
      TallyMembers(init);
      assert vals == init + [vals[|vals| - 1]];
    }
  }

  /** Whatever the order of the lists, `Union` returns only their entries. */
  lemma UnionMembers(lists: seq<seq<int>>)
    ensures forall x :: x in Union(lists).0 ==> x in AllEntries(lists)
  {
    var z := Zeros(|lists|);
    var vs := Values(Pops(lists, z));
    PopsPermutation(lists, z);
    RestFromZeros(lists, 0);
    assert lists[..0] == [];
    TallyMembers(vs);
    forall x | x in Union(lists).0 ensures x in AllEntries(lists) {
      assert x in multiset(vs);
    }
  }

  /** An entry occurring in some list is in the union. */
  lemma InAllEntries(lists: seq<seq<int>>, l: nat, j: nat)
    requires l < |lists| && j < |lists[l]|
    ensures lists[l][j] in AllEntries(lists)
    decreases |lists|
  {
    if l < |lists| - 1 {
      InAllEntries(lists[..|lists| - 1], l, j);
    }
  }
}
