/** The query processor's boolean AND of posting lists: a k-way merge over
    the lists' record ids that emits, for every record id present in all
    lists, one item per list, in list order, and counts those records. */
module Intersecting {
  import opened SearchIndex
  import Merging

  /** The record ids of a posting list. */
  function Rids(items: seq<Item>): (r: seq<int>)
    ensures |r| == |items| && forall j :: 0 <= j < |items| ==> r[j] == items[j].recordId
  {
    seq(|items|, j requires 0 <= j < |items| => items[j].recordId)
  }

  function RidLists(lists: seq<seq<Item>>): (r: seq<seq<int>>)
    ensures |r| == |lists| && forall l :: 0 <= l < |lists| ==> r[l] == Rids(lists[l])
  {
    seq(|lists|, l requires 0 <= l < |lists| => Rids(lists[l]))
  }

  predicate NonEmpty(lists: seq<seq<Item>>) {
    forall l :: 0 <= l < |lists| ==> |lists[l]| > 0
  }

  /** Record ids strictly ascending along the list. */
  ghost predicate Ascending(items: seq<Item>) {
    forall i, j :: 0 <= i < j < |items| ==> items[i].recordId < items[j].recordId
  }

  /** What the intersection asks of its input: non-empty lists with strictly
      ascending record ids, as the index's posting lists are. */
  ghost predicate PostingLists(lists: seq<seq<Item>>) {
    NonEmpty(lists) && forall l :: 0 <= l < |lists| ==> Ascending(lists[l])
  }

  /** Cursor state of the merge over the record ids. */
  predicate Cursors(lists: seq<seq<Item>>, cons: seq<nat>) {
    Merging.Cursors(RidLists(lists), cons)
  }

  /** The source's index into list `l`: the cursor, which stays on the last
      entry once the list has no entries left. */
  function Held(c: nat, n: nat): nat
    requires 0 < n
  {
    if c < n then c else n - 1
  }

  /** The membership test of the loop: the entry at every list's index has
      record id `v`. */
  predicate AllAt(lists: seq<seq<Item>>, cons: seq<nat>, v: int)
    requires NonEmpty(lists) && |cons| == |lists|
  {
    forall l :: 0 <= l < |lists| ==> lists[l][Held(cons[l], |lists[l]|)].recordId == v
  }

  /** The merge loop from cursor state `cons`, with the results `acc` and the
      record count `found` so far. Each pop takes the least `(record id,
      list)` pair; the entry is appended if the last result has the same
      record id, and otherwise only if every list's index is on that record
      id, which then counts as a found record. */
  function IntersectFrom(lists: seq<seq<Item>>, cons: seq<nat>, acc: seq<Item>, found: nat): (r: (seq<Item>, nat))
    requires NonEmpty(lists) && Cursors(lists, cons)
    decreases Merging.RemainingFrom(RidLists(lists), cons, 0)
  {
    var rl := RidLists(lists);
    var t := Merging.Top(rl, cons);
    if t < 0 then (acc, found)
    else
      var item := lists[t][cons[t]];
      var c := Merging.Advance(rl, cons, t);
      Merging.AdvanceRemaining(rl, cons, t, 0);
      if |acc| > 0 && acc[|acc| - 1].recordId == item.recordId then IntersectFrom(lists, c, acc + [item], found)
      else if AllAt(lists, cons, item.recordId) then IntersectFrom(lists, c, acc + [item], found + 1)
      else IntersectFrom(lists, c, acc, found)
  }

  /** The intersection and the number of records found. The source reads
      every list's first entry, so the lists must be non-empty. */
  function Intersect(lists: seq<seq<Item>>): (r: (seq<Item>, nat))
    requires NonEmpty(lists)
  {
    IntersectFrom(lists, Merging.Zeros(|lists|), [], 0)
  }

  // ----- The reference -----------------------------------------------------

  /** Record id `r` occurs in every list. */
  predicate InAll(lists: seq<seq<Item>>, r: int) {
    forall l :: 0 <= l < |lists| ==> r in Rids(lists[l])
  }

  /** Index of the first entry with record id `r`, or `|items|`. */
  function Find(items: seq<Item>, r: int): (j: nat)
    ensures j <= |items|
    ensures j < |items| ==> items[j].recordId == r
    ensures forall k :: 0 <= k < j ==> items[k].recordId != r
  {
    if |items| == 0 then 0
    else if items[0].recordId == r then 0
    else 1 + Find(items[1..], r)
  }

  /** Every list's entry for record id `r`, in list order. */
  function Block(lists: seq<seq<Item>>, r: int): (b: seq<Item>)
    requires InAll(lists, r)
    ensures |b| == |lists|
    ensures forall l :: 0 <= l < |lists| ==> b[l] in lists[l] && b[l].recordId == r
  {
    seq(|lists|, l requires 0 <= l < |lists| =>
      assert r in Rids(lists[l]);
      lists[l][Find(lists[l], r)])
  }

  /** The record ids of list 0, from entry `i` on, that all lists share. */
  function SharedIds(lists: seq<seq<Item>>, i: nat): (rs: seq<int>)
    requires |lists| > 0 && i <= |lists[0]|
    ensures forall k :: 0 <= k < |rs| ==> InAll(lists, rs[k])
    decreases |lists[0]| - i
  {
    if i == |lists[0]| then []
    else
      var r := lists[0][i].recordId;
      (if InAll(lists, r) then [r] else []) + SharedIds(lists, i + 1)
  }

  /** The blocks of the record ids `rs`, one after the other. */
  function Blocks(lists: seq<seq<Item>>, rs: seq<int>): seq<Item>
    requires forall k :: 0 <= k < |rs| ==> InAll(lists, rs[k])
  {
    if |rs| == 0 then [] else Block(lists, rs[0]) + Blocks(lists, rs[1..])
  }

  /** Reference result: the blocks of the shared record ids, in list 0's
      order from entry `i` on. */
  function Ref(lists: seq<seq<Item>>, i: nat): seq<Item>
    requires |lists| > 0 && i <= |lists[0]|
  {
    Blocks(lists, SharedIds(lists, i))
  }

  /** Reference count: how many record ids from entry `i` on all lists share. */
  function Shared(lists: seq<seq<Item>>, i: nat): nat
    requires |lists| > 0 && i <= |lists[0]|
  {
    |SharedIds(lists, i)|
  }

  // ----- Proof: one record id at a time ------------------------------------

  /** Between two record ids: in every list, exactly the entries below `b`
      are taken. */
  ghost predicate Synced(lists: seq<seq<Item>>, cons: seq<nat>, b: int) {
    && Cursors(lists, cons)
    && forall l, j :: 0 <= l < |lists| && 0 <= j < |lists[l]| ==> (j < cons[l] <==> lists[l][j].recordId < b)
  }

  /** List `l` has entries left and its head has record id `v`. */
  predicate HasHead(lists: seq<seq<Item>>, cons: seq<nat>, l: nat, v: int)
    requires l < |lists| && |cons| == |lists|
  {
    cons[l] < |lists[l]| && lists[l][cons[l]].recordId == v
  }

  /** No list's head is below `v`. */
  ghost predicate HeadsAtLeast(lists: seq<seq<Item>>, cons: seq<nat>, v: int)
    requires |cons| == |lists|
  {
    forall l :: 0 <= l < |lists| && cons[l] < |lists[l]| ==> v <= lists[l][cons[l]].recordId
  }

  /** Every list's head has record id `v`. */
  predicate Matched(lists: seq<seq<Item>>, cons: seq<nat>, v: int)
    requires |cons| == |lists|
  {
    forall l :: 0 <= l < |lists| ==> cons[l] < |lists[l]| && lists[l][cons[l]].recordId == v
  }

  /** The heads of the first `k` lists. */
  function Heads(lists: seq<seq<Item>>, cons: seq<nat>, k: nat): (h: seq<Item>)
    requires |cons| == |lists| && k <= |lists|
    requires forall l :: 0 <= l < k ==> cons[l] < |lists[l]|
    ensures |h| == k && forall l :: 0 <= l < k ==> h[l] == lists[l][cons[l]]
  {
    seq(k, l requires 0 <= l < k => lists[l][cons[l]])
  }

  /** The results once the lists before `k` have had their pop in the round
      of record id `v`: their heads appended if every list's head is `v`. */
  function RoundAcc(lists: seq<seq<Item>>, cons: seq<nat>, v: int, k: nat, acc0: seq<Item>): seq<Item>
    requires |cons| == |lists| && k <= |lists|
  {
    if Matched(lists, cons, v) then acc0 + Heads(lists, cons, k) else acc0
  }

  /** The count once the lists before `k` have had their pop in the round. */
  function RoundFound(lists: seq<seq<Item>>, cons: seq<nat>, v: int, k: nat, f0: nat): nat
    requires |cons| == |lists|
  {
    if Matched(lists, cons, v) && k > 0 then f0 + 1 else f0
  }

  /** The cursors once the lists before `k` whose head is `v` are advanced. */
  function Taken(lists: seq<seq<Item>>, cons: seq<nat>, v: int, k: nat): (c: seq<nat>)
    requires Cursors(lists, cons)
    ensures Cursors(lists, c)
    ensures |c| == |cons| && forall l :: 0 <= l < |cons| ==>
      c[l] == if l < k && HasHead(lists, cons, l, v) then cons[l] + 1 else cons[l]
  {
    seq(|cons|, l requires 0 <= l < |cons| => if l < k && HasHead(lists, cons, l, v) then cons[l] + 1 else cons[l])
  }

  /** The first list from `k` on whose head is `v`, or `|lists|`. */
  function Next(lists: seq<seq<Item>>, cons: seq<nat>, v: int, k: nat): (m: nat)
    requires |cons| == |lists| && k <= |lists|
    ensures k <= m <= |lists|
    ensures m < |lists| ==> HasHead(lists, cons, m, v)
    ensures forall l :: k <= l < m ==> !HasHead(lists, cons, l, v)
    decreases |lists| - k
  {
    if k == |lists| || HasHead(lists, cons, k, v) then k else Next(lists, cons, v, k + 1)
  }

  /** One pop of the loop, unfolded. */
  lemma IntersectPop(lists: seq<seq<Item>>, cons: seq<nat>, acc: seq<Item>, found: nat, t: nat)
    requires NonEmpty(lists) && Cursors(lists, cons)
    requires Merging.Top(RidLists(lists), cons) == t
    ensures var item := lists[t][cons[t]];
      var c := Merging.Advance(RidLists(lists), cons, t);
      IntersectFrom(lists, cons, acc, found)
        == if |acc| > 0 && acc[|acc| - 1].recordId == item.recordId then IntersectFrom(lists, c, acc + [item], found)
           else if AllAt(lists, cons, item.recordId) then IntersectFrom(lists, c, acc + [item], found + 1)
           else IntersectFrom(lists, c, acc, found)
  {
  }

  /** Within the round of record id `v`, the next pop is the next list whose
      head is `v`. */
  lemma TopIsNext(lists: seq<seq<Item>>, cons: seq<nat>, v: int, k: nat)
    requires PostingLists(lists) && Cursors(lists, cons) && k <= |lists|
    requires HeadsAtLeast(lists, cons, v)
    requires Next(lists, cons, v, k) < |lists|
    ensures Merging.Top(RidLists(lists), Taken(lists, cons, v, k)) == Next(lists, cons, v, k)
  {
    var rl := RidLists(lists);
    var c := Taken(lists, cons, v, k);
    var m := Next(lists, cons, v, k);
    assert c[m] == cons[m];
    assert Merging.Active(rl, c, m);
    assert Merging.Head(rl, c, m) == v;
    var t := Merging.Top(rl, c);
    assert Merging.Before(rl, c, t, m);
    var ht := Merging.Head(rl, c, t);
    assert ht == lists[t][c[t]].recordId;
    assert c[t] == cons[t];
    assert v <= ht;
    assert HasHead(lists, cons, t, v);
  }

  /** Off the matched case the membership test fails: some list lacks `v`. */
  lemma NotAllAt(lists: seq<seq<Item>>, cons: seq<nat>, b: int, v: int, k: nat)
    requires PostingLists(lists) && Synced(lists, cons, b) && b <= v
    requires !Matched(lists, cons, v)
    ensures !AllAt(lists, Taken(lists, cons, v, k), v)
  {
    var l :| 0 <= l < |lists| && !(cons[l] < |lists[l]| && lists[l][cons[l]].recordId == v);
    var c := Taken(lists, cons, v, k);
    var n := |lists[l]|;
    if cons[l] == n {
      assert lists[l][n - 1].recordId < b;
    }
    assert lists[l][Held(c[l], n)].recordId != v;
  }

  /** The pops of the round of record id `v` from list `k` on: they append
      the remaining heads when every list's head is `v`, and nothing
      otherwise; and they take at least one entry if a list from `k` on has
      head `v`. */
  lemma {:induction false} Round(lists: seq<seq<Item>>, cons: seq<nat>, b: int, v: int, k: nat, acc0: seq<Item>, f0: nat)
    requires PostingLists(lists) && Synced(lists, cons, b) && b <= v && k <= |lists|
    requires HeadsAtLeast(lists, cons, v)
    requires |acc0| > 0 ==> acc0[|acc0| - 1].recordId < b
    ensures IntersectFrom(lists, Taken(lists, cons, v, k), RoundAcc(lists, cons, v, k, acc0), RoundFound(lists, cons, v, k, f0))
      == IntersectFrom(lists, Taken(lists, cons, v, |lists|), RoundAcc(lists, cons, v, |lists|, acc0), RoundFound(lists, cons, v, |lists|, f0))
    decreases |lists| - k
  {
    var nx := Next(lists, cons, v, k);
    if nx == |lists| {
      RoundDone(lists, cons, v, k, acc0, f0);
    } else {
      RoundStep(lists, cons, b, v, k, nx, acc0, f0);
      Round(lists, cons, b, v, nx + 1, acc0, f0);
    }
  }

  /** A round consumes one entry per pop, so it shrinks the remaining work
      whenever it pops at all. */
  lemma {:induction false} RoundShrinks(lists: seq<seq<Item>>, cons: seq<nat>, v: int, k: nat)
    requires PostingLists(lists) && Cursors(lists, cons) && k <= |lists|
    requires HeadsAtLeast(lists, cons, v)
    ensures Merging.RemainingFrom(RidLists(lists), Taken(lists, cons, v, |lists|), 0)
      <= Merging.RemainingFrom(RidLists(lists), Taken(lists, cons, v, k), 0)
    ensures Next(lists, cons, v, k) < |lists| ==>
      Merging.RemainingFrom(RidLists(lists), Taken(lists, cons, v, |lists|), 0)
        < Merging.RemainingFrom(RidLists(lists), Taken(lists, cons, v, k), 0)
    decreases |lists| - k
  {
    var nx := Next(lists, cons, v, k);
    if nx == |lists| {
      assert Taken(lists, cons, v, k) == Taken(lists, cons, v, |lists|);
    } else {
      PopFacts(lists, cons, v, k);
      RoundShrinks(lists, cons, v, nx + 1);
    }
  }

  /** A round with nothing left to pop has already reached its end state. */
  lemma RoundDone(lists: seq<seq<Item>>, cons: seq<nat>, v: int, k: nat, acc0: seq<Item>, f0: nat)
    requires Cursors(lists, cons) && k <= |lists| && Next(lists, cons, v, k) == |lists|
    ensures Taken(lists, cons, v, k) == Taken(lists, cons, v, |lists|)
    ensures RoundAcc(lists, cons, v, k, acc0) == RoundAcc(lists, cons, v, |lists|, acc0)
    ensures RoundFound(lists, cons, v, k, f0) == RoundFound(lists, cons, v, |lists|, f0)
    ensures NonEmpty(lists) ==>
      (IntersectFrom(lists, Taken(lists, cons, v, k), RoundAcc(lists, cons, v, k, acc0), RoundFound(lists, cons, v, k, f0))
        == IntersectFrom(lists, Taken(lists, cons, v, |lists|), RoundAcc(lists, cons, v, |lists|, acc0), RoundFound(lists, cons, v, |lists|, f0)))
  {
    if Matched(lists, cons, v) {
      assert k == |lists|;
    }
  }

  /** One pop of the round. */
  lemma RoundStep(lists: seq<seq<Item>>, cons: seq<nat>, b: int, v: int, k: nat, nx: nat, acc0: seq<Item>, f0: nat)
    requires PostingLists(lists) && Synced(lists, cons, b) && b <= v && k <= |lists|
    requires HeadsAtLeast(lists, cons, v)
    requires |acc0| > 0 ==> acc0[|acc0| - 1].recordId < b
    requires nx == Next(lists, cons, v, k) && nx < |lists|
    ensures IntersectFrom(lists, Taken(lists, cons, v, k), RoundAcc(lists, cons, v, k, acc0), RoundFound(lists, cons, v, k, f0))
        == IntersectFrom(lists, Taken(lists, cons, v, nx + 1), RoundAcc(lists, cons, v, nx + 1, acc0), RoundFound(lists, cons, v, nx + 1, f0))
  {
    PopFacts(lists, cons, v, k);
    if Matched(lists, cons, v) {
      RoundStepMatched(lists, cons, b, v, k, nx, acc0, f0);
    } else {
      PopUnmatched(lists, cons, b, v, k, acc0, f0);
    }
  }

  /** One pop of the round when every list's head is `v`. */
  lemma RoundStepMatched(lists: seq<seq<Item>>, cons: seq<nat>, b: int, v: int, k: nat, nx: nat, acc0: seq<Item>, f0: nat)
    requires PostingLists(lists) && Synced(lists, cons, b) && b <= v && k <= |lists|
    requires HeadsAtLeast(lists, cons, v)
    requires |acc0| > 0 ==> acc0[|acc0| - 1].recordId < b
    requires nx == Next(lists, cons, v, k) && nx < |lists| && Matched(lists, cons, v)
    ensures IntersectFrom(lists, Taken(lists, cons, v, k), RoundAcc(lists, cons, v, k, acc0), RoundFound(lists, cons, v, k, f0))
        == IntersectFrom(lists, Taken(lists, cons, v, nx + 1), RoundAcc(lists, cons, v, nx + 1, acc0), RoundFound(lists, cons, v, nx + 1, f0))
  {
    PopFacts(lists, cons, v, k);
    assert nx == k;
    var item := lists[k][cons[k]];
    var h := Heads(lists, cons, k);
    assert Heads(lists, cons, k + 1) == h + [item];
    ItemsAssoc(acc0, h, [item]);
    if k == 0 {
      assert acc0 + h == acc0;
      PopMatchedFirst(lists, cons, b, v, acc0, f0);
    } else {
      PopMatchedLater(lists, cons, v, k, acc0 + h, f0 + 1);
    }
  }

  /** What the next pop of the round takes and leaves. */
  lemma PopFacts(lists: seq<seq<Item>>, cons: seq<nat>, v: int, k: nat)
    requires PostingLists(lists) && Cursors(lists, cons) && k <= |lists|
    requires HeadsAtLeast(lists, cons, v)
    requires Next(lists, cons, v, k) < |lists|
    ensures var nx := Next(lists, cons, v, k);
      var c := Taken(lists, cons, v, k);
      && Merging.Top(RidLists(lists), c) == nx
      && c[nx] == cons[nx]
      && Merging.Advance(RidLists(lists), c, nx) == Taken(lists, cons, v, nx + 1)
      && Merging.RemainingFrom(RidLists(lists), Taken(lists, cons, v, nx + 1), 0)
           == Merging.RemainingFrom(RidLists(lists), c, 0) - 1
  {
    var rl := RidLists(lists);
    var c := Taken(lists, cons, v, k);
    var nx := Next(lists, cons, v, k);
    TopIsNext(lists, cons, v, k);
    assert Merging.Advance(rl, c, nx) == Taken(lists, cons, v, nx + 1);
    Merging.AdvanceRemaining(rl, c, nx, 0);
  }

  /** The round's first pop when every list's head is `v`: list 0's head is
      appended and the record counted. */
  lemma PopMatchedFirst(lists: seq<seq<Item>>, cons: seq<nat>, b: int, v: int, acc0: seq<Item>, f0: nat)
    requires PostingLists(lists) && Synced(lists, cons, b) && b <= v
    requires HeadsAtLeast(lists, cons, v) && Matched(lists, cons, v) && |lists| > 0
    requires |acc0| > 0 ==> acc0[|acc0| - 1].recordId < b
    ensures IntersectFrom(lists, Taken(lists, cons, v, 0), acc0, f0)
      == IntersectFrom(lists, Taken(lists, cons, v, 1), acc0 + [lists[0][cons[0]]], f0 + 1)
  {
    PopFacts(lists, cons, v, 0);
    var c := Taken(lists, cons, v, 0);
    assert c == cons;
    assert AllAt(lists, cons, v);
    IntersectPop(lists, c, acc0, f0, 0);
  }

  /** A later pop of a matched round: the head joins the block. */
  lemma PopMatchedLater(lists: seq<seq<Item>>, cons: seq<nat>, v: int, k: nat, acc: seq<Item>, f: nat)
    requires PostingLists(lists) && Cursors(lists, cons) && k < |lists|
    requires HeadsAtLeast(lists, cons, v) && Matched(lists, cons, v)
    requires |acc| > 0 && acc[|acc| - 1].recordId == v
    ensures IntersectFrom(lists, Taken(lists, cons, v, k), acc, f)
      == IntersectFrom(lists, Taken(lists, cons, v, k + 1), acc + [lists[k][cons[k]]], f)
  {
    assert HasHead(lists, cons, k, v);
    PopFacts(lists, cons, v, k);
    IntersectPop(lists, Taken(lists, cons, v, k), acc, f, k);
  }

  /** A pop of an unmatched round: nothing is appended. */
  lemma PopUnmatched(lists: seq<seq<Item>>, cons: seq<nat>, b: int, v: int, k: nat, acc0: seq<Item>, f0: nat)
    requires PostingLists(lists) && Synced(lists, cons, b) && b <= v && k <= |lists|
    requires HeadsAtLeast(lists, cons, v) && !Matched(lists, cons, v)
    requires |acc0| > 0 ==> acc0[|acc0| - 1].recordId < b
    requires Next(lists, cons, v, k) < |lists|
    ensures IntersectFrom(lists, Taken(lists, cons, v, k), acc0, f0)
      == IntersectFrom(lists, Taken(lists, cons, v, Next(lists, cons, v, k) + 1), acc0, f0)
  {
    var nx := Next(lists, cons, v, k);
    PopFacts(lists, cons, v, k);
    NotAllAt(lists, cons, b, v, k);
    IntersectPop(lists, Taken(lists, cons, v, k), acc0, f0, nx);
  }

  // ----- Proof: the rounds add up to the reference ---------------------------

  /** In an ascending list a record id's first entry is its only one. */
  lemma FindAt(items: seq<Item>, j: nat)
    requires Ascending(items) && j < |items|
    ensures Find(items, items[j].recordId) == j
  {
  }

  /** Between rounds, a record id from `b` on that is at most every head is
      in all lists exactly when it is every list's head. */
  lemma InAllIffMatched(lists: seq<seq<Item>>, cons: seq<nat>, b: int, v: int)
    requires PostingLists(lists) && Synced(lists, cons, b) && b <= v
    requires HeadsAtLeast(lists, cons, v)
    ensures InAll(lists, v) <==> Matched(lists, cons, v)
  {
    if InAll(lists, v) {
      forall l | 0 <= l < |lists|
        ensures cons[l] < |lists[l]| && lists[l][cons[l]].recordId == v
      {
        assert v in Rids(lists[l]);
        var j :| 0 <= j < |lists[l]| && Rids(lists[l])[j] == v;
        assert lists[l][j].recordId == v;
        assert !(j < cons[l]);
        assert v <= lists[l][cons[l]].recordId;
        if j > cons[l] {
          assert lists[l][cons[l]].recordId < lists[l][j].recordId;
        }
      }
    }
    if Matched(lists, cons, v) {
      forall l | 0 <= l < |lists|
        ensures v in Rids(lists[l])
      {
        assert Rids(lists[l])[cons[l]] == v;
      }
    }
  }

  /** A matched round appends exactly the reference's block for `v`. */
  lemma BlockIsHeads(lists: seq<seq<Item>>, cons: seq<nat>, v: int)
    requires PostingLists(lists) && Cursors(lists, cons)
    requires Matched(lists, cons, v) && InAll(lists, v)
    ensures Block(lists, v) == Heads(lists, cons, |lists|)
  {
    forall l | 0 <= l < |lists|
      ensures Block(lists, v)[l] == Heads(lists, cons, |lists|)[l]
    {
      FindAt(lists[l], cons[l]);
    }
  }

  /** One entry of the reference, unfolded. */
  lemma RefStep(lists: seq<seq<Item>>, i: nat)
    requires |lists| > 0 && i < |lists[0]|
    ensures Ref(lists, i) == (if InAll(lists, lists[0][i].recordId) then Block(lists, lists[0][i].recordId) else []) + Ref(lists, i + 1)
    ensures Shared(lists, i) == (if InAll(lists, lists[0][i].recordId) then 1 else 0) + Shared(lists, i + 1)
  {
    var r := lists[0][i].recordId;
    var rest := SharedIds(lists, i + 1);
    assert SharedIds(lists, i) == (if InAll(lists, r) then [r] else []) + rest;
    if InAll(lists, r) {
      assert ([r] + rest)[1..] == rest;
    } else {
      assert [] + rest == rest;
    }
  }

  /** The reference, read from list 0's cursor, splits into this round's
      block and the rest. */
  lemma RefGroupStep(lists: seq<seq<Item>>, cons: seq<nat>, b: int, v: int)
    requires PostingLists(lists) && Synced(lists, cons, b) && b <= v && |lists| > 0
    requires HeadsAtLeast(lists, cons, v)
    ensures Ref(lists, cons[0])
      == (if Matched(lists, cons, v) then Heads(lists, cons, |lists|) else []) + Ref(lists, Taken(lists, cons, v, |lists|)[0])
    ensures Shared(lists, cons[0])
      == (if Matched(lists, cons, v) then 1 else 0) + Shared(lists, Taken(lists, cons, v, |lists|)[0])
  {
    var c := Taken(lists, cons, v, |lists|);
    InAllIffMatched(lists, cons, b, v);
    if HasHead(lists, cons, 0, v) {
      RefHeadStep(lists, cons, v, c[0]);
    } else {
      assert c[0] == cons[0];
      assert !Matched(lists, cons, v);
      assert [] + Ref(lists, c[0]) == Ref(lists, c[0]);
    }
  }

  /** `RefGroupStep` when list 0's head has record id `v`. */
  lemma RefHeadStep(lists: seq<seq<Item>>, cons: seq<nat>, v: int, next: nat)
    requires PostingLists(lists) && Cursors(lists, cons) && |lists| > 0
    requires HasHead(lists, cons, 0, v) && next == cons[0] + 1
    requires InAll(lists, v) <==> Matched(lists, cons, v)
    ensures Ref(lists, cons[0])
      == (if Matched(lists, cons, v) then Heads(lists, cons, |lists|) else []) + Ref(lists, next)
    ensures Shared(lists, cons[0]) == (if Matched(lists, cons, v) then 1 else 0) + Shared(lists, next)
  {
    RefStep(lists, cons[0]);
    if Matched(lists, cons, v) {
      BlockIsHeads(lists, cons, v);
    } else {
      assert Ref(lists, cons[0]) == [] + Ref(lists, next);
    }
  }


  /** After the round of `v` exactly the entries up to `v` are taken. */
  lemma SyncedAfter(lists: seq<seq<Item>>, cons: seq<nat>, b: int, v: int)
    requires PostingLists(lists) && Synced(lists, cons, b) && b <= v
    requires HeadsAtLeast(lists, cons, v)
    ensures Synced(lists, Taken(lists, cons, v, |lists|), v + 1)
  {
    var c := Taken(lists, cons, v, |lists|);
    forall l, j | 0 <= l < |lists| && 0 <= j < |lists[l]|
      ensures j < c[l] <==> lists[l][j].recordId < v + 1
    {
      if j < cons[l] {
        assert lists[l][j].recordId < b;
      } else {
        assert v <= lists[l][cons[l]].recordId;
        if j > cons[l] {
          assert lists[l][cons[l]].recordId < lists[l][j].recordId;
        }
      }
    }
  }

  /** The loop with no entries left returns what it has. */
  lemma IntersectDone(lists: seq<seq<Item>>, cons: seq<nat>, acc: seq<Item>, f: nat)
    requires NonEmpty(lists) && Cursors(lists, cons) && |lists| > 0
    requires Merging.Top(RidLists(lists), cons) < 0
    ensures cons[0] == |lists[0]|
    ensures IntersectFrom(lists, cons, acc, f) == (acc, f)
  {
    assert !Merging.Active(RidLists(lists), cons, 0);
  }

  /** The list the loop pops from a state between rounds opens the round of
      its head's record id. */
  lemma RoundOpens(lists: seq<seq<Item>>, cons: seq<nat>, b: int, t: nat)
    requires PostingLists(lists) && Synced(lists, cons, b)
    requires Merging.Top(RidLists(lists), cons) == t
    ensures var v := lists[t][cons[t]].recordId;
      && b <= v && HeadsAtLeast(lists, cons, v)
      && Next(lists, cons, v, 0) < |lists|
      && Taken(lists, cons, v, 0) == cons
  {
    var rl := RidLists(lists);
    var v := lists[t][cons[t]].recordId;
    assert Merging.Head(rl, cons, t) == v;
    assert !(cons[t] < cons[t]);
    forall l | 0 <= l < |lists| && cons[l] < |lists[l]|
      ensures v <= lists[l][cons[l]].recordId
    {
      assert Merging.Active(rl, cons, l);
      assert Merging.Before(rl, cons, t, l);
    }
    assert HasHead(lists, cons, t, v);
  }

  /** The results after a round end on a record id below the next bound. */
  lemma RoundAccBelow(lists: seq<seq<Item>>, cons: seq<nat>, b: int, v: int, acc: seq<Item>)
    requires |cons| == |lists| && b <= v && |lists| > 0
    requires |acc| > 0 ==> acc[|acc| - 1].recordId < b
    ensures var a := RoundAcc(lists, cons, v, |lists|, acc);
      |a| > 0 ==> a[|a| - 1].recordId < v + 1
  {
    if Matched(lists, cons, v) {
      MatchedAccLast(lists, cons, v, acc);
    } else {
      assert RoundAcc(lists, cons, v, |lists|, acc) == acc;
    }
  }

  /** A matched round ends the results on the round's record id. */
  lemma MatchedAccLast(lists: seq<seq<Item>>, cons: seq<nat>, v: int, acc: seq<Item>)
    requires |cons| == |lists| && |lists| > 0 && Matched(lists, cons, v)
    ensures var a := RoundAcc(lists, cons, v, |lists|, acc);
      |a| > 0 && a[|a| - 1].recordId == v
  {
    var n := |lists| - 1;
    var h := Heads(lists, cons, |lists|);
    assert RoundAcc(lists, cons, v, |lists|, acc) == acc + h;
    assert (acc + h)[|acc + h| - 1] == h[n];
    assert h[n].recordId == v;
  }

  lemma ItemsAssoc(a: seq<Item>, b: seq<Item>, c: seq<Item>)
    ensures a + (b + c) == (a + b) + c
  {
  }

  /** Moving a round's block from the reference's front onto the results. */
  lemma Regroup(acc: seq<Item>, acc': seq<Item>, m: bool, h: seq<Item>, rest: seq<Item>, all: seq<Item>)
    requires acc' == if m then acc + h else acc
    requires all == (if m then h else []) + rest
    ensures acc + all == acc' + rest
  {
    if !m {
      assert all == rest;
    }
  }

  /** The round of the popped list's record id runs the loop into the next
      state between rounds, with less work left. */
  lemma RoundRuns(lists: seq<seq<Item>>, cons: seq<nat>, b: int, t: nat, v: int, acc: seq<Item>, f: nat,
                  c: seq<nat>, acc': seq<Item>, f': nat)
    requires PostingLists(lists) && Synced(lists, cons, b) && |lists| > 0
    requires |acc| > 0 ==> acc[|acc| - 1].recordId < b
    requires Merging.Top(RidLists(lists), cons) == t && v == lists[t][cons[t]].recordId
    requires c == Taken(lists, cons, v, |lists|)
    requires acc' == RoundAcc(lists, cons, v, |lists|, acc) && f' == RoundFound(lists, cons, v, |lists|, f)
    ensures b <= v && HeadsAtLeast(lists, cons, v)
    ensures Synced(lists, c, v + 1)
    ensures |acc'| > 0 ==> acc'[|acc'| - 1].recordId < v + 1
    ensures Merging.RemainingFrom(RidLists(lists), c, 0) < Merging.RemainingFrom(RidLists(lists), cons, 0)
    ensures IntersectFrom(lists, cons, acc, f) == IntersectFrom(lists, c, acc', f')
  {
    RoundOpens(lists, cons, b, t);
    assert RoundAcc(lists, cons, v, 0, acc) == acc;
    Round(lists, cons, b, v, 0, acc, f);
    RoundShrinks(lists, cons, v, 0);
    SyncedAfter(lists, cons, b, v);
    RoundAccBelow(lists, cons, b, v, acc);
  }

  /** What the round appends and counts is the reference's share for its
      record id. */
  lemma RoundCloses(lists: seq<seq<Item>>, cons: seq<nat>, b: int, v: int, acc: seq<Item>, f: nat,
                    c: seq<nat>, acc': seq<Item>, f': nat)
    requires PostingLists(lists) && Synced(lists, cons, b) && b <= v && |lists| > 0
    requires HeadsAtLeast(lists, cons, v)
    requires c == Taken(lists, cons, v, |lists|)
    requires acc' == RoundAcc(lists, cons, v, |lists|, acc) && f' == RoundFound(lists, cons, v, |lists|, f)
    ensures acc + Ref(lists, cons[0]) == acc' + Ref(lists, c[0])
    ensures f + Shared(lists, cons[0]) == f' + Shared(lists, c[0])
  {
    RefGroupStep(lists, cons, b, v);
    if Matched(lists, cons, v) {
      Regroup(acc, acc', true, Heads(lists, cons, |lists|), Ref(lists, c[0]), Ref(lists, cons[0]));
    } else {
      Regroup(acc, acc', false, [], Ref(lists, c[0]), Ref(lists, cons[0]));
    }
  }

  /** The loop from a state between rounds produces the results so far
      followed by the reference from list 0's cursor on. */
  lemma {:induction false} IntersectGroups(lists: seq<seq<Item>>, cons: seq<nat>, b: int, acc: seq<Item>, f: nat)
    requires PostingLists(lists) && Synced(lists, cons, b) && |lists| > 0
    requires |acc| > 0 ==> acc[|acc| - 1].recordId < b
    ensures IntersectFrom(lists, cons, acc, f).0 == acc + Ref(lists, cons[0])
    ensures IntersectFrom(lists, cons, acc, f).1 == f + Shared(lists, cons[0])
    decreases Merging.RemainingFrom(RidLists(lists), cons, 0)
  {
    var rl := RidLists(lists);
    var t := Merging.Top(rl, cons);
    if t < 0 {
      IntersectDone(lists, cons, acc, f);
      assert Ref(lists, cons[0]) == [] && Shared(lists, cons[0]) == 0;
      assert acc + [] == acc;
    } else {
      var v := lists[t][cons[t]].recordId;
      var c := Taken(lists, cons, v, |lists|);
      var acc' := RoundAcc(lists, cons, v, |lists|, acc);
      var f' := RoundFound(lists, cons, v, |lists|, f);
      RoundRuns(lists, cons, b, t, v, acc, f, c, acc', f');
      IntersectGroups(lists, c, v + 1, acc', f');
      RoundCloses(lists, cons, b, v, acc, f, c, acc', f');
    }
  }

  /** A record id no entry of the lists is below. */
  function Least(lists: seq<seq<Item>>, l: nat): (r: int)
    requires NonEmpty(lists) && l < |lists|
    ensures forall m :: l <= m < |lists| ==> r <= lists[m][0].recordId
    decreases |lists| - l
  {
    if l == |lists| - 1 then lists[l][0].recordId
    else
      var rest := Least(lists, l + 1);
      if lists[l][0].recordId < rest then lists[l][0].recordId else rest
  }

  /** The loop's start is a state between rounds. */
  lemma StartSynced(lists: seq<seq<Item>>)
    requires PostingLists(lists) && |lists| > 0
    ensures Synced(lists, Merging.Zeros(|lists|), Least(lists, 0))
  {
    var b := Least(lists, 0);
    forall l, j | 0 <= l < |lists| && 0 <= j < |lists[l]|
      ensures b <= lists[l][j].recordId
    {
      if j > 0 {
        assert lists[l][0].recordId < lists[l][j].recordId;
      }
    }
  }

  /** The intersection is the reference: no lists give nothing, and otherwise
      the blocks and the count of the record ids all lists share. */
  lemma IntersectCorrect(lists: seq<seq<Item>>)
    requires PostingLists(lists)
    ensures |lists| == 0 ==> Intersect(lists) == ([], 0)
    ensures |lists| > 0 ==> Intersect(lists).0 == Ref(lists, 0) && Intersect(lists).1 == Shared(lists, 0)
  {
    var z := Merging.Zeros(|lists|);
    if |lists| == 0 {
      assert Merging.Top(RidLists(lists), z) < 0;
    } else {
      StartSynced(lists);
      IntersectGroups(lists, z, Least(lists, 0), [], 0);
      assert [] + Ref(lists, 0) == Ref(lists, 0);
    }
  }

  // ----- What the reference contains -----------------------------------------

  /** A record id is shared from entry `i` on exactly when all lists have it
      and list 0 has it at `i` or later. */
  lemma {:induction false} SharedIdsIff(lists: seq<seq<Item>>, i: nat, r: int)
    requires |lists| > 0 && i <= |lists[0]|
    ensures r in SharedIds(lists, i) <==>
      InAll(lists, r) && exists j :: i <= j < |lists[0]| && lists[0][j].recordId == r
    decreases |lists[0]| - i
  {
    if i < |lists[0]| {
      SharedIdsIff(lists, i + 1, r);
      SharedIdsStep(lists, i, r);
      HasRidStep(lists[0], i, r);
    }
  }

  /** One step of `SharedIds`: entry `i`'s record id if all lists have it,
      then the rest. */
  lemma SharedIdsStep(lists: seq<seq<Item>>, i: nat, r: int)
    requires |lists| > 0 && i < |lists[0]|
    ensures r in SharedIds(lists, i) <==>
      (InAll(lists, lists[0][i].recordId) && r == lists[0][i].recordId) || r in SharedIds(lists, i + 1)
  {
    var h := lists[0][i].recordId;
    assert SharedIds(lists, i) == (if InAll(lists, h) then [h] else []) + SharedIds(lists, i + 1);
  }

  /** A record id is at entry `i` or later exactly when it is at `i` or
      after it. */
  lemma HasRidStep(l: seq<Item>, i: nat, r: int)
    requires i < |l|
    ensures (exists j :: i <= j < |l| && l[j].recordId == r) <==>
      l[i].recordId == r || exists j :: i + 1 <= j < |l| && l[j].recordId == r
  {
    if exists j :: i <= j < |l| && l[j].recordId == r {
      var j :| i <= j < |l| && l[j].recordId == r;
      if j > i {
        assert i + 1 <= j;
      }
    }
    if l[i].recordId == r {
      assert i <= i < |l| && l[i].recordId == r;
    }
  }

  /** The shared record ids are exactly the record ids in all lists. */
  lemma SharedIdsExact(lists: seq<seq<Item>>, r: int)
    requires |lists| > 0
    ensures r in SharedIds(lists, 0) <==> InAll(lists, r)
  {
    SharedIdsIff(lists, 0, r);
    if InAll(lists, r) {
      assert r in Rids(lists[0]);
      var j :| 0 <= j < |lists[0]| && Rids(lists[0])[j] == r;
      assert lists[0][j].recordId == r;
    }
  }

  /** With list 0 ascending, the shared record ids from entry `i` on are at
      least entry `i`'s. */
  lemma {:induction false} SharedIdsAbove(lists: seq<seq<Item>>, i: nat)
    requires |lists| > 0 && i < |lists[0]| && Ascending(lists[0])
    ensures forall k :: 0 <= k < |SharedIds(lists, i)| ==> lists[0][i].recordId <= SharedIds(lists, i)[k]
    decreases |lists[0]| - i
  {
    var h := lists[0][i].recordId;
    var rest := SharedIds(lists, i + 1);
    var pre := if InAll(lists, h) then [h] else [];
    var all := SharedIds(lists, i);
    assert all == pre + rest;
    if i + 1 < |lists[0]| {
      SharedIdsAbove(lists, i + 1);
      assert h < lists[0][i + 1].recordId;
    }
    forall k | 0 <= k < |all|
      ensures h <= all[k]
    {
      if k >= |pre| {
        assert all[k] == rest[k - |pre|];
      }
    }
  }

  /** With list 0 ascending, the shared record ids ascend strictly. */
  lemma {:induction false} SharedIdsAscending(lists: seq<seq<Item>>, i: nat)
    requires |lists| > 0 && i <= |lists[0]| && Ascending(lists[0])
    ensures Merging.StrictlySorted(SharedIds(lists, i))
    decreases |lists[0]| - i
  {
    if i < |lists[0]| {
      SharedIdsAscending(lists, i + 1);
      var h := lists[0][i].recordId;
      var rest := SharedIds(lists, i + 1);
      if InAll(lists, h) {
        assert SharedIds(lists, i) == [h] + rest;
        if i + 1 < |lists[0]| {
          SharedIdsAbove(lists, i + 1);
          assert h < lists[0][i + 1].recordId;
        }
        StrictCons(h, rest);
      } else {
        assert SharedIds(lists, i) == [] + rest;
      }
    }
  }

  /** A value below every element of a strictly ascending sequence keeps it
      strictly ascending when put in front. */
  lemma StrictCons(h: int, rest: seq<int>)
    requires Merging.StrictlySorted(rest) && forall k :: 0 <= k < |rest| ==> h < rest[k]
    ensures Merging.StrictlySorted([h] + rest)
  {
    var all := [h] + rest;
    forall k1, k2 | 0 <= k1 < k2 < |all|
      ensures all[k1] < all[k2]
    {
      assert all[k2] == rest[k2 - 1];
      if k1 > 0 {
        assert all[k1] == rest[k1 - 1];
      }
    }
  }
}
