/** The first query processor: the non-empty lists of the query's keywords
    are merged by `(record id, list)` pairs, smallest first, and after each
    pop a block of one item per list is emitted when every list's index
    sits on the popped record id, until `max_num` blocks are out. */
module PlainQuery {
  import opened SearchIndex
  import Merging
  import Intersecting
  import Ranking
  import Querying

  /** The lists of the words that have items, in query order. The first
      index's lookup of items is not part of this model, so it is given. */
  function KnownLists(lookup: string -> seq<Item>, words: seq<string>): (lists: seq<seq<Item>>)
    ensures Intersecting.NonEmpty(lists) && |lists| <= |words|
  {
    if |words| == 0 then []
    else (if |lookup(words[0])| > 0 then [lookup(words[0])] else []) + KnownLists(lookup, words[1..])
  }

  /** A list is among the known lists exactly when it is the non-empty list
      of one of the words. */
  lemma {:induction false} KnownListsIff(lookup: string -> seq<Item>, words: seq<string>, items: seq<Item>)
    ensures items in KnownLists(lookup, words) <==> |items| > 0 && exists w :: w in words && lookup(w) == items
  {
    if |words| > 0 {
      KnownListsIff(lookup, words[1..], items);
      if exists w :: w in words[1..] && lookup(w) == items {
        var w :| w in words[1..] && lookup(w) == items;
        assert w in words;
      }
      if |items| > 0 && exists w :: w in words && lookup(w) == items {
        var w :| w in words && lookup(w) == items;
        if w != words[0] {
          var j :| 0 <= j < |words| && words[j] == w;
          assert words[1..][j - 1] == w;
        }
      }
    }
  }

  // ----- The merge as written ----------------------------------------------

  /** The entries at the lists' indices, one per list; an exhausted list's
      index stays on its last entry. */
  function HeldBlock(lists: seq<seq<Item>>, c: seq<nat>): (b: seq<Item>)
    requires Intersecting.NonEmpty(lists) && |c| == |lists|
    ensures |b| == |lists|
    ensures forall l :: 0 <= l < |lists| ==> b[l] == lists[l][Intersecting.Held(c[l], |lists[l]|)]
  {
    seq(|lists|, l requires 0 <= l < |lists| => lists[l][Intersecting.Held(c[l], |lists[l]|)])
  }

  /** The merge loop from cursor state `cons` with the blocks `acc` emitted
      so far; the result vector holds `|lists|` items per block. The loop
      stops when no list has entries left or the result holds
      `|lists| * maxNum` items. A pop takes the least `(record id, list)`
      pair and moves that list on BEFORE the lists' indices are compared
      with the popped record id. */
  function IntersectFrom(lists: seq<seq<Item>>, cons: seq<nat>, acc: seq<seq<Item>>, maxNum: nat): seq<seq<Item>>
    requires Intersecting.NonEmpty(lists) && Intersecting.Cursors(lists, cons)
    decreases Merging.RemainingFrom(Intersecting.RidLists(lists), cons, 0)
  {
    var rl := Intersecting.RidLists(lists);
    var t := Merging.Top(rl, cons);
    if t < 0 || |lists| * |acc| >= |lists| * maxNum then acc
    else
      var v := lists[t][cons[t]].recordId;
      var c := Merging.Advance(rl, cons, t);
      Merging.AdvanceRemaining(rl, cons, t, 0);
      if Intersecting.AllAt(lists, c, v) then IntersectFrom(lists, c, acc + [HeldBlock(lists, c)], maxNum)
      else IntersectFrom(lists, c, acc, maxNum)
  }

  /** The blocks the merge as written emits. */
  function EmittedBlocks(lists: seq<seq<Item>>, maxNum: nat): seq<seq<Item>>
    requires Intersecting.NonEmpty(lists)
  {
    IntersectFrom(lists, Merging.Zeros(|lists|), [], maxNum)
  }

  /** The intersection as written: the emitted blocks one after another. */
  function Intersect(lists: seq<seq<Item>>, maxNum: nat): seq<Item>
    requires Intersecting.NonEmpty(lists)
  {
    Ranking.Flatten(EmittedBlocks(lists, maxNum))
  }

  /** The answer as written: the known keywords' lists, intersected. */
  function Answer(lookup: string -> seq<Item>, query: string, maxNum: nat): seq<Item> {
    Intersect(KnownLists(lookup, Querying.Keywords(query)), maxNum)
  }

  // ----- What the merge as written emits -----------------------------------

  /** One item from each list, all of the same record. */
  predicate MatchBlock(lists: seq<seq<Item>>, b: seq<Item>) {
    |b| == |lists| && forall l :: 0 <= l < |b| ==> b[l] in lists[l] && b[l].recordId == b[0].recordId
  }

  lemma MulCancel(n: nat, a: nat, b: nat)
    requires n * a < n * b
    ensures a < b
  {
    assert n * b - n * a == n * (b - a);
  }

  lemma MulMono(n: nat, a: nat, b: nat)
    requires a <= b
    ensures n * a <= n * b
  {
    assert n * b == n * a + n * (b - a);
  }

  lemma MulSucc(n: nat, j: nat)
    requires j > 0
    ensures n * j == n + n * (j - 1)
  {
  }

  lemma MulStrict(n: nat, a: nat, b: nat)
    requires a < b
    ensures n > 0 ==> n * a < n * b
  {
    assert n * b == n * a + n * (b - a);
  }

  /** Every block the loop emits matches, and at most `maxNum` are emitted. */
  lemma {:induction false} IntersectFromBlocks(lists: seq<seq<Item>>, cons: seq<nat>, acc: seq<seq<Item>>, maxNum: nat)
    requires Intersecting.NonEmpty(lists) && Intersecting.Cursors(lists, cons)
    requires forall k :: 0 <= k < |acc| ==> MatchBlock(lists, acc[k])
    requires |acc| <= maxNum
    ensures forall k :: 0 <= k < |IntersectFrom(lists, cons, acc, maxNum)| ==>
      MatchBlock(lists, IntersectFrom(lists, cons, acc, maxNum)[k])
    ensures |lists| > 0 ==> |IntersectFrom(lists, cons, acc, maxNum)| <= maxNum
    decreases Merging.RemainingFrom(Intersecting.RidLists(lists), cons, 0)
  {
    var rl := Intersecting.RidLists(lists);
    var t := Merging.Top(rl, cons);
    if t >= 0 && |lists| * |acc| < |lists| * maxNum {
      var v := lists[t][cons[t]].recordId;
      var c := Merging.Advance(rl, cons, t);
      Merging.AdvanceRemaining(rl, cons, t, 0);
      MulCancel(|lists|, |acc|, maxNum);
      if Intersecting.AllAt(lists, c, v) {
        var b := HeldBlock(lists, c);
        assert MatchBlock(lists, b) by {
          forall l | 0 <= l < |b|
            ensures b[l] in lists[l] && b[l].recordId == b[0].recordId
          {
            assert b[l].recordId == v;
          }
        }
        IntersectFromBlocks(lists, c, acc + [b], maxNum);
      } else {
        IntersectFromBlocks(lists, c, acc, maxNum);
      }
    }
  }

  /** Blocks of `n` items flatten to `n` items each. */
  lemma {:induction false} FlattenLength(bs: seq<seq<Item>>, n: nat)
    requires forall k :: 0 <= k < |bs| ==> |bs[k]| == n
    ensures |Ranking.Flatten(bs)| == n * |bs|
  {
    if |bs| > 0 {
      FlattenLength(bs[1..], n);
    }
  }

  /** A matching block's record has an entry in every list. */
  lemma MatchBlockInAll(lists: seq<seq<Item>>, b: seq<Item>)
    requires MatchBlock(lists, b) && |b| > 0
    ensures Intersecting.InAll(lists, b[0].recordId)
  {
    forall l | 0 <= l < |lists|
      ensures b[0].recordId in Intersecting.Rids(lists[l])
    {
      var j :| 0 <= j < |lists[l]| && lists[l][j] == b[l];
      assert Intersecting.Rids(lists[l])[j] == b[0].recordId;
    }
  }

  /** What the merge as written does promise: every emitted block holds one
      item per list, all of one record that every list has; at most
      `maxNum` blocks come out, so at most `|lists| * maxNum` items, and
      none for `maxNum = 0`. */
  lemma IntersectBlocks(lists: seq<seq<Item>>, maxNum: nat)
    requires Intersecting.NonEmpty(lists)
    ensures |lists| > 0 ==> forall k :: 0 <= k < |EmittedBlocks(lists, maxNum)| ==>
      MatchBlock(lists, EmittedBlocks(lists, maxNum)[k])
      && Intersecting.InAll(lists, EmittedBlocks(lists, maxNum)[k][0].recordId)
    ensures |lists| > 0 ==> |EmittedBlocks(lists, maxNum)| <= maxNum
    ensures |Intersect(lists, maxNum)| == |lists| * |EmittedBlocks(lists, maxNum)|
    ensures |Intersect(lists, maxNum)| <= |lists| * maxNum
    ensures maxNum == 0 ==> Intersect(lists, maxNum) == []
  {
    var bs := EmittedBlocks(lists, maxNum);
    IntersectFromBlocks(lists, Merging.Zeros(|lists|), [], maxNum);
    FlattenLength(bs, |lists|);
    if |lists| > 0 {
      forall k | 0 <= k < |bs|
        ensures Intersecting.InAll(lists, bs[k][0].recordId)
      {
        MatchBlockInAll(lists, bs[k]);
      }
      MulMono(|lists|, |bs|, maxNum);
    } else {
      assert Merging.Top(Intersecting.RidLists(lists), Merging.Zeros(0)) < 0;
    }
  }

  /** The advance-before-check pop as written: with two lists that both
      hold an item `a` of record 1 and then an item `b` of record 2, record
      1, which both lists have, is never emitted, and record 2 is emitted
      twice. */
  lemma IntersectAsWrittenExample(a: Item, b: Item)
    requires a.recordId == 1 && b.recordId == 2
    ensures Intersecting.InAll([[a, b], [a, b]], 1)
    ensures Intersect([[a, b], [a, b]], 2) == [b, b, b, b]
  {
    var lists := [[a, b], [a, b]];
    assert Intersecting.Rids(lists[0])[0] == 1 && Intersecting.Rids(lists[1])[0] == 1;
    ExampleMisses(a, b, lists);
    ExampleRepeats(a, b, lists);
    assert EmittedBlocks(lists, 2) == [[b, b], [b, b]] by {
      assert Merging.Zeros(2) == [0, 0];
    }
    assert Ranking.Flatten([[b, b], [b, b]]) == [b, b, b, b] by {
      assert Ranking.Flatten([[b, b], [b, b]]) == [b, b] + Ranking.Flatten([[b, b]]);
      assert Ranking.Flatten([[b, b]]) == [b, b] + Ranking.Flatten([]);
    }
  }

  lemma ExampleRids(a: Item, b: Item, lists: seq<seq<Item>>)
    requires a.recordId == 1 && b.recordId == 2 && lists == [[a, b], [a, b]]
    ensures Intersecting.RidLists(lists) == [[1, 2], [1, 2]]
  {
    assert Intersecting.Rids([a, b]) == [1, 2];
  }

  /** The two pops of record 1 each move a list past it before the check. */
  lemma ExampleMisses(a: Item, b: Item, lists: seq<seq<Item>>)
    requires a.recordId == 1 && b.recordId == 2 && lists == [[a, b], [a, b]]
    ensures IntersectFrom(lists, [0, 0], [], 2) == IntersectFrom(lists, [1, 1], [], 2)
  {
    var rl := Intersecting.RidLists(lists);
    ExampleRids(a, b, lists);
    assert Merging.Active(rl, [0, 0], 0);
    Pop(lists, [0, 0], [], 2, 0, [1, 0]);
    assert !Intersecting.AllAt(lists, [1, 0], 1);
    assert Merging.Active(rl, [1, 0], 1);
    Pop(lists, [1, 0], [], 2, 1, [1, 1]);
    assert !Intersecting.AllAt(lists, [1, 1], 1);
  }

  /** The two pops of record 2 both find every index on record 2, the first
      list's index being held on its last entry. */
  lemma ExampleRepeats(a: Item, b: Item, lists: seq<seq<Item>>)
    requires a.recordId == 1 && b.recordId == 2 && lists == [[a, b], [a, b]]
    ensures IntersectFrom(lists, [1, 1], [], 2) == [[b, b], [b, b]]
  {
    var rl := Intersecting.RidLists(lists);
    ExampleRids(a, b, lists);
    assert Merging.Active(rl, [1, 1], 0);
    Pop(lists, [1, 1], [], 2, 0, [2, 1]);
    assert Intersecting.AllAt(lists, [2, 1], 2);
    assert HeldBlock(lists, [2, 1]) == [b, b];
    assert Merging.Active(rl, [2, 1], 1);
    Pop(lists, [2, 1], [[b, b]], 2, 1, [2, 2]);
    assert Intersecting.AllAt(lists, [2, 2], 2);
    assert HeldBlock(lists, [2, 2]) == [b, b];
  }

  /** One pop of the loop, the popped list being `t` and the lists'
      indices after it `c`. */
  lemma Pop(lists: seq<seq<Item>>, cons: seq<nat>, acc: seq<seq<Item>>, maxNum: nat, t: nat, c: seq<nat>)
    requires Intersecting.NonEmpty(lists) && Intersecting.Cursors(lists, cons)
    requires Merging.Top(Intersecting.RidLists(lists), cons) == t
    requires |acc| < maxNum
    requires c == Merging.Advance(Intersecting.RidLists(lists), cons, t)
    ensures Intersecting.Cursors(lists, c)
    ensures IntersectFrom(lists, cons, acc, maxNum) ==
      if Intersecting.AllAt(lists, c, lists[t][cons[t]].recordId)
      then IntersectFrom(lists, c, acc + [HeldBlock(lists, c)], maxNum)
      else IntersectFrom(lists, c, acc, maxNum)
  {
    MulStrict(|lists|, |acc|, maxNum);
  }

  // ----- The corrected intersection ----------------------------------------

  /** The intersection the loop is meant to compute, as the later
      exercise's merge computes it: one block per record all lists share,
      in list 0's order, cut after `maxNum` blocks. */
  function IntersectFixed(lists: seq<seq<Item>>, maxNum: nat): seq<Item>
    requires Intersecting.NonEmpty(lists)
  {
    var found := Intersecting.Intersect(lists).0;
    found[..Ranking.Min(|found|, |lists| * maxNum)]
  }

  /** The corrected answer: the known keywords' lists, intersected. */
  function AnswerFixed(lookup: string -> seq<Item>, query: string, maxNum: nat): seq<Item> {
    IntersectFixed(KnownLists(lookup, Querying.Keywords(query)), maxNum)
  }

  /** Blocks of `n` items each: `j` blocks take `n * j` items. */
  lemma {:induction false} BlocksPrefix(lists: seq<seq<Item>>, rs: seq<int>, j: nat)
    requires forall k :: 0 <= k < |rs| ==> Intersecting.InAll(lists, rs[k])
    requires j <= |rs|
    ensures |Intersecting.Blocks(lists, rs)| == |lists| * |rs|
    ensures |lists| * j <= |lists| * |rs|
    ensures Intersecting.Blocks(lists, rs)[..|lists| * j] == Intersecting.Blocks(lists, rs[..j])
  {
    var n := |lists|;
    MulMono(n, j, |rs|);
    if |rs| == 0 {
      assert rs[..j] == [];
    } else {
      var x := Intersecting.Block(lists, rs[0]);
      var y := Intersecting.Blocks(lists, rs[1..]);
      if j == 0 {
        BlocksPrefix(lists, rs[1..], 0);
        assert rs[..0] == [];
      } else {
        BlocksPrefix(lists, rs[1..], j - 1);
        assert rs[..j][1..] == rs[1..][..j - 1];
        MulSucc(n, j);
        assert (x + y)[..n + n * (j - 1)] == x + y[..n * (j - 1)];
      }
      MulSucc(n, |rs|);
    }
  }

  /** The corrected intersection of posting lists is the blocks of the
      first `min(maxNum, shared)` records all lists share, ascending; with
      no more than `maxNum` shared records, every shared record is there. */
  lemma IntersectFixedCorrect(lists: seq<seq<Item>>, maxNum: nat)
    requires Intersecting.PostingLists(lists) && |lists| > 0
    ensures var rs := Intersecting.SharedIds(lists, 0);
      var kept := rs[..Ranking.Min(maxNum, |rs|)];
      && IntersectFixed(lists, maxNum) == Intersecting.Blocks(lists, kept)
      && |IntersectFixed(lists, maxNum)| == |lists| * |kept| <= |lists| * maxNum
      && Merging.StrictlySorted(kept)
      && (forall r :: r in kept ==> Intersecting.InAll(lists, r))
      && (|rs| <= maxNum ==> forall r :: Intersecting.InAll(lists, r) ==> r in kept)
  {
    var rs := Intersecting.SharedIds(lists, 0);
    var j := Ranking.Min(maxNum, |rs|);
    Intersecting.IntersectCorrect(lists);
    BlocksPrefix(lists, rs, j);
    BlocksPrefix(lists, rs[..j], j);
    MulMono(|lists|, j, maxNum);
    assert Ranking.Min(|lists| * |rs|, |lists| * maxNum) == |lists| * j;
    Intersecting.SharedIdsAscending(lists, 0);
    forall r | |rs| <= maxNum && Intersecting.InAll(lists, r)
      ensures r in rs[..j]
    {
      Intersecting.SharedIdsExact(lists, r);
      assert rs[..j] == rs;
    }
  }

  /** With ascending lists from the lookup, the corrected answer holds the
      blocks of the first `maxNum` records, ascending, that every known
      keyword's list has; with no known keyword it is empty. */
  lemma AnswerFixedCorrect(lookup: string -> seq<Item>, query: string, maxNum: nat)
    requires forall w :: Intersecting.Ascending(lookup(w))
    ensures var lists := KnownLists(lookup, Querying.Keywords(query));
      |lists| > 0 ==>
        var rs := Intersecting.SharedIds(lists, 0);
        AnswerFixed(lookup, query, maxNum) == Intersecting.Blocks(lists, rs[..Ranking.Min(maxNum, |rs|)])
    ensures |KnownLists(lookup, Querying.Keywords(query))| == 0 ==> AnswerFixed(lookup, query, maxNum) == []
  {
    var words := Querying.Keywords(query);
    var lists := KnownLists(lookup, words);
    assert Intersecting.PostingLists(lists) by {
      forall l | 0 <= l < |lists|
        ensures Intersecting.Ascending(lists[l])
      {
        KnownListsIff(lookup, words, lists[l]);
      }
    }
    if |lists| > 0 {
      IntersectFixedCorrect(lists, maxNum);
    } else {
      Intersecting.IntersectCorrect(lists);
    }
  }
}
