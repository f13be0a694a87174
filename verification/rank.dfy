/** The sheet-05 query processor's ranking of an intersection: the items of
    one record form a run; each run becomes a `(summed score, first index)`
    pair; the pairs with the largest scores are kept, best first, and the
    kept records are written out worst first, every item carrying its
    record's summed score. Scores are modelled as exact reals. */
module Ranking {
  import opened SearchIndex
  import opened Wrappers

  /** One record of the items: its summed score and the index of its first
      item, the source's `(score, index)` pair. */
  datatype Group = Group(sum: real, start: nat)

  // ----- Records as runs of items ------------------------------------------

  /** End of the run of equal record ids that starts at `i`. */
  function RunEnd(items: seq<Item>, i: nat): (j: nat)
    requires i < |items|
    ensures i < j <= |items|
    ensures forall k :: i <= k < j ==> items[k].recordId == items[i].recordId
    ensures j < |items| ==> items[j].recordId != items[i].recordId
    decreases |items| - i
  {
    if i + 1 < |items| && items[i + 1].recordId == items[i].recordId then RunEnd(items, i + 1) else i + 1
  }

  /** The scores of `items[i..j]`, added up. */
  function ScoreSum(items: seq<Item>, i: nat, j: nat): real
    requires i <= j <= |items|
    decreases j - i
  {
    if i == j then 0.0 else items[i].score + ScoreSum(items, i + 1, j)
  }

  /** The pairs of the records from item `i` on, one per run. */
  function GroupsFrom(items: seq<Item>, i: nat): (gs: seq<Group>)
    requires i <= |items|
    ensures forall g :: g in gs ==> i <= g.start < |items|
    decreases |items| - i
  {
    if i == |items| then []
    else
      var e := RunEnd(items, i);
      [Group(ScoreSum(items, i, e), i)] + GroupsFrom(items, e)
  }

  /** The grouping loop as written: the previous record id starts out as
      `InvalidId`, so a first item with that id would add its score to a
      pair that does not exist. */
  function GroupsAsWritten(items: seq<Item>): (r: Option<seq<Group>>)
    ensures r.None? <==> |items| > 0 && items[0].recordId == InvalidId
    ensures r.Some? ==> r.value == GroupsFrom(items, 0)
  {
    if |items| > 0 && items[0].recordId == InvalidId then None else Some(GroupsFrom(items, 0))
  }

  /** `gs` cuts `items[i..]` into its maximal runs of equal record ids, in
      order, each pair holding its run's first index and score total. */
  ghost predicate RunsFrom(items: seq<Item>, i: nat, gs: seq<Group>)
    requires i <= |items|
  {
    && (|gs| == 0 <==> i == |items|)
    && (i < |items| ==> gs[0].start == i)
    && (forall k :: 0 <= k < |gs| ==> i <= gs[k].start < |items|)
    && (forall k :: 0 <= k < |gs| ==> gs[k].sum == ScoreSum(items, gs[k].start, RunEnd(items, gs[k].start)))
    && (forall k :: 0 <= k < |gs| - 1 ==> gs[k + 1].start == RunEnd(items, gs[k].start))
    && (|gs| > 0 ==> RunEnd(items, gs[|gs| - 1].start) == |items|)
  }

  /** The pairs cut the items into their maximal runs of equal record ids. */
  lemma {:induction false} GroupsAreRuns(items: seq<Item>, i: nat)
    requires i <= |items|
    ensures RunsFrom(items, i, GroupsFrom(items, i))
    decreases |items| - i
  {
    if i < |items| {
      var e := RunEnd(items, i);
      GroupsAreRuns(items, e);
      var rest := GroupsFrom(items, e);
      assert GroupsFrom(items, i) == [Group(ScoreSum(items, i, e), i)] + rest;
      RunsCons(items, i, e, rest);
    }
  }

  /** The run at `i` followed by the runs after it. */
  lemma RunsCons(items: seq<Item>, i: nat, e: nat, rest: seq<Group>)
    requires i < |items| && e == RunEnd(items, i) && RunsFrom(items, e, rest)
    ensures RunsFrom(items, i, [Group(ScoreSum(items, i, e), i)] + rest)
  {
    var gs := [Group(ScoreSum(items, i, e), i)] + rest;
    forall k | 0 <= k < |gs| - 1
      ensures gs[k + 1].start == RunEnd(items, gs[k].start)
    {
      assert gs[k + 1] == rest[k];
      if k > 0 {
        assert gs[k] == rest[k - 1];
      }
    }
    assert forall k :: 0 < k < |gs| ==> gs[k] == rest[k - 1];
  }

  /** Splitting a score total at `j`. */
  lemma {:induction false} ScoreSumSplit(items: seq<Item>, i: nat, j: nat, k: nat)
    requires i <= j <= k <= |items|
    ensures ScoreSum(items, i, k) == ScoreSum(items, i, j) + ScoreSum(items, j, k)
    decreases j - i
  {
    if i < j {
      ScoreSumSplit(items, i + 1, j, k);
    }
  }

  function Sums(gs: seq<Group>): real {
    if |gs| == 0 then 0.0 else gs[0].sum + Sums(gs[1..])
  }

  /** No score is lost or counted twice: the pairs' scores add up to the
      items' scores. */
  lemma {:induction false} GroupsKeepScore(items: seq<Item>, i: nat)
    requires i <= |items|
    ensures Sums(GroupsFrom(items, i)) == ScoreSum(items, i, |items|)
    decreases |items| - i
  {
    if i < |items| {
      var e := RunEnd(items, i);
      GroupsKeepScore(items, e);
      ScoreSumSplit(items, i, e, |items|);
      var gs := GroupsFrom(items, i);
      assert gs[1..] == GroupsFrom(items, e);
    }
  }

  /** A run is fixed by its extent: equal record ids up to `j` and a
      different one at `j`. */
  lemma {:induction false} RunEndAt(items: seq<Item>, i: nat, j: nat)
    requires i < j <= |items|
    requires forall k :: i <= k < j ==> items[k].recordId == items[i].recordId
    requires j < |items| ==> items[j].recordId != items[i].recordId
    ensures RunEnd(items, i) == j
    decreases j - i
  {
    if i + 1 < j {
      RunEndAt(items, i + 1, j);
    }
  }

  /** Runs only look forward: the run at `|x| + i` of `x + y` is the run at
      `i` of `y`, moved by `|x|`. */
  lemma {:induction false} RunEndShift(x: seq<Item>, y: seq<Item>, i: nat)
    requires i < |y|
    ensures RunEnd(x + y, |x| + i) == |x| + RunEnd(y, i)
    decreases |y| - i
  {
    var xy := x + y;
    assert xy[|x| + i] == y[i];
    if i + 1 < |y| {
      assert xy[|x| + i + 1] == y[i + 1];
      if y[i + 1].recordId == y[i].recordId {
        RunEndShift(x, y, i + 1);
      }
    }
  }

  /** The pairs of `x + y` from `|x| + i` are those of `y` from `i`, their
      first indices moved by `|x|`. */
  lemma {:induction false} GroupsShift(x: seq<Item>, y: seq<Item>, i: nat)
    requires i <= |y|
    ensures |GroupsFrom(x + y, |x| + i)| == |GroupsFrom(y, i)|
    ensures forall k :: 0 <= k < |GroupsFrom(y, i)| ==>
      GroupsFrom(x + y, |x| + i)[k].start == |x| + GroupsFrom(y, i)[k].start
    decreases |y| - i
  {
    if i < |y| {
      var e := RunEnd(y, i);
      RunEndShift(x, y, i);
      GroupsShift(x, y, e);
      var a' := GroupsFrom(x + y, |x| + e);
      var b' := GroupsFrom(y, e);
      var a := [Group(ScoreSum(x + y, |x| + i, |x| + e), |x| + i)] + a';
      var b := [Group(ScoreSum(y, i, e), i)] + b';
      assert GroupsFrom(x + y, |x| + i) == a;
      assert GroupsFrom(y, i) == b;
      ShiftedCons(GroupsFrom(x + y, |x| + i), a', GroupsFrom(y, i), b', |x|);
    }
  }

  /** Pairs moved by `off`, each with one more moved pair in front. */
  lemma ShiftedCons(a: seq<Group>, a': seq<Group>, b: seq<Group>, b': seq<Group>, off: int)
    requires |a| > 0 && |b| > 0 && a == [a[0]] + a' && b == [b[0]] + b'
    requires |a'| == |b'| && a[0].start == off + b[0].start
    requires forall k :: 0 <= k < |b'| ==> a'[k].start == off + b'[k].start
    ensures |a| == |b|
    ensures forall k :: 0 <= k < |b| ==> a[k].start == off + b[k].start
  {
    forall k | 0 <= k < |b|
      ensures a[k].start == off + b[k].start
    {
      if k > 0 {
        assert a[k] == a'[k - 1] && b[k] == b'[k - 1];
      }
    }
  }

  /** The pairs' first indices strictly increase, so no pair occurs twice. */
  lemma {:induction false} GroupsAscend(items: seq<Item>, i: nat)
    requires i <= |items|
    ensures forall j, k :: 0 <= j < k < |GroupsFrom(items, i)| ==>
      GroupsFrom(items, i)[j].start < GroupsFrom(items, i)[k].start
    decreases |items| - i
  {
    if i < |items| {
      var e := RunEnd(items, i);
      GroupsAscend(items, e);
      var gs := GroupsFrom(items, i);
      var rest := GroupsFrom(items, e);
      assert gs[1..] == rest;
      forall j, k | 0 <= j < k < |gs|
        ensures gs[j].start < gs[k].start
      {
        assert gs[k] == rest[k - 1];
        if j > 0 {
          assert gs[j] == rest[j - 1];
        }
      }
    }
  }

  // ----- Records laid out one after another -------------------------------

  function Flatten(bs: seq<seq<Item>>): seq<Item> {
    if |bs| == 0 then [] else bs[0] + Flatten(bs[1..])
  }

  /** The items of one record: at least one, all with the same record id. */
  predicate OneRecord(b: seq<Item>) {
    |b| > 0 && forall j :: 0 <= j < |b| ==> b[j].recordId == b[0].recordId
  }

  /** Blocks of single records, neighbours of different records. */
  ghost predicate RecordBlocks(bs: seq<seq<Item>>) {
    && (forall k :: 0 <= k < |bs| ==> OneRecord(bs[k]))
    && (forall i, j :: 0 <= i && j == i + 1 && j < |bs| ==> bs[i][0].recordId != bs[j][0].recordId)
  }

  /** A record's block followed by another record's items is one run. */
  lemma {:induction false} FirstRun(b: seq<Item>, rest: seq<Item>)
    requires OneRecord(b)
    requires |rest| > 0 ==> rest[0].recordId != b[0].recordId
    ensures RunEnd(b + rest, 0) == |b|
    ensures GroupsFrom(b + rest, 0) == [Group(ScoreSum(b + rest, 0, |b|), 0)] + GroupsFrom(b + rest, |b|)
  {
    var all := b + rest;
    forall k | 0 <= k < |b|
      ensures all[k].recordId == all[0].recordId
    {
      assert all[k] == b[k];
    }
    if |rest| > 0 {
      assert all[|b|] == rest[0];
    }
    RunEndAt(all, 0, |b|);
  }

  lemma RecordBlocksTail(bs: seq<seq<Item>>)
    requires RecordBlocks(bs) && |bs| > 0
    ensures RecordBlocks(bs[1..])
  {
    var tail := bs[1..];
    forall k | 0 <= k < |tail|
      ensures OneRecord(tail[k])
    {
      assert tail[k] == bs[k + 1];
    }
    forall i, j | 0 <= i && j == i + 1 && j < |tail|
      ensures tail[i][0].recordId != tail[j][0].recordId
    {
      assert tail[i] == bs[i + 1] && tail[j] == bs[j + 1];
    }
  }

  /** The pairs of a record's block followed by other items: the block's
      pair, then the other items' pairs moved by the block's length. */
  lemma {:induction false} BlockThenRest(b: seq<Item>, rest: seq<Item>, all: seq<Item>, gs: seq<Group>, gs': seq<Group>)
    requires OneRecord(b) && (|rest| > 0 ==> rest[0].recordId != b[0].recordId)
    requires all == b + rest && gs == GroupsFrom(all, 0) && gs' == GroupsFrom(rest, 0)
    ensures |gs| == 1 + |gs'| && gs[0].start == 0 && RunEnd(all, 0) == |b|
    ensures forall k :: 0 <= k < |gs'| ==> gs[k + 1].start == |b| + gs'[k].start
    ensures forall k :: 0 <= k < |gs'| ==>
      gs'[k].start < |rest| && RunEnd(all, |b| + gs'[k].start) == |b| + RunEnd(rest, gs'[k].start)
  {
    FirstRun(b, rest);
    GroupsShift(b, rest, 0);
    assert gs[1..] == GroupsFrom(b + rest, |b| + 0);
    forall k | 0 <= k < |gs'|
      ensures gs'[k].start < |rest|
      ensures RunEnd(all, |b| + gs'[k].start) == |b| + RunEnd(rest, gs'[k].start)
    {
      assert gs'[k] in gs';
      RunEndShift(b, rest, gs'[k].start);
    }
  }

  lemma {:induction false} FlattenCount(bs: seq<seq<Item>>)
    requires RecordBlocks(bs)
    ensures |GroupsFrom(Flatten(bs), 0)| == |bs|
  {
    if |bs| > 0 {
      var tail := bs[1..];
      var rest := Flatten(tail);
      RecordBlocksTail(bs);
      FlattenCount(tail);
      assert OneRecord(bs[0]);
      if |tail| > 0 {
        assert OneRecord(tail[0]);
        assert rest[0] == tail[0][0];
      }
      BlockThenRest(bs[0], rest, Flatten(bs), GroupsFrom(Flatten(bs), 0), GroupsFrom(rest, 0));
    }
  }

  /** Block `k` of flattened record blocks is the run of pair `k`, read in
      place from the pair's first index `st`. */
  lemma {:induction false} FlattenRunAt(bs: seq<seq<Item>>, all: seq<Item>, gs: seq<Group>, k: nat) returns (st: nat)
    requires RecordBlocks(bs) && k < |bs| && all == Flatten(bs) && gs == GroupsFrom(all, 0)
    ensures |gs| == |bs| && st == gs[k].start && st + |bs[k]| <= |all|
    ensures RunEnd(all, st) == st + |bs[k]|
    ensures forall l :: 0 <= l < |bs[k]| ==> all[st + l] == bs[k][l]
    decreases k, 1
  {
    if k == 0 {
      st := FlattenRunFirst(bs, all, gs, bs[1..], Flatten(bs[1..]), GroupsFrom(Flatten(bs[1..]), 0));
    } else {
      st := FlattenRunLater(bs, all, gs, k);
    }
  }

  /** The induction step of `FlattenRunAt`, for a block after the first. */
  lemma {:induction false} FlattenRunLater(bs: seq<seq<Item>>, all: seq<Item>, gs: seq<Group>, k: nat) returns (st: nat)
    requires RecordBlocks(bs) && 0 < k < |bs| && all == Flatten(bs) && gs == GroupsFrom(all, 0)
    ensures |gs| == |bs| && st == gs[k].start && st + |bs[k]| <= |all|
    ensures RunEnd(all, st) == st + |bs[k]|
    ensures forall l :: 0 <= l < |bs[k]| ==> all[st + l] == bs[k][l]
    decreases k, 0
  {
    RecordBlocksTail(bs);
    var tail := bs[1..];
    var rest := Flatten(tail);
    var gs' := GroupsFrom(rest, 0);
    var st' := FlattenRunAt(tail, rest, gs', k - 1);
    st := FlattenRunNext(bs, all, gs, k, tail, rest, gs', tail[k - 1], st');
  }

  /** The first block is the first run. */
  lemma FlattenRunFirst(bs: seq<seq<Item>>, all: seq<Item>, gs: seq<Group>,
                        tail: seq<seq<Item>>, rest: seq<Item>, gs': seq<Group>) returns (st: nat)
    requires RecordBlocks(bs) && 0 < |bs| && all == Flatten(bs) && gs == GroupsFrom(all, 0)
    requires tail == bs[1..] && rest == Flatten(tail) && gs' == GroupsFrom(rest, 0)
    ensures |gs| == |bs| && st == gs[0].start && st + |bs[0]| <= |all|
    ensures RunEnd(all, st) == st + |bs[0]|
    ensures forall l :: 0 <= l < |bs[0]| ==> all[st + l] == bs[0][l]
  {
    FlattenCount(bs);
    FlattenSplit(bs);
    BlockThenRest(bs[0], rest, all, gs, gs');
    st := 0;
  }

  /** A later block sits where it sits among the blocks after the first,
      shifted by the first block's length. */
  lemma FlattenRunNext(bs: seq<seq<Item>>, all: seq<Item>, gs: seq<Group>, k: nat,
                       tail: seq<seq<Item>>, rest: seq<Item>, gs': seq<Group>, blk: seq<Item>, st': nat)
    returns (st: nat)
    requires RecordBlocks(bs) && 0 < k < |bs| && all == Flatten(bs) && gs == GroupsFrom(all, 0)
    requires tail == bs[1..] && rest == Flatten(tail) && gs' == GroupsFrom(rest, 0) && blk == tail[k - 1]
    requires |gs'| == |tail| && st' == gs'[k - 1].start && st' + |blk| <= |rest|
    requires RunEnd(rest, st') == st' + |blk|
    requires forall l :: 0 <= l < |blk| ==> rest[st' + l] == blk[l]
    ensures |gs| == |bs| && st == gs[k].start && st + |bs[k]| <= |all|
    ensures RunEnd(all, st) == st + |bs[k]|
    ensures forall l :: 0 <= l < |bs[k]| ==> all[st + l] == bs[k][l]
  {
    FlattenCount(bs);
    FlattenSplit(bs);
    var b := bs[0];
    BlockThenRest(b, rest, all, gs, gs');
    assert bs[k] == blk;
    st := |b| + st';
    SuffixInPlace(b, rest, all, st', st, blk, bs[k]);
  }

  /** Record blocks split into the first block and the blocks after it. */
  lemma FlattenSplit(bs: seq<seq<Item>>)
    requires RecordBlocks(bs) && |bs| > 0
    ensures RecordBlocks(bs[1..]) && Flatten(bs) == bs[0] + Flatten(bs[1..]) && OneRecord(bs[0])
    ensures |Flatten(bs[1..])| > 0 ==> Flatten(bs[1..])[0].recordId != bs[0][0].recordId
  {
    RecordBlocksTail(bs);
    var tail := bs[1..];
    if |tail| > 0 {
      assert OneRecord(tail[0]);
      assert Flatten(tail)[0] == tail[0][0];
    }
  }

  /** A block read in place in `rest` is read in place in `b + rest`,
      shifted by `|b|`. */
  lemma SuffixInPlace(b: seq<Item>, rest: seq<Item>, all: seq<Item>, st': nat, st: nat, blk: seq<Item>, blk': seq<Item>)
    requires all == b + rest && st == |b| + st' && blk' == blk
    requires st' + |blk| <= |rest| && forall l :: 0 <= l < |blk| ==> rest[st' + l] == blk[l]
    ensures forall l :: 0 <= l < |blk'| ==> all[st + l] == blk'[l]
  {
    forall l | 0 <= l < |blk'|
      ensures all[st + l] == blk'[l]
    {
      assert all[st + l] == rest[st' + l];
    }
  }

  /** Flattened record blocks: one pair per block, each block one run, read
      in place. */
  lemma FlattenRuns(bs: seq<seq<Item>>, all: seq<Item>, gs: seq<Group>)
    requires RecordBlocks(bs) && all == Flatten(bs) && gs == GroupsFrom(all, 0)
    ensures |gs| == |bs|
    ensures forall a :: 0 <= a < |bs| ==>
      gs[a].start + |bs[a]| <= |all| && RunEnd(all, gs[a].start) == gs[a].start + |bs[a]|
    ensures forall a, l :: 0 <= a < |bs| && 0 <= l < |bs[a]| ==> all[gs[a].start + l] == bs[a][l]
  {
    FlattenCount(bs);
    forall k | 0 <= k < |bs|
      ensures gs[k].start + |bs[k]| <= |all| && RunEnd(all, gs[k].start) == gs[k].start + |bs[k]|
      ensures forall l :: 0 <= l < |bs[k]| ==> all[gs[k].start + l] == bs[k][l]
    {
      var st := FlattenRunAt(bs, all, gs, k);
      forall l | 0 <= l < |bs[k]|
        ensures all[gs[k].start + l] == bs[k][l]
      {
        assert all[st + l] == bs[k][l];
      }
    }
  }

  // ----- The order of `std::greater` on the pairs --------------------------

  /** `a` ranks at least as high as `b`: a larger score, or an equal score
      and a later first item. */
  predicate AtLeast(a: Group, b: Group) {
    a.sum > b.sum || (a.sum == b.sum && a.start >= b.start)
  }

  ghost predicate Descending(s: seq<Group>) {
    forall i, j :: 0 <= i < j < |s| ==> AtLeast(s[i], s[j])
  }

  /** Insertion in front of the first pair `g` ranks at least as high as. */
  function Insert(g: Group, s: seq<Group>): (r: seq<Group>)
    ensures |r| == |s| + 1
    ensures multiset(r) == multiset(s) + multiset{g}
  {
    if |s| == 0 || AtLeast(g, s[0]) then [g] + s
    else
      assert s == [s[0]] + s[1..];
      [s[0]] + Insert(g, s[1..])
  }

  /** The pairs, best first. */
  function SortDesc(gs: seq<Group>): (r: seq<Group>)
    ensures |r| == |gs|
    ensures multiset(r) == multiset(gs)
  {
    if |gs| == 0 then []
    else
      assert gs == [gs[0]] + gs[1..];
      Insert(gs[0], SortDesc(gs[1..]))
  }

  lemma {:induction false} InsertDescending(g: Group, s: seq<Group>)
    requires Descending(s)
    ensures Descending(Insert(g, s))
  {
    var r := Insert(g, s);
    if |s| == 0 || AtLeast(g, s[0]) {
      forall j | 1 <= j < |r|
        ensures AtLeast(r[0], r[j])
      {
        assert r[j] == s[j - 1];
      }
    } else {
      InsertDescending(g, s[1..]);
      var rest := Insert(g, s[1..]);
      forall j | 0 <= j < |rest|
        ensures AtLeast(s[0], rest[j])
      {
        InsertMember(g, s[1..], j);
        if rest[j] != g {
          var x :| 0 <= x < |s[1..]| && s[1..][x] == rest[j];
          assert s[x + 1] == rest[j];
        }
      }
      forall i, j | 0 <= i < j < |r|
        ensures AtLeast(r[i], r[j])
      {
        assert r[j] == rest[j - 1];
        if i > 0 {
          assert r[i] == rest[i - 1];
        }
      }
    }
  }

  /** An inserted sequence holds the new pair and the old ones, nothing else. */
  lemma InsertMember(g: Group, s: seq<Group>, j: nat)
    requires j < |Insert(g, s)|
    ensures Insert(g, s)[j] == g || Insert(g, s)[j] in s
  {
    var r := Insert(g, s);
    assert r[j] in multiset(r);
  }

  lemma {:induction false} SortDescDescending(gs: seq<Group>)
    ensures Descending(SortDesc(gs))
  {
    if |gs| > 0 {
      SortDescDescending(gs[1..]);
      InsertDescending(gs[0], SortDesc(gs[1..]));
    }
  }

  ghost predicate Distinct(s: seq<Group>) {
    forall i, j :: 0 <= i < j < |s| ==> s[i] != s[j]
  }

  lemma {:induction false} InsertDistinct(g: Group, s: seq<Group>)
    requires Distinct(s) && g !in s
    ensures Distinct(Insert(g, s))
  {
    var r := Insert(g, s);
    if |s| == 0 || AtLeast(g, s[0]) {
      forall i, j | 0 <= i < j < |r|
        ensures r[i] != r[j]
      {
        assert r[j] == s[j - 1];
        if i > 0 {
          assert r[i] == s[i - 1];
        }
      }
    } else {
      var tail := s[1..];
      assert g !in tail;
      forall j | 0 <= j < |tail|
        ensures s[0] != tail[j]
      {
        assert tail[j] == s[j + 1];
      }
      InsertDistinct(g, tail);
      var rest := Insert(g, tail);
      forall i, j | 0 <= i < j < |r|
        ensures r[i] != r[j]
      {
        assert r[j] == rest[j - 1];
        if i > 0 {
          assert r[i] == rest[i - 1];
        } else {
          InsertMember(g, tail, j - 1);
        }
      }
    }
  }

  lemma {:induction false} SortDescDistinct(gs: seq<Group>)
    requires Distinct(gs)
    ensures Distinct(SortDesc(gs))
  {
    if |gs| > 0 {
      var tail := gs[1..];
      assert Distinct(tail) by {
        forall i, j | 0 <= i < j < |tail|
          ensures tail[i] != tail[j]
        {
          assert tail[i] == gs[i + 1] && tail[j] == gs[j + 1];
        }
      }
      SortDescDistinct(tail);
      forall j | 0 <= j < |tail|
        ensures tail[j] != gs[0]
      {
        assert tail[j] == gs[j + 1];
      }
      assert gs[0] !in multiset(SortDesc(tail));
      InsertDistinct(gs[0], SortDesc(tail));
    }
  }

  /** No pair is kept twice. */
  lemma TopDistinct(gs: seq<Group>, maxNum: nat)
    requires Distinct(gs)
    ensures Distinct(Top(gs, maxNum))
  {
    SortDescDistinct(gs);
  }

  function Min(a: nat, b: nat): nat {
    if a < b then a else b
  }

  /** The pairs `std::partial_sort` leaves in front: the best
      `min(maxNum, |gs|)` pairs, best first. */
  function Top(gs: seq<Group>, maxNum: nat): (sel: seq<Group>)
    ensures forall g :: g in sel ==> g in gs
  {
    var s := SortDesc(gs);
    var sel := s[..Min(maxNum, |gs|)];
    assert forall g :: g in sel ==> g in multiset(s);
    sel
  }

  /** The kept pairs are `min(maxNum, |gs|)` of the pairs, best first, and
      none of the pairs left out ranks above a kept one. */
  lemma TopIsBest(gs: seq<Group>, maxNum: nat)
    ensures var s := SortDesc(gs); var m := Min(maxNum, |gs|);
      && |Top(gs, maxNum)| == m
      && multiset(Top(gs, maxNum)) + multiset(s[m..]) == multiset(gs)
      && Descending(Top(gs, maxNum))
      && forall a, b :: a in Top(gs, maxNum) && b in s[m..] ==> AtLeast(a, b)
  {
    var s := SortDesc(gs);
    var m := Min(maxNum, |gs|);
    SortDescDescending(gs);
    assert Top(gs, maxNum) == s[..m];
    DescendingSplit(s, m);
  }

  /** A descending sequence cut at `m`: both parts together are the whole,
      the front is descending, and every pair in front ranks at least as
      high as every pair behind. */
  lemma DescendingSplit(s: seq<Group>, m: nat)
    requires Descending(s) && m <= |s|
    ensures multiset(s[..m]) + multiset(s[m..]) == multiset(s)
    ensures Descending(s[..m])
    ensures forall a, b :: a in s[..m] && b in s[m..] ==> AtLeast(a, b)
  {
    assert s == s[..m] + s[m..];
    forall a, b | a in s[..m] && b in s[m..]
      ensures AtLeast(a, b)
    {
      var i :| 0 <= i < m && s[i] == a;
      var j :| 0 <= j < |s| - m && s[m..][j] == b;
      assert s[m + j] == b;
    }
  }

  // ----- Writing the result --------------------------------------------------

  /** The items of the record of pair `g`, each with the pair's score. */
  function EmitGroup(items: seq<Item>, g: Group): (out: seq<Item>)
    requires g.start < |items|
    ensures |out| == RunEnd(items, g.start) - g.start
    ensures forall k :: 0 <= k < |out| ==> out[k] == items[g.start + k].(score := g.sum)
  {
    seq(RunEnd(items, g.start) - g.start, k requires 0 <= k < RunEnd(items, g.start) - g.start =>
      items[g.start + k].(score := g.sum))
  }

  predicate Starts(items: seq<Item>, sel: seq<Group>) {
    forall g :: g in sel ==> g.start < |items|
  }

  /** The records of `sel` from the last to the first. */
  function Emit(items: seq<Item>, sel: seq<Group>): seq<Item>
    requires Starts(items, sel)
  {
    if |sel| == 0 then []
    else
      assert sel[|sel| - 1] in sel;
      EmitGroup(items, sel[|sel| - 1]) + Emit(items, sel[..|sel| - 1])
  }

  /** The ranking with the bound the inner loop lacks: kept records, worst
      first, their items carrying the record's summed score. */
  function Rank(items: seq<Item>, maxNum: nat): seq<Item> {
    Emit(items, Top(GroupsFrom(items, 0), maxNum))
  }

  /** The ranking as written: the copy loop of a kept record stops only at a
      different record id, so for the record whose run ends the items it
      reads `items[|items|]`. */
  function RankAsWritten(items: seq<Item>, maxNum: nat): Option<seq<Item>> {
    match GroupsAsWritten(items)
    case None => None
    case Some(gs) =>
      var sel := Top(gs, maxNum);
      if exists t :: 0 <= t < |sel| && RunEnd(items, sel[t].start) == |items| then None
      else Some(Emit(items, sel))
  }

  // ----- What the result holds -----------------------------------------------

  /** `o` is an item of the record of pair `g`, with the pair's score. */
  ghost predicate FromGroup(items: seq<Item>, g: Group, o: Item)
    requires g.start < |items|
  {
    exists j :: g.start <= j < RunEnd(items, g.start) && o == items[j].(score := g.sum)
  }

  /** One record of `Emit`, unfolded. */
  lemma EmitStep(items: seq<Item>, sel: seq<Group>)
    requires Starts(items, sel) && |sel| > 0
    ensures sel[|sel| - 1].start < |items| && Starts(items, sel[..|sel| - 1])
    ensures Emit(items, sel) == EmitGroup(items, sel[|sel| - 1]) + Emit(items, sel[..|sel| - 1])
  {
    assert sel[|sel| - 1] in sel;
  }

  /** Every written item belongs to a kept record and carries its score. */
  lemma EmitSound(items: seq<Item>, sel: seq<Group>)
    requires Starts(items, sel)
    ensures forall k :: 0 <= k < |Emit(items, sel)| ==>
      exists t :: 0 <= t < |sel| && FromGroup(items, sel[t], Emit(items, sel)[k])
  {
    forall k | 0 <= k < |Emit(items, sel)|
      ensures exists t :: 0 <= t < |sel| && FromGroup(items, sel[t], Emit(items, sel)[k])
    {
      var t := EmitFrom(items, sel, k);
    }
  }

  /** The kept record that written item `k` comes from. */
  lemma {:induction false} EmitFrom(items: seq<Item>, sel: seq<Group>, k: nat) returns (t: nat)
    requires Starts(items, sel) && k < |Emit(items, sel)|
    ensures t < |sel| && FromGroup(items, sel[t], Emit(items, sel)[k])
    decreases |sel|
  {
    if |sel| == 0 {
      assert false;
    }
    var n := |sel| - 1;
    var g := sel[n];
    var init := sel[..n];
    EmitStep(items, sel);
    var head := EmitGroup(items, g);
    if k < |head| {
      FromGroupAt(items, g, g.start + k, Emit(items, sel)[k]);
      t := n;
    } else {
      assert Emit(items, sel)[k] == Emit(items, init)[k - |head|];
      t := EmitFrom(items, init, k - |head|);
      assert sel[t] == init[t];
    }
  }

  /** Item `j` of the run of `g`, with the pair's score, is from `g`. */
  lemma FromGroupAt(items: seq<Item>, g: Group, j: nat, o: Item)
    requires g.start <= j < |items| && j < RunEnd(items, g.start) && o == items[j].(score := g.sum)
    ensures FromGroup(items, g, o)
  {
  }

  /** Item `j` of kept record `t` is written, with the record's score. */
  lemma {:induction false} EmitHas(items: seq<Item>, sel: seq<Group>, t: nat, j: nat)
    requires Starts(items, sel) && t < |sel|
    requires sel[t].start <= j < RunEnd(items, sel[t].start)
    ensures items[j].(score := sel[t].sum) in Emit(items, sel)
    decreases |sel|
  {
    var n := |sel| - 1;
    var g := sel[n];
    var init := sel[..n];
    EmitStep(items, sel);
    var head := EmitGroup(items, g);
    var out := Emit(items, sel);
    if t == n {
      assert out[j - g.start] == head[j - g.start];
    } else {
      assert init[t] == sel[t];
      EmitHas(items, init, t, j);
    }
  }

  /** Every item of a kept record is written, with the record's score. */
  lemma EmitComplete(items: seq<Item>, sel: seq<Group>)
    requires Starts(items, sel)
    ensures forall t, j :: 0 <= t < |sel| && sel[t].start <= j < RunEnd(items, sel[t].start) ==>
      items[j].(score := sel[t].sum) in Emit(items, sel)
  {
    forall t, j | 0 <= t < |sel| && sel[t].start <= j < RunEnd(items, sel[t].start) {
      EmitHas(items, sel, t, j);
    }
  }

  /** Written from the worst kept record to the best, the scores never
      decrease. */
  lemma {:induction false} EmitScoresRise(items: seq<Item>, sel: seq<Group>)
    requires Starts(items, sel) && Descending(sel)
    ensures forall i, j :: 0 <= i < j < |Emit(items, sel)| ==> Emit(items, sel)[i].score <= Emit(items, sel)[j].score
    ensures forall k :: 0 <= k < |Emit(items, sel)| ==> sel[|sel| - 1].sum <= Emit(items, sel)[k].score
    decreases |sel|
  {
    if |sel| > 0 {
      var n := |sel| - 1;
      var g := sel[n];
      var init := sel[..n];
      var head := EmitGroup(items, g);
      var rest := Emit(items, init);
      EmitScoresRise(items, init);
      assert Emit(items, sel) == head + rest;
      if n > 0 {
        assert AtLeast(sel[n - 1], sel[n]);
        assert init[n - 1] == sel[n - 1];
      }
      RiseConcat(head, rest, g.sum);
    }
  }

  /** Items of score `lo` in front of rising scores of at least `lo` give
      rising scores of at least `lo`. */
  lemma RiseConcat(head: seq<Item>, rest: seq<Item>, lo: real)
    requires forall k :: 0 <= k < |head| ==> head[k].score == lo
    requires forall i, j :: 0 <= i < j < |rest| ==> rest[i].score <= rest[j].score
    requires forall k :: 0 <= k < |rest| ==> lo <= rest[k].score
    ensures forall i, j :: 0 <= i < j < |head + rest| ==> (head + rest)[i].score <= (head + rest)[j].score
    ensures forall k :: 0 <= k < |head + rest| ==> lo <= (head + rest)[k].score
  {
    var out := head + rest;
    forall k | 0 <= k < |out|
      ensures lo <= out[k].score
    {
      if k >= |head| {
        assert out[k] == rest[k - |head|];
      }
    }
    forall i, j | 0 <= i < j < |out|
      ensures out[i].score <= out[j].score
    {
      if j < |head| {
      } else if i < |head| {
        assert out[j] == rest[j - |head|];
      } else {
        assert out[i] == rest[i - |head|];
        assert out[j] == rest[j - |head|];
      }
    }
  }

  /** The ranking keeps the best `min(maxNum, #records)` records (see
      `TopIsBest`), writes exactly their items with their summed scores, and
      writes them with non-decreasing scores. */
  lemma RankCorrect(items: seq<Item>, maxNum: nat)
    ensures var gs := GroupsFrom(items, 0); var sel := Top(gs, maxNum);
      && |sel| == Min(maxNum, |gs|)
      && Starts(items, sel)
      && (forall k :: 0 <= k < |Rank(items, maxNum)| ==>
            exists t :: 0 <= t < |sel| && FromGroup(items, sel[t], Rank(items, maxNum)[k]))
      && (forall t, j :: 0 <= t < |sel| && sel[t].start <= j < RunEnd(items, sel[t].start) ==>
            items[j].(score := sel[t].sum) in Rank(items, maxNum))
      && (forall i, j :: 0 <= i < j < |Rank(items, maxNum)| ==> Rank(items, maxNum)[i].score <= Rank(items, maxNum)[j].score)
  {
    var gs := GroupsFrom(items, 0);
    var sel := Top(gs, maxNum);
    TopIsBest(gs, maxNum);
    assert Rank(items, maxNum) == Emit(items, sel);
    EmitSound(items, sel);
    EmitComplete(items, sel);
    EmitScoresRise(items, sel);
  }

  /** Where the ranking as written returns at all, it returns the bounded
      ranking. */
  lemma RankAsWrittenAgrees(items: seq<Item>, maxNum: nat)
    requires RankAsWritten(items, maxNum).Some?
    ensures RankAsWritten(items, maxNum).value == Rank(items, maxNum)
  {
  }

  /** The out-of-bounds read: whenever the items hold a single record and at
      least one record is asked for, the copy loop runs off the end. */
  lemma RankAsWrittenSingleRecord(items: seq<Item>, maxNum: nat)
    requires |items| > 0 && items[0].recordId != InvalidId && maxNum > 0
    requires forall k :: 0 <= k < |items| ==> items[k].recordId == items[0].recordId
    ensures RankAsWritten(items, maxNum) == None
    ensures |Rank(items, maxNum)| == |items|
  {
    var e := RunEnd(items, 0);
    assert e == |items|;
    assert GroupsFrom(items, e) == [];
    var gs := GroupsFrom(items, 0);
    assert gs == [Group(ScoreSum(items, 0, e), 0)];
    var sel := Top(gs, maxNum);
    assert SortDesc(gs) == Insert(gs[0], SortDesc(gs[1..]));
    assert sel == gs;
    assert RunEnd(items, sel[0].start) == |items|;
    assert Emit(items, sel) == EmitGroup(items, sel[0]) + Emit(items, []);
  }

  /** The ranking as written fails exactly when the first item carries the
      invalid id, or when the items' last record is among the kept ones:
      that record's copy loop is the one that runs off the end. */
  lemma RankAsWrittenFailsIff(items: seq<Item>, maxNum: nat)
    ensures var gs := GroupsFrom(items, 0);
      RankAsWritten(items, maxNum).None? <==>
        || (|items| > 0 && items[0].recordId == InvalidId)
        || (|gs| > 0 && gs[|gs| - 1] in Top(gs, maxNum))
  {
    var gs := GroupsFrom(items, 0);
    KeptLastIff(items, gs, Top(gs, maxNum));
  }

  /** A kept pair's run ends the items exactly when it is the last pair. */
  lemma KeptLastIff(items: seq<Item>, gs: seq<Group>, sel: seq<Group>)
    requires gs == GroupsFrom(items, 0) && forall g :: g in sel ==> g in gs
    ensures (exists t :: 0 <= t < |sel| && RunEnd(items, sel[t].start) == |items|)
      <==> |gs| > 0 && gs[|gs| - 1] in sel
  {
    forall t | 0 <= t < |sel|
      ensures sel[t] in gs && (RunEnd(items, sel[t].start) == |items| <==> sel[t] == gs[|gs| - 1])
    {
      EndsOnlyLast(items, 0, sel[t]);
    }
  }

  /** Among the pairs from item `i` on, only the last one's run reaches the
      end of the items. */
  lemma {:induction false} EndsOnlyLast(items: seq<Item>, i: nat, g: Group)
    requires i <= |items| && g in GroupsFrom(items, i)
    ensures var gs := GroupsFrom(items, i);
      |gs| > 0 && g.start < |items| && (RunEnd(items, g.start) == |items| <==> g == gs[|gs| - 1])
    decreases |items| - i
  {
    var gs := GroupsFrom(items, i);
    var e := RunEnd(items, i);
    var rest := GroupsFrom(items, e);
    assert gs == [Group(ScoreSum(items, i, e), i)] + rest;
    if g.start == i {
      if e < |items| {
        assert rest[|rest| - 1] in rest;
      }
    } else {
      assert g in rest;
      EndsOnlyLast(items, e, g);
    }
  }

  /** A concrete instance: one item of record 0, one record asked for. */
  lemma RankAsWrittenExample()
    ensures RankAsWritten([Item(0, [0], 1, 1.0)], 1) == None
    ensures Rank([Item(0, [0], 1, 1.0)], 1) == [Item(0, [0], 1, 1.0)]
  {
    var items := [Item(0, [0], 1, 1.0)];
    RankAsWrittenSingleRecord(items, 1);
    assert RunEnd(items, 0) == 1;
    assert ScoreSum(items, 0, 1) == 1.0;
    var g := Group(1.0, 0);
    assert GroupsFrom(items, 0) == [g];
    assert Top([g], 1) == [g];
    assert EmitGroup(items, g) == items;
    assert Emit(items, [g]) == EmitGroup(items, g) + Emit(items, []);
  }

  // ----- Ranking record blocks ------------------------------------------------

  /** The record ids of the kept pairs, best first. */
  function KeptIds(items: seq<Item>, maxNum: nat): (ids: seq<int>)
    ensures |ids| == |Top(GroupsFrom(items, 0), maxNum)|
  {
    var sel := Top(GroupsFrom(items, 0), maxNum);
    seq(|sel|, t requires 0 <= t < |sel| => assert sel[t] in sel; items[sel[t].start].recordId)
  }

  /** Items `all` laid out as the record blocks `bs`, one pair per block,
      with the ranking's kept pairs and kept record ids. */
  ghost predicate RankedBlocks(bs: seq<seq<Item>>, all: seq<Item>, gs: seq<Group>, sel: seq<Group>,
                               kept: seq<int>, maxNum: nat)
  {
    && RecordBlocks(bs) && gs == GroupsFrom(all, 0) && |gs| == |bs|
    && (forall a :: 0 <= a < |bs| ==>
          gs[a].start + |bs[a]| <= |all| && RunEnd(all, gs[a].start) == gs[a].start + |bs[a]|)
    && (forall a, l :: 0 <= a < |bs| && 0 <= l < |bs[a]| ==> all[gs[a].start + l] == bs[a][l])
    && sel == Top(gs, maxNum) && kept == KeptIds(all, maxNum)
  }

  /** Flattened record blocks are laid out as their blocks. */
  lemma FlattenRanked(bs: seq<seq<Item>>, maxNum: nat)
    requires RecordBlocks(bs)
    ensures var all := Flatten(bs); var gs := GroupsFrom(all, 0);
      RankedBlocks(bs, all, gs, Top(gs, maxNum), KeptIds(all, maxNum), maxNum)
  {
    var all := Flatten(bs);
    var gs := GroupsFrom(all, 0);
    FlattenRuns(bs, all, gs);
    assert RankedBlocks(bs, all, gs, Top(gs, maxNum), KeptIds(all, maxNum), maxNum);
  }

  /** The pair kept in place `t` is the pair of block `a`. */
  lemma {:induction false} KeptBlock(bs: seq<seq<Item>>, all: seq<Item>, gs: seq<Group>, sel: seq<Group>,
                                     kept: seq<int>, maxNum: nat, t: nat) returns (a: nat)
    requires RankedBlocks(bs, all, gs, sel, kept, maxNum) && t < |sel|
    ensures a < |bs| && sel[t] == gs[a] && |kept| == |sel| && kept[t] == bs[a][0].recordId
  {
    assert sel[t] in gs;
    a :| 0 <= a < |gs| && gs[a] == sel[t];
    assert OneRecord(bs[a]);
    assert all[gs[a].start + 0] == bs[a][0];
  }

  /** Blocks of different records give different kept record ids, as many
      as asked for or present. */
  lemma {:induction false} KeptBlocksDistinct(bs: seq<seq<Item>>, all: seq<Item>, gs: seq<Group>, sel: seq<Group>,
                                              kept: seq<int>, maxNum: nat)
    requires RankedBlocks(bs, all, gs, sel, kept, maxNum)
    requires forall a, b :: 0 <= a < b < |bs| ==> bs[a][0].recordId != bs[b][0].recordId
    ensures |kept| == Min(maxNum, |bs|)
    ensures forall t :: 0 <= t < |kept| ==> exists a :: 0 <= a < |bs| && kept[t] == bs[a][0].recordId
    ensures forall s, t :: 0 <= s < t < |kept| ==> kept[s] != kept[t]
  {
    TopIsBest(gs, maxNum);
    GroupsAscend(all, 0);
    TopDistinct(gs, maxNum);
    forall t | 0 <= t < |kept|
      ensures exists a :: 0 <= a < |bs| && kept[t] == bs[a][0].recordId
    {
      var a := KeptBlock(bs, all, gs, sel, kept, maxNum, t);
    }
    forall s, t | 0 <= s < t < |kept|
      ensures kept[s] != kept[t]
    {
      var a := KeptBlock(bs, all, gs, sel, kept, maxNum, s);
      var b := KeptBlock(bs, all, gs, sel, kept, maxNum, t);
      assert sel[s] != sel[t];
    }
  }

  /** Item `k` of the ranking is item `j` of kept record `t`, with the
      record's score. */
  lemma RankedItem(all: seq<Item>, maxNum: nat, k: nat) returns (t: nat, j: nat)
    requires k < |Rank(all, maxNum)|
    ensures var sel := Top(GroupsFrom(all, 0), maxNum);
      t < |sel| && sel[t].start <= j < RunEnd(all, sel[t].start) && j < |all|
      && Rank(all, maxNum)[k] == all[j].(score := sel[t].sum)
  {
    var sel := Top(GroupsFrom(all, 0), maxNum);
    RankCorrect(all, maxNum);
    t :| 0 <= t < |sel| && FromGroup(all, sel[t], Rank(all, maxNum)[k]);
    j :| sel[t].start <= j < RunEnd(all, sel[t].start) && Rank(all, maxNum)[k] == all[j].(score := sel[t].sum);
  }

  /** Item `l` of block `a` sits at offset `l` of the block's pair. */
  lemma InPlace(bs: seq<seq<Item>>, all: seq<Item>, gs: seq<Group>, sel: seq<Group>,
                kept: seq<int>, maxNum: nat, a: nat, l: nat)
    requires RankedBlocks(bs, all, gs, sel, kept, maxNum) && a < |bs| && l < |bs[a]|
    ensures gs[a].start + l < |all| && all[gs[a].start + l] == bs[a][l]
  {
  }

  /** Every item written is an item of a kept record's block. */
  lemma {:induction false} RankBlocksSound(bs: seq<seq<Item>>, all: seq<Item>, gs: seq<Group>, sel: seq<Group>,
                                           kept: seq<int>, maxNum: nat, k: nat) returns (t: nat, a: nat, l: nat)
    requires RankedBlocks(bs, all, gs, sel, kept, maxNum) && k < |Rank(all, maxNum)|
    ensures t < |kept| && a < |bs| && l < |bs[a]| && kept[t] == bs[a][0].recordId
    ensures Rank(all, maxNum)[k] == bs[a][l].(score := Rank(all, maxNum)[k].score)
  {
    var j;
    t, j := RankedItem(all, maxNum, k);
    a := KeptBlock(bs, all, gs, sel, kept, maxNum, t);
    l := j - gs[a].start;
    InPlace(bs, all, gs, sel, kept, maxNum, a, l);
  }

  /** Every item of a kept record's block is written. */
  lemma {:induction false} RankBlocksHas(bs: seq<seq<Item>>, all: seq<Item>, gs: seq<Group>, sel: seq<Group>,
                                         kept: seq<int>, maxNum: nat, t: nat, l: nat) returns (a: nat, k: nat)
    requires RankedBlocks(bs, all, gs, sel, kept, maxNum) && t < |kept|
    requires forall b :: 0 <= b < |bs| ==> l < |bs[b]|
    ensures a < |bs| && kept[t] == bs[a][0].recordId
    ensures k < |Rank(all, maxNum)| && Rank(all, maxNum)[k] == bs[a][l].(score := Rank(all, maxNum)[k].score)
  {
    var out := Rank(all, maxNum);
    a := KeptBlock(bs, all, gs, sel, kept, maxNum, t);
    var j := sel[t].start + l;
    assert all[j] == bs[a][l];
    assert all[j].(score := sel[t].sum) in out by {
      assert Starts(all, sel);
      assert out == Emit(all, sel);
      EmitHas(all, sel, t, j);
    }
    k :| 0 <= k < |out| && out[k] == all[j].(score := sel[t].sum);
  }
}
