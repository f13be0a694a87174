/** The query processor's answer: the query is split into keywords, the
    item lists of the known keywords are intersected, and (sheet 05) the
    intersection is ranked. The sheet-02 processor returns the intersection
    as it is. */
module Querying {
  import opened SearchIndex
  import opened Wrappers
  import Splitting
  import Merging
  import Intersecting
  import Ranking

  /** The keywords of a query: its words between whitespace. */
  function Keywords(query: string): seq<string> {
    Splitting.Split(query, Splitting.Whitespace)
  }

  /** The item lists of the known keywords, in query order; a keyword with
      no items is skipped. */
  function KnownLists(idx: Index, words: seq<string>): (lists: seq<seq<Item>>)
    requires KeywordsIndexed(idx)
    ensures Intersecting.NonEmpty(lists)
    ensures |lists| <= |words|
  {
    if |words| == 0 then []
    else
      var items := Items(idx, words[0]);
      (if |items| > 0 then [items] else []) + KnownLists(idx, words[1..])
  }

  /** A list is among the known lists exactly when it is the non-empty item
      list of one of the words. */
  lemma {:induction false} KnownListsIff(idx: Index, words: seq<string>, items: seq<Item>)
    requires KeywordsIndexed(idx)
    ensures items in KnownLists(idx, words) <==>
      |items| > 0 && exists w :: w in words && Items(idx, w) == items
  {
    if |words| > 0 {
      KnownListsIff(idx, words[1..], items);
      if exists w :: w in words[1..] && Items(idx, w) == items {
        var w :| w in words[1..] && Items(idx, w) == items;
        assert w in words;
      }
      if |items| > 0 && exists w :: w in words && Items(idx, w) == items {
        var w :| w in words && Items(idx, w) == items;
        if w != words[0] {
          var j :| 0 <= j < |words| && words[j] == w;
          assert words[1..][j - 1] == w;
        }
      }
    }
  }

  /** Known lists are gathered word by word. */
  lemma {:induction false} KnownListsConcat(idx: Index, a: seq<string>, b: seq<string>)
    requires KeywordsIndexed(idx)
    ensures KnownLists(idx, a + b) == KnownLists(idx, a) + KnownLists(idx, b)
  {
    if |a| > 0 {
      var items := Items(idx, a[0]);
      var h := if |items| > 0 then [items] else [];
      assert (a + b)[0] == a[0] && (a + b)[1..] == a[1..] + b;
      KnownListsConcat(idx, a[1..], b);
      assert KnownLists(idx, a + b) == h + KnownLists(idx, a[1..] + b);
      assert KnownLists(idx, a) == h + KnownLists(idx, a[1..]);
      ListsAssoc(h, KnownLists(idx, a[1..]), KnownLists(idx, b));
    } else {
      assert a + b == b;
    }
  }

  lemma ListsAssoc(x: seq<seq<Item>>, y: seq<seq<Item>>, z: seq<seq<Item>>)
    ensures x + (y + z) == (x + y) + z
  {
  }

  /** In a consistent index every known list is a posting list: non-empty,
      record ids strictly ascending. */
  lemma {:induction false} KnownListsArePostings(idx: Index, words: seq<string>)
    requires Valid(idx)
    ensures Intersecting.PostingLists(KnownLists(idx, words))
  {
    if |words| > 0 {
      KnownListsArePostings(idx, words[1..]);
      var items := Items(idx, words[0]);
      var id := KeywordId(idx, words[0]);
      if id != InvalidId {
        assert ItemsWellFormed(idx.keywords[id].items, |idx.keywords[id].name|);
        assert Intersecting.Ascending(items);
      }
      var lists := KnownLists(idx, words);
      var rest := KnownLists(idx, words[1..]);
      forall l | 0 <= l < |lists|
        ensures Intersecting.Ascending(lists[l])
      {
        if |items| > 0 && l > 0 {
          assert lists[l] == rest[l - 1];
        } else if |items| == 0 {
          assert lists[l] == rest[l];
        }
      }
    }
  }

  // ----- The answers -------------------------------------------------------

  /** The sheet-02 answer: the known keywords' lists intersected, and the
      number of records found. */
  function AnswerUnranked(idx: Index, query: string): (r: (seq<Item>, nat))
    requires KeywordsIndexed(idx)
  {
    Intersecting.Intersect(KnownLists(idx, Keywords(query)))
  }

  /** The sheet-05 answer: the intersection ranked, keeping at most
      `maxNum` records, and the number of records found. */
  function Answer(idx: Index, query: string, maxNum: nat): (r: (seq<Item>, nat))
    requires KeywordsIndexed(idx)
  {
    var found := AnswerUnranked(idx, query);
    (Ranking.Rank(found.0, maxNum), found.1)
  }

  /** The sheet-05 answer with the ranking as written, which has no result
      where its copy loop reads past the end. */
  function AnswerAsWritten(idx: Index, query: string, maxNum: nat): Option<(seq<Item>, nat)>
    requires KeywordsIndexed(idx)
  {
    var found := AnswerUnranked(idx, query);
    match Ranking.RankAsWritten(found.0, maxNum)
    case None => None
    case Some(out) => Some((out, found.1))
  }

  lemma {:induction false} AnswerAsWrittenAgrees(idx: Index, query: string, maxNum: nat)
    requires KeywordsIndexed(idx)
    requires AnswerAsWritten(idx, query, maxNum).Some?
    ensures AnswerAsWritten(idx, query, maxNum).value == Answer(idx, query, maxNum)
  {
    Ranking.RankAsWrittenAgrees(AnswerUnranked(idx, query).0, maxNum);
  }

  // ----- What the answers hold -----------------------------------------------

  /** Some keyword of `words` is known. */
  ghost predicate AnyKnown(idx: Index, words: seq<string>)
    requires KeywordsIndexed(idx)
  {
    exists w :: w in words && |Items(idx, w)| > 0
  }

  /** Record `r` has an item of every known keyword of `words`. */
  ghost predicate InEveryKnown(idx: Index, words: seq<string>, r: int)
    requires KeywordsIndexed(idx)
  {
    forall w :: w in words && |Items(idx, w)| > 0 ==> r in Intersecting.Rids(Items(idx, w))
  }

  /** The records the query matches, ascending. */
  ghost function Matching(idx: Index, query: string): (m: seq<int>)
    requires KeywordsIndexed(idx)
    ensures forall k :: 0 <= k < |m| ==> Intersecting.InAll(KnownLists(idx, Keywords(query)), m[k])
  {
    var lists := KnownLists(idx, Keywords(query));
    if |lists| == 0 then [] else Intersecting.SharedIds(lists, 0)
  }

  lemma {:induction false} KnownListsExist(idx: Index, words: seq<string>)
    requires KeywordsIndexed(idx)
    ensures |KnownLists(idx, words)| > 0 <==> AnyKnown(idx, words)
  {
    var lists := KnownLists(idx, words);
    if |lists| > 0 {
      KnownListsIff(idx, words, lists[0]);
    }
    if AnyKnown(idx, words) {
      var w :| w in words && |Items(idx, w)| > 0;
      KnownListsIff(idx, words, Items(idx, w));
    }
  }

  /** Being in every known list is having an item of every known keyword. */
  lemma {:induction false} InAllIffInEveryKnown(idx: Index, words: seq<string>, r: int)
    requires KeywordsIndexed(idx)
    ensures Intersecting.InAll(KnownLists(idx, words), r) <==> InEveryKnown(idx, words, r)
  {
    var lists := KnownLists(idx, words);
    if Intersecting.InAll(lists, r) {
      forall w | w in words && |Items(idx, w)| > 0
        ensures r in Intersecting.Rids(Items(idx, w))
      {
        KnownListsIff(idx, words, Items(idx, w));
        var l :| 0 <= l < |lists| && lists[l] == Items(idx, w);
      }
    }
    if InEveryKnown(idx, words, r) {
      forall l | 0 <= l < |lists|
        ensures r in Intersecting.Rids(lists[l])
      {
        KnownListsIff(idx, words, lists[l]);
      }
    }
  }

  /** The sheet-02 answer holds, for each matching record in ascending
      order, that record's item from each known keyword in query order; a
      record matches when the query has a known keyword and the record has
      an item of every known keyword; the count is the number of matching
      records. */
  lemma {:induction false} AnswerUnrankedCorrect(idx: Index, query: string)
    requires Valid(idx)
    ensures AnswerUnranked(idx, query).0 == Intersecting.Blocks(KnownLists(idx, Keywords(query)), Matching(idx, query))
    ensures AnswerUnranked(idx, query).1 == |Matching(idx, query)|
    ensures Merging.StrictlySorted(Matching(idx, query))
    ensures forall r :: r in Matching(idx, query) <==>
      AnyKnown(idx, Keywords(query)) && InEveryKnown(idx, Keywords(query), r)
  {
    var words := Keywords(query);
    var lists := KnownLists(idx, words);
    KnownListsArePostings(idx, words);
    Intersecting.IntersectCorrect(lists);
    KnownListsExist(idx, words);
    forall r
      ensures r in Matching(idx, query) <==> AnyKnown(idx, words) && InEveryKnown(idx, words, r)
    {
      InAllIffInEveryKnown(idx, words, r);
      if |lists| > 0 {
        Intersecting.SharedIdsExact(lists, r);
      }
    }
    if |lists| > 0 {
      Intersecting.SharedIdsAscending(lists, 0);
    }
  }

  /** A query without a known keyword finds nothing. */
  lemma {:induction false} AnswerNoKnownKeyword(idx: Index, query: string, maxNum: nat)
    requires KeywordsIndexed(idx)
    requires forall w :: w in Keywords(query) ==> Items(idx, w) == []
    ensures Answer(idx, query, maxNum) == ([], 0)
    ensures AnswerUnranked(idx, query) == ([], 0)
  {
    KnownListsExist(idx, Keywords(query));
    Intersecting.IntersectCorrect([]);
    assert Ranking.GroupsFrom([], 0) == [];
    assert Ranking.Top([], maxNum) == [];
  }

  /** A space separates keywords. */
  lemma {:induction false} KeywordsJoin(a: string, b: string)
    ensures Keywords(a + " " + b) == Keywords(a) + Keywords(b)
  {
    assert ' ' in Splitting.Whitespace;
    assert a + " " + b == a + [' '] + b;
    Splitting.SplitConcat(a, ' ', b, Splitting.Whitespace);
  }

  /** A word between spaces is one keyword. */
  lemma {:induction false} KeywordsAround(a: string, w: string, b: string)
    requires Splitting.IsToken(w, Splitting.Whitespace)
    ensures Keywords(a + " " + w + " " + b) == Keywords(a) + [w] + Keywords(b)
  {
    assert a + " " + w + " " + b == a + " " + (w + " " + b);
    KeywordsJoin(a, w + " " + b);
    KeywordsJoin(w, b);
    Splitting.SplitToken(w, Splitting.Whitespace);
  }

  /** An unknown keyword between two parts of a query changes nothing. */
  lemma {:induction false} AnswerSkipsUnknown(idx: Index, a: string, w: string, b: string, maxNum: nat)
    requires KeywordsIndexed(idx)
    requires Splitting.IsToken(w, Splitting.Whitespace) && Items(idx, w) == []
    ensures Answer(idx, a + " " + w + " " + b, maxNum) == Answer(idx, a + " " + b, maxNum)
    ensures AnswerUnranked(idx, a + " " + w + " " + b) == AnswerUnranked(idx, a + " " + b)
  {
    KeywordsAround(a, w, b);
    KeywordsJoin(a, b);
    KnownListsSkip(idx, Keywords(a), w, Keywords(b));
  }

  /** A word without items adds no list. */
  lemma {:induction false} KnownListsSkip(idx: Index, a: seq<string>, w: string, b: seq<string>)
    requires KeywordsIndexed(idx) && Items(idx, w) == []
    ensures KnownLists(idx, a + [w] + b) == KnownLists(idx, a + b)
  {
    var aw := a + [w];
    KnownListsConcat(idx, aw, b);
    KnownListsConcat(idx, a, [w]);
    assert [w][1..] == [];
    assert KnownLists(idx, [w]) == [];
    assert KnownLists(idx, aw) == KnownLists(idx, a);
    KnownListsConcat(idx, a, b);
  }

  // ----- The ranked answer -------------------------------------------------

  /** The record blocks of the intersection, one per shared record id. */
  function BlockSeq(lists: seq<seq<Item>>, rs: seq<int>): (bs: seq<seq<Item>>)
    requires forall k :: 0 <= k < |rs| ==> Intersecting.InAll(lists, rs[k])
    ensures |bs| == |rs| && forall k :: 0 <= k < |rs| ==> bs[k] == Intersecting.Block(lists, rs[k])
  {
    seq(|rs|, k requires 0 <= k < |rs| => Intersecting.Block(lists, rs[k]))
  }

  lemma {:induction false} BlocksFlatten(lists: seq<seq<Item>>, rs: seq<int>)
    requires forall k :: 0 <= k < |rs| ==> Intersecting.InAll(lists, rs[k])
    ensures Intersecting.Blocks(lists, rs) == Ranking.Flatten(BlockSeq(lists, rs))
  {
    if |rs| > 0 {
      BlocksFlatten(lists, rs[1..]);
      assert BlockSeq(lists, rs)[1..] == BlockSeq(lists, rs[1..]);
    }
  }

  /** With at least one list, the blocks of different neighbouring record
      ids are record blocks. */
  lemma {:induction false} BlockSeqRecords(lists: seq<seq<Item>>, rs: seq<int>)
    requires |lists| > 0
    requires forall k :: 0 <= k < |rs| ==> Intersecting.InAll(lists, rs[k])
    requires Merging.StrictlySorted(rs)
    ensures Ranking.RecordBlocks(BlockSeq(lists, rs))
    ensures forall k :: 0 <= k < |rs| ==> BlockSeq(lists, rs)[k][0].recordId == rs[k]
  {
    var bs := BlockSeq(lists, rs);
    forall k | 0 <= k < |rs|
      ensures Ranking.OneRecord(bs[k]) && bs[k][0].recordId == rs[k]
    {
    }
  }

  /** The record blocks of the shared ids `rs`, in `rs`'s order. */
  ghost predicate SharedBlocks(lists: seq<seq<Item>>, rs: seq<int>, bs: seq<seq<Item>>) {
    && |lists| > 0 && |bs| == |rs|
    && (forall k :: 0 <= k < |rs| ==> Intersecting.InAll(lists, rs[k]))
    && (forall k :: 0 <= k < |rs| ==> bs[k] == Intersecting.Block(lists, rs[k]) && bs[k][0].recordId == rs[k])
  }

  /** The kept records: as many as asked for or found, shared, different. */
  lemma {:induction false} KeptShared(lists: seq<seq<Item>>, rs: seq<int>, bs: seq<seq<Item>>, found: seq<Item>,
                                      gs: seq<Ranking.Group>, sel: seq<Ranking.Group>, kept: seq<int>, maxNum: nat)
    requires SharedBlocks(lists, rs, bs) && Merging.StrictlySorted(rs)
    requires Ranking.RankedBlocks(bs, found, gs, sel, kept, maxNum)
    ensures |kept| == Ranking.Min(maxNum, |rs|)
    ensures forall t :: 0 <= t < |kept| ==> kept[t] in rs && Intersecting.InAll(lists, kept[t])
    ensures forall s, t :: 0 <= s < t < |kept| ==> kept[s] != kept[t]
  {
    assert forall a, b :: 0 <= a < b < |bs| ==> bs[a][0].recordId != bs[b][0].recordId by {
      forall a, b | 0 <= a < b < |bs|
        ensures bs[a][0].recordId != bs[b][0].recordId
      {
        assert rs[a] < rs[b];
      }
    }
    Ranking.KeptBlocksDistinct(bs, found, gs, sel, kept, maxNum);
    forall t | 0 <= t < |kept|
      ensures kept[t] in rs && Intersecting.InAll(lists, kept[t])
    {
      var a :| 0 <= a < |bs| && kept[t] == bs[a][0].recordId;
      assert kept[t] == rs[a];
    }
  }

  /** Every item the ranking writes is a kept record's item of some list. */
  lemma {:induction false} OutSound(lists: seq<seq<Item>>, rs: seq<int>, bs: seq<seq<Item>>, found: seq<Item>,
                                    gs: seq<Ranking.Group>, sel: seq<Ranking.Group>, kept: seq<int>, maxNum: nat,
                                    k: nat)
      returns (t: nat, l: nat)
    requires SharedBlocks(lists, rs, bs)
    requires Ranking.RankedBlocks(bs, found, gs, sel, kept, maxNum)
    requires k < |Ranking.Rank(found, maxNum)|
    ensures t < |kept| && l < |lists| && Intersecting.InAll(lists, kept[t])
    ensures Ranking.Rank(found, maxNum)[k] ==
      Intersecting.Block(lists, kept[t])[l].(score := Ranking.Rank(found, maxNum)[k].score)
  {
    var a;
    t, a, l := Ranking.RankBlocksSound(bs, found, gs, sel, kept, maxNum, k);
    assert kept[t] == rs[a];
  }

  /** Every item of a kept record in every list is written. */
  lemma {:induction false} OutHas(lists: seq<seq<Item>>, rs: seq<int>, bs: seq<seq<Item>>, found: seq<Item>,
                                  gs: seq<Ranking.Group>, sel: seq<Ranking.Group>, kept: seq<int>, maxNum: nat,
                                  t: nat, l: nat)
      returns (k: nat)
    requires SharedBlocks(lists, rs, bs)
    requires Ranking.RankedBlocks(bs, found, gs, sel, kept, maxNum)
    requires t < |kept| && l < |lists|
    ensures Intersecting.InAll(lists, kept[t])
    ensures k < |Ranking.Rank(found, maxNum)| && Ranking.Rank(found, maxNum)[k] ==
      Intersecting.Block(lists, kept[t])[l].(score := Ranking.Rank(found, maxNum)[k].score)
  {
    var a;
    a, k := Ranking.RankBlocksHas(bs, found, gs, sel, kept, maxNum, t, l);
    assert kept[t] == rs[a];
  }

  /** The intersection over the shared ids `rs`, laid out as record blocks. */
  lemma {:induction false} SharedLayout(lists: seq<seq<Item>>, rs: seq<int>, found: seq<Item>, maxNum: nat)
      returns (bs: seq<seq<Item>>, gs: seq<Ranking.Group>, sel: seq<Ranking.Group>)
    requires |lists| > 0
    requires forall k :: 0 <= k < |rs| ==> Intersecting.InAll(lists, rs[k])
    requires Merging.StrictlySorted(rs)
    requires found == Intersecting.Blocks(lists, rs)
    ensures SharedBlocks(lists, rs, bs)
    ensures Ranking.RankedBlocks(bs, found, gs, sel, Ranking.KeptIds(found, maxNum), maxNum)
  {
    bs := BlockSeq(lists, rs);
    BlocksFlatten(lists, rs);
    BlockSeqRecords(lists, rs);
    Ranking.FlattenRanked(bs, maxNum);
    gs := Ranking.GroupsFrom(found, 0);
    sel := Ranking.Top(gs, maxNum);
  }

  /** Ranking the intersection keeps `min(maxNum, #shared)` different shared
      records. */
  lemma {:induction false} RankKeepsShared(lists: seq<seq<Item>>, rs: seq<int>, found: seq<Item>, kept: seq<int>, maxNum: nat)
    requires |lists| > 0
    requires forall k :: 0 <= k < |rs| ==> Intersecting.InAll(lists, rs[k])
    requires Merging.StrictlySorted(rs)
    requires found == Intersecting.Blocks(lists, rs) && kept == Ranking.KeptIds(found, maxNum)
    ensures |kept| == Ranking.Min(maxNum, |rs|)
    ensures forall t :: 0 <= t < |kept| ==> kept[t] in rs && Intersecting.InAll(lists, kept[t])
    ensures forall s, t :: 0 <= s < t < |kept| ==> kept[s] != kept[t]
  {
    var bs, gs, sel := SharedLayout(lists, rs, found, maxNum);
    KeptShared(lists, rs, bs, found, gs, sel, kept, maxNum);
  }

  /** Item `it` is written in `out`, with some score. */
  ghost predicate Written(out: seq<Item>, it: Item) {
    exists k :: 0 <= k < |out| && out[k] == it.(score := out[k].score)
  }

  /** `o` is, up to its score, the item of a kept record in one of `lists`. */
  ghost predicate ItemOfKept(lists: seq<seq<Item>>, kept: seq<int>, o: Item) {
    exists t, l :: 0 <= t < |kept| && 0 <= l < |lists| && Intersecting.InAll(lists, kept[t]) &&
      o == Intersecting.Block(lists, kept[t])[l].(score := o.score)
  }

  /** Ranking the intersection writes only items of kept records, each one
      an item of some list. */
  lemma {:induction false} RankWritesKept(lists: seq<seq<Item>>, rs: seq<int>, found: seq<Item>, kept: seq<int>, maxNum: nat)
    requires |lists| > 0
    requires forall k :: 0 <= k < |rs| ==> Intersecting.InAll(lists, rs[k])
    requires Merging.StrictlySorted(rs)
    requires found == Intersecting.Blocks(lists, rs) && kept == Ranking.KeptIds(found, maxNum)
    ensures forall k :: 0 <= k < |Ranking.Rank(found, maxNum)| ==> ItemOfKept(lists, kept, Ranking.Rank(found, maxNum)[k])
  {
    var bs, gs, sel := SharedLayout(lists, rs, found, maxNum);
    forall k | 0 <= k < |Ranking.Rank(found, maxNum)|
      ensures ItemOfKept(lists, kept, Ranking.Rank(found, maxNum)[k])
    {
      var t, l := OutSound(lists, rs, bs, found, gs, sel, kept, maxNum, k);
    }
  }

  /** Ranking the intersection writes every item of every kept record in
      every list. */
  lemma {:induction false} RankWritesAllKept(lists: seq<seq<Item>>, rs: seq<int>, found: seq<Item>, kept: seq<int>, maxNum: nat)
    requires |lists| > 0
    requires forall k :: 0 <= k < |rs| ==> Intersecting.InAll(lists, rs[k])
    requires Merging.StrictlySorted(rs)
    requires found == Intersecting.Blocks(lists, rs) && kept == Ranking.KeptIds(found, maxNum)
    ensures forall t :: 0 <= t < |kept| ==> Intersecting.InAll(lists, kept[t])
    ensures forall t, l :: 0 <= t < |kept| && 0 <= l < |lists| ==>
      Written(Ranking.Rank(found, maxNum), Intersecting.Block(lists, kept[t])[l])
  {
    var bs, gs, sel := SharedLayout(lists, rs, found, maxNum);
    KeptShared(lists, rs, bs, found, gs, sel, kept, maxNum);
    forall t, l | 0 <= t < |kept| && 0 <= l < |lists|
      ensures Written(Ranking.Rank(found, maxNum), Intersecting.Block(lists, kept[t])[l])
    {
      var k := OutHas(lists, rs, bs, found, gs, sel, kept, maxNum, t, l);
    }
  }

  /** The records the sheet-05 answer keeps, best first. */
  ghost function KeptRecords(idx: Index, query: string, maxNum: nat): seq<int>
    requires KeywordsIndexed(idx)
  {
    Ranking.KeptIds(AnswerUnranked(idx, query).0, maxNum)
  }

  /** Without a known keyword nothing is found, kept or written. */
  lemma {:induction false} NothingKnown(idx: Index, query: string, maxNum: nat)
    requires KeywordsIndexed(idx)
    requires |KnownLists(idx, Keywords(query))| == 0
    ensures AnswerUnranked(idx, query).0 == [] && KeptRecords(idx, query, maxNum) == []
    ensures Answer(idx, query, maxNum).0 == []
  {
    Intersecting.IntersectCorrect([]);
    assert Ranking.GroupsFrom([], 0) == [];
    assert Ranking.Top([], maxNum) == [];
  }

  /** The sheet-05 answer counts all matching records and keeps
      `min(maxNum, #matching)` different matching records. */
  lemma {:induction false} AnswerKeeps(idx: Index, query: string, maxNum: nat)
    requires Valid(idx)
    ensures Answer(idx, query, maxNum).1 == |Matching(idx, query)|
    ensures |KeptRecords(idx, query, maxNum)| == Ranking.Min(maxNum, |Matching(idx, query)|)
    ensures forall t :: 0 <= t < |KeptRecords(idx, query, maxNum)| ==>
      KeptRecords(idx, query, maxNum)[t] in Matching(idx, query)
    ensures forall s, t :: 0 <= s < t < |KeptRecords(idx, query, maxNum)| ==>
      KeptRecords(idx, query, maxNum)[s] != KeptRecords(idx, query, maxNum)[t]
  {
    var lists := KnownLists(idx, Keywords(query));
    AnswerUnrankedCorrect(idx, query);
    if |lists| > 0 {
      RankKeepsShared(lists, Matching(idx, query), AnswerUnranked(idx, query).0, KeptRecords(idx, query, maxNum), maxNum);
    } else {
      NothingKnown(idx, query, maxNum);
    }
  }

  /** In an ascending list a record id names at most one item. */
  lemma AscendingUnique(items: seq<Item>, x: Item, y: Item)
    requires Intersecting.Ascending(items) && x in items && y in items && x.recordId == y.recordId
    ensures x == y
  {
    var i :| 0 <= i < |items| && items[i] == x;
    var j :| 0 <= j < |items| && items[j] == y;
    if i < j {
      assert items[i].recordId < items[j].recordId;
    } else if j < i {
      assert items[j].recordId < items[i].recordId;
    }
  }

  /** `o` is, up to its score, an item of one of the keywords `words`. */
  ghost predicate FromKeyword(idx: Index, words: seq<string>, o: Item)
    requires KeywordsIndexed(idx)
  {
    exists w, it :: w in words && it in Items(idx, w) && o == it.(score := o.score)
  }

  /** Every item the sheet-05 answer writes belongs to a kept record and is
      that record's item of a keyword of the query, rescored. */
  lemma {:induction false} AnswerWritesKept(idx: Index, query: string, maxNum: nat)
    requires Valid(idx)
    ensures forall k :: 0 <= k < |Answer(idx, query, maxNum).0| ==>
      Answer(idx, query, maxNum).0[k].recordId in KeptRecords(idx, query, maxNum)
    ensures forall k :: 0 <= k < |Answer(idx, query, maxNum).0| ==>
      FromKeyword(idx, Keywords(query), Answer(idx, query, maxNum).0[k])
  {
    var words := Keywords(query);
    var lists := KnownLists(idx, words);
    var out := Answer(idx, query, maxNum).0;
    var kept := KeptRecords(idx, query, maxNum);
    if |lists| > 0 {
      AnswerUnrankedCorrect(idx, query);
      RankWritesKept(lists, Matching(idx, query), AnswerUnranked(idx, query).0, kept, maxNum);
      forall k | 0 <= k < |out|
        ensures out[k].recordId in kept
        ensures FromKeyword(idx, words, out[k])
      {
        assert ItemOfKept(lists, kept, out[k]);
        var t, l :| 0 <= t < |kept| && 0 <= l < |lists| && Intersecting.InAll(lists, kept[t]) &&
          out[k] == Intersecting.Block(lists, kept[t])[l].(score := out[k].score);
        var it := Intersecting.Block(lists, kept[t])[l];
        assert it in lists[l] && it.recordId == kept[t];
        KnownListsIff(idx, words, lists[l]);
        var w :| w in words && Items(idx, w) == lists[l];
      }
    } else {
      NothingKnown(idx, query, maxNum);
    }
  }

  /** The sheet-05 answer writes every item a kept record has for a keyword
      of the query, rescored. */
  lemma {:induction false} AnswerWritesAllKept(idx: Index, query: string, maxNum: nat)
    requires Valid(idx)
    ensures forall t, w, it ::
      (0 <= t < |KeptRecords(idx, query, maxNum)| && w in Keywords(query) &&
       it in Items(idx, w) && it.recordId == KeptRecords(idx, query, maxNum)[t]) ==>
      Written(Answer(idx, query, maxNum).0, it)
  {
    var words := Keywords(query);
    var lists := KnownLists(idx, words);
    var out := Answer(idx, query, maxNum).0;
    var kept := KeptRecords(idx, query, maxNum);
    if |lists| > 0 {
      AnswerUnrankedCorrect(idx, query);
      KnownListsArePostings(idx, words);
      RankWritesAllKept(lists, Matching(idx, query), AnswerUnranked(idx, query).0, kept, maxNum);
      forall t, w, it | 0 <= t < |kept| && w in words && it in Items(idx, w) && it.recordId == kept[t]
        ensures Written(out, it)
      {
        KnownListsIff(idx, words, Items(idx, w));
        var l :| 0 <= l < |lists| && lists[l] == Items(idx, w);
        assert Written(out, Intersecting.Block(lists, kept[t])[l]);
        AscendingUnique(lists[l], it, Intersecting.Block(lists, kept[t])[l]);
      }
    } else {
      NothingKnown(idx, query, maxNum);
    }
  }

  /** The sheet-05 answer writes its items with non-decreasing scores. */
  lemma AnswerScoresRise(idx: Index, query: string, maxNum: nat)
    requires KeywordsIndexed(idx)
    ensures forall i, j :: 0 <= i < j < |Answer(idx, query, maxNum).0| ==>
      Answer(idx, query, maxNum).0[i].score <= Answer(idx, query, maxNum).0[j].score
  {
    Ranking.RankCorrect(AnswerUnranked(idx, query).0, maxNum);
  }
}
