/** The inverted index: records (url and content), keywords with their item
    lists, a map from lower-cased keyword to keyword id, the n-gram index
    from n-gram to keyword ids, and the running totals of items and content
    size. Operations are pure: each returns the updated index. */
module SearchIndex {
  import opened Ascii
  import opened Wrappers
  import Merging

  /** The id returned for unknown keywords and the record id before the first record. */
  const InvalidId: int := -1

  datatype Record = Record(url: string, content: string)

  /** The occurrences of one keyword in one record: the positions, the
      keyword length and the score, which starts as the term frequency. */
  datatype Item = Item(recordId: int, positions: seq<nat>, size: nat, score: real)

  datatype Keyword = Keyword(name: string, items: seq<Item>)

  datatype Index = Index(
    records: seq<Record>,
    keywordIndex: map<string, nat>,
    ngramIndex: map<string, seq<int>>,
    keywords: seq<Keyword>,
    numItems: nat,
    totalSize: nat,
    ngramN: int)

  /** A freshly constructed index: nothing stored, all counters zero. It
      satisfies the index invariant, and every lookup comes back empty. */
  function EmptyIndex(): (idx: Index)
    ensures Valid(idx)
    ensures forall keyword :: KeywordId(idx, keyword) == InvalidId
    ensures forall ngram :: NGramItems(idx, ngram) == []
    ensures |idx.records| == 0 && idx.numItems == 0 && idx.totalSize == 0
  {
    assert OccurrenceCounts([]) == [];
    assert ContentSizes([]) == [];
    Index([], map[], map[], [], 0, 0, 0)
  }

  /** Item equality compares record id and positions only. */
  predicate SameItem(a: Item, b: Item) {
    a.recordId == b.recordId && a.positions == b.positions
  }

  /** Items that differ only in keyword length or score compare equal. */
  lemma SameItemIgnoresScore(a: Item, size: nat, score: real)
    ensures SameItem(a, a.(size := size, score := score))
    ensures forall b :: SameItem(a, b) <==> SameItem(a.(size := size, score := score), b)
  {
  }

  // ----- Records -----------------------------------------------------------

  function ContentSizes(rs: seq<Record>): (s: seq<nat>)
    ensures |s| == |rs| && forall i :: 0 <= i < |rs| ==> s[i] == |rs[i].content|
  {
    seq(|rs|, i requires 0 <= i < |rs| => |rs[i].content|)
  }

  /** Total content length of the records. */
  function ContentTotal(rs: seq<Record>): nat {
    Merging.Sum(ContentSizes(rs))
  }

  /** Appends a record; returns the index and the new record's id. */
  function AddRecord(idx: Index, url: string, content: string): (r: (Index, int))
    ensures 0 <= r.1 < |r.0.records| && r.0.records[r.1] == Record(url, content)
    ensures r.0.records[..r.1] == idx.records && r.1 == |idx.records|
    ensures r.0.totalSize == idx.totalSize + |content|
    ensures r.0.keywords == idx.keywords && r.0.keywordIndex == idx.keywordIndex
    ensures r.0.ngramIndex == idx.ngramIndex && r.0.numItems == idx.numItems
  {
    (idx.(records := idx.records + [Record(url, content)], totalSize := idx.totalSize + |content|),
     |idx.records|)
  }

  /** Appends `content` to record `rid`; returns the index and the record's
      old content length, which is where the new content starts. `None`
      where the lookup's assertion fails: `rid` is not a record id. */
  function ExtendRecord(idx: Index, rid: int, content: string): (r: Option<(Index, nat)>)
    ensures r.Some? <==> 0 <= rid < |idx.records|
    ensures r.Some? ==>
      var (idx', offset) := r.value;
      && |idx'.records| == |idx.records|
      && idx'.records[rid].url == idx.records[rid].url
      && offset == |idx.records[rid].content|
      && |idx'.records[rid].content| == offset + |content|
      && idx'.records[rid].content[..offset] == idx.records[rid].content
      && idx'.records[rid].content[offset..] == content
      && (forall j :: 0 <= j < |idx.records| && j != rid ==> idx'.records[j] == idx.records[j])
      && idx'.totalSize == idx.totalSize + |content|
      && idx'.keywords == idx.keywords && idx'.keywordIndex == idx.keywordIndex
      && idx'.ngramIndex == idx.ngramIndex && idx'.numItems == idx.numItems
  {
    if 0 <= rid < |idx.records| then
      var rec := idx.records[rid];
      Some((idx.(records := idx.records[rid := rec.(content := rec.content + content)],
                 totalSize := idx.totalSize + |content|),
            |rec.content|))
    else None
  }

  // ----- Keywords ----------------------------------------------------------

  /** The id stored for the lower-cased keyword, or `InvalidId`. In an
      index whose map is consistent, a found id names a keyword whose name
      is the lower-cased query. */
  function KeywordId(idx: Index, keyword: string): (id: int)
    ensures id == InvalidId <==> Lower(keyword) !in idx.keywordIndex
    ensures id != InvalidId ==> id == idx.keywordIndex[Lower(keyword)]
    ensures KeywordsIndexed(idx) && id != InvalidId ==>
      0 <= id < |idx.keywords| && idx.keywords[id].name == Lower(keyword)
  {
    var low := Lower(keyword);
    if low in idx.keywordIndex then idx.keywordIndex[low] else InvalidId
  }

  /** Lookup ignores case: spellings with the same lower-case form share an id. */
  lemma KeywordIdIgnoresCase(idx: Index, a: string, b: string)
    requires Lower(a) == Lower(b)
    ensures KeywordId(idx, a) == KeywordId(idx, b)
  {
  }

  /** Appends a keyword under its lower-cased name and returns its id. The
      map entry is inserted only if the name is new: a second keyword of the
      same name gets an id, but lookups keep finding the first one. */
  function AddKeyword(idx: Index, keyword: string): (r: (Index, nat))
    ensures r.1 == |idx.keywords| && r.0.keywords == idx.keywords + [Keyword(Lower(keyword), [])]
    ensures r.0.records == idx.records && r.0.ngramIndex == idx.ngramIndex
    ensures r.0.numItems == idx.numItems && r.0.totalSize == idx.totalSize
  {
    var low := Lower(keyword);
    var id := |idx.keywords|;
    var m := if low in idx.keywordIndex then idx.keywordIndex else idx.keywordIndex[low := id];
    (idx.(keywords := idx.keywords + [Keyword(low, [])], keywordIndex := m), id)
  }

  /** After adding a keyword, every spelling of it finds an id: the new one
      if it was unknown, the old one otherwise; other lookups are unchanged. */
  lemma AddKeywordLookup(idx: Index, keyword: string, other: string)
    ensures var (idx', id) := AddKeyword(idx, keyword);
      && KeywordId(idx', keyword) == (if KeywordId(idx, keyword) == InvalidId then id else KeywordId(idx, keyword))
      && (Lower(other) != Lower(keyword) ==> KeywordId(idx', other) == KeywordId(idx, other))
  {
  }

  /** The items of a keyword, looked up case-insensitively; none if unknown. */
  function Items(idx: Index, keyword: string): (items: seq<Item>)
    requires KeywordsIndexed(idx)
    ensures KeywordId(idx, keyword) == InvalidId ==> items == []
    ensures KeywordId(idx, keyword) != InvalidId ==>
      var k := idx.keywords[KeywordId(idx, keyword)];
      k.name == Lower(keyword) && items == k.items
  {
    var id := KeywordId(idx, keyword);
    if id == InvalidId then [] else idx.keywords[id].items
  }

  // ----- Items -------------------------------------------------------------

  /** The `(record id, position)` pairs of an item. */
  function Pairs(it: Item): (ps: seq<(int, nat)>)
    ensures |ps| == |it.positions|
    ensures forall k :: 0 <= k < |ps| ==> ps[k] == (it.recordId, it.positions[k])
  {
    seq(|it.positions|, k requires 0 <= k < |it.positions| => (it.recordId, it.positions[k]))
  }

  /** All occurrences an item list records, in order. */
  function Occurrences(items: seq<Item>): seq<(int, nat)>
  {
    if |items| == 0 then [] else Occurrences(items[..|items| - 1]) + Pairs(items[|items| - 1])
  }

  /** Well-formed items of a keyword of length `size`: each names at least
      one position and scores its number of positions, and the record ids
      ascend strictly, so each record has at most one item. */
  ghost predicate ItemsWellFormed(items: seq<Item>, size: nat) {
    && (forall i :: 0 <= i < |items| ==>
          |items[i].positions| > 0 && items[i].score == |items[i].positions| as real && items[i].size == size)
    && (forall i, j :: 0 <= i < j < |items| ==> items[i].recordId < items[j].recordId)
  }

  /** The item-list update of `AddItem`: a further position of the record of
      the last item extends that item and raises its score by one, any other
      record opens a new item with score one. */
  function AppendOccurrence(items: seq<Item>, size: nat, rid: int, pos: nat): (r: seq<Item>)
    ensures |r| > 0 && r[|r| - 1].recordId == rid && |items| <= |r|
    ensures forall i :: 0 <= i < |items| - 1 ==> r[i] == items[i]
  {
    if |items| > 0 && items[|items| - 1].recordId == rid then
      var last := items[|items| - 1];
      items[|items| - 1 := last.(positions := last.positions + [pos], score := last.score + 1.0)]
    else
      items + [Item(rid, [pos], size, 1.0)]
  }

  /** Appending an occurrence appends exactly that pair to the occurrences. */
  lemma AppendOccurrencePairs(items: seq<Item>, size: nat, rid: int, pos: nat)
    ensures Occurrences(AppendOccurrence(items, size, rid, pos)) == Occurrences(items) + [(rid, pos)]
  {
    var r := AppendOccurrence(items, size, rid, pos);
    if |items| > 0 && items[|items| - 1].recordId == rid {
      var n := |items|;
      assert r[..n - 1] == items[..n - 1];
      assert Pairs(r[n - 1]) == Pairs(items[n - 1]) + [(rid, pos)];
    } else {
      assert r[..|items|] == items;
      assert Pairs(r[|items|]) == [(rid, pos)];
    }
  }

  /** Appending an occurrence of a record not below the last one keeps the
      items well formed. */
  lemma AppendOccurrenceWellFormed(items: seq<Item>, size: nat, rid: int, pos: nat)
    requires ItemsWellFormed(items, size)
    requires |items| > 0 ==> items[|items| - 1].recordId <= rid
    ensures ItemsWellFormed(AppendOccurrence(items, size, rid, pos), size)
  {
    var r := AppendOccurrence(items, size, rid, pos);
    if |items| > 0 && items[|items| - 1].recordId == rid {
      assert forall i :: 0 <= i < |r| ==> r[i].recordId == items[i].recordId;
    } else {
      forall i, j | 0 <= i < j < |r|
        ensures r[i].recordId < r[j].recordId
      {
        if j == |items| && i < |items| - 1 {
          assert items[i].recordId < items[|items| - 1].recordId;
        }
      }
    }
  }

  /** Number of occurrences per keyword. */
  function OccurrenceCounts(ks: seq<Keyword>): (s: seq<nat>)
    ensures |s| == |ks| && forall i :: 0 <= i < |ks| ==> s[i] == |Occurrences(ks[i].items)|
  {
    seq(|ks|, i requires 0 <= i < |ks| => |Occurrences(ks[i].items)|)
  }

  /** Records an occurrence of keyword `kid` in record `rid` at `pos` and
      returns the new item total. `kid` must be a keyword id, as the lookup
      asserts. */
  function AddItem(idx: Index, kid: nat, rid: int, pos: nat): (r: (Index, nat))
    requires kid < |idx.keywords|
    ensures r.1 == r.0.numItems == idx.numItems + 1
    ensures |r.0.keywords| == |idx.keywords| && r.0.keywords[kid].name == idx.keywords[kid].name
    ensures forall j :: 0 <= j < |idx.keywords| && j != kid ==> r.0.keywords[j] == idx.keywords[j]
    ensures r.0.records == idx.records && r.0.keywordIndex == idx.keywordIndex
    ensures r.0.ngramIndex == idx.ngramIndex && r.0.totalSize == idx.totalSize
  {
    var k := idx.keywords[kid];
    var k' := k.(items := AppendOccurrence(k.items, |k.name|, rid, pos));
    (idx.(keywords := idx.keywords[kid := k'], numItems := idx.numItems + 1), idx.numItems + 1)
  }

  /** The new occurrence is the last one of its keyword, after all earlier ones. */
  lemma AddItemOccurrences(idx: Index, kid: nat, rid: int, pos: nat)
    requires kid < |idx.keywords|
    ensures Occurrences(AddItem(idx, kid, rid, pos).0.keywords[kid].items)
      == Occurrences(idx.keywords[kid].items) + [(rid, pos)]
  {
    var k := idx.keywords[kid];
    AppendOccurrencePairs(k.items, |k.name|, rid, pos);
  }

  // ----- Order of occurrences ---------------------------------------------

  /** Occurrence `a` comes before `b`: an earlier record, or the same record
      and an earlier position. */
  predicate Before(a: (int, nat), b: (int, nat)) {
    a.0 < b.0 || (a.0 == b.0 && a.1 < b.1)
  }

  /** Occurrences in strictly ascending order of record and position. */
  ghost predicate Ascending(ps: seq<(int, nat)>) {
    forall i, j :: 0 <= i < j < |ps| ==> Before(ps[i], ps[j])
  }

  /** Both parts of an ascending sequence ascend. */
  lemma AscendingSplit(a: seq<(int, nat)>, b: seq<(int, nat)>)
    requires Ascending(a + b)
    ensures Ascending(a) && Ascending(b)
  {
    forall i, j | 0 <= i < j < |a|
      ensures Before(a[i], a[j])
    {
      assert (a + b)[i] == a[i] && (a + b)[j] == a[j];
    }
    forall i, j | 0 <= i < j < |b|
      ensures Before(b[i], b[j])
    {
      assert (a + b)[|a| + i] == b[i] && (a + b)[|a| + j] == b[j];
    }
  }

  /** Two ascending sequences, the first wholly before the second, ascend
      when joined. */
  lemma AscendingJoin(a: seq<(int, nat)>, b: seq<(int, nat)>)
    requires Ascending(a) && Ascending(b)
    requires forall x, y :: x in a && y in b ==> Before(x, y)
    ensures Ascending(a + b)
  {
    var c := a + b;
    forall i, j | 0 <= i < j < |c|
      ensures Before(c[i], c[j])
    {
      if j < |a| {
        assert c[i] == a[i] && c[j] == a[j];
      } else if i >= |a| {
        assert c[i] == b[i - |a|] && c[j] == b[j - |a|];
      } else {
        assert c[i] == a[i] && c[j] == b[j - |a|];
        assert a[i] in a && b[j - |a|] in b;
      }
    }
  }

  /** Items of records below `bound` record occurrences below `bound`. */
  lemma {:induction false} OccurrencesBelow(items: seq<Item>, bound: int)
    requires forall i :: 0 <= i < |items| ==> items[i].recordId < bound
    ensures forall p :: p in Occurrences(items) ==> p.0 < bound
    decreases |items|
  {
    if |items| > 0 {
      var n := |items| - 1;
      OccurrencesBelow(items[..n], bound);
      assert forall p :: p in Pairs(items[n]) ==> p.0 == items[n].recordId;
    }
  }

  /** Occurrences in ascending order put the positions within every item
      in strictly ascending order. */
  lemma {:induction false} AscendingPositions(items: seq<Item>)
    requires Ascending(Occurrences(items))
    ensures forall i, a, b :: 0 <= i < |items| && 0 <= a < b < |items[i].positions| ==>
      items[i].positions[a] < items[i].positions[b]
    decreases |items|
  {
    if |items| > 0 {
      var n := |items| - 1;
      var init := items[..n];
      var ps := Pairs(items[n]);
      AscendingSplit(Occurrences(init), ps);
      AscendingPositions(init);
      forall i, a, b | 0 <= i < |items| && 0 <= a < b < |items[i].positions|
        ensures items[i].positions[a] < items[i].positions[b]
      {
        if i < n {
          assert items[i] == init[i];
        } else {
          assert Before(ps[a], ps[b]);
        }
      }
    }
  }

  // ----- N-grams -----------------------------------------------------------

  /** Appends keyword `kid` to the list of `ngram`, creating the list if new. */
  function AddNGram(idx: Index, kid: int, ngram: string): (idx': Index)
    ensures ngram in idx'.ngramIndex && idx'.ngramIndex.Keys == idx.ngramIndex.Keys + {ngram}
    ensures idx'.records == idx.records && idx'.keywords == idx.keywords
    ensures idx'.keywordIndex == idx.keywordIndex && idx'.numItems == idx.numItems
    ensures idx'.totalSize == idx.totalSize && idx'.ngramN == idx.ngramN
  {
    if ngram in idx.ngramIndex then
      idx.(ngramIndex := idx.ngramIndex[ngram := idx.ngramIndex[ngram] + [kid]])
    else
      idx.(ngramIndex := idx.ngramIndex[ngram := [kid]])
  }

  /** The keyword ids listed for an n-gram; none if it is unknown. */
  function NGramItems(idx: Index, ngram: string): (ids: seq<int>)
    ensures ngram !in idx.ngramIndex ==> ids == []
    ensures ngram in idx.ngramIndex ==> ids == idx.ngramIndex[ngram]
  {
    if ngram in idx.ngramIndex then idx.ngramIndex[ngram] else []
  }

  /** `AddNGram` appends to the list of its own n-gram and no other. */
  lemma AddNGramItems(idx: Index, kid: int, ngram: string, other: string)
    ensures NGramItems(AddNGram(idx, kid, ngram), other)
      == NGramItems(idx, other) + (if other == ngram then [kid] else [])
  {
  }

  // ----- The index invariant -----------------------------------------------

  /** Every map entry names a keyword of that name, and names are lower case. */
  ghost predicate KeywordsIndexed(idx: Index) {
    && (forall w :: w in idx.keywordIndex ==>
          idx.keywordIndex[w] < |idx.keywords| && idx.keywords[idx.keywordIndex[w]].name == w)
    && (forall k :: 0 <= k < |idx.keywords| ==> IsLowerWord(idx.keywords[k].name))
  }

  /** Keyword `name` occurs at `pos` of record `rid`, up to case. */
  ghost predicate OccursAt(records: seq<Record>, name: string, rid: int, pos: nat) {
    0 <= rid < |records| && pos + |name| <= |records[rid].content|
    && forall k :: 0 <= k < |name| ==> ToLower(records[rid].content[pos + k]) == name[k]
  }

  /** Equivalently: the lower-cased text at the position is the name. */
  lemma OccursAtLower(records: seq<Record>, name: string, rid: int, pos: nat)
    requires 0 <= rid < |records| && pos + |name| <= |records[rid].content|
    ensures OccursAt(records, name, rid, pos) <==> Lower(records[rid].content[pos..pos + |name|]) == name
  {
    var low := Lower(records[rid].content[pos..pos + |name|]);
    if OccursAt(records, name, rid, pos) {
      assert forall k :: 0 <= k < |name| ==> low[k] == name[k];
    }
  }

  /** Every position of every item points at its keyword in its record. */
  ghost predicate ItemsPointAtKeyword(records: seq<Record>, k: Keyword) {
    forall i, j :: 0 <= i < |k.items| && 0 <= j < |k.items[i].positions| ==>
      OccursAt(records, k.name, k.items[i].recordId, k.items[i].positions[j])
  }

  ghost predicate ItemsValid(idx: Index) {
    forall k :: 0 <= k < |idx.keywords| ==>
      ItemsWellFormed(idx.keywords[k].items, |idx.keywords[k].name|)
      && ItemsPointAtKeyword(idx.records, idx.keywords[k])
  }

  /** Every n-gram list holds keyword ids. */
  ghost predicate NGramsValid(idx: Index) {
    forall g, j :: g in idx.ngramIndex && 0 <= j < |idx.ngramIndex[g]| ==>
      0 <= idx.ngramIndex[g][j] < |idx.keywords|
  }

  /** The counters agree with the stored data. */
  ghost predicate CountsValid(idx: Index) {
    idx.numItems == Merging.Sum(OccurrenceCounts(idx.keywords))
    && idx.totalSize == ContentTotal(idx.records)
  }

  ghost predicate Valid(idx: Index) {
    KeywordsIndexed(idx) && ItemsValid(idx) && NGramsValid(idx) && CountsValid(idx)
  }

  /** Replacing one summand changes the sum by the difference. */
  lemma {:induction false} SumUpdate(s: seq<nat>, i: nat, x: nat)
    requires i < |s|
    ensures Merging.Sum(s[i := x]) + s[i] == Merging.Sum(s) + x
    decreases |s|
  {
    var n := |s|;
    var t := s[i := x];
    assert s == s[..n - 1] + [s[n - 1]];
    assert t == t[..n - 1] + [t[n - 1]];
    Merging.SumLast(s[..n - 1], s[n - 1]);
    Merging.SumLast(t[..n - 1], t[n - 1]);
    if i < n - 1 {
      assert t[..n - 1] == s[..n - 1][i := x];
      SumUpdate(s[..n - 1], i, x);
    } else {
      assert t[..n - 1] == s[..n - 1];
    }
  }

  /** Record occurrences survive growing the records. */
  lemma OccursAtGrow(records: seq<Record>, records': seq<Record>, name: string, rid: int, pos: nat)
    requires OccursAt(records, name, rid, pos)
    requires |records| <= |records'|
    requires |records[rid].content| <= |records'[rid].content|
    requires records'[rid].content[..|records[rid].content|] == records[rid].content
    ensures OccursAt(records', name, rid, pos)
  {
    var c := records[rid].content;
    var c' := records'[rid].content;
    forall k | 0 <= k < |name|
      ensures ToLower(c'[pos + k]) == name[k]
    {
      assert c'[..|c|][pos + k] == c'[pos + k];
    }
  }

  /** Records only grow under `AddRecord` and `ExtendRecord`, so positions stay valid. */
  lemma ItemsPointAtKeywordGrow(records: seq<Record>, records': seq<Record>, k: Keyword)
    requires ItemsPointAtKeyword(records, k)
    requires |records| <= |records'|
    requires forall j :: 0 <= j < |records| ==>
      |records[j].content| <= |records'[j].content|
      && records'[j].content[..|records[j].content|] == records[j].content
    ensures ItemsPointAtKeyword(records', k)
  {
    forall i, j | 0 <= i < |k.items| && 0 <= j < |k.items[i].positions|
      ensures OccursAt(records', k.name, k.items[i].recordId, k.items[i].positions[j])
    {
      OccursAtGrow(records, records', k.name, k.items[i].recordId, k.items[i].positions[j]);
    }
  }

  lemma AddRecordValid(idx: Index, url: string, content: string)
    requires Valid(idx)
    ensures Valid(AddRecord(idx, url, content).0)
  {
    var idx' := AddRecord(idx, url, content).0;
    AddRecordItems(idx, url, content, idx');
    AddRecordCounts(idx, url, content, idx');
    assert KeywordsIndexed(idx') && NGramsValid(idx');
  }

  /** A new record leaves every item pointing at its keyword. */
  lemma AddRecordItems(idx: Index, url: string, content: string, idx': Index)
    requires ItemsValid(idx) && idx' == AddRecord(idx, url, content).0
    ensures ItemsValid(idx')
  {
    forall j | 0 <= j < |idx.records|
      ensures idx'.records[j].content[..|idx.records[j].content|] == idx.records[j].content
    {
      assert idx'.records[j] == idx.records[j];
    }
    forall k | 0 <= k < |idx'.keywords|
      ensures ItemsPointAtKeyword(idx'.records, idx'.keywords[k])
    {
      ItemsPointAtKeywordGrow(idx.records, idx'.records, idx.keywords[k]);
    }
  }

  /** A new record adds its length to the total size. */
  lemma AddRecordCounts(idx: Index, url: string, content: string, idx': Index)
    requires CountsValid(idx) && idx' == AddRecord(idx, url, content).0
    ensures CountsValid(idx')
  {
    var s := ContentSizes(idx.records);
    assert ContentSizes(idx'.records) == s + [|content|];
    Merging.SumLast(s, |content|);
  }

  lemma ExtendRecordValid(idx: Index, rid: int, content: string)
    requires Valid(idx) && 0 <= rid < |idx.records|
    ensures Valid(ExtendRecord(idx, rid, content).value.0)
  {
    var idx' := ExtendRecord(idx, rid, content).value.0;
    forall j | 0 <= j < |idx.records|
      ensures idx'.records[j].content[..|idx.records[j].content|] == idx.records[j].content
    {
      if j != rid {
        assert idx'.records[j] == idx.records[j];
      }
    }
    forall k | 0 <= k < |idx'.keywords|
      ensures ItemsPointAtKeyword(idx'.records, idx'.keywords[k])
    {
      ItemsPointAtKeywordGrow(idx.records, idx'.records, idx.keywords[k]);
    }
    var s := ContentSizes(idx.records);
    assert ContentSizes(idx'.records) == s[rid := |idx'.records[rid].content|];
    SumUpdate(s, rid, |idx'.records[rid].content|);
  }

  lemma AddKeywordValid(idx: Index, keyword: string)
    requires Valid(idx)
    ensures Valid(AddKeyword(idx, keyword).0)
  {
    var idx' := AddKeyword(idx, keyword).0;
    AddKeywordIndexed(idx, keyword, idx');
    AddKeywordItems(idx, keyword, idx');
    AddKeywordCounts(idx, keyword, idx');
  }

  lemma AddKeywordIndexed(idx: Index, keyword: string, idx': Index)
    requires KeywordsIndexed(idx) && idx' == AddKeyword(idx, keyword).0
    ensures KeywordsIndexed(idx')
  {
    LowerIsLowerWord(keyword);
    forall w | w in idx'.keywordIndex
      ensures idx'.keywordIndex[w] < |idx'.keywords| && idx'.keywords[idx'.keywordIndex[w]].name == w
    {
      if w in idx.keywordIndex {
        assert idx'.keywords[idx.keywordIndex[w]] == idx.keywords[idx.keywordIndex[w]];
      }
    }
  }

  lemma AddKeywordItems(idx: Index, keyword: string, idx': Index)
    requires ItemsValid(idx) && idx' == AddKeyword(idx, keyword).0
    ensures ItemsValid(idx')
  {
    forall k | 0 <= k < |idx'.keywords|
      ensures ItemsWellFormed(idx'.keywords[k].items, |idx'.keywords[k].name|)
      ensures ItemsPointAtKeyword(idx'.records, idx'.keywords[k])
    {
      if k < |idx.keywords| {
        assert idx'.keywords[k] == idx.keywords[k];
      }
    }
  }

  lemma AddKeywordCounts(idx: Index, keyword: string, idx': Index)
    requires CountsValid(idx) && idx' == AddKeyword(idx, keyword).0
    ensures CountsValid(idx')
  {
    assert Occurrences([]) == [];
    assert OccurrenceCounts(idx'.keywords) == OccurrenceCounts(idx.keywords) + [0];
    Merging.SumLast(OccurrenceCounts(idx.keywords), 0);
  }

  /** `AddItem` keeps the index valid when the position does hold the
      keyword and the record is not below the keyword's last record, as in
      the loading loop, which adds records in order. */
  lemma AddItemValid(idx: Index, kid: nat, rid: int, pos: nat)
    requires Valid(idx) && kid < |idx.keywords|
    requires OccursAt(idx.records, idx.keywords[kid].name, rid, pos)
    requires var items := idx.keywords[kid].items;
      |items| > 0 ==> items[|items| - 1].recordId <= rid
    ensures Valid(AddItem(idx, kid, rid, pos).0)
  {
    var idx' := AddItem(idx, kid, rid, pos).0;
    AddItemItemsValid(idx, kid, rid, pos);
    AddItemCounts(idx, kid, rid, pos);
    assert KeywordsIndexed(idx');
  }

  lemma AddItemItemsValid(idx: Index, kid: nat, rid: int, pos: nat)
    requires ItemsValid(idx) && kid < |idx.keywords|
    requires OccursAt(idx.records, idx.keywords[kid].name, rid, pos)
    requires var items := idx.keywords[kid].items;
      |items| > 0 ==> items[|items| - 1].recordId <= rid
    ensures ItemsValid(AddItem(idx, kid, rid, pos).0)
  {
    var k := idx.keywords[kid];
    AppendOccurrenceWellFormed(k.items, |k.name|, rid, pos);
    AddItemPointsAtKeyword(idx.records, k, rid, pos);
  }

  lemma AddItemCounts(idx: Index, kid: nat, rid: int, pos: nat)
    requires CountsValid(idx) && kid < |idx.keywords|
    ensures CountsValid(AddItem(idx, kid, rid, pos).0)
  {
    var idx' := AddItem(idx, kid, rid, pos).0;
    AddItemOccurrences(idx, kid, rid, pos);
    var s := OccurrenceCounts(idx.keywords);
    assert OccurrenceCounts(idx'.keywords) == s[kid := s[kid] + 1];
    SumUpdate(s, kid, s[kid] + 1);
  }

  lemma AddItemPointsAtKeyword(records: seq<Record>, k: Keyword, rid: int, pos: nat)
    requires ItemsPointAtKeyword(records, k)
    requires OccursAt(records, k.name, rid, pos)
    ensures ItemsPointAtKeyword(records, k.(items := AppendOccurrence(k.items, |k.name|, rid, pos)))
  {
    var r := AppendOccurrence(k.items, |k.name|, rid, pos);
    forall i, j | 0 <= i < |r| && 0 <= j < |r[i].positions|
      ensures OccursAt(records, k.name, r[i].recordId, r[i].positions[j])
    {
      if i < |k.items| && r[i] != k.items[i] {
        assert r[i].positions == k.items[i].positions + [pos];
        if j < |k.items[i].positions| {
          assert r[i].positions[j] == k.items[i].positions[j];
        }
      }
    }
  }

  lemma AddNGramValid(idx: Index, kid: int, ngram: string)
    requires Valid(idx) && 0 <= kid < |idx.keywords|
    ensures Valid(AddNGram(idx, kid, ngram))
  {
  }
}
