/** The first inverted index: records, and for every keyword, exactly as
    spelled, the plain list of record ids it was added with; a running total
    of added items. */
module PlainIndex {
  import SearchIndex

  datatype ListIndex = ListIndex(records: seq<SearchIndex.Record>, lists: map<string, seq<int>>, numItems: nat)

  const Empty: ListIndex := ListIndex([], map[], 0)

  /** The record ids stored under `keyword`; none for an unknown keyword. */
  function Ids(idx: ListIndex, keyword: string): seq<int> {
    if keyword in idx.lists then idx.lists[keyword] else []
  }

  /** Appends a record and returns its id, the number of records before it. */
  function AddRecord(idx: ListIndex, url: string, content: string): (r: (ListIndex, int))
    ensures 0 <= r.1 < |r.0.records| && r.0.records[r.1] == SearchIndex.Record(url, content)
    ensures r.0.records[..r.1] == idx.records
    ensures r.0.lists == idx.lists && r.0.numItems == idx.numItems
  {
    (idx.(records := idx.records + [SearchIndex.Record(url, content)]), |idx.records|)
  }

  /** Appends `rid` to the list of `keyword` as spelled, duplicates
      included, and returns the new item total. */
  function AddItem(idx: ListIndex, keyword: string, rid: int): (r: (ListIndex, nat))
    ensures r.1 == r.0.numItems == idx.numItems + 1
    ensures r.0.records == idx.records
    ensures r.0.lists.Keys == idx.lists.Keys + {keyword}
  {
    var ids := Ids(idx, keyword) + [rid];
    (idx.(lists := idx.lists[keyword := ids], numItems := idx.numItems + 1), idx.numItems + 1)
  }

  /** Adding an item appends its record id to that spelling's list and to
      no other: a different spelling, even one differing only in case,
      keeps its list. */
  lemma AddItemIds(idx: ListIndex, keyword: string, rid: int, w: string)
    ensures Ids(AddItem(idx, keyword, rid).0, w) == Ids(idx, w) + (if w == keyword then [rid] else [])
  {
  }

  // ----- Runs of additions -------------------------------------------------

  /** The index after adding the records `rs` in order, and their ids. */
  function AddRecords(idx: ListIndex, rs: seq<SearchIndex.Record>): (r: (ListIndex, seq<int>))
    ensures |r.1| == |rs|
    decreases |rs|
  {
    if |rs| == 0 then (idx, [])
    else
      var (idx', id) := AddRecord(idx, rs[0].url, rs[0].content);
      var (idx'', ids) := AddRecords(idx', rs[1..]);
      (idx'', [id] + ids)
  }

  /** Record ids are dense: the `k`-th record added gets the number of
      records before the run plus `k`, and is stored there. */
  lemma {:induction false} AddRecordsDense(idx: ListIndex, rs: seq<SearchIndex.Record>)
    ensures |AddRecords(idx, rs).0.records| == |idx.records| + |rs|
    ensures AddRecords(idx, rs).0.records[..|idx.records|] == idx.records
    ensures forall k :: 0 <= k < |rs| ==>
      AddRecords(idx, rs).1[k] == |idx.records| + k && AddRecords(idx, rs).0.records[|idx.records| + k] == rs[k]
    decreases |rs|
  {
    if |rs| > 0 {
      var idx' := AddRecord(idx, rs[0].url, rs[0].content).0;
      AddRecordsDense(idx', rs[1..]);
      var r := AddRecords(idx, rs);
      assert r.0 == AddRecords(idx', rs[1..]).0;
      assert r.0.records[..|idx'.records|] == idx'.records;
      forall k | 0 <= k < |rs|
        ensures r.1[k] == |idx.records| + k && r.0.records[|idx.records| + k] == rs[k]
      {
        if k > 0 {
          assert r.1[k] == AddRecords(idx', rs[1..]).1[k - 1];
        } else {
          assert r.0.records[|idx.records|] == idx'.records[|idx.records|];
        }
      }
      assert r.0.records[..|idx.records|] == idx'.records[..|idx.records|];
    }
  }

  /** The index after adding the `(keyword, record id)` items of `log`. */
  function AddItems(idx: ListIndex, log: seq<(string, int)>): (r: ListIndex)
    ensures r.numItems == idx.numItems + |log|
    decreases |log|
  {
    if |log| == 0 then idx else AddItems(AddItem(idx, log[0].0, log[0].1).0, log[1..])
  }

  /** The record ids of the items of `log` spelled exactly `w`, in order. */
  function IdsOf(log: seq<(string, int)>, w: string): seq<int> {
    if |log| == 0 then [] else (if log[0].0 == w then [log[0].1] else []) + IdsOf(log[1..], w)
  }

  /** After a run of additions a spelling's list is its earlier list
      followed by the run's record ids for exactly that spelling. */
  lemma {:induction false} AddItemsIds(idx: ListIndex, log: seq<(string, int)>, w: string)
    ensures Ids(AddItems(idx, log), w) == Ids(idx, w) + IdsOf(log, w)
    decreases |log|
  {
    if |log| > 0 {
      var next := AddItem(idx, log[0].0, log[0].1).0;
      AddItemIds(idx, log[0].0, log[0].1, w);
      AddItemsIds(next, log[1..], w);
    }
  }
}
