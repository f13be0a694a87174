/** The sheet-02 inverted index: records, item lists stored directly under
    the lower-cased keyword, and a running total of recorded occurrences.
    Unlike the later index it keeps no total content size. */
module StringKeyed {
  import opened Ascii
  import opened Wrappers
  import SearchIndex
  import Tokenizer
  import CsvLoading

  type Item = SearchIndex.Item
  type Record = SearchIndex.Record
  type Line = CsvLoading.Line

  datatype StringIndex = StringIndex(records: seq<Record>, lists: map<string, seq<Item>>, numItems: nat)

  // ----- Records -----------------------------------------------------------

  /** Appends a record and returns its id. */
  function AddRecord(idx: StringIndex, url: string, content: string): (r: (StringIndex, int))
    ensures 0 <= r.1 < |r.0.records| && r.0.records[r.1] == SearchIndex.Record(url, content)
    ensures r.0.records[..r.1] == idx.records && r.1 == |idx.records|
    ensures r.0.lists == idx.lists && r.0.numItems == idx.numItems
  {
    (idx.(records := idx.records + [SearchIndex.Record(url, content)]), |idx.records|)
  }

  /** Appends `content` to record `rid` and returns the record's old content
      length. `None` where the record lookup's assertion fails. */
  function ExtendRecord(idx: StringIndex, rid: int, content: string): (r: Option<(StringIndex, nat)>)
    ensures r.Some? <==> 0 <= rid < |idx.records|
    ensures r.Some? ==>
      var (idx', offset) := r.value;
      && |idx'.records| == |idx.records|
      && idx'.records[rid].url == idx.records[rid].url
      && offset == |idx.records[rid].content|
      && |idx'.records[rid].content| == offset + |content|
      && idx'.records[rid].content[..offset] == idx.records[rid].content
      && idx'.records[rid].content[offset..] == content
      && (forall j :: 0 <= j < |idx.records| && j != rid ==> idx'.records[j] == idx.records[j])
      && idx'.lists == idx.lists && idx'.numItems == idx.numItems
  {
    if 0 <= rid < |idx.records| then
      var rec := idx.records[rid];
      Some((idx.(records := idx.records[rid := rec.(content := rec.content + content)]), |rec.content|))
    else None
  }

  // ----- Items -------------------------------------------------------------

  /** The items of a keyword, looked up by its lower-case form; none for an
      unknown keyword. */
  function Items(idx: StringIndex, keyword: string): seq<Item> {
    var low := Lower(keyword);
    if low in idx.lists then idx.lists[low] else []
  }

  /** Records an occurrence of `keyword` in record `rid` at `pos` and returns
      the new occurrence total. An unknown keyword gets a list with one new
      item; for a known one the last item grows when it is of the same
      record, and a new item is appended otherwise. */
  function AddItem(idx: StringIndex, keyword: string, rid: int, pos: nat): (r: (StringIndex, nat))
    ensures r.1 == r.0.numItems == idx.numItems + 1 && r.0.records == idx.records
    ensures r.0.lists.Keys == idx.lists.Keys + {Lower(keyword)}
    ensures forall w :: w in idx.lists && w != Lower(keyword) ==> r.0.lists[w] == idx.lists[w]
  {
    var low := Lower(keyword);
    var items :=
      if low !in idx.lists then [SearchIndex.Item(rid, [pos], |low|, 1.0)]
      else SearchIndex.AppendOccurrence(idx.lists[low], |low|, rid, pos);
    (idx.(lists := idx.lists[low := items], numItems := idx.numItems + 1), idx.numItems + 1)
  }

  // ----- Lookup ------------------------------------------------------------

  /** Lookup ignores case, and an unknown keyword has no items. */
  lemma ItemsIgnoresCase(idx: StringIndex, a: string, b: string)
    requires Lower(a) == Lower(b)
    ensures Items(idx, a) == Items(idx, b)
    ensures Lower(a) !in idx.lists ==> Items(idx, a) == []
  {
  }

  /** Adding an occurrence appends exactly that `(record, position)` pair to
      the keyword's occurrences; every other keyword keeps its items. */
  lemma {:induction false} AddItemOccurrences(idx: StringIndex, keyword: string, rid: int, pos: nat, w: string)
    ensures Lower(w) == Lower(keyword) ==>
      SearchIndex.Occurrences(Items(AddItem(idx, keyword, rid, pos).0, w))
        == SearchIndex.Occurrences(Items(idx, w)) + [(rid, pos)]
    ensures Lower(w) != Lower(keyword) ==> Items(AddItem(idx, keyword, rid, pos).0, w) == Items(idx, w)
  {
    var low := Lower(keyword);
    if Lower(w) == low {
      SearchIndex.AppendOccurrencePairs(Items(idx, w), |low|, rid, pos);
      if low !in idx.lists {
        assert SearchIndex.AppendOccurrence([], |low|, rid, pos) == [SearchIndex.Item(rid, [pos], |low|, 1.0)];
      }
    }
  }

  /** Two occurrences of a new keyword in one record give one item with
      both positions and score two. */
  lemma {:induction false} AddItemTwiceSameRecord(idx: StringIndex, keyword: string, rid: int, p1: nat, p2: nat)
    requires Lower(keyword) !in idx.lists
    ensures Items(AddItem(AddItem(idx, keyword, rid, p1).0, keyword, rid, p2).0, keyword)
      == [SearchIndex.Item(rid, [p1, p2], |keyword|, 2.0)]
  {
    var low := Lower(keyword);
    var once := AddItem(idx, keyword, rid, p1).0;
    var first := SearchIndex.Item(rid, [p1], |low|, 1.0);
    assert once.lists[low] == [first];
    assert [p1] + [p2] == [p1, p2];
    assert SearchIndex.AppendOccurrence([first], |low|, rid, p2)
      == [first.(positions := [p1, p2], score := 2.0)];
  }

  // ----- Consistency -------------------------------------------------------

  /** The list of keyword `w`: `w` is lower case, and its items are
      non-empty, well formed and of records up to `last`. */
  ghost predicate ListValid(w: string, items: seq<Item>, last: int) {
    && IsLowerWord(w) && |items| > 0
    && SearchIndex.ItemsWellFormed(items, |w|)
    && items[|items| - 1].recordId <= last
  }

  /** Every stored keyword's list is consistent. */
  ghost predicate Valid(idx: StringIndex, last: int) {
    forall w :: w in idx.lists ==> ListValid(w, idx.lists[w], last)
  }

  /** Occurrences arriving with non-decreasing record ids keep the index
      consistent: every list stays sorted with one item per record. */
  lemma {:induction false} AddItemValid(idx: StringIndex, keyword: string, rid: int, pos: nat, last: int)
    requires Valid(idx, last) && last <= rid
    ensures Valid(AddItem(idx, keyword, rid, pos).0, rid)
  {
    var low := Lower(keyword);
    var idx' := AddItem(idx, keyword, rid, pos).0;
    AddedListValid(idx, idx', keyword, rid, pos, last);
    forall w | w in idx'.lists
      ensures ListValid(w, idx'.lists[w], rid)
    {
      if w != low {
        OtherListValid(idx, idx', keyword, rid, pos, last, w);
      }
    }
  }

  /** The lists of other keywords are unchanged and stay consistent. */
  lemma OtherListValid(idx: StringIndex, idx': StringIndex, keyword: string, rid: int, pos: nat, last: int, w: string)
    requires Valid(idx, last) && last <= rid && idx' == AddItem(idx, keyword, rid, pos).0
    requires w in idx'.lists && w != Lower(keyword)
    ensures ListValid(w, idx'.lists[w], rid)
  {
    assert w in idx.lists;
    assert idx'.lists[w] == idx.lists[w];
  }

  /** The list of the added keyword stays consistent. */
  lemma AddedListValid(idx: StringIndex, idx': StringIndex, keyword: string, rid: int, pos: nat, last: int)
    requires Valid(idx, last) && last <= rid && idx' == AddItem(idx, keyword, rid, pos).0
    ensures Lower(keyword) in idx'.lists && ListValid(Lower(keyword), idx'.lists[Lower(keyword)], rid)
  {
    var low := Lower(keyword);
    LowerIsLowerWord(keyword);
    if low in idx.lists {
      SearchIndex.AppendOccurrenceWellFormed(idx.lists[low], |low|, rid, pos);
    }
  }

  // ----- A run of additions ------------------------------------------------

  /** The index after recording the `(keyword, record id, position)`
      occurrences of `log` in order. */
  function AddAll(idx: StringIndex, log: seq<(string, int, nat)>): (r: StringIndex)
    ensures r.numItems == idx.numItems + |log| && r.records == idx.records
    decreases |log|
  {
    if |log| == 0 then idx
    else AddAll(AddItem(idx, log[0].0, log[0].1, log[0].2).0, log[1..])
  }

  /** The `(record id, position)` pairs of the occurrences of `log` whose
      keyword has the lower-case form of `w`, in order. */
  function OccurrencesOf(log: seq<(string, int, nat)>, w: string): seq<(int, nat)> {
    if |log| == 0 then []
    else (if Lower(log[0].0) == Lower(w) then [(log[0].1, log[0].2)] else []) + OccurrencesOf(log[1..], w)
  }

  /** After a run of additions a keyword's items hold exactly its earlier
      occurrences followed by those of the run, case ignored, and the total
      grows by the run's length. */
  lemma {:induction false} AddAllOccurrences(idx: StringIndex, log: seq<(string, int, nat)>, w: string)
    ensures SearchIndex.Occurrences(Items(AddAll(idx, log), w))
      == SearchIndex.Occurrences(Items(idx, w)) + OccurrencesOf(log, w)
    ensures AddAll(idx, log).numItems == idx.numItems + |log|
    decreases |log|
  {
    if |log| > 0 {
      var next := AddItem(idx, log[0].0, log[0].1, log[0].2).0;
      AddAllOccurrences(next, log[1..], w);
      var h := if Lower(log[0].0) == Lower(w) then [(log[0].1, log[0].2)] else [];
      AddItemOccurrences(idx, log[0].0, log[0].1, log[0].2, w);
      assert SearchIndex.Occurrences(Items(next, w)) == SearchIndex.Occurrences(Items(idx, w)) + h;
      assert OccurrencesOf(log, w) == h + OccurrencesOf(log[1..], w);
      assert AddAll(idx, log) == AddAll(next, log[1..]);
      Assoc(SearchIndex.Occurrences(Items(idx, w)), h, OccurrencesOf(log[1..], w));
    }
  }

  lemma Assoc(a: seq<(int, nat)>, b: seq<(int, nat)>, c: seq<(int, nat)>)
    ensures (a + b) + c == a + (b + c)
  {
  }

  /** A run of additions, all for record `rid` at or after `last`, keeps
      the index consistent, up to `rid`. */
  lemma {:induction false} AddAllValid(idx: StringIndex, log: seq<(string, int, nat)>, last: int, rid: int)
    requires Valid(idx, last) && last <= rid
    requires forall i :: 0 <= i < |log| ==> log[i].1 == rid
    ensures Valid(AddAll(idx, log), rid)
    decreases |log|
  {
    if |log| == 0 {
      ValidMono(idx, last, rid);
    } else {
      var next := AddItem(idx, log[0].0, rid, log[0].2).0;
      AddItemValid(idx, log[0].0, rid, log[0].2, last);
      AddAllValid(next, log[1..], rid, rid);
      assert AddAll(idx, log) == AddAll(next, log[1..]);
    }
  }

  /** Consistency up to `last` implies consistency up to any later id. */
  lemma ValidMono(idx: StringIndex, last: int, last': int)
    requires Valid(idx, last) && last <= last'
    ensures Valid(idx, last')
  {
    forall w | w in idx.lists
      ensures ListValid(w, idx.lists[w], last')
    {
      assert ListValid(w, idx.lists[w], last);
    }
  }

  // ----- Loading CSV text --------------------------------------------------

  /** The occurrences of a line's keywords, in record `rid`, where the
      line's content starts at `offset` of the record. */
  function LineLog(content: string, rid: int, offset: nat): (log: seq<(string, int, nat)>)
    requires |content| > 0
    ensures |log| == |Tokenizer.ExtractKeywords(content, 0, |content|)|
    ensures forall i :: 0 <= i < |log| ==> log[i].1 == rid
  {
    var ws := CsvLoading.Words(content, Tokenizer.ExtractKeywords(content, 0, |content|), offset);
    seq(|ws|, i requires 0 <= i < |ws| => (ws[i].0, rid, ws[i].1))
  }

  /** One iteration of the loading loop. A url that differs from the
      previous line's opens a record, whatever it is; the previous url
      extends record `rid`, which fails while no record has been opened.
      Then every keyword of the line becomes an item. Returns the index and
      the current record id. */
  function LoadLine(idx: StringIndex, line: Line, prevUrl: string, rid: int): (r: Option<(StringIndex, int)>)
    requires CsvLoading.WellFormedLine(line)
    ensures r.Some? <==> line.url != prevUrl || 0 <= rid < |idx.records|
    ensures r.Some? ==> r.value.0.numItems == idx.numItems + |Tokenizer.ExtractKeywords(line.content, 0, |line.content|)|
  {
    if line.url != prevUrl then
      var (idx1, rid1) := AddRecord(idx, line.url, line.content);
      Some((AddAll(idx1, LineLog(line.content, rid1, 0)), rid1))
    else
      match ExtendRecord(idx, rid, line.content)
      case None => None
      case Some((idx1, offset)) => Some((AddAll(idx1, LineLog(line.content, rid, offset)), rid))
  }

  /** The loading loop from `pos` on, after the line with url `prevUrl` was
      loaded into record `rid`. */
  function LoadFrom(idx: StringIndex, text: string, pos: nat, prevUrl: string, rid: int): (r: Option<StringIndex>)
    requires pos <= |text|
    decreases |text| - pos
  {
    if pos == |text| then Some(idx)
    else
      match CsvLoading.ParseLine(text, pos)
      case None => None
      case Some((line, next)) =>
        CsvLoading.ParseLineWellFormed(text, pos);
        match LoadLine(idx, line, prevUrl, rid)
        case None => None
        case Some((idx', rid')) => LoadFrom(idx', text, next, line.url, rid')
  }

  /** `AddRecordsFromCsv` of the string-keyed index: no url is checked, and
      the previous url starts out empty with no current record. */
  function AddRecordsFromCsv(idx: StringIndex, text: string): Option<StringIndex> {
    LoadFrom(idx, text, 0, "", SearchIndex.InvalidId)
  }

  /** Every line can be loaded: one was loaded already, or none is left, or
      the first one has a url, so that it does not extend a missing record. */
  predicate FirstOpens(done: seq<Line>, ls: seq<Line>) {
    |done| > 0 || |ls| == 0 || |ls[0].url| > 0
  }

  /** A line the loop can load moves the loop state on by that line. */
  lemma LoadLineState(base: seq<Record>, idx: StringIndex, done: seq<Line>, prevUrl: string, rid: int, line: Line)
    requires CsvLoading.LoopState(base, idx.records, done, prevUrl, rid) && CsvLoading.WellFormedLine(line)
    requires |done| > 0 || |line.url| > 0
    ensures var s := LoadLine(idx, line, prevUrl, rid);
      s.Some? && CsvLoading.LoopState(base, s.value.0.records, done + [line], line.url, s.value.1)
  {
    if line.url != prevUrl {
      CsvLoading.GroupsNewRecord(base, idx.records, done, prevUrl, rid, line);
    } else {
      CsvLoading.GroupsSameRecord(base, idx.records, done, prevUrl, rid, line);
    }
  }

  /** The loop loads each run of same-url lines as one record after the
      existing ones, adds one item per keyword, and fails exactly when a line
      is malformed or the very first line has an empty url. */
  lemma {:induction false} LoadFromCorrect(base: seq<Record>, idx: StringIndex, text: string, pos: nat, done: seq<Line>, prevUrl: string, rid: int)
    requires pos <= |text| && CsvLoading.LoopState(base, idx.records, done, prevUrl, rid)
    ensures var r := LoadFrom(idx, text, pos, prevUrl, rid);
      r.Some? <==> CsvLoading.Lines(text, pos).Some? && FirstOpens(done, CsvLoading.Lines(text, pos).value)
    ensures var r := LoadFrom(idx, text, pos, prevUrl, rid);
      r.Some? ==>
        var ls := CsvLoading.Lines(text, pos).value;
        && r.value.records == base + CsvLoading.Group(done + ls)
        && r.value.numItems == idx.numItems + CsvLoading.KeywordCount(ls)
    decreases |text| - pos
  {
    if pos == |text| {
      assert done + [] == done;
    } else if CsvLoading.ParseLine(text, pos).Some? {
      var (line, next) := CsvLoading.ParseLine(text, pos).value;
      CsvLoading.ParseLineWellFormed(text, pos);
      if |done| > 0 || |line.url| > 0 {
        LoadLineState(base, idx, done, prevUrl, rid, line);
        var (idx', rid') := LoadLine(idx, line, prevUrl, rid).value;
        assert LoadFrom(idx, text, pos, prevUrl, rid) == LoadFrom(idx', text, next, line.url, rid');
        LoadFromCorrect(base, idx', text, next, done + [line], line.url, rid');
        CsvLoading.LoadFromStep(text, pos, done, line, next);
      } else {
        assert LoadLine(idx, line, prevUrl, rid).None?;
        if CsvLoading.Lines(text, pos).Some? {
          CsvLoading.LinesHead(text, pos);
        }
      }
    }
  }

  /** A loaded line keeps the index consistent up to its last record,
      which becomes the current one. */
  lemma LoadLineValid(idx: StringIndex, line: Line, prevUrl: string, rid: int)
    requires CsvLoading.WellFormedLine(line) && Valid(idx, |idx.records| - 1)
    requires rid < 0 || rid == |idx.records| - 1
    requires LoadLine(idx, line, prevUrl, rid).Some?
    ensures var (s, rid') := LoadLine(idx, line, prevUrl, rid).value;
      Valid(s, |s.records| - 1) && rid' == |s.records| - 1
  {
    if line.url != prevUrl {
      var (idx1, rid1) := AddRecord(idx, line.url, line.content);
      AddAllValid(idx1, LineLog(line.content, rid1, 0), |idx.records| - 1, rid1);
    } else {
      var (idx1, offset) := ExtendRecord(idx, rid, line.content).value;
      AddAllValid(idx1, LineLog(line.content, rid, offset), |idx.records| - 1, rid);
    }
  }

  /** Loading keeps the index consistent up to its last record. */
  lemma {:induction false} LoadFromValid(idx: StringIndex, text: string, pos: nat, prevUrl: string, rid: int)
    requires pos <= |text| && Valid(idx, |idx.records| - 1)
    requires rid < 0 || rid == |idx.records| - 1
    ensures var r := LoadFrom(idx, text, pos, prevUrl, rid);
      r.Some? ==> Valid(r.value, |r.value.records| - 1)
    decreases |text| - pos
  {
    if pos < |text| && CsvLoading.ParseLine(text, pos).Some? {
      var (line, next) := CsvLoading.ParseLine(text, pos).value;
      CsvLoading.ParseLineWellFormed(text, pos);
      if LoadLine(idx, line, prevUrl, rid).Some? {
        LoadLineValid(idx, line, prevUrl, rid);
        var (idx', rid') := LoadLine(idx, line, prevUrl, rid).value;
        assert LoadFrom(idx, text, pos, prevUrl, rid) == LoadFrom(idx', text, next, line.url, rid');
        LoadFromValid(idx', text, next, line.url, rid');
      }
    }
  }

  /** Loading CSV text: it succeeds exactly when every line is well formed
      and the first line's url is not empty; an empty url on a later line
      opens a record like any other. One record is appended per run of
      same-url lines, one item is counted per keyword, and a consistent
      index stays consistent. */
  lemma AddRecordsFromCsvCorrect(idx: StringIndex, text: string)
    ensures var r := AddRecordsFromCsv(idx, text);
      var ls := CsvLoading.Lines(text, 0);
      && (r.Some? <==> ls.Some? && (|ls.value| == 0 || |ls.value[0].url| > 0))
      && (r.Some? ==>
            && r.value.records == idx.records + CsvLoading.Group(ls.value)
            && r.value.numItems == idx.numItems + CsvLoading.KeywordCount(ls.value))
      && (r.Some? && Valid(idx, |idx.records| - 1) ==> Valid(r.value, |r.value.records| - 1))
  {
    LoadFromCorrect(idx.records, idx, text, 0, [], "", SearchIndex.InvalidId);
    if Valid(idx, |idx.records| - 1) {
      LoadFromValid(idx, text, 0, "", SearchIndex.InvalidId);
    }
    if CsvLoading.Lines(text, 0).Some? {
      assert [] + CsvLoading.Lines(text, 0).value == CsvLoading.Lines(text, 0).value;
    }
  }

  // ----- Where the keywords land -------------------------------------------

  /** A log of words, all in record `rid`, holds the occurrences of `w`
      that the words must give. */
  lemma {:induction false} LogMatching(log: seq<(string, int, nat)>, ws: seq<(string, nat)>, rid: int, w: string)
    requires |log| == |ws| && forall i :: 0 <= i < |ws| ==> log[i] == (ws[i].0, rid, ws[i].1)
    ensures OccurrencesOf(log, w) == CsvLoading.Matching(ws, rid, w)
    decreases |ws|
  {
    if |ws| > 0 {
      LogMatching(log[1..], ws[1..], rid, w);
    }
  }

  /** The record step of `LoadLine`: the record the line lands in and where
      its content starts there. */
  function Step(idx: StringIndex, line: Line, prevUrl: string, rid: int): (r: Option<(StringIndex, int, nat)>)
    ensures r.Some? <==> line.url != prevUrl || 0 <= rid < |idx.records|
    ensures r.Some? ==>
      var (idx1, rid1, offset) := r.value;
      && 0 <= rid1 < |idx1.records| && offset + |line.content| == |idx1.records[rid1].content|
      && idx1.lists == idx.lists
  {
    if line.url != prevUrl then
      var (idx1, rid1) := AddRecord(idx, line.url, line.content);
      Some((idx1, rid1, 0))
    else
      match ExtendRecord(idx, rid, line.content)
      case None => None
      case Some((idx1, offset)) => Some((idx1, rid, offset))
  }

  /** One line, loaded in the loop state after the lines `done`, appends
      the line's occurrences to the items of every keyword. */
  lemma LoadLineItems(base: seq<Record>, occ0: seq<(int, nat)>, idx: StringIndex, done: seq<Line>, prevUrl: string, rid: int,
                      line: Line, w: string)
    requires CsvLoading.WellFormedLine(line) && CsvLoading.LoopState(base, idx.records, done, prevUrl, rid)
    requires |done| > 0 || |line.url| > 0
    requires SearchIndex.Occurrences(Items(idx, w))
      == occ0 + CsvLoading.LineOccurrences(|base|, done, w)
    ensures var s := LoadLine(idx, line, prevUrl, rid);
      && s.Some? && CsvLoading.LoopState(base, s.value.0.records, done + [line], line.url, s.value.1)
      && SearchIndex.Occurrences(Items(s.value.0, w))
           == occ0 + CsvLoading.LineOccurrences(|base|, done + [line], w)
  {
    LoadLineState(base, idx, done, prevUrl, rid, line);
    var (idx1, rid1, offset) := Step(idx, line, prevUrl, rid).value;
    var log := LineLog(line.content, rid1, offset);
    assert LoadLine(idx, line, prevUrl, rid) == Some((AddAll(idx1, log), rid1));
    CsvLoading.SpotOfStep(base, idx1.records, done, line, rid1, offset);
    var ws := CsvLoading.Words(line.content, CsvLoading.Keywords(line.content), offset);
    LogMatching(log, ws, rid1, w);
    AddAllOccurrences(idx1, log, w);
    CsvLoading.LineOccurrencesSnoc(|base|, done, line, w);
    Assoc(occ0, CsvLoading.LineOccurrences(|base|, done, w),
          CsvLoading.Matching(ws, rid1, w));
  }

  /** The loading loop appends, to the items of every keyword `w`, exactly
      the occurrences of `w` in the lines it loads. */
  lemma {:induction false} LoadFromItems(base: seq<Record>, occ0: seq<(int, nat)>, idx: StringIndex, text: string, pos: nat,
                                         done: seq<Line>, prevUrl: string, rid: int, w: string)
    requires pos <= |text| && CsvLoading.LoopState(base, idx.records, done, prevUrl, rid)
    requires SearchIndex.Occurrences(Items(idx, w))
      == occ0 + CsvLoading.LineOccurrences(|base|, done, w)
    ensures var r := LoadFrom(idx, text, pos, prevUrl, rid);
      r.Some? ==>
        && CsvLoading.Lines(text, pos).Some?
        && SearchIndex.Occurrences(Items(r.value, w))
             == occ0
                + CsvLoading.LineOccurrences(|base|, done + CsvLoading.Lines(text, pos).value, w)
    decreases |text| - pos
  {
    if pos == |text| {
      assert done + [] == done;
    } else if CsvLoading.ParseLine(text, pos).Some? {
      var p := CsvLoading.ParseLine(text, pos).value;
      CsvLoading.ParseLineWellFormed(text, pos);
      if |done| > 0 || |p.0.url| > 0 {
        LoadLineItems(base, occ0, idx, done, prevUrl, rid, p.0, w);
        var s := LoadLine(idx, p.0, prevUrl, rid).value;
        LoadFromUnfold(idx, text, pos, prevUrl, rid);
        LoadFromItems(base, occ0, s.0, text, p.1, done + [p.0], p.0.url, s.1, w);
        var r := LoadFrom(s.0, text, p.1, p.0.url, s.1);
        if r.Some? {
          CsvLoading.RestOfLines(|base|, occ0, SearchIndex.Occurrences(Items(r.value, w)), text, pos, done, p.0, p.1, w);
        }
      } else {
        FirstLineFails(base, idx, text, pos, prevUrl, rid);
      }
    }
  }

  /** A loaded line hands the rest of the text to the next iteration. */
  lemma LoadFromUnfold(idx: StringIndex, text: string, pos: nat, prevUrl: string, rid: int)
    requires pos < |text| && CsvLoading.ParseLine(text, pos).Some?
    requires var line := CsvLoading.ParseLine(text, pos).value.0;
      CsvLoading.WellFormedLine(line) && LoadLine(idx, line, prevUrl, rid).Some?
    ensures var (line, next) := CsvLoading.ParseLine(text, pos).value;
      var (idx', rid') := LoadLine(idx, line, prevUrl, rid).value;
      LoadFrom(idx, text, pos, prevUrl, rid) == LoadFrom(idx', text, next, line.url, rid')
  {
  }

  /** A first line with an empty url makes the loop fail. */
  lemma FirstLineFails(base: seq<Record>, idx: StringIndex, text: string, pos: nat, prevUrl: string, rid: int)
    requires pos < |text| && CsvLoading.ParseLine(text, pos).Some?
    requires CsvLoading.LoopState(base, idx.records, [], prevUrl, rid)
    requires |CsvLoading.ParseLine(text, pos).value.0.url| == 0
    ensures LoadFrom(idx, text, pos, prevUrl, rid).None?
  {
    CsvLoading.ParseLineWellFormed(text, pos);
    assert LoadLine(idx, CsvLoading.ParseLine(text, pos).value.0, prevUrl, rid).None?;
  }

  /** Loading a file appends, to the items of every keyword `w`, exactly
      the occurrences of `w` in the file's lines, in order: each in the
      record of its run of same-url lines, at its position in that record. */
  lemma AddRecordsFromCsvItems(idx: StringIndex, text: string, w: string)
    ensures var r := AddRecordsFromCsv(idx, text);
      r.Some? ==>
        && CsvLoading.Lines(text, 0).Some?
        && SearchIndex.Occurrences(Items(r.value, w))
             == SearchIndex.Occurrences(Items(idx, w)) + CsvLoading.LineOccurrences(|idx.records|, CsvLoading.Lines(text, 0).value, w)
  {
    assert SearchIndex.Occurrences(Items(idx, w)) + [] == SearchIndex.Occurrences(Items(idx, w));
    LoadFromItems(idx.records, SearchIndex.Occurrences(Items(idx, w)), idx, text, 0, [], "", SearchIndex.InvalidId, w);
    if CsvLoading.Lines(text, 0).Some? {
      assert [] + CsvLoading.Lines(text, 0).value == CsvLoading.Lines(text, 0).value;
    }
  }

  /** The occurrences of a consistent index lie in its records. */
  lemma ItemsInRecords(idx: StringIndex, w: string)
    requires Valid(idx, |idx.records| - 1)
    ensures forall p :: p in SearchIndex.Occurrences(Items(idx, w)) ==> p.0 < |idx.records|
  {
    var items := Items(idx, w);
    if Lower(w) in idx.lists {
      assert ListValid(Lower(w), items, |idx.records| - 1);
      forall i | 0 <= i < |items|
        ensures items[i].recordId < |idx.records|
      {
        if i < |items| - 1 {
          assert items[i].recordId < items[|items| - 1].recordId;
        }
      }
    }
    SearchIndex.OccurrencesBelow(items, |idx.records|);
  }

  /** Loading keeps the occurrences of every keyword in ascending order, so
      the positions within each of its items ascend strictly: the keywords
      of a line in text order, and a later line of the same record after
      the earlier ones. */
  lemma AddRecordsFromCsvAscending(idx: StringIndex, text: string, w: string)
    requires Valid(idx, |idx.records| - 1) && SearchIndex.Ascending(SearchIndex.Occurrences(Items(idx, w)))
    ensures var r := AddRecordsFromCsv(idx, text);
      r.Some? ==>
        var items := Items(r.value, w);
        && SearchIndex.Ascending(SearchIndex.Occurrences(items))
        && forall i, a, b :: 0 <= i < |items| && 0 <= a < b < |items[i].positions| ==>
             items[i].positions[a] < items[i].positions[b]
  {
    AddRecordsFromCsvItems(idx, text, w);
    var r := AddRecordsFromCsv(idx, text);
    if r.Some? {
      var ls := CsvLoading.Lines(text, 0).value;
      ItemsInRecords(idx, w);
      CsvLoading.LineOccurrencesOrdered(|idx.records|, ls, w);
      SearchIndex.AscendingJoin(SearchIndex.Occurrences(Items(idx, w)), CsvLoading.LineOccurrences(|idx.records|, ls, w));
      SearchIndex.AscendingPositions(Items(r.value, w));
    }
  }
}
