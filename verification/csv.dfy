/** Loading records from CSV text of lines `<url>\t<content>\n`, and
    keywords from text of lines `<keyword>\n`. Consecutive lines with the
    same url form one record whose content is the lines' contents joined;
    every keyword of every line becomes an item of that record. Failed
    format assertions are `None`. */
module CsvLoading {
  import opened Ascii
  import opened Wrappers
  import opened Tokenizer
  import opened SearchIndex
  import Merging

  /** First index at or after `i` holding `c`; `|text|` plays npos. */
  function FindChar(text: string, c: char, i: nat): (j: nat)
    requires i <= |text|
    ensures i <= j <= |text|
    ensures forall k :: i <= k < j ==> text[k] != c
    ensures j < |text| ==> text[j] == c
    decreases |text| - i
  {
    if i == |text| || text[i] == c then i else FindChar(text, c, i + 1)
  }

  /** One line: the url column and the content column, which keeps its
      terminating newline. */
  datatype Line = Line(url: string, content: string)

  /** The line starting at `pos` and the position after it: the url runs up
      to the first tab, the content from after the tab up to and including
      the next newline. `None` if either is missing. */
  function ParseLine(text: string, pos: nat): (r: Option<(Line, nat)>)
    requires pos < |text|
    ensures r.Some? ==> pos < r.value.1 <= |text|
  {
    var tab := FindChar(text, '\t', pos);
    if tab == |text| then None
    else
      var nl := FindChar(text, '\n', tab);
      if nl == |text| then None
      else Some((Line(text[pos..tab], text[tab + 1..nl + 1]), nl + 1))
  }

  /** A parsed line is exactly the text it was read from. */
  lemma ParseLineText(text: string, pos: nat)
    requires pos < |text| && ParseLine(text, pos).Some?
    ensures var (line, next) := ParseLine(text, pos).value;
      text[pos..next] == line.url + "\t" + line.content
  {
    var tab := FindChar(text, '\t', pos);
    var nl := FindChar(text, '\n', tab);
    assert text[pos..nl + 1] == text[pos..tab] + "\t" + text[tab + 1..nl + 1];
  }

  /** A line as the parser delivers it: no tab in the url, and exactly one
      newline in the content, at its end. */
  predicate WellFormedLine(l: Line) {
    && (forall k :: 0 <= k < |l.url| ==> l.url[k] != '\t')
    && |l.content| > 0 && l.content[|l.content| - 1] == '\n'
    && (forall k :: 0 <= k < |l.content| - 1 ==> l.content[k] != '\n')
  }

  /** All lines from `pos` on, or `None` if one of them is malformed. */
  function Lines(text: string, pos: nat): (r: Option<seq<Line>>)
    requires pos <= |text|
    decreases |text| - pos
  {
    if pos == |text| then Some([])
    else
      var p := ParseLine(text, pos);
      if p.None? then None
      else
        var rest := Lines(text, p.value.1);
        if rest.None? then None else Some([p.value.0] + rest.value)
  }

  /** Every parsed line is well formed. */
  lemma ParseLineWellFormed(text: string, pos: nat)
    requires pos < |text| && ParseLine(text, pos).Some?
    ensures WellFormedLine(ParseLine(text, pos).value.0)
  {
  }

  /** Every line `Lines` delivers is well formed. */
  lemma {:induction false} LinesWellFormed(text: string, pos: nat)
    requires pos <= |text| && Lines(text, pos).Some?
    ensures forall i :: 0 <= i < |Lines(text, pos).value| ==> WellFormedLine(Lines(text, pos).value[i])
    decreases |text| - pos
  {
    if pos < |text| {
      var (line, next) := ParseLine(text, pos).value;
      ParseLineWellFormed(text, pos);
      LinesWellFormed(text, next);
    }
  }

  /** The text of a sequence of lines. */
  function Format(ls: seq<Line>): string {
    if |ls| == 0 then "" else ls[0].url + "\t" + ls[0].content + Format(ls[1..])
  }

  /** Unfolding `Lines` at a line that parses. */
  lemma LinesStep(text: string, pos: nat)
    requires pos < |text| && Lines(text, pos).Some?
    ensures ParseLine(text, pos).Some?
    ensures var (line, next) := ParseLine(text, pos).value;
      Lines(text, next).Some? && Lines(text, pos).value == [line] + Lines(text, next).value
  {
  }

  lemma FormatCons(l: Line, rest: seq<Line>)
    ensures Format([l] + rest) == l.url + "\t" + l.content + Format(rest)
  {
    assert ([l] + rest)[1..] == rest;
  }

  /** Parsing consumes the whole text: the lines format back to it. */
  lemma {:induction false} LinesFormat(text: string, pos: nat)
    requires pos <= |text| && Lines(text, pos).Some?
    ensures Format(Lines(text, pos).value) == text[pos..]
    decreases |text| - pos
  {
    if pos < |text| {
      LinesStep(text, pos);
      var (line, next) := ParseLine(text, pos).value;
      ParseLineText(text, pos);
      LinesFormat(text, next);
      FormatStep(text, pos, line, next, Lines(text, next).value);
    }
  }

  lemma FormatStep(text: string, pos: nat, line: Line, next: nat, ls: seq<Line>)
    requires pos <= next <= |text| && text[pos..next] == line.url + "\t" + line.content
    requires Format(ls) == text[next..]
    ensures Format([line] + ls) == text[pos..]
  {
    FormatCons(line, ls);
    assert text[pos..] == text[pos..next] + text[next..];
  }

  /** Well-formed lines parse back from their text. */
  lemma FormatLines(ls: seq<Line>)
    requires forall i :: 0 <= i < |ls| ==> WellFormedLine(ls[i])
    ensures Lines(Format(ls), 0) == Some(ls)
  {
    FormatLinesAt(Format(ls), 0, ls);
  }

  /** Well-formed lines parse back from their text wherever it starts. */
  lemma {:induction false} FormatLinesAt(text: string, pos: nat, ls: seq<Line>)
    requires forall i :: 0 <= i < |ls| ==> WellFormedLine(ls[i])
    requires pos <= |text| && text[pos..] == Format(ls)
    ensures Lines(text, pos) == Some(ls)
    decreases |ls|
  {
    if |ls| > 0 {
      var l := ls[0];
      FormatCons(l, ls[1..]);
      assert ls == [l] + ls[1..];
      var next := ParseFormatted(text, pos, l, Format(ls[1..]));
      FormatLinesAt(text, next, ls[1..]);
      LinesCons(text, pos, l, next);
    }
  }

  /** Unfolding `Lines` at a line that parses, followed by lines that do. */
  lemma LinesCons(text: string, pos: nat, l: Line, next: nat)
    requires pos < |text| && ParseLine(text, pos) == Some((l, next)) && Lines(text, next).Some?
    ensures Lines(text, pos) == Some([l] + Lines(text, next).value)
  {
  }

  /** A well-formed line's text at `pos` parses back to the line, and
      parsing continues where its text ends. */
  lemma ParseFormatted(text: string, pos: nat, l: Line, rest: string) returns (next: nat)
    requires WellFormedLine(l) && pos <= |text| && text[pos..] == l.url + "\t" + l.content + rest
    ensures pos < next <= |text| && ParseLine(text, pos) == Some((l, next)) && text[next..] == rest
  {
    var u := pos + |l.url|;
    next := u + 1 + |l.content|;
    FormattedSlices(text, pos, l, rest, u, next);
    FindTab(text, pos, l.url, u);
    FindNewline(text, u, l.content, next);
    ParseLineIs(text, pos, l, u, next);
  }

  /** The parts of a formatted line, as slices of the text. */
  lemma FormattedSlices(text: string, pos: nat, l: Line, rest: string, u: nat, e: nat)
    requires pos <= |text| && text[pos..] == l.url + "\t" + l.content + rest
    requires u == pos + |l.url| && e == u + 1 + |l.content|
    ensures e <= |text| && text[pos..u] == l.url && text[u] == '\t'
    ensures text[u + 1..e] == l.content && text[e..] == rest
  {
    var t := text[pos..];
    assert text[pos..u] == t[..|l.url|];
    assert t[|l.url|] == '\t';
    assert text[u + 1..e] == t[|l.url| + 1..|l.url| + 1 + |l.content|];
    assert text[e..] == t[|l.url| + 1 + |l.content|..];
  }

  /** The parse of a line whose tab and newline were found where the
      line's parts end. */
  lemma ParseLineIs(text: string, pos: nat, l: Line, u: nat, e: nat)
    requires pos <= u < e <= |text| && FindChar(text, '\t', pos) == u && FindChar(text, '\n', u) == e - 1
    requires text[pos..u] == l.url && text[u + 1..e] == l.content
    ensures ParseLine(text, pos) == Some((l, e))
  {
    ParseLineAt(text, pos, u, e - 1);
  }

  /** `m` is the first position at or after `i` holding `c`. */
  lemma FindCharIs(text: string, c: char, i: nat, m: nat)
    requires i <= m < |text| && text[m] == c
    requires forall k :: i <= k < m ==> text[k] != c
    ensures FindChar(text, c, i) == m
  {
  }

  /** The tab after a url without tabs is the first one. */
  lemma FindTab(text: string, pos: nat, url: string, u: nat)
    requires (forall k :: 0 <= k < |url| ==> url[k] != '\t') && pos <= u < |text|
    requires text[pos..u] == url && text[u] == '\t'
    ensures FindChar(text, '\t', pos) == u
  {
    forall k | pos <= k < u
      ensures text[k] != '\t'
    {
      assert text[pos..u][k - pos] == url[k - pos];
    }
    FindCharIs(text, '\t', pos, u);
  }

  /** The newline ending a content with no earlier newline is the first
      one after the tab. */
  lemma FindNewline(text: string, u: nat, c: string, e: nat)
    requires |c| > 0 && c[|c| - 1] == '\n' && forall k :: 0 <= k < |c| - 1 ==> c[k] != '\n'
    requires e == u + 1 + |c| <= |text| && text[u] == '\t' && text[u + 1..e] == c
    ensures FindChar(text, '\n', u) == e - 1
  {
    forall k | u <= k < e - 1
      ensures text[k] != '\n'
    {
      if k > u {
        assert text[u + 1..e][k - u - 1] == c[k - u - 1];
      }
    }
    assert text[u + 1..e][|c| - 1] == c[|c| - 1];
    FindCharIs(text, '\n', u, e - 1);
  }

  lemma ParseLineAt(text: string, pos: nat, tab: nat, nl: nat)
    requires pos < |text| && FindChar(text, '\t', pos) == tab < |text|
    requires FindChar(text, '\n', tab) == nl < |text|
    ensures ParseLine(text, pos) == Some((Line(text[pos..tab], text[tab + 1..nl + 1]), nl + 1))
  {
  }

  // ----- Grouping lines into records ----------------------------------------

  /** Records of a sequence of lines: a maximal run of consecutive lines
      with the same url is one record holding the run's contents in order. */
  function Group(ls: seq<Line>): (rs: seq<Record>)
    ensures |ls| > 0 ==> |rs| > 0 && rs[0].url == ls[0].url
    ensures |rs| <= |ls|
  {
    if |ls| == 0 then []
    else
      var rest := Group(ls[1..]);
      if |ls| > 1 && ls[1].url == ls[0].url then
        [Record(ls[0].url, ls[0].content + rest[0].content)] + rest[1..]
      else
        [Record(ls[0].url, ls[0].content)] + rest
  }

  /** The last record of the groups belongs to the last line. */
  lemma {:induction false} GroupLast(ls: seq<Line>)
    requires |ls| > 0
    ensures Group(ls)[|Group(ls)| - 1].url == ls[|ls| - 1].url
    decreases |ls|
  {
    if |ls| > 1 {
      var t := ls[1..];
      GroupLast(t);
      var rest := Group(t);
      assert rest[|rest| - 1].url == ls[|ls| - 1].url;
      if ls[1].url == ls[0].url {
        var g := [Record(ls[0].url, ls[0].content + rest[0].content)] + rest[1..];
        assert Group(ls) == g;
        assert g[|g| - 1].url == rest[|rest| - 1].url;
      } else {
        var g := [Record(ls[0].url, ls[0].content)] + rest;
        assert Group(ls) == g;
        assert g[|g| - 1] == rest[|rest| - 1];
      }
    }
  }

  /** A line with a new url at the end opens a new record. */
  lemma {:induction false} GroupSnocNew(ls: seq<Line>, l: Line)
    requires |ls| == 0 || ls[|ls| - 1].url != l.url
    ensures Group(ls + [l]) == Group(ls) + [Record(l.url, l.content)]
    decreases |ls|
  {
    var ls' := ls + [l];
    assert [l][1..] == [];
    if |ls| == 1 {
      assert ls'[1..] == [l];
      assert ls[1..] == [];
    } else if |ls| > 1 {
      var a := ls[0];
      var t := ls[1..];
      assert ls' == [a] + (t + [l]) && ls == [a] + t;
      GroupSnocNew(t, l);
      GroupConsUnfold(a, t);
      GroupConsUnfold(a, t + [l]);
    }
  }

  /** A line with the previous line's url at the end extends the last record. */
  lemma {:induction false} GroupSnocSame(ls: seq<Line>, l: Line)
    requires |ls| > 0 && ls[|ls| - 1].url == l.url
    ensures var g := Group(ls);
      Group(ls + [l]) == g[..|g| - 1] + [Record(l.url, g[|g| - 1].content + l.content)]
    decreases |ls|
  {
    var ls' := ls + [l];
    assert [l][1..] == [];
    if |ls| == 1 {
      assert ls'[1..] == [l];
      assert ls[1..] == [];
    } else {
      var a := ls[0];
      var t := ls[1..];
      assert ls' == [a] + (t + [l]) && ls == [a] + t;
      GroupSnocSame(t, l);
      GroupLast(t);
      GroupConsUnfold(a, t);
      GroupConsUnfold(a, t + [l]);
      var gt := Group(t);
      assert (t + [l])[0] == t[0];
      if t[0].url == a.url && |gt| == 1 {
        assert gt[0].url == l.url;
      }
      SnocShape(a, t[0].url == a.url, gt, l);
    }
  }

  /** The shape argument behind `GroupSnocSame`, on the groups of the tail. */
  lemma SnocShape(a: Line, merge: bool, gt: seq<Record>, l: Line)
    requires |gt| > 0 && (merge && |gt| == 1 ==> a.url == l.url)
    ensures var m := |gt|;
      var g := if merge then [Record(a.url, a.content + gt[0].content)] + gt[1..] else [Record(a.url, a.content)] + gt;
      var gt' := gt[..m - 1] + [Record(l.url, gt[m - 1].content + l.content)];
      var g' := if merge then [Record(a.url, a.content + gt'[0].content)] + gt'[1..] else [Record(a.url, a.content)] + gt';
      g' == g[..|g| - 1] + [Record(l.url, g[|g| - 1].content + l.content)]
  {
    var m := |gt|;
    var gt' := gt[..m - 1] + [Record(l.url, gt[m - 1].content + l.content)];
    if merge && m > 1 {
      assert gt'[0] == gt[0];
      assert gt'[1..] == gt[1..m - 1] + [gt'[m - 1]];
    } else if merge {
      assert a.content + gt'[0].content == (a.content + gt[0].content) + l.content;
    }
  }

  lemma GroupConsUnfold(a: Line, t: seq<Line>)
    requires |t| > 0
    ensures var g := Group(t);
      Group([a] + t) ==
        if t[0].url == a.url then [Record(a.url, a.content + g[0].content)] + g[1..]
        else [Record(a.url, a.content)] + g
  {
    assert ([a] + t)[1..] == t;
  }

  // ----- Loading --------------------------------------------------------------

  /** Adds one occurrence of `word` at `pos` of record `rid`: the keyword
      is looked up without regard to case and added first when unknown. */
  function AddOccurrence(idx: Index, word: string, rid: int, pos: nat): (r: Index)
    requires KeywordsIndexed(idx)
    ensures KeywordsIndexed(r) && KeywordId(r, word) != InvalidId
    ensures r.records == idx.records && r.ngramIndex == idx.ngramIndex && r.totalSize == idx.totalSize
    ensures r.numItems == idx.numItems + 1
  {
    var found := KeywordId(idx, word);
    var (idx1, kid) := if found == InvalidId then AddKeyword(idx, word) else (idx, found);
    AddKeywordIndexed(idx, word);
    AddKeywordLookup(idx, word, word);
    AddItem(idx1, kid, rid, pos).0
  }

  /** The keywords of a line's content with their positions in the record,
      where the content starts at `offset`. */
  function Words(content: string, kws: seq<PosSize>, offset: nat): (ws: seq<(string, nat)>)
    requires forall i :: 0 <= i < |kws| ==> kws[i].pos + kws[i].size <= |content|
    ensures |ws| == |kws|
    ensures forall i :: 0 <= i < |kws| ==>
      ws[i] == (content[kws[i].pos..kws[i].pos + kws[i].size], kws[i].pos + offset)
  {
    seq(|kws|, i requires 0 <= i < |kws| => (content[kws[i].pos..kws[i].pos + kws[i].size], kws[i].pos + offset))
  }

  /** Adds each word as an item of record `rid` at its position, in order. */
  function AddOccurrences(idx: Index, ws: seq<(string, nat)>, rid: int): (r: Index)
    requires KeywordsIndexed(idx)
    ensures KeywordsIndexed(r)
    ensures r.records == idx.records && r.ngramIndex == idx.ngramIndex && r.totalSize == idx.totalSize
    ensures r.numItems == idx.numItems + |ws|
    decreases |ws|
  {
    if |ws| == 0 then idx
    else AddOccurrences(AddOccurrence(idx, ws[0].0, rid, ws[0].1), ws[1..], rid)
  }

  /** The occurrence is appended to the word's keyword, under any spelling
      of it, and the items of every other keyword stay as they were. */
  lemma AddOccurrenceItems(idx: Index, word: string, rid: int, pos: nat, other: string)
    requires KeywordsIndexed(idx)
    ensures var r := AddOccurrence(idx, word, rid, pos);
      && (Lower(other) == Lower(word) ==>
            Occurrences(Items(r, other)) == Occurrences(Items(idx, other)) + [(rid, pos)])
      && (Lower(other) != Lower(word) ==> Items(r, other) == Items(idx, other))
  {
    var found := KeywordId(idx, word);
    var (idx1, kid) := if found == InvalidId then AddKeyword(idx, word) else (idx, found);
    AddKeywordIndexed(idx, word);
    AddKeywordLookup(idx, word, other);
    if Lower(other) == Lower(word) {
      KeywordIdIgnoresCase(idx, word, other);
      KeywordIdIgnoresCase(idx1, word, other);
    }
    AddItemOccurrences(idx1, kid, rid, pos);
    if Lower(other) != Lower(word) {
      var oid := KeywordId(idx, other);
      if oid != InvalidId {
        assert idx.keywords[oid].name == Lower(other);
        assert oid != kid;
      }
    } else if found == InvalidId {
      assert Occurrences([]) == [];
    }
  }

  /** An occurrence that does hold the word, in the last record, keeps the
      index valid. */
  lemma AddOccurrenceValid(idx: Index, word: string, rid: int, pos: nat)
    requires Valid(idx) && AtLastRecord(idx, rid)
    requires OccursAt(idx.records, Lower(word), rid, pos)
    ensures Valid(AddOccurrence(idx, word, rid, pos))
  {
    var found := KeywordId(idx, word);
    var (idx1, kid) := if found == InvalidId then AddKeyword(idx, word) else (idx, found);
    if found == InvalidId {
      AddKeywordValid(idx, word);
    }
    if |idx1.keywords[kid].items| > 0 {
      LastItemBelow(idx1, kid);
    }
    AddItemValid(idx1, kid, rid, pos);
  }

  lemma AddKeywordIndexed(idx: Index, word: string)
    requires KeywordsIndexed(idx)
    ensures KeywordsIndexed(AddKeyword(idx, word).0)
  {
    LowerIsLowerWord(word);
  }

  /** A record-changing step of the loop: a new url opens a record (and
      must not be empty, as asserted), the url of the previous line extends
      record `rid`. Returns the index, the current record id, and where the
      line's content starts in it. */
  function StartOrExtend(idx: Index, line: Line, prevUrl: string, rid: int): (r: Option<(Index, int, nat)>)
    ensures r.Some? ==> KeywordsIndexed(idx) ==> KeywordsIndexed(r.value.0)
    ensures r.Some? ==> r.value.0.keywords == idx.keywords && r.value.0.numItems == idx.numItems
    ensures r.Some? ==> r.value.0.keywordIndex == idx.keywordIndex
    ensures r.Some? ==> 0 <= r.value.1 < |r.value.0.records|
    ensures r.Some? ==> var (idx', rid', offset) := r.value;
      offset + |line.content| == |idx'.records[rid'].content|
      && idx'.records[rid'].content[offset..] == line.content
  {
    if line.url != prevUrl then
      if |line.url| == 0 then None
      else
        var (idx', rid') := AddRecord(idx, line.url, line.content);
        Some((idx', rid', 0))
    else
      match ExtendRecord(idx, rid, line.content)
      case None => None
      case Some((idx', offset)) => Some((idx', rid, offset))
  }

  /** One iteration of the loading loop: the record step, then the line's
      keywords as items. Returns the index and the current record id. */
  function LoadLine(idx: Index, line: Line, prevUrl: string, rid: int): (r: Option<(Index, int)>)
    requires KeywordsIndexed(idx) && WellFormedLine(line)
    ensures r.Some? <==> StartOrExtend(idx, line, prevUrl, rid).Some?
    ensures r.Some? ==> var s := StartOrExtend(idx, line, prevUrl, rid).value;
      && KeywordsIndexed(r.value.0)
      && r.value.0.records == s.0.records && r.value.1 == s.1
      && r.value.0.numItems == idx.numItems + |ExtractKeywords(line.content, 0, |line.content|)|
  {
    match StartOrExtend(idx, line, prevUrl, rid)
    case None => None
    case Some((idx1, rid1, offset)) =>
      var kws := ExtractKeywords(line.content, 0, |line.content|);
      Some((AddOccurrences(idx1, Words(line.content, kws, offset), rid1), rid1))
  }

  /** The loading loop from `pos` on, after the line with url `prevUrl` was
      loaded into record `rid`. */
  function LoadFrom(idx: Index, text: string, pos: nat, prevUrl: string, rid: int): (r: Option<Index>)
    requires pos <= |text| && KeywordsIndexed(idx)
    ensures r.Some? ==> KeywordsIndexed(r.value)
    decreases |text| - pos
  {
    if pos == |text| then Some(idx)
    else
      match ParseLine(text, pos)
      case None => None
      case Some((line, next)) =>
        match LoadLine(idx, line, prevUrl, rid)
        case None => None
        case Some((idx', rid')) => LoadFrom(idx', text, next, line.url, rid')
  }

  /** `AddRecordsFromCsv`: an empty url on a new record fails an assertion. */
  function AddRecordsFromCsv(idx: Index, text: string): (r: Option<Index>)
    requires KeywordsIndexed(idx)
    ensures r.Some? ==> KeywordsIndexed(r.value)
  {
    LoadFrom(idx, text, 0, "", InvalidId)
  }

  /** Number of keywords the lines contain (a parsed line's content is
      never empty). */
  function KeywordCount(ls: seq<Line>): nat {
    if |ls| == 0 then 0
    else
      var l := ls[0];
      (if |l.content| == 0 then 0 else |ExtractKeywords(l.content, 0, |l.content|)|) + KeywordCount(ls[1..])
  }

  predicate UrlsNonEmpty(ls: seq<Line>) {
    forall i :: 0 <= i < |ls| ==> |ls[i].url| > 0
  }

  /** The loop state after loading the lines `done` into an index that
      held `base` records: the records are `base` plus the groups, the
      previous url is the last line's, and the current record is the last. */
  ghost predicate LoopState(base: seq<Record>, records: seq<Record>, done: seq<Line>, prevUrl: string, rid: int) {
    && records == base + Group(done)
    && (|done| == 0 ==> prevUrl == "" && rid == InvalidId)
    && (|done| > 0 ==> prevUrl == done[|done| - 1].url && rid == |records| - 1)
  }

  /** The loop loads each run of same-url lines as one record after the
      existing ones, adds one item occurrence per keyword, and fails exactly
      when a line is malformed or has an empty url. */
  lemma {:induction false} LoadFromCorrect(base: seq<Record>, idx: Index, text: string, pos: nat, done: seq<Line>, prevUrl: string, rid: int)
    requires pos <= |text| && KeywordsIndexed(idx)
    requires LoopState(base, idx.records, done, prevUrl, rid) && UrlsNonEmpty(done)
    ensures var r := LoadFrom(idx, text, pos, prevUrl, rid);
      r.Some? <==> Lines(text, pos).Some? && UrlsNonEmpty(Lines(text, pos).value)
    ensures var r := LoadFrom(idx, text, pos, prevUrl, rid);
      r.Some? ==>
        var ls := Lines(text, pos).value;
        && r.value.records == base + Group(done + ls)
        && r.value.numItems == idx.numItems + KeywordCount(ls)
    decreases |text| - pos
  {
    if pos == |text| {
      assert done + [] == done;
    } else if ParseLine(text, pos).Some? {
      var (line, next) := ParseLine(text, pos).value;
      ParseLineWellFormed(text, pos);
      if |line.url| > 0 {
        StepRecords(base, idx, done, prevUrl, rid, line);
        var (idx', rid') := LoadLine(idx, line, prevUrl, rid).value;
        LoadFromUnfold(idx, text, pos, prevUrl, rid);
        LoadFromCorrect(base, idx', text, next, done + [line], line.url, rid');
        LoadFromStep(text, pos, done, line, next);
      } else {
        StepFails(base, idx, done, prevUrl, rid, line);
        if Lines(text, pos).Some? {
          LinesHead(text, pos);
        }
      }
    }
  }

  lemma LoadFromUnfold(idx: Index, text: string, pos: nat, prevUrl: string, rid: int)
    requires pos < |text| && KeywordsIndexed(idx) && ParseLine(text, pos).Some?
    requires var line := ParseLine(text, pos).value.0;
      LoadLine(idx, line, prevUrl, rid).Some?
    ensures var (line, next) := ParseLine(text, pos).value;
      var (idx', rid') := LoadLine(idx, line, prevUrl, rid).value;
      LoadFrom(idx, text, pos, prevUrl, rid) == LoadFrom(idx', text, next, line.url, rid')
  {
  }

  /** How the line sequences from `pos` and from the next line relate. */
  lemma LoadFromStep(text: string, pos: nat, done: seq<Line>, line: Line, next: nat)
    requires pos < |text| && ParseLine(text, pos) == Some((line, next)) && WellFormedLine(line)
    ensures Lines(text, pos).Some? <==> Lines(text, next).Some?
    ensures Lines(text, pos).Some? ==>
      var ls := Lines(text, next).value;
      && Lines(text, pos).value == [line] + ls
      && done + [line] + ls == done + ([line] + ls)
      && (UrlsNonEmpty([line] + ls) <==> |line.url| > 0 && UrlsNonEmpty(ls))
      && KeywordCount([line] + ls) == |ExtractKeywords(line.content, 0, |line.content|)| + KeywordCount(ls)
  {
    if Lines(text, pos).Some? {
      LinesStep(text, pos);
      ConsFacts(done, line, Lines(text, next).value);
    }
  }

  lemma ConsFacts(done: seq<Line>, line: Line, ls: seq<Line>)
    requires WellFormedLine(line)
    ensures done + [line] + ls == done + ([line] + ls)
    ensures UrlsNonEmpty([line] + ls) <==> |line.url| > 0 && UrlsNonEmpty(ls)
    ensures KeywordCount([line] + ls) == |ExtractKeywords(line.content, 0, |line.content|)| + KeywordCount(ls)
  {
    assert ([line] + ls)[1..] == ls;
    assert ([line] + ls)[0] == line;
    assert forall i :: 0 < i < |ls| + 1 ==> ([line] + ls)[i] == ls[i - 1];
  }

  lemma LinesHead(text: string, pos: nat)
    requires pos < |text| && ParseLine(text, pos).Some? && Lines(text, pos).Some?
    ensures |Lines(text, pos).value| > 0 && Lines(text, pos).value[0] == ParseLine(text, pos).value.0
  {
  }

  /** Without an empty url the record step succeeds and extends the groups by the line. */
  lemma StepRecords(base: seq<Record>, idx: Index, done: seq<Line>, prevUrl: string, rid: int, line: Line)
    requires KeywordsIndexed(idx) && WellFormedLine(line)
    requires LoopState(base, idx.records, done, prevUrl, rid) && UrlsNonEmpty(done) && |line.url| > 0
    ensures var s := LoadLine(idx, line, prevUrl, rid);
      s.Some? && LoopState(base, s.value.0.records, done + [line], line.url, s.value.1)
      && UrlsNonEmpty(done + [line])
  {
    if line.url != prevUrl {
      StepNewRecord(base, idx, done, prevUrl, rid, line);
    } else {
      StepSameRecord(base, idx, done, prevUrl, rid, line);
    }
    UrlsSnoc(done, line);
  }

  lemma UrlsSnoc(done: seq<Line>, line: Line)
    requires UrlsNonEmpty(done) && |line.url| > 0
    ensures UrlsNonEmpty(done + [line])
  {
    assert forall i :: 0 <= i < |done| ==> (done + [line])[i] == done[i];
  }

  lemma StepNewRecord(base: seq<Record>, idx: Index, done: seq<Line>, prevUrl: string, rid: int, line: Line)
    requires LoopState(base, idx.records, done, prevUrl, rid) && |line.url| > 0 && line.url != prevUrl
    ensures var s := StartOrExtend(idx, line, prevUrl, rid);
      s.Some? && s.value.0.records == base + Group(done + [line]) && s.value.1 == |s.value.0.records| - 1
  {
    GroupsNewRecord(base, idx.records, done, prevUrl, rid, line);
  }

  /** On the records alone: a line whose url differs from the previous
      line's appends a record holding its content, which becomes the current
      record. */
  lemma GroupsNewRecord(base: seq<Record>, records: seq<Record>, done: seq<Line>, prevUrl: string, rid: int, line: Line)
    requires LoopState(base, records, done, prevUrl, rid) && line.url != prevUrl
    ensures LoopState(base, records + [Record(line.url, line.content)], done + [line], line.url, |records|)
  {
    var g := Group(done);
    GroupSnocNew(done, line);
    RecordsAssoc(base, g, [Record(line.url, line.content)]);
    assert (done + [line])[|done|] == line;
  }

  /** On the records alone: a line with the previous line's url, after at
      least one line, appends its content to the current record, which is
      the last one. */
  lemma GroupsSameRecord(base: seq<Record>, records: seq<Record>, done: seq<Line>, prevUrl: string, rid: int, line: Line)
    requires LoopState(base, records, done, prevUrl, rid) && line.url == prevUrl && |done| > 0
    ensures 0 <= rid < |records|
    ensures LoopState(base, records[rid := records[rid].(content := records[rid].content + line.content)],
                      done + [line], line.url, rid)
  {
    var g := Group(done);
    GroupSnocSame(done, line);
    var n := |g|;
    GroupLast(done);
    var ext := Record(line.url, g[n - 1].content + line.content);
    assert records[rid] == g[n - 1];
    assert records[rid := records[rid].(content := records[rid].content + line.content)] == (base + g)[rid := ext];
    assert (base + g)[rid := ext] == base + (g[..n - 1] + [ext]);
    RecordsAssoc(base, g[..n - 1], [ext]);
    assert (done + [line])[|done|] == line;
  }

  lemma RecordsAssoc(a: seq<Record>, b: seq<Record>, c: seq<Record>)
    ensures (a + b) + c == a + (b + c)
  {
  }

  lemma StepSameRecord(base: seq<Record>, idx: Index, done: seq<Line>, prevUrl: string, rid: int, line: Line)
    requires LoopState(base, idx.records, done, prevUrl, rid) && |line.url| > 0 && line.url == prevUrl
    ensures var s := StartOrExtend(idx, line, prevUrl, rid);
      s.Some? && s.value.0.records == base + Group(done + [line]) && s.value.1 == rid == |s.value.0.records| - 1
  {
    GroupsSameRecord(base, idx.records, done, prevUrl, rid, line);
  }

  /** With an empty url the record step fails. */
  lemma StepFails(base: seq<Record>, idx: Index, done: seq<Line>, prevUrl: string, rid: int, line: Line)
    requires KeywordsIndexed(idx) && WellFormedLine(line)
    requires LoopState(base, idx.records, done, prevUrl, rid) && UrlsNonEmpty(done) && |line.url| == 0
    ensures LoadLine(idx, line, prevUrl, rid).None?
  {
  }

  // ----- The index invariant through loading -----------------------------------

  /** The current record is the last one, so every item already stored is
      for a record at or below it. */
  ghost predicate AtLastRecord(idx: Index, rid: int) {
    rid == |idx.records| - 1
  }

  /** Items of a valid index name existing records. */
  lemma LastItemBelow(idx: Index, kid: nat)
    requires Valid(idx) && kid < |idx.keywords| && |idx.keywords[kid].items| > 0
    ensures var items := idx.keywords[kid].items;
      items[|items| - 1].recordId < |idx.records|
  {
    var items := idx.keywords[kid].items;
    assert ItemsWellFormed(items, |idx.keywords[kid].name|);
    assert |items[|items| - 1].positions| > 0;
    assert ItemsPointAtKeyword(idx.records, idx.keywords[kid]);
    assert OccursAt(idx.records, idx.keywords[kid].name, items[|items| - 1].recordId, items[|items| - 1].positions[0]);
  }

  /** The line content `content` is the end of record `rid`, from `offset` on. */
  ghost predicate EndsRecord(records: seq<Record>, rid: int, offset: nat, content: string) {
    0 <= rid < |records| && offset + |content| == |records[rid].content|
    && records[rid].content[offset..] == content
  }

  /** A keyword span of a line's content, shifted by where the content
      starts in its record, is an occurrence of the lower-cased span. */
  lemma SpanOccurs(records: seq<Record>, rid: int, offset: nat, content: string, p: nat, sz: nat)
    requires EndsRecord(records, rid, offset, content) && p + sz <= |content|
    ensures OccursAt(records, Lower(content[p..p + sz]), rid, p + offset)
  {
    var c := records[rid].content;
    var w := Lower(content[p..p + sz]);
    forall k | 0 <= k < sz
      ensures ToLower(c[p + offset + k]) == w[k]
    {
      assert c[offset..][p + k] == content[p + k];
    }
  }

  /** Adding occurrences that do hold their words, in the last record,
      keeps the index valid. */
  lemma {:induction false} AddOccurrencesValid(idx: Index, ws: seq<(string, nat)>, rid: int)
    requires Valid(idx) && AtLastRecord(idx, rid)
    requires forall i :: 0 <= i < |ws| ==> OccursAt(idx.records, Lower(ws[i].0), rid, ws[i].1)
    ensures Valid(AddOccurrences(idx, ws, rid))
    decreases |ws|
  {
    if |ws| > 0 {
      var idx' := AddOccurrence(idx, ws[0].0, rid, ws[0].1);
      WordsOccurSplit(idx.records, ws, rid);
      AddOccurrenceValid(idx, ws[0].0, rid, ws[0].1);
      AddOccurrencesValid(idx', ws[1..], rid);
      AddOccurrencesStep(idx, ws, rid);
    }
  }

  lemma WordsOccurSplit(records: seq<Record>, ws: seq<(string, nat)>, rid: int)
    requires |ws| > 0 && forall i :: 0 <= i < |ws| ==> OccursAt(records, Lower(ws[i].0), rid, ws[i].1)
    ensures OccursAt(records, Lower(ws[0].0), rid, ws[0].1)
    ensures forall i :: 0 <= i < |ws[1..]| ==> OccursAt(records, Lower(ws[1..][i].0), rid, ws[1..][i].1)
  {
    assert forall i :: 0 <= i < |ws| - 1 ==> ws[1..][i] == ws[i + 1];
  }

  lemma AddOccurrencesStep(idx: Index, ws: seq<(string, nat)>, rid: int)
    requires KeywordsIndexed(idx) && |ws| > 0
    ensures AddOccurrences(idx, ws, rid) == AddOccurrences(AddOccurrence(idx, ws[0].0, rid, ws[0].1), ws[1..], rid)
  {
  }

  /** Every keyword of a line occurs at its position in its record. */
  lemma WordsOccur(records: seq<Record>, rid: int, offset: nat, content: string, kws: seq<PosSize>)
    requires EndsRecord(records, rid, offset, content)
    requires forall i :: 0 <= i < |kws| ==> kws[i].pos + kws[i].size <= |content|
    ensures var ws := Words(content, kws, offset);
      forall i :: 0 <= i < |ws| ==> OccursAt(records, Lower(ws[i].0), rid, ws[i].1)
  {
    forall i | 0 <= i < |kws|
      ensures OccursAt(records, Lower(content[kws[i].pos..kws[i].pos + kws[i].size]), rid, kws[i].pos + offset)
    {
      SpanOccurs(records, rid, offset, content, kws[i].pos, kws[i].size);
    }
  }

  /** One line keeps the index valid and the current record the last one. */
  lemma LoadLineValid(idx: Index, line: Line, prevUrl: string, rid: int)
    requires Valid(idx) && WellFormedLine(line) && (rid == InvalidId || AtLastRecord(idx, rid))
    requires LoadLine(idx, line, prevUrl, rid).Some?
    ensures var (idx', rid') := LoadLine(idx, line, prevUrl, rid).value;
      Valid(idx') && AtLastRecord(idx', rid')
  {
    var (idx1, rid1, offset) := StartOrExtend(idx, line, prevUrl, rid).value;
    if line.url != prevUrl {
      AddRecordValid(idx, line.url, line.content);
    } else {
      ExtendRecordValid(idx, rid, line.content);
    }
    var kws := ExtractKeywords(line.content, 0, |line.content|);
    WordsOccur(idx1.records, rid1, offset, line.content, kws);
    AddOccurrencesValid(idx1, Words(line.content, kws, offset), rid1);
  }

  /** The loading loop keeps the index valid. */
  lemma {:induction false} LoadFromValid(idx: Index, text: string, pos: nat, prevUrl: string, rid: int)
    requires pos <= |text| && Valid(idx) && (rid == InvalidId || AtLastRecord(idx, rid))
    ensures var r := LoadFrom(idx, text, pos, prevUrl, rid);
      r.Some? ==> Valid(r.value)
    decreases |text| - pos
  {
    if pos < |text| && ParseLine(text, pos).Some? {
      var (line, next) := ParseLine(text, pos).value;
      if LoadLine(idx, line, prevUrl, rid).Some? {
        LoadLineValid(idx, line, prevUrl, rid);
        var (idx', rid') := LoadLine(idx, line, prevUrl, rid).value;
        LoadFromValid(idx', text, next, line.url, rid');
        LoadFromUnfold(idx, text, pos, prevUrl, rid);
      }
    }
  }

  /** Loading a file into a valid index: it succeeds exactly when every line
      is well formed with a non-empty url, appends one record per run of
      same-url lines, counts one item per keyword, and keeps the index valid. */
  lemma AddRecordsFromCsvCorrect(idx: Index, text: string)
    requires Valid(idx)
    ensures var r := AddRecordsFromCsv(idx, text);
      && (r.Some? <==> Lines(text, 0).Some? && UrlsNonEmpty(Lines(text, 0).value))
      && (r.Some? ==>
            && r.value.records == idx.records + Group(Lines(text, 0).value)
            && r.value.numItems == idx.numItems + KeywordCount(Lines(text, 0).value)
            && Valid(r.value))
  {
    LoadFromCorrect(idx.records, idx, text, 0, [], "", InvalidId);
    LoadFromValid(idx, text, 0, "", InvalidId);
    if Lines(text, 0).Some? {
      assert [] + Lines(text, 0).value == Lines(text, 0).value;
    }
  }

  // ----- Where the keywords land ----------------------------------------------

  /** The keyword spans of a line's content; none for empty content. */
  function Keywords(content: string): (kws: seq<PosSize>)
    ensures forall i :: 0 <= i < |kws| ==> 0 < kws[i].size && kws[i].pos + kws[i].size <= |content|
    ensures Separated(kws)
  {
    if |content| == 0 then [] else ExtractKeywords(content, 0, |content|)
  }

  /** The occurrences, as `(record id, position)`, of the words of `ws`
      that are `w` up to case, all in record `rid`, in order. */
  function Matching(ws: seq<(string, nat)>, rid: int, w: string): seq<(int, nat)> {
    if |ws| == 0 then []
    else (if Lower(ws[0].0) == Lower(w) then [(rid, ws[0].1)] else []) + Matching(ws[1..], rid, w)
  }

  /** Appending one line to the lines: a new url opens a record holding
      the line's content, the previous url extends the last record by it. */
  lemma GroupSnoc(init: seq<Line>, l: Line)
    ensures var g := Group(init + [l]);
      var gi := Group(init);
      && |g| > 0
      && (|init| > 0 && init[|init| - 1].url == l.url ==>
            |g| == |gi| && g[|g| - 1].content == gi[|gi| - 1].content + l.content)
      && (|init| == 0 || init[|init| - 1].url != l.url ==>
            |g| == |gi| + 1 && g[|g| - 1].content == l.content)
  {
    if |init| > 0 && init[|init| - 1].url == l.url {
      GroupSnocSame(init, l);
    } else {
      GroupSnocNew(init, l);
    }
  }

  /** The last record of the lines ends with the last line's content. */
  lemma GroupEndsWithLast(ls: seq<Line>)
    requires |ls| > 0
    ensures |Group(ls)| > 0 && |ls[|ls| - 1].content| <= |Group(ls)[|Group(ls)| - 1].content|
  {
    var n := |ls| - 1;
    assert ls == ls[..n] + [ls[n]];
    GroupSnoc(ls[..n], ls[n]);
  }

  /** Where the last of the lines `ls` lands when `nbase` records precede
      them: the id of its record, and where its content starts there. */
  function LastSpot(nbase: nat, ls: seq<Line>): (int, nat)
    requires |ls| > 0
  {
    GroupEndsWithLast(ls);
    var g := Group(ls);
    (nbase + |g| - 1, |g[|g| - 1].content| - |ls[|ls| - 1].content|)
  }

  /** The occurrences of `w`, up to case, that loading the lines `ls` after
      `nbase` records must record, in order: line by line, every keyword
      span of the line spelled like `w`, in the record of the line's run of
      same-url lines, at the span's position plus the line's offset in that
      record. */
  function LineOccurrences(nbase: nat, ls: seq<Line>, w: string): seq<(int, nat)> {
    if |ls| == 0 then []
    else
      var n := |ls| - 1;
      var spot := LastSpot(nbase, ls);
      LineOccurrences(nbase, ls[..n], w) + Matching(Words(ls[n].content, Keywords(ls[n].content), spot.1), spot.0, w)
  }

  /** One more line appends the occurrences of that line. */
  lemma LineOccurrencesSnoc(nbase: nat, done: seq<Line>, l: Line, w: string)
    ensures var spot := LastSpot(nbase, done + [l]);
      LineOccurrences(nbase, done + [l], w)
        == LineOccurrences(nbase, done, w) + Matching(Words(l.content, Keywords(l.content), spot.1), spot.0, w)
  {
    assert (done + [l])[..|done|] == done;
  }

  /** Adding words appends exactly the occurrences of the words that are
      `w` up to case to the items of `w`. */
  lemma {:induction false} AddOccurrencesItems(idx: Index, ws: seq<(string, nat)>, rid: int, w: string)
    requires KeywordsIndexed(idx)
    ensures Occurrences(Items(AddOccurrences(idx, ws, rid), w)) == Occurrences(Items(idx, w)) + Matching(ws, rid, w)
    decreases |ws|
  {
    if |ws| > 0 {
      var idx1 := AddOccurrence(idx, ws[0].0, rid, ws[0].1);
      AddOccurrenceItems(idx, ws[0].0, rid, ws[0].1, w);
      AddOccurrencesItems(idx1, ws[1..], rid, w);
      AddOccurrencesStep(idx, ws, rid);
      var h := if Lower(ws[0].0) == Lower(w) then [(rid, ws[0].1)] else [];
      if Lower(ws[0].0) != Lower(w) {
        assert Occurrences(Items(idx1, w)) == Occurrences(Items(idx, w)) + h;
      }
      OccAssoc(Occurrences(Items(idx, w)), h, Matching(ws[1..], rid, w));
    }
  }

  lemma OccAssoc(a: seq<(int, nat)>, b: seq<(int, nat)>, c: seq<(int, nat)>)
    ensures (a + b) + c == a + (b + c)
  {
  }

  /** One line, loaded in the loop state after the lines `done`, appends
      the line's occurrences to the items of every keyword. */
  lemma LoadLineItems(base: seq<Record>, occ0: seq<(int, nat)>, idx: Index, done: seq<Line>, prevUrl: string, rid: int,
                      line: Line, w: string)
    requires KeywordsIndexed(idx) && WellFormedLine(line)
    requires LoopState(base, idx.records, done, prevUrl, rid) && UrlsNonEmpty(done) && |line.url| > 0
    requires Occurrences(Items(idx, w)) == occ0 + LineOccurrences(|base|, done, w)
    ensures var s := LoadLine(idx, line, prevUrl, rid);
      && s.Some? && KeywordsIndexed(s.value.0)
      && LoopState(base, s.value.0.records, done + [line], line.url, s.value.1)
      && UrlsNonEmpty(done + [line])
      && Occurrences(Items(s.value.0, w)) == occ0 + LineOccurrences(|base|, done + [line], w)
  {
    StepRecords(base, idx, done, prevUrl, rid, line);
    var (idx1, rid1, offset) := StartOrExtend(idx, line, prevUrl, rid).value;
    SpotOfStep(base, idx1.records, done, line, rid1, offset);
    SameKeywordsSameItems(idx, idx1, w);
    var m := Matching(Words(line.content, Keywords(line.content), offset), rid1, w);
    AddOccurrencesItems(idx1, Words(line.content, Keywords(line.content), offset), rid1, w);
    LineOccurrencesSnoc(|base|, done, line, w);
    OccAssoc(occ0, LineOccurrences(|base|, done, w), m);
  }

  /** The record and offset the record step reports are the line's spot. */
  lemma SpotOfStep(base: seq<Record>, records: seq<Record>, done: seq<Line>, line: Line, rid: int, offset: nat)
    requires LoopState(base, records, done + [line], line.url, rid)
    requires 0 <= rid < |records| && offset + |line.content| == |records[rid].content|
    ensures (rid, offset) == LastSpot(|base|, done + [line])
  {
    var g := Group(done + [line]);
    GroupEndsWithLast(done + [line]);
    assert records[rid] == g[|g| - 1];
  }

  /** Lookup depends on the keywords and the keyword map alone. */
  lemma SameKeywordsSameItems(idx: Index, idx': Index, w: string)
    requires KeywordsIndexed(idx) && KeywordsIndexed(idx')
    requires idx'.keywords == idx.keywords && idx'.keywordIndex == idx.keywordIndex
    ensures Items(idx', w) == Items(idx, w)
  {
  }

  /** The loading loop appends, to the items of every keyword `w`, exactly
      the occurrences of `w` in the lines it loads. */
  lemma {:induction false} LoadFromItems(base: seq<Record>, occ0: seq<(int, nat)>, idx: Index, text: string, pos: nat,
                                         done: seq<Line>, prevUrl: string, rid: int, w: string)
    requires pos <= |text| && KeywordsIndexed(idx)
    requires LoopState(base, idx.records, done, prevUrl, rid) && UrlsNonEmpty(done)
    requires Occurrences(Items(idx, w)) == occ0 + LineOccurrences(|base|, done, w)
    ensures var r := LoadFrom(idx, text, pos, prevUrl, rid);
      r.Some? ==>
        && Lines(text, pos).Some?
        && Occurrences(Items(r.value, w))
             == occ0 + LineOccurrences(|base|, done + Lines(text, pos).value, w)
    decreases |text| - pos
  {
    if pos == |text| {
      assert done + [] == done;
    } else if ParseLine(text, pos).Some? {
      var p := ParseLine(text, pos).value;
      ParseLineWellFormed(text, pos);
      if |p.0.url| > 0 {
        LoadLineItems(base, occ0, idx, done, prevUrl, rid, p.0, w);
        var s := LoadLine(idx, p.0, prevUrl, rid).value;
        LoadFromUnfold(idx, text, pos, prevUrl, rid);
        LoadFromItems(base, occ0, s.0, text, p.1, done + [p.0], p.0.url, s.1, w);
        var r := LoadFrom(s.0, text, p.1, p.0.url, s.1);
        if r.Some? {
          RestOfLines(|base|, occ0, Occurrences(Items(r.value, w)), text, pos, done, p.0, p.1, w);
        }
      } else {
        EmptyUrlFails(base, idx, text, pos, done, prevUrl, rid);
      }
    }
  }

  /** The occurrences of the lines after `line`, following those of `done`
      and `line`, are those of the lines from `line` on after `done`. */
  lemma RestOfLines(nbase: nat, occ0: seq<(int, nat)>, occ: seq<(int, nat)>, text: string, pos: nat,
                    done: seq<Line>, line: Line, next: nat, w: string)
    requires pos < |text| && ParseLine(text, pos) == Some((line, next)) && WellFormedLine(line)
    requires Lines(text, next).Some?
    requires occ == occ0 + LineOccurrences(nbase, done + [line] + Lines(text, next).value, w)
    ensures Lines(text, pos).Some?
    ensures occ == occ0 + LineOccurrences(nbase, done + Lines(text, pos).value, w)
  {
    LoadFromStep(text, pos, done, line, next);
  }

  /** A line with an empty url makes the loop fail. */
  lemma EmptyUrlFails(base: seq<Record>, idx: Index, text: string, pos: nat, done: seq<Line>, prevUrl: string, rid: int)
    requires pos < |text| && KeywordsIndexed(idx) && ParseLine(text, pos).Some?
    requires LoopState(base, idx.records, done, prevUrl, rid) && UrlsNonEmpty(done)
    requires |ParseLine(text, pos).value.0.url| == 0
    ensures LoadFrom(idx, text, pos, prevUrl, rid).None?
  {
    ParseLineWellFormed(text, pos);
    StepFails(base, idx, done, prevUrl, rid, ParseLine(text, pos).value.0);
  }

  /** Loading a file appends, to the items of every keyword `w`, exactly
      the occurrences of `w` in the file's lines, in order: each in the
      record of its run of same-url lines, at its position in that record. */
  lemma AddRecordsFromCsvItems(idx: Index, text: string, w: string)
    requires KeywordsIndexed(idx)
    ensures var r := AddRecordsFromCsv(idx, text);
      r.Some? ==>
        && Lines(text, 0).Some?
        && Occurrences(Items(r.value, w))
             == Occurrences(Items(idx, w)) + LineOccurrences(|idx.records|, Lines(text, 0).value, w)
  {
    var occ := Occurrences(Items(idx, w));
    assert LineOccurrences(|idx.records|, [], w) == [];
    assert occ + [] == occ;
    LoadFromItems(idx.records, occ, idx, text, 0, [], "", InvalidId, w);
    if LoadFrom(idx, text, 0, "", InvalidId).Some? {
      var ls := Lines(text, 0).value;
      assert [] + ls == ls;
    }
  }

  /** The words of a line, shifted by `offset`, lie at strictly ascending
      positions within the line's extent in its record. */
  lemma WordsAscend(content: string, offset: nat)
    ensures var ws := Words(content, Keywords(content), offset);
      && (forall i :: 0 <= i < |ws| ==> offset <= ws[i].1 < offset + |content|)
      && (forall i, j :: 0 <= i < j < |ws| ==> ws[i].1 < ws[j].1)
  {
  }

  /** Words at strictly ascending positions between `lo` and `hi` give
      ascending occurrences, all in record `rid` and in that range. */
  lemma {:induction false} MatchingOrdered(ws: seq<(string, nat)>, rid: int, w: string, lo: int, hi: int)
    requires forall i :: 0 <= i < |ws| ==> lo <= ws[i].1 < hi
    requires forall i, j :: 0 <= i < j < |ws| ==> ws[i].1 < ws[j].1
    ensures Ascending(Matching(ws, rid, w))
    ensures forall p :: p in Matching(ws, rid, w) ==> p.0 == rid && lo <= p.1 < hi
    decreases |ws|
  {
    if |ws| > 0 {
      var t := ws[1..];
      assert forall i :: 0 <= i < |t| ==> t[i] == ws[i + 1];
      MatchingOrdered(t, rid, w, ws[0].1 + 1, hi);
      var h := if Lower(ws[0].0) == Lower(w) then [(rid, ws[0].1)] else [];
      AscendingJoin(h, Matching(t, rid, w));
    }
  }

  /** All occurrences of the lines before `l` come before where `l`'s
      content starts in its record, and that record is not below `nbase`. */
  lemma LinesBeforeLast(nbase: nat, init: seq<Line>, l: Line, w: string)
    requires |init| > 0 ==> forall p :: p in LineOccurrences(nbase, init, w) ==>
      Before(p, (LastSpot(nbase, init).0, LastSpot(nbase, init).1 + |init[|init| - 1].content|))
    ensures var spot := LastSpot(nbase, init + [l]);
      && nbase <= spot.0
      && forall p :: p in LineOccurrences(nbase, init, w) ==> Before(p, spot)
  {
    GroupSnoc(init, l);
    var spot := LastSpot(nbase, init + [l]);
    if |init| > 0 {
      GroupEndsWithLast(init);
      var prev := LastSpot(nbase, init);
      var end := (prev.0, prev.1 + |init[|init| - 1].content|);
      assert end.0 < spot.0 || (end.0 == spot.0 && end.1 <= spot.1);
      BeforeWeaken(LineOccurrences(nbase, init, w), end, spot);
    }
  }

  /** Whatever comes before `a` comes before anything not before `a`. */
  lemma BeforeWeaken(ps: seq<(int, nat)>, a: (int, nat), b: (int, nat))
    requires forall p :: p in ps ==> Before(p, a)
    requires a.0 < b.0 || (a.0 == b.0 && a.1 <= b.1)
    ensures forall p :: p in ps ==> Before(p, b)
  {
  }

  /** The occurrences the lines must leave ascend, none lies in a record
      below `nbase`, and all lie before the end of the last line. */
  lemma {:induction false} LineOccurrencesOrdered(nbase: nat, ls: seq<Line>, w: string)
    ensures Ascending(LineOccurrences(nbase, ls, w))
    ensures |ls| > 0 ==> forall p :: p in LineOccurrences(nbase, ls, w) ==>
      nbase <= p.0 && Before(p, (LastSpot(nbase, ls).0, LastSpot(nbase, ls).1 + |ls[|ls| - 1].content|))
    decreases |ls|
  {
    if |ls| > 0 {
      var n := |ls| - 1;
      var init := ls[..n];
      var l := ls[n];
      assert ls == init + [l];
      var spot := LastSpot(nbase, ls);
      var ws := Words(l.content, Keywords(l.content), spot.1);
      WordsAscend(l.content, spot.1);
      MatchingOrdered(ws, spot.0, w, spot.1, spot.1 + |l.content|);
      LineOccurrencesOrdered(nbase, init, w);
      LinesBeforeLast(nbase, init, l, w);
      AscendingJoin(LineOccurrences(nbase, init, w), Matching(ws, spot.0, w));
    }
  }

  /** The occurrences of a valid index lie in its records. */
  lemma ItemsInRecords(idx: Index, w: string)
    requires Valid(idx)
    ensures forall p :: p in Occurrences(Items(idx, w)) ==> p.0 < |idx.records|
  {
    var items := Items(idx, w);
    if KeywordId(idx, w) != InvalidId {
      var k := idx.keywords[KeywordId(idx, w)];
      assert ItemsWellFormed(k.items, |k.name|) && ItemsPointAtKeyword(idx.records, k);
      forall i | 0 <= i < |items|
        ensures items[i].recordId < |idx.records|
      {
        assert OccursAt(idx.records, k.name, items[i].recordId, items[i].positions[0]);
      }
    }
    OccurrencesBelow(items, |idx.records|);
  }

  /** Loading keeps the occurrences of every keyword in ascending order, so
      the positions within each of its items ascend strictly: the keywords
      of a line in text order, and a later line of the same record after
      the earlier ones. */
  lemma AddRecordsFromCsvAscending(idx: Index, text: string, w: string)
    requires Valid(idx) && Ascending(Occurrences(Items(idx, w)))
    ensures var r := AddRecordsFromCsv(idx, text);
      r.Some? ==>
        var items := Items(r.value, w);
        && Ascending(Occurrences(items))
        && forall i, a, b :: 0 <= i < |items| && 0 <= a < b < |items[i].positions| ==>
             items[i].positions[a] < items[i].positions[b]
  {
    AddRecordsFromCsvItems(idx, text, w);
    var r := AddRecordsFromCsv(idx, text);
    if r.Some? {
      var ls := Lines(text, 0).value;
      ItemsInRecords(idx, w);
      LineOccurrencesOrdered(|idx.records|, ls, w);
      AscendingJoin(Occurrences(Items(idx, w)), LineOccurrences(|idx.records|, ls, w));
      AscendingPositions(Items(r.value, w));
    }
  }

  // ----- Keyword files -----------------------------------------------------

  /** The keywords of a keyword file from `pos` on: the text before each
      newline. `None` if the last keyword lacks its newline. */
  function KeywordLines(text: string, pos: nat): (r: Option<seq<string>>)
    requires pos <= |text|
    ensures r.Some? ==> forall i :: 0 <= i < |r.value| ==> '\n' !in r.value[i]
    decreases |text| - pos
  {
    if pos == |text| then Some([])
    else
      var nl := FindChar(text, '\n', pos);
      if nl == |text| then None
      else
        match KeywordLines(text, nl + 1)
        case None => None
        case Some(rest) => Some([text[pos..nl]] + rest)
  }

  /** The text of a keyword file: every keyword followed by a newline. */
  function Joined(ks: seq<string>): string {
    if |ks| == 0 then "" else ks[0] + "\n" + Joined(ks[1..])
  }

  /** The keyword file parses exactly when it is empty or ends in a newline. */
  lemma {:induction false} KeywordLinesSomeIff(text: string, pos: nat)
    requires pos <= |text|
    ensures KeywordLines(text, pos).Some? <==> pos == |text| || text[|text| - 1] == '\n'
    decreases |text| - pos
  {
    if pos < |text| {
      var nl := FindChar(text, '\n', pos);
      if nl < |text| {
        KeywordLinesSomeIff(text, nl + 1);
      }
    }
  }

  /** The parsed keywords, each with its newline, make up the text. */
  lemma {:induction false} KeywordLinesJoined(text: string, pos: nat)
    requires pos <= |text| && KeywordLines(text, pos).Some?
    ensures Joined(KeywordLines(text, pos).value) == text[pos..]
    decreases |text| - pos
  {
    if pos < |text| {
      var nl := FindChar(text, '\n', pos);
      var rest := KeywordLines(text, nl + 1).value;
      KeywordLinesJoined(text, nl + 1);
      var ks := [text[pos..nl]] + rest;
      assert ks[1..] == rest;
      assert Joined(ks) == text[pos..nl] + "\n" + Joined(rest);
      assert text[pos..] == text[pos..nl] + [text[nl]] + text[nl + 1..];
    }
  }

  /** The loop adding the keywords of a keyword file, one `AddKeyword` per
      line. `None` where the format assertion fails: a keyword without its
      newline. */
  function AddKeywordsFrom(idx: Index, text: string, pos: nat): (r: Option<Index>)
    requires pos <= |text|
    ensures r.Some? ==> idx.keywordIndex.Keys <= r.value.keywordIndex.Keys
    decreases |text| - pos
  {
    if pos == |text| then Some(idx)
    else
      var nl := FindChar(text, '\n', pos);
      if nl == |text| then None
      else AddKeywordsFrom(AddKeyword(idx, text[pos..nl]).0, text, nl + 1)
  }

  function AddKeywords(idx: Index, text: string): (r: Option<Index>) {
    AddKeywordsFrom(idx, text, 0)
  }

  /** The keywords appended for a list of names: lower-cased, without items. */
  function NewKeywords(ks: seq<string>): (r: seq<Keyword>)
    ensures |r| == |ks| && forall i :: 0 <= i < |ks| ==> r[i] == Keyword(Lower(ks[i]), [])
  {
    seq(|ks|, i requires 0 <= i < |ks| => Keyword(Lower(ks[i]), []))
  }

  /** One line of the keyword file, for both the loop and the parser. */
  lemma KeywordLineUnfold(idx: Index, text: string, pos: nat)
    requires pos < |text| && FindChar(text, '\n', pos) < |text|
    ensures var nl := FindChar(text, '\n', pos);
      && AddKeywordsFrom(idx, text, pos) == AddKeywordsFrom(AddKeyword(idx, text[pos..nl]).0, text, nl + 1)
      && KeywordLines(text, pos).Some? == KeywordLines(text, nl + 1).Some?
      && (KeywordLines(text, pos).Some? ==>
            KeywordLines(text, pos).value == [text[pos..nl]] + KeywordLines(text, nl + 1).value)
  {
  }

  /** The loop succeeds exactly when the file parses, and then appends one
      keyword per line, in order, leaving records, items and n-grams alone;
      every loaded keyword can be looked up. */
  lemma {:induction false} AddKeywordsFromCorrect(idx: Index, text: string, pos: nat)
    requires pos <= |text|
    ensures var r := AddKeywordsFrom(idx, text, pos);
      && (r.Some? <==> KeywordLines(text, pos).Some?)
      && (r.Some? ==>
            && r.value.keywords == idx.keywords + NewKeywords(KeywordLines(text, pos).value)
            && r.value.records == idx.records && r.value.ngramIndex == idx.ngramIndex
            && r.value.numItems == idx.numItems && r.value.totalSize == idx.totalSize
            && forall k :: k in KeywordLines(text, pos).value ==> KeywordId(r.value, k) != InvalidId)
    decreases |text| - pos
  {
    if pos < |text| {
      var nl := FindChar(text, '\n', pos);
      if nl < |text| {
        var w := text[pos..nl];
        var idx1 := AddKeyword(idx, w).0;
        AddKeywordsFromCorrect(idx1, text, nl + 1);
        KeywordLineUnfold(idx, text, pos);
        if KeywordLines(text, nl + 1).Some? {
          KeywordsFromLine(idx, w, KeywordLines(text, nl + 1).value, AddKeywordsFrom(idx1, text, nl + 1).value);
        }
      }
    }
  }

  /** One more line in front: its keyword comes first and can be looked up. */
  lemma KeywordsFromLine(idx: Index, w: string, rest: seq<string>, r: Index)
    requires AddKeyword(idx, w).0.keywordIndex.Keys <= r.keywordIndex.Keys
    requires r.keywords == AddKeyword(idx, w).0.keywords + NewKeywords(rest)
    requires forall k :: k in rest ==> KeywordId(r, k) != InvalidId
    ensures r.keywords == idx.keywords + NewKeywords([w] + rest)
    ensures forall k :: k in [w] + rest ==> KeywordId(r, k) != InvalidId
  {
    AddKeywordLookup(idx, w, w);
    NewKeywordsCons(idx.keywords, w, rest);
    KeywordsKeepIds(AddKeyword(idx, w).0, r, w);
  }

  lemma NewKeywordsCons(ks: seq<Keyword>, w: string, rest: seq<string>)
    ensures ks + NewKeywords([w] + rest) == (ks + [Keyword(Lower(w), [])]) + NewKeywords(rest)
  {
    assert NewKeywords([w] + rest) == [Keyword(Lower(w), [])] + NewKeywords(rest);
  }

  /** Adding keywords never loses a lookup. */
  lemma KeywordsKeepIds(idx: Index, idx': Index, w: string)
    requires KeywordId(idx, w) != InvalidId
    requires idx.keywordIndex.Keys <= idx'.keywordIndex.Keys
    ensures KeywordId(idx', w) != InvalidId
  {
  }

  /** The loop keeps the index valid. */
  lemma {:induction false} AddKeywordsFromValid(idx: Index, text: string, pos: nat)
    requires pos <= |text| && Valid(idx)
    ensures AddKeywordsFrom(idx, text, pos).Some? ==> Valid(AddKeywordsFrom(idx, text, pos).value)
    decreases |text| - pos
  {
    if pos < |text| {
      var nl := FindChar(text, '\n', pos);
      if nl < |text| {
        var idx' := AddKeyword(idx, text[pos..nl]).0;
        AddKeywordValid(idx, text[pos..nl]);
        AddKeywordsFromValid(idx', text, nl + 1);
        AddKeywordsFromStep(idx, text, pos, idx');
      }
    }
  }

  /** The loop's result from `pos` is its result from the next line on. */
  lemma AddKeywordsFromStep(idx: Index, text: string, pos: nat, idx': Index)
    requires pos < |text| && FindChar(text, '\n', pos) < |text|
    requires idx' == AddKeyword(idx, text[pos..FindChar(text, '\n', pos)]).0
    ensures AddKeywordsFrom(idx, text, pos) == AddKeywordsFrom(idx', text, FindChar(text, '\n', pos) + 1)
  {
  }
}
