/** Keyword extraction: one left-to-right scan that reports every maximal
    alphanumeric run of at least `MinKeywordSize` characters containing a
    letter, as a (position, size) pair. */
module Tokenizer {
  import opened Ascii

  const MinKeywordSize: nat := 2

  /** Intermediate keyword position used during extraction. */
  datatype PosSize = PosSize(pos: nat, size: nat)

  /** End (exclusive) of the alphanumeric run that continues at `i`,
      never reading at or beyond `end`. */
  function RunEnd(content: string, i: nat, end: nat): (j: nat)
    requires i <= end <= |content|
    ensures i <= j <= end
    ensures forall k :: i <= k < j ==> IsAlnum(content[k])
    ensures j == end || !IsAlnum(content[j])
    decreases end - i
  {
    if i < end && IsAlnum(content[i]) then RunEnd(content, i + 1, end) else i
  }

  /** The `valid` flag of the scan: some character of `content[i..j]` is a letter. */
  function AlphaIn(content: string, i: nat, j: nat): bool
    requires i <= j <= |content|
    decreases j - i
  {
    i < j && (IsAlpha(content[i]) || AlphaIn(content, i + 1, j))
  }

  lemma {:induction false} AlphaInIsHasAlpha(content: string, i: nat, j: nat)
    requires i <= j <= |content|
    ensures AlphaIn(content, i, j) <==> HasAlpha(content[i..j])
    decreases j - i
  {
    if i < j {
      AlphaInIsHasAlpha(content, i + 1, j);
      var w := content[i..j];
      assert w[0] == content[i];
      assert w[1..] == content[i + 1..j];
      if HasAlpha(w) && !IsAlpha(w[0]) {
        var k :| 0 <= k < |w| && IsAlpha(w[k]);
        assert IsAlpha(w[1..][k - 1]);
      }
      if HasAlpha(w[1..]) {
        var k :| 0 <= k < |w[1..]| && IsAlpha(w[1..][k]);
        assert IsAlpha(w[k + 1]);
      }
    }
  }

  /** `[p, p+s)` is a keyword of `content[beg..end]`: a maximal alphanumeric
      run inside the window, at least `MinKeywordSize` long, holding a letter. */
  ghost predicate IsKeywordSpan(content: string, beg: nat, end: nat, p: nat, s: nat)
    requires end <= |content|
  {
    && beg <= p && p + s <= end && s >= MinKeywordSize
    && (forall k :: p <= k < p + s ==> IsAlnum(content[k]))
    && (p == beg || !IsAlnum(content[p - 1]))
    && (p + s == end || !IsAlnum(content[p + s]))
    && HasAlpha(content[p..p + s])
  }

  /** Spans that are ascending with at least one separator between neighbours. */
  ghost predicate Separated(r: seq<PosSize>) {
    forall i, j :: 0 <= i < j < |r| ==> r[i].pos + r[i].size < r[j].pos
  }

  /** The scan loop from position `pos` on; `pos` is either the window start
      or just after a non-alphanumeric character. */
  function Scan(content: string, beg: nat, pos: nat, end: nat): seq<PosSize>
    requires beg <= pos <= end + 1 && end <= |content|
    requires pos <= end ==> pos == beg || !IsAlnum(content[pos - 1])
    decreases end + 1 - pos
  {
    if pos >= end then []
    else if !IsAlnum(content[pos]) then Scan(content, beg, pos + 1, end)
    else
      var e := RunEnd(content, pos + 1, end);
      var rest := Scan(content, beg, e + 1, end);
      if e - pos >= MinKeywordSize && AlphaIn(content, pos, e) then
        [PosSize(pos, e - pos)] + rest
      else
        rest
  }

  /** What the scan guarantees about its reports from `pos` on: each is a
      keyword at or after `pos`, and they are separated and ascending. */
  ghost predicate SoundFrom(content: string, beg: nat, end: nat, pos: nat, r: seq<PosSize>)
    requires end <= |content|
  {
    && (forall i :: 0 <= i < |r| ==> r[i].pos >= pos)
    && (forall i :: 0 <= i < |r| ==> IsKeywordSpan(content, beg, end, r[i].pos, r[i].size))
    && Separated(r)
  }

  lemma SoundFromEarlier(content: string, beg: nat, end: nat, pos: nat, pos': nat, r: seq<PosSize>)
    requires end <= |content| && pos <= pos'
    requires SoundFrom(content, beg, end, pos', r)
    ensures SoundFrom(content, beg, end, pos, r)
  {
  }

  lemma SoundFromCons(content: string, beg: nat, end: nat, pos: nat, e: nat, rest: seq<PosSize>)
    requires beg <= pos < e <= end <= |content|
    requires IsKeywordSpan(content, beg, end, pos, e - pos)
    requires SoundFrom(content, beg, end, e + 1, rest)
    ensures SoundFrom(content, beg, end, pos, [PosSize(pos, e - pos)] + rest)
  {
    ConsSeparated(PosSize(pos, e - pos), rest);
    var r := [PosSize(pos, e - pos)] + rest;
    assert forall i :: 0 < i < |r| ==> r[i] == rest[i - 1];
  }

  lemma {:induction false} ScanSound(content: string, beg: nat, pos: nat, end: nat)
    requires beg <= pos <= end + 1 && end <= |content|
    requires pos <= end ==> pos == beg || !IsAlnum(content[pos - 1])
    ensures SoundFrom(content, beg, end, pos, Scan(content, beg, pos, end))
    decreases end + 1 - pos
  {
    if pos >= end {
    } else if !IsAlnum(content[pos]) {
      ScanSkipStep(content, beg, pos, end);
      ScanSound(content, beg, pos + 1, end);
      SoundFromEarlier(content, beg, end, pos, pos + 1, Scan(content, beg, pos + 1, end));
    } else {
      var e := RunEnd(content, pos + 1, end);
      assert e < end ==> !IsAlnum(content[e]);
      ScanSound(content, beg, e + 1, end);
      ScanSoundRun(content, beg, pos, end, e, Scan(content, beg, e + 1, end));
    }
  }

  /** A run at `pos`: soundness after the run carries over to the scan from
      `pos`, with the run's keyword if it is one. */
  lemma ScanSoundRun(content: string, beg: nat, pos: nat, end: nat, e: nat, rest: seq<PosSize>)
    requires beg <= pos < end <= |content|
    requires pos == beg || !IsAlnum(content[pos - 1])
    requires IsAlnum(content[pos]) && e == RunEnd(content, pos + 1, end)
    requires rest == Scan(content, beg, e + 1, end) && SoundFrom(content, beg, end, e + 1, rest)
    ensures SoundFrom(content, beg, end, pos, Scan(content, beg, pos, end))
  {
    ScanRunStep(content, beg, pos, end);
    ScanSoundHead(content, beg, pos, end, e, rest);
  }

  /** The run's report, if any, followed by a sound rest, is sound. */
  lemma ScanSoundHead(content: string, beg: nat, pos: nat, end: nat, e: nat, rest: seq<PosSize>)
    requires beg <= pos < end <= |content|
    requires pos == beg || !IsAlnum(content[pos - 1])
    requires IsAlnum(content[pos]) && e == RunEnd(content, pos + 1, end)
    requires SoundFrom(content, beg, end, e + 1, rest)
    ensures SoundFrom(content, beg, end, pos,
      (if e - pos >= MinKeywordSize && AlphaIn(content, pos, e) then [PosSize(pos, e - pos)] else []) + rest)
  {
    if e - pos >= MinKeywordSize && AlphaIn(content, pos, e) {
      AlphaInIsHasAlpha(content, pos, e);
      RunIsKeyword(content, beg, pos, e, end);
      SoundFromCons(content, beg, end, pos, e, rest);
    } else {
      assert [] + rest == rest;
      SoundFromEarlier(content, beg, end, pos, e + 1, rest);
    }
  }

  lemma RunIsKeyword(content: string, beg: nat, pos: nat, e: nat, end: nat)
    requires beg <= pos < e <= end <= |content|
    requires pos == beg || !IsAlnum(content[pos - 1])
    requires forall k :: pos < k < e ==> IsAlnum(content[k])
    requires IsAlnum(content[pos])
    requires e == end || !IsAlnum(content[e])
    requires e - pos >= MinKeywordSize && HasAlpha(content[pos..e])
    ensures IsKeywordSpan(content, beg, end, pos, e - pos)
  {
  }

  lemma ConsSeparated(x: PosSize, rest: seq<PosSize>)
    requires Separated(rest)
    requires forall i :: 0 <= i < |rest| ==> rest[i].pos > x.pos + x.size
    ensures Separated([x] + rest)
  {
    var r := [x] + rest;
    forall i, j | 0 <= i < j < |r|
      ensures r[i].pos + r[i].size < r[j].pos
    {
      if i > 0 {
        assert r[i] == rest[i - 1] && r[j] == rest[j - 1];
      } else {
        assert r[j] == rest[j - 1];
      }
    }
  }

  /** All keywords of `content[beg..end]`, in ascending order of position. */
  function ExtractKeywords(content: string, beg: nat, end: nat): (r: seq<PosSize>)
    requires beg < end <= |content|
    ensures forall i :: 0 <= i < |r| ==> IsKeywordSpan(content, beg, end, r[i].pos, r[i].size)
    ensures Separated(r)
  {
    ScanSound(content, beg, beg, end);
    Scan(content, beg, beg, end)
  }

  /** A keyword starting where a run starts ends where that run ends. */
  lemma SpanEndsWithRun(content: string, beg: nat, end: nat, p: nat, s: nat, e: nat)
    requires end <= |content|
    requires IsKeywordSpan(content, beg, end, p, s)
    requires p < e <= end
    requires forall k :: p < k < e ==> IsAlnum(content[k])
    requires e == end || !IsAlnum(content[e])
    ensures e == p + s
  {
  }

  /** Completeness of the scan, as the index at which a keyword is reported. */
  lemma {:induction false} ScanComplete(content: string, beg: nat, pos: nat, end: nat, p: nat, s: nat)
    returns (i: nat)
    requires beg <= pos <= end + 1 && end <= |content|
    requires pos <= end ==> pos == beg || !IsAlnum(content[pos - 1])
    requires IsKeywordSpan(content, beg, end, p, s) && p >= pos
    ensures i < |Scan(content, beg, pos, end)| && Scan(content, beg, pos, end)[i] == PosSize(p, s)
    decreases end + 1 - pos, 1
  {
    assert pos < end;
    if !IsAlnum(content[pos]) {
      ScanSkipStep(content, beg, pos, end);
      i := ScanComplete(content, beg, pos + 1, end, p, s);
    } else {
      i := ScanCompleteRun(content, beg, pos, end, p, s);
    }
  }

  /** The same, where the scan stands at the start of an alphanumeric run:
      the keyword is this run or comes after it. */
  lemma {:induction false} ScanCompleteRun(content: string, beg: nat, pos: nat, end: nat, p: nat, s: nat)
    returns (i: nat)
    requires beg <= pos < end <= |content|
    requires pos == beg || !IsAlnum(content[pos - 1])
    requires IsAlnum(content[pos])
    requires IsKeywordSpan(content, beg, end, p, s) && p >= pos
    ensures i < |Scan(content, beg, pos, end)| && Scan(content, beg, pos, end)[i] == PosSize(p, s)
    decreases end + 1 - pos, 0
  {
    var e := RunEnd(content, pos + 1, end);
    if p == pos {
      ScanFirstIsSpan(content, beg, pos, end, s, e);
      i := 0;
    } else {
      RunBeforeSpan(content, beg, pos, end, p, s, e);
      var j := ScanComplete(content, beg, e + 1, end, p, s);
      i := ScanRunIndex(content, beg, pos, end, j);
    }
  }

  /** A keyword starting after the run at `pos` also starts after the
      separator that ends the run. */
  lemma RunBeforeSpan(content: string, beg: nat, pos: nat, end: nat, p: nat, s: nat, e: nat)
    requires beg <= pos < end <= |content|
    requires IsAlnum(content[pos]) && e == RunEnd(content, pos + 1, end)
    requires IsKeywordSpan(content, beg, end, p, s) && p > pos
    ensures e < end && !IsAlnum(content[e]) && p >= e + 1
  {
    SpanAfterRun(content, beg, end, p, s, pos, e);
  }

  /** A keyword starting where the scan stands is reported first. */
  lemma ScanFirstIsSpan(content: string, beg: nat, pos: nat, end: nat, s: nat, e: nat)
    requires beg <= pos < end <= |content|
    requires pos == beg || !IsAlnum(content[pos - 1])
    requires IsAlnum(content[pos]) && e == RunEnd(content, pos + 1, end)
    requires IsKeywordSpan(content, beg, end, pos, s)
    ensures 0 < |Scan(content, beg, pos, end)| && Scan(content, beg, pos, end)[0] == PosSize(pos, s)
  {
    ScanRunStep(content, beg, pos, end);
    SpanEndsWithRun(content, beg, end, pos, s, e);
    AlphaInIsHasAlpha(content, pos, e);
  }

  /** An index into the scan after a run, shifted to the scan before it. */
  lemma ScanRunIndex(content: string, beg: nat, pos: nat, end: nat, j: nat) returns (i: nat)
    requires beg <= pos < end <= |content|
    requires pos == beg || !IsAlnum(content[pos - 1])
    requires IsAlnum(content[pos])
    requires j < |Scan(content, beg, RunEnd(content, pos + 1, end) + 1, end)|
    ensures i < |Scan(content, beg, pos, end)|
    ensures Scan(content, beg, pos, end)[i] == Scan(content, beg, RunEnd(content, pos + 1, end) + 1, end)[j]
  {
    var e := RunEnd(content, pos + 1, end);
    ScanRunStep(content, beg, pos, end);
    var head := if e - pos >= MinKeywordSize && AlphaIn(content, pos, e) then [PosSize(pos, e - pos)] else [];
    var rest := Scan(content, beg, e + 1, end);
    i := |head| + j;
    assert (head + rest)[i] == rest[j];
  }

  /** One step of the scan over a separator. */
  lemma ScanSkipStep(content: string, beg: nat, pos: nat, end: nat)
    requires beg <= pos < end <= |content|
    requires pos == beg || !IsAlnum(content[pos - 1])
    requires !IsAlnum(content[pos])
    ensures Scan(content, beg, pos, end) == Scan(content, beg, pos + 1, end)
  {
  }

  /** One step of the scan over an alphanumeric run. */
  lemma ScanRunStep(content: string, beg: nat, pos: nat, end: nat)
    requires beg <= pos < end <= |content|
    requires pos == beg || !IsAlnum(content[pos - 1])
    requires IsAlnum(content[pos])
    ensures var e := RunEnd(content, pos + 1, end);
      Scan(content, beg, pos, end)
      == (if e - pos >= MinKeywordSize && AlphaIn(content, pos, e) then [PosSize(pos, e - pos)] else [])
         + Scan(content, beg, e + 1, end)
  {
  }

  /** A keyword that does not start at a run start lies beyond that run. */
  lemma SpanAfterRun(content: string, beg: nat, end: nat, p: nat, s: nat, pos: nat, e: nat)
    requires end <= |content|
    requires IsKeywordSpan(content, beg, end, p, s)
    requires beg <= pos < p && pos < e <= end
    requires forall k :: pos <= k < e ==> IsAlnum(content[k])
    requires e == end || !IsAlnum(content[e])
    ensures p > e
  {
  }

  /** Every keyword of the window is reported: with the ensures of
      `ExtractKeywords` this fixes the result completely. */
  lemma ExtractKeywordsComplete(content: string, beg: nat, end: nat, p: nat, s: nat)
    requires beg < end <= |content|
    requires IsKeywordSpan(content, beg, end, p, s)
    ensures PosSize(p, s) in ExtractKeywords(content, beg, end)
  {
    var i := ScanComplete(content, beg, beg, end, p, s);
  }

  /** A span is reported exactly when it is a keyword of the window. */
  lemma ExtractKeywordsExact(content: string, beg: nat, end: nat, p: nat, s: nat)
    requires beg < end <= |content|
    ensures PosSize(p, s) in ExtractKeywords(content, beg, end) <==> IsKeywordSpan(content, beg, end, p, s)
  {
    if IsKeywordSpan(content, beg, end, p, s) {
      ExtractKeywordsComplete(content, beg, end, p, s);
    }
  }

  /** A run without letters is never a keyword, whatever its length. */
  lemma DigitsNeverKeywords(content: string, beg: nat, end: nat, p: nat, s: nat)
    requires beg < end <= |content|
    requires forall k :: p <= k < p + s && k < |content| ==> IsDigit(content[k])
    ensures PosSize(p, s) !in ExtractKeywords(content, beg, end)
  {
    ExtractKeywordsExact(content, beg, end, p, s);
    if p + s <= |content| {
      var w := content[p..p + s];
      assert forall i :: 0 <= i < |w| ==> IsDigit(w[i]);
      assert !HasAlpha(w);
    }
  }
}
