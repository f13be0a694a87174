# A small inverted-index search engine, modelled in Dafny

The engine keeps records (a url and a text), splits their text into keywords, and stores for every lower-cased keyword a posting list. A posting list has one item per record, and each item holds the keyword's positions in that record and a frequency score. A keyword can also be found by approximate matching: the index maps n-grams of keywords to keyword ids, and a candidate is accepted when its edit distance to the query is small enough. A query is answered by intersecting the posting lists of its known keywords. The result is then ranked by summed score and cut to the best records.

The model follows the exercise iterations of the code:

- `exercise-sheet-07/index.cc` is the most complete index.
- `exercise-sheet-05/index.h` gives the interface.
- `exercise-sheet-05/index.cc` is an earlier snapshot of the index.
- `exercise-sheet-05/query-processor.cc` holds the ranked query processor.
- `exercise-sheet-03/intersect.h` holds a two-list intersection.
- `exercise-sheet-02` has a string-keyed index and an unranked query processor.
- `exercise-01` has a plain record-id index and an early-cutoff intersection.

Functions that are textually the same in several iterations are modelled once:

- `Split` is the same in all four query processors and `index.cc`.
- `ExtractKeywords` is the same in all four index files, except for the density estimate that only sizes a reservation.
- The sheet-02 `Intersect` is the sheet-05 one with a `max_num` that only sizes a reservation.

The modules follow the source's structure:

| module | file | what it holds |
|---|---|---|
| `Ascii` | `ascii.dfy` | `isalpha`, `isalnum` and `tolower` of the C locale |
| `Splitting` | `split.dfy` | `Split` |
| `Tokenizer` | `tokenizer.dfy` | `ExtractKeywords` |
| `NGramming` | `ngrams.dfy` | both `NGrams` overloads (sheet 07), and the sheet-05 `NGrams` |
| `EditDistance` | `edit_distance.dfy` | Levenshtein distance, and the two rolling-row loops |
| `SearchIndex` | `index.dfy` | records, keywords, items, the n-gram map, and the index invariant |
| `Merging` | `merge.dfy` | the heap-driven k-way merge, and `Union` with frequencies |
| `CsvLoading` | `csv.dfy` | `AddRecordsFromCsv` and `AddKeywords` |
| `Fuzzy` | `fuzzy.dfy` | `BuildNGrams` and `ApproximateMatches` |
| `Intersecting` | `intersect.dfy` | the sheet-05 k-way AND |
| `Ranking` | `rank.dfy` | the sheet-05 `Rank` |
| `Querying` | `query.dfy` | the sheet-05 and sheet-02 `Answer` |
| `LinearIntersect` | `intersect_lin.dfy` | `es::IntersectLin` |
| `StringKeyed` | `string_keyed.dfy` | the sheet-02 index and its `AddRecordsFromCsv` |
| `PlainIndex` | `plain_index.dfy` | the exercise-01 index |
| `PlainQuery` | `plain_query.dfy` | the exercise-01 `Answer` and `Intersect` |
| `Wrappers` | `wrappers.dfy` | `Option` |

Some source behaviour becomes a `None` result instead of a crash:

- a failed `assert` whose condition depends on the input,
- a `std::out_of_range`,
- a read past the end of a vector.

Two asserts become preconditions of three members instead, because every caller in the model already rules the case out. They are listed under "## Left out".

A Dafny `char` stands for one byte of a C++ `std::string`. Item positions, `Item.size` (the keyword's `size()`) and `total_size_` are byte counts in the source and character counts here. They agree because the source reads text byte by byte and its `isalpha`, `isalnum` and `tolower` are those of the C locale.

Scores are exact `real` sums.

## Model

| member | source | states |
|---|---|---|
| Ascii.ToLower | exercise-sheet-07/index.cc:478-480 | only upper-case ASCII letters change, each to its lower-case letter; letters and digits stay letters and digits |
| Ascii.LowerIsLowerWord | exercise-sheet-07/index.cc:478-485 | a lower-cased word has no upper-case letter, and lower-casing leaves a word unchanged exactly when it has none |
| Ascii.LowerIdempotent | exercise-sheet-07/index.cc:417-425 | lower-casing a lower-cased word changes nothing, so a lookup key is stable |
| Ascii.LowerKeepsAlpha | exercise-sheet-07/index.cc:115-127 | lower-casing keeps whether a word holds a letter, so the validity test of a keyword does not depend on case |
| Splitting.Split | exercise-sheet-07/index.cc:84-99 | every token is non-empty and holds no delimiter |
| Splitting.SplitEmptyIff | exercise-sheet-05/query-processor.cc:12-27 | the result is empty exactly when every character is a delimiter |
| Splitting.SplitToken | exercise-sheet-02/query-processor.cc:10-25 | a single delimiter-free word splits into itself |
| Splitting.SplitConcat | exercise-01/query-processor.cc:10-25 | splitting at a delimiter splits each side independently, so the tokens are the maximal non-delimiter runs in order |
| Tokenizer.ExtractKeywords | exercise-sheet-07/index.cc:101-132 | every span lies in the window, is a maximal alphanumeric run, holds a letter and has length at least 2; spans ascend without overlap |
| Tokenizer.ExtractKeywordsComplete | exercise-sheet-05/index.cc:19-56 | every keyword span of the window is reported |
| Tokenizer.ExtractKeywordsExact | exercise-01/inverted-index.cc:19-48 | a span is reported if and only if it is a keyword span of the window |
| Tokenizer.DigitsNeverKeywords | exercise-sheet-02/inverted-index.cc:18-55 | a run of digits only, such as "10" or "2009", is never a keyword |
| NGramming.NGrams | exercise-sheet-07/index.cc:201-217 | with c = \|w\|-n+3, the result has no entry when c < 2 and c entries otherwise, each of length n |
| NGramming.NGramsAreWindows | exercise-sheet-07/index.cc:201-217 | entry i is the window of length n at i of the word padded with "#" on both sides |
| NGramming.NGramsNonEmptyIff | exercise-sheet-07/index.cc:203-207 | n-grams exist exactly when the padded word is longer than n, and there are at least two when \|w\|+1 >= n |
| NGramming.NGramsOfParts | exercise-sheet-07/index.cc:219-243 | the n-grams of wildcard-separated parts all have length n |
| NGramming.SinglePart | exercise-sheet-07/index.cc:219-243 | for a single part they are that part's n-grams |
| NGramming.InnerPartDropsBoundaries | exercise-sheet-07/index.cc:227-240 | an inner part contributes its n-grams without the leading and trailing "#" ones |
| NGramming.PartsFromSound | exercise-sheet-05/index.h:86-89 | every n-gram of the parts is an n-gram of one of the parts |
| NGramming.NGramsEarly | exercise-sheet-05/index.cc:106-119 | the sheet-05 version fails exactly when n <= 1, \|w\| <= 1 or \|w\|-n+3 <= 1, and otherwise has \|w\|-n+3 entries |
| NGramming.NGramsEarlyAgreesWhereFilled | exercise-sheet-05/index.cc:113-117 | the entries it does fill agree with the sheet-07 n-grams |
| NGramming.NGramsEarlyLeavesGap | exercise-sheet-05/index.cc:114-116 | whenever \|w\| >= n, the last-but-one entry is left empty, where the sheet-07 n-gram has length n |
| NGramming.NGramsEarlyHallo | exercise-sheet-05/index.cc:106-119 | "hallo" with n = 3 gives "#ha", "hal", "", "", "lo#" instead of "#ha", "hal", "all", "llo", "lo#" |
| EditDistance.EditDistanceRows | exercise-sheet-07/index.cc:245-269 | the two-row loop computes the Levenshtein distance |
| EditDistance.EditDistanceRowsEarly | exercise-sheet-05/index.cc:121-145 | the sheet-05 two-row loop, with its other indexing, computes the same distance |
| EditDistance.DistanceSymmetric | exercise-sheet-07/index.cc:252-254 | the distance does not depend on argument order |
| EditDistance.DistanceBounds | exercise-sheet-07/index.cc:245-269 | the distance is at least the difference of the lengths and at most the longer length |
| EditDistance.DistanceZeroIff | exercise-sheet-05/index.cc:121-145 | the distance is 0 exactly for equal words |
| EditDistance.DistanceFromEmpty | exercise-sheet-07/index.cc:255-258 | the distance from the empty word is the other word's length |
| SearchIndex.EmptyIndex | exercise-sheet-07/index.cc:321-325 | a new index satisfies the index invariant, has no record and no item, has size 0, and every keyword and n-gram lookup comes back empty |
| SearchIndex.SameItemIgnoresScore | exercise-sheet-05/index.h:34-36 | items equal in record id and positions compare equal whatever their size and score |
| SearchIndex.AddRecord | exercise-sheet-07/index.cc:427-432 | the new id is the previous number of records, the record is stored there, earlier records are kept, and the total size grows by the content length |
| SearchIndex.AddRecordValid | exercise-sheet-05/index.h:124-126 | adding a record keeps the invariant, including total size == the sum of content lengths |
| SearchIndex.ExtendRecord | exercise-sheet-07/index.cc:434-440 | for an existing id it returns the old content length and appends the content, leaving every other record alone; an unknown id fails |
| SearchIndex.ExtendRecordValid | exercise-sheet-05/index.h:128-130 | extending keeps the invariant |
| SearchIndex.KeywordId | exercise-sheet-07/index.cc:417-425 | kInvalidId exactly for an unknown lower-cased keyword; in a consistent index a found id names a keyword whose name is the lower-cased query |
| SearchIndex.KeywordIdIgnoresCase | exercise-sheet-05/index.h:144 | spellings with the same lower-case form have the same id |
| SearchIndex.AddKeyword | exercise-sheet-07/index.cc:478-485 | the new keyword is appended lower-cased with no items, and its id is the previous number of keywords |
| SearchIndex.AddKeywordLookup | exercise-sheet-07/index.cc:481-483 | afterwards the keyword is found under the new id unless it was already known, in which case the old id stays; other keywords keep their ids |
| SearchIndex.AddKeywordValid | exercise-sheet-05/index.h:147-149 | adding a keyword keeps the invariant |
| SearchIndex.Items | exercise-sheet-07/index.cc:408-415 | the items are those of the keyword with the lower-cased name, and none for an unknown keyword |
| SearchIndex.AppendOccurrencePairs | exercise-sheet-07/index.cc:445-453 | appending an occurrence adds exactly that (record, position) pair to the list's occurrences |
| SearchIndex.AppendOccurrenceWellFormed | exercise-sheet-07/index.cc:445-453 | with record ids arriving in non-decreasing order, lists stay ascending with one item per record and score == number of positions |
| SearchIndex.AddItem | exercise-sheet-07/index.cc:442-455 | the item count grows by one and is returned; only the given keyword's items change |
| SearchIndex.AddItemOccurrences | exercise-sheet-05/index.cc:227-240 | the keyword's occurrences gain exactly the new (record, position) pair |
| SearchIndex.AddItemValid | exercise-sheet-05/index.h:132-136 | an occurrence that holds the keyword, in a record at or after the last one, keeps the invariant, including NumItems == the total number of positions |
| SearchIndex.AddNGram | exercise-sheet-07/index.cc:457-466 | the n-gram becomes known and nothing but the n-gram map changes |
| SearchIndex.AddNGramItems | exercise-sheet-07/index.cc:457-466 | the keyword id is appended to that n-gram's list and to no other |
| SearchIndex.AddNGramValid | exercise-sheet-05/index.h:138-139 | adding an existing keyword's n-gram keeps the invariant |
| Merging.Top | exercise-sheet-07/index.cc:302-305 | the popped list is an active one whose head is least, with ties to the lower list index, and -1 means no list is active |
| Merging.PopsPermutation | exercise-sheet-07/index.cc:302-317 | the pops deliver exactly the remaining entries of all lists |
| Merging.PopsSorted | exercise-sheet-07/index.cc:302-317 | on non-decreasing lists the pops come in non-decreasing order |
| Merging.Union | exercise-sheet-07/index.cc:276-319 | the ids and the frequencies have the same length |
| Merging.UnionCorrect | exercise-sheet-07/index.cc:276-319 | on non-decreasing lists the result ascends strictly and holds exactly the values of the lists; each frequency is that value's total count over all lists; the frequencies add up to the total input length |
| Merging.UnionMembers | exercise-sheet-07/index.cc:271-274 | whatever the input, every returned id occurs in some list |
| CsvLoading.ParseLine | exercise-sheet-07/index.cc:145-154 | a parsed line is a url without tab, a tab, and content up to and including the next newline, read from the text at that point |
| CsvLoading.LinesFormat | exercise-sheet-07/index.cc:146-183 | the parsed lines spell out the whole text |
| CsvLoading.FormatLines | exercise-sheet-07/index.cc:146-183 | well-formed lines parse back from their text |
| CsvLoading.GroupSnocNew | exercise-sheet-07/index.cc:158-162 | a line with a new url opens a new record |
| CsvLoading.GroupSnocSame | exercise-sheet-07/index.cc:163-166 | a line with the previous url extends the last record by its content |
| CsvLoading.AddRecordsFromCsvCorrect | exercise-sheet-07/index.cc:140-186 | loading succeeds exactly when every line is well formed with a non-empty url; the records are the old ones plus one per run of same-url lines, one item occurrence is counted per keyword, and the invariant holds |
| CsvLoading.LoadLineItems | exercise-sheet-07/index.cc:155-181 | one loaded line appends to the items of every keyword exactly the line's occurrences of it, in the record and at the offset the record step gives |
| CsvLoading.LoadFromItems | exercise-sheet-07/index.cc:145-184 | from any loop state, the loop appends to the items of every keyword w exactly the occurrences of w in the lines it loads |
| CsvLoading.AddRecordsFromCsvItems | exercise-sheet-07/index.cc:140-186 | after loading, the (record, position) pairs of the items of every keyword w are the earlier ones followed, line by line, by each keyword of the line equal to w up to case, in the record of the line's run of same-url lines, at the keyword's position plus the line's offset in that record |
| CsvLoading.LineOccurrencesOrdered | exercise-sheet-07/index.cc:155-181 | those pairs ascend by record and then position, none lies in an earlier record, and all lie before the end of the last line |
| CsvLoading.AddRecordsFromCsvAscending | exercise-sheet-07/index.cc:167-181 | loading into a consistent index whose pairs for w ascend keeps them ascending, so the positions within each item of w strictly ascend |
| CsvLoading.LoadFromCorrect | exercise-sheet-05/index.cc:58-104 | the loading loop from any point: the same success condition, records and item count |
| CsvLoading.AddOccurrenceItems | exercise-sheet-07/index.cc:167-181 | one keyword of a line appends its occurrence, at the line's offset in the record, to the keyword under any spelling, and leaves other keywords alone |
| CsvLoading.KeywordLinesSomeIff | exercise-sheet-07/index.cc:188-199 | a keyword file loads exactly when it is empty or ends with a newline |
| CsvLoading.KeywordLinesJoined | exercise-sheet-07/index.cc:188-199 | the keyword lines joined with newlines spell out the text |
| CsvLoading.AddKeywordsFromCorrect | exercise-sheet-07/index.cc:188-199 | every line becomes a lower-cased keyword, appended in order and then known, and nothing else changes |
| CsvLoading.AddKeywordsFromValid | exercise-sheet-05/index.h:78-80 | loading keywords keeps the invariant |
| Fuzzy.AddNGramsItems | exercise-sheet-07/index.cc:391-394 | adding a keyword's n-grams appends its id to each n-gram's list once per occurrence of that n-gram |
| Fuzzy.BuildNGrams | exercise-sheet-07/index.cc:384-396 | the n-gram size is recorded and the keywords are kept |
| Fuzzy.BuildFromCorrect | exercise-sheet-07/index.cc:384-396 | the build fails exactly when some keyword is too short for n, and otherwise each n-gram's list gains the ids of the keywords holding it, in keyword order |
| Fuzzy.BuildNGramsCorrect | exercise-sheet-07/index.cc:384-396 | building succeeds exactly when n > 1 and every keyword is long enough, and keeps the invariant |
| Fuzzy.BuildNGramsLists | exercise-sheet-05/index.h:138-142 | on an empty n-gram map, each list ascends and holds exactly the ids of the keywords one of whose n-grams it is |
| Fuzzy.BuildNGramsSorted | exercise-sheet-05/index.cc:169-181 | on an empty n-gram map, every n-gram list is non-decreasing, which is what the merge requires |
| Fuzzy.QueryNGrams | exercise-sheet-07/index.cc:329-332 | the query's n-grams exist exactly when every wildcard-separated part is long enough, and each has length n |
| Fuzzy.FilterCorrect | exercise-sheet-07/index.cc:351-361 | the kept ids ascend strictly, and an id is kept exactly when its overlap passes the count bound and its edit distance is at most max_ed |
| Fuzzy.MatchIds | exercise-sheet-07/index.cc:327-364 | every matched id is a keyword id |
| Fuzzy.MatchIdsSomeIff | exercise-sheet-07/index.cc:327-364 | matching succeeds exactly when the n-gram size is above 1 and the query's n-grams exist |
| Fuzzy.MatchIdsCorrect | exercise-sheet-07/index.cc:327-364 | the matched ids ascend strictly and are exactly the keywords that share an n-gram with the query and pass the filter |
| Fuzzy.ApproximateMatches | exercise-sheet-07/index.cc:327-364 | the result is the names of the matched keyword ids, in order |
| Fuzzy.ApproximateMatchesSound | exercise-sheet-07/index.cc:357-359 | every returned keyword is within max_ed of the query |
| Intersecting.IntersectCorrect | exercise-sheet-05/query-processor.cc:94-139 | on posting lists, the output is, for each record in every list in ascending order, one item per list in list order; the count is the number of such records; no list gives nothing |
| Intersecting.SharedIdsExact | exercise-sheet-05/query-processor.cc:114-136 | a record is reported if and only if it occurs in every list |
| Intersecting.SharedIdsAscending | exercise-sheet-02/query-processor.cc:51-94 | the reported records ascend strictly |
| Ranking.GroupsAsWritten | exercise-sheet-05/query-processor.cc:65-74 | the grouping fails exactly on an item with the invalid record id in front, and otherwise is the grouping into runs |
| Ranking.GroupsAreRuns | exercise-sheet-05/query-processor.cc:62-74 | the groups are the maximal runs of one record, in order, covering all items, each with its summed score |
| Ranking.SortDesc | exercise-sheet-05/query-processor.cc:76-78 | sorting is a permutation |
| Ranking.SortDescDescending | exercise-sheet-05/query-processor.cc:76-78 | the sort orders by (sum, first item index) descending |
| Ranking.TopIsBest | exercise-sheet-05/query-processor.cc:76-78 | the selection has min(max_num, #records) groups, in descending order, and none left out ranks above one selected |
| Ranking.TopDistinct | exercise-sheet-05/query-processor.cc:76-78 | distinct groups give a selection without repeats |
| Ranking.EmitGroup | exercise-sheet-05/query-processor.cc:83-89 | a group's items are emitted in order with the score replaced by the group's sum |
| Ranking.EmitSound | exercise-sheet-05/query-processor.cc:81-90 | every emitted item comes from a selected group, with that group's sum |
| Ranking.EmitComplete | exercise-sheet-05/query-processor.cc:81-90 | every item of every selected group is emitted |
| Ranking.EmitScoresRise | exercise-sheet-05/query-processor.cc:81-90 | scores never fall along the output, and none is below the worst selected sum |
| Ranking.RankCorrect | exercise-sheet-05/query-processor.cc:57-92 | the selection is the best min(max_num, #records) records; the output holds exactly their items, each with its record's sum, and scores rise along it |
| Ranking.RankAsWrittenAgrees | exercise-sheet-05/query-processor.cc:57-92 | whenever the loop as written stays in bounds it gives the corrected ranking |
| Ranking.RankAsWrittenSingleRecord | exercise-sheet-05/query-processor.cc:86-89 | with a single record the copy loop reads past the end |
| Ranking.RankAsWrittenFailsIff | exercise-sheet-05/query-processor.cc:65-89 | the loop as written fails exactly when the first item has the invalid record id, or when the record whose run ends the items is among the kept records |
| Ranking.RankAsWrittenExample | exercise-sheet-05/query-processor.cc:86-89 | one item, max_num 1: the loop as written reads past the end, and the corrected loop returns the item |
| Ranking.KeptBlocksDistinct | exercise-sheet-05/query-processor.cc:51-52 | on an intersection's output, min(max_num, #records) distinct matched records are kept |
| Ranking.RankBlocksSound | exercise-sheet-05/query-processor.cc:51-52 | every ranked item is an item of a kept record from one of the lists |
| Ranking.RankBlocksHas | exercise-sheet-05/query-processor.cc:51-52 | every kept record's item from every list is ranked |
| Querying.KnownListsIff | exercise-sheet-05/query-processor.cc:37-49 | a list is intersected exactly when it is the non-empty list of a query word |
| Querying.KnownListsArePostings | exercise-sheet-05/query-processor.cc:105-107 | on a valid index the intersected lists are non-empty, strictly ascending posting lists |
| Querying.AnswerUnrankedCorrect | exercise-sheet-02/query-processor.cc:32-94 | the unranked answer holds the blocks of exactly the records in every known word's list, ascending, and reports their number |
| Querying.AnswerNoKnownKeyword | exercise-sheet-02/query-processor.cc:37-46 | with no known word the answer is empty and reports 0 |
| Querying.KeywordsAround | exercise-sheet-05/query-processor.cc:38 | a word surrounded by blanks is a query word of its own |
| Querying.AnswerSkipsUnknown | exercise-sheet-02/query-processor.cc:37-46 | adding an unknown word to a query does not change either answer |
| Querying.AnswerAsWrittenAgrees | exercise-sheet-05/query-processor.cc:34-55 | wherever the ranking as written stays in bounds, the answer is the corrected one |
| Querying.AnswerKeeps | exercise-sheet-05/query-processor.cc:34-55 | the count is the number of matched records, and min(max_num, that number) distinct matched records are kept |
| Querying.AnswerWritesKept | exercise-sheet-05/query-processor.cc:34-55 | every answer item is of a kept record and comes from a query word's list |
| Querying.AnswerWritesAllKept | exercise-sheet-05/query-processor.cc:34-55 | every query word's item of a kept record is in the answer |
| Querying.AnswerScoresRise | exercise-sheet-05/query-processor.cc:51-52 | scores never fall along the answer |
| LinearIntersect.MeetLoop | exercise-sheet-03/intersect.h:22-41 | the two-cursor loop computes the merge walk |
| LinearIntersect.IntersectLinAsWritten | exercise-sheet-03/intersect.h:12-44 | for lists of different sizes it returns the merge walk, and for lists of equal size it returns the second list |
| LinearIntersect.IntersectLinAsWrittenExample | exercise-sheet-03/intersect.h:16-17 | [1] and [2] share no value, yet the result is [2] |
| LinearIntersect.IntersectLin | exercise-sheet-03/intersect.h:12-44 | with the shorter list as the first operand, the result is the merge walk of the two lists |
| LinearIntersect.IntersectLinCorrect | exercise-sheet-03/intersect.h:10-44 | on sorted lists the result is the multiset intersection, ascending, no longer than either list, and independent of argument order |
| LinearIntersect.MeetLength | exercise-sheet-03/intersect.h:22-41 | the result is no longer than either list, and empty when either is |
| StringKeyed.AddItem | exercise-sheet-02/inverted-index.cc:161-185 | the count grows by one and is returned, the lower-cased keyword becomes known, and every other keyword's list is unchanged |
| StringKeyed.ItemsIgnoresCase | exercise-sheet-02/inverted-index.cc:137-146 | lookup ignores case, and an unknown keyword has no items |
| StringKeyed.AddItemOccurrences | exercise-sheet-02/inverted-index.cc:161-185 | the keyword's occurrences gain exactly the new pair, under any spelling; other keywords are unchanged |
| StringKeyed.AddItemTwiceSameRecord | exercise-sheet-02/inverted-index.cc:174-178 | two occurrences of a new keyword in one record give a single item with both positions and score 2 |
| StringKeyed.AddItemValid | exercise-sheet-02/inverted-index.cc:161-185 | with non-decreasing record ids every list stays lower-case keyed, sorted, and one item per record |
| StringKeyed.AddAllOccurrences | exercise-sheet-02/inverted-index.cc:84-93 | after a run of additions a keyword holds its old occurrences followed by the run's occurrences of it, case ignored |
| StringKeyed.AddRecord | exercise-sheet-02/inverted-index.cc:148-152 | the new id is the previous number of records, the record is stored there, and earlier records and all item lists are kept; no size total exists |
| StringKeyed.ExtendRecord | exercise-sheet-02/inverted-index.cc:154-159 | Some iff the id is a record id; returns the old content length, appends the content there, and leaves other records and all item lists alone |
| StringKeyed.LoadLine | exercise-sheet-02/inverted-index.cc:73-93 | a line fails only when its url repeats the previous one while no record is current; otherwise one item is counted per keyword of the line |
| StringKeyed.LoadFromCorrect | exercise-sheet-02/inverted-index.cc:57-95 | from any loop state, loading fails exactly on a malformed line or an empty url on the very first line; the records are the earlier ones plus one per run of same-url lines, and one item is counted per keyword |
| StringKeyed.AddRecordsFromCsvCorrect | exercise-sheet-02/inverted-index.cc:57-95 | loading succeeds exactly when every line is well formed and the first url is not empty; later empty urls open records; one record per run of same-url lines, one item occurrence counted per keyword, and a consistent index stays consistent |
| StringKeyed.LoadLineItems | exercise-sheet-02/inverted-index.cc:73-93 | one loaded line appends to the items of every keyword exactly the line's occurrences of it, in the record and at the offset the record step gives |
| StringKeyed.LoadFromItems | exercise-sheet-02/inverted-index.cc:57-95 | from any loop state, the loop appends to the items of every keyword w exactly the occurrences of w in the lines it loads |
| StringKeyed.AddRecordsFromCsvItems | exercise-sheet-02/inverted-index.cc:57-95 | after loading, the (record, position) pairs of the items of every keyword w are the earlier ones followed by the same line-by-line occurrences as in the later loader |
| StringKeyed.AddRecordsFromCsvAscending | exercise-sheet-02/inverted-index.cc:86-92 | loading into a consistent index whose pairs for w ascend keeps them ascending, so the positions within each item of w strictly ascend |
| PlainIndex.AddRecord | exercise-01/inverted-index.cc:78-82 | the new id is the previous number of records, and the record is stored there |
| PlainIndex.AddRecordsDense | exercise-01/inverted-index.cc:78-82 | records added in a row get consecutive ids |
| PlainIndex.AddItem | exercise-01/inverted-index.cc:84-88 | the returned total is the old one plus one, and the keyword as spelled becomes known |
| PlainIndex.AddItemIds | exercise-01/inverted-index.cc:84-88 | the record id is appended, duplicates included, to exactly that spelling's list, so no case folding happens |
| PlainIndex.AddItemsIds | exercise-01/inverted-index.cc:84-88 | after a run of additions a spelling's list is its old list followed by the run's ids for that exact spelling |
| PlainQuery.KnownListsIff | exercise-01/query-processor.cc:30-43 | a list is intersected exactly when it is the non-empty list of a query word |
| PlainQuery.IntersectBlocks | exercise-01/query-processor.cc:45-88 | the output is whole blocks of one item per list with a common record id that is in every list; there are at most max_num blocks, and none when max_num is 0 |
| PlainQuery.IntersectAsWrittenExample | exercise-01/query-processor.cc:66-85 | for two lists [1, 2], record 1 is in both, yet the output is record 2 twice |
| PlainQuery.IntersectFixedCorrect | exercise-01/query-processor.cc:45-88 | the corrected intersection gives the blocks of the first min(max_num, #shared) shared records, ascending, each in every list, and all of them when there are at most max_num |
| PlainQuery.AnswerFixedCorrect | exercise-01/query-processor.cc:30-43 | the corrected answer on ascending lists is those blocks for the query's known words, and empty when none is known |

## Left out

- `RepairUtf8` (exercise-sheet-07/index.cc:23-82) is byte repair in place, separate from the index, and is not part of this model.
- `ComputeScores` uses floating-point `log2` and division. Scores are exact `real` counters and sums instead.
- The static keyword-density estimate in `ExtractKeywords` only sizes a reservation.
- `reserve` calls are not modelled. For the same reason neither are Rank's `num_keywords`, the sheet-02 `Intersect`'s `max_num`, nor `ReserveRecords`.
- Clocks, durations and profiling are not modelled. This covers `Clock`, `LastDuration`, `LastEdAvgDuration` and `profiler.h`.
- File I/O is not modelled: `AddRecordsFromCsvFile`, `ReadFile` and `FileSize` need the file system. Loading from text is modelled by `CsvLoading`, and for sheet 02 by `StringKeyed`.
- The exercise-01 loader reads a file line by line, so it is left out with the file I/O.
- The `*-main.cc` programs are interactive front ends and are not modelled.
- The k-means clustering of sheet 09 is floating-point vector arithmetic and is not modelled.
- NGramming.NGrams: requires n <= |w|+3. For a larger n, the source's unsigned count wraps around to a huge value, and `ngrams.reserve` (exercise-sheet-07/index.cc:208) throws `std::length_error`.
- NGramming.NGrams: requires 2 <= n in place of the assert `ngram_n > 1` (exercise-sheet-07/index.cc:202). Its caller `Fuzzy.BuildNGrams` returns `None` for n <= 1 before calling it.
- NGramming.NGramsOfParts: requires 2 <= n in place of the same assert. Its only caller is `Fuzzy.QueryNGrams`, which `Fuzzy.MatchIds` calls only after its own n > 1 test.
- SearchIndex.AddItem: requires kid to be a keyword id in place of the `keywordById` assert (exercise-sheet-07/index.cc:444, 492-495). Its only caller, the loader's `CsvLoading.AddOccurrence`, passes an id it has just looked up or added.
- Text in a multi-byte encoding such as UTF-8 is not modelled as bytes: each `char` is one byte, so positions and sizes count characters.
- The remaining copies are modelled once:
  - The sheet-05 `AddItem`, `AddRecordsFromCsv` and `ExtractKeywords` equal the sheet-07 ones.
  - The sheet-02 and exercise-01 `ExtractKeywords` equal them too, apart from the density estimate.
- `LastRecordsFound` (`last_num_records_`) is the second component of `Querying.Answer` and `Querying.AnswerUnranked`.
- In exercise 01 the index lookup is a parameter of `PlainQuery.Answer`: the query processor calls `Items` of an index whose header disagrees with its `.cc`.
- A negative `max_num` in exercise 01 is not modelled, because `max_num` is a `nat`.
- Querying.AnswerWritesKept: states where each answer item comes from, but not its score. The score, which is the record's summed score, is stated by `Ranking.RankCorrect`.
- Merging.Union: the merge's heap is modelled by its pop order (least head, ties to the lower list index), not as a heap.

## Findings

| source | as written | input that shows it | evidently intended | confidence | as-written member | corrected member |
|---|---|---|---|---|---|---|
| exercise-sheet-03/intersect.h:16-17 | `a` is `list1` only when strictly shorter and `b` is `list1` only when strictly longer, so equal sizes bind both to `list2` | `[1]`, `[2]` gives `[2]` | the intersection of the two lists | not executed | LinearIntersect.IntersectLinAsWrittenExample | LinearIntersect.IntersectLinCorrect |
| exercise-sheet-05/index.cc:114-116 | the middle loop fills slots 1 .. \|w\|-2n+2 only, so a slot stays "" whenever \|w\| >= n | "hallo", 3 gives "#ha", "hal", "", "", "lo#" | every middle slot i holds w[i-1 .. i-1+n], as in exercise-sheet-05/index-test.cc:151-152 | not executed | NGramming.NGramsEarlyHallo | NGramming.NGramsAreWindows |
| exercise-sheet-05/query-processor.cc:86-89 | the copy loop has no bound on `item_index`, so copying the last group reads `items[items.size()]` | one item of record 0, max_num 1 | stop at the end of the items | not executed | Ranking.RankAsWrittenExample | Ranking.RankCorrect |
| exercise-01/query-processor.cc:70-78 | the popped list is advanced before the check, and an exhausted list keeps its last index | lists `[1, 2]`, `[1, 2]` with max_num 2 give record 2 twice and never record 1 | the records in every list, as the doc at exercise-01/query-processor.h:17 says | not executed | PlainQuery.IntersectAsWrittenExample | PlainQuery.IntersectFixedCorrect |
