# Collocation and keyword-frequency libraries, modelled in Dafny

This project models the core of `hwzt_gitver`, a set of Python scripts that build two
libraries from articles already split into sentences and parsed by HanLP. The
**collocation library** is a table of (word1, word2, pos1, pos2, relation) keys with a
frequency. The **keyword-frequency library** is a table of (keyword, part of speech) keys
with a frequency. The model covers:

- **Per-sentence collocation extraction** (`CollocationGen`). Each dependency arc becomes
  one record, with its two words in sentence order. Then three rules run in the source's
  order:
  1. rule 1 drops `punct` and `root` arcs;
  2. rule 3 masks person names as `@` and numerals as `#`, in place;
  3. rule 2 keeps, for each `compound:nn` head, only the nearest compound row.

  The module also models the alternative extractor that pairs adjacent nouns, the
  three-case collocation table merge, the article reader, and the fold over a
  three-level corpus folder tree, with an optional warm start from an existing library.
- **Refinement of a collocation library** (`ColLibProcessing`). Rows pass a frequency
  threshold and two blacklists, then the table is reduced to (word1, word2) keys. Flag
  rule 1 marks pairs of single characters. Flag rule 2 is the two-pass windowed substring
  suppression over an array sorted in place. The flagged and unflagged rows are then
  partitioned and written in the `word1 word2:freq` text format.
- **Keyword counting** (`WordFreqGen`). The word-shape rule, (word, tag) counting per
  sentence and per article, the full-schema merge, and the corpus fold that skips missing
  corpus folders.
- **Merging collocation libraries** (`CollocationMerge`). The full-schema merge, folded
  over the `.csv` files of a folder in name order. A file that fails is skipped.
- **Keyword list processing** (`WordFreqProcessing`, `Filter1`):
  - the Chinese-only predicate;
  - the blacklist → regroup → threshold → set-difference pipeline, one output file per
    threshold;
  - the union with the existing word list;
  - the sorted union of two word lists;
  - the pair-list filter and the keyword frequency threshold.

Shared modules:

| module | what it holds |
|---|---|
| `Outcomes` | `Option` and `Result` |
| `Seqs` | filtering, mapping, subsequences, distinctness |
| `Text` | substring test, code-point order, Python's `str.strip`/`str.split`, integer formatting |
| `Sorting` | a key sort |
| `Tables` | count tables, the pandas `groupby(...).sum()` fold, the descending frequency sort |
| `Lines` | text files as lines |

Pandas tables are sequences of `Counted(key, count)` rows. A table's column set is the
`Table` datatype:
- `Full` tables have a frequency column;
- `Partial` tables have only the key columns;
- `Other` stands for any other column set.

The library `process_colib_data` reads is a `ColibLibrary`: its column names as a set,
and its rows. The run needs only the six columns it uses; extra columns are accepted.

Folders and files become values: a folder is the sequence of its entries in listing order,
each with a name and its parsed content, or `None` when reading it raises. The article
reader is passed to the corpus folds as a ghost function together with a predicate that
pins it to the model's own reader (`IsArticleReader`, `IsKeywordReader`). That way the
fold's proofs do not unfold the sentence rules.

Two behaviours of the code shape the model:

- **Warm start.** The code compares the warm-start library's column list with its own
  (`code/CollocationGen_v3.py:324-334`, `code/wordFrequencyLibraryGen_v1.py:83-90`). When
  the lists differ, by other columns or by the same columns in another order, it only
  prints a message and starts from an empty library. `WarmStart.Reordered` stands for the
  second case, and `StartRows` gives the empty table for both.
- **Compound rule.** Rule 2 compares the post-placeholder words with the unmasked tokens
  and measures distance by `sentTok.index`, the first occurrence. So a compound whose
  modifier is a person name or a numeral is dropped, unless the placeholder itself is a
  token of the sentence.
  `CollocationGen.PersonNameCompoundIsLost` shows a sentence where this happens.

## Model

| member | source | states |
|---|---|---|
| CollocationGen.ArcRecord | code/CollocationGen_v3.py:25-36 | a root arc (head 0) gives no record; any other arc gives one record whose word1/pos1 are the token at the smaller of the two positions and word2/pos2 the token at the larger, with the arc's relation |
| CollocationGen.BuildRecords | code/CollocationGen_v3.py:23-50 | the append loop succeeds exactly when every arc's tokens can be looked up (otherwise the IndexError case), and then yields the records of the arcs in arc order |
| CollocationGen.RecordsOfArcs | code/CollocationGen_v3.py:23-36 | the number of records equals the number of arcs with a non-zero head |
| CollocationGen.RecordsMembers | code/CollocationGen_v3.py:23-50 | a record is in the table exactly when some arc gives it |
| CollocationGen.Rule1Keeps | code/CollocationGen_v3.py:64-71 | rule 1 keeps exactly the rows whose relation is neither `punct` nor `root`, each as often as before, as a subsequence in the original order |
| CollocationGen.Placeholder | code/CollocationGen_v3.py:139-152 | masking keeps both tags and the relation, and leaves a word alone unless its own tag is `nr` or `m` |
| CollocationGen.PlaceholderIdempotent | code/CollocationGen_v3.py:139-152 | masking twice is masking once |
| CollocationGen.Rule3 | code/CollocationGen_v3.py:128-154 | the in-place overwrite turns every row of the array into its masked row |
| CollocationGen.Rule3Rows | code/CollocationGen_v3.py:139-152 | rule 3 keeps the row count, both tags and the relation of every row, and sets a word to `@` when its own tag is `nr` and to `#` when it is `m` |
| CollocationGen.FirstIndex | code/CollocationGen_v3.py:102 | `sentTok.index(w)` is a position holding `w` with no earlier position holding it |
| CollocationGen.Nearest | code/CollocationGen_v3.py:91-105 | the row kept for a head, if any, is a row of the table that is a compound row ending at the head's token with its first word in the sentence |
| CollocationGen.NearestIsNearest | code/CollocationGen_v3.py:96-105 | no row is kept exactly when no row is a candidate; the kept row has the smallest distance of all candidates and a strictly smaller one than every earlier candidate, so on a tie the first in table order wins |
| CollocationGen.ScanNearest | code/CollocationGen_v3.py:92-105 | the scan with its running minimum distance returns the row `Nearest` names |
| CollocationGen.PicksCount | code/CollocationGen_v3.py:84-112 | at most one row is picked per distinct compound head |
| CollocationGen.PicksFacts | code/CollocationGen_v3.py:91-112 | every picked row is a compound row of the table and is the nearest candidate of some compound head |
| CollocationGen.Rule2 | code/CollocationGen_v3.py:76-124 | the head loop with its inner scan computes the non-compound rows followed by one nearest row per head, heads in ascending order |
| CollocationGen.Rule2Keeps | code/CollocationGen_v3.py:114-122 | rule 2 keeps every non-compound row as often as before, and leaves at most as many compound rows as there are distinct `compound:nn` heads |
| CollocationGen.SentenceRows | code/CollocationGen_v3.py:15-57 | a sentence's processing raises exactly when some arc points outside the token or tag list; otherwise every row of its table is the masked form of an arc's record whose relation rule 1 keeps, and every such record that is not a compound row appears masked in the table |
| CollocationGen.SingleSentenceProcess | code/CollocationGen_v3.py:15-57 | the sentence table is rule 1, then rule 3, then rule 2 applied to the arc records, or nothing when an arc points outside the sentence |
| CollocationGen.PersonNameCompoundIsLost | code/CollocationGen_v3.py:99-102 | the sentence 张三/nr 老师/n, with the arc 张三 →compound:nn→ 老师, yields an empty table: the masked `@` is not a token, so the compound row is dropped |
| CollocationGen.NounPairsMember | code/CollocationGen_v3.py:210-257 | a record is produced exactly when it pairs two adjacent positions whose tags are both nouns, labelled `compound:nn` |
| CollocationGen.RunPairs | code/CollocationGen_v3.py:217-236 | a run of k nouns gives k−1 compound records when k ≥ 2 and none otherwise |
| CollocationGen.RunPairsSnoc | code/CollocationGen_v3.py:214-222 | extending a run by one noun adds exactly the record pairing the run's last noun with the new one |
| CollocationGen.EmitRun | code/CollocationGen_v3.py:241-257 | flushing a run appends exactly the run's pairs to the table |
| CollocationGen.OnlyNn | code/CollocationGen_v3.py:190-259 | the single scan, with its run list appended to and cleared and a final flush, yields exactly the pairs of adjacent noun tokens in sentence order |
| CollocationGen.MergeLibrary | code/CollocationGen_v3.py:157-188 | the merge succeeds exactly for full+partial, partial+full and full+full tables; partial rows then count 1 each, and the result is full, grouped, holds the keys of both, and gives every key the sum of both tables' frequencies (any other combination is the ValueError) |
| CollocationGen.MergeLibraryEmpty | code/CollocationGen_v3.py:364-388 | the empty full table the folder fold starts from is an identity on grouped full tables on either side, and turns a partial table into its key counts |
| CollocationGen.ArticleSpecDefined | code/CollocationGen_v3.py:279-293 | an article is read exactly when every one of its zipped sentences is in range |
| CollocationGen.NoneStaysNone | code/CollocationGen_v3.py:279-293 | once one sentence raises, the article as a whole yields nothing |
| CollocationGen.ReadArticle | code/CollocationGen_v3.py:262-295 | the sentence loop concatenates the tables of the zipped sentences, or yields nothing when one raises |
| CollocationGen.MergeArticle | code/CollocationGen_v3.py:371-392 | one pass of the article loop adds each record of a processed `.json` article once to its key's count, adds exactly those records' keys and keeps keys unique; a non-`.json`, unreadable or raising file changes nothing |
| CollocationGen.ProcessFolder | code/CollocationGen_v3.py:364-392 | a folder's table is full and grouped, counts every record of its processed articles and holds exactly their keys |
| CollocationGen.MergeFolder | code/CollocationGen_v3.py:394-401 | merging a folder's table adds exactly the folder's record counts and record keys to the library |
| CollocationGen.MergeInnerFolders | code/CollocationGen_v3.py:358-401 | the inner folder loop adds the record counts and keys of all its folders to the library |
| CollocationGen.CorpusProcessAndMerge | code/CollocationGen_v3.py:298-448 | a missing corpus folder gives no output; otherwise the output starts from the warm start, counts every record of every processed article of the tree, holds exactly the keys of the warm start and of those records, is sorted by descending frequency, and is grouped when the warm start is or the corpus holds an inner folder |
| ColLibProcessing.Rule1Row | code/ColLibProcessing.py:122-127 | the flag is set exactly when it was set or both words have one character; words and frequency stay and a set flag is never cleared |
| ColLibProcessing.Rule1 | code/ColLibProcessing.py:118-128 | the in-place overwrite applies that rule to every row of the array |
| ColLibProcessing.ScanUp | code/ColLibProcessing.py:153-158 | the upward search finds a hit exactly when some earlier row within the window, and in the same anchor run, contains the probed word |
| ColLibProcessing.ScanDown | code/ColLibProcessing.py:160-165 | the same for later rows |
| ColLibProcessing.SweepRows | code/ColLibProcessing.py:150-165 | one pass over the array sets exactly the flags the window specification gives, judged on the words the array held before the pass |
| ColLibProcessing.VisitRow | code/ColLibProcessing.py:151-165 | visiting row i writes that row's specified flag and leaves every other row unchanged |
| ColLibProcessing.SortRows | code/ColLibProcessing.py:147 | the in-place sort leaves the array holding the key-sorted permutation of its rows |
| ColLibProcessing.Rule2 | code/ColLibProcessing.py:131-186 | the two sorts and two passes turn the array into the specified result, using a window of `search_index` = 60 |
| ColLibProcessing.SweepRaises | code/ColLibProcessing.py:150-165 | a pass only raises flags: words and frequency stay, and a set flag stays set |
| ColLibProcessing.Rule2OnlyRaisesFlags | code/ColLibProcessing.py:147-185 | rule 2's result has the same number of rows, a permutation of the input sorted twice, and differs from it only by flags raised from unset to set |
| ColLibProcessing.FlaggedOnSorted | code/ColLibProcessing.py:150-165 | on rows sorted by the anchor column, a row is flagged exactly when its probed word has one character and some other row within the window, in the same anchor run, contains it |
| ColLibProcessing.Isolated | code/ColLibProcessing.py:153-165 | a row whose neighbours on both sides have another anchor word is never flagged |
| ColLibProcessing.Rule2Example | code/ColLibProcessing.py:147-185 | on 书本/看, 读/书 and 书/看, only 书/看 is flagged |
| ColLibProcessing.FilterLibrary | code/ColLibProcessing.py:67-76 | exactly the rows with frequency at least the threshold, a relation off the relation blacklist and neither tag on the tag blacklist are kept, each as often as before, in order |
| ColLibProcessing.ProjectedCounts | code/ColLibProcessing.py:81 | dropping the tag and relation columns keeps each row's count, so each (word1, word2) pair sums the counts of its rows and the total mass is kept |
| ColLibProcessing.Reduce | code/ColLibProcessing.py:81-82 | the reduced table has unique (word1, word2) keys, exactly the pairs of the input, each with the sum of its rows' frequencies, and the same total |
| ColLibProcessing.ReducedAboveThreshold | code/ColLibProcessing.py:67-82 | after filtering and reduction every row still has frequency at least the (non-negative) threshold |
| ColLibProcessing.Rule2KeepsRows | code/ColLibProcessing.py:147-185 | with the flags ignored, rule 2 keeps the multiset of (word1, word2, frequency) rows |
| ColLibProcessing.RefinedRows | code/ColLibProcessing.py:81-90 | with the flags ignored, the rows after both flag rules are the reduced rows |
| ColLibProcessing.RefinedAboveThreshold | code/ColLibProcessing.py:67-90 | every refined row has frequency at least the threshold |
| ColLibProcessing.Partition | code/ColLibProcessing.py:107-112 | the flagged and unflagged rows together are the refined rows, as a multiset, and each part holds exactly the rows with its flag |
| ColLibProcessing.ParseLine | code/ColLibProcessing.py:26-28 | reading a `word1 word2:freq` line back gives an unflagged row whose first word has no space |
| ColLibProcessing.ParseFields | code/ColLibProcessing.py:26-28 | a line built from a space-free first word, a second word and an integer text reads back as those three fields |
| ColLibProcessing.FormatParse | code/ColLibProcessing.py:26-28 | a formatted row reads back as itself without its flag when its first word has no space |
| ColLibProcessing.FormatAmbiguous | code/ColLibProcessing.py:26-28 | the format is ambiguous when a first word holds a space: two different rows format to the same line |
| ColLibProcessing.SuffixValue | code/ColLibProcessing.py:16-20 | the file name suffix is `_n=10_sI=60.txt` |
| ColLibProcessing.SaveToTxt | code/ColLibProcessing.py:9-33 | the file written is the path with the suffix, holding the rows sorted by (word1, word2), one formatted line each |
| ColLibProcessing.TxtRoundTrip | code/ColLibProcessing.py:23-33 | split at line breaks, the file gives one line per row plus an empty tail, and line i reads back as the i-th row in (word1, word2) order |
| ColLibProcessing.ReduceEmpty | code/ColLibProcessing.py:81-82 | the reduced table is empty exactly when no row survived the masks |
| ColLibProcessing.RefineAndSave | code/ColLibProcessing.py:66-112 | when no row survives the masks the run stops with nothing written; otherwise it succeeds, the suffixed result path lists the unflagged refined rows and, when an auxiliary path is given, the suffixed auxiliary path the flagged ones; when the auxiliary path equals the result path, the result file is written last and is the only file left |
| ColLibProcessing.Disk | code/ColLibProcessing.py:106-112 | the files on disk after a run are the result path and, when written, the auxiliary path; the result file, written last, holds the result content |
| ColLibProcessing.DiskSamePath | code/ColLibProcessing.py:106-112 | when the auxiliary path equals the result path, the result file overwrites the auxiliary file and is the only one left |
| ColLibProcessing.ProcessColibData | code/ColLibProcessing.py:36-115 | the result path as given already existing, then the auxiliary path as given already existing, then a missing library, then a library lacking one of the six columns the run uses (extra columns are accepted) each stop the run with nothing written; past those checks the run succeeds exactly when some row survives the masks, and then writes the suffixed paths as `RefineAndSave` states, whether or not they exist |
| ColLibProcessing.GuardMissesWrittenFile | code/ColLibProcessing.py:56-59 | with `colib_n=10_sI=60.txt` on disk and the result path `colib`, the checks as written pass although the file to be written exists |
| ColLibProcessing.ProcessColibDataGuarded | code/ColLibProcessing.py:36-115 | the same run with the checks on the suffixed paths: the same error order and success condition, and a run that succeeds writes no path that already existed |
| WordFreqGen.Rule1AdmitsLineBreak | code/wordFrequencyLibraryGen_v1.py:23 | the rule as written accepts "中\n", which the intended rule rejects |
| WordFreqGen.Rule1Agrees | code/wordFrequencyLibraryGen_v1.py:17-25 | the intended rule implies the written one; the two agree on words without a line break; they differ only on a trailing line break after a Han word |
| WordFreqGen.KeepsKeywordAgrees | code/wordFrequencyLibraryGen_v1.py:17-32 | every position counted here is one the code as written counts; on words without a line break the two position filters agree, and they differ only on a word ending in one |
| WordFreqGen.SentenceKeysKept | code/wordFrequencyLibraryGen_v1.py:31-32 | every counted key is a (word, tag) at some position that passes the tag set and rule 1, and there are at most as many as positions |
| WordFreqGen.CountInGroups | code/wordFrequencyLibraryGen_v1.py:30-35 | the dictionary count of a key sequence is the grouped table of one count per occurrence |
| WordFreqGen.SingleSentenceProcess | code/wordFrequencyLibraryGen_v1.py:28-35 | the counting loop over the zipped tokens and tags yields the grouped counts of the kept (word, tag) positions |
| WordFreqGen.CountPosition | code/wordFrequencyLibraryGen_v1.py:32-34 | a kept position adds one to its key's count; another leaves the dictionary as it is |
| WordFreqGen.SentenceTable | code/wordFrequencyLibraryGen_v1.py:31-34 | a sentence's table has unique keys, counts each kept (word, tag) by its occurrences, holds only keys passing the filter, and its counts sum to at most the sentence length |
| WordFreqGen.AddCounts | code/wordFrequencyLibraryGen_v1.py:52-53 | adding a sentence's dictionary into the article's adds each of its counts to its key |
| WordFreqGen.AddSentence | code/wordFrequencyLibraryGen_v1.py:49-53 | one sentence step keeps keys unique and extends the counts and the key set by that sentence's kept keys |
| WordFreqGen.ReadArticle | code/wordFrequencyLibraryGen_v1.py:38-56 | the article table has each key once, with the number of its kept occurrences in all zipped sentences, and holds exactly the kept keys |
| WordFreqGen.MergeLibrary | code/wordFrequencyLibraryGen_v1.py:59-68 | the merge succeeds exactly for two full tables (otherwise the ValueError); the result is full, grouped, holds the keys of both and sums their frequencies per (keyword, tag) |
| WordFreqGen.MergeLibraryEmpty | code/wordFrequencyLibraryGen_v1.py:125-145 | merging into the empty full table regroups the other table, and returns a grouped table unchanged |
| WordFreqGen.MergeArticle | code/wordFrequencyLibraryGen_v1.py:128-149 | one pass of the article loop adds the keywords of a readable `.json` file to the counts and to the keys and keeps keys unique; any other file changes nothing |
| WordFreqGen.ProcessFolder | code/wordFrequencyLibraryGen_v1.py:125-149 | a folder's table is grouped, counts every keyword of its readable articles and holds exactly the keywords counted at least once |
| WordFreqGen.MergeFolder | code/wordFrequencyLibraryGen_v1.py:152-158 | merging a folder's table adds exactly its counts and its keywords to the library |
| WordFreqGen.MergeInnerFolders | code/wordFrequencyLibraryGen_v1.py:120-158 | the inner folder loop adds the counts and keywords of all its folders |
| WordFreqGen.MergeRoot | code/wordFrequencyLibraryGen_v1.py:114-158 | the outer folder loop of one corpus root adds the counts and keywords of its whole tree, and gives a grouped table when the library is grouped or the tree holds an inner folder |
| WordFreqGen.MergeTree | code/wordFrequencyLibraryGen_v1.py:103-158 | a corpus root that does not exist leaves the library as it is; one that exists adds the counts and keywords of its whole tree |
| WordFreqGen.CorpusProcessAndMerge | code/wordFrequencyLibraryGen_v1.py:72-189 | missing corpus roots are skipped; the output starts from the warm start, adds the counts of every root that exists, holds exactly the keywords of the warm start and those counted at least once, is sorted by descending frequency, and is grouped when the warm start is or some root holds an inner folder |
| WordFreqGen.CorpusLibraryKept | code/wordFrequencyLibraryGen_v1.py:103-158 | a key whose count the corpus changed passes the tag set and rule 1 |
| CollocationMerge.MergeLibrary | code/CollocationMerge_v1.py:13-24 | the merge succeeds exactly for two full tables (otherwise the ValueError); the result is full, grouped, holds the keys of both and sums their frequencies per five-column key |
| CollocationMerge.MergeLibraryEmpty | code/CollocationMerge_v1.py:53-64 | merging into the initial empty full table regroups the other table, and returns a grouped table unchanged |
| CollocationMerge.CsvFiles | code/CollocationMerge_v1.py:44-50 | the files folded are exactly the folder's `.csv` files, each as often as it is listed, in ascending name order |
| CollocationMerge.MergeFile | code/CollocationMerge_v1.py:58-68 | a file that is read with the full columns adds its frequencies and keys to the accumulator; a file that fails to read or to merge leaves the accumulator as it was |
| CollocationMerge.MergeFiles | code/CollocationMerge_v1.py:53-68 | the fold gives a grouped table holding exactly the keys of the files merged, with, per key, the sum of their frequencies |
| CollocationMerge.CorpusMerge | code/CollocationMerge_v1.py:27-97 | a missing folder or one without `.csv` files gives no output; otherwise the output is grouped, holds exactly the merged files' keys, sums their frequencies per key and is sorted by descending frequency |
| WordFreqProcessing.AllChineseFacts | code/wordFreqLibProcessing.py:47-49 | the predicate holds for the empty string, holds for a concatenation exactly when it holds for both parts, and excludes line breaks and whitespace |
| WordFreqProcessing.Rule1IsAllChinese | code/wordFreqLibProcessing.py:47-49 | every word the generator's (intended) rule 1 admits passes the Chinese-only predicate |
| WordFreqProcessing.Screen | code/wordFreqLibProcessing.py:59-63 | exactly the rows whose tag is off the blacklist and whose keyword is all Chinese are kept, each as often as before, in order |
| WordFreqProcessing.ByWord | code/wordFreqLibProcessing.py:66 | regrouping by keyword gives unique keys, exactly the keywords of the rows, each with the sum of its rows' frequencies, and the same total |
| WordFreqProcessing.Grouped | code/wordFreqLibProcessing.py:56-66 | the screened and regrouped table has unique keys |
| WordFreqProcessing.GroupedFacts | code/wordFreqLibProcessing.py:59-66 | the grouped table's keywords are all Chinese, are exactly the keywords of screened rows, and carry the summed frequencies of those rows |
| WordFreqProcessing.NewWordsFacts | code/wordFreqLibProcessing.py:72-77 | a keyword is selected exactly when some row of it meets the threshold and the word list lacks it; with unique keys there are no repeats |
| WordFreqProcessing.ResultWordsFacts | code/wordFreqLibProcessing.py:72-79 | the sorted list holds exactly those keywords, in ascending code-point order, and strictly ascending for a grouped table |
| WordFreqProcessing.ResultWordsByCount | code/wordFreqLibProcessing.py:72-79 | for a grouped table, a keyword is listed exactly when its frequency reaches the threshold and the word list lacks it |
| WordFreqProcessing.ThresholdMonotone | code/wordFreqLibProcessing.py:74 | for n1 ≤ n2 the list for n2 is contained in the list for n1 |
| WordFreqProcessing.KeywordsFileLines | code/wordFreqLibProcessing.py:72-88 | read back, the threshold file lists in strictly ascending order exactly the screened keywords whose summed frequency reaches the threshold and that the word list lacks |
| WordFreqProcessing.WriteKeywordsFile | code/wordFreqLibProcessing.py:82-88 | the write loop produces the threshold file, one keyword per line |
| WordFreqProcessing.WriteThresholdFiles | code/wordFreqLibProcessing.py:72-88 | the threshold loop writes one file per threshold, in the order of the thresholds |
| WordFreqProcessing.FilterKeywords | code/wordFreqLibProcessing.py:52-88 | the files written are the threshold files of the screened, regrouped table against the word list |
| WordFreqProcessing.CombinedIsResultPlusOrigin | code/wordFreqLibProcessing.py:110-116 | the union written by the include-origin variant is the list `filter_keywords` writes plus the word list |
| WordFreqProcessing.CombinedMonotone | code/wordFreqLibProcessing.py:110-116 | the word list is always included, and a higher threshold never adds a word |
| WordFreqProcessing.CombineThreshold | code/wordFreqLibProcessing.py:108-122 | one pass writes the union of the keywords meeting the threshold and the word list |
| WordFreqProcessing.CombineThresholds | code/wordFreqLibProcessing.py:108-122 | one union file per threshold, in order |
| WordFreqProcessing.FilterKeywordsIncludeOrigin | code/wordFreqLibProcessing.py:91-122 | the files written are the union files of the screened, regrouped table and the word list |
| WordFreqProcessing.AddStrippedLines | code/wordFreqLibProcessing.py:33-36 | reading a file adds exactly its stripped lines to the word set |
| WordFreqProcessing.AddStripped | code/wordFreqLibProcessing.py:35-36 | the line loop adds exactly the stripped lines read |
| WordFreqProcessing.SetToSeq | code/wordFreqLibProcessing.py:39 | listing a set gives each of its words exactly once |
| WordFreqProcessing.MergeAndSortTxtFiles | code/wordFreqLibProcessing.py:10-44 | a missing first file, then a missing second file, is the FileNotFoundError; otherwise the output file lists, one per line and in strictly ascending order, exactly the stripped lines of both files |
| Filter1.ParsePairLine | code/filter1.py:10 | a stripped line parses exactly when it holds one `，`; the pair is the text before and after it; otherwise the error records the number of parts |
| Filter1.ParsePairRoundTrip | code/filter1.py:10-11 | a line made of two words without `，` around one `，` parses back to those words when they carry no outer whitespace |
| Filter1.PairsOfFacts | code/filter1.py:8-11 | the pair set is read exactly when every line parses, and then holds exactly the lines' pairs; otherwise the error is that of the first bad line |
| Filter1.CollectLines | code/filter1.py:8-11 | the loop that adds each parsed line's pair stops at the first bad line with its error |
| Filter1.ReadPairs | code/filter1.py:7-11 | reading the pair file gives the pair set of its lines, or the first line error |
| Filter1.ListedRows | code/filter1.py:17 | exactly the rows whose (word1, word2) is in the pair set are kept, each as often as before, as a subsequence in the original order |
| Filter1.FilterPairs | code/filter1.py:5-19 | a bad pair file is the error; otherwise the result is the listed rows of the table |
| Filter1.FrequentKeywords | code/filter1.py:27 | exactly the rows with frequency at least n are kept, each as often as before, in order |
| Tables.GroupSum | code/CollocationGen_v3.py:181-182 | `groupby(...).sum()` gives unique keys, the same key set, the summed count of each key and the same total |
| Tables.Regroup | code/CollocationGen_v3.py:181-182 | concatenating two tables and regrouping gives unique keys, the keys of both, per key the sum of both counts, and the sum of both totals |
| Tables.RegroupCommutes | code/CollocationGen_v3.py:181-182 | merging in either order gives the same counts |
| Tables.RegroupAssociates | code/CollocationGen_v3.py:181-182 | folding three tables in either grouping gives the same counts |
| Tables.GroupSumIdempotent | code/CollocationGen_v3.py:181-182 | a table is left unchanged by regrouping exactly when its keys are unique |
| Tables.SortByCount | code/CollocationGen_v3.py:438-440 | the descending frequency sort is a permutation in descending order of counts |
| Tables.SortByCountKeeps | code/CollocationGen_v3.py:438-440 | sorting keeps every key's count, the key set and unique keys |
| Sorting.Sort | code/ColLibProcessing.py:147 | `sort_values(by=[...])` gives a permutation of the rows in ascending key order |
| Sorting.SortStrings | code/wordFreqLibProcessing.py:79 | `sorted` of words gives a permutation in ascending code-point order |
| Text.Contains | code/ColLibProcessing.py:145 | `a in b` on strings holds exactly when `a` occurs in `b` at some position |
| Text.Strip | code/filter1.py:10 | `str.strip()` gives a slice of the input without leading or trailing whitespace |
| Text.StripIdempotent | code/wordFreqLibProcessing.py:36 | stripping twice is stripping once |
| Text.SplitJoin | code/filter1.py:10 | joining the parts of `str.split(sep)` with the separator gives the input back |
| Text.SplitCount | code/filter1.py:10 | `str.split(sep)` gives one more part than the separator occurs |
| Text.IntRoundTrip | code/ColLibProcessing.py:27 | the decimal text of a frequency is a digit, or a minus sign with at least one digit after it, followed by digits, and parses back to the frequency |
| Lines.WriteLines | code/ColLibProcessing.py:31-33 | the write loop produces each line followed by a line break, in order |
| Lines.FileLinesUnlines | code/wordFreqLibProcessing.py:34-36 | reading back a file written line by line gives its lines |

## Left out

- `code/articalFileFolder2json_custom_split_sentence_v1.py` is not part of this model. It
  is HanLP model loading (a foreign library), regex sentence splitting and resume
  bookkeeping. Parsed articles are inputs.
- Directory walking and existence checks are inputs:
  - a folder is a sequence of named entries in listing order, or `None` when it is
    missing;
  - the paths already on disk are a set parameter;
  - `os.makedirs` is left out.
- CSV and JSON reading and writing, and the `utf-8-sig` encoding, are left out. A file
  read is a parsed value or `None`. A file written is a path and a content, or a word
  set.
- Progress bars, profiling, garbage collection, timestamps in file names and printed
  messages are left out. They have no bearing on the results.
- `MemoryError` is left out. The model has no memory bound. The other caught exceptions
  are modelled as "skip this unit, keep the accumulator".
- The per-`folder1` temporary saves in both corpus functions are left out. These are
  `code/CollocationGen_v3.py:403-428` and `code/wordFrequencyLibraryGen_v1.py:160-178`.
  They write a copy and do not change the accumulator.
- The `main` functions and the path settings of `code/CoGenConfig.py` are left out. The
  thresholds, window, blacklists and noun tags are parameters or constants
  (`ColLibProcessing.FreqN`, `ColLibProcessing.SearchIndex`, `ColLibProcessing.ExcludeDep`,
  `ColLibProcessing.ExcludePos`).
- `filter_keywords_test` (`code/wordFreqLibProcessing.py:125-185`) is left out. It is a
  debugging variant ordered by pinyin, a foreign library.
- The tab-separated file that `filter_keywords` in `code/filter1.py:29` writes is left
  out. The model gives the filtered rows.
- Pandas dtype coercion, missing values and index resets are left out. Column order
  is modelled only on warm start, the one place the code compares column lists.
- Table row order after `groupby` is left out. The model keeps first-occurrence order;
  pandas sorts the keys. No contract states this order, except where the source sorts
  explicitly.
- Universal-newline translation of `\r\n` when Python reads a text file is left out.
  Files are split at `\n` only.
- CollocationGen.Rule2: visits the `compound:nn` heads in ascending order. Python
  iterates a `set` of small integers in an order CPython does not promise. The order of
  the nearest rows after the non-compound rows rests on this.
- CollocationGen.SingleSentenceProcess: an arc that points outside the sentence is
  modelled as the sentence (and so its article) yielding nothing. Python raises
  `IndexError`, caught per article at `code/CollocationGen_v3.py:391-392`.
- CollocationGen.MergeLibrary: does not model that the partial input table has its
  frequency column added in place (`code/CollocationGen_v3.py:170-172`). Every caller
  rebinds its accumulator to the result, so nothing observes the change.
- CollocationGen.CorpusProcessAndMerge: states descending frequency order but not the
  order among equal frequencies. Pandas' default sort is not stable. The same holds for
  WordFreqGen.CorpusProcessAndMerge and CollocationMerge.CorpusMerge.
- WordFreqProcessing.FilterKeywordsIncludeOrigin: models each output file as a word set,
  not a list in pinyin order. `lazy_pinyin` is a foreign library.
  The same holds for WordFreqProcessing.CombineThreshold and
  WordFreqProcessing.CombineThresholds, which write the union files
  (`code/wordFreqLibProcessing.py:116-122`).
- CollocationGen.CorpusProcessAndMerge: assumes every entry of the corpus folder and of
  each `folder1` is a directory. The code lists them with `os.listdir` outside any `try`
  (`code/CollocationGen_v3.py:346`, `:354` and `:362`). A plain file there, such as a
  `.DS_Store`, or a corpus path that is a file, raises `NotADirectoryError`. That aborts
  the whole run, and no library is written. The model has no such entry and no abort.
- WordFreqGen.CorpusProcessAndMerge: the same assumption, for the `os.listdir` calls at
  `code/wordFrequencyLibraryGen_v1.py:109`, `:116` and `:122`. An existing corpus root
  that is a file passes the `os.path.exists` test at line 104 and then aborts the run.
  The same holds for WordFreqGen.MergeRoot, WordFreqGen.MergeTree and
  WordFreqGen.MergeInnerFolders, which build on it.
- CollocationMerge.CorpusMerge: assumes the library path, once it exists, is a folder.
  A plain file at that path passes the `os.path.exists` test at
  `code/CollocationMerge_v1.py:34`. `os.listdir` at line 44 then raises
  `NotADirectoryError` and aborts the run. The model has no abort result.
- ColLibProcessing.ProcessColibData: the error results stand for the message the caught
  exception prints. In every error case nothing is written. `NoRowsLeft` rests on
  pandas' `apply` on an empty frame returning a frame, which the single-column
  assignment to `is_del` rejects (`code/ColLibProcessing.py:122-127`).
- WordFreqGen.SingleSentenceProcess: counts with the corrected rule 1 of the Findings
  table, not with the `re.match` as written, so a token such as "中\n" with a wanted tag
  is not counted. `WordFreqGen.KeepsKeywordAgrees` shows this is the only difference.
- WordFreqGen.SentenceKeysKept: states the corrected rule 1, as above.
- WordFreqGen.CountPosition: tests the corrected rule 1, as above. The same holds for
  WordFreqGen.SentenceTable, WordFreqGen.AddSentence, WordFreqGen.ReadArticle,
  WordFreqGen.CorpusProcessAndMerge and WordFreqGen.CorpusLibraryKept, which build on it.

## Findings

| source | as written | input that shows it | evidently intended | confidence | as-written member | corrected member |
|---|---|---|---|---|---|---|
| code/wordFrequencyLibraryGen_v1.py:23 | a length check of 2 to 6 and a `re.match` pattern anchored by `^` and `$` over U+4E00..U+9FA5; `$` also matches just before a final line break | "中\n" (length 2) is accepted | only words of 2 to 6 characters, every one in U+4E00..U+9FA5 (for example `re.fullmatch`) | not executed | WordFreqGen.Rule1AdmitsLineBreak | WordFreqGen.Rule1Agrees |
| code/ColLibProcessing.py:56-59 | the checks for an existing output test `result_file` and `aux_result_file` as given, while `save_to_txt` writes them with `_n=10_sI=60.txt` appended (`code/ColLibProcessing.py:18-20`) | result path `colib` with `colib_n=10_sI=60.txt` already on disk: the checks pass and the file is overwritten | refuse to run when a file the run writes already exists | not executed | ColLibProcessing.GuardMissesWrittenFile | ColLibProcessing.ProcessColibDataGuarded |
