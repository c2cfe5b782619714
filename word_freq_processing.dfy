/** Post-processing of the keyword library: screening its rows by part of speech and
    script, regrouping them by keyword, listing per frequency threshold the keywords a
    word list does not yet hold (or the union with that list), and merging two word lists. */
module WordFreqProcessing {
  import opened Outcomes
  import opened Text
  import opened Seqs
  import opened Sorting
  import opened Tables
  import opened Lines
  import WordFreqGen

  /** A keyword-library row's key: (关键词, 词性), the keyword and its part of speech. */
  type Keyword = WordFreqGen.Keyword

  // ---------------------------------------------------------------------------
  // `is_all_chinese`

  const ChineseFirst: char := '\U{4E00}'
  const ChineseLast: char := '\U{9FFF}'

  predicate IsChinese(c: char)
  {
    ChineseFirst <= c <= ChineseLast
  }

  /** Every character lies in U+4E00..U+9FFF; the empty string qualifies. */
  predicate IsAllChinese(s: string)
  {
    forall i :: 0 <= i < |s| ==> IsChinese(s[i])
  }

  /** The test holds vacuously on the empty string, splits over concatenation, and a
      Chinese string holds neither a line break nor whitespace. */
  lemma AllChineseFacts(a: string, b: string)
    ensures IsAllChinese("")
    ensures IsAllChinese(a + b) <==> IsAllChinese(a) && IsAllChinese(b)
    ensures IsAllChinese(a) ==> '\n' !in a && forall i :: 0 <= i < |a| ==> !IsSpace(a[i])
  {
    if IsAllChinese(a + b) {
      forall i | 0 <= i < |a| ensures IsChinese(a[i]) {
        assert a[i] == (a + b)[i];
      }
      forall i | 0 <= i < |b| ensures IsChinese(b[i]) {
        assert b[i] == (a + b)[|a| + i];
      }
    }
    if IsAllChinese(a) {
      forall i | 0 <= i < |a| ensures a[i] != '\n' && !IsSpace(a[i]) {
        assert IsChinese(a[i]);
      }
    }
  }

  /** Every keyword the library generator keeps passes the test: its range U+4E00..U+9FA5
      lies inside this one. */
  lemma Rule1IsAllChinese(w: string)
    requires WordFreqGen.Rule1(w)
    ensures IsAllChinese(w)
  {
    forall i | 0 <= i < |w| ensures IsChinese(w[i]) {
      assert WordFreqGen.IsHan(w[i]);
    }
  }

  // ---------------------------------------------------------------------------
  // Screening and regrouping the keyword table

  /** A row survives the two masks: its part of speech is not blacklisted and its keyword
      is all Chinese. */
  predicate Screened(c: Counted<Keyword>, blacklist: set<string>)
  {
    c.key.1 !in blacklist && IsAllChinese(c.key.0)
  }

  /** `df[~df["词性"].isin(blacklist)]` followed by `df[df["关键词"].apply(is_all_chinese)]`. */
  function Screen(rows: seq<Counted<Keyword>>, blacklist: set<string>): (r: seq<Counted<Keyword>>)
    ensures IsSubsequence(r, rows)
    ensures forall c :: c in r <==> c in rows && Screened(c, blacklist)
    ensures forall c :: multiset(r)[c] == if Screened(c, blacklist) then multiset(rows)[c] else 0
  {
    var allowed := (c: Counted<Keyword>) => c.key.1 !in blacklist;
    var chinese := (c: Counted<Keyword>) => IsAllChinese(c.key.0);
    var m1 := Filter(rows, allowed);
    var m2 := Filter(m1, chinese);
    FilterFacts(rows, allowed);
    FilterFacts(m1, chinese);
    SubsequenceTrans(m2, m1, rows);
    m2
  }

  /** A row reduced to its keyword and frequency. */
  function WordRow(c: Counted<Keyword>): Counted<string>
  {
    Counted(c.key.0, c.count)
  }

  /** The frequency the rows give keyword `w`, over every part of speech. */
  function WordCount(rows: seq<Counted<Keyword>>, w: string): int
  {
    if |rows| == 0 then 0
    else (if rows[0].key.0 == w then rows[0].count else 0) + WordCount(rows[1..], w)
  }

  /** The keywords the rows hold. */
  function Words(rows: seq<Counted<Keyword>>): set<string>
  {
    set c | c in rows :: c.key.0
  }

  lemma {:induction false} ProjectedWordCounts(rows: seq<Counted<Keyword>>)
    ensures forall w :: SumFor(MapSeq(WordRow, rows), w) == WordCount(rows, w)
    ensures Total(MapSeq(WordRow, rows)) == Total(rows)
  {
    if |rows| > 0 {
      ProjectedWordCounts(rows[1..]);
      assert MapSeq(WordRow, rows)[1..] == MapSeq(WordRow, rows[1..]);
    }
  }

  lemma ProjectedWords(rows: seq<Counted<Keyword>>)
    ensures KeySet(MapSeq(WordRow, rows)) == Words(rows)
  {
    var m := MapSeq(WordRow, rows);
    forall w | w in KeySet(m) ensures w in Words(rows) {
      var x :| x in m && x.key == w;
      var i :| 0 <= i < |m| && m[i] == x;
      assert rows[i] in rows;
    }
    forall w | w in Words(rows) ensures w in KeySet(m) {
      var c :| c in rows && c.key.0 == w;
      var i :| 0 <= i < |rows| && rows[i] == c;
      assert m[i] in m;
    }
  }

  /** `groupby("关键词")["词频"].sum()`: one row per keyword, holding the frequency the rows
      give it over all its parts of speech, and the same total. */
  function ByWord(rows: seq<Counted<Keyword>>): (r: seq<Counted<string>>)
    ensures UniqueKeys(r)
    ensures KeySet(r) == Words(rows)
    ensures forall w :: SumFor(r, w) == WordCount(rows, w)
    ensures Total(r) == Total(rows)
  {
    ProjectedWordCounts(rows);
    ProjectedWords(rows);
    GroupSum(MapSeq(WordRow, rows))
  }

  /** The regrouped table both functions work on: one row per keyword. */
  function Grouped(rows: seq<Counted<Keyword>>, blacklist: set<string>): (r: seq<Counted<string>>)
    ensures UniqueKeys(r)
  {
    ByWord(Screen(rows, blacklist))
  }

  /** The regrouped table lists every keyword of a screened row, only those, each with the
      frequency the screened rows give it; so all its keywords are Chinese. */
  lemma GroupedFacts(rows: seq<Counted<Keyword>>, blacklist: set<string>)
    ensures forall x :: x in Grouped(rows, blacklist) ==> IsAllChinese(x.key)
    ensures forall w :: w in KeySet(Grouped(rows, blacklist)) <==>
              exists c :: c in rows && c.key.0 == w && Screened(c, blacklist)
    ensures forall w :: SumFor(Grouped(rows, blacklist), w) == WordCount(Screen(rows, blacklist), w)
  {
    var s := Screen(rows, blacklist);
    var r := ByWord(s);
    forall x | x in r ensures IsAllChinese(x.key) {
      assert x.key in KeySet(r);
      var c :| c in s && c.key.0 == x.key;
    }
    forall w | w in KeySet(r) ensures exists c :: c in rows && c.key.0 == w && Screened(c, blacklist) {
      var c :| c in s && c.key.0 == w;
      assert c in rows && Screened(c, blacklist);
    }
    forall w | exists c :: c in rows && c.key.0 == w && Screened(c, blacklist) ensures w in KeySet(r) {
      var c :| c in rows && c.key.0 == w && Screened(c, blacklist);
      assert c in s;
    }
  }

  // ---------------------------------------------------------------------------
  // `filter_keywords`: per threshold, the keywords the word list lacks

  /** `set(line.strip() for line in file)`: the stripped lines of a text file. */
  function TxtWords(content: string): set<string>
  {
    set l | l in FileLines(content) :: Strip(l)
  }

  predicate StrictlyAscending(ls: seq<string>)
  {
    forall i, j :: 0 <= i < j < |ls| ==> LexLt(ls[i], ls[j])
  }

  /** `df[df["词频"] >= n]`, then the keywords `~isin(words_set)`, in table order. */
  function NewWords(t: seq<Counted<string>>, words: set<string>, n: int): seq<string>
  {
    var m1 := Filter(t, (c: Counted<string>) => c.count >= n);
    var m2 := Filter(m1, (c: Counted<string>) => c.key !in words);
    MapSeq((c: Counted<string>) => c.key, m2)
  }

  /** The new words are exactly the keywords of rows meeting the threshold that the word list
      lacks; without a repeat when the table is grouped. */
  lemma NewWordsFacts(t: seq<Counted<string>>, words: set<string>, n: int)
    ensures forall w :: w in NewWords(t, words, n) <==> (exists c :: c in t && c.key == w && c.count >= n) && w !in words
    ensures UniqueKeys(t) ==> Distinct(NewWords(t, words, n))
  {
    var frequent := (c: Counted<string>) => c.count >= n;
    var unlisted := (c: Counted<string>) => c.key !in words;
    var m1 := Filter(t, frequent);
    var m2 := Filter(m1, unlisted);
    FilterFacts(t, frequent);
    FilterFacts(m1, unlisted);
    var r := MapSeq((c: Counted<string>) => c.key, m2);
    assert r == NewWords(t, words, n);
    forall w | w in r ensures (exists c :: c in t && c.key == w && c.count >= n) && w !in words {
      var i :| 0 <= i < |r| && r[i] == w;
      assert m2[i] in m2;
    }
    forall w | (exists c :: c in t && c.key == w && c.count >= n) && w !in words ensures w in r {
      var c :| c in t && c.key == w && c.count >= n;
      assert c in m2;
      var i :| 0 <= i < |m2| && m2[i] == c;
      assert r[i] == w;
    }
    if UniqueKeys(t) {
      FilterUnique(t, frequent);
      FilterUnique(m1, unlisted);
      forall i, j | 0 <= i < j < |r| ensures r[i] != r[j] {
        assert m2[i].key != m2[j].key;
      }
    }
  }

  /** `sorted(final_words)`: those keywords, by code point order. */
  function ResultWords(t: seq<Counted<string>>, words: set<string>, n: int): seq<string>
  {
    SortStrings(NewWords(t, words, n))
  }

  /** The sorted list holds exactly the keywords of rows meeting the threshold that the word
      list lacks, in ascending order; without a repeat when the table is grouped. */
  lemma ResultWordsFacts(t: seq<Counted<string>>, words: set<string>, n: int)
    ensures forall w :: w in ResultWords(t, words, n) <==>
              (exists c :: c in t && c.key == w && c.count >= n) && w !in words
    ensures var r := ResultWords(t, words, n); forall i, j :: 0 <= i < j < |r| ==> LexLe(r[i], r[j])
    ensures UniqueKeys(t) ==> StrictlyAscending(ResultWords(t, words, n))
  {
    var s := NewWords(t, words, n);
    var r := SortStrings(s);
    NewWordsFacts(t, words, n);
    forall w ensures w in r <==> w in s {
      assert w in r <==> w in multiset(r);
      assert w in s <==> w in multiset(s);
    }
    if UniqueKeys(t) {
      DistinctMultiset(s);
      SortStringsStrict(s);
    }
  }

  /** On a grouped table the threshold is met by the frequency the table gives the keyword. */
  lemma ResultWordsByCount(t: seq<Counted<string>>, words: set<string>, n: int)
    requires UniqueKeys(t)
    ensures forall w :: w in ResultWords(t, words, n) <==> w in KeySet(t) && SumFor(t, w) >= n && w !in words
  {
    ResultWordsFacts(t, words, n);
    forall w ensures w in ResultWords(t, words, n) <==> w in KeySet(t) && SumFor(t, w) >= n && w !in words {
      if w in KeySet(t) {
        var c :| c in t && c.key == w;
        var i :| 0 <= i < |t| && t[i] == c;
        SumForUnique(t, i);
        forall d | d in t && d.key == w ensures d == c {
          var j :| 0 <= j < |t| && t[j] == d;
          assert i == j;
        }
      }
    }
  }

  /** Raising the threshold only removes keywords from the list. */
  lemma ThresholdMonotone(t: seq<Counted<string>>, words: set<string>, n1: int, n2: int)
    requires n1 <= n2
    ensures forall w :: w in ResultWords(t, words, n2) ==> w in ResultWords(t, words, n1)
  {
    ResultWordsFacts(t, words, n1);
    ResultWordsFacts(t, words, n2);
  }

  /** `os.path.join(output_path, name)` for a relative `name`. */
  function PathJoin(dir: string, name: string): string
  {
    if dir == "" then name
    else if dir[|dir| - 1] == '/' then dir + name
    else dir + "/" + name
  }

  function ResultFileName(n: int): string
  {
    "keywords_result_threshold_" + IntToString(n) + ".txt"
  }

  /** The file written for threshold `n`: the sorted keywords, one per line. */
  function KeywordsFile(dir: string, t: seq<Counted<string>>, words: set<string>, n: int): TextFile
  {
    TextFile(PathJoin(dir, ResultFileName(n)), Unlines(ResultWords(t, words, n)))
  }

  /** Read back line by line, the threshold file of a grouped table lists, in strictly
      ascending order, exactly the screened keywords whose summed frequency reaches the
      threshold and that the word list does not hold. */
  lemma KeywordsFileLines(dir: string, rows: seq<Counted<Keyword>>, blacklist: set<string>, txt: string, n: int)
    ensures var lines := FileLines(KeywordsFile(dir, Grouped(rows, blacklist), TxtWords(txt), n).content);
      && lines == ResultWords(Grouped(rows, blacklist), TxtWords(txt), n)
      && StrictlyAscending(lines)
      && forall w :: w in lines <==>
           && (exists c :: c in rows && c.key.0 == w && Screened(c, blacklist))
           && WordCount(Screen(rows, blacklist), w) >= n
           && w !in TxtWords(txt)
  {
    var t := Grouped(rows, blacklist);
    var r := ResultWords(t, TxtWords(txt), n);
    GroupedFacts(rows, blacklist);
    ResultWordsFacts(t, TxtWords(txt), n);
    forall l | l in r ensures '\n' !in l {
      var c :| c in t && c.key == l && c.count >= n;
      AllChineseFacts(l, "");
    }
    FileLinesUnlines(r);
    ResultWordsByCount(t, TxtWords(txt), n);
  }

  /** One pass of the threshold loop: sort the new keywords and write them out. */
  method WriteKeywordsFile(dir: string, t: seq<Counted<string>>, words: set<string>, n: int) returns (f: TextFile)
    ensures f == KeywordsFile(dir, t, words, n)
  {
    var finalWords := ResultWords(t, words, n);
    var content := WriteLines(finalWords);
    f := TextFile(PathJoin(dir, ResultFileName(n)), content);
  }

  /** `filter_keywords`: one file per threshold of `nValues`, in order. */
  method FilterKeywords(rows: seq<Counted<Keyword>>, txt: string, dir: string, nValues: seq<int>, blacklist: set<string>)
    returns (files: seq<TextFile>)
    ensures files == MapSeq((n: int) => KeywordsFile(dir, Grouped(rows, blacklist), TxtWords(txt), n), nValues)
  {
    files := WriteThresholdFiles(dir, Grouped(rows, blacklist), TxtWords(txt), nValues);
  }

  /** `for n in n_values`: the threshold files of one regrouped table and word list. */
  method WriteThresholdFiles(dir: string, t: seq<Counted<string>>, words: set<string>, nValues: seq<int>)
    returns (files: seq<TextFile>)
    ensures files == MapSeq((n: int) => KeywordsFile(dir, t, words, n), nValues)
  {
    var fileFor := (n: int) => KeywordsFile(dir, t, words, n);
    files := [];
    for i := 0 to |nValues|
      invariant files == MapBack(fileFor, nValues[..i])
    {
      var f := WriteKeywordsFile(dir, t, words, nValues[i]);
      assert nValues[..i + 1][..i] == nValues[..i];
      files := files + [f];
    }
    assert nValues[..|nValues|] == nValues;
    MapBackIsMapSeq(fileFor, nValues);
  }

  // ---------------------------------------------------------------------------
  // `filter_keywords_include_origin`: per threshold, the union with the word list

  /** A file given by the set of words it lists. */
  datatype WordSetFile = WordSetFile(path: string, words: set<string>)

  function CombinedFileName(n: int): string
  {
    "combined_keywords_threshold_" + IntToString(n) + ".txt"
  }

  /** `set(filtered_df["关键词"]).union(words_from_txt)`. */
  function CombinedWords(t: seq<Counted<string>>, words: set<string>, n: int): set<string>
  {
    (set c | c in t && c.count >= n :: c.key) + words
  }

  /** The union is the list `filter_keywords` writes plus the word list itself. */
  lemma CombinedIsResultPlusOrigin(t: seq<Counted<string>>, words: set<string>, n: int)
    ensures CombinedWords(t, words, n) == (set w | w in ResultWords(t, words, n)) + words
  {
    var r := ResultWords(t, words, n);
    ResultWordsFacts(t, words, n);
    forall w | w in CombinedWords(t, words, n) ensures w in (set w | w in r) + words {
      if w !in words {
        var c :| c in t && c.count >= n && c.key == w;
      }
    }
  }

  /** Raising the threshold only removes words from the union, and never one of the list. */
  lemma CombinedMonotone(t: seq<Counted<string>>, words: set<string>, n1: int, n2: int)
    requires n1 <= n2
    ensures words <= CombinedWords(t, words, n2) <= CombinedWords(t, words, n1)
  {
  }

  /** The word set written for threshold `n`. */
  function CombinedFile(dir: string, t: seq<Counted<string>>, words: set<string>, n: int): WordSetFile
  {
    WordSetFile(PathJoin(dir, CombinedFileName(n)), CombinedWords(t, words, n))
  }

  /** One pass of the threshold loop: the keywords meeting the threshold, joined with the
      word list. */
  method CombineThreshold(dir: string, t: seq<Counted<string>>, words: set<string>, n: int) returns (f: WordSetFile)
    ensures f == CombinedFile(dir, t, words, n)
  {
    var meeting := set c | c in t && c.count >= n :: c.key;
    f := WordSetFile(PathJoin(dir, CombinedFileName(n)), meeting + words);
  }

  /** `filter_keywords_include_origin`: one word set per threshold of `nValues`, in order. */
  method FilterKeywordsIncludeOrigin(rows: seq<Counted<Keyword>>, txt: string, dir: string, nValues: seq<int>, blacklist: set<string>)
    returns (files: seq<WordSetFile>)
    ensures files == MapSeq((n: int) => CombinedFile(dir, Grouped(rows, blacklist), TxtWords(txt), n), nValues)
  {
    files := CombineThresholds(dir, Grouped(rows, blacklist), TxtWords(txt), nValues);
  }

  /** `for n in n_values`: the word sets of one regrouped table and word list. */
  method CombineThresholds(dir: string, t: seq<Counted<string>>, words: set<string>, nValues: seq<int>)
    returns (files: seq<WordSetFile>)
    ensures files == MapSeq((n: int) => CombinedFile(dir, t, words, n), nValues)
  {
    var fileFor := (n: int) => CombinedFile(dir, t, words, n);
    files := [];
    for i := 0 to |nValues|
      invariant files == MapBack(fileFor, nValues[..i])
    {
      var f := CombineThreshold(dir, t, words, nValues[i]);
      assert nValues[..i + 1][..i] == nValues[..i];
      files := files + [f];
    }
    assert nValues[..|nValues|] == nValues;
    MapBackIsMapSeq(fileFor, nValues);
  }

  // ---------------------------------------------------------------------------
  // `merge_and_sort_txt_files`

  /** The input file that was not found. */
  datatype FileError = FileNotFound(path: string)

  /** Two strictly ascending lists with the same words are the same list: the written file
      does not depend on the order in which the set is visited. */
  lemma {:induction false} StrictlyAscendingUnique(a: seq<string>, b: seq<string>)
    requires StrictlyAscending(a) && StrictlyAscending(b)
    requires forall w :: w in a <==> w in b
    ensures a == b
  {
    if |a| > 0 {
      assert a[0] in b;
    }
    if |b| > 0 {
      assert b[0] in a;
    }
    if |a| > 0 && |b| > 0 {
      if a[0] != b[0] {
        assert b[0] in a && a[0] in b;
        var i :| 0 < i < |a| && a[i] == b[0];
        var j :| 0 < j < |b| && b[j] == a[0];
        LexLeAntisym(a[0], b[0]);
      }
      assert StrictlyAscending(a[1..]) && StrictlyAscending(b[1..]) by {
        forall i, j | 0 <= i < j < |a[1..]| ensures LexLt(a[1..][i], a[1..][j]) {
          assert a[1..][i] == a[i + 1] && a[1..][j] == a[j + 1];
        }
        forall i, j | 0 <= i < j < |b[1..]| ensures LexLt(b[1..][i], b[1..][j]) {
          assert b[1..][i] == b[i + 1] && b[1..][j] == b[j + 1];
        }
      }
      forall w ensures w in a[1..] <==> w in b[1..] {
        if w in a[1..] {
          var i :| 1 <= i < |a| && a[i] == w;
          assert a[0] != w;
          assert w in b;
          var j :| 0 <= j < |b| && b[j] == w;
          assert j != 0;
          assert b[j] == b[1..][j - 1];
        }
        if w in b[1..] {
          var j :| 1 <= j < |b| && b[j] == w;
          assert b[0] != w;
          assert w in a;
          var i :| 0 <= i < |a| && a[i] == w;
          assert i != 0;
          assert a[i] == a[1..][i - 1];
        }
      }
      StrictlyAscendingUnique(a[1..], b[1..]);
      assert a == [a[0]] + a[1..] && b == [b[0]] + b[1..];
    }
  }

  /** A stripped line holds no line break. */
  lemma TxtWordsNoBreak(content: string)
    ensures forall w :: w in TxtWords(content) ==> '\n' !in w
  {
    forall w | w in TxtWords(content) ensures '\n' !in w {
      var l :| l in FileLines(content) && Strip(l) == w;
      StripKeeps(l, '\n');
    }
  }

  /** The stripped lines of `lines`, added one line at a time. */
  function StrippedSoFar(lines: seq<string>): set<string>
  {
    if |lines| == 0 then {} else StrippedSoFar(lines[..|lines| - 1]) + {Strip(lines[|lines| - 1])}
  }

  lemma {:induction false} StrippedSoFarAll(lines: seq<string>)
    ensures StrippedSoFar(lines) == set l | l in lines :: Strip(l)
  {
    if |lines| > 0 {
      var init, last := lines[..|lines| - 1], lines[|lines| - 1];
      StrippedSoFarAll(init);
      forall x | x in (set l | l in lines :: Strip(l)) ensures x in StrippedSoFar(lines) {
        var k :| 0 <= k < |lines| && Strip(lines[k]) == x;
        if k < |lines| - 1 {
          assert init[k] == lines[k];
        }
      }
      forall x | x in StrippedSoFar(lines) ensures x in (set l | l in lines :: Strip(l)) {
        if x == Strip(last) {
          assert last in lines;
        } else {
          var l :| l in init && Strip(l) == x;
          assert l in lines;
        }
      }
    }
  }

  /** `for line in file: words.add(line.strip())`. */
  method AddStrippedLines(words: set<string>, content: string) returns (out: set<string>)
    ensures out == words + TxtWords(content)
  {
    var lines := FileLines(content);
    out := AddStripped(words, lines);
    StrippedSoFarAll(lines);
  }

  /** The loop of `AddStrippedLines` over the lines of one file. */
  method AddStripped(words: set<string>, lines: seq<string>) returns (out: set<string>)
    ensures out == words + StrippedSoFar(lines)
  {
    out := words;
    for j := 0 to |lines|
      invariant out == words + StrippedSoFar(lines[..j])
    {
      assert lines[..j + 1][..j] == lines[..j];
      out := out + {Strip(lines[j])};
    }
    assert lines[..|lines|] == lines;
  }

  /** The elements of a set, each once, in the order the loop happens to pick them. */
  method SetToSeq(s: set<string>) returns (ws: seq<string>)
    ensures Distinct(ws)
    ensures forall w :: w in ws <==> w in s
  {
    ws := [];
    var rest := s;
    while rest != {}
      invariant Distinct(ws)
      invariant forall w :: w in s <==> w in ws || w in rest
      invariant forall w :: w in ws ==> w !in rest
      decreases |rest|
    {
      var x :| x in rest;
      ws := ws + [x];
      rest := rest - {x};
    }
  }

  /** A file content that is a line-by-line listing of exactly `words`, in strictly
      ascending order. */
  ghost predicate ListsSorted(content: string, words: set<string>)
  {
    var lines := FileLines(content);
    && content == Unlines(lines)
    && StrictlyAscending(lines)
    && forall w :: w in lines <==> w in words
  }

  /** `merge_and_sort_txt_files`: a missing first file, then a missing second file, raises
      `FileNotFoundError`; otherwise the output file lists, one per line and in strictly
      ascending order, exactly the stripped lines of the two files. */
  method MergeAndSortTxtFiles(path1: string, file1: Option<string>, path2: string, file2: Option<string>, outPath: string)
    returns (out: Result<TextFile, FileError>)
    ensures file1.None? ==> out == Err(FileNotFound(path1))
    ensures file1.Some? && file2.None? ==> out == Err(FileNotFound(path2))
    ensures file1.Some? && file2.Some? ==> out.Ok? && out.value.path == outPath
    ensures out.Ok? ==> file1.Some? && file2.Some? && ListsSorted(out.value.content, TxtWords(file1.value) + TxtWords(file2.value))
  {
    if file1.None? {
      return Err(FileNotFound(path1));
    }
    if file2.None? {
      return Err(FileNotFound(path2));
    }
    var words := AddStrippedLines({}, file1.value);
    words := AddStrippedLines(words, file2.value);
    var ws := SetToSeq(words);
    DistinctMultiset(ws);
    var sorted := SortStrings(ws);
    SortStringsStrict(ws);
    TxtWordsNoBreak(file1.value);
    TxtWordsNoBreak(file2.value);
    forall w | w in sorted ensures w in words && '\n' !in w {
      assert w in multiset(sorted);
      assert w in multiset(ws);
    }
    forall w | w in words ensures w in sorted {
      assert w in multiset(ws);
      assert w in multiset(sorted);
    }
    var content := WriteLines(sorted);
    FileLinesUnlines(sorted);
    return Ok(TextFile(outPath, content));
  }
}
