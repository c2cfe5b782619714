/** `wordFrequencyLibraryGen_v1.py`: a keyword-frequency library built from parsed
    articles. A keyword is a (word, part-of-speech tag) pair; its frequency is the number
    of times a sentence of the corpus holds that word with that tag, counted only for the
    wanted tags and for words that pass rule 1. */
module WordFreqGen {
  import opened Outcomes
  import opened Text
  import opened Seqs
  import opened Tables

  /** A key of the library: the word and its tag (`关键词`, `词性`). */
  type Keyword = (string, string)

  /** The CJK Unified Ideographs range of rule 1's character class. */
  const HanFirst: char := '\U{4E00}'
  const HanLast: char := '\U{9FA5}'

  predicate IsHan(c: char)
  {
    HanFirst <= c <= HanLast
  }

  predicate AllHan(w: string)
  {
    forall i :: 0 <= i < |w| ==> IsHan(w[i])
  }

  // ---------------------------------------------------------------------------
  // rule_1: which words are counted.

  /** Python's `re.match(r"^[一-龥]+$", w)`: one or more characters of the
      range, then the end of the string; `$` also matches just before a line break that
      ends the string, so a final `"\n"` is let through. */
  predicate PatternMatches(w: string)
  {
    (|w| >= 1 && AllHan(w)) || (|w| >= 2 && w[|w| - 1] == '\n' && AllHan(w[..|w| - 1]))
  }

  /** `rule_1` as written: the length test counts the line break, the pattern ignores it. */
  predicate Rule1AsWritten(w: string)
  {
    2 <= |w| <= 6 && PatternMatches(w)
  }

  /** `rule_1` as documented: only words of two to six characters of the range count. */
  predicate Rule1(w: string)
  {
    2 <= |w| <= 6 && AllHan(w)
  }

  /** The pattern's `$` admits a one-character word followed by a line break, which the
      documented rule rejects. */
  lemma Rule1AdmitsLineBreak()
    ensures Rule1AsWritten("中\n") && !Rule1("中\n")
  {
    var w := "中\n";
    assert w[..|w| - 1] == "中";
    assert !IsHan(w[1]);
  }

  /** The two rules differ only on words ending in a line break: the written rule accepts
      every word the documented one does, and on words without a line break they agree. */
  lemma Rule1Agrees(w: string)
    ensures Rule1(w) ==> Rule1AsWritten(w)
    ensures '\n' !in w ==> (Rule1AsWritten(w) <==> Rule1(w))
    ensures Rule1AsWritten(w) && !Rule1(w) ==> w[|w| - 1] == '\n' && Rule1(w[..|w| - 1] + "中")
  {
    if Rule1AsWritten(w) && !Rule1(w) {
      assert w[|w| - 1] == '\n';
      var v := w[..|w| - 1] + "中";
      assert forall i :: 0 <= i < |v| ==> IsHan(v[i]) by {
        forall i | 0 <= i < |v| ensures IsHan(v[i]) {
          if i < |w| - 1 { assert v[i] == w[..|w| - 1][i]; }
        }
      }
    }
  }

  // ---------------------------------------------------------------------------
  // singleSentenceProcess: the keywords of one sentence.

  function Min(a: int, b: int): int { if a <= b then a else b }

  /** Keeps a (word, tag) position: the tag is wanted and the word passes rule 1. */
  predicate KeepsKeyword(k: Keyword, needPos: set<string>)
  {
    k.1 in needPos && Rule1(k.0)
  }

  /** The position filter the code as written applies, with the line-break slip. */
  predicate KeepsKeywordAsWritten(k: Keyword, needPos: set<string>)
  {
    k.1 in needPos && Rule1AsWritten(k.0)
  }

  /** The counted positions are the code's positions except for words ending in a line
      break: every position kept here the code keeps, and on words without a line break
      the two filters agree. */
  lemma KeepsKeywordAgrees(k: Keyword, needPos: set<string>)
    ensures KeepsKeyword(k, needPos) ==> KeepsKeywordAsWritten(k, needPos)
    ensures '\n' !in k.0 ==> (KeepsKeyword(k, needPos) <==> KeepsKeywordAsWritten(k, needPos))
    ensures KeepsKeywordAsWritten(k, needPos) && !KeepsKeyword(k, needPos) ==> k.0[|k.0| - 1] == '\n'
  {
    Rule1Agrees(k.0);
  }

  /** The keywords the first `n` positions of a sentence contribute, in order. */
  function SentenceKeys(tok: seq<string>, tags: seq<string>, needPos: set<string>, n: nat): seq<Keyword>
    requires n <= |tok| && n <= |tags|
  {
    if n == 0 then []
    else SentenceKeys(tok, tags, needPos, n - 1)
         + (if KeepsKeyword((tok[n - 1], tags[n - 1]), needPos) then [(tok[n - 1], tags[n - 1])] else [])
  }

  /** Every kept keyword passes the filter and comes from a position of the sentence. */
  lemma {:induction false} SentenceKeysKept(tok: seq<string>, tags: seq<string>, needPos: set<string>, n: nat)
    requires n <= |tok| && n <= |tags|
    ensures |SentenceKeys(tok, tags, needPos, n)| <= n
    ensures forall k :: k in SentenceKeys(tok, tags, needPos, n) ==>
              KeepsKeyword(k, needPos) && exists i :: 0 <= i < n && k == (tok[i], tags[i])
  {
    if n > 0 {
      SentenceKeysKept(tok, tags, needPos, n - 1);
    }
  }

  /** A dict of counters after counting `ks` in turn, each with
      `keywords[key] = keywords.get(key, 0) + 1`. */
  function CountIn<K(==,!new)>(ks: seq<K>): seq<Counted<K>>
  {
    if |ks| == 0 then [] else Bump(CountIn(ks[..|ks| - 1]), ks[|ks| - 1], 1)
  }

  /** Counting keys one at a time is grouping a table of ones. */
  lemma {:induction false} CountInGroups<K(!new)>(ks: seq<K>)
    ensures CountIn(ks) == GroupSum(Ones(ks))
  {
    if |ks| > 0 {
      var init, k := ks[..|ks| - 1], ks[|ks| - 1];
      CountInGroups(init);
      assert ks == init + [k];
      MapSeqAppend(One, init, [k]);
      assert Ones([k]) == [One(k)];
      BumpAllAppend([], Ones(init), [One(k)]);
      var d := GroupSum(Ones(init));
      assert BumpAll(d, [One(k)]) == BumpAll(Bump(d, k, 1), []);
    }
  }

  /** `singleSentenceProcess`: the wanted-tag, rule-1 positions of the sentence (the
      shorter of the two lists sets the length, as `zip` does) counted in a dict, which
      is the grouping of those keywords with one occurrence each. */
  method SingleSentenceProcess(tok: seq<string>, tags: seq<string>, needPos: set<string>)
    returns (keywords: seq<Counted<Keyword>>)
    ensures keywords == GroupSum(Ones(SentenceKeys(tok, tags, needPos, Min(|tok|, |tags|))))
  {
    var n := Min(|tok|, |tags|);
    keywords := [];
    var i := 0;
    while i < n
      invariant 0 <= i <= n
      invariant keywords == CountIn(SentenceKeys(tok, tags, needPos, i))
    {
      CountInStep(tok, tags, needPos, i);
      keywords := CountPosition(keywords, (tok[i], tags[i]), needPos);
      i := i + 1;
    }
    CountInGroups(SentenceKeys(tok, tags, needPos, n));
  }

  /** The loop body of `singleSentenceProcess`: count the position if it is kept. */
  method CountPosition(keywords: seq<Counted<Keyword>>, key: Keyword, needPos: set<string>)
    returns (next: seq<Counted<Keyword>>)
    ensures next == if KeepsKeyword(key, needPos) then Bump(keywords, key, 1) else keywords
  {
    next := keywords;
    if key.1 in needPos && Rule1(key.0) {
      next := Bump(keywords, key, 1);
    }
  }

  /** One position of the sentence: a kept keyword is counted once more, any other position
      leaves the dict as it was. */
  lemma CountInStep(tok: seq<string>, tags: seq<string>, needPos: set<string>, i: nat)
    requires i < |tok| && i < |tags|
    ensures var before := CountIn(SentenceKeys(tok, tags, needPos, i));
            var key := (tok[i], tags[i]);
            CountIn(SentenceKeys(tok, tags, needPos, i + 1))
              == if KeepsKeyword(key, needPos) then Bump(before, key, 1) else before
  {
    var seen, key := SentenceKeys(tok, tags, needPos, i), (tok[i], tags[i]);
    if KeepsKeyword(key, needPos) {
      assert (seen + [key])[..|seen|] == seen;
    } else {
      assert seen + [] == seen;
    }
  }

  /** A sentence's table is grouped, counts each kept keyword as often as it occurs, holds
      no other key, and counts at most one keyword per position. */
  lemma SentenceTable(tok: seq<string>, tags: seq<string>, needPos: set<string>)
    ensures var ks := SentenceKeys(tok, tags, needPos, Min(|tok|, |tags|));
            var t := GroupSum(Ones(ks));
            && UniqueKeys(t)
            && (forall k :: SumFor(t, k) == multiset(ks)[k])
            && (forall k :: k in KeySet(t) ==> KeepsKeyword(k, needPos))
            && Total(t) <= Min(|tok|, |tags|)
  {
    var n := Min(|tok|, |tags|);
    var ks := SentenceKeys(tok, tags, needPos, n);
    OnesCountAll(ks);
    SentenceKeysKept(tok, tags, needPos, n);
    forall k | k in KeySet(Ones(ks)) ensures k in ks {
      var r :| r in Ones(ks) && r.key == k;
      var i :| 0 <= i < |Ones(ks)| && Ones(ks)[i] == r;
      assert ks[i] == k;
    }
  }

  // ---------------------------------------------------------------------------
  // readArticle_fromJSP: the keywords of one article.

  /** A parsed article: the word lists (`tok/fine`) and the tag lists (`pos/pku`) of its
      sentences. */
  datatype WordArticle = WordArticle(tokens: seq<seq<string>>, tags: seq<seq<string>>)

  /** The sentences `zip` visits. */
  function SentenceCount(art: WordArticle): nat
  {
    Min(|art.tokens|, |art.tags|)
  }

  function SentenceKeywords(art: WordArticle, needPos: set<string>, j: nat): seq<Keyword>
    requires j < SentenceCount(art)
  {
    SentenceKeys(art.tokens[j], art.tags[j], needPos, Min(|art.tokens[j]|, |art.tags[j]|))
  }

  /** The keywords of the first `n` sentences, in order. */
  function ArticleKeys(art: WordArticle, needPos: set<string>, n: nat): seq<Keyword>
    requires n <= SentenceCount(art)
  {
    if n == 0 then [] else ArticleKeys(art, needPos, n - 1) + SentenceKeywords(art, needPos, n - 1)
  }

  /** The inner loop of `readArticle_fromJSP`: a sentence's counts added key by key to
      the article's dict. */
  method AddCounts(d: seq<Counted<Keyword>>, s: seq<Counted<Keyword>>) returns (out: seq<Counted<Keyword>>)
    ensures out == BumpAll(d, s)
  {
    out := d;
    var j := 0;
    while j < |s|
      invariant 0 <= j <= |s|
      invariant BumpAll(out, s[j..]) == BumpAll(d, s)
    {
      assert s[j..][0] == s[j] && s[j..][1..] == s[j + 1..];
      out := Bump(out, s[j].key, s[j].count);
      j := j + 1;
    }
  }

  /** `readArticle_fromJSP`: every sentence's keywords added to the article's dict, then
      turned into a full table. It is grouped and counts each keyword as often as the
      article's sentences hold it kept. */
  method ReadArticle(art: WordArticle, needPos: set<string>) returns (table: seq<Counted<Keyword>>)
    ensures UniqueKeys(table)
    ensures forall k :: SumFor(table, k) == multiset(ArticleKeys(art, needPos, SentenceCount(art)))[k]
    ensures forall k :: k in KeySet(table) <==> k in ArticleKeys(art, needPos, SentenceCount(art))
  {
    table := [];
    var j := 0;
    while j < SentenceCount(art)
      invariant 0 <= j <= SentenceCount(art)
      invariant UniqueKeys(table)
      invariant forall k :: SumFor(table, k) == multiset(ArticleKeys(art, needPos, j))[k]
      invariant forall k :: k in KeySet(table) <==> k in ArticleKeys(art, needPos, j)
    {
      table := AddSentence(table, art, needPos, j);
      j := j + 1;
    }
  }

  /** One pass of the loop of `readArticle_fromJSP`: sentence `j` counted and its counts
      added to the article's dict. */
  method AddSentence(table: seq<Counted<Keyword>>, art: WordArticle, needPos: set<string>, j: nat)
    returns (out: seq<Counted<Keyword>>)
    requires j < SentenceCount(art)
    requires UniqueKeys(table)
    requires forall k :: SumFor(table, k) == multiset(ArticleKeys(art, needPos, j))[k]
    ensures UniqueKeys(out)
    ensures forall k :: SumFor(out, k) == multiset(ArticleKeys(art, needPos, j + 1))[k]
    ensures forall k :: k in KeySet(out) <==> k in KeySet(table) || k in SentenceKeywords(art, needPos, j)
  {
    var sentence := SingleSentenceProcess(art.tokens[j], art.tags[j], needPos);
    SentenceFacts(art, needPos, j, sentence);
    out := AddCounts(table, sentence);
    ArticleKeysStep(art, needPos, j, table, sentence, out);
  }

  lemma SentenceFacts(art: WordArticle, needPos: set<string>, j: nat, sentence: seq<Counted<Keyword>>)
    requires j < SentenceCount(art)
    requires sentence == GroupSum(Ones(SentenceKeywords(art, needPos, j)))
    ensures UniqueKeys(sentence)
    ensures forall k :: SumFor(sentence, k) == multiset(SentenceKeywords(art, needPos, j))[k]
    ensures KeySet(sentence) == set k | k in SentenceKeywords(art, needPos, j)
  {
    SentenceTable(art.tokens[j], art.tags[j], needPos);
    OnesKeys(SentenceKeywords(art, needPos, j));
  }

  lemma ArticleKeysStep(art: WordArticle, needPos: set<string>, j: nat,
                        before: seq<Counted<Keyword>>, sentence: seq<Counted<Keyword>>, after: seq<Counted<Keyword>>)
    requires j < SentenceCount(art)
    requires forall k :: SumFor(before, k) == multiset(ArticleKeys(art, needPos, j))[k]
    requires forall k :: SumFor(sentence, k) == multiset(SentenceKeywords(art, needPos, j))[k]
    requires forall k :: SumFor(after, k) == SumFor(before, k) + SumFor(sentence, k)
    ensures forall k :: SumFor(after, k) == multiset(ArticleKeys(art, needPos, j + 1))[k]
  {
    assert ArticleKeys(art, needPos, j + 1) == ArticleKeys(art, needPos, j) + SentenceKeywords(art, needPos, j);
  }

  // ---------------------------------------------------------------------------
  // mergeLibrary.

  /** `mergeLibrary`: both tables must have the full column set, otherwise it is a
      `ValueError`; on success the result is grouped and gives every keyword the sum of
      its frequencies in both. */
  function MergeLibrary(a: Table<Keyword>, b: Table<Keyword>): (r: Result<Table<Keyword>, SchemaError>)
    ensures r.Ok? <==> a.Full? && b.Full?
    ensures r.Ok? ==> r.value.Full? && UniqueKeys(r.value.rows)
    ensures r.Ok? ==> forall k :: SumFor(r.value.rows, k) == SumFor(a.rows, k) + SumFor(b.rows, k)
    ensures r.Ok? ==> KeySet(r.value.rows) == KeySet(a.rows) + KeySet(b.rows)
  {
    match (a, b)
    case (Full(x), Full(y)) => Ok(Full(Regroup(x, y)))
    case _ => Err(ColumnsMismatch)
  }

  /** Merging into the empty full table a folder starts from only regroups, so a
      grouped table comes back unchanged. */
  lemma MergeLibraryEmpty(t: seq<Counted<Keyword>>)
    ensures MergeLibrary(Full([]), Full(t)) == Ok(Full(GroupSum(t)))
    ensures UniqueKeys(t) ==> MergeLibrary(Full([]), Full(t)) == Ok(Full(t))
  {
    RegroupEmpty(t);
  }

  // ---------------------------------------------------------------------------
  // corpus_process_and_merge: the fold over corpus folders.

  /** An article file: its name and, when `json.load` succeeds and the article has both
      task lists, its contents. */
  datatype WordFile = WordFile(name: string, content: Option<WordArticle>)

  /** The library to start from: none on disk, one that cannot be read, one read with
      the full columns in another order than the code lists them (the code compares the
      column lists, not their sets), or one read with the columns in the code's order, or
      with other columns, as `table`. */
  datatype WarmStart = NoLibrary | Unreadable | Reordered(rows: seq<Counted<Keyword>>) | Loaded(table: Table<Keyword>)

  /** Only a library whose column list is exactly the code's replaces the empty start; any
      other outcome, a reordered full library included, only prints a message. */
  function StartRows(warm: WarmStart): seq<Counted<Keyword>>
  {
    match warm
    case Loaded(Full(rows)) => rows
    case _ => []
  }

  /** `read` is the keyword extraction of one parsed article, `ArticleKeys` over all its
      sentences. The corpus fold is specified in terms of such a `read`, so that its
      proofs do not unfold the sentence rules; the trigger ties `read` to `ArticleKeys`
      only where an article was actually read. */
  ghost predicate IsKeywordReader(read: WordArticle -> seq<Keyword>, needPos: set<string>)
  {
    forall a {:trigger ArticleKeys(a, needPos, SentenceCount(a))} :: read(a) == ArticleKeys(a, needPos, SentenceCount(a))
  }

  /** `readArticle_fromJSP` as a function. */
  lemma KeywordReaderExists(needPos: set<string>)
    ensures IsKeywordReader((a: WordArticle) => ArticleKeys(a, needPos, SentenceCount(a)), needPos)
  {
  }

  /** The keywords one file adds to its folder: none when it is not `.json` or cannot
      be read. */
  function Contributed(read: WordArticle -> seq<Keyword>, f: WordFile): seq<Keyword>
  {
    if !EndsWith(f.name, ".json") || f.content.None? then [] else read(f.content.value)
  }

  /** How often key `k` is among the keywords of the first `n` files of an innermost
      folder. */
  function FolderCount(read: WordArticle -> seq<Keyword>, files: seq<WordFile>, n: nat, k: Keyword): nat
    requires n <= |files|
  {
    if n == 0 then 0 else FolderCount(read, files, n - 1, k) + multiset(Contributed(read, files[n - 1]))[k]
  }

  /** How often `k` is among the keywords of the first `n` innermost folders of a
      `folder1`. */
  function InnerCount(read: WordArticle -> seq<Keyword>, f1: seq<seq<WordFile>>, n: nat, k: Keyword): nat
    requires n <= |f1|
  {
    if n == 0 then 0 else InnerCount(read, f1, n - 1, k) + FolderCount(read, f1[n - 1], |f1[n - 1]|, k)
  }

  /** How often `k` is among the keywords of the first `n` `folder1`s of a corpus folder. */
  function RootCount(read: WordArticle -> seq<Keyword>, root: seq<seq<seq<WordFile>>>, n: nat, k: Keyword): nat
    requires n <= |root|
  {
    if n == 0 then 0 else RootCount(read, root, n - 1, k) + InnerCount(read, root[n - 1], |root[n - 1]|, k)
  }

  /** How often `k` is among the keywords of a corpus folder: never when the folder does
      not exist. */
  function TreeCount(read: WordArticle -> seq<Keyword>, folder: Option<seq<seq<seq<WordFile>>>>, k: Keyword): nat
  {
    match folder
    case None => 0
    case Some(root) => RootCount(read, root, |root|, k)
  }

  /** How often `k` is among the keywords of the first `n` corpus folders. */
  function CorpusCount(read: WordArticle -> seq<Keyword>, corpus: seq<Option<seq<seq<seq<WordFile>>>>>, n: nat, k: Keyword): nat
    requires n <= |corpus|
  {
    if n == 0 then 0 else CorpusCount(read, corpus, n - 1, k) + TreeCount(read, corpus[n - 1], k)
  }

  /** One article of the innermost loop: a `.json` file read and merged into the folder's
      table; another suffix, or a file that cannot be read, leaves the table as it is. */
  method MergeArticle(rows: seq<Counted<Keyword>>, f: WordFile, needPos: set<string>, ghost read: WordArticle -> seq<Keyword>)
    returns (out: seq<Counted<Keyword>>)
    requires IsKeywordReader(read, needPos)
    requires UniqueKeys(rows)
    ensures UniqueKeys(out)
    ensures forall k :: SumFor(out, k) == SumFor(rows, k) + multiset(Contributed(read, f))[k]
    ensures forall k :: k in KeySet(out) <==> k in KeySet(rows) || k in Contributed(read, f)
  {
    out := rows;
    if EndsWith(f.name, ".json") && f.content.Some? {
      var art := ReadArticle(f.content.value, needPos);
      var merged := MergeLibrary(Full(rows), Full(art));
      out := merged.value.rows;
    }
  }

  /** The files of one innermost folder folded into an empty full table. */
  method ProcessFolder(files: seq<WordFile>, needPos: set<string>, ghost read: WordArticle -> seq<Keyword>)
    returns (rows: seq<Counted<Keyword>>)
    requires IsKeywordReader(read, needPos)
    ensures UniqueKeys(rows)
    ensures forall k :: SumFor(rows, k) == FolderCount(read, files, |files|, k)
    ensures forall k :: k in KeySet(rows) <==> FolderCount(read, files, |files|, k) > 0
  {
    rows := [];
    var j := 0;
    while j < |files|
      invariant 0 <= j <= |files|
      invariant UniqueKeys(rows)
      invariant forall k :: SumFor(rows, k) == FolderCount(read, files, j, k)
      invariant forall k :: k in KeySet(rows) <==> FolderCount(read, files, j, k) > 0
    {
      ghost var before := rows;
      rows := MergeArticle(rows, files[j], needPos, read);
      FolderCountKeys(read, files, j, before, rows);
      j := j + 1;
    }
  }

  /** Each file adds its keywords to the keys of its folder. */
  lemma FolderCountKeys(read: WordArticle -> seq<Keyword>, files: seq<WordFile>, j: nat,
                        before: seq<Counted<Keyword>>, after: seq<Counted<Keyword>>)
    requires j < |files|
    requires forall k :: k in KeySet(before) <==> FolderCount(read, files, j, k) > 0
    requires forall k :: k in KeySet(after) <==> k in KeySet(before) || k in Contributed(read, files[j])
    ensures forall k :: k in KeySet(after) <==> FolderCount(read, files, j + 1, k) > 0
  {
  }

  /** One innermost folder: its files folded into a fresh full table, which is then
      merged into the library. */
  method MergeFolder(library: seq<Counted<Keyword>>, files: seq<WordFile>, needPos: set<string>, ghost read: WordArticle -> seq<Keyword>)
    returns (out: seq<Counted<Keyword>>)
    requires IsKeywordReader(read, needPos)
    ensures UniqueKeys(out)
    ensures forall k :: SumFor(out, k) == SumFor(library, k) + FolderCount(read, files, |files|, k)
    ensures forall k :: k in KeySet(out) <==> k in KeySet(library) || FolderCount(read, files, |files|, k) > 0
  {
    var folder := ProcessFolder(files, needPos, read);
    var merged := MergeLibrary(Full(library), Full(folder));
    out := merged.value.rows;
  }

  /** The loop over the innermost folders of one `folder1`: each folded into a fresh
      table and that table merged into the library. */
  method MergeInnerFolders(library: seq<Counted<Keyword>>, f1: seq<seq<WordFile>>, needPos: set<string>,
                           ghost read: WordArticle -> seq<Keyword>)
    returns (out: seq<Counted<Keyword>>)
    requires IsKeywordReader(read, needPos)
    ensures UniqueKeys(library) || |f1| > 0 ==> UniqueKeys(out)
    ensures forall k :: SumFor(out, k) == SumFor(library, k) + InnerCount(read, f1, |f1|, k)
    ensures forall k :: k in KeySet(out) <==> k in KeySet(library) || InnerCount(read, f1, |f1|, k) > 0
  {
    out := library;
    var j := 0;
    while j < |f1|
      invariant 0 <= j <= |f1|
      invariant UniqueKeys(library) || j > 0 ==> UniqueKeys(out)
      invariant forall k :: SumFor(out, k) == SumFor(library, k) + InnerCount(read, f1, j, k)
      invariant forall k :: k in KeySet(out) <==> k in KeySet(library) || InnerCount(read, f1, j, k) > 0
    {
      out := MergeFolder(out, f1[j], needPos, read);
      j := j + 1;
    }
  }

  /** Some `folder1` among the first `n` of a corpus folder holds an inner folder. */
  predicate RootHasInner(root: seq<seq<seq<WordFile>>>, n: nat)
    requires n <= |root|
  {
    exists j :: 0 <= j < n && |root[j]| > 0
  }

  /** Some existing corpus folder among the first `n` has a `folder1` with an inner folder. */
  predicate CorpusHasInner(corpus: seq<Option<seq<seq<seq<WordFile>>>>>, n: nat)
    requires n <= |corpus|
  {
    exists i :: 0 <= i < n && corpus[i].Some? && RootHasInner(corpus[i].value, |corpus[i].value|)
  }

  /** The loop over the `folder1`s of one corpus folder. */
  method MergeRoot(library: seq<Counted<Keyword>>, root: seq<seq<seq<WordFile>>>, needPos: set<string>,
                   ghost read: WordArticle -> seq<Keyword>)
    returns (out: seq<Counted<Keyword>>)
    requires IsKeywordReader(read, needPos)
    ensures UniqueKeys(library) || RootHasInner(root, |root|) ==> UniqueKeys(out)
    ensures forall k :: SumFor(out, k) == SumFor(library, k) + RootCount(read, root, |root|, k)
    ensures forall k :: k in KeySet(out) <==> k in KeySet(library) || RootCount(read, root, |root|, k) > 0
  {
    out := library;
    var i := 0;
    while i < |root|
      invariant 0 <= i <= |root|
      invariant UniqueKeys(library) || RootHasInner(root, i) ==> UniqueKeys(out)
      invariant forall k :: SumFor(out, k) == SumFor(library, k) + RootCount(read, root, i, k)
      invariant forall k :: k in KeySet(out) <==> k in KeySet(library) || RootCount(read, root, i, k) > 0
    {
      out := MergeInnerFolders(out, root[i], needPos, read);
      assert RootHasInner(root, i + 1) ==> RootHasInner(root, i) || |root[i]| > 0;
      i := i + 1;
    }
  }

  /** One corpus folder of the outer loop: its tree merged into the library when the
      folder exists, skipped when it does not. */
  method MergeTree(library: seq<Counted<Keyword>>, folder: Option<seq<seq<seq<WordFile>>>>, needPos: set<string>,
                   ghost read: WordArticle -> seq<Keyword>)
    returns (out: seq<Counted<Keyword>>)
    requires IsKeywordReader(read, needPos)
    ensures folder.None? ==> out == library
    ensures UniqueKeys(library) || (folder.Some? && RootHasInner(folder.value, |folder.value|)) ==> UniqueKeys(out)
    ensures forall k :: SumFor(out, k) == SumFor(library, k) + TreeCount(read, folder, k)
    ensures forall k :: k in KeySet(out) <==> k in KeySet(library) || TreeCount(read, folder, k) > 0
  {
    out := library;
    if folder.Some? {
      out := MergeRoot(library, folder.value, needPos, read);
    }
  }

  /** `library` counts `start` plus the keywords of the first `i` corpus folders, and
      holds the keywords of `start` and those counted at least once. */
  ghost predicate CorpusAdds(library: seq<Counted<Keyword>>, start: seq<Counted<Keyword>>,
                             read: WordArticle -> seq<Keyword>, corpus: seq<Option<seq<seq<seq<WordFile>>>>>, i: nat)
    requires i <= |corpus|
  {
    (forall k :: SumFor(library, k) == SumFor(start, k) + CorpusCount(read, corpus, i, k))
    && (forall k :: k in KeySet(library) <==> k in KeySet(start) || CorpusCount(read, corpus, i, k) > 0)
  }

  /** Merging corpus folder `i` into a library that holds the first `i` gives one that
      holds the first `i + 1`. */
  lemma CorpusAddsStep(library: seq<Counted<Keyword>>, before: seq<Counted<Keyword>>, start: seq<Counted<Keyword>>,
                       read: WordArticle -> seq<Keyword>, corpus: seq<Option<seq<seq<seq<WordFile>>>>>, i: nat)
    requires i < |corpus|
    requires CorpusAdds(before, start, read, corpus, i)
    requires forall k :: SumFor(library, k) == SumFor(before, k) + TreeCount(read, corpus[i], k)
    requires forall k :: k in KeySet(library) <==> k in KeySet(before) || TreeCount(read, corpus[i], k) > 0
    ensures CorpusAdds(library, start, read, corpus, i + 1)
  {
  }

  /** `corpus_process_and_merge`: the start library with every corpus folder merged in
      turn, a folder that does not exist skipped, then sorted by descending frequency.
      Each keyword gets its frequency in the start library plus the number of times the
      read articles hold it, and the result holds exactly the keywords of the start
      library and of the read articles; it is grouped when the start library is. The folder
      lists are given in ascending name order, as `sorted` leaves them. */
  method CorpusProcessAndMerge(corpus: seq<Option<seq<seq<seq<WordFile>>>>>, warm: WarmStart, needPos: set<string>,
                               ghost read: WordArticle -> seq<Keyword>)
    returns (out: seq<Counted<Keyword>>)
    requires IsKeywordReader(read, needPos)
    ensures UniqueKeys(StartRows(warm)) || CorpusHasInner(corpus, |corpus|) ==> UniqueKeys(out)
    ensures CountsDescending(out)
    ensures forall k :: SumFor(out, k) == SumFor(StartRows(warm), k) + CorpusCount(read, corpus, |corpus|, k)
    ensures forall k :: k in KeySet(out) <==> k in KeySet(StartRows(warm)) || CorpusCount(read, corpus, |corpus|, k) > 0
  {
    ghost var start := StartRows(warm);
    var library: seq<Counted<Keyword>> := [];
    if warm.Loaded? && warm.table.Full? {
      library := warm.table.rows;
    }
    var i := 0;
    while i < |corpus|
      invariant 0 <= i <= |corpus|
      invariant UniqueKeys(start) || CorpusHasInner(corpus, i) ==> UniqueKeys(library)
      invariant CorpusAdds(library, start, read, corpus, i)
    {
      assert CorpusHasInner(corpus, i + 1) ==>
               CorpusHasInner(corpus, i) || (corpus[i].Some? && RootHasInner(corpus[i].value, |corpus[i].value|));
      ghost var before := library;
      library := MergeTree(library, corpus[i], needPos, read);
      CorpusAddsStep(library, before, start, read, corpus, i);
      i := i + 1;
    }
    SortByCountKeeps(library);
    out := SortByCount(library);
  }

  /** Every keyword the corpus adds passes the tag and rule-1 filter. */
  lemma {:induction false} CorpusCountKept(corpus: seq<Option<seq<seq<seq<WordFile>>>>>, needPos: set<string>,
                                           read: WordArticle -> seq<Keyword>, n: nat, k: Keyword)
    requires IsKeywordReader(read, needPos)
    requires n <= |corpus|
    requires CorpusCount(read, corpus, n, k) > 0
    ensures KeepsKeyword(k, needPos)
  {
    if CorpusCount(read, corpus, n - 1, k) > 0 {
      CorpusCountKept(corpus, needPos, read, n - 1, k);
    } else {
      var root := corpus[n - 1].value;
      RootCountKept(root, needPos, read, |root|, k);
    }
  }

  lemma {:induction false} RootCountKept(root: seq<seq<seq<WordFile>>>, needPos: set<string>,
                                         read: WordArticle -> seq<Keyword>, n: nat, k: Keyword)
    requires IsKeywordReader(read, needPos)
    requires n <= |root|
    requires RootCount(read, root, n, k) > 0
    ensures KeepsKeyword(k, needPos)
  {
    if RootCount(read, root, n - 1, k) > 0 {
      RootCountKept(root, needPos, read, n - 1, k);
    } else {
      InnerCountKept(root[n - 1], needPos, read, |root[n - 1]|, k);
    }
  }

  lemma {:induction false} InnerCountKept(f1: seq<seq<WordFile>>, needPos: set<string>,
                                          read: WordArticle -> seq<Keyword>, n: nat, k: Keyword)
    requires IsKeywordReader(read, needPos)
    requires n <= |f1|
    requires InnerCount(read, f1, n, k) > 0
    ensures KeepsKeyword(k, needPos)
  {
    if InnerCount(read, f1, n - 1, k) > 0 {
      InnerCountKept(f1, needPos, read, n - 1, k);
    } else {
      FolderCountKept(f1[n - 1], needPos, read, |f1[n - 1]|, k);
    }
  }

  lemma {:induction false} FolderCountKept(files: seq<WordFile>, needPos: set<string>,
                                           read: WordArticle -> seq<Keyword>, n: nat, k: Keyword)
    requires IsKeywordReader(read, needPos)
    requires n <= |files|
    requires FolderCount(read, files, n, k) > 0
    ensures KeepsKeyword(k, needPos)
  {
    if FolderCount(read, files, n - 1, k) > 0 {
      FolderCountKept(files, needPos, read, n - 1, k);
    } else {
      var a := files[n - 1].content.value;
      assert k in ArticleKeys(a, needPos, SentenceCount(a));
      ArticleKeysFiltered(a, needPos, SentenceCount(a));
    }
  }

  lemma {:induction false} ArticleKeysFiltered(art: WordArticle, needPos: set<string>, n: nat)
    requires n <= SentenceCount(art)
    ensures forall k :: k in ArticleKeys(art, needPos, n) ==> KeepsKeyword(k, needPos)
  {
    if n > 0 {
      ArticleKeysFiltered(art, needPos, n - 1);
      SentenceKeysKept(art.tokens[n - 1], art.tags[n - 1], needPos, Min(|art.tokens[n - 1]|, |art.tags[n - 1]|));
    }
  }

  /** Every keyword of the built library has a wanted tag and passes rule 1, unless the
      start library already held it. */
  lemma CorpusLibraryKept(corpus: seq<Option<seq<seq<seq<WordFile>>>>>, warm: WarmStart, needPos: set<string>,
                          read: WordArticle -> seq<Keyword>, out: seq<Counted<Keyword>>, k: Keyword)
    requires IsKeywordReader(read, needPos)
    requires forall k :: SumFor(out, k) == SumFor(StartRows(warm), k) + CorpusCount(read, corpus, |corpus|, k)
    requires SumFor(out, k) != SumFor(StartRows(warm), k)
    ensures KeepsKeyword(k, needPos)
  {
    CorpusCountKept(corpus, needPos, read, |corpus|, k);
  }
}
