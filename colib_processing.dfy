/** `ColLibProcessing.py`: a merged collocation library filtered, reduced to
    (word1, word2) keys, stripped of collocations that only repeat a single character of
    a neighbouring one, and written out as text. */
module ColLibProcessing {
  import opened Outcomes
  import opened Text
  import opened Seqs
  import opened Sorting
  import opened Tables
  import opened Lines
  import CollocationGen

  type Record = CollocationGen.Record

  /** `Freq_n_ColLibProcessing`: rows below this frequency are dropped. */
  const FreqN := 10
  /** `search_index_ColLibProcessing`: how far rule 2 looks on either side of a row. */
  const SearchIndex := 60
  /** The relation and part-of-speech blacklists of the configuration. */
  const ExcludeDep: set<string> := {"punct", "mark", "etc", "discourse", "aux:asp", "aux:ba", "nmod:poss", "cop"}
  const ExcludePos: set<string> := {"nr", "ns", "w", "t"}

  /** A row of the reduced library: its two words, its frequency and the `is_del` flag. */
  datatype Entry = Entry(word1: string, word2: string, freq: int, del: bool)

  /** Two tables hold the same words, row by row; flags and frequencies may differ. */
  ghost predicate SameWords(s: seq<Entry>, t: seq<Entry>)
  {
    |s| == |t| && forall m :: 0 <= m < |s| ==> s[m].word1 == t[m].word1 && s[m].word2 == t[m].word2
  }

  /** Row `x` is row `y` with at most its flag raised. */
  predicate Raised(x: Entry, y: Entry)
  {
    x.word1 == y.word1 && x.word2 == y.word2 && x.freq == y.freq && (y.del ==> x.del)
  }

  // ---------------------------------------------------------------------------
  // rule_1: a collocation of two single characters is marked for deletion.

  function Rule1Row(e: Entry): (r: Entry)
    ensures Raised(r, e)
    ensures r.del <==> e.del || (|e.word1| == 1 && |e.word2| == 1)
  {
    if |e.word1| == 1 && |e.word2| == 1 then e.(del := true) else e
  }

  /** `rule_1` rewrites the flag column in place: a row is flagged when both its words
      are single characters, and keeps its flag otherwise. */
  method Rule1(a: array<Entry>)
    modifies a
    ensures forall i :: 0 <= i < a.Length ==> a[i] == Rule1Row(old(a[i]))
  {
    for i := 0 to a.Length
      invariant forall k :: 0 <= k < i ==> a[k] == Rule1Row(old(a[k]))
      invariant forall k :: i <= k < a.Length ==> a[k] == old(a[k])
    {
      a[i] := Rule1Row(a[i]);
    }
  }

  // ---------------------------------------------------------------------------
  // rule_2: two sweeps over sorted rows, each flagging a single-character word that
  // occurs inside the same column of a nearby row sharing the other word.

  /** The first sweep keeps word2 fixed and looks at word1; the second the reverse. */
  datatype Sweep = SameWord2 | SameWord1

  /** The word the neighbours must share. */
  function Anchor(p: Sweep, e: Entry): string
  {
    if p.SameWord2? then e.word2 else e.word1
  }

  /** The word that must be a single character occurring in the neighbour's. */
  function Probe(p: Sweep, e: Entry): string
  {
    if p.SameWord2? then e.word1 else e.word2
  }

  function ByWord2(e: Entry): Pair { (e.word2, e.word1) }
  function ByWord1(e: Entry): Pair { (e.word1, e.word2) }

  /** `sort_values(by=[...])` before each sweep: the anchor column first. */
  function SweepKey(p: Sweep): Entry -> Pair
  {
    if p.SameWord2? then ByWord2 else ByWord1
  }

  /** Row `j` stops the scan from row `i` with a hit: it is within `w` rows, every row
      from `i` towards it (it included) shares row `i`'s anchor word, and row `i`'s probe
      word occurs in row `j`'s. */
  ghost predicate Witness(s: seq<Entry>, p: Sweep, w: nat, i: int, j: int)
  {
    0 <= i < |s| && 0 <= j < |s| && i != j
    && (if j < i then i - j <= w && (forall m :: j <= m < i ==> Anchor(p, s[m]) == Anchor(p, s[i]))
        else j - i <= w && (forall m :: i < m <= j ==> Anchor(p, s[m]) == Anchor(p, s[i])))
    && Contains(Probe(p, s[j]), Probe(p, s[i]))
  }

  /** The sweep flags row `i`: its probe word is a single character and one of the two
      scans from it finds a hit. */
  ghost predicate Flagged(s: seq<Entry>, p: Sweep, w: nat, i: int)
  {
    0 <= i < |s| && |Probe(p, s[i])| == 1 && exists j :: Witness(s, p, w, i, j)
  }

  /** The table after one sweep over `s`, which is not reordered. */
  ghost function SweepSpec(s: seq<Entry>, p: Sweep, w: nat): (r: seq<Entry>)
    ensures |r| == |s|
  {
    seq(|s|, i requires 0 <= i < |s| => if Flagged(s, p, w, i) then s[i].(del := true) else s[i])
  }

  /** `rule_2`: sort by (word2, word1) and sweep, then sort by (word1, word2) and sweep
      again, both with the configured window. */
  ghost function Rule2Spec(s: seq<Entry>, w: nat): seq<Entry>
  {
    SweepSpec(Sort(SweepSpec(Sort(s, ByWord2), SameWord2, w), ByWord1), SameWord1, w)
  }

  /** Flags play no part in a sweep's decisions, so flags raised by an earlier sweep
      change nothing in a later one. */
  lemma WitnessSameWords(s: seq<Entry>, t: seq<Entry>, p: Sweep, w: nat, i: int)
    requires SameWords(s, t)
    ensures forall j :: Witness(s, p, w, i, j) <==> Witness(t, p, w, i, j)
  {
    forall j ensures Witness(s, p, w, i, j) <==> Witness(t, p, w, i, j) {
      if 0 <= i < |s| && 0 <= j < |s| {
        assert forall m :: 0 <= m < |s| ==> Anchor(p, s[m]) == Anchor(p, t[m]) && Probe(p, s[m]) == Probe(p, t[m]);
      }
    }
  }

  /** The upward scan: `range(i - 1, max(-1, i - w - 1), -1)`, stopping at the first row
      with another anchor word or the first hit. */
  method ScanUp(a: array<Entry>, p: Sweep, w: nat, i: nat) returns (hit: bool)
    requires i < a.Length
    ensures hit <==> exists j :: j < i && Witness(a[..], p, w, i, j)
  {
    var stop := if i > w then i - w else 0;
    var j: int := i - 1;
    while j >= stop
      invariant stop - 1 <= j <= i - 1
      invariant forall m :: j < m < i ==> Anchor(p, a[m]) == Anchor(p, a[i])
      invariant forall k :: j < k < i ==> !Contains(Probe(p, a[k]), Probe(p, a[i]))
      decreases j
    {
      if Anchor(p, a[j]) != Anchor(p, a[i]) {
        assert forall k :: k < i && Witness(a[..], p, w, i, k) ==> k > j;
        return false;
      }
      if Contains(Probe(p, a[j]), Probe(p, a[i])) {
        assert Witness(a[..], p, w, i, j);
        return true;
      }
      j := j - 1;
    }
    return false;
  }

  /** The downward scan: `range(i + 1, min(len(df), i + w + 1))`, stopping likewise. */
  method ScanDown(a: array<Entry>, p: Sweep, w: nat, i: nat) returns (hit: bool)
    requires i < a.Length
    ensures hit <==> exists j :: j > i && Witness(a[..], p, w, i, j)
  {
    var stop := if a.Length < i + w + 1 then a.Length else i + w + 1;
    var j := i + 1;
    while j < stop
      invariant i + 1 <= j <= stop
      invariant forall m :: i < m < j ==> Anchor(p, a[m]) == Anchor(p, a[i])
      invariant forall k :: i < k < j ==> !Contains(Probe(p, a[k]), Probe(p, a[i]))
    {
      if Anchor(p, a[j]) != Anchor(p, a[i]) {
        assert forall k :: k > i && Witness(a[..], p, w, i, k) ==> k < j;
        return false;
      }
      if Contains(Probe(p, a[j]), Probe(p, a[i])) {
        assert Witness(a[..], p, w, i, j);
        return true;
      }
      j := j + 1;
    }
    return false;
  }

  /** One sweep of `rule_2` over the rows in their current order: each row with a
      single-character probe word is scanned upwards, then downwards, and flagged in
      place on a hit. */
  method SweepRows(a: array<Entry>, p: Sweep, w: nat)
    modifies a
    ensures a[..] == SweepSpec(old(a[..]), p, w)
  {
    ghost var s := a[..];
    for i := 0 to a.Length
      invariant SweptUpTo(a[..], s, p, w, i)
    {
      ghost var before := a[..];
      VisitRow(a, p, w, i, s);
      SweptStep(before, s, p, w, i);
    }
  }

  /** The body of a sweep's loop at row `i`: the two scans, each raising the flag of row
      `i` on a hit. Row `i` ends as the sweep over `s` leaves it. */
  method VisitRow(a: array<Entry>, p: Sweep, w: nat, i: nat, ghost s: seq<Entry>)
    requires i < a.Length && SameWords(a[..], s) && a[i] == s[i]
    modifies a
    ensures a[..] == old(a[..])[i := SweepSpec(s, p, w)[i]]
  {
    ghost var before := a[..];
    if |Probe(p, a[i])| == 1 {
      var up := ScanUp(a, p, w, i);
      if up {
        a[i] := a[i].(del := true);
      }
      ghost var between := a[..];
      FlagKeepsWords(before, s, i, up);
      var down := ScanDown(a, p, w, i);
      assert a[..] == between;
      if down {
        a[i] := a[i].(del := true);
      }
      SweepStep(before, between, s, p, w, i, up, down);
    }
  }

  /** The rows before `i` have been swept, the others are as the sweep found them. */
  ghost predicate SweptUpTo(t: seq<Entry>, s: seq<Entry>, p: Sweep, w: nat, i: nat)
  {
    SameWords(t, s) && i <= |t|
    && (forall m :: 0 <= m < i ==> t[m] == SweepSpec(s, p, w)[m])
    && (forall m :: i <= m < |t| ==> t[m] == s[m])
  }

  lemma SweptStep(t: seq<Entry>, s: seq<Entry>, p: Sweep, w: nat, i: nat)
    requires SweptUpTo(t, s, p, w, i) && i < |t|
    ensures SweptUpTo(t[i := SweepSpec(s, p, w)[i]], s, p, w, i + 1)
  {
  }

  /** Raising the flag of row `i`, or not, keeps every word in place. */
  lemma FlagKeepsWords(t: seq<Entry>, s: seq<Entry>, i: nat, raise: bool)
    requires SameWords(t, s) && i < |t|
    ensures SameWords(if raise then t[i := t[i].(del := true)] else t, s)
  {
  }

  /** The two scans from row `i` together find a hit exactly when row `i` has a
      witness in the table the sweep started from. */
  lemma SweepStep(before: seq<Entry>, between: seq<Entry>, s: seq<Entry>, p: Sweep, w: nat, i: nat, up: bool, down: bool)
    requires SameWords(before, s) && SameWords(between, s) && i < |s|
    requires up <==> exists j :: j < i && Witness(before, p, w, i, j)
    requires down <==> exists j :: j > i && Witness(between, p, w, i, j)
    ensures up || down <==> exists j :: Witness(s, p, w, i, j)
  {
    WitnessSameWords(before, s, p, w, i);
    WitnessSameWords(between, s, p, w, i);
    if exists j :: Witness(s, p, w, i, j) {
      var j :| Witness(s, p, w, i, j);
      assert j < i || j > i;
    }
  }

  /** `df.sort_values(by=..., inplace=True)` followed by `reset_index`: the array is
      overwritten by its rows in key order. */
  method SortRows(a: array<Entry>, key: Entry -> Pair)
    modifies a
    ensures a[..] == Sort(old(a[..]), key)
  {
    var sorted := Sort(a[..], key);
    for k := 0 to a.Length
      invariant forall m :: 0 <= m < k ==> a[m] == sorted[m]
    {
      a[k] := sorted[k];
    }
    assert a[..] == sorted;
  }

  /** `rule_2` on the table in place. */
  method Rule2(a: array<Entry>)
    modifies a
    ensures a[..] == Rule2Spec(old(a[..]), SearchIndex)
  {
    SortRows(a, ByWord2);
    SweepRows(a, SameWord2, SearchIndex);
    SortRows(a, ByWord1);
    SweepRows(a, SameWord1, SearchIndex);
  }

  // ---------------------------------------------------------------------------
  // What rule_2 promises.

  /** A sweep raises flags and changes nothing else. */
  lemma SweepRaises(s: seq<Entry>, p: Sweep, w: nat)
    ensures forall i :: 0 <= i < |s| ==> Raised(SweepSpec(s, p, w)[i], s[i])
  {
  }

  lemma RaisedTrans(x: Entry, y: Entry, z: Entry)
    requires Raised(x, y) && Raised(y, z)
    ensures Raised(x, z)
  {
  }

  /** `rule_2` reorders the table and raises flags, nothing more: the result is, row by
      row, the table sorted by (word2, word1) and then by (word1, word2), with at most
      its flags raised. Words and frequencies are kept and no flag is ever cleared. */
  lemma Rule2OnlyRaisesFlags(s: seq<Entry>, w: nat)
    ensures var t := Sort(Sort(s, ByWord2), ByWord1);
            multiset(t) == multiset(s) && |Rule2Spec(s, w)| == |t|
            && forall i :: 0 <= i < |t| ==> Raised(Rule2Spec(s, w)[i], t[i])
  {
    var s1 := Sort(s, ByWord2);
    var f1 := SweepSpec(s1, SameWord2, w);
    SweepRaises(s1, SameWord2, w);
    SortPointwise(f1, s1, ByWord1, Raised);
    var g := Sort(f1, ByWord1);
    var t := Sort(s1, ByWord1);
    SweepRaises(g, SameWord1, w);
    var r := Rule2Spec(s, w);
    forall i | 0 <= i < |t| ensures Raised(r[i], t[i]) {
      RaisedTrans(r[i], g[i], t[i]);
    }
  }

  /** On rows sorted with the anchor column first, rows sharing an anchor word are
      adjacent: every row between two of them shares it too. */
  lemma SortedRun(s: seq<Entry>, p: Sweep, lo: nat, hi: nat)
    requires SortedBy(s, SweepKey(p))
    requires lo <= hi < |s| && Anchor(p, s[lo]) == Anchor(p, s[hi])
    ensures forall m :: lo <= m <= hi ==> Anchor(p, s[m]) == Anchor(p, s[lo])
  {
    var key := SweepKey(p);
    assert forall e :: key(e).0 == Anchor(p, e);
    forall m | lo <= m <= hi ensures Anchor(p, s[m]) == Anchor(p, s[lo]) {
      if lo < m < hi {
        assert PairLe(key(s[lo]), key(s[m])) && PairLe(key(s[m]), key(s[hi]));
        if key(s[m]).0 != key(s[lo]).0 {
          LexLeAntisym(key(s[lo]).0, key(s[m]).0);
        }
      }
    }
  }

  /** A row `j` within the window of row `i` sharing its anchor word, whose probe word
      contains row `i`'s. */
  ghost predicate Near(s: seq<Entry>, p: Sweep, w: nat, i: int, j: int)
  {
    0 <= i < |s| && 0 <= j < |s| && i != j && (if j < i then i - j else j - i) <= w
    && Anchor(p, s[j]) == Anchor(p, s[i]) && Contains(Probe(p, s[j]), Probe(p, s[i]))
  }

  /** On the sorted rows each sweep sees, the break at the first row with another anchor
      word never comes before the window ends: a row is flagged exactly when its probe word
      is one character that occurs in the probe word of another row within the window
      sharing its anchor word. */
  lemma FlaggedOnSorted(s: seq<Entry>, p: Sweep, w: nat, i: nat)
    requires SortedBy(s, SweepKey(p)) && i < |s|
    ensures Flagged(s, p, w, i) <==> |Probe(p, s[i])| == 1 && exists j :: Near(s, p, w, i, j)
  {
    if exists j :: Near(s, p, w, i, j) {
      var j :| Near(s, p, w, i, j);
      if j < i {
        SortedRun(s, p, j, i);
      } else {
        SortedRun(s, p, i, j);
      }
      assert Witness(s, p, w, i, j);
    }
    if exists j :: Witness(s, p, w, i, j) {
      var j :| Witness(s, p, w, i, j);
      assert Near(s, p, w, i, j);
    }
  }

  // ---------------------------------------------------------------------------
  // A worked case: 书 inside 书本, both read with 看.

  const ReadBook := Entry("书", "看", 10, false)
  const ReadTextbook := Entry("书本", "看", 4, false)
  const Study := Entry("读", "书", 7, false)

  /** A row whose neighbours on both sides hold other anchor words is never flagged: both
      scans stop at once. */
  lemma Isolated(s: seq<Entry>, p: Sweep, w: nat, i: nat)
    requires i < |s|
    requires i == 0 || Anchor(p, s[i - 1]) != Anchor(p, s[i])
    requires i == |s| - 1 || Anchor(p, s[i + 1]) != Anchor(p, s[i])
    ensures !Flagged(s, p, w, i)
  {
    forall j ensures !Witness(s, p, w, i, j) {
      if 0 <= j < i {
        assert j <= i - 1 < i;
      } else if i < j < |s| {
        assert i < i + 1 <= j;
      }
    }
  }

  lemma Rotate3<T>(x: T, y: T, z: T)
    ensures multiset([x, y, z]) == multiset([y, z, x])
  {
    assert [x, y, z] == [x] + [y, z] && [y, z, x] == [y, z] + [x];
  }

  lemma DistinctKeys3(x: Entry, y: Entry, z: Entry, key: Entry -> Pair)
    requires key(x) != key(y) && key(x) != key(z) && key(y) != key(z)
    ensures forall u, v :: u in [x, y, z] && v in [x, y, z] && key(u) == key(v) ==> u == v
  {
  }

  /** Sorted by (word2, word1) the two 看 rows are adjacent and 书 occurs in 书本, so the
      first sweep flags 书-看; after the second sort every row's neighbours hold another
      word1, so the second sweep flags nothing. */
  lemma Rule2Example()
    ensures Rule2Spec([ReadTextbook, Study, ReadBook], SearchIndex) == [ReadBook.(del := true), ReadTextbook, Study]
  {
    ExampleFirstSort();
    ExampleFirstSweep();
    ExampleSecondSort();
    ExampleSecondSweep();
  }

  lemma ExampleFirstSort()
    ensures Sort([ReadTextbook, Study, ReadBook], ByWord2) == [Study, ReadBook, ReadTextbook]
  {
    assert PairLe(ByWord2(Study), ByWord2(ReadBook)) && PairLe(ByWord2(ReadBook), ByWord2(ReadTextbook));
    PairLeTrans(ByWord2(Study), ByWord2(ReadBook), ByWord2(ReadTextbook));
    Rotate3(ReadTextbook, Study, ReadBook);
    DistinctKeys3(ReadTextbook, Study, ReadBook, ByWord2);
    SortDetermined([ReadTextbook, Study, ReadBook], [Study, ReadBook, ReadTextbook], ByWord2);
  }

  lemma ExampleFirstSweep()
    ensures SweepSpec([Study, ReadBook, ReadTextbook], SameWord2, SearchIndex)
            == [Study, ReadBook.(del := true), ReadTextbook]
  {
    var s1 := [Study, ReadBook, ReadTextbook];
    Isolated(s1, SameWord2, SearchIndex, 0);
    ContainsSingle(ReadTextbook.word1, '书');
    assert Witness(s1, SameWord2, SearchIndex, 1, 2);
  }

  lemma ExampleSecondSort()
    ensures Sort([Study, ReadBook.(del := true), ReadTextbook], ByWord1) == [ReadBook.(del := true), ReadTextbook, Study]
  {
    var flagged := ReadBook.(del := true);
    assert PairLe(ByWord1(flagged), ByWord1(ReadTextbook)) && PairLe(ByWord1(ReadTextbook), ByWord1(Study));
    PairLeTrans(ByWord1(flagged), ByWord1(ReadTextbook), ByWord1(Study));
    Rotate3(Study, flagged, ReadTextbook);
    DistinctKeys3(Study, flagged, ReadTextbook, ByWord1);
    SortDetermined([Study, flagged, ReadTextbook], [flagged, ReadTextbook, Study], ByWord1);
  }

  lemma ExampleSecondSweep()
    ensures var s2 := [ReadBook.(del := true), ReadTextbook, Study];
            SweepSpec(s2, SameWord1, SearchIndex) == s2
  {
    var s2 := [ReadBook.(del := true), ReadTextbook, Study];
    Isolated(s2, SameWord1, SearchIndex, 0);
    Isolated(s2, SameWord1, SearchIndex, 1);
    Isolated(s2, SameWord1, SearchIndex, 2);
  }

  // ---------------------------------------------------------------------------
  // process_colib_data: the masks, the reduction to (word1, word2), the two rules and the
  // split into kept and deleted rows.

  /** What the three masks let through: a frequency reaching the threshold, a relation
      off the blacklist and neither part of speech on the other blacklist. */
  predicate Kept(c: Counted<Record>, freqN: int, dep: set<string>, pos: set<string>)
  {
    c.count >= freqN && c.key.relation !in dep && c.key.pos1 !in pos && c.key.pos2 !in pos
  }

  /** The three masks applied in turn: frequency, relation, then either part of speech. */
  function FilterLibrary(rows: seq<Counted<Record>>, freqN: int, dep: set<string>, pos: set<string>): (r: seq<Counted<Record>>)
    ensures IsSubsequence(r, rows)
    ensures forall c :: c in r <==> c in rows && Kept(c, freqN, dep, pos)
    ensures forall c :: multiset(r)[c] == if Kept(c, freqN, dep, pos) then multiset(rows)[c] else 0
  {
    var frequent := (c: Counted<Record>) => c.count >= freqN;
    var related := (c: Counted<Record>) => c.key.relation !in dep;
    var tagged := (c: Counted<Record>) => !(c.key.pos1 in pos || c.key.pos2 in pos);
    var m1 := Filter(rows, frequent);
    var m2 := Filter(m1, related);
    var m3 := Filter(m2, tagged);
    FilterFacts(rows, frequent);
    FilterFacts(m1, related);
    FilterFacts(m2, tagged);
    SubsequenceTrans(m2, m1, rows);
    SubsequenceTrans(m3, m2, rows);
    m3
  }

  /** `drop(columns=[...])`: a row keeps its two words and its frequency. */
  function WordPair(c: Counted<Record>): Counted<Pair>
  {
    Counted((c.key.word1, c.key.word2), c.count)
  }

  /** The frequency the rows give the words (w1, w2), over every part of speech and
      relation. */
  function PairCount(rows: seq<Counted<Record>>, w1: string, w2: string): int
  {
    if |rows| == 0 then 0
    else (if rows[0].key.word1 == w1 && rows[0].key.word2 == w2 then rows[0].count else 0)
         + PairCount(rows[1..], w1, w2)
  }

  /** The word pairs the rows hold. */
  function Pairs(rows: seq<Counted<Record>>): set<Pair>
  {
    set c | c in rows :: (c.key.word1, c.key.word2)
  }

  lemma {:induction false} ProjectedCounts(rows: seq<Counted<Record>>)
    ensures forall w1, w2 :: SumFor(MapSeq(WordPair, rows), (w1, w2)) == PairCount(rows, w1, w2)
    ensures Total(MapSeq(WordPair, rows)) == Total(rows)
  {
    if |rows| > 0 {
      ProjectedCounts(rows[1..]);
      assert MapSeq(WordPair, rows)[1..] == MapSeq(WordPair, rows[1..]);
    }
  }

  lemma ProjectedPairs(rows: seq<Counted<Record>>)
    ensures KeySet(MapSeq(WordPair, rows)) == Pairs(rows)
  {
    var m := MapSeq(WordPair, rows);
    forall k | k in KeySet(m) ensures k in Pairs(rows) {
      var x :| x in m && x.key == k;
      var i :| 0 <= i < |m| && m[i] == x;
      assert rows[i] in rows;
    }
    forall k | k in Pairs(rows) ensures k in KeySet(m) {
      var c :| c in rows && (c.key.word1, c.key.word2) == k;
      var i :| 0 <= i < |rows| && rows[i] == c;
      assert m[i] in m;
    }
  }

  /** `groupby(["词语1", "词语2"]).sum()` after the drop: one row per word pair, holding
      the frequency the rows give that pair, and the same total. */
  function Reduce(rows: seq<Counted<Record>>): (r: seq<Counted<Pair>>)
    ensures UniqueKeys(r)
    ensures KeySet(r) == Pairs(rows)
    ensures forall w1, w2 :: SumFor(r, (w1, w2)) == PairCount(rows, w1, w2)
    ensures Total(r) == Total(rows)
  {
    ProjectedCounts(rows);
    ProjectedPairs(rows);
    GroupSum(MapSeq(WordPair, rows))
  }

  /** With a non-negative threshold, every reduced row still reaches it: it sums at least
      one row that passed the frequency mask and others that are not negative. */
  lemma ReducedAboveThreshold(rows: seq<Counted<Record>>, freqN: int, dep: set<string>, pos: set<string>)
    requires freqN >= 0
    ensures forall x :: x in Reduce(FilterLibrary(rows, freqN, dep, pos)) ==> x.count >= freqN
  {
    var f := FilterLibrary(rows, freqN, dep, pos);
    var m := MapSeq(WordPair, f);
    var g := GroupSum(m);
    assert Reduce(f) == g;
    assert forall y :: y in m ==> y.count >= freqN by {
      forall y | y in m ensures y.count >= freqN {
        var i :| 0 <= i < |m| && m[i] == y;
        assert f[i] in f;
      }
    }
    GroupSumAtLeast(m, freqN);
  }

  /** `colib_data["is_del"] = 0`. */
  function Unmarked(c: Counted<Pair>): Entry
  {
    Entry(c.key.0, c.key.1, c.count, false)
  }

  /** A row with its flag cleared: the (word1, word2, frequency) the text files keep. */
  function Unflagged(e: Entry): Entry
  {
    e.(del := false)
  }

  /** The table `process_colib_data` splits: filtered, reduced, flagged by `rule_1`, then by
      `rule_2`. */
  ghost function Refined(rows: seq<Counted<Record>>, freqN: int, dep: set<string>, pos: set<string>): seq<Entry>
  {
    Rule2Spec(MapSeq(Rule1Row, MapSeq(Unmarked, Reduce(FilterLibrary(rows, freqN, dep, pos)))), SearchIndex)
  }

  /** `rule_2` keeps the multiset of (word1, word2, frequency) rows. */
  lemma Rule2KeepsRows(s: seq<Entry>, w: nat)
    ensures multiset(MapSeq(Unflagged, Rule2Spec(s, w))) == multiset(MapSeq(Unflagged, s))
  {
    var t := Sort(Sort(s, ByWord2), ByWord1);
    Rule2OnlyRaisesFlags(s, w);
    assert MapSeq(Unflagged, Rule2Spec(s, w)) == MapSeq(Unflagged, t);
    MapSeqMultiset(Unflagged, t, s);
  }

  /** Flags aside, the table the two rules leave holds exactly the reduced rows. */
  lemma RefinedRows(rows: seq<Counted<Record>>, freqN: int, dep: set<string>, pos: set<string>)
    ensures multiset(MapSeq(Unflagged, Refined(rows, freqN, dep, pos)))
            == multiset(MapSeq(Unmarked, Reduce(FilterLibrary(rows, freqN, dep, pos))))
  {
    var e := MapSeq(Unmarked, Reduce(FilterLibrary(rows, freqN, dep, pos)));
    var e1 := MapSeq(Rule1Row, e);
    Rule2KeepsRows(e1, SearchIndex);
    assert MapSeq(Unflagged, e1) == e;
  }

  /** With a non-negative threshold no row of the refined table falls below it. */
  lemma RefinedAboveThreshold(rows: seq<Counted<Record>>, freqN: int, dep: set<string>, pos: set<string>)
    requires freqN >= 0
    ensures forall x :: x in Refined(rows, freqN, dep, pos) ==> x.freq >= freqN
  {
    var t := Refined(rows, freqN, dep, pos);
    var r := Reduce(FilterLibrary(rows, freqN, dep, pos));
    var e := MapSeq(Unmarked, r);
    RefinedRows(rows, freqN, dep, pos);
    ReducedAboveThreshold(rows, freqN, dep, pos);
    forall x | x in t ensures x.freq >= freqN {
      var i :| 0 <= i < |t| && t[i] == x;
      var u := MapSeq(Unflagged, t);
      assert u[i] in multiset(u);
      assert u[i] in multiset(e);
      var j :| 0 <= j < |e| && e[j] == u[i];
      assert r[j] in r;
    }
  }

  predicate IsDeleted(e: Entry)
  {
    e.del
  }

  predicate IsLive(e: Entry)
  {
    !e.del
  }

  /** `is_del == 1` and `is_del == 0` split the table: every row lands in exactly one of
      the two outputs, as often as it occurs. */
  lemma Partition(t: seq<Entry>)
    ensures multiset(Filter(t, IsLive)) + multiset(Filter(t, IsDeleted)) == multiset(t)
    ensures forall e :: e in Filter(t, IsLive) <==> e in t && !e.del
    ensures forall e :: e in Filter(t, IsDeleted) <==> e in t && e.del
  {
    FilterFacts(t, IsLive);
    FilterFacts(t, IsDeleted);
    var live, dead := Filter(t, IsLive), Filter(t, IsDeleted);
    assert forall e :: (multiset(live) + multiset(dead))[e] == multiset(t)[e] by {
      forall e ensures (multiset(live) + multiset(dead))[e] == multiset(t)[e] {
        assert multiset(live)[e] == if IsLive(e) then multiset(t)[e] else 0;
        assert multiset(dead)[e] == if IsDeleted(e) then multiset(t)[e] else 0;
      }
    }
  }

  // ---------------------------------------------------------------------------
  // save_to_txt.

  /** `f"{w1} {w2}:{freq}"`. */
  function FormatLine(e: Entry): string
  {
    e.word1 + " " + e.word2 + ":" + IntToString(e.freq)
  }

  /** `int(s)` accepts the text: an optional minus sign, then at least one digit. */
  predicate IsIntText(num: string)
  {
    |num| >= 1 && (IsDigit(num[0]) || (num[0] == '-' && |num| >= 2))
    && forall k :: 1 <= k < |num| ==> IsDigit(num[k])
  }

  /** Reading a line back: word1 up to the first space, the frequency after the last colon,
      word2 in between. */
  function ParseLine(line: string): (r: Option<Entry>)
    ensures r.Some? ==> ' ' !in r.value.word1 && !r.value.del
  {
    match IndexOf(line, ' ')
    case None => None
    case Some(i) =>
      match LastIndexOf(line, ':')
      case None => None
      case Some(j) =>
        if j <= i || !IsIntText(line[j + 1..]) then None
        else Some(Entry(line[..i], line[i + 1..j], ParseInt(line[j + 1..]), false))
  }

  /** A line made of a space-free word, a space, a word, a colon and a number without a
      colon reads back as those three. */
  lemma ParseFields(w1: string, w2: string, num: string)
    requires ' ' !in w1 && ':' !in num && IsIntText(num)
    ensures ParseLine(w1 + " " + w2 + ":" + num) == Some(Entry(w1, w2, ParseInt(num), false))
  {
    var line, i, j := w1 + " " + w2 + ":" + num, |w1|, |w1 + " " + w2|;
    FirstSpace(w1, w2, num);
    LastColon(w1, w2, num);
    LineFields(w1, w2, num);
    assert IndexOf(line, ' ') == Some(i) && LastIndexOf(line, ':') == Some(j) && i < j;
    assert line[j + 1..] == num;
  }

  lemma FirstSpace(w1: string, w2: string, num: string)
    requires ' ' !in w1
    ensures IndexOf(w1 + " " + w2 + ":" + num, ' ') == Some(|w1|)
  {
    var p1 := w1 + " ";
    var p2 := p1 + w2;
    var p3 := p2 + ":";
    assert w1 + [' '] + "" == p1;
    IndexOfAfter(w1, ' ', "");
    IndexOfExtend(p1, w2, ' ');
    IndexOfExtend(p2, ":", ' ');
    IndexOfExtend(p3, num, ' ');
  }

  lemma LastColon(w1: string, w2: string, num: string)
    requires ':' !in num
    ensures LastIndexOf(w1 + " " + w2 + ":" + num, ':') == Some(|w1 + " " + w2|)
  {
    LastIndexOfBefore(w1 + " " + w2, ':', num);
  }

  lemma LineFields(w1: string, w2: string, num: string)
    ensures var line, i, j := w1 + " " + w2 + ":" + num, |w1|, |w1 + " " + w2|;
            line[..i] == w1 && line[i + 1..j] == w2 && line[j + 1..] == num
  {
    var p2 := w1 + " " + w2;
    var line := p2 + ":" + num;
    assert line[..|p2|] == p2;
    assert p2[|w1| + 1..] == w2;
  }

  /** A line read back gives the row's words and frequency, provided word1 holds no space. */
  lemma FormatParse(e: Entry)
    requires ' ' !in e.word1
    ensures ParseLine(FormatLine(e)) == Some(Unflagged(e))
  {
    IntToStringChars(e.freq);
    IntRoundTrip(e.freq);
    ParseFields(e.word1, e.word2, IntToString(e.freq));
  }

  /** Without that proviso the format is ambiguous: two different rows print alike. */
  lemma FormatAmbiguous()
    ensures var x, y := Entry("a b", "c", 1, false), Entry("a", "b c", 1, false);
            x != y && FormatLine(x) == FormatLine(y)
  {
    assert IntToString(1) == "1";
  }

  /** The file `save_to_txt` writes: the rows sorted by (word1, word2), one line each. */
  function TxtContent(rows: seq<Entry>): string
  {
    Unlines(MapSeq(FormatLine, Sort(rows, ByWord1)))
  }

  /** `file_path + f"_n={n}_sI={sI}" + ".txt"`, with the configured values, not the
      threshold passed in. */
  const Suffix: string := "_n=" + IntToString(FreqN) + "_sI=" + IntToString(SearchIndex) + ".txt"

  lemma SuffixValue()
    ensures Suffix == "_n=10_sI=60.txt"
  {
    assert NatToString(10) == NatToString(1) + [DigitChar(0)];
    assert NatToString(60) == NatToString(6) + [DigitChar(0)];
  }

  /** `save_to_txt`: the lines of the rows in (word1, word2) order, written one by one. */
  method SaveToTxt(rows: seq<Entry>, base: string) returns (file: TextFile)
    ensures file == TextFile(base + Suffix, TxtContent(rows))
  {
    var sorted := Sort(rows, ByWord1);
    var content := "";
    for i := 0 to |sorted|
      invariant content == Unlines(MapSeq(FormatLine, sorted[..i]))
    {
      WriteLineStep(sorted, i);
      content := content + FormatLine(sorted[i]) + "\n";
    }
    assert sorted[..|sorted|] == sorted;
    file := TextFile(base + Suffix, content);
  }

  /** Writing line `i` extends the file holding the lines before it. */
  lemma WriteLineStep(rows: seq<Entry>, i: nat)
    requires i < |rows|
    ensures Unlines(MapSeq(FormatLine, rows[..i + 1])) == Unlines(MapSeq(FormatLine, rows[..i])) + FormatLine(rows[i]) + "\n"
  {
    assert rows[..i + 1] == rows[..i] + [rows[i]];
    MapSeqAppend(FormatLine, rows[..i], [rows[i]]);
    assert MapSeq(FormatLine, [rows[i]]) == [FormatLine(rows[i])];
    UnlinesSnoc(MapSeq(FormatLine, rows[..i]), FormatLine(rows[i]));
  }

  /** The written file reads back as the rows in (word1, word2) order, when no word1 holds
      a space and no word a line break. */
  lemma TxtRoundTrip(rows: seq<Entry>)
    requires forall e :: e in rows ==> ' ' !in e.word1 && '\n' !in e.word1 && '\n' !in e.word2
    ensures var parts, sorted := Split(TxtContent(rows), '\n'), Sort(rows, ByWord1);
            |parts| == |rows| + 1 && parts[|rows|] == ""
            && forall i :: 0 <= i < |rows| ==> ParseLine(parts[i]) == Some(Unflagged(sorted[i]))
  {
    var sorted := Sort(rows, ByWord1);
    SortedFrom(rows, sorted);
    LinesWithoutBreaks(sorted);
    UnlinesSplit(MapSeq(FormatLine, sorted));
    forall i | 0 <= i < |sorted| ensures ParseLine(FormatLine(sorted[i])) == Some(Unflagged(sorted[i])) {
      assert sorted[i] in sorted;
      FormatParse(sorted[i]);
    }
  }

  lemma SortedFrom(rows: seq<Entry>, sorted: seq<Entry>)
    requires multiset(sorted) == multiset(rows)
    ensures forall e :: e in sorted ==> e in rows
  {
    forall e | e in sorted ensures e in rows {
      assert e in multiset(sorted);
    }
  }

  /** No line holds a line break when no word does. */
  lemma LinesWithoutBreaks(rows: seq<Entry>)
    requires forall e :: e in rows ==> '\n' !in e.word1 && '\n' !in e.word2
    ensures forall l :: l in MapSeq(FormatLine, rows) ==> '\n' !in l
  {
    var lines := MapSeq(FormatLine, rows);
    forall l | l in lines ensures '\n' !in l {
      var i :| 0 <= i < |lines| && lines[i] == l;
      assert rows[i] in rows;
      IntToStringChars(rows[i].freq);
      assert l == rows[i].word1 + " " + rows[i].word2 + ":" + IntToString(rows[i].freq);
    }
  }

  // ---------------------------------------------------------------------------
  // The whole of process_colib_data.

  /** The six columns `process_colib_data` selects by name. */
  const UsedColumns: set<string> := {"词语1", "词语2", "词语1词性", "词语2词性", "词语间依存关系", "搭配频次"}

  /** A library as `read_csv` returns it: its column names and its rows, read through the
      columns the code uses. */
  datatype ColibLibrary = ColibLibrary(columns: set<string>, rows: seq<Counted<Record>>)

  /** The code only selects columns by name, so a library holding the six it uses is
      processed whatever other columns it has (a saved index, say); one that lacks any of
      them raises `KeyError`. */
  predicate HasUsedColumns(lib: ColibLibrary)
  {
    UsedColumns <= lib.columns
  }

  /** The exceptions `process_colib_data` raises and reports: an output path that is
      already there, a library file that is not, a library without one of the columns it uses,
      or a library of which no row survives the masks (`rule_1`'s `apply` on an empty
      frame returns a frame, and assigning it to the one column `is_del` raises). */
  datatype ProcessError = ResultExists | AuxExists | LibraryMissing | ColumnsMissing | NoRowsLeft

  /** The two files written: the kept rows, and the deleted rows when an auxiliary path
      was given. */
  datatype Written = Written(result: TextFile, aux: Option<TextFile>)

  /** The files on disk after the run's writes, in the order the code makes them: the
      auxiliary file first, then the result file, which replaces it on the same path. */
  function Disk(w: Written): (d: map<string, string>)
    ensures forall p :: p in d <==> p == w.result.path || (w.aux.Some? && p == w.aux.value.path)
    ensures d[w.result.path] == w.result.content
    ensures w.aux.Some? && w.aux.value.path != w.result.path ==> d[w.aux.value.path] == w.aux.value.content
  {
    var first := if w.aux.Some? then map[w.aux.value.path := w.aux.value.content] else map[];
    first[w.result.path := w.result.content]
  }

  /** The existence checks as written: on the two paths as given, which are not the
      paths `save_to_txt` writes. */
  predicate OutputExists(existing: set<string>, resultFile: string, auxFile: string)
  {
    resultFile in existing || (auxFile != "" && auxFile in existing)
  }

  /** The existence checks on the files `save_to_txt` writes. */
  predicate WrittenExists(existing: set<string>, resultFile: string, auxFile: string)
  {
    resultFile + Suffix in existing || (auxFile != "" && auxFile + Suffix in existing)
  }

  /** When the auxiliary path is the result path, only the result file is left on disk. */
  lemma DiskSamePath(w: Written)
    requires w.aux.None? || w.aux.value.path == w.result.path
    ensures Disk(w) == map[w.result.path := w.result.content]
  {
  }

  /** An empty library after the masks reduces to no row, and a non-empty one to some. */
  lemma {:induction false} ReduceEmpty(rows: seq<Counted<Record>>)
    ensures |Reduce(rows)| == 0 <==> rows == []
  {
    var r := Reduce(rows);
    if rows != [] {
      assert (rows[0].key.word1, rows[0].key.word2) in Pairs(rows);
      assert KeySet(r) != {};
    }
    if r != [] {
      assert r[0].key in KeySet(r);
    }
  }

  /** Everything after the library is read: the masks, the reduction, the two rules and
      the split, each half written by `save_to_txt`; nothing is written when no row
      survives the masks. */
  method RefineAndSave(rows: seq<Counted<Record>>, resultFile: string, auxFile: string,
                       freqN: int, dep: set<string>, pos: set<string>)
    returns (out: Result<Written, ProcessError>)
    ensures out.Err? <==> FilterLibrary(rows, freqN, dep, pos) == []
    ensures out.Err? ==> out.error == NoRowsLeft
    ensures out.Ok? ==>
              var t := Refined(rows, freqN, dep, pos);
              out.value.result == TextFile(resultFile + Suffix, TxtContent(Filter(t, IsLive)))
              && (auxFile == "" ==> out.value.aux.None?)
              && (auxFile != "" ==> out.value.aux == Some(TextFile(auxFile + Suffix, TxtContent(Filter(t, IsDeleted)))))
    ensures out.Ok? && auxFile == resultFile ==> Disk(out.value) == map[out.value.result.path := out.value.result.content]
  {
    var kept := FilterLibrary(rows, freqN, dep, pos);
    ReduceEmpty(kept);
    var entries := MapSeq(Unmarked, Reduce(kept));
    if |entries| == 0 {
      return Err(NoRowsLeft);
    }
    var a := new Entry[|entries|](i requires 0 <= i < |entries| => entries[i]);
    assert a[..] == entries;
    Rule1(a);
    assert a[..] == MapSeq(Rule1Row, entries);
    Rule2(a);
    var t := a[..];
    var aux := None;
    if auxFile != "" {
      var f := SaveToTxt(Filter(t, IsDeleted), auxFile);
      aux := Some(f);
    }
    var result := SaveToTxt(Filter(t, IsLive), resultFile);
    if auxFile == resultFile {
      DiskSamePath(Written(result, aux));
    }
    return Ok(Written(result, aux));
  }

  /** `process_colib_data`, as written. The paths already on disk are passed in as
      `existing`; `library` is the table `read_csv` returns, `None` for a missing file; an
      empty `auxFile` is Python's falsy path. The checks run in the source's order, on the
      paths as given; a run that gets past them writes the suffixed paths, whether or not
      those exist. */
  method ProcessColibData(library: Option<ColibLibrary>, existing: set<string>, resultFile: string,
                          auxFile: string, freqN: int, dep: set<string>, pos: set<string>)
    returns (out: Result<Written, ProcessError>)
    ensures resultFile in existing ==> out == Err(ResultExists)
    ensures resultFile !in existing && auxFile != "" && auxFile in existing ==> out == Err(AuxExists)
    ensures !OutputExists(existing, resultFile, auxFile) && library.None? ==> out == Err(LibraryMissing)
    ensures !OutputExists(existing, resultFile, auxFile) && library.Some? && !HasUsedColumns(library.value)
            ==> out == Err(ColumnsMissing)
    ensures !OutputExists(existing, resultFile, auxFile) && library.Some? && HasUsedColumns(library.value)
            ==> (out.Ok? <==> FilterLibrary(library.value.rows, freqN, dep, pos) != [])
                && (out.Err? ==> out.error == NoRowsLeft)
    ensures out.Ok? ==> library.Some? && HasUsedColumns(library.value)
    ensures out.Ok? ==>
              var t := Refined(library.value.rows, freqN, dep, pos);
              out.value.result == TextFile(resultFile + Suffix, TxtContent(Filter(t, IsLive)))
              && (auxFile == "" ==> out.value.aux.None?)
              && (auxFile != "" ==> out.value.aux == Some(TextFile(auxFile + Suffix, TxtContent(Filter(t, IsDeleted)))))
  {
    if resultFile in existing {
      return Err(ResultExists);
    }
    if auxFile != "" && auxFile in existing {
      return Err(AuxExists);
    }
    if library.None? {
      return Err(LibraryMissing);
    }
    if !HasUsedColumns(library.value) {
      return Err(ColumnsMissing);
    }
    out := RefineAndSave(library.value.rows, resultFile, auxFile, freqN, dep, pos);
  }

  /** A result file from an earlier run is not seen by the checks: its path carries the
      suffix, the checked path does not. */
  lemma GuardMissesWrittenFile()
    ensures var existing := {"colib" + Suffix};
            !OutputExists(existing, "colib", "") && WrittenExists(existing, "colib", "")
  {
    var existing := {"colib" + Suffix};
    SuffixValue();
    assert "colib" != "colib" + Suffix by { assert |"colib" + Suffix| > |"colib"|; }
  }

  /** `process_colib_data` with the checks on the files it writes: a run that succeeds
      never writes over a file that was already there. */
  method ProcessColibDataGuarded(library: Option<ColibLibrary>, existing: set<string>, resultFile: string,
                                 auxFile: string, freqN: int, dep: set<string>, pos: set<string>)
    returns (out: Result<Written, ProcessError>)
    ensures resultFile + Suffix in existing ==> out == Err(ResultExists)
    ensures resultFile + Suffix !in existing && auxFile != "" && auxFile + Suffix in existing ==> out == Err(AuxExists)
    ensures !WrittenExists(existing, resultFile, auxFile) && library.None? ==> out == Err(LibraryMissing)
    ensures !WrittenExists(existing, resultFile, auxFile) && library.Some? && !HasUsedColumns(library.value)
            ==> out == Err(ColumnsMissing)
    ensures !WrittenExists(existing, resultFile, auxFile) && library.Some? && HasUsedColumns(library.value)
            ==> (out.Ok? <==> FilterLibrary(library.value.rows, freqN, dep, pos) != [])
    ensures out.Ok? ==> out.value.result.path !in existing
                        && (out.value.aux.Some? ==> out.value.aux.value.path !in existing)
    ensures out.Ok? ==> library.Some? && HasUsedColumns(library.value)
    ensures out.Ok? ==>
              var t := Refined(library.value.rows, freqN, dep, pos);
              out.value.result == TextFile(resultFile + Suffix, TxtContent(Filter(t, IsLive)))
              && (auxFile == "" ==> out.value.aux.None?)
              && (auxFile != "" ==> out.value.aux == Some(TextFile(auxFile + Suffix, TxtContent(Filter(t, IsDeleted)))))
  {
    if resultFile + Suffix in existing {
      return Err(ResultExists);
    }
    if auxFile != "" && auxFile + Suffix in existing {
      return Err(AuxExists);
    }
    if library.None? {
      return Err(LibraryMissing);
    }
    if !HasUsedColumns(library.value) {
      return Err(ColumnsMissing);
    }
    out := RefineAndSave(library.value.rows, resultFile, auxFile, freqN, dep, pos);
  }
}
