/** Collocation extraction from dependency-parsed sentences: one record per dependency
    arc, three clean-up rules, the alternative extractor that pairs adjacent nouns, the
    merge of collocation tables and the fold over a corpus of parsed articles. */
module CollocationGen {
  import opened Outcomes
  import opened Text
  import opened Seqs
  import opened Tables

  /** One dependency arc of token `i`: the 1-based index of its head token (0 when the
      token is the root) and the relation label. */
  datatype Edge = Edge(head: nat, relation: string)

  /** A collocation, the five key columns of the library: the two words in sentence
      order, their part-of-speech tags and the dependency relation between them. */
  datatype Record = Record(word1: string, word2: string, pos1: string, pos2: string, relation: string)

  const Punct := "punct"
  const RootRelation := "root"
  const CompoundNn := "compound:nn"
  const PersonTag := "nr"
  const NumeralTag := "m"
  const PersonMark := "@"
  const NumeralMark := "#"

  // ---------------------------------------------------------------------------
  // singleSentenceProcess: one record per non-root arc.

  /** Looking up the two tokens of the arc of token `i` raises no IndexError. */
  predicate InRange(tok: seq<string>, tags: seq<string>, i: nat, e: Edge)
  {
    e.head == 0 || (i < |tok| && i < |tags| && e.head <= |tok| && e.head <= |tags|)
  }

  predicate AllInRange(tok: seq<string>, tags: seq<string>, dep: seq<Edge>)
  {
    forall i :: 0 <= i < |dep| ==> InRange(tok, tags, i, dep[i])
  }

  function Min(a: int, b: int): int { if a <= b then a else b }
  function Max(a: int, b: int): int { if a <= b then b else a }

  /** The record of the arc of token `i`, or nothing for the root arc. */
  function ArcRecord(tok: seq<string>, tags: seq<string>, i: nat, e: Edge): (r: Option<Record>)
    requires InRange(tok, tags, i, e)
    ensures r.None? <==> e.head == 0
    ensures r.Some? ==>
              var lo, hi := Min(e.head - 1, i), Max(e.head - 1, i);
              0 <= lo <= hi && hi < |tok| && hi < |tags|
              && r.value == Record(tok[lo], tok[hi], tags[lo], tags[hi], e.relation)
  {
    if e.head == 0 then None
    else if e.head - 1 <= i then Some(Record(tok[e.head - 1], tok[i], tags[e.head - 1], tags[i], e.relation))
    else Some(Record(tok[i], tok[e.head - 1], tags[i], tags[e.head - 1], e.relation))
  }

  /** The records of the arcs of `dep`, in arc order. */
  function Records(tok: seq<string>, tags: seq<string>, dep: seq<Edge>): seq<Record>
    requires AllInRange(tok, tags, dep)
    decreases |dep|
  {
    if |dep| == 0 then []
    else
      var n := |dep| - 1;
      assert AllInRange(tok, tags, dep[..n]) by {
        forall i | 0 <= i < n ensures InRange(tok, tags, i, dep[..n][i]) {
          assert dep[..n][i] == dep[i];
        }
      }
      var prev := Records(tok, tags, dep[..n]);
      match ArcRecord(tok, tags, n, dep[n])
      case None => prev
      case Some(r) => prev + [r]
  }

  predicate IsArc(e: Edge) { e.head != 0 }

  /** Record `r` is what the arc of some token gives. */
  ghost predicate FromSomeArc(tok: seq<string>, tags: seq<string>, dep: seq<Edge>, r: Record)
    requires AllInRange(tok, tags, dep)
  {
    exists i :: 0 <= i < |dep| && ArcRecord(tok, tags, i, dep[i]) == Some(r)
  }

  lemma AllInRangePrefix(tok: seq<string>, tags: seq<string>, dep: seq<Edge>, n: nat)
    requires AllInRange(tok, tags, dep) && n <= |dep|
    ensures AllInRange(tok, tags, dep[..n])
  {
    forall i | 0 <= i < n ensures InRange(tok, tags, i, dep[..n][i]) {
      assert dep[..n][i] == dep[i];
    }
  }

  /** Every arc with a non-zero head gives exactly one record, and the root arc none. */
  lemma {:induction false} RecordsOfArcs(tok: seq<string>, tags: seq<string>, dep: seq<Edge>)
    requires AllInRange(tok, tags, dep)
    ensures |Records(tok, tags, dep)| == |Filter(dep, IsArc)|
    decreases |dep|
  {
    if |dep| > 0 {
      var n := |dep| - 1;
      var pre := dep[..n];
      AllInRangePrefix(tok, tags, dep, n);
      RecordsOfArcs(tok, tags, pre);
      assert dep == pre + [dep[n]];
      FilterAppend(pre, [dep[n]], IsArc);
      assert Filter([dep[n]], IsArc) == if IsArc(dep[n]) then [dep[n]] else [] by {
        assert [dep[n]][1..] == [];
      }
    }
  }

  /** The arcs of a sentence give a record exactly when one of the arcs but the last
      gives it or the last does. */
  lemma FromSomeArcSnoc(tok: seq<string>, tags: seq<string>, dep: seq<Edge>, r: Record)
    requires AllInRange(tok, tags, dep) && |dep| > 0
    requires AllInRange(tok, tags, dep[..|dep| - 1])
    ensures FromSomeArc(tok, tags, dep, r) <==>
              FromSomeArc(tok, tags, dep[..|dep| - 1], r) || ArcRecord(tok, tags, |dep| - 1, dep[|dep| - 1]) == Some(r)
  {
    var n := |dep| - 1;
    var pre := dep[..n];
    if FromSomeArc(tok, tags, dep, r) {
      var i :| 0 <= i < |dep| && ArcRecord(tok, tags, i, dep[i]) == Some(r);
      if i < n { assert pre[i] == dep[i]; }
    }
    if FromSomeArc(tok, tags, pre, r) {
      var i :| 0 <= i < |pre| && ArcRecord(tok, tags, i, pre[i]) == Some(r);
      assert pre[i] == dep[i];
    }
  }

  /** The records are exactly what the arcs give. */
  lemma {:induction false} RecordsMembers(tok: seq<string>, tags: seq<string>, dep: seq<Edge>)
    requires AllInRange(tok, tags, dep)
    ensures forall r :: r in Records(tok, tags, dep) <==> FromSomeArc(tok, tags, dep, r)
    decreases |dep|
  {
    if |dep| > 0 {
      var n := |dep| - 1;
      AllInRangePrefix(tok, tags, dep, n);
      RecordsMembers(tok, tags, dep[..n]);
      var prev, last := Records(tok, tags, dep[..n]), ArcRecord(tok, tags, n, dep[n]);
      assert Records(tok, tags, dep) == prev + (if last.Some? then [last.value] else []);
      forall r ensures r in Records(tok, tags, dep) <==> FromSomeArc(tok, tags, dep, r) {
        FromSomeArcSnoc(tok, tags, dep, r);
      }
    }
  }

  /** Without tokens no arc but the root's is in range, so there are no records. */
  lemma {:induction false} RecordsWithoutTokens(tags: seq<string>, dep: seq<Edge>)
    requires AllInRange([], tags, dep)
    ensures Records([], tags, dep) == []
    decreases |dep|
  {
    if |dep| > 0 {
      var n := |dep| - 1;
      assert AllInRange([], tags, dep[..n]) by {
        forall i | 0 <= i < n ensures InRange([], tags, i, dep[..n][i]) {
          assert dep[..n][i] == dep[i];
        }
      }
      RecordsWithoutTokens(tags, dep[..n]);
    }
  }

  /** The loop of `singleSentenceProcess` that appends one row per arc; `None` is the
      IndexError an arc pointing outside the sentence raises. */
  method BuildRecords(tok: seq<string>, tags: seq<string>, dep: seq<Edge>) returns (out: Option<seq<Record>>)
    ensures out.Some? <==> AllInRange(tok, tags, dep)
    ensures out.Some? ==> out.value == Records(tok, tags, dep)
  {
    var rows: seq<Record> := [];
    var i := 0;
    while i < |dep|
      invariant 0 <= i <= |dep|
      invariant AllInRange(tok, tags, dep[..i])
      invariant rows == Records(tok, tags, dep[..i])
    {
      if !InRange(tok, tags, i, dep[i]) {
        return None;
      }
      assert AllInRange(tok, tags, dep[..i + 1]) by {
        forall j | 0 <= j < i + 1 ensures InRange(tok, tags, j, dep[j]) {
          if j < i { assert dep[..i][j] == dep[j]; }
        }
      }
      assert dep[..i + 1][..i] == dep[..i];
      match ArcRecord(tok, tags, i, dep[i]) {
        case Some(r) => rows := rows + [r];
        case None =>
      }
      i := i + 1;
    }
    assert dep[..i] == dep;
    return Some(rows);
  }

  // ---------------------------------------------------------------------------
  // rule_1: drop punctuation and root arcs.

  predicate KeptByRule1(r: Record)
  {
    r.relation != Punct && r.relation != RootRelation
  }

  function Rule1(rows: seq<Record>): seq<Record>
  {
    Filter(rows, KeptByRule1)
  }

  /** `rule_1` keeps exactly the rows whose relation is neither `punct` nor `root`, each
      as often as it occurs, in their original order. */
  lemma Rule1Keeps(rows: seq<Record>)
    ensures IsSubsequence(Rule1(rows), rows)
    ensures forall x :: x in Rule1(rows) <==> x in rows && x.relation != Punct && x.relation != RootRelation
    ensures forall x :: multiset(Rule1(rows))[x] == if KeptByRule1(x) then multiset(rows)[x] else 0
  {
    FilterFacts(rows, KeptByRule1);
  }

  // ---------------------------------------------------------------------------
  // rule_3: person names and numerals become placeholders.

  /** The word written in place of a word with this tag. */
  function Mask(word: string, tag: string): string
  {
    if tag == PersonTag then PersonMark else if tag == NumeralTag then NumeralMark else word
  }

  /** Each word is masked by its own tag; tags and relation stay. */
  function Placeholder(r: Record): (p: Record)
    ensures p.pos1 == r.pos1 && p.pos2 == r.pos2 && p.relation == r.relation
    ensures r.pos1 != PersonTag && r.pos1 != NumeralTag ==> p.word1 == r.word1
    ensures r.pos2 != PersonTag && r.pos2 != NumeralTag ==> p.word2 == r.word2
  {
    r.(word1 := Mask(r.word1, r.pos1), word2 := Mask(r.word2, r.pos2))
  }

  /** Masking twice is masking once. */
  lemma PlaceholderIdempotent(r: Record)
    ensures Placeholder(Placeholder(r)) == Placeholder(r)
  {
  }

  /** `rule_3`'s column overwrites: every row of the table gets its placeholders, in place. */
  method Rule3(a: array<Record>)
    modifies a
    ensures a[..] == MapSeq(Placeholder, old(a[..]))
  {
    var i := 0;
    while i < a.Length
      invariant 0 <= i <= a.Length
      invariant forall k :: 0 <= k < i ==> a[k] == Placeholder(old(a[k]))
      invariant forall k :: i <= k < a.Length ==> a[k] == old(a[k])
    {
      a[i] := Placeholder(a[i]);
      i := i + 1;
    }
  }

  /** The rows `rule_3` produces: the same number, each masked by its own tags. */
  lemma Rule3Rows(rows: seq<Record>)
    ensures |MapSeq(Placeholder, rows)| == |rows|
    ensures forall i :: 0 <= i < |rows| ==>
              var p := MapSeq(Placeholder, rows)[i];
              p.pos1 == rows[i].pos1 && p.pos2 == rows[i].pos2 && p.relation == rows[i].relation
              && (rows[i].pos1 == PersonTag ==> p.word1 == PersonMark)
              && (rows[i].pos1 == NumeralTag ==> p.word1 == NumeralMark)
              && (rows[i].pos2 == PersonTag ==> p.word2 == PersonMark)
              && (rows[i].pos2 == NumeralTag ==> p.word2 == NumeralMark)
  {
  }

  // ---------------------------------------------------------------------------
  // rule_2: of the compound-noun rows that end at a head, keep the nearest one.

  /** `sentTok[center_idx - 1]`; for head 0 Python's index -1 is the last token. */
  function TokAt(tok: seq<string>, c: nat): string
    requires 0 < |tok| && c <= |tok|
  {
    if c == 0 then tok[|tok| - 1] else tok[c - 1]
  }

  /** `sentTok.index(w)`: the first position of `w`. */
  function FirstIndex(tok: seq<string>, w: string): (k: nat)
    requires w in tok
    ensures k < |tok| && tok[k] == w
    ensures forall j :: 0 <= j < k ==> tok[j] != w
  {
    if tok[0] == w then 0 else 1 + FirstIndex(tok[1..], w)
  }

  function Abs(x: int): nat { if x < 0 then -x else x }

  /** A row the scan for head `c` looks at: a compound-noun row whose second word is
      the head's token and whose first word is a token of the sentence. */
  predicate Candidate(tok: seq<string>, c: nat, r: Record)
    requires 0 < |tok| && c <= |tok|
  {
    r.relation == CompoundNn && r.word2 == TokAt(tok, c) && r.word1 in tok
  }

  /** `abs(center_idx - 1 - sentTok.index(word1))`. */
  function Distance(tok: seq<string>, c: nat, r: Record): nat
    requires r.word1 in tok
  {
    Abs(c - 1 - FirstIndex(tok, r.word1))
  }

  /** The row the scan for head `c` keeps, by its index. */
  function Nearest(rows: seq<Record>, tok: seq<string>, c: nat): (k: Option<nat>)
    requires 0 < |tok| && c <= |tok|
    ensures k.Some? ==> k.value < |rows| && Candidate(tok, c, rows[k.value])
    decreases |rows|
  {
    if |rows| == 0 then None
    else
      var n := |rows| - 1;
      var prev := Nearest(rows[..n], tok, c);
      assert prev.Some? ==> rows[..n][prev.value] == rows[prev.value];
      var x := rows[n];
      if Candidate(tok, c, x) && (prev.None? || Distance(tok, c, x) < Distance(tok, c, rows[prev.value])) then
        Some(n)
      else
        prev
  }

  /** The kept row is a candidate at the smallest distance, and the first such in table
      order (the comparison is strict); there is none exactly when no row is a candidate. */
  lemma {:induction false} NearestIsNearest(rows: seq<Record>, tok: seq<string>, c: nat)
    requires 0 < |tok| && c <= |tok|
    ensures Nearest(rows, tok, c).None? <==> forall j :: 0 <= j < |rows| ==> !Candidate(tok, c, rows[j])
    ensures Nearest(rows, tok, c).Some? ==>
              var k := Nearest(rows, tok, c).value;
              Candidate(tok, c, rows[k])
              && (forall j :: 0 <= j < |rows| && Candidate(tok, c, rows[j]) ==>
                    Distance(tok, c, rows[k]) <= Distance(tok, c, rows[j]))
              && (forall j :: 0 <= j < k && Candidate(tok, c, rows[j]) ==>
                    Distance(tok, c, rows[k]) < Distance(tok, c, rows[j]))
    decreases |rows|
  {
    if |rows| > 0 {
      var n := |rows| - 1;
      var pre := rows[..n];
      NearestIsNearest(pre, tok, c);
      assert forall j :: 0 <= j < n ==> pre[j] == rows[j];
      var prev, x := Nearest(pre, tok, c), rows[n];
      if Candidate(tok, c, x) && (prev.None? || Distance(tok, c, x) < Distance(tok, c, rows[prev.value])) {
        assert Nearest(rows, tok, c) == Some(n);
        forall j | 0 <= j < n && Candidate(tok, c, rows[j]) ensures Distance(tok, c, x) < Distance(tok, c, rows[j]) {
          assert Candidate(tok, c, pre[j]);
        }
      } else {
        assert Nearest(rows, tok, c) == prev;
      }
    }
  }

  /** The inner loop of `rule_2`: the scan over all rows for head `c`, keeping the
      nearest row seen so far and its distance (`None` for `float("inf")`). */
  method ScanNearest(rows: seq<Record>, tok: seq<string>, c: nat) returns (nearest: Option<Record>)
    requires 0 < |tok| && c <= |tok|
    ensures nearest == (match Nearest(rows, tok, c) case None => None case Some(k) => Some(rows[k]))
  {
    nearest := None;
    var minDistance: Option<nat> := None;
    var i := 0;
    while i < |rows|
      invariant 0 <= i <= |rows|
      invariant match Nearest(rows[..i], tok, c)
                case None => nearest.None? && minDistance.None?
                case Some(k) => k < i && nearest == Some(rows[k])
                                && minDistance == Some(Distance(tok, c, rows[k]))
    {
      assert rows[..i + 1][..i] == rows[..i];
      assert rows[..i + 1][i] == rows[i];
      var row := rows[i];
      if row.relation == CompoundNn && row.word2 == TokAt(tok, c) {
        if row.word1 in tok {
          var d := Distance(tok, c, row);
          if minDistance.None? || d < minDistance.value {
            nearest := Some(row);
            minDistance := Some(d);
          }
        }
      }
      i := i + 1;
    }
    assert rows[..i] == rows;
  }

  /** The heads of the compound-noun arcs (`center_words`). */
  function Centers(dep: seq<Edge>): set<nat>
  {
    set e | e in dep && e.relation == CompoundNn :: e.head
  }

  /** The kept rows for the heads below `c` that are centres, in ascending head order. */
  function Picks(rows: seq<Record>, tok: seq<string>, centers: set<nat>, c: nat): seq<Record>
    requires 0 < |tok| && c <= |tok| + 1
    decreases c
  {
    if c == 0 then []
    else
      var prev := Picks(rows, tok, centers, c - 1);
      if c - 1 in centers then
        match Nearest(rows, tok, c - 1)
        case Some(k) => prev + [rows[k]]
        case None => prev
      else prev
  }

  /** At most one row per centre is kept. */
  lemma {:induction false} PicksCount(rows: seq<Record>, tok: seq<string>, centers: set<nat>, c: nat)
    requires 0 < |tok| && c <= |tok| + 1
    ensures |Picks(rows, tok, centers, c)| <= |set h | h in centers && h < c|
    decreases c
  {
    if c > 0 {
      PicksCount(rows, tok, centers, c - 1);
      var below := set h | h in centers && h < c - 1;
      if c - 1 in centers {
        assert (set h | h in centers && h < c) == below + {c - 1};
        assert c - 1 !in below;
      } else {
        assert (set h | h in centers && h < c) == below;
      }
    }
  }

  /** Each kept row is a compound-noun row of the table that the scan for one of the
      centres keeps. */
  lemma {:induction false} PicksFacts(rows: seq<Record>, tok: seq<string>, centers: set<nat>, c: nat)
    requires 0 < |tok| && c <= |tok| + 1
    ensures forall x :: x in Picks(rows, tok, centers, c) ==> x in rows && x.relation == CompoundNn
    ensures forall x :: x in Picks(rows, tok, centers, c) ==>
              exists h :: h in centers && h < c && IsPickFor(rows, tok, h, x)
    decreases c
  {
    if c > 0 {
      PicksFacts(rows, tok, centers, c - 1);
      if c - 1 in centers {
        match Nearest(rows, tok, c - 1)
        case Some(k) =>
          assert IsPickFor(rows, tok, c - 1, rows[k]);
        case None =>
      }
    }
  }

  /** `x` is the row the scan for head `h` keeps. */
  ghost predicate IsPickFor(rows: seq<Record>, tok: seq<string>, h: nat, x: Record)
  {
    0 < |tok| && h <= |tok| && Nearest(rows, tok, h).Some? && x == rows[Nearest(rows, tok, h).value]
  }

  predicate NotCompound(r: Record) { r.relation != CompoundNn }
  predicate IsCompound(r: Record) { r.relation == CompoundNn }

  /** `rule_2`'s result: the rows that are not compound-noun rows, then one row per head. */
  function Rule2Spec(rows: seq<Record>, tok: seq<string>, dep: seq<Edge>): seq<Record>
    requires 0 < |tok| || |rows| == 0
    requires forall e :: e in dep ==> e.head <= |tok|
  {
    if |tok| == 0 then [] else Filter(rows, NotCompound) + Picks(rows, tok, Centers(dep), |tok| + 1)
  }

  /** `rule_2`: for every centre (in ascending order) scan all rows, collect the kept
      rows, drop the compound-noun rows and append the kept ones. */
  method Rule2(rows: seq<Record>, tok: seq<string>, dep: seq<Edge>) returns (out: seq<Record>)
    requires 0 < |tok| || |rows| == 0
    requires forall e :: e in dep ==> e.head <= |tok|
    ensures out == Rule2Spec(rows, tok, dep)
  {
    if |tok| == 0 {
      return [];
    }
    var centers := Centers(dep);
    var filtered: seq<Record> := [];
    var c := 0;
    while c <= |tok|
      invariant 0 <= c <= |tok| + 1
      invariant filtered == Picks(rows, tok, centers, c)
    {
      if c in centers {
        var nearest := ScanNearest(rows, tok, c);
        if nearest.Some? {
          filtered := filtered + [nearest.value];
        }
      }
      c := c + 1;
    }
    out := Filter(rows, NotCompound) + filtered;
  }

  /** After `rule_2` every row that is not a compound-noun row is kept, as often as it
      occurred, and there are at most as many compound-noun rows as distinct heads of
      compound-noun arcs. */
  lemma Rule2Keeps(rows: seq<Record>, tok: seq<string>, dep: seq<Edge>)
    requires 0 < |tok|
    requires forall e :: e in dep ==> e.head <= |tok|
    ensures forall x :: NotCompound(x) ==> multiset(Rule2Spec(rows, tok, dep))[x] == multiset(rows)[x]
    ensures |Filter(Rule2Spec(rows, tok, dep), IsCompound)| <= |Centers(dep)|
  {
    var kept, picks := Filter(rows, NotCompound), Picks(rows, tok, Centers(dep), |tok| + 1);
    FilterFacts(rows, NotCompound);
    PicksFacts(rows, tok, Centers(dep), |tok| + 1);
    PicksCount(rows, tok, Centers(dep), |tok| + 1);
    FilterAppend(kept, picks, IsCompound);
    FilterNone(kept, IsCompound);
    FilterAll(picks, IsCompound);
    assert (set h | h in Centers(dep) && h < |tok| + 1) == Centers(dep);
    forall x | NotCompound(x) ensures multiset(kept + picks)[x] == multiset(rows)[x] {
      assert x !in picks;
    }
  }

  // ---------------------------------------------------------------------------
  // The whole of singleSentenceProcess: rule_1, then rule_3, then rule_2.

  /** The table of one sentence, or `None` when the sentence raises IndexError. */
  function SentenceSpec(tok: seq<string>, tags: seq<string>, dep: seq<Edge>): Option<seq<Record>>
  {
    if !AllInRange(tok, tags, dep) then None
    else
      RecordsWithoutTokensIf(tok, tags, dep);
      var masked := MapSeq(Placeholder, Rule1(Records(tok, tags, dep)));
      Some(Rule2Spec(masked, tok, dep))
  }

  /** A sentence raises exactly when one of its arcs points outside it. Otherwise every
      row of its table is the masked form of a row one of its arcs builds with a relation
      `rule_1` keeps, and every such row that is not a compound-noun row is in the table. */
  lemma SentenceRows(tok: seq<string>, tags: seq<string>, dep: seq<Edge>)
    ensures SentenceSpec(tok, tags, dep).Some? <==> AllInRange(tok, tags, dep)
    ensures AllInRange(tok, tags, dep) ==>
              forall x :: x in SentenceSpec(tok, tags, dep).value ==>
                exists r :: FromSomeArc(tok, tags, dep, r) && KeptByRule1(r) && x == Placeholder(r)
    ensures AllInRange(tok, tags, dep) ==>
              forall r :: FromSomeArc(tok, tags, dep, r) && KeptByRule1(r) && NotCompound(r) ==>
                Placeholder(r) in SentenceSpec(tok, tags, dep).value
  {
    if AllInRange(tok, tags, dep) {
      RecordsWithoutTokensIf(tok, tags, dep);
      var recs := Records(tok, tags, dep);
      RecordsMembers(tok, tags, dep);
      Rule1Keeps(recs);
      var masked := MapSeq(Placeholder, Rule1(recs));
      MaskedRows(Rule1(recs));
      var out := SentenceSpec(tok, tags, dep).value;
      assert out == Rule2Spec(masked, tok, dep);
      if |tok| > 0 {
        Rule2Within(masked, tok, dep);
      }
    }
  }

  /** The masked table holds the masked form of each row, and nothing else. */
  lemma MaskedRows(rows: seq<Record>)
    ensures forall x :: x in MapSeq(Placeholder, rows) ==> exists r :: r in rows && x == Placeholder(r)
    ensures forall r :: r in rows ==> Placeholder(r) in MapSeq(Placeholder, rows)
  {
    var masked := MapSeq(Placeholder, rows);
    forall x | x in masked ensures exists r :: r in rows && x == Placeholder(r) {
      var j :| 0 <= j < |masked| && masked[j] == x;
      assert rows[j] in rows;
    }
    forall r | r in rows ensures Placeholder(r) in masked {
      var j :| 0 <= j < |rows| && rows[j] == r;
      assert masked[j] == Placeholder(r);
    }
  }

  /** `rule_2` only drops rows, and keeps every row that is not a compound-noun row. */
  lemma Rule2Within(rows: seq<Record>, tok: seq<string>, dep: seq<Edge>)
    requires 0 < |tok|
    requires forall e :: e in dep ==> e.head <= |tok|
    ensures forall x :: x in Rule2Spec(rows, tok, dep) ==> x in rows
    ensures forall x :: x in rows && NotCompound(x) ==> x in Rule2Spec(rows, tok, dep)
  {
    FilterFacts(rows, NotCompound);
    PicksFacts(rows, tok, Centers(dep), |tok| + 1);
  }

  lemma RecordsWithoutTokensIf(tok: seq<string>, tags: seq<string>, dep: seq<Edge>)
    requires AllInRange(tok, tags, dep)
    ensures 0 < |tok| || Records(tok, tags, dep) == []
    ensures forall e :: e in dep ==> e.head <= |tok|
  {
    if |tok| == 0 { RecordsWithoutTokens(tags, dep); }
    forall e | e in dep ensures e.head <= |tok| {
      var i :| 0 <= i < |dep| && dep[i] == e;
      assert InRange(tok, tags, i, dep[i]);
    }
  }

  method SingleSentenceProcess(tok: seq<string>, tags: seq<string>, dep: seq<Edge>) returns (out: Option<seq<Record>>)
    ensures out == SentenceSpec(tok, tags, dep)
  {
    var built := BuildRecords(tok, tags, dep);
    if built.None? {
      return None;
    }
    RecordsWithoutTokensIf(tok, tags, dep);
    var kept := Rule1(built.value);
    var a := new Record[|kept|](i requires 0 <= i < |kept| => kept[i]);
    assert a[..] == kept;
    Rule3(a);
    var masked := a[..];
    var r := Rule2(masked, tok, dep);
    return Some(r);
  }

  /** The compound rule compares the masked words with the raw tokens: a compound noun
      whose modifier is a person name loses its row altogether. */
  lemma PersonNameCompoundIsLost()
    ensures SentenceSpec(["张三", "老师"], ["nr", "n"], [Edge(2, CompoundNn), Edge(0, RootRelation)]) == Some([])
  {
    var tok, tags, dep := ["张三", "老师"], ["nr", "n"], [Edge(2, CompoundNn), Edge(0, RootRelation)];
    var rec := Record("张三", "老师", "nr", "n", CompoundNn);
    assert dep[..1] == [Edge(2, CompoundNn)];
    assert dep[..1][..0] == [];
    assert Records(tok, tags, dep[..1]) == [rec];
    assert Records(tok, tags, dep) == [rec];
    assert Rule1([rec]) == [rec] by {
      assert Filter([rec], KeptByRule1) == [rec] by {
        assert [rec][1..] == [];
      }
    }
    var m := Placeholder(rec);
    assert m.word1 == "@";
    assert MapSeq(Placeholder, [rec]) == [m];
    assert "@" !in tok;
    assert Centers(dep) == {2} by {
      assert dep[0] in dep;
    }
    assert Nearest([m], tok, 2) == None by {
      assert [m][..0] == [];
      assert !Candidate(tok, 2, m);
    }
    assert Picks([m], tok, {2}, 1) == [];
    assert Picks([m], tok, {2}, 2) == [];
    assert Picks([m], tok, {2}, 3) == [];
    assert AllInRange(tok, tags, dep);
    assert Filter([m], NotCompound) == [] by {
      assert [m][1..] == [];
    }
    assert Rule2Spec([m], tok, dep) == [];
    assert MapSeq(Placeholder, Rule1(Records(tok, tags, dep))) == [m];
  }

  // ---------------------------------------------------------------------------
  // singleSentenceProcess_only_nn: adjacent nouns inside runs of nouns.

  /** The compound-noun record of tokens `j` and `j + 1`. */
  function PairAt(tok: seq<string>, tags: seq<string>, j: nat): Record
    requires j + 1 < |tok| && j + 1 < |tags|
  {
    Record(tok[j], tok[j + 1], tags[j], tags[j + 1], CompoundNn)
  }

  /** The records of the adjacent pairs of noun-tagged tokens among the first `m`
      positions, left to right. */
  function NounPairs(tok: seq<string>, tags: seq<string>, nouns: set<string>, m: nat): seq<Record>
    requires m <= |tok| && m <= |tags|
  {
    if m < 2 then []
    else NounPairs(tok, tags, nouns, m - 1)
         + (if tags[m - 2] in nouns && tags[m - 1] in nouns then [PairAt(tok, tags, m - 2)] else [])
  }

  /** Tokens `j` and `j + 1` are both nouns. */
  ghost predicate NounPair(tok: seq<string>, tags: seq<string>, nouns: set<string>, m: nat, j: nat, x: Record)
  {
    j + 1 < m && m <= |tok| && m <= |tags| && tags[j] in nouns && tags[j + 1] in nouns && x == PairAt(tok, tags, j)
  }

  /** A record is produced exactly for each pair of adjacent noun-tagged tokens. */
  lemma {:induction false} NounPairsMember(tok: seq<string>, tags: seq<string>, nouns: set<string>, m: nat)
    requires m <= |tok| && m <= |tags|
    ensures forall x :: x in NounPairs(tok, tags, nouns, m) <==> exists j :: NounPair(tok, tags, nouns, m, j, x)
  {
    if m >= 2 {
      NounPairsMember(tok, tags, nouns, m - 1);
      var prev := NounPairs(tok, tags, nouns, m - 1);
      forall x | x in NounPairs(tok, tags, nouns, m) ensures exists j :: NounPair(tok, tags, nouns, m, j, x) {
        if x in prev {
          var j: nat :| NounPair(tok, tags, nouns, m - 1, j, x);
          assert NounPair(tok, tags, nouns, m, j, x);
        } else {
          assert NounPair(tok, tags, nouns, m, m - 2, x);
        }
      }
      forall x, j: nat | NounPair(tok, tags, nouns, m, j, x) ensures x in NounPairs(tok, tags, nouns, m) {
        if j + 1 < m - 1 { assert NounPair(tok, tags, nouns, m - 1, j, x); }
      }
    }
  }

  /** The records a buffered run of (token, tag) pairs turns into: one per adjacent pair,
      so a run of `k` nouns gives `k - 1` records, and a single noun none. */
  function RunPairs(run: seq<(string, string)>): (r: seq<Record>)
    ensures |r| == if |run| >= 2 then |run| - 1 else 0
    ensures forall x :: x in r ==> x.relation == CompoundNn
  {
    if |run| < 2 then []
    else
      var n := |run|;
      RunPairs(run[..n - 1]) + [Record(run[n - 2].0, run[n - 1].0, run[n - 2].1, run[n - 1].1, CompoundNn)]
  }

  /** Flushes the buffered run: the inner `for i in range(len(run) - 1)` loop. */
  method EmitRun(rows: seq<Record>, run: seq<(string, string)>) returns (out: seq<Record>)
    ensures out == rows + RunPairs(run)
  {
    out := rows;
    if |run| > 1 {
      var i := 0;
      while i < |run| - 1
        invariant 0 <= i <= |run| - 1
        invariant out == rows + RunPairs(run[..i + 1])
      {
        assert run[..i + 2][..i + 1] == run[..i + 1];
        out := out + [Record(run[i].0, run[i + 1].0, run[i].1, run[i + 1].1, CompoundNn)];
        i := i + 1;
      }
      assert run[..i + 1] == run;
    }
  }

  /** Extending a run by one noun adds the record of the last two. */
  lemma RunPairsSnoc(run: seq<(string, string)>, x: (string, string))
    ensures |run| == 0 ==> RunPairs(run + [x]) == []
    ensures |run| > 0 ==> RunPairs(run + [x]) == RunPairs(run) + [Record(run[|run| - 1].0, x.0, run[|run| - 1].1, x.1, CompoundNn)]
  {
    var r := run + [x];
    if |run| > 0 {
      assert r[..|r| - 1] == run;
      assert r[|r| - 2] == run[|run| - 1] && r[|r| - 1] == x;
    }
  }

  /** The (token, tag) pairs of positions `s` up to `e`. */
  function Window(tok: seq<string>, tags: seq<string>, s: nat, e: nat): (w: seq<(string, string)>)
    requires s <= e <= |tok| && e <= |tags|
    ensures |w| == e - s
    decreases e - s
  {
    if e == s then [] else Window(tok, tags, s, e - 1) + [(tok[e - 1], tags[e - 1])]
  }

  /** Buffering one more noun: the records of the run so far and those of the nouns
      before it still add up to the pairs up to the new noun. */
  lemma ExtendRun(tok: seq<string>, tags: seq<string>, nouns: set<string>, start: nat, i: nat,
                  rows: seq<Record>, run: seq<(string, string)>)
    requires start <= i < |tok| && i < |tags|
    requires run == Window(tok, tags, start, i)
    requires i > start ==> tags[i - 1] in nouns
    requires start == 0 || tags[start - 1] !in nouns
    requires tags[i] in nouns
    requires rows + RunPairs(run) == NounPairs(tok, tags, nouns, i)
    ensures rows + RunPairs(run + [(tok[i], tags[i])]) == NounPairs(tok, tags, nouns, i + 1)
  {
    RunPairsSnoc(run, (tok[i], tags[i]));
    if |run| > 0 {
      var extra := [PairAt(tok, tags, i - 1)];
      assert run[|run| - 1] == (tok[i - 1], tags[i - 1]);
      assert RunPairs(run + [(tok[i], tags[i])]) == RunPairs(run) + extra;
      assert NounPairs(tok, tags, nouns, i + 1) == NounPairs(tok, tags, nouns, i) + extra;
      assert rows + (RunPairs(run) + extra) == (rows + RunPairs(run)) + extra;
    } else {
      assert i == start;
      assert NounPairs(tok, tags, nouns, i + 1) == NounPairs(tok, tags, nouns, i);
    }
  }

  /** `singleSentenceProcess_only_nn`: one pass over the zipped tokens and tags with a
      buffer of the current run of nouns, flushed at every non-noun and at the end. */
  method OnlyNn(tok: seq<string>, tags: seq<string>, nouns: set<string>) returns (rows: seq<Record>)
    ensures rows == NounPairs(tok, tags, nouns, Min(|tok|, |tags|))
  {
    var n := Min(|tok|, |tags|);
    rows := [];
    var run: seq<(string, string)> := [];
    ghost var start := 0;
    var i := 0;
    while i < n
      invariant 0 <= start <= i <= n
      invariant run == Window(tok, tags, start, i)
      invariant i > start ==> tags[i - 1] in nouns
      invariant start == 0 || tags[start - 1] !in nouns
      invariant rows + RunPairs(run) == NounPairs(tok, tags, nouns, i)
    {
      if tags[i] in nouns {
        ExtendRun(tok, tags, nouns, start, i, rows, run);
        run := run + [(tok[i], tags[i])];
      } else {
        assert NounPairs(tok, tags, nouns, i + 1) == NounPairs(tok, tags, nouns, i);
        rows := EmitRun(rows, run);
        run := [];
        assert rows + RunPairs(run) == rows;
        start := i + 1;
      }
      i := i + 1;
    }
    rows := EmitRun(rows, run);
  }

  // ---------------------------------------------------------------------------
  // mergeLibrary: a full table and a key-only table, or two full tables.

  /** Merged with a full table, a key-only table counts each of its rows once; the
      result is grouped, holds the keys of both and gives every key the sum of what
      both give it.
      Any other pair of column sets is a `ValueError`. */
  function MergeLibrary(a: Table<Record>, b: Table<Record>): (r: Result<Table<Record>, SchemaError>)
    ensures r.Ok? <==> (a.Full? && (b.Full? || b.Partial?)) || (a.Partial? && b.Full?)
    ensures r.Ok? ==> r.value.Full? && UniqueKeys(r.value.rows)
    ensures r.Ok? ==> forall k :: SumFor(r.value.rows, k) == Mass(a, k) + Mass(b, k)
    ensures r.Ok? ==> KeySet(r.value.rows) == Keys(a) + Keys(b)
  {
    match (a, b)
    case (Full(x), Full(y)) => Ok(Full(Regroup(x, y)))
    case (Full(x), Partial(ks)) =>
      OnesCountAll(ks);
      OnesKeys(ks);
      Ok(Full(Regroup(x, Ones(ks))))
    case (Partial(ks), Full(y)) =>
      OnesCountAll(ks);
      OnesKeys(ks);
      Ok(Full(Regroup(Ones(ks), y)))
    case _ => Err(ColumnsMismatch)
  }

  /** The empty full table is an identity for merging. */
  lemma MergeLibraryEmpty(t: Table<Record>)
    ensures t.Full? && UniqueKeys(t.rows) ==> MergeLibrary(Full([]), t) == Ok(t) && MergeLibrary(t, Full([])) == Ok(t)
    ensures t.Partial? ==> MergeLibrary(Full([]), t) == Ok(Full(GroupSum(Ones(t.keys))))
  {
    match t
    case Full(rows) => RegroupEmpty(rows);
    case Partial(ks) => RegroupEmpty(Ones(ks));
    case Other =>
  }

  // ---------------------------------------------------------------------------
  // readArticle_fromJSP: the sentences of one parsed article.

  /** A parsed article: its `tok/fine`, `pos/pku` and `dep` lists, one entry per sentence. */
  datatype Article = Article(tokens: seq<seq<string>>, tags: seq<seq<string>>, arcs: seq<seq<Edge>>)

  /** `zip` stops at the shortest of the three lists. */
  function SentenceCount(art: Article): nat
  {
    Min(Min(|art.tokens|, |art.tags|), |art.arcs|)
  }

  /** The records of the first `n` sentences, or `None` when one of them raises. */
  function ArticleSpec(art: Article, n: nat): Option<seq<Record>>
    requires n <= SentenceCount(art)
  {
    if n == 0 then Some([])
    else
      match (ArticleSpec(art, n - 1), SentenceSpec(art.tokens[n - 1], art.tags[n - 1], art.arcs[n - 1]))
      case (Some(prev), Some(rows)) => Some(prev + rows)
      case _ => None
  }

  /** An article is processed exactly when every sentence in the zip is well formed. */
  lemma {:induction false} ArticleSpecDefined(art: Article, n: nat)
    requires n <= SentenceCount(art)
    ensures ArticleSpec(art, n).Some? <==>
              forall s :: 0 <= s < n ==> AllInRange(art.tokens[s], art.tags[s], art.arcs[s])
  {
    if n > 0 {
      ArticleSpecDefined(art, n - 1);
      ArticleSpecStep(art, n);
      InRangeUpTo(art, n);
    }
  }

  /** The first `n` sentences are well formed when the first `n - 1` and sentence `n - 1` are. */
  lemma InRangeUpTo(art: Article, n: nat)
    requires 0 < n <= SentenceCount(art)
    ensures (forall s :: 0 <= s < n ==> AllInRange(art.tokens[s], art.tags[s], art.arcs[s]))
            <==> (forall s :: 0 <= s < n - 1 ==> AllInRange(art.tokens[s], art.tags[s], art.arcs[s]))
                 && AllInRange(art.tokens[n - 1], art.tags[n - 1], art.arcs[n - 1])
  {
  }

  lemma ArticleSpecStep(art: Article, n: nat)
    requires 0 < n <= SentenceCount(art)
    ensures ArticleSpec(art, n).Some? <==>
              ArticleSpec(art, n - 1).Some? && SentenceSpec(art.tokens[n - 1], art.tags[n - 1], art.arcs[n - 1]).Some?
  {
  }

  method ReadArticle(art: Article) returns (out: Option<seq<Record>>)
    ensures out == ArticleSpec(art, SentenceCount(art))
  {
    var rows: seq<Record> := [];
    var s := 0;
    while s < SentenceCount(art)
      invariant 0 <= s <= SentenceCount(art)
      invariant ArticleSpec(art, s) == Some(rows)
    {
      var sentence := SingleSentenceProcess(art.tokens[s], art.tags[s], art.arcs[s]);
      if sentence.None? {
        NoneStaysNone(art, s + 1, SentenceCount(art));
        return None;
      }
      rows := rows + sentence.value;
      s := s + 1;
    }
    return Some(rows);
  }

  lemma NoneStaysNone(art: Article, m: nat, n: nat)
    requires m <= n <= SentenceCount(art)
    requires ArticleSpec(art, m).None?
    ensures ArticleSpec(art, n).None?
  {
    ArticleSpecDefined(art, m);
    ArticleSpecDefined(art, n);
  }

  // ---------------------------------------------------------------------------
  // corpus_process_and_merge: the fold over folders of parsed articles.

  /** An article file: its name and, when it could be read and has the three task lists,
      its contents. */
  datatype ArticleFile = ArticleFile(name: string, content: Option<Article>)

  /** The library to start from: none on disk, one that cannot be read, one read with
      the full columns in another order than the code lists them (the code compares the
      column lists, not their sets), or one read with the columns in the code's order, or
      with other columns, as `table`. */
  datatype WarmStart = NoLibrary | Unreadable | Reordered(rows: seq<Counted<Record>>) | Loaded(table: Table<Record>)

  /** Only a library whose column list is exactly the code's replaces the empty start; any
      other outcome, a reordered full library included, only prints a message. */
  function StartRows(warm: WarmStart): seq<Counted<Record>>
  {
    match warm
    case Loaded(Full(rows)) => rows
    case _ => []
  }

  /** `read` is the processing of one parsed article, `ArticleSpec` over all its
      sentences. The corpus fold below is specified in terms of such a `read`, so that
      its proofs do not unfold the sentence rules; the trigger ties `read` to
      `ArticleSpec` only where an article was actually processed. */
  ghost predicate IsArticleReader(read: Article -> Option<seq<Record>>)
  {
    forall a {:trigger ArticleSpec(a, SentenceCount(a))} :: read(a) == ArticleSpec(a, SentenceCount(a))
  }

  /** `readArticle_fromJSP` as a function: every sentence processed in turn. */
  lemma ArticleReaderExists()
    ensures IsArticleReader((a: Article) => ArticleSpec(a, SentenceCount(a)))
  {
  }

  /** The records one file adds to its folder's table: none when it is not `.json`,
      cannot be read, or raises while processed. */
  function Contributed(read: Article -> Option<seq<Record>>, f: ArticleFile): seq<Record>
  {
    if !EndsWith(f.name, ".json") || f.content.None? then []
    else match read(f.content.value) case None => [] case Some(rows) => rows
  }

  /** The records of the first `n` files of a folder that were processed. */
  function FolderRecords(read: Article -> Option<seq<Record>>, arts: seq<ArticleFile>, n: nat): seq<Record>
    requires n <= |arts|
  {
    if n == 0 then [] else FolderRecords(read, arts, n - 1) + Contributed(read, arts[n - 1])
  }

  /** The records of the first `n2` inner folders of an outer folder. */
  function InnerRecords(read: Article -> Option<seq<Record>>, f1: seq<seq<ArticleFile>>, n2: nat): seq<Record>
    requires n2 <= |f1|
  {
    if n2 == 0 then [] else InnerRecords(read, f1, n2 - 1) + FolderRecords(read, f1[n2 - 1], |f1[n2 - 1]|)
  }

  /** Every record produced by a processed article of the first `n1` outer folders, in
      processing order. */
  function CorpusRecords(read: Article -> Option<seq<Record>>, corpus: seq<seq<seq<ArticleFile>>>, n1: nat): seq<Record>
    requires n1 <= |corpus|
  {
    if n1 == 0 then [] else CorpusRecords(read, corpus, n1 - 1) + InnerRecords(read, corpus[n1 - 1], |corpus[n1 - 1]|)
  }

  /** One step of the article loop of `corpus_process_and_merge`: a `.json` file read and merged into the
      folder's table as keys without counts; a file with another suffix, or one that
      cannot be read or raises, leaves the table as it is. */
  method MergeArticle(rows: seq<Counted<Record>>, f: ArticleFile, ghost read: Article -> Option<seq<Record>>)
    returns (out: seq<Counted<Record>>)
    requires IsArticleReader(read)
    requires UniqueKeys(rows)
    ensures UniqueKeys(out)
    ensures forall k :: SumFor(out, k) == SumFor(rows, k) + multiset(Contributed(read, f))[k]
    ensures KeysAdd(out, rows, Contributed(read, f))
  {
    out := rows;
    if EndsWith(f.name, ".json") && f.content.Some? {
      var art := ReadArticle(f.content.value);
      if art.Some? {
        assert Contributed(read, f) == art.value;
        var merged := MergeLibrary(Full(rows), Partial(art.value));
        out := merged.value.rows;
        forall k ensures SumFor(out, k) == SumFor(rows, k) + multiset(Contributed(read, f))[k] {
          assert Mass(Full(rows), k) == SumFor(rows, k);
        }
      }
    }
  }

  /** The article loop of `corpus_process_and_merge`: the `.json` articles of one inner folder folded into an empty
      full table, skipping the files that fail. The table is grouped and counts every
      record the processed articles produced. */
  method ProcessFolder(arts: seq<ArticleFile>, ghost read: Article -> Option<seq<Record>>) returns (table: Table<Record>)
    requires IsArticleReader(read)
    ensures table.Full? && UniqueKeys(table.rows)
    ensures forall k :: SumFor(table.rows, k) == multiset(FolderRecords(read, arts, |arts|))[k]
    ensures forall k :: k in KeySet(table.rows) <==> k in FolderRecords(read, arts, |arts|)
  {
    var rows: seq<Counted<Record>> := [];
    var j := 0;
    while j < |arts|
      invariant 0 <= j <= |arts|
      invariant UniqueKeys(rows)
      invariant forall k :: SumFor(rows, k) == multiset(FolderRecords(read, arts, j))[k]
      invariant forall k :: k in KeySet(rows) <==> k in FolderRecords(read, arts, j)
    {
      ghost var before := rows;
      rows := MergeArticle(rows, arts[j], read);
      FolderRecordsCount(read, arts, j);
      FolderRecordsKeys(read, arts, j, before, rows);
      j := j + 1;
    }
    table := Full(rows);
  }

  /** Each file adds its records to the count of its folder. */
  lemma FolderRecordsCount(read: Article -> Option<seq<Record>>, arts: seq<ArticleFile>, j: nat)
    requires j < |arts|
    ensures forall k :: multiset(FolderRecords(read, arts, j + 1))[k]
                        == multiset(FolderRecords(read, arts, j))[k] + multiset(Contributed(read, arts[j]))[k]
  {
    assert FolderRecords(read, arts, j + 1) == FolderRecords(read, arts, j) + Contributed(read, arts[j]);
  }

  /** Each file adds its records' keys to the keys of its folder. */
  lemma FolderRecordsKeys(read: Article -> Option<seq<Record>>, arts: seq<ArticleFile>, j: nat,
                          before: seq<Counted<Record>>, after: seq<Counted<Record>>)
    requires j < |arts|
    requires forall k :: k in KeySet(before) <==> k in FolderRecords(read, arts, j)
    requires KeysAdd(after, before, Contributed(read, arts[j]))
    ensures forall k :: k in KeySet(after) <==> k in FolderRecords(read, arts, j + 1)
  {
  }

  /** One step of the inner loop of `corpus_process_and_merge`: an inner folder processed
      and merged into the library. */
  method MergeFolder(library: seq<Counted<Record>>, folder: seq<ArticleFile>, ghost read: Article -> Option<seq<Record>>)
    returns (out: seq<Counted<Record>>)
    requires IsArticleReader(read)
    ensures UniqueKeys(out)
    ensures forall k :: SumFor(out, k) == SumFor(library, k) + multiset(FolderRecords(read, folder, |folder|))[k]
    ensures KeysAdd(out, library, FolderRecords(read, folder, |folder|))
  {
    var folderTable := ProcessFolder(folder, read);
    var merged := MergeLibrary(Full(library), folderTable);
    out := merged.value.rows;
    forall k ensures SumFor(out, k) == SumFor(library, k) + multiset(FolderRecords(read, folder, |folder|))[k] {
      assert Mass(Full(library), k) == SumFor(library, k) && Mass(folderTable, k) == SumFor(folderTable.rows, k);
    }
  }

  /** `out` counts each key as `base` does plus the times `recs` holds it. */
  ghost predicate CountsAdd(out: seq<Counted<Record>>, base: seq<Counted<Record>>, recs: seq<Record>)
  {
    forall k :: SumFor(out, k) == SumFor(base, k) + multiset(recs)[k]
  }

  /** Counting `more` on top of a table that counts `recs` counts `recs + more`. */
  lemma CountsAddStep(out: seq<Counted<Record>>, mid: seq<Counted<Record>>, base: seq<Counted<Record>>,
                      recs: seq<Record>, more: seq<Record>)
    requires CountsAdd(mid, base, recs) && CountsAdd(out, mid, more)
    ensures CountsAdd(out, base, recs + more)
  {
    assert multiset(recs + more) == multiset(recs) + multiset(more);
  }

  /** `out` holds the keys of `base` and those `recs` holds, and no other. */
  ghost predicate KeysAdd(out: seq<Counted<Record>>, base: seq<Counted<Record>>, recs: seq<Record>)
  {
    forall k :: k in KeySet(out) <==> k in KeySet(base) || k in recs
  }

  /** Adding the keys of `more` to a table holding those of `recs` gives those of `recs + more`. */
  lemma KeysAddStep(out: seq<Counted<Record>>, mid: seq<Counted<Record>>, base: seq<Counted<Record>>,
                    recs: seq<Record>, more: seq<Record>)
    requires KeysAdd(mid, base, recs) && KeysAdd(out, mid, more)
    ensures KeysAdd(out, base, recs + more)
  {
  }

  /** The inner loop of `corpus_process_and_merge`: every inner folder of one outer
      folder processed and merged into the library in turn. */
  method MergeInnerFolders(library: seq<Counted<Record>>, f1: seq<seq<ArticleFile>>, ghost read: Article -> Option<seq<Record>>)
    returns (out: seq<Counted<Record>>)
    requires IsArticleReader(read)
    ensures UniqueKeys(library) || |f1| > 0 ==> UniqueKeys(out)
    ensures forall k :: SumFor(out, k) == SumFor(library, k) + multiset(InnerRecords(read, f1, |f1|))[k]
    ensures KeysAdd(out, library, InnerRecords(read, f1, |f1|))
  {
    out := library;
    var j := 0;
    while j < |f1|
      invariant 0 <= j <= |f1|
      invariant UniqueKeys(library) || j > 0 ==> UniqueKeys(out)
      invariant CountsAdd(out, library, InnerRecords(read, f1, j))
      invariant KeysAdd(out, library, InnerRecords(read, f1, j))
    {
      ghost var before := out;
      out := MergeFolder(out, f1[j], read);
      CountsAddStep(out, before, library, InnerRecords(read, f1, j), FolderRecords(read, f1[j], |f1[j]|));
      KeysAddStep(out, before, library, InnerRecords(read, f1, j), FolderRecords(read, f1[j], |f1[j]|));
      j := j + 1;
    }
    assert CountsAdd(out, library, InnerRecords(read, f1, |f1|));
  }

  /** Some `folder1` among the first `n` of the corpus holds an inner folder. */
  predicate HasInnerFolder(folders: seq<seq<seq<ArticleFile>>>, n: nat)
    requires n <= |folders|
  {
    exists j :: 0 <= j < n && |folders[j]| > 0
  }

  /** `corpus_process_and_merge`: nothing when the corpus folder is missing; otherwise
      the start library with every inner folder merged in turn, sorted by descending
      frequency. The result holds the keys of the start library and the records the
      processed articles produced, and no other; it is grouped, and gives each key its frequency in the start
      library plus the number of times the processed articles produced it. The outer and
      inner folder lists are given in ascending name order. */
  method CorpusProcessAndMerge(corpus: Option<seq<seq<seq<ArticleFile>>>>, warm: WarmStart,
                               ghost read: Article -> Option<seq<Record>>)
    returns (out: Option<seq<Counted<Record>>>)
    requires IsArticleReader(read)
    ensures corpus.None? <==> out.None?
    ensures corpus.Some? && (UniqueKeys(StartRows(warm)) || HasInnerFolder(corpus.value, |corpus.value|))
            ==> UniqueKeys(out.value)
    ensures corpus.Some? ==> CountsDescending(out.value)
    ensures corpus.Some? ==> forall k :: SumFor(out.value, k)
                               == SumFor(StartRows(warm), k) + multiset(CorpusRecords(read, corpus.value, |corpus.value|))[k]
    ensures corpus.Some? ==> forall k :: k in KeySet(out.value)
                               <==> k in KeySet(StartRows(warm)) || k in CorpusRecords(read, corpus.value, |corpus.value|)
  {
    if corpus.None? {
      return None;
    }
    var folders := corpus.value;
    ghost var start := StartRows(warm);
    var library: seq<Counted<Record>> := [];
    if warm.Loaded? && warm.table.Full? {
      library := warm.table.rows;
    }
    var i := 0;
    while i < |folders|
      invariant 0 <= i <= |folders|
      invariant UniqueKeys(start) || HasInnerFolder(folders, i) ==> UniqueKeys(library)
      invariant CountsAdd(library, start, CorpusRecords(read, folders, i))
      invariant KeysAdd(library, start, CorpusRecords(read, folders, i))
    {
      ghost var before := library;
      library := MergeInnerFolders(library, folders[i], read);
      assert HasInnerFolder(folders, i + 1) ==> HasInnerFolder(folders, i) || |folders[i]| > 0;
      CountsAddStep(library, before, start, CorpusRecords(read, folders, i), InnerRecords(read, folders[i], |folders[i]|));
      KeysAddStep(library, before, start, CorpusRecords(read, folders, i), InnerRecords(read, folders[i], |folders[i]|));
      i := i + 1;
    }
    SortByCountKeeps(library);
    return Some(SortByCount(library));
  }
}
