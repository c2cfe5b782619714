/** Two filters over the libraries: the collocation rows whose word pair a pair list names,
    and the keyword rows whose frequency reaches a threshold. */
module Filter1 {
  import opened Outcomes
  import opened Text
  import opened Seqs
  import opened Sorting
  import opened Tables
  import opened Lines
  import CollocationGen
  import WordFreqGen

  /** The full-width comma U+FF0C that separates the two words of a pair line. */
  const PairSeparator: char := '\U{FF0C}'

  /** Unpacking a pair line into two words fails when the line has another number of parts;
      Python raises `ValueError`. */
  datatype LineError = WrongPartCount(line: string, parts: nat)

  /** `word1, word2 = line.strip().split('，')`. */
  function ParsePairLine(line: string): (r: Result<Pair, LineError>)
    ensures r.Ok? <==> multiset(Strip(line))[PairSeparator] == 1
    ensures r.Ok? ==> PairSeparator !in r.value.0 && PairSeparator !in r.value.1
                      && r.value.0 + [PairSeparator] + r.value.1 == Strip(line)
    ensures r.Err? ==> r.error.line == line && r.error.parts == multiset(Strip(line))[PairSeparator] + 1
  {
    var parts := Split(Strip(line), PairSeparator);
    SplitCount(Strip(line), PairSeparator);
    SplitJoin(Strip(line), PairSeparator);
    if |parts| == 2 then
      assert parts[0] in parts && parts[1] in parts;
      assert Join(parts[1..], PairSeparator) == parts[1];
      Ok((parts[0], parts[1]))
    else
      Err(WrongPartCount(line, |parts|))
  }

  /** A pair written as `word1，word2` parses back, whatever whitespace surrounds it, when
      neither word holds the separator and the line does not start or end with whitespace. */
  lemma ParsePairRoundTrip(w1: string, w2: string)
    requires PairSeparator !in w1 && PairSeparator !in w2
    requires |w1| == 0 || !IsSpace(w1[0])
    requires |w2| == 0 || !IsSpace(w2[|w2| - 1])
    ensures ParsePairLine(w1 + [PairSeparator] + w2) == Ok((w1, w2))
  {
    var s := w1 + [PairSeparator] + w2;
    assert s[0] == (if |w1| == 0 then PairSeparator else w1[0]);
    assert s[|s| - 1] == (if |w2| == 0 then PairSeparator else w2[|w2| - 1]);
    StripUnchanged(s);
    SplitAfter(w1, PairSeparator, w2);
    SplitNone(w2, PairSeparator);
  }

  /** Adding the values of the first `n` results to a set, one at a time, stopping at the
      first error. */
  function Collect<T(==)>(results: seq<Result<T, LineError>>, n: nat): Result<set<T>, LineError>
    requires n <= |results|
  {
    if n == 0 then Ok({})
    else match Collect(results, n - 1)
      case Err(e) => Err(e)
      case Ok(s) =>
        match results[n - 1]
        case Err(e) => Err(e)
        case Ok(x) => Ok(s + {x})
  }

  /** Collecting succeeds exactly when every result is a value. */
  lemma {:induction false} CollectOk<T(!new)>(results: seq<Result<T, LineError>>, n: nat)
    requires n <= |results|
    ensures Collect(results, n).Ok? <==> forall i :: 0 <= i < n ==> results[i].Ok?
  {
    if n > 0 {
      CollectOk(results, n - 1);
    }
  }

  /** Collected, the set holds exactly the values of the results. */
  lemma {:induction false} CollectMembers<T(!new)>(results: seq<Result<T, LineError>>, n: nat)
    requires n <= |results| && Collect(results, n).Ok?
    ensures forall x :: x in Collect(results, n).value <==> exists i :: 0 <= i < n && results[i] == Ok(x)
  {
    if n > 0 {
      CollectMembers(results, n - 1);
    }
  }

  /** When collecting fails, the error is that of the first result that is one. */
  lemma {:induction false} CollectFirstError<T(!new)>(results: seq<Result<T, LineError>>, n: nat)
    requires n <= |results| && Collect(results, n).Err?
    ensures exists i :: 0 <= i < n && results[i] == Err(Collect(results, n).error)
              && forall k :: 0 <= k < i ==> results[k].Ok?
  {
    if Collect(results, n - 1).Err? {
      CollectFirstError(results, n - 1);
    } else {
      CollectOk(results, n - 1);
      assert results[n - 1] == Err(Collect(results, n).error);
    }
  }

  /** An error ends the collecting: whatever follows it, the result is that error. */
  lemma {:induction false} CollectStops<T>(results: seq<Result<T, LineError>>, j: nat, n: nat)
    requires j <= n <= |results| && Collect(results, j).Err?
    ensures Collect(results, n) == Collect(results, j)
    decreases n - j
  {
    if j < n {
      CollectStops(results, j, n - 1);
    }
  }

  /** The pair set of `filter_pairs`' first loop over the lines, or the error of the first
      line that does not unpack. */
  function PairsOf(lines: seq<string>): Result<set<Pair>, LineError>
  {
    Collect(MapSeq(ParsePairLine, lines), |lines|)
  }

  /** The pairs are read exactly when every line unpacks, and then they are exactly the
      lines' pairs; otherwise the error is the first bad line's. */
  lemma PairsOfFacts(lines: seq<string>)
    ensures PairsOf(lines).Ok? <==> forall i :: 0 <= i < |lines| ==> ParsePairLine(lines[i]).Ok?
    ensures PairsOf(lines).Ok? ==>
              forall p :: p in PairsOf(lines).value <==> exists i :: 0 <= i < |lines| && ParsePairLine(lines[i]) == Ok(p)
    ensures PairsOf(lines).Err? ==>
              exists i :: 0 <= i < |lines| && ParsePairLine(lines[i]) == Err(PairsOf(lines).error)
                && forall k :: 0 <= k < i ==> ParsePairLine(lines[k]).Ok?
  {
    var parsed := MapSeq(ParsePairLine, lines);
    CollectOk(parsed, |lines|);
    if Collect(parsed, |lines|).Ok? {
      CollectMembers(parsed, |lines|);
    } else {
      CollectFirstError(parsed, |lines|);
    }
  }

  /** `filter_pairs`' first loop: `pairs.add((word1, word2))` for each line of the pair
      file, raising at the first line that does not unpack. */
  method ReadPairs(content: string) returns (r: Result<set<Pair>, LineError>)
    ensures r == PairsOf(FileLines(content))
  {
    r := CollectLines(ParsePairLine, FileLines(content));
  }

  /** The loop of `ReadPairs`: parse each line in turn and add its value to the set, returning
      the error of the first line that does not parse. */
  method CollectLines<T(==)>(parse: string -> Result<T, LineError>, lines: seq<string>) returns (r: Result<set<T>, LineError>)
    ensures r == Collect(MapSeq(parse, lines), |lines|)
  {
    ghost var parsed := MapSeq(parse, lines);
    var values: set<T> := {};
    for j := 0 to |lines|
      invariant Collect(parsed, j) == Ok(values)
    {
      var line := parse(lines[j]);
      assert parsed[j] == line;
      if line.Err? {
        CollectStops(parsed, j + 1, |lines|);
        return Err(line.error);
      }
      values := values + {line.value};
    }
    return Ok(values);
  }

  /** The row's (词语1, 词语2) is one of the pairs. */
  predicate Listed(c: Counted<CollocationGen.Record>, pairs: set<Pair>)
  {
    (c.key.word1, c.key.word2) in pairs
  }

  /** `df[df.apply(lambda row: (row['词语1'], row['词语2']) in pairs, axis=1)]`. */
  function ListedRows(rows: seq<Counted<CollocationGen.Record>>, pairs: set<Pair>): (r: seq<Counted<CollocationGen.Record>>)
    ensures IsSubsequence(r, rows)
    ensures forall c :: c in r <==> c in rows && Listed(c, pairs)
    ensures forall c :: multiset(r)[c] == if Listed(c, pairs) then multiset(rows)[c] else 0
  {
    var listed := (c: Counted<CollocationGen.Record>) => Listed(c, pairs);
    FilterFacts(rows, listed);
    Filter(rows, listed)
  }

  /** `filter_pairs`: the rows whose word pair the pair file names, or the error of the
      first pair line that does not unpack. */
  method FilterPairs(rows: seq<Counted<CollocationGen.Record>>, pairFile: string)
    returns (r: Result<seq<Counted<CollocationGen.Record>>, LineError>)
    ensures PairsOf(FileLines(pairFile)).Err? ==> r == Err(PairsOf(FileLines(pairFile)).error)
    ensures PairsOf(FileLines(pairFile)).Ok? ==> r == Ok(ListedRows(rows, PairsOf(FileLines(pairFile)).value))
  {
    var pairs := ReadPairs(pairFile);
    if pairs.Err? {
      return Err(pairs.error);
    }
    return Ok(ListedRows(rows, pairs.value));
  }

  /** `data[data['词频'] >= n]` over a keyword library. */
  function FrequentKeywords(rows: seq<Counted<WordFreqGen.Keyword>>, n: int): (r: seq<Counted<WordFreqGen.Keyword>>)
    ensures IsSubsequence(r, rows)
    ensures forall c :: c in r <==> c in rows && c.count >= n
    ensures forall c :: multiset(r)[c] == if c.count >= n then multiset(rows)[c] else 0
  {
    var frequent := (c: Counted<WordFreqGen.Keyword>) => c.count >= n;
    FilterFacts(rows, frequent);
    Filter(rows, frequent)
  }
}
