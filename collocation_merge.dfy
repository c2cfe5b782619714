/** `CollocationMerge_v1.py`: several collocation libraries, each a full table of
    (word1, word2, pos1, pos2, relation) keys and their frequencies, merged into one. */
module CollocationMerge {
  import opened Outcomes
  import opened Text
  import opened Seqs
  import opened Tables
  import opened Sorting
  import CollocationGen

  type Record = CollocationGen.Record

  /** `mergeLibrary`: both tables must have exactly the full column set, otherwise it is a
      `ValueError`. On success the result is grouped and gives every key the sum of the
      frequencies both tables give it. */
  function MergeLibrary(a: Table<Record>, b: Table<Record>): (r: Result<Table<Record>, SchemaError>)
    ensures r.Ok? <==> a.Full? && b.Full?
    ensures r.Ok? ==> r.value.Full? && UniqueKeys(r.value.rows)
    ensures r.Ok? ==> forall k :: SumFor(r.value.rows, k) == SumFor(a.rows, k) + SumFor(b.rows, k)
    ensures r.Ok? ==> KeySet(r.value.rows) == KeySet(a.rows) + KeySet(b.rows)
  {
    match (a, b)
    case (Full(x), Full(y)) => Ok(Full(Regroup(x, y)))
    case _ => Err(ColumnsMismatch)
  }

  /** The empty full table the fold starts from is an identity: merging a table into it
      only regroups that table, and a grouped table comes back unchanged. */
  lemma MergeLibraryEmpty(t: seq<Counted<Record>>)
    ensures MergeLibrary(Full([]), Full(t)) == Ok(Full(GroupSum(t)))
    ensures UniqueKeys(t) ==> MergeLibrary(Full([]), Full(t)) == Ok(Full(t))
  {
    RegroupEmpty(t);
  }

  // ---------------------------------------------------------------------------
  // corpus_merge: the fold over the `.csv` files of one folder.

  /** A file of the library folder: its name and, when `read_csv` succeeds, its table
      (with whatever columns it has). */
  datatype CsvFile = CsvFile(name: string, table: Option<Table<Record>>)

  predicate IsCsv(f: CsvFile)
  {
    EndsWith(f.name, ".csv")
  }

  function NameKey(f: CsvFile): Pair
  {
    (f.name, "")
  }

  /** The files the fold visits: those whose names end in `.csv`, in ascending name order. */
  function CsvFiles(files: seq<CsvFile>): (r: seq<CsvFile>)
    ensures forall f :: f in r <==> f in files && IsCsv(f)
    ensures forall f :: multiset(r)[f] == if IsCsv(f) then multiset(files)[f] else 0
    ensures |r| <= |files|
    ensures SortedBy(r, NameKey)
  {
    var csv := Filter(files, IsCsv);
    FilterFacts(files, IsCsv);
    var r := Sort(csv, NameKey);
    assert forall f :: f in r <==> f in csv by {
      forall f ensures f in r <==> f in csv {
        assert f in r <==> f in multiset(r);
      }
    }
    r
  }

  /** The rows a file adds to the library: its rows when it was read and has the full
      columns; a file that fails, to read or to merge, adds nothing. */
  function Merged(f: CsvFile): seq<Counted<Record>>
  {
    if f.table.Some? && f.table.value.Full? then f.table.value.rows else []
  }

  /** The frequency the first `n` files give key `k`, summed over the files that were
      merged. */
  function MergedCount(files: seq<CsvFile>, n: nat, k: Record): int
    requires n <= |files|
  {
    if n == 0 then 0 else MergedCount(files, n - 1, k) + SumFor(Merged(files[n - 1]), k)
  }

  /** The keys the first `n` files bring to the library: those of the files that were
      merged. */
  function MergedKeys(files: seq<CsvFile>, n: nat): set<Record>
    requires n <= |files|
  {
    if n == 0 then {} else MergedKeys(files, n - 1) + KeySet(Merged(files[n - 1]))
  }

  /** One pass of the loop of `corpus_merge`: the file merged into the accumulator, or,
      when reading or merging it raises, the accumulator left as it was. */
  function MergeFile(acc: seq<Counted<Record>>, f: CsvFile): (out: seq<Counted<Record>>)
    requires UniqueKeys(acc)
    ensures UniqueKeys(out)
    ensures forall k :: SumFor(out, k) == SumFor(acc, k) + SumFor(Merged(f), k)
    ensures KeySet(out) == KeySet(acc) + KeySet(Merged(f))
    ensures f.table.None? || !f.table.value.Full? ==> out == acc
  {
    if f.table.None? then acc
    else match MergeLibrary(Full(acc), f.table.value)
      case Ok(t) => t.rows
      case Err(_) => acc
  }

  /** A table counting the first `j` files, with file `j` merged in, counts the first
      `j + 1` and holds their keys. */
  lemma MergedCountStep(files: seq<CsvFile>, j: nat, before: seq<Counted<Record>>, after: seq<Counted<Record>>)
    requires j < |files|
    requires forall k :: SumFor(before, k) == MergedCount(files, j, k)
    requires forall k :: SumFor(after, k) == SumFor(before, k) + SumFor(Merged(files[j]), k)
    requires KeySet(before) == MergedKeys(files, j)
    requires KeySet(after) == KeySet(before) + KeySet(Merged(files[j]))
    ensures forall k :: SumFor(after, k) == MergedCount(files, j + 1, k)
    ensures KeySet(after) == MergedKeys(files, j + 1)
  {
  }

  /** The loop of `corpus_merge`: the files merged in turn into an empty full table. */
  method MergeFiles(files: seq<CsvFile>) returns (library: seq<Counted<Record>>)
    ensures UniqueKeys(library)
    ensures forall k :: SumFor(library, k) == MergedCount(files, |files|, k)
    ensures KeySet(library) == MergedKeys(files, |files|)
  {
    library := [];
    var j := 0;
    while j < |files|
      invariant 0 <= j <= |files|
      invariant UniqueKeys(library)
      invariant forall k :: SumFor(library, k) == MergedCount(files, j, k)
      invariant KeySet(library) == MergedKeys(files, j)
    {
      ghost var before := library;
      library := MergeFile(library, files[j]);
      MergedCountStep(files, j, before, library);
      j := j + 1;
    }
  }

  /** `corpus_merge`: nothing when the folder is missing or holds no `.csv` file;
      otherwise every `.csv` file merged in ascending name order into an empty full
      table, then sorted by descending frequency. The result is grouped, holds exactly
      the keys of the merged files and gives every key the sum of the frequencies they
      give it. */
  method CorpusMerge(folder: Option<seq<CsvFile>>) returns (out: Option<seq<Counted<Record>>>)
    ensures out.None? <==> folder.None? || |CsvFiles(folder.value)| == 0
    ensures out.Some? ==> UniqueKeys(out.value) && CountsDescending(out.value)
    ensures out.Some? ==> forall k :: SumFor(out.value, k)
                            == MergedCount(CsvFiles(folder.value), |CsvFiles(folder.value)|, k)
    ensures out.Some? ==> KeySet(out.value) == MergedKeys(CsvFiles(folder.value), |CsvFiles(folder.value)|)
  {
    if folder.None? {
      return None;
    }
    var files := CsvFiles(folder.value);
    if |files| == 0 {
      return None;
    }
    var library := MergeFiles(files);
    SortByCountKeeps(library);
    return Some(SortByCount(library));
  }
}
