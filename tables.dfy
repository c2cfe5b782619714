/** Frequency tables: rows of a key and a count, regrouped as pandas'
    `groupby(key_columns).sum()` and a Python dict of counters do. A grouped table has
    each key once; `SumFor` reads off the count a table gives a key, summed over all its
    rows, so that the law "each key's frequency is the sum of its frequencies in the
    inputs" can be stated for tables with repeated keys as well as for grouped ones. */
module Tables {
  import opened Seqs

  /** One row: a key (all non-frequency columns) and its frequency. */
  datatype Counted<K> = Counted(key: K, count: int)

  /** The frequency the rows give key `k`, summed over every row with that key. */
  function SumFor<K(==,!new)>(s: seq<Counted<K>>, k: K): int
  {
    if |s| == 0 then 0 else (if s[0].key == k then s[0].count else 0) + SumFor(s[1..], k)
  }

  /** The sum of the frequency column. */
  function Total<K>(s: seq<Counted<K>>): int
  {
    if |s| == 0 then 0 else s[0].count + Total(s[1..])
  }

  function KeySet<K>(s: seq<Counted<K>>): set<K>
  {
    set r | r in s :: r.key
  }

  /** No key occurs on two rows. */
  predicate UniqueKeys<K(==,!new)>(s: seq<Counted<K>>)
  {
    forall i, j :: 0 <= i < j < |s| ==> s[i].key != s[j].key
  }

  /** Two tables give the same keys the same frequencies (they may list them in another order). */
  ghost predicate SameCounts<K(!new)>(a: seq<Counted<K>>, b: seq<Counted<K>>)
  {
    KeySet(a) == KeySet(b) && forall k :: SumFor(a, k) == SumFor(b, k)
  }

  lemma KeySetCons<K(!new)>(s: seq<Counted<K>>)
    requires |s| > 0
    ensures KeySet(s) == {s[0].key} + KeySet(s[1..])
  {
    assert s == [s[0]] + s[1..];
    forall k | k in KeySet(s) ensures k in {s[0].key} + KeySet(s[1..]) {
      var r :| r in s && r.key == k;
      if r != s[0] {
        var i :| 0 <= i < |s| && s[i] == r;
        assert s[1..][i - 1] == r;
      }
    }
  }

  /** A key that no row has gets frequency 0. */
  lemma {:induction false} SumForAbsent<K(!new)>(s: seq<Counted<K>>, k: K)
    requires k !in KeySet(s)
    ensures SumFor(s, k) == 0
  {
    if |s| > 0 {
      KeySetCons(s);
      SumForAbsent(s[1..], k);
    }
  }

  lemma {:induction false} SumForAppend<K(!new)>(a: seq<Counted<K>>, b: seq<Counted<K>>, k: K)
    ensures SumFor(a + b, k) == SumFor(a, k) + SumFor(b, k)
  {
    if |a| == 0 {
      assert a + b == b;
    } else {
      assert (a + b)[0] == a[0] && (a + b)[1..] == a[1..] + b;
      SumForAppend(a[1..], b, k);
    }
  }

  lemma {:induction false} TotalAppend<K(!new)>(a: seq<Counted<K>>, b: seq<Counted<K>>)
    ensures Total(a + b) == Total(a) + Total(b)
  {
    if |a| == 0 {
      assert a + b == b;
    } else {
      assert (a + b)[0] == a[0] && (a + b)[1..] == a[1..] + b;
      TotalAppend(a[1..], b);
    }
  }

  lemma KeySetAppend<K(!new)>(a: seq<Counted<K>>, b: seq<Counted<K>>)
    ensures KeySet(a + b) == KeySet(a) + KeySet(b)
  {
    forall k | k in KeySet(a + b) ensures k in KeySet(a) + KeySet(b) {
      var r :| r in a + b && r.key == k;
    }
    forall k | k in KeySet(a) + KeySet(b) ensures k in KeySet(a + b) {
      if k in KeySet(a) {
        var r :| r in a && r.key == k;
        assert r in a + b;
      } else {
        var r :| r in b && r.key == k;
        assert r in a + b;
      }
    }
  }

  // ---------------------------------------------------------------------------
  // Adding one observation to a grouped table; `d[key] = d.get(key, 0) + v`.

  /** Adds `v` to the row of `key`, or appends a new row at the end when the key is new
      (a dict keeps its keys in insertion order). */
  function Bump<K(==,!new)>(d: seq<Counted<K>>, key: K, v: int): (r: seq<Counted<K>>)
    ensures forall k :: SumFor(r, k) == SumFor(d, k) + (if k == key then v else 0)
    ensures KeySet(r) == KeySet(d) + {key}
    ensures key !in KeySet(d) ==> r == d + [Counted(key, v)]
  {
    if |d| == 0 then [Counted(key, v)]
    else
      KeySetCons(d);
      if d[0].key == key then
        var r := [Counted(key, d[0].count + v)] + d[1..];
        assert r[1..] == d[1..];
        KeySetCons(r);
        r
      else
        var rest := Bump(d[1..], key, v);
        var r := [d[0]] + rest;
        assert r[1..] == rest;
        KeySetCons(r);
        assert key !in KeySet(d) ==> r == d + [Counted(key, v)] by {
          if key !in KeySet(d) {
            assert d == [d[0]] + d[1..];
          }
        }
        r
  }

  lemma {:induction false} BumpTotal<K(!new)>(d: seq<Counted<K>>, key: K, v: int)
    ensures Total(Bump(d, key, v)) == Total(d) + v
  {
    if |d| > 0 && d[0].key != key {
      BumpTotal(d[1..], key, v);
      assert Bump(d, key, v)[1..] == Bump(d[1..], key, v);
    }
  }

  lemma UniqueKeysTail<K(!new)>(d: seq<Counted<K>>)
    requires |d| > 0 && UniqueKeys(d)
    ensures UniqueKeys(d[1..])
    ensures forall x :: x in d[1..] ==> x.key != d[0].key
  {
    forall i, j | 0 <= i < j < |d[1..]| ensures d[1..][i].key != d[1..][j].key {
      assert d[1..][i] == d[i + 1] && d[1..][j] == d[j + 1];
    }
    forall x | x in d[1..] ensures x.key != d[0].key {
      var j :| 0 <= j < |d[1..]| && d[1..][j] == x;
      assert d[j + 1] == x;
    }
  }

  /** Bumping keeps a grouped table grouped. */
  lemma {:induction false} BumpUnique<K(!new)>(d: seq<Counted<K>>, key: K, v: int)
    ensures UniqueKeys(d) ==> UniqueKeys(Bump(d, key, v))
  {
    if |d| > 0 && UniqueKeys(d) {
      var r := Bump(d, key, v);
      UniqueKeysTail(d);
      if d[0].key == key {
        forall i, j | 0 <= i < j < |r| ensures r[i].key != r[j].key {
          assert r[j] == d[j];
          if i > 0 { assert r[i] == d[i]; }
        }
      } else {
        var rest := Bump(d[1..], key, v);
        BumpUnique(d[1..], key, v);
        assert r == [d[0]] + rest;
        forall x | x in rest ensures x.key != d[0].key {
          assert x.key in KeySet(rest);
        }
        forall i, j | 0 <= i < j < |r| ensures r[i].key != r[j].key {
          if i == 0 {
            assert r[j] in rest;
          } else {
            assert r[i] == rest[i - 1] && r[j] == rest[j - 1];
          }
        }
      }
    }
  }

  /** The left fold of `Bump` over the rows of `s`, starting from `d`. */
  function BumpAll<K(==,!new)>(d: seq<Counted<K>>, s: seq<Counted<K>>): (r: seq<Counted<K>>)
    ensures forall k :: SumFor(r, k) == SumFor(d, k) + SumFor(s, k)
    ensures Total(r) == Total(d) + Total(s)
    ensures KeySet(r) == KeySet(d) + KeySet(s)
    ensures UniqueKeys(d) ==> UniqueKeys(r)
    decreases |s|
  {
    if |s| == 0 then d
    else
      KeySetCons(s);
      BumpTotal(d, s[0].key, s[0].count);
      BumpUnique(d, s[0].key, s[0].count);
      BumpAll(Bump(d, s[0].key, s[0].count), s[1..])
  }

  /** `concat(...).groupby(key).sum()`: one row per key carrying the key's summed
      frequency, keys in order of first occurrence. */
  function GroupSum<K(==,!new)>(s: seq<Counted<K>>): (r: seq<Counted<K>>)
    ensures UniqueKeys(r)
    ensures KeySet(r) == KeySet(s)
    ensures forall k :: SumFor(r, k) == SumFor(s, k)
    ensures Total(r) == Total(s)
  {
    BumpAll([], s)
  }

  lemma {:induction false} BumpAllAppend<K(!new)>(d: seq<Counted<K>>, a: seq<Counted<K>>, b: seq<Counted<K>>)
    ensures BumpAll(d, a + b) == BumpAll(BumpAll(d, a), b)
    decreases a
  {
    if |a| == 0 {
      assert a + b == b;
    } else {
      assert (a + b)[0] == a[0] && (a + b)[1..] == a[1..] + b;
      BumpAllAppend(Bump(d, a[0].key, a[0].count), a[1..], b);
    }
  }

  /** Folding a grouped table whose keys are all new onto `d` appends it unchanged. */
  lemma {:induction false} BumpAllFresh<K(!new)>(d: seq<Counted<K>>, s: seq<Counted<K>>)
    requires UniqueKeys(d + s)
    ensures BumpAll(d, s) == d + s
    decreases s
  {
    if |s| > 0 {
      var x := s[0];
      forall y | y in d ensures y.key != x.key {
        var i :| 0 <= i < |d| && d[i] == y;
        assert (d + s)[i] == y && (d + s)[|d|] == x;
      }
      var d' := Bump(d, x.key, x.count);
      assert d' == d + [x];
      assert d' + s[1..] == d + s;
      BumpAllFresh(d', s[1..]);
    } else {
      assert d + s == d;
    }
  }

  /** Regrouping a table whose keys are already unique changes nothing. */
  lemma GroupSumIdempotent<K(!new)>(s: seq<Counted<K>>)
    ensures UniqueKeys(s) <==> GroupSum(s) == s
  {
    if UniqueKeys(s) {
      assert [] + s == s;
      BumpAllFresh([], s);
    }
  }

  /** A grouped table has exactly one row per distinct key. */
  lemma {:induction false} UniqueKeysSize<K(!new)>(s: seq<Counted<K>>)
    requires UniqueKeys(s)
    ensures |KeySet(s)| == |s|
  {
    if |s| > 0 {
      KeySetCons(s);
      var t := s[1..];
      assert UniqueKeys(t) by {
        forall i, j | 0 <= i < j < |t| ensures t[i].key != t[j].key {
          assert t[i] == s[i + 1] && t[j] == s[j + 1];
        }
      }
      UniqueKeysSize(t);
      forall x | x in t ensures x.key != s[0].key {
        var j :| 0 <= j < |t| && t[j] == x;
        assert s[j + 1] == x;
      }
    }
  }

  // ---------------------------------------------------------------------------
  // Key-only tables: each row stands for one observation.

  function One<K>(k: K): Counted<K>
  {
    Counted(k, 1)
  }

  /** `df["freq"] = 1` on a table of keys. */
  function Ones<K>(ks: seq<K>): (r: seq<Counted<K>>)
    ensures |r| == |ks|
    ensures forall i :: 0 <= i < |ks| ==> r[i] == Counted(ks[i], 1)
  {
    MapSeq(One, ks)
  }

  /** With a frequency of 1 per row, a key's frequency is the number of rows it is on. */
  lemma {:induction false} OnesCount<K(!new)>(ks: seq<K>, k: K)
    ensures SumFor(Ones(ks), k) == multiset(ks)[k]
    ensures Total(Ones(ks)) == |ks|
  {
    if |ks| > 0 {
      OnesCount(ks[1..], k);
      var o := Ones(ks);
      assert o[1..] == Ones(ks[1..]);
      assert ks == [ks[0]] + ks[1..];
      assert multiset(ks) == multiset{ks[0]} + multiset(ks[1..]);
    }
  }

  lemma OnesCountAll<K(!new)>(ks: seq<K>)
    ensures forall k :: SumFor(Ones(ks), k) == multiset(ks)[k]
    ensures Total(Ones(ks)) == |ks|
  {
    forall k ensures SumFor(Ones(ks), k) == multiset(ks)[k] {
      OnesCount(ks, k);
    }
    if |ks| > 0 { OnesCount(ks, ks[0]); } else { assert Ones(ks) == []; }
  }

  /** A key-only table given frequencies holds exactly the keys it listed. */
  lemma OnesKeys<K>(ks: seq<K>)
    ensures KeySet(Ones(ks)) == set k | k in ks
  {
    var o := Ones(ks);
    forall k | k in ks ensures k in KeySet(o) {
      var i :| 0 <= i < |ks| && ks[i] == k;
      assert o[i] in o;
    }
    forall k | k in KeySet(o) ensures k in ks {
      var r :| r in o && r.key == k;
      var i :| 0 <= i < |o| && o[i] == r;
      assert ks[i] == k;
    }
  }

  // ---------------------------------------------------------------------------
  // Tables with a column schema, as they reach `mergeLibrary`.

  /** A table with the full column set (keys and frequency), with the key columns only,
      or with some other column set. */
  datatype Table<K> = Full(rows: seq<Counted<K>>) | Partial(keys: seq<K>) | Other

  /** `ValueError`: the column sets of the two tables are not an accepted combination. */
  datatype SchemaError = ColumnsMismatch

  /** Concatenation then regrouping, on two full tables. */
  function Regroup<K(==,!new)>(a: seq<Counted<K>>, b: seq<Counted<K>>): (r: seq<Counted<K>>)
    ensures UniqueKeys(r)
    ensures forall k :: SumFor(r, k) == SumFor(a, k) + SumFor(b, k)
    ensures KeySet(r) == KeySet(a) + KeySet(b)
    ensures Total(r) == Total(a) + Total(b)
  {
    SumForAppendAll(a, b);
    KeySetAppend(a, b);
    TotalAppend(a, b);
    GroupSum(a + b)
  }

  lemma SumForAppendAll<K(!new)>(a: seq<Counted<K>>, b: seq<Counted<K>>)
    ensures forall k :: SumFor(a + b, k) == SumFor(a, k) + SumFor(b, k)
  {
    forall k ensures SumFor(a + b, k) == SumFor(a, k) + SumFor(b, k) {
      SumForAppend(a, b, k);
    }
  }

  /** The empty table is an identity: merging it in only regroups the other table, and a
      grouped table comes back unchanged. */
  lemma RegroupEmpty<K(!new)>(t: seq<Counted<K>>)
    ensures Regroup([], t) == GroupSum(t) && Regroup(t, []) == GroupSum(t)
    ensures UniqueKeys(t) ==> Regroup([], t) == t && Regroup(t, []) == t
  {
    assert [] + t == t && t + [] == t;
    GroupSumIdempotent(t);
  }

  /** Merging is commutative and associative up to row order. */
  lemma RegroupCommutes<K(!new)>(a: seq<Counted<K>>, b: seq<Counted<K>>)
    ensures SameCounts(Regroup(a, b), Regroup(b, a))
  {
  }

  lemma RegroupAssociates<K(!new)>(a: seq<Counted<K>>, b: seq<Counted<K>>, c: seq<Counted<K>>)
    ensures SameCounts(Regroup(Regroup(a, b), c), Regroup(a, Regroup(b, c)))
  {
  }

  /** Two tables giving every key the same frequency regroup into the same counts. */
  lemma SameCountsRegroup<K(!new)>(a: seq<Counted<K>>, a': seq<Counted<K>>, b: seq<Counted<K>>)
    requires SameCounts(a, a')
    ensures SameCounts(Regroup(a, b), Regroup(a', b))
  {
  }

  /** The keys a table holds: a full table's row keys, a key-only table's listed keys,
      none for a table of another schema. */
  function Keys<K>(t: Table<K>): set<K>
  {
    match t
    case Full(rows) => KeySet(rows)
    case Partial(keys) => set k | k in keys
    case Other => {}
  }

  /** The frequency a table of either schema gives a key when it is merged: a key-only
      row counts once, a table of another schema contributes nothing. */
  function Mass<K(==,!new)>(t: Table<K>, k: K): int
  {
    match t
    case Full(rows) => SumFor(rows, k)
    case Partial(keys) => multiset(keys)[k]
    case Other => 0
  }

  // ---------------------------------------------------------------------------
  // `sort_values(by=freq, ascending=False)`: rows in non-increasing frequency.

  predicate CountsDescending<K>(s: seq<Counted<K>>)
  {
    forall i, j :: 0 <= i < j < |s| ==> s[i].count >= s[j].count
  }

  function InsertByCount<K>(x: Counted<K>, s: seq<Counted<K>>): (r: seq<Counted<K>>)
    requires CountsDescending(s)
    ensures multiset(r) == multiset(s) + multiset{x}
    ensures |r| == |s| + 1
    ensures CountsDescending(r)
    decreases |s|
  {
    if |s| == 0 || x.count >= s[0].count then
      DescendingCons(x, s);
      [x] + s
    else
      DescendingTail(s);
      var rest := InsertByCount(x, s[1..]);
      assert s == [s[0]] + s[1..];
      InsertByCountBound(x, s[1..], rest, s[0].count);
      DescendingCons(s[0], rest);
      [s[0]] + rest
  }

  /** A row counted at least as often as the first row of a descending table may go in
      front of it. */
  lemma DescendingCons<K>(x: Counted<K>, s: seq<Counted<K>>)
    requires CountsDescending(s)
    requires |s| == 0 || x.count >= s[0].count
    ensures CountsDescending([x] + s)
  {
    var r := [x] + s;
    forall i, j | 0 <= i < j < |r| ensures r[i].count >= r[j].count {
      assert r[j] == s[j - 1];
      if i > 0 { assert r[i] == s[i - 1]; }
    }
  }

  lemma DescendingTail<K>(s: seq<Counted<K>>)
    requires |s| > 0 && CountsDescending(s)
    ensures CountsDescending(s[1..])
  {
    forall i, j | 0 <= i < j < |s[1..]| ensures s[1..][i].count >= s[1..][j].count {
      assert s[1..][i] == s[i + 1] && s[1..][j] == s[j + 1];
    }
  }

  /** Every row of an insertion result is bounded by what bounds its inputs. */
  lemma InsertByCountBound<K>(x: Counted<K>, s: seq<Counted<K>>, r: seq<Counted<K>>, bound: int)
    requires multiset(r) == multiset(s) + multiset{x}
    requires x.count <= bound && forall j :: 0 <= j < |s| ==> s[j].count <= bound
    ensures forall j :: 0 <= j < |r| ==> r[j].count <= bound
  {
    forall j | 0 <= j < |r| ensures r[j].count <= bound {
      assert r[j] in multiset(r);
      if r[j] != x {
        assert r[j] in multiset(s);
        var k :| 0 <= k < |s| && s[k] == r[j];
      }
    }
  }

  /** The rows of `s` from the highest frequency to the lowest. */
  function SortByCount<K>(s: seq<Counted<K>>): (r: seq<Counted<K>>)
    ensures multiset(r) == multiset(s)
    ensures |r| == |s|
    ensures CountsDescending(r)
  {
    if |s| == 0 then []
    else
      assert s == [s[0]] + s[1..];
      InsertByCount(s[0], SortByCount(s[1..]))
  }

  /** Taking row `i` out of a table. */
  lemma RemoveAt<K(!new)>(b: seq<Counted<K>>, i: nat, k: K)
    requires i < |b|
    ensures SumFor(b, k) == SumFor(b[..i] + b[i + 1..], k) + (if b[i].key == k then b[i].count else 0)
    ensures Total(b) == Total(b[..i] + b[i + 1..]) + b[i].count
  {
    var l, m, r := b[..i], b[i..], b[i + 1..];
    assert l + m == b;
    assert m[0] == b[i] && m[1..] == r;
    SumForAppend(l, m, k);
    SumForAppend(l, r, k);
    TotalAppend(l, m);
    TotalAppend(l, r);
  }

  lemma RemoveAtMultiset<T>(b: seq<T>, i: nat)
    requires i < |b|
    ensures multiset(b[..i] + b[i + 1..]) == multiset(b) - multiset{b[i]}
  {
    assert b == b[..i] + [b[i]] + b[i + 1..];
    assert multiset(b) == multiset(b[..i]) + multiset{b[i]} + multiset(b[i + 1..]);
  }

  /** Reordering rows changes no key's frequency and no total. */
  lemma {:induction false} SumForPermutation<K(!new)>(a: seq<Counted<K>>, b: seq<Counted<K>>, k: K)
    requires multiset(a) == multiset(b)
    ensures SumFor(a, k) == SumFor(b, k)
    ensures Total(a) == Total(b)
    decreases |a|
  {
    if |a| == 0 {
      assert |b| == |multiset(b)| == 0;
    } else {
      assert a == [a[0]] + a[1..];
      assert multiset(a) == multiset{a[0]} + multiset(a[1..]);
      assert a[0] in multiset(b);
      var i :| 0 <= i < |b| && b[i] == a[0];
      RemoveAt(b, i, k);
      RemoveAtMultiset(b, i);
      SumForPermutation(a[1..], b[..i] + b[i + 1..], k);
    }
  }

  /** A reordering of a table lists the same keys. */
  lemma KeySetPermutation<K>(a: seq<Counted<K>>, b: seq<Counted<K>>)
    requires multiset(a) == multiset(b)
    ensures KeySet(a) == KeySet(b)
  {
    forall k | k in KeySet(a) ensures k in KeySet(b) {
      var r :| r in a && r.key == k;
      assert r in multiset(b);
    }
    forall k | k in KeySet(b) ensures k in KeySet(a) {
      var r :| r in b && r.key == k;
      assert r in multiset(a);
    }
  }

  /** No two rows of `s` share a key unless they are the same row. */
  ghost predicate KeysDetermineRows<K>(s: seq<Counted<K>>)
  {
    forall x, y :: x in s && y in s && x.key == y.key ==> x == y
  }

  /** A table is grouped exactly when it lists no row twice and no key with two counts;
      both halves depend only on the table's multiset of rows. */
  lemma UniqueKeysCharacterised<K(!new)>(s: seq<Counted<K>>)
    ensures UniqueKeys(s) <==> Distinct(s) && KeysDetermineRows(s)
  {
    if UniqueKeys(s) {
      forall x, y | x in s && y in s && x.key == y.key ensures x == y {
        var i :| 0 <= i < |s| && s[i] == x;
        var j :| 0 <= j < |s| && s[j] == y;
        assert !(i < j) && !(j < i);
      }
    }
    if Distinct(s) && KeysDetermineRows(s) {
      forall i, j | 0 <= i < j < |s| ensures s[i].key != s[j].key {
        assert s[i] in s && s[j] in s && s[i] != s[j];
      }
    }
  }

  /** Reordering a grouped table keeps it grouped. */
  lemma UniqueKeysPermutation<K(!new)>(a: seq<Counted<K>>, b: seq<Counted<K>>)
    requires multiset(a) == multiset(b) && UniqueKeys(b)
    ensures UniqueKeys(a)
  {
    UniqueKeysCharacterised(a);
    UniqueKeysCharacterised(b);
    DistinctMultiset(a);
    DistinctMultiset(b);
    forall x ensures x in a <==> x in b {
      assert x in a <==> x in multiset(a);
      assert x in b <==> x in multiset(b);
    }
  }

  /** Sorting by frequency only reorders the rows: every key keeps its frequency and a
      grouped table stays grouped. */
  lemma SortByCountKeeps<K(!new)>(s: seq<Counted<K>>)
    ensures forall k :: SumFor(SortByCount(s), k) == SumFor(s, k)
    ensures UniqueKeys(s) ==> UniqueKeys(SortByCount(s))
    ensures KeySet(SortByCount(s)) == KeySet(s)
  {
    var r := SortByCount(s);
    KeySetPermutation(r, s);
    forall k ensures SumFor(r, k) == SumFor(s, k) {
      SumForPermutation(r, s, k);
    }
    if UniqueKeys(s) {
      UniqueKeysPermutation(r, s);
    }
  }

  /** In a grouped table a row's count is the frequency the table gives its key. */
  lemma {:induction false} SumForUnique<K(!new)>(s: seq<Counted<K>>, i: nat)
    requires UniqueKeys(s) && i < |s|
    ensures SumFor(s, s[i].key) == s[i].count
  {
    UniqueKeysTail(s);
    if i == 0 {
      assert s[0].key !in KeySet(s[1..]);
      SumForAbsent(s[1..], s[0].key);
    } else {
      assert s[i] == s[1..][i - 1];
      SumForUnique(s[1..], i - 1);
    }
  }

  /** When every row reaches a non-negative bound, so does the frequency of every key that
      occurs. */
  lemma {:induction false} SumForAtLeast<K(!new)>(s: seq<Counted<K>>, k: K, n: int)
    requires n >= 0 && forall x :: x in s ==> x.count >= n
    ensures SumFor(s, k) >= 0
    ensures k in KeySet(s) ==> SumFor(s, k) >= n
  {
    if |s| > 0 {
      KeySetCons(s);
      assert forall x :: x in s[1..] ==> x in s;
      SumForAtLeast(s[1..], k, n);
    }
  }

  /** When every row reaches a non-negative bound, so does every row of the grouping. */
  lemma GroupSumAtLeast<K(!new)>(s: seq<Counted<K>>, n: int)
    requires n >= 0 && forall x :: x in s ==> x.count >= n
    ensures forall x :: x in GroupSum(s) ==> x.count >= n
  {
    var g := GroupSum(s);
    forall x | x in g ensures x.count >= n {
      var i :| 0 <= i < |g| && g[i] == x;
      SumForUnique(g, i);
      assert x.key in KeySet(s);
      SumForAtLeast(s, x.key, n);
    }
  }

  /** Leaving rows out of a grouped table leaves it grouped. */
  lemma {:induction false} FilterUnique<K(!new)>(s: seq<Counted<K>>, p: Counted<K> -> bool)
    requires UniqueKeys(s)
    ensures UniqueKeys(Filter(s, p))
  {
    if |s| > 0 {
      UniqueKeysTail(s);
      FilterUnique(s[1..], p);
      var rest := Filter(s[1..], p);
      FilterFacts(s[1..], p);
      if p(s[0]) {
        var r := Filter(s, p);
        assert r == [s[0]] + rest;
        forall i, j | 0 <= i < j < |r| ensures r[i].key != r[j].key {
          assert r[j] == rest[j - 1];
          if i == 0 {
            assert rest[j - 1] in rest;
          } else {
            assert r[i] == rest[i - 1];
          }
        }
      }
    }
  }
}
