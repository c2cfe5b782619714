/** Sorting rows by a key of one or two strings, as `sorted(...)` and
    `DataFrame.sort_values(by=[c1, c2])` do: ascending, first column first, strings in
    code-point order. The model sorts by stable insertion; on distinct keys every sort
    agrees with it. */
module Sorting {
  import opened Text
  import opened Seqs

  type Pair = (string, string)

  /** The order on two-column sort keys: the first column decides unless it ties. */
  predicate PairLe(a: Pair, b: Pair)
  {
    if a.0 == b.0 then LexLe(a.1, b.1) else LexLe(a.0, b.0)
  }

  lemma PairLeTotal(a: Pair, b: Pair)
    ensures PairLe(a, b) || PairLe(b, a)
  {
    LexLeTotal(a.0, b.0);
    LexLeTotal(a.1, b.1);
  }

  lemma PairLeAntisym(a: Pair, b: Pair)
    requires PairLe(a, b) && PairLe(b, a)
    ensures a == b
  {
    if a.0 == b.0 { LexLeAntisym(a.1, b.1); } else { LexLeAntisym(a.0, b.0); }
  }

  lemma PairLeTrans(a: Pair, b: Pair, c: Pair)
    requires PairLe(a, b) && PairLe(b, c)
    ensures PairLe(a, c)
  {
    if a.0 == b.0 && b.0 == c.0 {
      LexLeTrans(a.1, b.1, c.1);
    } else if a.0 != b.0 && b.0 != c.0 {
      LexLeTrans(a.0, b.0, c.0);
      if a.0 == c.0 { LexLeAntisym(a.0, b.0); }
    }
  }

  ghost predicate SortedBy<T>(s: seq<T>, key: T -> Pair)
  {
    forall i, j :: 0 <= i < j < |s| ==> PairLe(key(s[i]), key(s[j]))
  }

  /** Places `x` before the first element whose key is not below it. */
  function Insert<T>(x: T, s: seq<T>, key: T -> Pair): (r: seq<T>)
    requires SortedBy(s, key)
    ensures multiset(r) == multiset(s) + multiset{x}
    ensures |r| == |s| + 1
    ensures SortedBy(r, key)
  {
    if |s| == 0 || PairLe(key(x), key(s[0])) then
      SortedCons(x, s, key);
      [x] + s
    else
      SortedTail(s, key);
      var rest := Insert(x, s[1..], key);
      PairLeTotal(key(x), key(s[0]));
      assert s == [s[0]] + s[1..];
      InsertAbove(x, s, rest, key);
      SortedCons(s[0], rest, key);
      [s[0]] + rest
  }

  /** An element whose key is not above the first key of a sorted sequence may go in
      front of it. */
  lemma SortedCons<T>(x: T, s: seq<T>, key: T -> Pair)
    requires SortedBy(s, key)
    requires |s| == 0 || PairLe(key(x), key(s[0]))
    ensures SortedBy([x] + s, key)
  {
    var r := [x] + s;
    forall i, j | 0 <= i < j < |r| ensures PairLe(key(r[i]), key(r[j])) {
      assert r[j] == s[j - 1];
      if i > 0 {
        assert r[i] == s[i - 1];
      } else if j > 1 {
        PairLeTrans(key(x), key(s[0]), key(s[j - 1]));
      }
    }
  }

  lemma SortedTail<T>(s: seq<T>, key: T -> Pair)
    requires |s| > 0 && SortedBy(s, key)
    ensures SortedBy(s[1..], key)
  {
    forall i, j | 0 <= i < j < |s[1..]| ensures PairLe(key(s[1..][i]), key(s[1..][j])) {
      assert s[1..][i] == s[i + 1] && s[1..][j] == s[j + 1];
    }
  }

  /** Inserting `x` behind the first element of a sorted `s` keeps everything at or
      above that first element. */
  lemma InsertAbove<T>(x: T, s: seq<T>, rest: seq<T>, key: T -> Pair)
    requires |s| > 0 && SortedBy(s, key) && PairLe(key(s[0]), key(x))
    requires multiset(rest) == multiset(s[1..]) + multiset{x}
    ensures |rest| == 0 || PairLe(key(s[0]), key(rest[0]))
  {
    if |rest| > 0 {
      assert rest[0] in multiset(rest);
      if rest[0] != x {
        assert rest[0] in multiset(s[1..]);
        var k :| 0 <= k < |s[1..]| && s[1..][k] == rest[0];
        assert s[k + 1] == rest[0];
      }
    }
  }

  /** The rows of `s` in ascending key order. */
  function Sort<T>(s: seq<T>, key: T -> Pair): (r: seq<T>)
    ensures multiset(r) == multiset(s)
    ensures |r| == |s|
    ensures SortedBy(r, key)
  {
    if |s| == 0 then []
    else
      assert s == [s[0]] + s[1..];
      Insert(s[0], Sort(s[1..], key), key)
  }

  /** Sorting looks only at keys: two sequences that are related element by element by a
      relation preserving keys are sorted into sequences related element by element. */
  lemma {:induction false} SortPointwise<T(!new)>(s: seq<T>, t: seq<T>, key: T -> Pair, rel: (T, T) -> bool)
    requires |s| == |t|
    requires forall i :: 0 <= i < |s| ==> rel(s[i], t[i])
    requires forall x, y :: rel(x, y) ==> key(x) == key(y)
    ensures |Sort(s, key)| == |Sort(t, key)|
    ensures forall i :: 0 <= i < |s| ==> rel(Sort(s, key)[i], Sort(t, key)[i])
  {
    if |s| > 0 {
      SortPointwise(s[1..], t[1..], key, rel);
      InsertPointwise(s[0], t[0], Sort(s[1..], key), Sort(t[1..], key), key, rel);
    }
  }

  lemma {:induction false} InsertPointwise<T(!new)>(x: T, y: T, s: seq<T>, t: seq<T>, key: T -> Pair, rel: (T, T) -> bool)
    requires SortedBy(s, key) && SortedBy(t, key)
    requires |s| == |t| && rel(x, y)
    requires forall i :: 0 <= i < |s| ==> rel(s[i], t[i])
    requires forall x, y :: rel(x, y) ==> key(x) == key(y)
    ensures |Insert(x, s, key)| == |Insert(y, t, key)| == |s| + 1
    ensures forall i :: 0 <= i < |s| + 1 ==> rel(Insert(x, s, key)[i], Insert(y, t, key)[i])
  {
    var rs, rt := Insert(x, s, key), Insert(y, t, key);
    if |s| == 0 {
      assert rs == [x] && rt == [y];
    } else {
      assert rel(s[0], t[0]);
      assert key(x) == key(y) && key(s[0]) == key(t[0]);
      if PairLe(key(x), key(s[0])) {
        assert rs == [x] + s && rt == [y] + t;
        PointwiseCons(x, y, s, t, rel);
      } else {
        SortedTail(s, key);
        SortedTail(t, key);
        PointwiseTail(s, t, rel);
        InsertPointwise(x, y, s[1..], t[1..], key, rel);
        var rs1, rt1 := Insert(x, s[1..], key), Insert(y, t[1..], key);
        assert rs == [s[0]] + rs1 && rt == [t[0]] + rt1;
        PointwiseCons(s[0], t[0], rs1, rt1, rel);
      }
    }
  }

  lemma PointwiseCons<T>(x: T, y: T, s: seq<T>, t: seq<T>, rel: (T, T) -> bool)
    requires |s| == |t| && rel(x, y)
    requires forall i :: 0 <= i < |s| ==> rel(s[i], t[i])
    ensures forall i :: 0 <= i < |s| + 1 ==> rel(([x] + s)[i], ([y] + t)[i])
  {
    forall i | 0 <= i < |s| + 1 ensures rel(([x] + s)[i], ([y] + t)[i]) {
      if i > 0 { assert ([x] + s)[i] == s[i - 1] && ([y] + t)[i] == t[i - 1]; }
    }
  }

  lemma PointwiseTail<T>(s: seq<T>, t: seq<T>, rel: (T, T) -> bool)
    requires |s| == |t| > 0
    requires forall i :: 0 <= i < |s| ==> rel(s[i], t[i])
    ensures forall i :: 0 <= i < |s| - 1 ==> rel(s[1..][i], t[1..][i])
  {
    forall i | 0 <= i < |s| - 1 ensures rel(s[1..][i], t[1..][i]) {
      assert s[1..][i] == s[i + 1] && t[1..][i] == t[i + 1];
    }
  }

  /** Distinct keys fix the sorted order: two sorted arrangements of the same rows are
      the same sequence. So on rows with distinct keys every sorting algorithm, stable or
      not, agrees with `Sort`. */
  lemma {:induction false} SortedUnique<T>(a: seq<T>, b: seq<T>, key: T -> Pair)
    requires SortedBy(a, key) && SortedBy(b, key) && multiset(a) == multiset(b)
    requires forall x, y :: x in a && y in a && key(x) == key(y) ==> x == y
    ensures a == b
    decreases |a|
  {
    assert |a| == |multiset(a)| == |multiset(b)| == |b|;
    if |a| > 0 {
      SortedHeads(a, b, key);
      SortedTails(a, b, key);
      SortedUnique(a[1..], b[1..], key);
      assert a == [a[0]] + a[1..] && b == [b[0]] + b[1..];
    }
  }

  /** On rows with distinct keys, `Sort` gives the one sorted arrangement. */
  lemma SortDetermined<T>(s: seq<T>, t: seq<T>, key: T -> Pair)
    requires SortedBy(t, key) && multiset(s) == multiset(t)
    requires forall x, y :: x in s && y in s && key(x) == key(y) ==> x == y
    ensures Sort(s, key) == t
  {
    var r := Sort(s, key);
    assert forall x :: x in r ==> x in s by {
      forall x | x in r ensures x in s {
        assert x in multiset(r);
      }
    }
    SortedUnique(r, t, key);
  }

  /** Past equal heads, the tails meet the conditions of `SortedUnique` again. */
  lemma SortedTails<T>(a: seq<T>, b: seq<T>, key: T -> Pair)
    requires SortedBy(a, key) && SortedBy(b, key) && multiset(a) == multiset(b)
    requires forall x, y :: x in a && y in a && key(x) == key(y) ==> x == y
    requires |a| > 0 && |b| > 0 && a[0] == b[0]
    ensures SortedBy(a[1..], key) && SortedBy(b[1..], key) && multiset(a[1..]) == multiset(b[1..])
    ensures forall x, y :: x in a[1..] && y in a[1..] && key(x) == key(y) ==> x == y
  {
    MultisetTails(a, b);
    SortedTail(a, key);
    SortedTail(b, key);
    assert forall x :: x in a[1..] ==> x in a;
  }

  lemma MultisetTails<T>(a: seq<T>, b: seq<T>)
    requires |a| > 0 && |b| > 0 && a[0] == b[0] && multiset(a) == multiset(b)
    ensures multiset(a[1..]) == multiset(b[1..])
  {
    var ta, tb := a[1..], b[1..];
    assert a == [a[0]] + ta;
    assert b == [a[0]] + tb;
    assert multiset(ta) == multiset(a) - multiset{a[0]};
    assert multiset(tb) == multiset(b) - multiset{a[0]};
  }

  /** Two sorted arrangements of the same rows with distinct keys start alike. */
  lemma SortedHeads<T>(a: seq<T>, b: seq<T>, key: T -> Pair)
    requires SortedBy(a, key) && SortedBy(b, key) && multiset(a) == multiset(b)
    requires forall x, y :: x in a && y in a && key(x) == key(y) ==> x == y
    requires |a| > 0 && |b| > 0
    ensures a[0] == b[0]
  {
    assert a[0] in multiset(b) && b[0] in multiset(a);
    var k :| 0 <= k < |b| && b[k] == a[0];
    var l :| 0 <= l < |a| && a[l] == b[0];
    if k > 0 && l > 0 {
      assert PairLe(key(b[0]), key(b[k])) && PairLe(key(a[0]), key(a[l]));
      PairLeAntisym(key(a[0]), key(b[0]));
    }
  }

  /** `sorted(words)` on strings. */
  function SortStrings(s: seq<string>): (r: seq<string>)
    ensures multiset(r) == multiset(s)
    ensures forall i, j :: 0 <= i < j < |r| ==> LexLe(r[i], r[j])
  {
    var r := Sort(s, (w: string) => (w, ""));
    assert forall i, j :: 0 <= i < j < |r| ==> LexLe(r[i], r[j]) by {
      forall i, j | 0 <= i < j < |r| ensures LexLe(r[i], r[j]) {
        assert PairLe((r[i], ""), (r[j], ""));
        LexLeRefl(r[i]);
      }
    }
    r
  }

  /** Sorting duplicate-free strings gives a strictly ascending sequence. */
  lemma SortStringsStrict(s: seq<string>)
    requires forall x :: multiset(s)[x] <= 1
    ensures forall i, j :: 0 <= i < j < |SortStrings(s)| ==> LexLt(SortStrings(s)[i], SortStrings(s)[j])
  {
    var r := SortStrings(s);
    DistinctMultiset(r);
    forall i, j | 0 <= i < j < |r| ensures LexLt(r[i], r[j]) {
      assert r[i] != r[j];
    }
  }
}
