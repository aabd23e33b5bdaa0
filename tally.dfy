/** pandas' `value_counts()` (analysis.py lines 100, 245 and 284), the
    `head(12)` of its result (line 104) and the selection of the rows whose
    count is exactly 1 (line 123). */
module Tally {

  /** One row of a frequency table: a value and how often it occurs. */
  datatype Entry<T> = Entry(value: T, count: nat)

  ghost predicate DistinctValues<T>(t: seq<Entry<T>>) {
    forall i, j :: 0 <= i < j < |t| ==> t[i].value != t[j].value
  }

  /** Every row counts a value of `xs`, and counts it right. */
  ghost predicate CountsMatch<T>(xs: seq<T>, t: seq<Entry<T>>) {
    forall i :: 0 <= i < |t| ==> t[i].value in xs && t[i].count == multiset(xs)[t[i].value]
  }

  /** Every value of `xs` has a row. */
  ghost predicate Covers<T>(xs: seq<T>, t: seq<Entry<T>>) {
    forall x :: x in xs ==> exists i :: 0 <= i < |t| && t[i].value == x
  }

  predicate NonIncreasing<T>(t: seq<Entry<T>>) {
    forall i, j :: 0 <= i < j < |t| ==> t[i].count >= t[j].count
  }

  /** `t` is a value-counts table of `xs`: one row per distinct value, with
      its number of occurrences, most frequent first. */
  ghost predicate IsValueCounts<T>(xs: seq<T>, t: seq<Entry<T>>) {
    DistinctValues(t) && CountsMatch(xs, t) && Covers(xs, t) && NonIncreasing(t)
  }

  function Total<T>(t: seq<Entry<T>>): nat {
    if t == [] then 0 else t[0].count + Total(t[1..])
  }

  // ---------------------------------------------------------------------------
  // Building the table
  // ---------------------------------------------------------------------------

  /** The first position whose count is below `c`: the rows before it all
      have at least `c`. */
  function InsertPos<T>(s: seq<Entry<T>>, c: nat): (p: nat)
    ensures p <= |s|
    ensures forall i :: 0 <= i < p ==> s[i].count >= c
    ensures p < |s| ==> s[p].count < c
  {
    if s == [] || s[0].count < c then 0
    else
      var p := InsertPos(s[1..], c);
      assert forall i :: 1 <= i < 1 + p ==> s[i] == s[1..][i - 1];
      1 + p
  }

  /** Inserts `e` after every row whose count is at least `e.count`, so rows
      of equal count keep their order of insertion. */
  function InsertByCount<T(==)>(s: seq<Entry<T>>, e: Entry<T>): (r: seq<Entry<T>>)
    ensures multiset(r) == multiset(s) + multiset{e}
  {
    var p := InsertPos(s, e.count);
    assert s == s[..p] + s[p..];
    s[..p] + [e] + s[p..]
  }

  lemma InsertByCountAt<T>(s: seq<Entry<T>>, e: Entry<T>)
    ensures var p, r := InsertPos(s, e.count), InsertByCount(s, e);
      (forall i :: 0 <= i < p ==> r[i] == s[i]) && r[p] == e &&
      (forall i :: p < i < |r| ==> r[i] == s[i - 1])
  {
    var p := InsertPos(s, e.count);
    var r := s[..p] + [e] + s[p..];
    assert InsertByCount(s, e) == r;
    assert forall i :: 0 <= i < p ==> r[i] == s[..p][i];
    assert forall i :: p < i < |r| ==> r[i] == s[p..][i - p - 1];
  }

  /** Insertion keeps a table ordered by non-increasing count. */
  lemma InsertKeepsOrder<T>(s: seq<Entry<T>>, e: Entry<T>)
    requires NonIncreasing(s)
    ensures NonIncreasing(InsertByCount(s, e))
  {
    InsertByCountAt(s, e);
  }

  /** Inserting a row for a new value keeps the values distinct. */
  lemma InsertKeepsDistinct<T>(s: seq<Entry<T>>, e: Entry<T>)
    requires DistinctValues(s)
    requires forall i :: 0 <= i < |s| ==> s[i].value != e.value
    ensures DistinctValues(InsertByCount(s, e))
  {
    InsertByCountAt(s, e);
  }

  /** pandas' `Series.value_counts()`: counts every value, then orders the
      rows by descending count. */
  method ValueCounts<T(==)>(xs: seq<T>) returns (t: seq<Entry<T>>)
    ensures IsValueCounts(xs, t)
    ensures Total(t) == |xs|
  {
    var entries := CountValues(xs);
    t := SortByCount(entries);
    forall x | x in xs ensures exists i :: 0 <= i < |t| && t[i].value == x {
      var k :| 0 <= k < |entries| && entries[k].value == x;
      assert entries[k] in multiset(t);
    }
    forall i | 0 <= i < |t| ensures t[i].value in xs && t[i].count == multiset(xs)[t[i].value] {
      assert t[i] in multiset(entries);
    }
    TotalOfValueCounts(xs, t);
  }

  /** The counting pass: a map from value to count, with the values kept in
      order of first appearance. */
  method CountValues<T(==)>(xs: seq<T>) returns (entries: seq<Entry<T>>)
    ensures DistinctValues(entries) && CountsMatch(xs, entries) && Covers(xs, entries)
  {
    var keys: seq<T> := [];
    var counts: map<T, nat> := map[];
    var i := 0;
    while i < |xs|
      invariant 0 <= i <= |xs|
      invariant forall a, b :: 0 <= a < b < |keys| ==> keys[a] != keys[b]
      invariant forall k :: k in counts <==> k in keys
      invariant forall k :: k in keys <==> k in xs[..i]
      invariant forall k :: k in counts ==> counts[k] == multiset(xs[..i])[k]
    {
      var x := xs[i];
      assert xs[..i + 1] == xs[..i] + [x];
      if x in counts {
        counts := counts[x := counts[x] + 1];
      } else {
        keys := keys + [x];
        counts := counts[x := 1];
      }
      i := i + 1;
    }
    assert xs[..i] == xs;
    entries := seq(|keys|, j requires 0 <= j < |keys| => Entry(keys[j], counts[keys[j]]));
    forall x | x in xs ensures exists j :: 0 <= j < |entries| && entries[j].value == x {
      var k :| 0 <= k < |keys| && keys[k] == x;
      assert entries[k].value == x;
    }
  }

  /** The ordering pass: a stable insertion sort by descending count. */
  method SortByCount<T(==)>(entries: seq<Entry<T>>) returns (t: seq<Entry<T>>)
    requires DistinctValues(entries)
    ensures multiset(t) == multiset(entries)
    ensures NonIncreasing(t) && DistinctValues(t)
  {
    t := [];
    var j := 0;
    while j < |entries|
      invariant 0 <= j <= |entries|
      invariant multiset(t) == multiset(entries[..j])
      invariant NonIncreasing(t)
      invariant DistinctValues(t)
    {
      forall i | 0 <= i < |t| ensures t[i].value != entries[j].value {
        assert t[i] in multiset(entries[..j]);
        var k :| 0 <= k < j && entries[..j][k] == t[i];
      }
      assert entries[..j + 1] == entries[..j] + [entries[j]];
      InsertKeepsOrder(t, entries[j]);
      InsertKeepsDistinct(t, entries[j]);
      t := InsertByCount(t, entries[j]);
      j := j + 1;
    }
    assert entries[..j] == entries;
  }

  // ---------------------------------------------------------------------------
  // The counts add up to the number of values
  // ---------------------------------------------------------------------------

  /** How many rows of `t` are about `x`. */
  ghost function Rows<T>(t: seq<Entry<T>>, x: T): nat {
    if t == [] then 0 else (if t[0].value == x then 1 else 0) + Rows(t[1..], x)
  }

  /** The occurrences in `m` of the values the rows name. */
  function SumOver<T>(t: seq<Entry<T>>, m: multiset<T>): nat {
    if t == [] then 0 else m[t[0].value] + SumOver(t[1..], m)
  }

  lemma {:induction false} SumOverAdd<T>(t: seq<Entry<T>>, m: multiset<T>, x: T)
    ensures SumOver(t, m + multiset{x}) == SumOver(t, m) + Rows(t, x)
  {
    if t != [] { SumOverAdd(t[1..], m, x); }
  }

  lemma {:induction false} DistinctRowsOnce<T>(t: seq<Entry<T>>, x: T)
    requires DistinctValues(t)
    ensures Rows(t, x) <= 1
    ensures (exists i :: 0 <= i < |t| && t[i].value == x) ==> Rows(t, x) == 1
  {
    if t != [] {
      assert DistinctValues(t[1..]) by {
        forall i, j | 0 <= i < j < |t[1..]| ensures t[1..][i].value != t[1..][j].value {
          assert t[1..][i] == t[i + 1] && t[1..][j] == t[j + 1];
        }
      }
      DistinctRowsOnce(t[1..], x);
      if t[0].value == x {
        if Rows(t[1..], x) != 0 {
          RowsWitness(t[1..], x);
        }
      } else if exists i :: 0 <= i < |t| && t[i].value == x {
        var i :| 0 <= i < |t| && t[i].value == x;
        assert t[1..][i - 1].value == x;
      }
    }
  }

  lemma {:induction false} RowsWitness<T>(t: seq<Entry<T>>, x: T)
    requires Rows(t, x) > 0
    ensures exists k :: 0 <= k < |t| && t[k].value == x
  {
    if t[0].value != x {
      RowsWitness(t[1..], x);
      var k :| 0 <= k < |t[1..]| && t[1..][k].value == x;
      assert t[k + 1].value == x;
    }
  }

  /** With one row per value of `m`, the counts of `m` add up to its size. */
  lemma {:induction false} SumOverAll<T>(t: seq<Entry<T>>, m: multiset<T>)
    requires DistinctValues(t)
    requires forall x :: x in m ==> exists i :: 0 <= i < |t| && t[i].value == x
    ensures SumOver(t, m) == |m|
    decreases |m|
  {
    if m == multiset{} {
      SumOverEmpty(t, m);
    } else {
      var x :| x in m;
      var rest := m - multiset{x};
      assert m == rest + multiset{x};
      SumOverAll(t, rest);
      SumOverAdd(t, rest, x);
      DistinctRowsOnce(t, x);
    }
  }

  lemma {:induction false} SumOverEmpty<T>(t: seq<Entry<T>>, m: multiset<T>)
    requires m == multiset{}
    ensures SumOver(t, m) == 0
  {
    if t != [] { SumOverEmpty(t[1..], m); }
  }

  lemma {:induction false} TotalIsSumOver<T>(xs: seq<T>, t: seq<Entry<T>>)
    requires CountsMatch(xs, t)
    ensures Total(t) == SumOver(t, multiset(xs))
  {
    if t != [] {
      assert CountsMatch(xs, t[1..]) by {
        forall i | 0 <= i < |t[1..]| ensures t[1..][i].value in xs && t[1..][i].count == multiset(xs)[t[1..][i].value] {
          assert t[1..][i] == t[i + 1];
        }
      }
      TotalIsSumOver(xs, t[1..]);
    }
  }

  /** The counts of a value-counts table add up to the number of values counted. */
  lemma {:induction false} TotalOfValueCounts<T>(xs: seq<T>, t: seq<Entry<T>>)
    requires DistinctValues(t) && CountsMatch(xs, t) && Covers(xs, t)
    ensures Total(t) == |xs|
  {
    TotalIsSumOver(xs, t);
    assert forall x :: x in multiset(xs) ==> x in xs;
    SumOverAll(t, multiset(xs));
  }

  // ---------------------------------------------------------------------------
  // head(n) and the rows of count 1
  // ---------------------------------------------------------------------------

  /** `DataFrame.head(n)`: the first `min(n, |t|)` rows. */
  function Head<T>(t: seq<Entry<T>>, n: nat): (r: seq<Entry<T>>)
    ensures |r| == (if n < |t| then n else |t|)
    ensures r == t[..|r|]
  {
    if n < |t| then t[..n] else t
  }

  /** On an ordered table, no row left out of the head outnumbers a row in it. */
  lemma HeadHoldsTheLargest<T>(t: seq<Entry<T>>, n: nat)
    requires NonIncreasing(t)
    ensures forall i, j :: 0 <= i < |Head(t, n)| <= j < |t| ==> Head(t, n)[i].count >= t[j].count
  {
  }

  /** `t[t['Count'] == c]`: the rows whose count is `c`, in table order. */
  function WithCount<T>(t: seq<Entry<T>>, c: nat): (r: seq<Entry<T>>)
    ensures |r| <= |t|
    ensures forall i :: 0 <= i < |r| ==> r[i].count == c
    ensures forall i :: 0 <= i < |t| && t[i].count == c ==> t[i] in r
    ensures forall i :: 0 <= i < |r| ==> r[i] in t
  {
    if t == [] then []
    else
      var rest := WithCount(t[1..], c);
      assert forall i :: 1 <= i < |t| ==> t[i] == t[1..][i - 1];
      if t[0].count == c then [t[0]] + rest else rest
  }

  /** In a table ordered by count whose counts are all positive, the rows of
      count 1 are exactly its tail. */
  lemma {:induction false} CountOneIsTail<T>(t: seq<Entry<T>>)
    requires NonIncreasing(t)
    requires forall i :: 0 <= i < |t| ==> t[i].count >= 1
    ensures WithCount(t, 1) == t[|t| - |WithCount(t, 1)|..]
  {
    if t != [] {
      var rest := t[1..];
      if t[0].count == 1 {
        assert forall i :: 0 <= i < |t| ==> t[i].count == 1;
        AllOnes(t);
      } else {
        assert NonIncreasing(rest) by {
          assert forall i :: 0 <= i < |rest| ==> rest[i] == t[i + 1];
        }
        CountOneIsTail(rest);
        var w := |WithCount(rest, 1)|;
        assert WithCount(t, 1) == WithCount(rest, 1);
        assert rest[|rest| - w..] == t[|t| - w..];
      }
    }
  }

  lemma {:induction false} AllOnes<T>(t: seq<Entry<T>>)
    requires forall i :: 0 <= i < |t| ==> t[i].count == 1
    ensures WithCount(t, 1) == t
  {
    if t != [] {
      assert forall i :: 0 <= i < |t[1..]| ==> t[1..][i] == t[i + 1];
      AllOnes(t[1..]);
    }
  }

  /** The rows of count 1 of a value-counts table are exactly the values
      occurring once. */
  lemma UniqueAreSingletons<T>(xs: seq<T>, t: seq<Entry<T>>)
    requires IsValueCounts(xs, t)
    ensures forall e :: e in WithCount(t, 1) ==> e.value in xs && multiset(xs)[e.value] == 1
    ensures forall x :: x in xs && multiset(xs)[x] == 1 ==> Entry(x, 1) in WithCount(t, 1)
  {
    forall x | x in xs && multiset(xs)[x] == 1 ensures Entry(x, 1) in WithCount(t, 1) {
      var i :| 0 <= i < |t| && t[i].value == x;
      assert t[i] == Entry(x, 1);
    }
    forall e | e in WithCount(t, 1) ensures e.value in xs && multiset(xs)[e.value] == 1 {
      var i :| 0 <= i < |t| && t[i] == e;
    }
  }
}
