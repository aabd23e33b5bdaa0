/** The feature insight (analysis.py lines 98-123) and the delivery and
    payment method counts (lines 245 and 284). */
module Features {
  import opened Wrappers
  import opened Strings
  import opened Tally
  import opened Cleaning

  /** The separator `str.split` cuts the Features cells on. */
  const Separator: string := ", "

  /** How many rows of the feature table the "top features" chart shows. */
  const TopCount: nat := 12

  /** `df['Features'].str.split(', ', expand=True).stack()`: the pieces of
      every text cell, row after row; a cell that is not text gives NaN, which
      `stack` drops together with the padding `expand=True` adds. */
  function FeaturePieces(col: seq<Cell>): (r: seq<string>)
    ensures forall p :: p in r ==> SepFree(p, Separator)
    decreases |col|
  {
    if col == [] then []
    else (if col[0].Text? then Split(col[0].s, Separator) else []) + FeaturePieces(col[1..])
  }

  /** The pieces of a table are the pieces of its parts, in row order. */
  lemma {:induction false} FeaturePiecesAppend(a: seq<Cell>, b: seq<Cell>)
    ensures FeaturePieces(a + b) == FeaturePieces(a) + FeaturePieces(b)
    decreases |a|
  {
    if a == [] {
      assert a + b == b;
    } else {
      assert (a + b)[0] == a[0] && (a + b)[1..] == a[1..] + b;
      FeaturePiecesAppend(a[1..], b);
    }
  }

  /** Cells that are not text contribute no pieces. */
  lemma {:induction false} FeaturePiecesSkipNonText(col: seq<Cell>)
    requires forall i :: 0 <= i < |col| ==> !col[i].Text?
    ensures FeaturePieces(col) == []
    decreases |col|
  {
    if col != [] { FeaturePiecesSkipNonText(col[1..]); }
  }

  /** The pieces of one text cell rejoin, with the separator, into the cell. */
  lemma FeaturePiecesOfCell(s: string)
    ensures Join(FeaturePieces([Text(s)]), Separator) == s
  {
    assert [Text(s)][1..] == [];
    assert FeaturePieces([Text(s)]) == Split(s, Separator) + [] == Split(s, Separator);
  }

  function FeatureColumn(rows: seq<Course>): (r: seq<Cell>)
    ensures |r| == |rows| && forall i :: 0 <= i < |rows| ==> r[i] == rows[i].features
  {
    seq(|rows|, i requires 0 <= i < |rows| => rows[i].features)
  }

  /** Lines 98-123: the frequency table of the feature pieces, its first 12
      rows and its rows of count 1. */
  method FeatureInsight(col: seq<Cell>) returns (counts: seq<Entry<string>>, top: seq<Entry<string>>, unique: seq<Entry<string>>)
    ensures IsValueCounts(FeaturePieces(col), counts)
    ensures Total(counts) == |FeaturePieces(col)|
    ensures |top| == (if TopCount < |counts| then TopCount else |counts|) && top == counts[..|top|]
    ensures forall i, j :: 0 <= i < |top| <= j < |counts| ==> top[i].count >= counts[j].count
    ensures |unique| <= |counts| && unique == counts[|counts| - |unique|..]
    ensures forall i :: 0 <= i < |unique| ==> unique[i].count == 1 && multiset(FeaturePieces(col))[unique[i].value] == 1
    ensures forall x :: x in FeaturePieces(col) && multiset(FeaturePieces(col))[x] == 1 ==> Entry(x, 1) in unique
  {
    var pieces := FeaturePieces(col);
    counts := ValueCounts(pieces);
    top := Head(counts, TopCount);
    HeadHoldsTheLargest(counts, TopCount);
    unique := WithCount(counts, 1);
    CountOneIsTail(counts);
    UniqueAreSingletons(pieces, counts);
    forall i | 0 <= i < |unique| ensures multiset(pieces)[unique[i].value] == 1 {
      assert unique[i] in WithCount(counts, 1);
    }
  }

  /** `Series.value_counts()` leaves out missing cells. */
  function Present(col: seq<Cell>): (r: seq<Cell>)
    ensures Missing !in r
    ensures forall c :: c != Missing ==> multiset(r)[c] == multiset(col)[c]
    decreases |col|
  {
    if col == [] then []
    else
      assert col == [col[0]] + col[1..];
      (if col[0] == Missing then [] else [col[0]]) + Present(col[1..])
  }

  function DeliveryColumn(rows: seq<Course>): (r: seq<Cell>)
    ensures |r| == |rows| && forall i :: 0 <= i < |rows| ==> r[i] == rows[i].deliveryMethod
  {
    seq(|rows|, i requires 0 <= i < |rows| => rows[i].deliveryMethod)
  }

  function PaymentColumn(rows: seq<Course>): (r: seq<Cell>)
    ensures |r| == |rows| && forall i :: 0 <= i < |rows| ==> r[i] == rows[i].paymentMethod
  {
    seq(|rows|, i requires 0 <= i < |rows| => rows[i].paymentMethod)
  }

  /** Line 245: the courses per delivery method, most common first. */
  method DeliveryCounts(rows: seq<Course>) returns (t: seq<Entry<Cell>>)
    ensures IsValueCounts(Present(DeliveryColumn(rows)), t)
    ensures forall i :: 0 <= i < |t| ==> t[i].value != Missing && t[i].count == multiset(DeliveryColumn(rows))[t[i].value]
    ensures Total(t) == |Present(DeliveryColumn(rows))|
  {
    t := ValueCounts(Present(DeliveryColumn(rows)));
  }

  /** Line 284: the courses per payment method, most common first. */
  method PaymentCounts(rows: seq<Course>) returns (t: seq<Entry<Cell>>)
    ensures IsValueCounts(Present(PaymentColumn(rows)), t)
    ensures forall i :: 0 <= i < |t| ==> t[i].value != Missing && t[i].count == multiset(PaymentColumn(rows))[t[i].value]
    ensures Total(t) == |Present(PaymentColumn(rows))|
  {
    t := ValueCounts(Present(PaymentColumn(rows)));
  }
}
