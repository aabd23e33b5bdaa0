/** The cleaning of the course table `df_cleaned` (analysis.py lines 11-35,
    44-45, 59 and 152-153) and the positive-fee selection (lines 176-177). */
module Cleaning {
  import opened Wrappers
  import opened AgeGroups

  /** One course listing, with the columns the analysis reads. */
  datatype Course = Course(
    name: Cell,
    ageGroup: Cell,
    features: Cell,
    duration: Cell,
    registrationFee: Cell,
    courseFee: Cell,
    paymentMethod: Cell,
    deliveryMethod: Cell)

  // ---------------------------------------------------------------------------
  // df.drop([0, 9, 13])
  // ---------------------------------------------------------------------------

  /** Where the `k`-th surviving row stood before the rows at positions 0, 9
      and 13 were dropped. */
  function KeptPosition(k: nat): (p: nat)
    ensures k < p <= k + 3
    ensures p != 0 && p != 9 && p != 13
  {
    if k < 8 then k + 1 else if k < 11 then k + 2 else k + 3
  }

  /** The surviving rows are every other row, each once, in their original order. */
  lemma KeptPositionsAreTheRest(n: nat)
    requires n >= 14
    ensures forall k :: 0 <= k < n - 3 ==> KeptPosition(k) < n
    ensures forall k1, k2 :: 0 <= k1 < k2 ==> KeptPosition(k1) < KeptPosition(k2)
    ensures forall p :: 0 <= p < n && p != 0 && p != 9 && p != 13 ==>
      KeptRank(p) < n - 3 && KeptPosition(KeptRank(p)) == p
  {
  }

  /** The inverse of KeptPosition: where a surviving row ends up. */
  function KeptRank(p: nat): nat
    requires p != 0 && p != 9 && p != 13
  {
    if p < 9 then p - 1 else if p < 13 then p - 2 else p - 3
  }

  /** `df.drop([0, 9, 13])` on a table with the default labels 0..n-1: the
      call raises a KeyError unless all three labels exist. */
  function DropOutliers<T>(rows: seq<T>): (r: Result<seq<T>>)
    ensures r.Failure? <==> |rows| < 14
    ensures r.Failure? ==> r.error == KeyError
    ensures r.Success? ==> |r.value| == |rows| - 3
    ensures r.Success? ==> forall k :: 0 <= k < |r.value| ==> r.value[k] == rows[KeptPosition(k)]
  {
    if |rows| < 14 then Failure(KeyError) else Success(rows[1..9] + rows[10..13] + rows[14..])
  }

  /** The labels `df.drop` leaves: each surviving row keeps its old position. */
  function DroppedLabels(n: nat): (r: seq<int>)
    ensures |r| == n
    ensures forall k :: 0 <= k < n ==> r[k] == KeptPosition(k)
  {
    seq(n, k requires 0 <= k < n => KeptPosition(k))
  }

  // ---------------------------------------------------------------------------
  // Per-cell steps
  // ---------------------------------------------------------------------------

  /** `pd.to_numeric(x, errors='coerce')`: numbers stay, anything else is missing. */
  function ToNumeric(c: Cell): (r: Cell)
    ensures !r.Text?
    ensures c.Number? ==> r == c
    ensures !c.Number? ==> r == Missing
  {
    if c.Number? then c else Missing
  }

  /** `replace("NA", np.nan)` on one cell. */
  function ReplaceNA(c: Cell): (r: Cell)
    ensures r != Text("NA")
    ensures c != Text("NA") ==> r == c
    ensures c == Text("NA") ==> r == Missing
  {
    if c == Text("NA") then Missing else c
  }

  /** `pd.to_numeric(x, errors='coerce').fillna(0)` on one cell. */
  function FillZero(c: Cell): (r: Cell)
    ensures r.Number?
    ensures c.Number? ==> r == c
    ensures !c.Number? ==> r == Number(0)
  {
    if c.Number? then c else Number(0)
  }

  predicate NoNA(row: Course) {
    row.name != Text("NA") && row.ageGroup != Text("NA") && row.features != Text("NA") &&
    row.duration != Text("NA") && row.registrationFee != Text("NA") && row.courseFee != Text("NA") &&
    row.paymentMethod != Text("NA") && row.deliveryMethod != Text("NA")
  }

  function ReplaceNAInRow(row: Course): (r: Course)
    ensures NoNA(r)
  {
    Course(ReplaceNA(row.name), ReplaceNA(row.ageGroup), ReplaceNA(row.features), ReplaceNA(row.duration),
           ReplaceNA(row.registrationFee), ReplaceNA(row.courseFee), ReplaceNA(row.paymentMethod),
           ReplaceNA(row.deliveryMethod))
  }

  /** A row with no `"NA"` cell is left as it is. */
  lemma ReplaceNAKeepsClean(row: Course)
    requires NoNA(row)
    ensures ReplaceNAInRow(row) == row
  {
  }

  function CoerceRow(row: Course): (r: Course)
    ensures !r.duration.Text? && !r.registrationFee.Text? && !r.courseFee.Text?
  {
    row.(duration := ToNumeric(row.duration), registrationFee := ToNumeric(row.registrationFee),
         courseFee := ToNumeric(row.courseFee))
  }

  function FillFeesRow(row: Course): (r: Course)
    ensures r.registrationFee.Number? && r.courseFee.Number?
  {
    row.(registrationFee := FillZero(row.registrationFee), courseFee := FillZero(row.courseFee))
  }

  /** The rows before `i` all transform. */
  predicate FirstFailure(rows: seq<Course>, i: nat)
    requires i <= |rows|
  {
    forall j :: 0 <= j < i ==> TransformAgeGroup(rows[j].ageGroup).Success?
  }

  /** `df['Age Group'].apply(transform_age_group)`: the first row whose
      transform raises stops the whole column, with that row's exception. */
  function TransformColumn(rows: seq<Course>): (r: Result<seq<Course>>)
    ensures r.Success? <==> forall i :: 0 <= i < |rows| ==> TransformAgeGroup(rows[i].ageGroup).Success?
    ensures r.Success? ==> |r.value| == |rows|
    ensures r.Success? ==> forall i :: 0 <= i < |rows| ==>
      r.value[i] == rows[i].(ageGroup := TransformAgeGroup(rows[i].ageGroup).value)
    ensures r.Failure? ==>
      (exists i :: 0 <= i < |rows| && FirstFailure(rows, i) && TransformAgeGroup(rows[i].ageGroup) == Failure(r.error))
    decreases |rows|
  {
    if rows == [] then Success([])
    else
      match TransformAgeGroup(rows[0].ageGroup)
      case Failure(e) => Failure(e)
      case Success(c) =>
        var tail := TransformColumn(rows[1..]);
        assert forall i :: 1 <= i < |rows| ==> rows[i] == rows[1..][i - 1];
        match tail
        case Failure(e) =>
          assert exists i :: 0 <= i < |rows| && FirstFailure(rows, i) && TransformAgeGroup(rows[i].ageGroup) == Failure(e) by {
            var i :| 0 <= i < |rows[1..]| && FirstFailure(rows[1..], i) &&
              TransformAgeGroup(rows[1..][i].ageGroup) == Failure(e);
            assert forall j :: 1 <= j < i + 1 ==> rows[j] == rows[1..][j - 1];
            assert FirstFailure(rows, i + 1);
            assert TransformAgeGroup(rows[i + 1].ageGroup) == Failure(e);
          }
          Failure(e)
        case Success(rest) => Success([rows[0].(ageGroup := c)] + rest)
  }

  // ---------------------------------------------------------------------------
  // The table df_cleaned, updated in place
  // ---------------------------------------------------------------------------

  function Positions(n: nat, from: int): (r: seq<int>)
    ensures |r| == n && forall i :: 0 <= i < n ==> r[i] == from + i
  {
    seq(n, i requires 0 <= i < n => from + i)
  }

  class CourseTable {
    var rows: seq<Course>
    /** The row labels (the DataFrame index). */
    var index: seq<int>
    /** The derived columns; empty until they are computed. */
    var minAge: seq<Option<int>>
    var maxAge: seq<Option<int>>
    var courseNumber: seq<int>

    ghost predicate Valid()
      reads this
    {
      |index| == |rows|
    }

    constructor (rows0: seq<Course>, index0: seq<int>)
      requires |rows0| == |index0|
      ensures Valid()
      ensures rows == rows0 && index == index0
      ensures minAge == [] && maxAge == [] && courseNumber == []
    {
      rows, index := rows0, index0;
      minAge, maxAge, courseNumber := [], [], [];
    }

    /** `reset_index(drop=True, inplace=True)`: labels become 0..n-1. */
    method ResetIndex()
      requires Valid()
      modifies this
      ensures Valid()
      ensures index == Positions(|rows|, 0)
      ensures rows == old(rows) && minAge == old(minAge) && maxAge == old(maxAge)
      ensures courseNumber == old(courseNumber)
    {
      index := Positions(|rows|, 0);
    }

    /** `index += k`. */
    method ShiftIndex(k: int)
      requires Valid()
      modifies this
      ensures Valid()
      ensures |index| == |old(index)|
      ensures forall i :: 0 <= i < |index| ==> index[i] == old(index)[i] + k
      ensures rows == old(rows) && minAge == old(minAge) && maxAge == old(maxAge)
      ensures courseNumber == old(courseNumber)
    {
      var labels := index;
      index := seq(|labels|, i requires 0 <= i < |labels| => labels[i] + k);
    }

    /** `df['Age Group'] = df['Age Group'].apply(transform_age_group)`; when a
        row raises, the table is left as it was. */
    method TransformAgeGroups() returns (err: Option<Error>)
      requires Valid()
      modifies this
      ensures Valid()
      ensures TransformColumn(old(rows)).Success? ==> err == None && rows == TransformColumn(old(rows)).value
      ensures TransformColumn(old(rows)).Failure? ==>
        err == Some(TransformColumn(old(rows)).error) && rows == old(rows)
      ensures index == old(index) && minAge == old(minAge) && maxAge == old(maxAge)
      ensures courseNumber == old(courseNumber)
    {
      match TransformColumn(rows)
      case Success(r) => rows := r; err := None;
      case Failure(e) => err := Some(e);
    }

    /** `pd.to_numeric(..., errors='coerce')` on Duration and both fees. */
    method CoerceNumeric()
      requires Valid()
      modifies this
      ensures Valid()
      ensures |rows| == |old(rows)| && forall i :: 0 <= i < |rows| ==> rows[i] == CoerceRow(old(rows)[i])
      ensures index == old(index) && minAge == old(minAge) && maxAge == old(maxAge)
      ensures courseNumber == old(courseNumber)
    {
      var rs := rows;
      rows := seq(|rs|, i requires 0 <= i < |rs| => CoerceRow(rs[i]));
    }

    /** `replace("NA", np.nan, inplace=True)`: afterwards no cell is `"NA"`,
        and every other cell is unchanged. */
    method ReplaceMissingMarkers()
      requires Valid()
      modifies this
      ensures Valid()
      ensures |rows| == |old(rows)| && forall i :: 0 <= i < |rows| ==> rows[i] == ReplaceNAInRow(old(rows)[i])
      ensures forall i :: 0 <= i < |rows| ==> NoNA(rows[i])
      ensures index == old(index) && minAge == old(minAge) && maxAge == old(maxAge)
      ensures courseNumber == old(courseNumber)
    {
      var rs := rows;
      rows := seq(|rs|, i requires 0 <= i < |rs| => ReplaceNAInRow(rs[i]));
    }

    /** The Min_Age and Max_Age columns (lines 44-45). */
    method ExtractAges()
      requires Valid()
      modifies this
      ensures Valid()
      ensures |minAge| == |rows| && |maxAge| == |rows|
      ensures forall i :: 0 <= i < |rows| ==>
        minAge[i] == MinAgeOf(rows[i].ageGroup) && maxAge[i] == MaxAgeOf(rows[i].ageGroup)
      ensures rows == old(rows) && index == old(index) && courseNumber == old(courseNumber)
    {
      var rs := rows;
      minAge := seq(|rs|, i requires 0 <= i < |rs| => MinAgeOf(rs[i].ageGroup));
      maxAge := seq(|rs|, i requires 0 <= i < |rs| => MaxAgeOf(rs[i].ageGroup));
    }

    /** `df['Course_Number'] = df.index + 1`. */
    method NumberCourses()
      requires Valid()
      modifies this
      ensures Valid()
      ensures |courseNumber| == |index| && forall i :: 0 <= i < |index| ==> courseNumber[i] == index[i] + 1
      ensures rows == old(rows) && index == old(index) && minAge == old(minAge) && maxAge == old(maxAge)
    {
      var labels := index;
      courseNumber := seq(|labels|, i requires 0 <= i < |labels| => labels[i] + 1);
    }

    /** Lines 152-153: both fee columns with every missing fee set to 0. */
    method FillMissingFees()
      requires Valid()
      modifies this
      ensures Valid()
      ensures |rows| == |old(rows)| && forall i :: 0 <= i < |rows| ==> rows[i] == FillFeesRow(old(rows)[i])
      ensures index == old(index) && minAge == old(minAge) && maxAge == old(maxAge)
      ensures courseNumber == old(courseNumber)
    {
      var rs := rows;
      rows := seq(|rs|, i requires 0 <= i < |rs| => FillFeesRow(rs[i]));
    }
  }

  /** A row of the loaded sheet as it stands after every cleaning step, given
      its transformed age group. */
  function CleanedRow(row: Course, ageGroup: Cell): Course {
    FillFeesRow(ReplaceNAInRow(CoerceRow(row.(ageGroup := ageGroup))))
  }

  /** The cleaning steps of the script in order, from the loaded sheet to the
      table the insights read. */
  method Clean(df: seq<Course>) returns (r: Result<CourseTable>)
    ensures |df| < 14 ==> r == Failure(KeyError)
    ensures r.Success? ==> fresh(r.value)
    ensures r.Success? ==> |df| >= 14 && r.value.Valid() && |r.value.rows| == |df| - 3
    ensures r.Success? ==> r.value.index == Positions(|df| - 3, 1)
    ensures r.Success? ==> r.value.courseNumber == Positions(|df| - 3, 2)
    ensures r.Success? ==> forall k :: 0 <= k < |df| - 3 ==>
      var row := df[KeptPosition(k)];
      TransformAgeGroup(row.ageGroup).Success? &&
      r.value.rows[k] == CleanedRow(row, TransformAgeGroup(row.ageGroup).value)
    ensures r.Success? ==> |r.value.minAge| == |r.value.maxAge| == |df| - 3
    ensures r.Success? ==> forall k :: 0 <= k < |df| - 3 ==>
      r.value.minAge[k] == MinAgeOf(r.value.rows[k].ageGroup) &&
      r.value.maxAge[k] == MaxAgeOf(r.value.rows[k].ageGroup)
    ensures r.Failure? && |df| >= 14 ==>
      (exists k :: 0 <= k < |df| - 3 && TransformAgeGroup(df[KeptPosition(k)].ageGroup) == Failure(r.error) &&
                   forall j :: 0 <= j < k ==> TransformAgeGroup(df[KeptPosition(j)].ageGroup).Success?)
  {
    match DropOutliers(df)
    case Failure(e) =>
      r := Failure(e);
    case Success(kept) =>
      var t := new CourseTable(kept, DroppedLabels(|kept|));
      t.ResetIndex();
      t.ShiftIndex(1);
      var err := t.TransformAgeGroups();
      if err.Some? {
        r := Failure(err.value);
        return;
      }
      t.CoerceNumeric();
      t.ReplaceMissingMarkers();
      t.ExtractAges();
      t.NumberCourses();
      t.FillMissingFees();
      r := Success(t);
  }

  // ---------------------------------------------------------------------------
  // Fees: fillna(0), then only the strictly positive ones (lines 176-177)
  // ---------------------------------------------------------------------------

  function FillZeroColumn(col: seq<Cell>): (r: seq<Cell>)
    ensures |r| == |col|
    ensures forall i :: 0 <= i < |r| ==> r[i].Number?
    ensures forall i :: 0 <= i < |r| ==> col[i].Number? ==> r[i] == col[i]
    ensures forall i :: 0 <= i < |r| ==> !col[i].Number? ==> r[i] == Number(0)
  {
    seq(|col|, i requires 0 <= i < |col| => FillZero(col[i]))
  }

  /** `fees[fees > 0]`: the fees that are numbers above zero, in column order. */
  function PositiveFees(col: seq<Cell>): (r: seq<int>)
    ensures |r| <= |col|
    ensures forall i :: 0 <= i < |r| ==> r[i] > 0
    decreases |col|
  {
    if col == [] then []
    else (if col[0].Number? && col[0].n > 0 then [col[0].n] else []) + PositiveFees(col[1..])
  }

  /** The selection keeps the column order: it distributes over concatenation. */
  lemma {:induction false} PositiveFeesAppend(a: seq<Cell>, b: seq<Cell>)
    ensures PositiveFees(a + b) == PositiveFees(a) + PositiveFees(b)
    decreases |a|
  {
    if a == [] {
      assert a + b == b;
    } else {
      assert (a + b)[0] == a[0] && (a + b)[1..] == a[1..] + b;
      PositiveFeesAppend(a[1..], b);
    }
  }

  /** Every positive fee is kept as often as it occurs, and nothing else is. */
  lemma {:induction false} PositiveFeesCount(col: seq<Cell>, v: int)
    ensures v > 0 ==> multiset(PositiveFees(col))[v] == multiset(col)[Number(v)]
    ensures v <= 0 ==> multiset(PositiveFees(col))[v] == 0
    decreases |col|
  {
    if col != [] {
      assert col == [col[0]] + col[1..];
      PositiveFeesCount(col[1..], v);
    }
  }

  /** Filling missing fees with 0 adds nothing to the positive fees. */
  lemma {:induction false} FillZeroKeepsPositiveFees(col: seq<Cell>)
    ensures PositiveFees(FillZeroColumn(col)) == PositiveFees(col)
    decreases |col|
  {
    if col != [] {
      assert FillZeroColumn(col)[1..] == FillZeroColumn(col[1..]);
      FillZeroKeepsPositiveFees(col[1..]);
    }
  }

  function RegistrationFees(rows: seq<Course>): (r: seq<Cell>)
    ensures |r| == |rows| && forall i :: 0 <= i < |rows| ==> r[i] == rows[i].registrationFee
  {
    seq(|rows|, i requires 0 <= i < |rows| => rows[i].registrationFee)
  }

  function CourseFees(rows: seq<Course>): (r: seq<Cell>)
    ensures |r| == |rows| && forall i :: 0 <= i < |rows| ==> r[i] == rows[i].courseFee
  {
    seq(|rows|, i requires 0 <= i < |rows| => rows[i].courseFee)
  }

  /** The row-wise zero-fill of `FillMissingFees` is the column-wise one of
      each fee column, so it leaves both positive-fee selections as they were. */
  lemma FilledFeeColumns(before: seq<Course>, after: seq<Course>)
    requires |after| == |before| && forall i :: 0 <= i < |before| ==> after[i] == FillFeesRow(before[i])
    ensures RegistrationFees(after) == FillZeroColumn(RegistrationFees(before))
    ensures CourseFees(after) == FillZeroColumn(CourseFees(before))
    ensures PositiveFees(RegistrationFees(after)) == PositiveFees(RegistrationFees(before))
    ensures PositiveFees(CourseFees(after)) == PositiveFees(CourseFees(before))
  {
    FillZeroKeepsPositiveFees(RegistrationFees(before));
    FillZeroKeepsPositiveFees(CourseFees(before));
  }
}
