/** The script from the loaded sheet to its insights: the cleaning steps,
    then the feature table (lines 98-123), the positive fees (lines 176-177)
    and the delivery and payment counts (lines 245 and 284), all read from
    the cleaned table. */
module Report {
  import opened Wrappers
  import opened AgeGroups
  import opened Tally
  import opened Cleaning
  import opened Features

  /** What the insights are computed from and what they compute. */
  datatype Insights = Insights(
    courses: seq<Course>,
    features: seq<Entry<string>>,
    topFeatures: seq<Entry<string>>,
    uniqueFeatures: seq<Entry<string>>,
    registrationFees: seq<int>,
    courseFees: seq<int>,
    delivery: seq<Entry<Cell>>,
    payment: seq<Entry<Cell>>)

  /** The feature table of the courses, its first rows and its rows of count 1. */
  ghost predicate FeaturesReadFrom(ins: Insights) {
    var counts := ins.features;
    IsValueCounts(FeaturePieces(FeatureColumn(ins.courses)), counts) &&
    |ins.topFeatures| == (if TopCount < |counts| then TopCount else |counts|) &&
    ins.topFeatures == counts[..|ins.topFeatures|] &&
    |ins.uniqueFeatures| <= |counts| && ins.uniqueFeatures == counts[|counts| - |ins.uniqueFeatures|..] &&
    (forall i :: 0 <= i < |ins.uniqueFeatures| ==> ins.uniqueFeatures[i].count == 1) &&
    (forall x :: (x in FeaturePieces(FeatureColumn(ins.courses)) &&
                  multiset(FeaturePieces(FeatureColumn(ins.courses)))[x] == 1) ==> Entry(x, 1) in ins.uniqueFeatures)
  }

  /** The insights agree with the courses they were read from. */
  ghost predicate ReadFrom(ins: Insights) {
    FeaturesReadFrom(ins) &&
    ins.registrationFees == PositiveFees(RegistrationFees(ins.courses)) &&
    ins.courseFees == PositiveFees(CourseFees(ins.courses)) &&
    IsValueCounts(Present(DeliveryColumn(ins.courses)), ins.delivery) &&
    IsValueCounts(Present(PaymentColumn(ins.courses)), ins.payment)
  }

  /** The insight sections of the script, over the cleaned courses. */
  method ComputeInsights(rows: seq<Course>) returns (ins: Insights)
    ensures ins.courses == rows && ReadFrom(ins)
  {
    var counts, top, unique := FeatureInsight(FeatureColumn(rows));
    var reg, fee := PositiveFees(RegistrationFees(rows)), PositiveFees(CourseFees(rows));
    var delivery := DeliveryCounts(rows);
    var payment := PaymentCounts(rows);
    ins := Insights(rows, counts, top, unique, reg, fee, delivery, payment);
    assert FeaturesReadFrom(ins);
  }

  /** The whole script: clean the loaded sheet, then read the insights from
      the cleaned table. */
  method Analyse(df: seq<Course>) returns (r: Result<Insights>)
    ensures |df| < 14 ==> r == Failure(KeyError)
    ensures r.Failure? && |df| >= 14 ==>
      (exists k :: 0 <= k < |df| - 3 && TransformAgeGroup(df[KeptPosition(k)].ageGroup) == Failure(r.error) &&
                   forall j :: 0 <= j < k ==> TransformAgeGroup(df[KeptPosition(j)].ageGroup).Success?)
    ensures r.Success? ==> |df| >= 14 && |r.value.courses| == |df| - 3
    ensures r.Success? ==> forall k :: 0 <= k < |df| - 3 ==>
      var row := df[KeptPosition(k)];
      TransformAgeGroup(row.ageGroup).Success? &&
      r.value.courses[k] == CleanedRow(row, TransformAgeGroup(row.ageGroup).value)
    ensures r.Success? ==> ReadFrom(r.value)
  {
    var cleaned := Clean(df);
    match cleaned
    case Failure(e) =>
      r := Failure(e);
    case Success(t) =>
      var ins := ComputeInsights(t.rows);
      r := Success(ins);
  }
}
