/**
 * Outlier detection and the trim/cap policy of the outlier helpers.
 *
 * The statistics pandas computes for a column (mean, standard deviation,
 * skewness, quantiles) are not modelled: an `Estimator` supplies them, and
 * `None` stands for a NaN statistic. What is modelled is the threshold
 * arithmetic, the tail counting, the bucketing of features into trim / cap /
 * leave, and the four-stage pipeline that refits its boundaries on the table
 * each stage receives.
 */
module OutlierHandling {
  import opened Frames

  datatype Dist = Normal | Skewed

  /** Column statistics as pandas computes them; `None` is NaN. */
  datatype Estimator = Estimator(
    mean: seq<Option<real>> -> Option<real>,
    std: seq<Option<real>> -> Option<real>,
    skew: seq<Option<real>> -> Option<real>,
    quantile: (seq<Option<real>>, real) -> Option<real>)

  /** What every real estimator satisfies: std >= 0 and q25 <= q75. */
  ghost predicate Sound(est: Estimator) {
    && (forall xs :: est.std(xs).Some? ==> est.std(xs).value >= 0.0)
    && (forall xs :: est.quantile(xs, 0.25).Some? && est.quantile(xs, 0.75).Some? ==>
          est.quantile(xs, 0.25).value <= est.quantile(xs, 0.75).value)
  }

  datatype Bounds = Bounds(upper: real, lower: real)

  // ----- boundary rules -----

  /** mean ± fold·std; a NaN statistic makes both boundaries NaN. */
  function GaussianBounds(mean: Option<real>, std: Option<real>, fold: real): Option<Bounds> {
    if mean.Some? && std.Some? then
      Some(Bounds(mean.value + fold * std.value, mean.value - fold * std.value))
    else None
  }

  /** q75 + fold·IQR and q25 - fold·IQR; a NaN quantile makes both boundaries NaN. */
  function IqrBounds(q25: Option<real>, q75: Option<real>, fold: real): Option<Bounds> {
    if q25.Some? && q75.Some? then
      var iqr := q75.value - q25.value;
      Some(Bounds(q75.value + iqr * fold, q25.value - iqr * fold))
    else None
  }

  /** The Gaussian rule with three standard deviations. */
  function NormalBoundaries(xs: seq<Option<real>>, est: Estimator): Option<Bounds> {
    GaussianBounds(est.mean(xs), est.std(xs), 3.0)
  }

  /** The IQR rule with the given fold. */
  function SkewedBoundaries(xs: seq<Option<real>>, fold: real, est: Estimator): Option<Bounds> {
    IqrBounds(est.quantile(xs, 0.25), est.quantile(xs, 0.75), fold)
  }

  /**
   * pandas' `mean()`, `std()` and `quantile()` on an object column: with no
   * present cell they reduce nothing and give NaN; with a present string they
   * raise TypeError.
   */
  function ObjectStatistic(ss: seq<Option<string>>): (r: Result<Option<Bounds>, Error>)
    ensures r.Success? <==> forall i :: 0 <= i < |ss| ==> ss[i].None?
    ensures r.Success? ==> r.value.None?
    ensures r.Failure? ==> r.error == TypeError
  {
    if forall i :: 0 <= i < |ss| ==> ss[i].None? then Success(None) else Failure(TypeError)
  }

  /**
   * `find_normal_boundaries(data, variable)`: KeyError for an absent column;
   * on an object column, NaN boundaries when no cell is present and TypeError
   * otherwise; on a numeric column, mean ± 3·std.
   */
  function FindNormalBoundaries(t: Table, variable: string, est: Estimator): (r: Result<Option<Bounds>, Error>)
    ensures variable !in t.Names() ==> r == Failure(KeyError(variable))
    ensures Lookup(t, variable).Some? && Lookup(t, variable).value.Categorical? ==>
      r == ObjectStatistic(Lookup(t, variable).value.strs)
    ensures NumericColumn(t, variable).Some? ==> r.Success?
    ensures r.Success? && NumericColumn(t, variable).Some? ==>
      var xs := NumericColumn(t, variable).value;
      var mean, std := est.mean(xs), est.std(xs);
      && (r.value.Some? <==> mean.Some? && std.Some?)
      && (r.value.Some? ==>
            r.value.value.upper - mean.value == mean.value - r.value.value.lower == 3.0 * std.value)
      && (r.value.Some? && Sound(est) ==> r.value.value.lower <= mean.value <= r.value.value.upper)
  {
    match Lookup(t, variable)
    case None => Failure(KeyError(variable))
    case Some(Categorical(ss)) => ObjectStatistic(ss)
    case Some(Numeric(xs)) => Success(NormalBoundaries(xs, est))
  }

  /**
   * `find_skewed_boundaries(data, variable, fold)`: the same errors and NaN
   * case as the Gaussian rule; on a numeric column, the IQR rule.
   */
  function FindSkewedBoundaries(t: Table, variable: string, fold: real, est: Estimator): (r: Result<Option<Bounds>, Error>)
    ensures variable !in t.Names() ==> r == Failure(KeyError(variable))
    ensures Lookup(t, variable).Some? && Lookup(t, variable).value.Categorical? ==>
      r == ObjectStatistic(Lookup(t, variable).value.strs)
    ensures NumericColumn(t, variable).Some? ==> r.Success?
    ensures r.Success? && NumericColumn(t, variable).Some? ==>
      var xs := NumericColumn(t, variable).value;
      var q25, q75 := est.quantile(xs, 0.25), est.quantile(xs, 0.75);
      && (r.value.Some? <==> q25.Some? && q75.Some?)
      && (r.value.Some? ==>
            && r.value.value.upper - q75.value == (q75.value - q25.value) * fold
            && q25.value - r.value.value.lower == (q75.value - q25.value) * fold)
      && (r.value.Some? && Sound(est) && fold >= 0.0 ==>
            r.value.value.lower <= q25.value <= q75.value <= r.value.value.upper)
  {
    match Lookup(t, variable)
    case None => Failure(KeyError(variable))
    case Some(Categorical(ss)) => ObjectStatistic(ss)
    case Some(Numeric(xs)) =>
      var r := SkewedBoundaries(xs, fold, est);
      assert r.Some? && Sound(est) && fold >= 0.0 ==> r.value.lower <= r.value.upper by {
        if r.Some? && Sound(est) && fold >= 0.0 {
          IqrOrdered(est.quantile(xs, 0.25).value, est.quantile(xs, 0.75).value, fold);
        }
      }
      Success(r)
  }

  lemma IqrOrdered(q25: real, q75: real, fold: real)
    requires q25 <= q75 && fold >= 0.0
    ensures (q75 - q25) * fold >= 0.0
  {
  }

  // ----- distribution check -----

  /** Normal exactly when the skewness lies strictly inside (-0.5, 0.5); NaN is skewed. */
  function Classify(skew: Option<real>): (d: Dist)
    ensures d == Normal <==> skew.Some? && -0.5 < skew.value < 0.5
  {
    if skew.Some? && -0.5 < skew.value < 0.5 then Normal else Skewed
  }

  lemma ClassifyEdges()
    ensures Classify(Some(0.5)) == Skewed && Classify(Some(-0.5)) == Skewed
    ensures Classify(None) == Skewed && Classify(Some(0.0)) == Normal
  {
  }

  datatype Feature = Feature(name: string, values: seq<Option<real>>)

  /** The numeric columns, in column order (`data.skew()` skips the others). */
  function FeaturesOf(cols: seq<Column>): (fs: seq<Feature>)
    ensures |fs| <= |cols|
    ensures forall i :: 0 <= i < |fs| ==> Column(fs[i].name, Numeric(fs[i].values)) in cols
  {
    if cols == [] then []
    else
      (if cols[0].cells.Numeric? then [Feature(cols[0].name, cols[0].cells.nums)] else [])
      + FeaturesOf(cols[1..])
  }

  /** One column gives its own feature when it is numeric and nothing otherwise. */
  lemma FeaturesOfOne(c: Column)
    ensures FeaturesOf([c]) == if c.cells.Numeric? then [Feature(c.name, c.cells.nums)] else []
  {
    assert [c][1..] == [];
  }

  /** The features of two runs of columns are those of the first run followed by those of the second. */
  lemma {:induction false} FeaturesOfConcat(a: seq<Column>, b: seq<Column>)
    ensures FeaturesOf(a + b) == FeaturesOf(a) + FeaturesOf(b)
  {
    if a == [] {
      assert a + b == b;
    } else {
      var ab := a + b;
      assert ab != [] && ab[0] == a[0] && ab[1..] == a[1..] + b;
      var head := if a[0].cells.Numeric? then [Feature(a[0].name, a[0].cells.nums)] else [];
      var fa, fr, fb := FeaturesOf(a), FeaturesOf(a[1..]), FeaturesOf(b);
      assert fa == head + fr;
      FeaturesOfConcat(a[1..], b);
      assert FeaturesOf(ab) == head + (fr + fb);
      assert head + (fr + fb) == (head + fr) + fb;
    }
  }

  function NumericFeatures(t: Table): seq<Feature> {
    FeaturesOf(t.columns)
  }

  /** Every numeric column is among the features, so `data.skew()` misses none. */
  lemma {:induction false} FeaturesOfComplete(cols: seq<Column>, j: nat)
    requires j < |cols| && cols[j].cells.Numeric?
    ensures Feature(cols[j].name, cols[j].cells.nums) in FeaturesOf(cols)
  {
    if j > 0 {
      FeaturesOfComplete(cols[1..], j - 1);
    }
  }

  function FeatureNames(fs: seq<Feature>): (ns: seq<string>)
    ensures |ns| == |fs| && forall i :: 0 <= i < |fs| ==> ns[i] == fs[i].name
  {
    seq(|fs|, i requires 0 <= i < |fs| => fs[i].name)
  }

  lemma {:induction false} FeaturesOfDistinct(cols: seq<Column>)
    requires forall i, j :: 0 <= i < j < |cols| ==> cols[i].name != cols[j].name
    ensures Distinct(FeatureNames(FeaturesOf(cols)))
  {
    if cols != [] {
      FeaturesOfDistinct(cols[1..]);
      var rest := FeaturesOf(cols[1..]);
      forall i | 0 <= i < |rest| ensures rest[i].name != cols[0].name {
        assert Column(rest[i].name, Numeric(rest[i].values)) in cols[1..];
      }
    }
  }

  lemma NumericFeaturesDistinct(t: Table)
    requires t.Valid()
    ensures Distinct(FeatureNames(NumericFeatures(t)))
  {
    assert forall i :: 0 <= i < |t.columns| ==> t.Names()[i] == t.columns[i].name;
    FeaturesOfDistinct(t.columns);
  }

  /** Each numeric feature is what `data[feature]` returns. */
  lemma FeatureLookup(t: Table, i: nat)
    requires t.Valid() && i < |NumericFeatures(t)|
    ensures NumericColumn(t, NumericFeatures(t)[i].name) == Some(NumericFeatures(t)[i].values)
  {
    var f := NumericFeatures(t)[i];
    var j :| 0 <= j < |t.columns| && t.columns[j] == Column(f.name, Numeric(f.values));
    LookupAt(t, j);
  }

  datatype Skewness = Skewness(feat: string, skew: Option<real>, dist: Dist)

  /** `check_dist(data)`: one record per numeric feature, in column order. */
  function CheckDist(t: Table, est: Estimator): (r: seq<Skewness>)
    ensures |r| == |NumericFeatures(t)|
    ensures forall i :: 0 <= i < |r| ==>
      && r[i].feat == NumericFeatures(t)[i].name
      && r[i].skew == est.skew(NumericFeatures(t)[i].values)
      && (r[i].dist == Normal <==> r[i].skew.Some? && -0.5 < r[i].skew.value < 0.5)
  {
    var fs := NumericFeatures(t);
    seq(|fs|, i requires 0 <= i < |fs| =>
      Skewness(fs[i].name, est.skew(fs[i].values), Classify(est.skew(fs[i].values))))
  }

  // ----- outlier accounting -----

  datatype OutlierRecord = OutlierRecord(
    feat: string,
    bounds: Option<Bounds>,
    rightTail: nat,
    leftTail: nat,
    rightTailPct: real,
    leftTailPct: real,
    outliers: nat,
    outlierPct: real)

  /** Gaussian boundaries for a normal feature, IQR boundaries with the caller's fold otherwise. */
  function BoundsFor(f: Feature, dist: Dist, fold: real, est: Estimator): Option<Bounds> {
    match dist
    case Normal => NormalBoundaries(f.values, est)
    case Skewed => SkewedBoundaries(f.values, fold, est)
  }

  /** Cells strictly above the upper boundary; a NaN boundary matches nothing. */
  function RightTail(xs: seq<Option<real>>, b: Option<Bounds>): nat {
    match b
    case None => 0
    case Some(bb) => CountAbove(xs, bb.upper)
  }

  /** Cells strictly below the lower boundary; a NaN boundary matches nothing. */
  function LeftTail(xs: seq<Option<real>>, b: Option<Bounds>): nat {
    match b
    case None => 0
    case Some(bb) => CountBelow(xs, bb.lower)
  }

  /** One iteration of the loop in `check_outlier`. */
  function OutlierInfo(f: Feature, dist: Dist, fold: real, est: Estimator, rows: nat): (r: OutlierRecord)
    requires rows > 0
    ensures r.feat == f.name && r.outliers == r.rightTail + r.leftTail
    ensures r.bounds.None? ==> r.outliers == 0 && r.outlierPct == 0.0
    ensures r.rightTail <= |f.values| && r.leftTail <= |f.values|
  {
    var b := BoundsFor(f, dist, fold, est);
    var right, left := RightTail(f.values, b), LeftTail(f.values, b);
    var rightPct, leftPct := Percent(right, rows), Percent(left, rows);
    OutlierRecord(f.name, b, right, left, rightPct, leftPct, right + left, rightPct + leftPct)
  }

  lemma BoundsForOrdered(f: Feature, dist: Dist, fold: real, est: Estimator)
    requires Sound(est) && fold >= 0.0 && BoundsFor(f, dist, fold, est).Some?
    ensures BoundsFor(f, dist, fold, est).value.lower <= BoundsFor(f, dist, fold, est).value.upper
  {
    if dist == Skewed {
      var q25, q75 := est.quantile(f.values, 0.25).value, est.quantile(f.values, 0.75).value;
      IqrOrdered(q25, q75, fold);
    } else {
      assert est.std(f.values).value >= 0.0;
    }
  }

  /**
   * What a record of `check_outlier` states: the tails count the cells strictly
   * beyond each boundary (a cell on a boundary is not an outlier), the totals
   * are the sums of the tails, each percentage is count / rows · 100, and with
   * a sound estimator the outliers never exceed the rows.
   */
  lemma OutlierInfoMeaning(f: Feature, dist: Dist, fold: real, est: Estimator, rows: nat)
    requires rows > 0
    ensures var r := OutlierInfo(f, dist, fold, est, rows);
      && r.feat == f.name
      && r.bounds == (if dist == Normal then NormalBoundaries(f.values, est) else SkewedBoundaries(f.values, fold, est))
      && (r.bounds.Some? ==>
            && r.rightTail == |set i | 0 <= i < |f.values| && f.values[i].Some? && f.values[i].value > r.bounds.value.upper|
            && r.leftTail == |set i | 0 <= i < |f.values| && f.values[i].Some? && f.values[i].value < r.bounds.value.lower|)
      && (r.bounds.None? ==> r.outliers == 0)
      && r.outliers == r.rightTail + r.leftTail
      && r.outlierPct == r.rightTailPct + r.leftTailPct
      && r.rightTailPct == Percent(r.rightTail, rows) && r.leftTailPct == Percent(r.leftTail, rows)
      && r.outlierPct == Percent(r.outliers, rows)
      && (Sound(est) && fold >= 0.0 && |f.values| == rows ==> r.outliers <= rows && r.outlierPct <= 100.0)
  {
    var r := OutlierInfo(f, dist, fold, est, rows);
    PercentAdds(r.rightTail, r.leftTail, rows);
    match r.bounds
    case None =>
    case Some(b) =>
      CountAboveIsCardinality(f.values, b.upper);
      CountBelowIsCardinality(f.values, b.lower);
      if Sound(est) && fold >= 0.0 && |f.values| == rows {
        BoundsForOrdered(f, dist, fold, est);
        TailsDisjoint(f.values, b.upper, b.lower);
      }
  }

  predicate ValidFold(fold: real) {
    fold == 1.5 || fold == 3.0
  }

  /**
   * The table `check_outlier` builds: a ValueError for a fold other than 1.5 or 3,
   * a ZeroDivisionError when there are numeric features but no rows, and
   * otherwise one record per numeric feature in column order.
   */
  function OutlierTable(t: Table, fold: real, est: Estimator): (r: Result<seq<OutlierRecord>, Error>)
    ensures r.Failure? <==> !ValidFold(fold) || (t.Rows() == 0 && |NumericFeatures(t)| > 0)
    ensures !ValidFold(fold) ==> r == Failure(ValueError)
    ensures ValidFold(fold) && r.Failure? ==> r.error == ZeroDivisionError
    ensures r.Success? ==> |r.value| == |NumericFeatures(t)|
    ensures r.Success? ==> forall i :: 0 <= i < |r.value| ==>
      var f, d := NumericFeatures(t)[i], CheckDist(t, est)[i];
      && r.value[i].feat == f.name
      && r.value[i].bounds == (if d.dist == Normal then NormalBoundaries(f.values, est) else SkewedBoundaries(f.values, fold, est))
      && r.value[i] == OutlierInfo(f, d.dist, fold, est, t.Rows())
  {
    var fs, ds := NumericFeatures(t), CheckDist(t, est);
    if !ValidFold(fold) then Failure(ValueError)
    else if |fs| == 0 then Success([])
    else if t.Rows() == 0 then Failure(ZeroDivisionError)
    else Success(seq(|fs|, i requires 0 <= i < |fs| => OutlierInfo(fs[i], ds[i].dist, fold, est, t.Rows())))
  }

  /** `check_outlier(data, fold)`: validates the fold, then appends one record per feature. */
  method CheckOutlier(t: Table, fold: real, est: Estimator) returns (r: Result<seq<OutlierRecord>, Error>)
    ensures r == OutlierTable(t, fold, est)
  {
    if !ValidFold(fold) {
      return Failure(ValueError);
    }
    var dists := CheckDist(t, est);
    var feats := NumericFeatures(t);
    var records: seq<OutlierRecord> := [];
    var i := 0;
    assert |dists| == |feats|;
    while i < |dists|
      invariant 0 <= i <= |dists|
      invariant i > 0 ==> t.Rows() > 0
      invariant |records| == i
      invariant forall k :: 0 <= k < i ==> records[k] == OutlierInfo(feats[k], dists[k].dist, fold, est, t.Rows())
    {
      if t.Rows() == 0 {
        return Failure(ZeroDivisionError);
      }
      records := records + [OutlierInfo(feats[i], dists[i].dist, fold, est, t.Rows())];
      i := i + 1;
    }
    if |feats| == 0 {
      assert records == [];
    } else {
      assert t.Rows() > 0;
      assert records == seq(|feats|, k requires 0 <= k < |feats| => OutlierInfo(feats[k], dists[k].dist, fold, est, t.Rows()));
    }
    return Success(records);
  }

  datatype SummaryRecord = SummaryRecord(feat: string, skew: Option<real>, dist: Dist, outliers: nat, outlierPct: real)

  function Feats(s: seq<SummaryRecord>): (ns: seq<string>)
    ensures |ns| == |s| && forall i :: 0 <= i < |s| ==> ns[i] == s[i].feat
  {
    seq(|s|, i requires 0 <= i < |s| => s[i].feat)
  }

  /** Joining on distinct feature names pairs each summary row with the outlier record at its own position. */
  lemma JoinOnDistinct(s: seq<SummaryRecord>, os: seq<OutlierRecord>, names: seq<string>)
    requires Feats(s) == names && Distinct(names)
    requires |os| == |names| && forall j :: 0 <= j < |os| ==> os[j].feat == names[j]
    ensures forall i, j :: 0 <= i < |s| && 0 <= j < |os| && os[j].feat == s[i].feat ==> i == j
  {
    forall i, j | 0 <= i < |s| && 0 <= j < |os| && os[j].feat == s[i].feat ensures i == j {
      assert names[i] == names[j];
    }
  }

  /**
   * `outlier_summary(data, fold)`: the distribution check joined on the feature
   * name with the outlier totals; it fails exactly when `check_outlier` does.
   */
  function OutlierSummary(t: Table, fold: real, est: Estimator): (r: Result<seq<SummaryRecord>, Error>)
    requires t.Valid()
    ensures r.Failure? <==> OutlierTable(t, fold, est).Failure?
    ensures r.Failure? ==> r.error == OutlierTable(t, fold, est).error
    ensures r.Success? ==>
      var ds, os := CheckDist(t, est), OutlierTable(t, fold, est).value;
      && |r.value| == |ds|
      && Distinct(Feats(r.value))
      && (forall i :: 0 <= i < |ds| ==>
            r.value[i].feat == ds[i].feat && r.value[i].skew == ds[i].skew && r.value[i].dist == ds[i].dist)
      && (forall i, j :: 0 <= i < |r.value| && 0 <= j < |os| && os[j].feat == r.value[i].feat ==>
            r.value[i].outliers == os[j].outliers && r.value[i].outlierPct == os[j].outlierPct)
  {
    match OutlierTable(t, fold, est)
    case Failure(e) => Failure(e)
    case Success(os) =>
      var ds := CheckDist(t, est);
      var s := seq(|ds|, i requires 0 <= i < |ds| =>
        SummaryRecord(ds[i].feat, ds[i].skew, ds[i].dist, os[i].outliers, os[i].outlierPct));
      assert Distinct(Feats(s)) &&
        forall i, j :: 0 <= i < |s| && 0 <= j < |os| && os[j].feat == s[i].feat ==> i == j by {
        var names := FeatureNames(NumericFeatures(t));
        NumericFeaturesDistinct(t);
        assert Feats(s) == names;
        JoinOnDistinct(s, os, names);
      }
      Success(s)
  }

  // ----- the bucketing policy -----

  /** The trim band is below 5 %, the cap band is [5 %, 15 %). */
  predicate InBand(pct: real, capBand: bool) {
    if capBand then 5.0 <= pct < 15.0 else pct < 5.0
  }

  /** The features of the given shape whose outlier percentage lies in the band, in order. */
  function Select(s: seq<SummaryRecord>, dist: Dist, capBand: bool): (names: seq<string>)
    ensures forall n :: n in names ==>
      exists i :: 0 <= i < |s| && s[i].feat == n && s[i].dist == dist && InBand(s[i].outlierPct, capBand)
    ensures forall i :: 0 <= i < |s| && s[i].dist == dist && InBand(s[i].outlierPct, capBand) ==> s[i].feat in names
  {
    if s == [] then []
    else
      var rest := Select(s[1..], dist, capBand);
      assert forall n :: n in rest ==> exists i :: 1 <= i < |s| && s[i].feat == n && s[i].dist == dist && InBand(s[i].outlierPct, capBand) by {
        forall n | n in rest ensures exists i :: 1 <= i < |s| && s[i].feat == n && s[i].dist == dist && InBand(s[i].outlierPct, capBand) {
          var i :| 0 <= i < |s[1..]| && s[1..][i].feat == n && s[1..][i].dist == dist && InBand(s[1..][i].outlierPct, capBand);
          assert s[i + 1] == s[1..][i];
        }
      }
      assert forall i :: 1 <= i < |s| ==> s[i] == s[1..][i - 1];
      (if s[0].dist == dist && InBand(s[0].outlierPct, capBand) then [s[0].feat] else []) + rest
  }

  /** `[x for x in names if x not in exception_list]`. */
  function Exclude(names: seq<string>, exceptions: seq<string>): (r: seq<string>)
    ensures forall n :: n in r <==> n in names && n !in exceptions
  {
    if names == [] then []
    else (if names[0] in exceptions then [] else [names[0]]) + Exclude(names[1..], exceptions)
  }

  datatype Plan = Plan(normTrim: seq<string>, normCap: seq<string>, skewTrim: seq<string>, skewCap: seq<string>)

  /** The four column lists of `trim_cap_outliers`, exceptions removed. */
  function MakePlan(s: seq<SummaryRecord>, exceptions: seq<string>): (p: Plan)
    ensures forall n :: n in p.normTrim || n in p.normCap || n in p.skewTrim || n in p.skewCap ==>
      n !in exceptions && exists i :: 0 <= i < |s| && s[i].feat == n
  {
    Plan(
      Exclude(Select(s, Normal, false), exceptions),
      Exclude(Select(s, Normal, true), exceptions),
      Exclude(Select(s, Skewed, false), exceptions),
      Exclude(Select(s, Skewed, true), exceptions))
  }

  datatype Action = Trim | Cap | Leave

  /** The decision table, one feature at a time. */
  function Decide(pct: real, excepted: bool): Action {
    if excepted || pct >= 15.0 then Leave
    else if pct < 5.0 then Trim
    else Cap
  }

  /** No feature is in two buckets. */
  ghost predicate Disjoint(p: Plan) {
    forall n ::
      && (n in p.normTrim ==> n !in p.normCap && n !in p.skewTrim && n !in p.skewCap)
      && (n in p.normCap ==> n !in p.skewTrim && n !in p.skewCap)
      && (n in p.skewTrim ==> n !in p.skewCap)
  }

  /**
   * The four lists agree with the decision table: a feature is in the bucket
   * of its shape and of the action Decide picks for it, and in no other; an
   * excepted feature or one at 15 % or more is in none.
   */
  lemma PlanFollowsDecide(s: seq<SummaryRecord>, exceptions: seq<string>, i: nat)
    requires Distinct(Feats(s)) && i < |s|
    ensures var p, a, n := MakePlan(s, exceptions), Decide(s[i].outlierPct, s[i].feat in exceptions), s[i].feat;
      && (n in p.normTrim <==> s[i].dist == Normal && a == Trim)
      && (n in p.normCap <==> s[i].dist == Normal && a == Cap)
      && (n in p.skewTrim <==> s[i].dist == Skewed && a == Trim)
      && (n in p.skewCap <==> s[i].dist == Skewed && a == Cap)
      && (n in exceptions || s[i].outlierPct >= 15.0 ==>
            n !in p.normTrim && n !in p.normCap && n !in p.skewTrim && n !in p.skewCap)
  {
    var n := s[i].feat;
    forall dist: Dist, capBand: bool | n in Select(s, dist, capBand)
      ensures s[i].dist == dist && InBand(s[i].outlierPct, capBand)
    {
      var j :| 0 <= j < |s| && s[j].feat == n && s[j].dist == dist && InBand(s[j].outlierPct, capBand);
      assert Feats(s)[j] == Feats(s)[i];
    }
  }

  lemma PlanDisjoint(s: seq<SummaryRecord>, exceptions: seq<string>)
    requires Distinct(Feats(s))
    ensures Disjoint(MakePlan(s, exceptions))
  {
    var p := MakePlan(s, exceptions);
    forall n | n in p.normTrim || n in p.normCap || n in p.skewTrim || n in p.skewCap
      ensures
        && (n in p.normTrim ==> n !in p.normCap && n !in p.skewTrim && n !in p.skewCap)
        && (n in p.normCap ==> n !in p.skewTrim && n !in p.skewCap)
        && (n in p.skewTrim ==> n !in p.skewCap)
    {
      var i: nat;
      if n in p.normTrim {
        i :| 0 <= i < |s| && s[i].feat == n && s[i].dist == Normal && InBand(s[i].outlierPct, false);
      } else if n in p.normCap {
        i :| 0 <= i < |s| && s[i].feat == n && s[i].dist == Normal && InBand(s[i].outlierPct, true);
      } else if n in p.skewTrim {
        i :| 0 <= i < |s| && s[i].feat == n && s[i].dist == Skewed && InBand(s[i].outlierPct, false);
      } else {
        i :| 0 <= i < |s| && s[i].feat == n && s[i].dist == Skewed && InBand(s[i].outlierPct, true);
      }
      PlanFollowsDecide(s, exceptions, i);
    }
  }

  // ----- trimming and capping (feature_engine's OutlierTrimmer and Winsorizer) -----

  datatype CappingMethod = Gaussian | Iqr

  /** The boundaries a trimmer or winsorizer fits: fold 3 for Gaussian, 1.5 for IQR. */
  function FittedBounds(xs: seq<Option<real>>, m: CappingMethod, est: Estimator): Option<Bounds> {
    match m
    case Gaussian => NormalBoundaries(xs, est)
    case Iqr => SkewedBoundaries(xs, 1.5, est)
  }

  function FittedBoundsOf(t: Table, name: string, m: CappingMethod, est: Estimator): Option<Bounds> {
    match NumericColumn(t, name)
    case None => None
    case Some(xs) => FittedBounds(xs, m, est)
  }

  lemma FittedBoundsOrdered(xs: seq<Option<real>>, m: CappingMethod, est: Estimator)
    requires Sound(est) && FittedBounds(xs, m, est).Some?
    ensures FittedBounds(xs, m, est).value.lower <= FittedBounds(xs, m, est).value.upper
  {
    BoundsForOrdered(Feature("", xs), if m == Gaussian then Normal else Skewed, 1.5, est);
  }

  /** A missing cell, or a NaN boundary, is never outside. */
  predicate InBounds(x: Option<real>, b: Option<Bounds>) {
    x.None? || b.None? || b.value.lower <= x.value <= b.value.upper
  }

  /** Row `i` of column `name` lies within the boundaries fitted on that column. */
  predicate RowFits(t: Table, i: nat, name: string, m: CappingMethod, est: Estimator) {
    match NumericColumn(t, name)
    case None => true
    case Some(xs) => i < |xs| ==> InBounds(xs[i], FittedBounds(xs, m, est))
  }

  predicate KeepRow(t: Table, i: nat, vars: seq<string>, m: CappingMethod, est: Estimator) {
    forall k :: 0 <= k < |vars| ==> RowFits(t, i, vars[k], m, est)
  }

  /** The positions below `n` at which `mask` holds, increasing. */
  function Positions(mask: seq<bool>, n: nat): (rows: seq<nat>)
    requires n <= |mask|
    ensures forall k :: 0 <= k < |rows| ==> rows[k] < n
    ensures forall k, l :: 0 <= k < l < |rows| ==> rows[k] < rows[l]
    ensures forall i :: 0 <= i < n ==> (i in rows <==> mask[i])
  {
    if n == 0 then []
    else Positions(mask, n - 1) + (if mask[n - 1] then [n - 1] else [])
  }

  /** For every row, whether the trimmer keeps it. */
  function Mask(t: Table, vars: seq<string>, m: CappingMethod, est: Estimator): (mask: seq<bool>)
    ensures |mask| == t.Rows()
    ensures forall i :: 0 <= i < t.Rows() ==> (mask[i] <==> KeepRow(t, i, vars, m, est))
  {
    seq(t.Rows(), i requires 0 <= i < t.Rows() => KeepRow(t, i, vars, m, est))
  }

  /** The positions of the rows the trimmer keeps, increasing. */
  function KeptRows(t: Table, vars: seq<string>, m: CappingMethod, est: Estimator): (rows: seq<nat>)
    ensures forall k :: 0 <= k < |rows| ==> rows[k] < t.Rows()
    ensures forall k, l :: 0 <= k < l < |rows| ==> rows[k] < rows[l]
    ensures forall i :: 0 <= i < t.Rows() ==> (i in rows <==> KeepRow(t, i, vars, m, est))
  {
    Positions(Mask(t, vars, m, est), t.Rows())
  }

  /**
   * OutlierTrimmer(...).fit_transform: fit boundaries for every listed column on
   * `t`, then drop each row that lies outside them in some listed column; a
   * missing cell never causes a drop.
   */
  function TrimRows(t: Table, vars: seq<string>, m: CappingMethod, est: Estimator): (r: Table)
    requires t.Valid()
    ensures r.Valid() && r.Names() == t.Names() && r.Kinds() == t.Kinds()
    ensures r.Rows() <= t.Rows() && LabelSet(r) <= LabelSet(t)
  {
    var rows := KeptRows(t, vars, m, est);
    var r := SelectRows(t, rows);
    assert forall k :: 0 <= k < |rows| ==> rows[k] in rows;
    assert |rows| <= t.Rows() by {
      if |rows| > 0 {
        RankBound(rows, |rows| - 1);
      }
    }
    r
  }

  lemma {:induction false} RankBound(rows: seq<nat>, k: nat)
    requires forall a, b :: 0 <= a < b < |rows| ==> rows[a] < rows[b]
    requires k < |rows|
    ensures k <= rows[k]
  {
    if k > 0 {
      RankBound(rows, k - 1);
    }
  }

  /** np.where(x > upper, upper, np.where(x < lower, lower, x)); NaN stays NaN. */
  function ClampCell(x: Option<real>, b: Option<Bounds>): Option<real> {
    if x.None? || b.None? then x
    else if x.value > b.value.upper then Some(b.value.upper)
    else if x.value < b.value.lower then Some(b.value.lower)
    else x
  }

  function CapColumn(c: Column, vars: seq<string>, m: CappingMethod, est: Estimator): (r: Column)
    ensures r.name == c.name && r.cells.Length() == c.cells.Length() && r.cells.Numeric? == c.cells.Numeric?
  {
    if c.name in vars && c.cells.Numeric? then
      var xs := c.cells.nums;
      var b := FittedBounds(xs, m, est);
      Column(c.name, Numeric(seq(|xs|, i requires 0 <= i < |xs| => ClampCell(xs[i], b))))
    else c
  }

  /** Winsorizer(...).fit_transform: clamp every listed column to the boundaries fitted on it. */
  function CapValues(t: Table, vars: seq<string>, m: CappingMethod, est: Estimator): (r: Table)
    requires t.Valid()
    ensures r.Valid() && r.index == t.index && r.Names() == t.Names() && r.Kinds() == t.Kinds()
  {
    var r := Table(t.index, seq(|t.columns|, j requires 0 <= j < |t.columns| => CapColumn(t.columns[j], vars, m, est)));
    assert r.Names() == t.Names();
    assert r.Kinds() == t.Kinds();
    r
  }

  /** Every present cell of column `name` lies within `b`. */
  ghost predicate Settled(t: Table, name: string, b: Option<Bounds>) {
    match NumericColumn(t, name)
    case None => true
    case Some(xs) => forall i :: 0 <= i < |xs| ==> InBounds(xs[i], b)
  }

  /** After trimming, no row of a listed column lies outside the boundaries fitted before the trim. */
  lemma TrimSettles(t: Table, vars: seq<string>, m: CappingMethod, est: Estimator, n: string)
    requires t.Valid() && n in vars
    ensures Settled(TrimRows(t, vars, m, est), n, FittedBoundsOf(t, n, m, est))
  {
    var rows := KeptRows(t, vars, m, est);
    var r := TrimRows(t, vars, m, est);
    assert r == SelectRows(t, rows);
    match NumericColumn(t, n)
    case None =>
    case Some(xs) =>
      var ys := NumericColumn(r, n).value;
      assert ys == Pick(xs, rows);
      var kk :| 0 <= kk < |vars| && vars[kk] == n;
      forall i | 0 <= i < |ys| ensures InBounds(ys[i], FittedBounds(xs, m, est)) {
        assert rows[i] in rows;
        assert RowFits(t, rows[i], vars[kk], m, est);
      }
  }

  /** Trimming only drops rows, so a column that was within `b` stays within `b`. */
  lemma TrimKeepsSettled(t: Table, vars: seq<string>, m: CappingMethod, est: Estimator, n: string, b: Option<Bounds>)
    requires t.Valid() && Settled(t, n, b)
    ensures Settled(TrimRows(t, vars, m, est), n, b)
  {
    var rows := KeptRows(t, vars, m, est);
    assert TrimRows(t, vars, m, est) == SelectRows(t, rows);
    assert forall k :: 0 <= k < |rows| ==> rows[k] in rows;
  }

  /** Capping a column other than `n` leaves column `n` as it was. */
  lemma CapKeepsOthers(t: Table, vars: seq<string>, m: CappingMethod, est: Estimator, n: string)
    requires t.Valid() && n !in vars
    ensures Lookup(CapValues(t, vars, m, est), n) == Lookup(t, n)
    ensures NumericColumn(CapValues(t, vars, m, est), n) == NumericColumn(t, n)
  {
    var r := CapValues(t, vars, m, est);
    match Find(t.Names(), n)
    case None =>
    case Some(j) =>
      assert r.columns[j] == t.columns[j];
  }

  /**
   * A cell inside the boundaries, or a missing cell, is kept; a cell above the
   * upper boundary becomes the upper boundary, one below the lower boundary
   * becomes the lower boundary; with ordered boundaries the result lies within them.
   */
  lemma ClampCellMeaning(x: Option<real>, b: Option<Bounds>)
    ensures InBounds(x, b) ==> ClampCell(x, b) == x
    ensures x.Some? && b.Some? && x.value > b.value.upper ==> ClampCell(x, b) == Some(b.value.upper)
    ensures x.Some? && b.Some? && x.value <= b.value.upper && x.value < b.value.lower ==>
      ClampCell(x, b) == Some(b.value.lower)
    ensures b.Some? && b.value.lower <= b.value.upper ==> InBounds(ClampCell(x, b), b)
  {
  }

  /** A listed numeric column, once capped, is its cells clamped to the boundaries fitted on it. */
  lemma CapValuesContent(t: Table, vars: seq<string>, m: CappingMethod, est: Estimator, n: string)
    requires t.Valid() && n in vars && NumericColumn(t, n).Some?
    ensures
      var xs := NumericColumn(t, n).value;
      var ys := NumericColumn(CapValues(t, vars, m, est), n);
      && ys.Some? && |ys.value| == |xs|
      && forall i :: 0 <= i < |xs| ==> ys.value[i] == ClampCell(xs[i], FittedBounds(xs, m, est))
  {
    var j := Find(t.Names(), n).value;
    assert CapValues(t, vars, m, est).columns[j] == CapColumn(t.columns[j], vars, m, est);
  }

  /** With a sound estimator, a capped column lies within the boundaries fitted on it. */
  lemma CapSettles(t: Table, vars: seq<string>, m: CappingMethod, est: Estimator, n: string)
    requires t.Valid() && n in vars && Sound(est)
    ensures Settled(CapValues(t, vars, m, est), n, FittedBoundsOf(t, n, m, est))
  {
    var r := CapValues(t, vars, m, est);
    match Find(t.Names(), n)
    case None =>
    case Some(j) =>
      if t.columns[j].cells.Numeric? {
        var xs := t.columns[j].cells.nums;
        var b := FittedBounds(xs, m, est);
        assert NumericColumn(t, n) == Some(xs);
        var ys := NumericColumn(r, n).value;
        if b.Some? {
          FittedBoundsOrdered(xs, m, est);
        }
        forall i | 0 <= i < |ys| ensures InBounds(ys[i], b) {
          assert ys[i] == ClampCell(xs[i], b);
        }
      }
  }

  /** A trim stage runs only when its column list is non-empty. */
  function TrimStage(t: Table, vars: seq<string>, m: CappingMethod, est: Estimator): (r: Table)
    requires t.Valid()
    ensures r.Valid() && r.Names() == t.Names() && r.Kinds() == t.Kinds()
    ensures r.Rows() <= t.Rows() && LabelSet(r) <= LabelSet(t)
  {
    if |vars| > 0 then TrimRows(t, vars, m, est) else t
  }

  /** A cap stage runs only when its column list is non-empty. */
  function CapStage(t: Table, vars: seq<string>, m: CappingMethod, est: Estimator): (r: Table)
    requires t.Valid()
    ensures r.Valid() && r.index == t.index && r.Names() == t.Names() && r.Kinds() == t.Kinds()
  {
    if |vars| > 0 then CapValues(t, vars, m, est) else t
  }

  /** The four stages of `trim_cap_outliers`, in the order the code runs them. */
  function Remediate(data: Table, p: Plan, est: Estimator): (r: Table)
    requires data.Valid()
    ensures r.Valid() && r.Names() == data.Names() && r.Kinds() == data.Kinds()
    ensures r.Rows() <= data.Rows() && LabelSet(r) <= LabelSet(data)
  {
    var t1 := TrimStage(data, p.normTrim, Gaussian, est);
    var t2 := CapStage(t1, p.normCap, Gaussian, est);
    var t3 := TrimStage(t2, p.skewTrim, Iqr, est);
    CapStage(t3, p.skewCap, Iqr, est)
  }

  /**
   * What the pipeline leaves behind, bucket by bucket: each treated column lies
   * within the boundaries its own stage fitted on the table that stage received
   * (capping needs a sound estimator so that lower <= upper). The columns, their
   * kinds and order are kept, and rows are only ever dropped.
   */
  lemma RemediateSettles(data: Table, p: Plan, est: Estimator)
    requires data.Valid() && Disjoint(p)
    ensures
      var t1 := TrimStage(data, p.normTrim, Gaussian, est);
      var t2 := CapStage(t1, p.normCap, Gaussian, est);
      var t3 := TrimStage(t2, p.skewTrim, Iqr, est);
      var t4 := CapStage(t3, p.skewCap, Iqr, est);
      && t4 == Remediate(data, p, est)
      && t4.Names() == data.Names() && t4.Kinds() == data.Kinds()
      && t4.Rows() <= data.Rows() && LabelSet(t4) <= LabelSet(data)
      && (forall n :: n in p.normTrim ==> Settled(t4, n, FittedBoundsOf(data, n, Gaussian, est)))
      && (forall n :: n in p.normCap && Sound(est) ==> Settled(t4, n, FittedBoundsOf(t1, n, Gaussian, est)))
      && (forall n :: n in p.skewTrim ==> Settled(t4, n, FittedBoundsOf(t2, n, Iqr, est)))
      && (forall n :: n in p.skewCap && Sound(est) ==> Settled(t4, n, FittedBoundsOf(t3, n, Iqr, est)))
  {
    var t1 := TrimStage(data, p.normTrim, Gaussian, est);
    var t2 := CapStage(t1, p.normCap, Gaussian, est);
    var t3 := TrimStage(t2, p.skewTrim, Iqr, est);
    var t4 := CapStage(t3, p.skewCap, Iqr, est);
    forall n | n in p.normTrim ensures Settled(t4, n, FittedBoundsOf(data, n, Gaussian, est)) {
      var b := FittedBoundsOf(data, n, Gaussian, est);
      TrimSettles(data, p.normTrim, Gaussian, est, n);
      if |p.normCap| > 0 { CapKeepsOthers(t1, p.normCap, Gaussian, est, n); }
      if |p.skewTrim| > 0 { TrimKeepsSettled(t2, p.skewTrim, Iqr, est, n, b); }
      if |p.skewCap| > 0 { CapKeepsOthers(t3, p.skewCap, Iqr, est, n); }
    }
    forall n | n in p.normCap && Sound(est) ensures Settled(t4, n, FittedBoundsOf(t1, n, Gaussian, est)) {
      var b := FittedBoundsOf(t1, n, Gaussian, est);
      CapSettles(t1, p.normCap, Gaussian, est, n);
      if |p.skewTrim| > 0 { TrimKeepsSettled(t2, p.skewTrim, Iqr, est, n, b); }
      if |p.skewCap| > 0 { CapKeepsOthers(t3, p.skewCap, Iqr, est, n); }
    }
    forall n | n in p.skewTrim ensures Settled(t4, n, FittedBoundsOf(t2, n, Iqr, est)) {
      TrimSettles(t2, p.skewTrim, Iqr, est, n);
      if |p.skewCap| > 0 { CapKeepsOthers(t3, p.skewCap, Iqr, est, n); }
    }
    forall n | n in p.skewCap && Sound(est) ensures Settled(t4, n, FittedBoundsOf(t3, n, Iqr, est)) {
      CapSettles(t3, p.skewCap, Iqr, est, n);
    }
  }

  /** The positions of the rows a trim stage keeps: all of them when the stage does not run. */
  function StageRows(t: Table, vars: seq<string>, m: CappingMethod, est: Estimator): (rows: seq<nat>)
    requires t.Valid()
    ensures forall k :: 0 <= k < |rows| ==> rows[k] < t.Rows()
    ensures forall k, l :: 0 <= k < l < |rows| ==> rows[k] < rows[l]
  {
    if |vars| > 0 then KeptRows(t, vars, m, est) else Identity(t.Rows())
  }

  /** A trim stage selects the rows at `StageRows`: their labels and, in every column, their cells. */
  lemma TrimStageRows(t: Table, vars: seq<string>, m: CappingMethod, est: Estimator)
    requires t.Valid()
    ensures
      var r := TrimStage(t, vars, m, est);
      var rows := StageRows(t, vars, m, est);
      && r.index == Pick(t.index, rows)
      && forall n :: Lookup(t, n).Some? ==> Lookup(r, n) == Some(PickCells(Lookup(t, n).value, rows))
  {
    if |vars| == 0 {
      assert Pick(t.index, Identity(t.Rows())) == t.index;
      forall n | Lookup(t, n).Some?
        ensures Lookup(t, n) == Some(PickCells(Lookup(t, n).value, Identity(t.Rows())))
      {
        PickIdentity(Lookup(t, n).value);
      }
    }
  }

  /** The positions in `data` of the rows that survive both trim stages, in order. */
  function Survivors(data: Table, p: Plan, est: Estimator): (rows: seq<nat>)
    requires data.Valid()
    ensures forall k :: 0 <= k < |rows| ==> rows[k] < data.Rows()
    ensures forall k, l :: 0 <= k < l < |rows| ==> rows[k] < rows[l]
  {
    var t1 := TrimStage(data, p.normTrim, Gaussian, est);
    var t2 := CapStage(t1, p.normCap, Gaussian, est);
    var a := StageRows(data, p.normTrim, Gaussian, est);
    var b := StageRows(t2, p.skewTrim, Iqr, est);
    TrimStageRows(data, p.normTrim, Gaussian, est);
    assert |a| == t2.Rows();
    Pick(a, b)
  }

  /**
   * The four stages leave every column outside both cap lists (an exception,
   * a feature at 15 % or more, a categorical column, or one only trimmed) as
   * its original cells at the surviving rows, and the labels as those rows' labels.
   */
  lemma RemediateKeepsOthers(data: Table, p: Plan, est: Estimator)
    requires data.Valid()
    ensures
      var r := Remediate(data, p, est);
      var rows := Survivors(data, p, est);
      && r.index == Pick(data.index, rows)
      && forall n :: Lookup(data, n).Some? && n !in p.normCap && n !in p.skewCap ==>
           Lookup(r, n) == Some(PickCells(Lookup(data, n).value, rows))
  {
    var t1 := TrimStage(data, p.normTrim, Gaussian, est);
    var t2 := CapStage(t1, p.normCap, Gaussian, est);
    var t3 := TrimStage(t2, p.skewTrim, Iqr, est);
    var t4 := CapStage(t3, p.skewCap, Iqr, est);
    var a := StageRows(data, p.normTrim, Gaussian, est);
    var b := StageRows(t2, p.skewTrim, Iqr, est);
    TrimStageRows(data, p.normTrim, Gaussian, est);
    TrimStageRows(t2, p.skewTrim, Iqr, est);
    assert Survivors(data, p, est) == Pick(a, b);
    PickPick(data.index, a, b);
    forall n | Lookup(data, n).Some? && n !in p.normCap && n !in p.skewCap
      ensures Lookup(t4, n) == Some(PickCells(Lookup(data, n).value, Pick(a, b)))
    {
      if |p.normCap| > 0 {
        CapKeepsOthers(t1, p.normCap, Gaussian, est, n);
      }
      if |p.skewCap| > 0 {
        CapKeepsOthers(t3, p.skewCap, Iqr, est, n);
      }
      PickCellsPick(Lookup(data, n).value, a, b);
    }
  }

  // ----- keeping the target aligned with the data -----

  /** One entry of a target Series: its index label and its value. */
  datatype Labeled<T> = Labeled(key: int, value: T)

  function Labels<T>(s: seq<Labeled<T>>): (ls: seq<int>)
    ensures |ls| == |s| && forall i :: 0 <= i < |s| ==> ls[i] == s[i].key
  {
    seq(|s|, i requires 0 <= i < |s| => s[i].key)
  }

  /** `target.drop(target.index.difference(data.index))`: keep the entries whose label is kept. */
  function Align<T(==)>(s: seq<Labeled<T>>, keep: set<int>): (r: seq<Labeled<T>>)
    ensures forall i :: 0 <= i < |r| ==> r[i] in s && r[i].key in keep
    ensures forall i :: 0 <= i < |s| && s[i].key in keep ==> s[i] in r
  {
    if s == [] then []
    else (if s[0].key in keep then [s[0]] else []) + Align(s[1..], keep)
  }

  lemma {:induction false} AlignConcat<T>(a: seq<Labeled<T>>, b: seq<Labeled<T>>, keep: set<int>)
    ensures Align(a + b, keep) == Align(a, keep) + Align(b, keep)
  {
    if a == [] {
      assert a + b == b;
    } else {
      assert (a + b)[1..] == a[1..] + b;
      AlignConcat(a[1..], b, keep);
    }
  }

  /** Aligning to a label set and then to a smaller one is aligning to the smaller one. */
  lemma {:induction false} AlignTwice<T>(s: seq<Labeled<T>>, a: set<int>, b: set<int>)
    requires b <= a
    ensures Align(Align(s, a), b) == Align(s, b)
  {
    if s != [] {
      AlignTwice(s[1..], a, b);
      var sa := Align(s, a);
      if s[0].key in a {
        assert sa == [s[0]] + Align(s[1..], a);
        assert sa[0] == s[0];
        assert sa[1..] == Align(s[1..], a);
      } else {
        assert [] + Align(s[1..], a) == Align(s[1..], a);
        assert [] + Align(s[1..], b) == Align(s[1..], b);
        assert sa == Align(s[1..], a);
        assert Align(s, b) == Align(s[1..], b);
      }
    }
  }

  /** Appending one entry to a target prefix whose labels match the picked rows. */
  lemma AlignStep<T>(prev: seq<Labeled<T>>, x: Labeled<T>, keep: set<int>, idx: seq<int>, before: seq<nat>, pos: nat)
    requires forall k :: 0 <= k < |before| ==> before[k] < |idx|
    requires pos < |idx| && x.key == idx[pos]
    requires Labels(Align(prev, keep)) == Pick(idx, before)
    ensures x.key in keep ==> Labels(Align(prev + [x], keep)) == Pick(idx, before + [pos])
    ensures x.key !in keep ==> Labels(Align(prev + [x], keep)) == Pick(idx, before)
  {
    AlignConcat(prev, [x], keep);
    assert [x][1..] == [];
    assert Align([x], keep) == (if x.key in keep then [x] else []) + Align([], keep);
    if x.key in keep {
      assert Labels(Align(prev, keep) + [x]) == Labels(Align(prev, keep)) + [x.key];
      assert Pick(idx, before + [pos]) == Pick(idx, before) + [idx[pos]];
    } else {
      assert Align(prev, keep) + [] == Align(prev, keep);
    }
  }

  /** With distinct labels, a row's label survives the trim exactly when the row is kept. */
  lemma KeptLabel(t: Table, vars: seq<string>, m: CappingMethod, est: Estimator, i: nat)
    requires t.Valid() && Distinct(t.index) && i < |t.index|
    ensures t.index[i] in LabelSet(TrimRows(t, vars, m, est)) <==> KeepRow(t, i, vars, m, est)
  {
    var full := KeptRows(t, vars, m, est);
    var r := TrimRows(t, vars, m, est);
    assert r == SelectRows(t, full);
    if KeepRow(t, i, vars, m, est) {
      var k :| 0 <= k < |full| && full[k] == i;
      assert r.index[k] == t.index[i];
    }
    if t.index[i] in LabelSet(r) {
      var k :| 0 <= k < |r.index| && r.index[k] == t.index[i];
      assert t.index[full[k]] == t.index[i];
      assert full[k] == i;
      assert full[k] in full;
    }
  }

  /** Aligning a prefix of the target picks the labels at the masked positions of that prefix. */
  lemma {:induction false} PrefixAligned<T>(y: seq<Labeled<T>>, mask: seq<bool>, keep: set<int>, n: nat)
    requires |mask| == |y| && n <= |y|
    requires forall i :: 0 <= i < |y| ==> (y[i].key in keep <==> mask[i])
    ensures Labels(Align(y[..n], keep)) == Pick(Labels(y), Positions(mask, n))
  {
    if n == 0 {
      assert y[..0] == [];
    } else {
      PrefixAligned(y, mask, keep, n - 1);
      var before := Positions(mask, n - 1);
      var prev := y[..n - 1];
      assert y[..n] == prev + [y[n - 1]];
      AlignStep(prev, y[n - 1], keep, Labels(y), before, n - 1);
      if mask[n - 1] {
        assert Positions(mask, n) == before + [n - 1];
      } else {
        assert Positions(mask, n) == before + [];
        assert before + [] == before;
      }
    }
  }

  /**
   * A trim keeps a target that was aligned with the data aligned: afterwards the
   * target's labels are exactly the surviving rows' labels, in the same order.
   */
  lemma TrimKeepsAlignment<T>(t: Table, y: seq<Labeled<T>>, vars: seq<string>, m: CappingMethod, est: Estimator)
    requires t.Valid() && Distinct(t.index) && Labels(y) == t.index
    ensures var r := TrimRows(t, vars, m, est);
      Distinct(r.index) && Labels(Align(y, LabelSet(r))) == r.index
  {
    var full := KeptRows(t, vars, m, est);
    var r := TrimRows(t, vars, m, est);
    var mask := Mask(t, vars, m, est);
    forall i | 0 <= i < |y| ensures y[i].key in LabelSet(r) <==> mask[i] {
      KeptLabel(t, vars, m, est, i);
    }
    PrefixAligned(y, mask, LabelSet(r), |y|);
    assert y[..|y|] == y;
    assert r.index == Pick(t.index, full);
    TrimKeepsDistinct(t, vars, m, est);
  }

  /** Trimming keeps distinct labels distinct: it selects increasing positions. */
  lemma TrimKeepsDistinct(t: Table, vars: seq<string>, m: CappingMethod, est: Estimator)
    requires t.Valid() && Distinct(t.index)
    ensures Distinct(TrimRows(t, vars, m, est).index)
  {
    var full := KeptRows(t, vars, m, est);
    var idx := TrimRows(t, vars, m, est).index;
    assert idx == Pick(t.index, full);
    forall a, b | 0 <= a < b < |idx| ensures idx[a] != idx[b] {
      assert full[a] < full[b];
    }
  }

  /** The target after the pipeline: realigned to the final data when some trim ran. */
  function TargetAfter<T(==)>(y: seq<Labeled<T>>, data: Table, p: Plan, est: Estimator): (r: seq<Labeled<T>>)
    requires data.Valid()
    ensures forall i :: 0 <= i < |r| ==> r[i] in y
    ensures |p.normTrim| > 0 || |p.skewTrim| > 0 ==>
      forall i :: 0 <= i < |y| ==> (y[i] in r <==> y[i].key in LabelSet(Remediate(data, p, est)))
    ensures |p.normTrim| == 0 && |p.skewTrim| == 0 ==> r == y
  {
    if |p.normTrim| > 0 || |p.skewTrim| > 0 then Align(y, LabelSet(Remediate(data, p, est))) else y
  }

  /**
   * A target aligned with the data stays aligned through the four stages: its
   * labels end up exactly the final data's labels, in the same order.
   */
  lemma RemediateKeepsAlignment<T>(data: Table, y: seq<Labeled<T>>, p: Plan, est: Estimator)
    requires data.Valid() && Distinct(data.index) && Labels(y) == data.index
    ensures Distinct(Remediate(data, p, est).index)
    ensures Labels(TargetAfter(y, data, p, est)) == Remediate(data, p, est).index
  {
    var t1 := TrimStage(data, p.normTrim, Gaussian, est);
    var t2 := CapStage(t1, p.normCap, Gaussian, est);
    var t3 := TrimStage(t2, p.skewTrim, Iqr, est);
    var t4 := CapStage(t3, p.skewCap, Iqr, est);
    assert LabelSet(t4) == LabelSet(t3);
    assert LabelSet(t2) == LabelSet(t1);
    if |p.normTrim| > 0 {
      TrimKeepsAlignment(data, y, p.normTrim, Gaussian, est);
      var y1 := Align(y, LabelSet(t1));
      if |p.skewTrim| > 0 {
        TrimKeepsAlignment(t2, y1, p.skewTrim, Iqr, est);
        AlignTwice(y, LabelSet(t1), LabelSet(t3));
      }
    } else if |p.skewTrim| > 0 {
      TrimKeepsAlignment(t2, y, p.skewTrim, Iqr, est);
    }
  }

  /** The target after the pipeline is the target realigned after each trim that ran. */
  lemma TargetSteps<T>(y: seq<Labeled<T>>, data: Table, p: Plan, est: Estimator)
    requires data.Valid()
    ensures
      var t1 := TrimStage(data, p.normTrim, Gaussian, est);
      var t3 := TrimStage(CapStage(t1, p.normCap, Gaussian, est), p.skewTrim, Iqr, est);
      var y1 := if |p.normTrim| > 0 then Align(y, LabelSet(t1)) else y;
      TargetAfter(y, data, p, est) == if |p.skewTrim| > 0 then Align(y1, LabelSet(t3)) else y1
  {
    var t1 := TrimStage(data, p.normTrim, Gaussian, est);
    var t2 := CapStage(t1, p.normCap, Gaussian, est);
    var t3 := TrimStage(t2, p.skewTrim, Iqr, est);
    var t4 := CapStage(t3, p.skewCap, Iqr, est);
    assert LabelSet(t4) == LabelSet(t3);
    assert LabelSet(t2) == LabelSet(t1);
    if |p.normTrim| > 0 && |p.skewTrim| > 0 {
      AlignTwice(y, LabelSet(t1), LabelSet(t3));
    } else if |p.normTrim| > 0 {
      assert LabelSet(t4) == LabelSet(t1);
    }
  }

  // ----- trim_cap_outliers -----

  /** The data alone, or the data with its target when a target was given. */
  datatype Outcome<T> = DataOnly(data: Table) | WithTarget(data: Table, target: seq<Labeled<T>>)

  /**
   * `trim_cap_outliers(data, exception_list, target, fold)`: buckets the features
   * by the summary, then runs normal-trim, normal-cap, skewed-trim and
   * skewed-cap, each refitting on the table it receives; after each trim the
   * target keeps only the labels still present in the data.
   */
  method TrimCapOutliers<T(==)>(data: Table, exceptions: seq<string>, target: Option<seq<Labeled<T>>>, fold: real, est: Estimator)
    returns (r: Result<Outcome<T>, Error>)
    requires data.Valid()
    ensures !ValidFold(fold) ==> r == Failure(ValueError)
    ensures r.Failure? <==> OutlierSummary(data, fold, est).Failure?
    ensures r.Success? ==> (r.value.WithTarget? <==> target.Some?)
    ensures r.Success? ==>
      var p := MakePlan(OutlierSummary(data, fold, est).value, exceptions);
      && Disjoint(p)
      && r.value.data == Remediate(data, p, est)
      && (target.Some? ==> r.value.target == TargetAfter(target.value, data, p, est))
    ensures r.Success? && target.Some? && Labels(target.value) == data.index && Distinct(data.index) ==>
      Labels(r.value.target) == r.value.data.index
  {
    var summary := OutlierSummary(data, fold, est);
    if summary.Failure? {
      return Failure(summary.error);
    }
    var plan := MakePlan(summary.value, exceptions);
    PlanDisjoint(summary.value, exceptions);
    var adjustTarget := target.Some?;
    var y: seq<Labeled<T>> := if adjustTarget then target.value else [];
    var t := data;

    if |plan.normTrim| > 0 {
      t := TrimRows(t, plan.normTrim, Gaussian, est);
      if adjustTarget {
        y := Align(y, LabelSet(t));
      }
    }
    ghost var t1 := t;
    assert t1 == TrimStage(data, plan.normTrim, Gaussian, est);
    if |plan.normCap| > 0 {
      t := CapValues(t, plan.normCap, Gaussian, est);
    }
    ghost var t2 := t;
    ghost var y1 := y;
    if |plan.skewTrim| > 0 {
      t := TrimRows(t, plan.skewTrim, Iqr, est);
      if adjustTarget {
        y := Align(y, LabelSet(t));
      }
    }
    ghost var t3 := t;
    assert t3 == TrimStage(t2, plan.skewTrim, Iqr, est);
    if |plan.skewCap| > 0 {
      t := CapValues(t, plan.skewCap, Iqr, est);
    }
    assert t == Remediate(data, plan, est);

    if adjustTarget {
      TargetSteps(target.value, data, plan, est);
      if Labels(target.value) == data.index && Distinct(data.index) {
        RemediateKeepsAlignment(data, target.value, plan, est);
      }
      r := Success(WithTarget(t, y));
    } else {
      r := Success(DataOnly(t));
    }
  }
}
