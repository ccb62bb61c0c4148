/**
 * The missing-value helpers: turning keyword placeholders into missing cells,
 * filling missing cells with constants or with another column of the same
 * row, and collapsing the two "no service" placeholders to "No".
 */
module ImputationHandling {
  import opened Frames

  // ----- prepare_imputation -----

  /** A cell equal to one of the keywords becomes missing; every other cell stays. */
  function ScrubCell(x: Option<string>, keywords: seq<string>): Option<string> {
    if x.Some? && x.value in keywords then None else x
  }

  function ScrubStrs(xs: seq<Option<string>>, keywords: seq<string>): (ys: seq<Option<string>>)
    ensures |ys| == |xs| && forall i :: 0 <= i < |xs| ==> ys[i] == ScrubCell(xs[i], keywords)
  {
    seq(|xs|, i requires 0 <= i < |xs| => ScrubCell(xs[i], keywords))
  }

  /** Whether some cell is present. */
  predicate AnyPresent<T>(xs: seq<Option<T>>) {
    exists i :: 0 <= i < |xs| && xs[i].Some?
  }

  /** A float64 column of `n` NaN cells. */
  function NoValues(n: nat): (r: seq<Option<real>>)
    ensures |r| == n && forall i :: 0 <= i < n ==> r[i].None?
  {
    seq(n, i => None)
  }

  /**
   * `col.replace(k, np.nan)` for every keyword k. A numeric column never
   * holds a keyword string, so it is returned as it was. When a replacement
   * leaves an object column with no present cell, pandas converts the
   * column to float64, so it becomes a numeric column of missing cells.
   */
  function Scrub(c: Cells, keywords: seq<string>): (r: Cells)
    ensures r.Length() == c.Length()
    ensures c.Numeric? ==> r == c
    ensures c.Categorical? ==>
      (r.Numeric? <==> AnyPresent(c.strs) &&
                       forall i :: 0 <= i < |c.strs| && c.strs[i].Some? ==> c.strs[i].value in keywords)
    ensures c.Categorical? && r.Numeric? ==> forall i :: 0 <= i < |r.nums| ==> r.nums[i].None?
    ensures r.Categorical? ==>
      && (forall i :: 0 <= i < |r.strs| && r.strs[i].Some? ==> r.strs[i].value !in keywords)
      && (forall i :: 0 <= i < |r.strs| && r.strs[i] != c.strs[i] ==>
            r.strs[i].None? && c.strs[i].Some? && c.strs[i].value in keywords)
  {
    match c
    case Numeric(_) => c
    case Categorical(xs) =>
      var ys := ScrubStrs(xs, keywords);
      if AnyPresent(xs) && !AnyPresent(ys) then Numeric(NoValues(|xs|)) else Categorical(ys)
  }

  lemma ScrubNothing(c: Cells)
    ensures Scrub(c, []) == c
  {
    if c.Categorical? {
      assert ScrubStrs(c.strs, []) == c.strs;
    }
  }

  /** Replacing the keywords `a` and then the keywords `b` replaces `a + b`. */
  lemma ScrubThenScrub(c: Cells, a: seq<string>, b: seq<string>)
    ensures Scrub(Scrub(c, a), b) == Scrub(c, a + b)
  {
    if c.Categorical? {
      var xs := c.strs;
      var ya, yab := ScrubStrs(xs, a), ScrubStrs(xs, a + b);
      forall i | 0 <= i < |xs| ensures ScrubStrs(ya, b)[i] == yab[i] {
        if xs[i].Some? {
          assert xs[i].value in a + b <==> xs[i].value in a || xs[i].value in b;
        }
      }
      assert ScrubStrs(ya, b) == yab;
      assert AnyPresent(yab) ==> AnyPresent(ya) by {
        if AnyPresent(yab) {
          var i :| 0 <= i < |yab| && yab[i].Some?;
          assert ya[i].Some?;
        }
      }
      assert AnyPresent(ya) ==> AnyPresent(xs) by {
        if AnyPresent(ya) {
          var i :| 0 <= i < |ya| && ya[i].Some?;
          assert xs[i].Some?;
        }
      }
    }
  }

  lemma ScrubIdempotent(c: Cells, keywords: seq<string>)
    ensures Scrub(Scrub(c, keywords), keywords) == Scrub(c, keywords)
  {
    if Scrub(c, keywords).Categorical? {
      var ys := Scrub(c, keywords).strs;
      assert ScrubStrs(ys, keywords) == ys;
    }
  }

  /** The first listed column the table lacks, in list order. */
  function FirstMissing(vars: seq<string>, names: seq<string>): (r: Option<string>)
    ensures r.None? <==> forall k :: 0 <= k < |vars| ==> vars[k] in names
    ensures r.Some? ==> r.value in vars && r.value !in names
  {
    if vars == [] then None
    else if vars[0] !in names then Some(vars[0])
    else
      var rest := FirstMissing(vars[1..], names);
      assert forall k :: 1 <= k < |vars| ==> vars[k] == vars[1..][k - 1];
      rest
  }

  lemma {:induction false} FirstMissingAt(vars: seq<string>, names: seq<string>, i: nat)
    requires i < |vars| && vars[i] !in names
    requires forall k :: 0 <= k < i ==> vars[k] in names
    ensures FirstMissing(vars, names) == Some(vars[i])
  {
    if i > 0 {
      FirstMissingAt(vars[1..], names, i - 1);
    }
  }

  /** What `data[n]` holds after `prepare_imputation(data, vars, *keywords)` succeeds. */
  function Prepared(t: Table, vars: seq<string>, keywords: seq<string>, n: string): Option<Cells> {
    match Lookup(t, n)
    case None => None
    case Some(c) => Some(if n in vars then Scrub(c, keywords) else c)
  }

  /**
   * `prepare_imputation(data, variable, *keywords)`. It raises ValueError when
   * the table or the column list is missing and KeyError for the first listed
   * column that is absent (only when there is a keyword to replace). Otherwise
   * it returns a copy in which the listed columns have their keyword cells
   * turned missing; the other columns, the labels and the column order are
   * those of the input.
   */
  method PrepareImputation(data: Option<Table>, variable: Option<seq<string>>, keywords: seq<string>)
    returns (r: Result<Table, Error>)
    ensures data.None? || variable.None? ==> r == Failure(ValueError)
    ensures data.Some? && variable.Some? ==>
      var t, vars := data.value, variable.value;
      && (r.Failure? <==> |keywords| > 0 && FirstMissing(vars, t.Names()).Some?)
      && (r.Failure? ==> r.error == KeyError(FirstMissing(vars, t.Names()).value))
      && (r.Success? ==>
            && r.value.index == t.index
            && r.value.Names() == t.Names()
            && (t.Valid() ==> r.value.Valid())
            && forall n :: Lookup(r.value, n) == Prepared(t, vars, keywords, n))
  {
    if data.None? || variable.None? {
      return Failure(ValueError);
    }
    var t, vars := data.value, variable.value;
    var out := t;
    var i := 0;
    while i < |vars|
      invariant 0 <= i <= |vars|
      invariant out.index == t.index && out.Names() == t.Names()
      invariant t.Valid() ==> out.Valid()
      invariant |keywords| > 0 ==> forall k :: 0 <= k < i ==> vars[k] in t.Names()
      invariant forall n :: Lookup(out, n) == Prepared(t, vars[..i], keywords, n)
    {
      var col := vars[i];
      ghost var before := out;
      var replaced := ReplaceKeywords(out, col, keywords);
      if replaced.Failure? {
        FirstMissingAt(vars, t.Names(), i);
        return Failure(KeyError(col));
      }
      out := replaced.value;
      PreparedStep(t, vars, keywords, i, before, out);
      if |keywords| > 0 {
        assert col in t.Names();
        assert forall k :: 0 <= k < i + 1 ==> vars[k] in t.Names();
      }
      i := i + 1;
    }
    assert vars[..i] == vars;
    return Success(out);
  }

  /**
   * The inner loop of `prepare_imputation`: `data[col].replace(kw, np.nan)` for
   * each keyword in turn. Reading an absent column raises KeyError, which
   * happens only when there is a keyword to replace.
   */
  method ReplaceKeywords(t: Table, col: string, keywords: seq<string>) returns (r: Result<Table, Error>)
    ensures r.Failure? <==> |keywords| > 0 && Lookup(t, col).None?
    ensures r.Failure? ==> r.error == KeyError(col)
    ensures r.Success? ==>
      && r.value.index == t.index && r.value.Names() == t.Names()
      && (t.Valid() ==> r.value.Valid())
      && (forall n :: n != col ==> Lookup(r.value, n) == Lookup(t, n))
      && Lookup(r.value, col) == match Lookup(t, col)
                                 case None => None
                                 case Some(c) => Some(Scrub(c, keywords))
  {
    var out := t;
    var j := 0;
    assert keywords[..0] == [];
    if Lookup(t, col).Some? {
      ScrubNothing(Lookup(t, col).value);
    }
    while j < |keywords|
      invariant 0 <= j <= |keywords|
      invariant out.index == t.index && out.Names() == t.Names()
      invariant t.Valid() ==> out.Valid()
      invariant j > 0 ==> Lookup(t, col).Some?
      invariant forall n :: n != col ==> Lookup(out, n) == Lookup(t, n)
      invariant Lookup(out, col) == match Lookup(t, col)
                                    case None => None
                                    case Some(c) => Some(Scrub(c, keywords[..j]))
    {
      match Lookup(out, col)
      case None =>
        return Failure(KeyError(col));
      case Some(c) =>
        ghost var c0 := Lookup(t, col).value;
        ScrubThenScrub(c0, keywords[..j], [keywords[j]]);
        assert keywords[..j] + [keywords[j]] == keywords[..j + 1];
        if t.Valid() {
          LookupAt(out, Find(out.Names(), col).value);
        }
        out := SetColumn(out, col, Scrub(c, [keywords[j]]));
        j := j + 1;
    }
    assert keywords[..j] == keywords;
    return Success(out);
  }

  /** Scrubbing the next listed column extends the prepared prefix by that column. */
  lemma PreparedStep(t: Table, vars: seq<string>, keywords: seq<string>, i: nat, before: Table, out: Table)
    requires i < |vars|
    requires forall n :: Lookup(before, n) == Prepared(t, vars[..i], keywords, n)
    requires forall n :: n != vars[i] ==> Lookup(out, n) == Lookup(before, n)
    requires Lookup(out, vars[i]) == match Lookup(before, vars[i])
                                     case None => None
                                     case Some(c) => Some(Scrub(c, keywords))
    ensures forall n :: Lookup(out, n) == Prepared(t, vars[..i + 1], keywords, n)
  {
    var col := vars[i];
    assert vars[..i + 1] == vars[..i] + [col];
    forall n ensures Lookup(out, n) == Prepared(t, vars[..i + 1], keywords, n) {
      assert n in vars[..i + 1] <==> n in vars[..i] || n == col;
      if n == col && Lookup(t, n).Some? {
        var c0 := Lookup(t, n).value;
        ScrubIdempotent(c0, keywords);
      }
    }
  }

  /** Overwriting an existing column with cells of the same kind keeps the kinds. */
  lemma KindPreserved(t: Table, name: string, cells: Cells)
    requires Lookup(t, name).Some? && Lookup(t, name).value.Numeric? == cells.Numeric?
    ensures SetColumn(t, name, cells).Kinds() == t.Kinds()
  {
    var j := Find(t.Names(), name).value;
    assert SetColumn(t, name, cells).columns == t.columns[j := Column(name, cells)];
  }

  /**
   * After preparation no cell of a listed object column equals a keyword, or
   * the column has become an all-missing float64 one; nothing else changed.
   */
  lemma PreparedMeaning(t: Table, vars: seq<string>, keywords: seq<string>, n: string)
    ensures Prepared(t, vars, keywords, n).None? <==> n !in t.Names()
    ensures n !in vars ==> Prepared(t, vars, keywords, n) == Lookup(t, n)
    ensures n in vars && Lookup(t, n).Some? && Lookup(t, n).value.Numeric? ==>
      Prepared(t, vars, keywords, n) == Lookup(t, n)
    ensures n in vars && Lookup(t, n).Some? && Lookup(t, n).value.Categorical? ==>
      var before, after := Lookup(t, n).value.strs, Prepared(t, vars, keywords, n).value;
      && after.Length() == |before|
      && (after.Numeric? <==>
            AnyPresent(before) && forall i :: 0 <= i < |before| && before[i].Some? ==> before[i].value in keywords)
      && (after.Numeric? ==> forall i :: 0 <= i < |after.nums| ==> after.nums[i].None?)
      && (after.Categorical? ==>
            && (forall i :: 0 <= i < |after.strs| ==> after.strs[i].Some? ==> after.strs[i].value !in keywords)
            && (forall i :: 0 <= i < |after.strs| ==>
                  before[i].Some? && before[i].value !in keywords ==> after.strs[i] == before[i]))
  {
    if n in vars && Lookup(t, n).Some? {
      var c := Lookup(t, n).value;
      assert Prepared(t, vars, keywords, n).value == Scrub(c, keywords);
    }
  }

  // ----- impute_na -----

  /**
   * `series.fillna(v)` on a numeric column. A NaN fill value (`None`), which is
   * what the mean or median of an all-missing column is, leaves the column as it was.
   */
  function FillNa(xs: seq<Option<real>>, v: Option<real>): (r: seq<Option<real>>)
    ensures |r| == |xs|
    ensures v.Some? ==> forall i :: 0 <= i < |xs| ==> r[i].Some?
    ensures v.None? ==> r == xs
    ensures forall i :: 0 <= i < |xs| ==> (xs[i].Some? ==> r[i] == xs[i]) && (xs[i].None? ==> r[i] == v)
  {
    seq(|xs|, i requires 0 <= i < |xs| => if xs[i].Some? then xs[i] else v)
  }

  lemma SuffixesDiffer(v: string)
    ensures v + "_mean" != v + "_median" && v + "_mean" != v + "_zero" && v + "_median" != v + "_zero"
    ensures v != v + "_mean" && v != v + "_median" && v != v + "_zero"
  {
    assert (v + "_mean")[|v| + 3] == 'a' && (v + "_median")[|v| + 3] == 'd';
    assert (v + "_mean")[|v| + 1] == 'm' && (v + "_zero")[|v| + 1] == 'z';
  }

  /**
   * `impute_na(data, variable, mean_value, median_value)`: a copy with three
   * added columns `<variable>_mean`, `<variable>_median` and `<variable>_zero`,
   * each the variable's column with its missing cells filled by the mean, the
   * median and zero. Every other column and the labels stay as they were.
   */
  function ImputeNa(t: Table, variable: string, mean: Option<real>, median: Option<real>): (r: Result<Table, Error>)
    ensures r.Failure? <==> NumericColumn(t, variable).None?
    ensures r.Failure? ==> r.error == if variable in t.Names() then TypeError else KeyError(variable)
    ensures r.Success? ==>
      var xs := NumericColumn(t, variable).value;
      && r.value.index == t.index
      && Lookup(r.value, variable + "_mean") == Some(Numeric(FillNa(xs, mean)))
      && Lookup(r.value, variable + "_median") == Some(Numeric(FillNa(xs, median)))
      && Lookup(r.value, variable + "_zero") == Some(Numeric(FillNa(xs, Some(0.0))))
      && Lookup(r.value, variable) == Lookup(t, variable)
      && (forall n :: n != variable + "_mean" && n != variable + "_median" && n != variable + "_zero" ==>
            Lookup(r.value, n) == Lookup(t, n))
      && (forall n :: n in r.value.Names() <==>
            n in t.Names() || n == variable + "_mean" || n == variable + "_median" || n == variable + "_zero")
      && (t.Valid() ==> r.value.Valid())
  {
    match NumericColumn(t, variable)
    case None => if variable in t.Names() then Failure(TypeError) else Failure(KeyError(variable))
    case Some(xs) =>
      SuffixesDiffer(variable);
      assert t.Valid() ==> |xs| == t.Rows() by {
        if t.Valid() {
          LookupAt(t, Find(t.Names(), variable).value);
        }
      }
      var t1 := SetColumn(t, variable + "_mean", Numeric(FillNa(xs, mean)));
      var t2 := SetColumn(t1, variable + "_median", Numeric(FillNa(xs, median)));
      var t3 := SetColumn(t2, variable + "_zero", Numeric(FillNa(xs, Some(0.0))));
      NamesAfterSet(t, variable + "_mean", Numeric(FillNa(xs, mean)));
      NamesAfterSet(t1, variable + "_median", Numeric(FillNa(xs, median)));
      NamesAfterSet(t2, variable + "_zero", Numeric(FillNa(xs, Some(0.0))));
      Success(t3)
  }

  lemma NamesAfterSet(t: Table, name: string, cells: Cells)
    ensures forall n :: n in SetColumn(t, name, cells).Names() <==> n in t.Names() || n == name
  {
  }

  // ----- impute_total_charges -----

  /** `xs.fillna(ys)` with both columns on the same index: a missing cell takes the same row's value. */
  function FillFrom(xs: seq<Option<real>>, ys: seq<Option<real>>): (r: seq<Option<real>>)
    requires |ys| == |xs|
    ensures |r| == |xs|
    ensures forall i :: 0 <= i < |xs| ==> (xs[i].Some? ==> r[i] == xs[i]) && (xs[i].None? ==> r[i] == ys[i])
    ensures forall i :: 0 <= i < |xs| ==> (r[i].None? <==> xs[i].None? && ys[i].None?)
  {
    seq(|xs|, i requires 0 <= i < |xs| => if xs[i].Some? then xs[i] else ys[i])
  }

  /**
   * The table `impute_total_charges` leaves behind: TotalCharges with each
   * missing cell taken from the same row's MonthlyCharges, everything else as
   * it was. A missing column raises KeyError (TotalCharges is looked up first).
   */
  function FillTotalCharges(t: Table): (r: Result<Table, Error>)
    requires t.Valid()
    ensures Lookup(t, "TotalCharges").None? ==> r == Failure(KeyError("TotalCharges"))
    ensures Lookup(t, "TotalCharges").Some? && Lookup(t, "MonthlyCharges").None? ==> r == Failure(KeyError("MonthlyCharges"))
    ensures r.Failure? <==> NumericColumn(t, "TotalCharges").None? || NumericColumn(t, "MonthlyCharges").None?
    ensures r.Success? ==> NumericColumn(r.value, "TotalCharges").Some?
    ensures r.Success? ==>
      var total, monthly := NumericColumn(t, "TotalCharges").value, NumericColumn(t, "MonthlyCharges").value;
      var after := NumericColumn(r.value, "TotalCharges").value;
      && r.value.Valid()
      && r.value.index == t.index && r.value.Names() == t.Names() && r.value.Kinds() == t.Kinds()
      && |after| == |total| == |monthly| == t.Rows()
      && (forall i :: 0 <= i < |total| ==> total[i].Some? ==> after[i] == total[i])
      && (forall i :: 0 <= i < |total| ==> total[i].None? ==> after[i] == monthly[i])
      && (forall n :: n != "TotalCharges" ==> Lookup(r.value, n) == Lookup(t, n))
  {
    match Lookup(t, "TotalCharges")
    case None => Failure(KeyError("TotalCharges"))
    case Some(total) =>
      match Lookup(t, "MonthlyCharges")
      case None => Failure(KeyError("MonthlyCharges"))
      case Some(monthly) =>
        if total.Categorical? || monthly.Categorical? then Failure(TypeError)
        else
          var cells := Numeric(FillFrom(total.nums, monthly.nums));
          KindPreserved(t, "TotalCharges", cells);
          var r := SetColumn(t, "TotalCharges", cells);
          assert r.Names() == t.Names();
          Success(r)
  }

  /**
   * `impute_total_charges(data)`: overwrites TotalCharges of the caller's
   * table in place and returns that same table. On an error the table is left
   * as it was.
   */
  method ImputeTotalCharges(data: DataFrame) returns (r: Result<DataFrame, Error>)
    requires data.Snapshot().Valid()
    modifies data
    ensures r.Success? <==> FillTotalCharges(old(data.Snapshot())).Success?
    ensures r.Failure? ==> r.error == FillTotalCharges(old(data.Snapshot())).error
    ensures r.Failure? ==> data.Snapshot() == old(data.Snapshot())
    ensures r.Success? ==> r.value == data && data.Snapshot() == FillTotalCharges(old(data.Snapshot())).value
  {
    var t := data.Snapshot();
    var total := Lookup(t, "TotalCharges");
    if total.None? {
      return Failure(KeyError("TotalCharges"));
    }
    var monthly := Lookup(t, "MonthlyCharges");
    if monthly.None? {
      return Failure(KeyError("MonthlyCharges"));
    }
    if total.value.Categorical? || monthly.value.Categorical? {
      return Failure(TypeError);
    }
    data.SetItem("TotalCharges", Numeric(FillFrom(total.value.nums, monthly.value.nums)));
    return Success(data);
  }

  // ----- impute_no_phone_internet -----

  /** `data.replace(from, to)` on one column's cells. */
  function ReplaceCells(c: Cells, from: string, to: string): (r: Cells)
    ensures r.Length() == c.Length() && r.Numeric? == c.Numeric?
  {
    match c
    case Numeric(_) => c
    case Categorical(xs) => Categorical(seq(|xs|, i requires 0 <= i < |xs| => if xs[i] == Some(from) then Some(to) else xs[i]))
  }

  /** `data.replace(from, to)` on the whole table. */
  function ReplaceValue(t: Table, from: string, to: string): (r: Table)
    ensures r.index == t.index && r.Names() == t.Names() && r.Kinds() == t.Kinds()
    ensures t.Valid() ==> r.Valid()
  {
    var r := Table(t.index, seq(|t.columns|, j requires 0 <= j < |t.columns| =>
      Column(t.columns[j].name, ReplaceCells(t.columns[j].cells, from, to))));
    assert r.Names() == t.Names();
    r
  }

  /** `impute_no_phone_internet(data)`. */
  function ImputeNoPhoneInternet(t: Table): (r: Table)
    ensures r.index == t.index && r.Names() == t.Names() && r.Kinds() == t.Kinds()
    ensures t.Valid() ==> r.Valid()
  {
    ReplaceValue(ReplaceValue(t, "No internet service", "No"), "No phone service", "No")
  }

  /** The cell-level effect: both placeholders become "No", every other cell stays. */
  function Collapse(x: Option<string>): Option<string> {
    if x == Some("No internet service") || x == Some("No phone service") then Some("No") else x
  }

  /**
   * `impute_no_phone_internet` acts cell by cell through Collapse: numeric
   * columns are untouched, labels, names and kinds are kept, and no cell equal
   * to either placeholder is left.
   */
  lemma NoPhoneInternetCells(t: Table)
    ensures var r := ImputeNoPhoneInternet(t);
      && r.index == t.index && r.Names() == t.Names() && r.Kinds() == t.Kinds()
      && (t.Valid() ==> r.Valid())
      && |r.columns| == |t.columns|
      && (forall j :: 0 <= j < |t.columns| && t.columns[j].cells.Numeric? ==> r.columns[j] == t.columns[j])
      && (forall j :: 0 <= j < |t.columns| && t.columns[j].cells.Categorical? ==>
            && r.columns[j].cells.Categorical?
            && |r.columns[j].cells.strs| == |t.columns[j].cells.strs|
            && forall i :: 0 <= i < |t.columns[j].cells.strs| ==>
                 && r.columns[j].cells.strs[i] == Collapse(t.columns[j].cells.strs[i])
                 && r.columns[j].cells.strs[i] != Some("No internet service")
                 && r.columns[j].cells.strs[i] != Some("No phone service"))
  {
    var r := ImputeNoPhoneInternet(t);
    forall j | 0 <= j < |t.columns| && t.columns[j].cells.Numeric? ensures r.columns[j] == t.columns[j] {
      assert r.columns[j].name == t.columns[j].name;
    }
  }

  /** Applying `impute_no_phone_internet` twice gives what applying it once gives. */
  lemma NoPhoneInternetIdempotent(t: Table)
    ensures ImputeNoPhoneInternet(ImputeNoPhoneInternet(t)) == ImputeNoPhoneInternet(t)
  {
    var once := ImputeNoPhoneInternet(t);
    var twice := ImputeNoPhoneInternet(once);
    NoPhoneInternetCells(t);
    NoPhoneInternetCells(once);
    forall j | 0 <= j < |once.columns| ensures twice.columns[j] == once.columns[j] {
      assert twice.Names()[j] == once.Names()[j];
      if once.columns[j].cells.Categorical? {
        assert twice.columns[j].cells.strs == once.columns[j].cells.strs;
      }
    }
    assert twice.columns == once.columns;
  }
}
