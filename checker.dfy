/**
 * The data-quality checkers: distinct values per column, missing cells per
 * column, and cells equal to placeholder keywords per column.
 */
module Checker {
  import opened Frames

  // ----- check_unique -----

  /** Whether `select_dtypes(include=col_type)` keeps a column of the given kind. */
  predicate Selects(colType: string, numeric: bool) {
    || colType == "both"
    || (colType == "number" && numeric)
    || (colType == "object" && !numeric)
  }

  /** `data.select_dtypes(include=col_type).columns`, in column order. */
  function SelectDtypes(cols: seq<Column>, colType: string): (r: seq<Column>)
    ensures |r| <= |cols|
    ensures forall c :: c in r <==> c in cols && Selects(colType, c.cells.Numeric?)
    ensures colType == "both" ==> r == cols
  {
    if cols == [] then []
    else
      (if Selects(colType, cols[0].cells.Numeric?) then [cols[0]] else [])
      + SelectDtypes(cols[1..], colType)
  }

  /** One column is kept exactly when its kind is selected. */
  lemma SelectDtypesOne(c: Column, colType: string)
    ensures SelectDtypes([c], colType) == if Selects(colType, c.cells.Numeric?) then [c] else []
  {
    assert [c][1..] == [];
  }

  /** Selecting from two runs of columns selects from the first, then from the second. */
  lemma {:induction false} SelectDtypesConcat(a: seq<Column>, b: seq<Column>, colType: string)
    ensures SelectDtypes(a + b, colType) == SelectDtypes(a, colType) + SelectDtypes(b, colType)
  {
    if a == [] {
      assert a + b == b;
    } else {
      assert (a + b)[0] == a[0] && (a + b)[1..] == a[1..] + b;
      SelectDtypesConcat(a[1..], b, colType);
    }
  }

  /** `nunique()`: the number of distinct present values. */
  function NUnique(c: Cells): (n: nat)
    ensures n <= c.Length()
  {
    match c
    case Numeric(xs) => |Values(xs)|
    case Categorical(ss) => |Values(ss)|
  }

  datatype UniqueRecord = UniqueRecord(feat: string, numUnique: nat, pctUnique: Option<real>)

  /**
   * `check_unique(data, col_type)`: ValueError for an unknown column type;
   * otherwise one record per selected column, in column order, with the
   * number of distinct present values and its share of the rows (NaN, here
   * `None`, when the table has no rows).
   */
  function CheckUnique(t: Table, colType: string): (r: Result<seq<UniqueRecord>, Error>)
    ensures r.Failure? <==> colType != "number" && colType != "object" && colType != "both"
    ensures r.Failure? ==> r.error == ValueError
    ensures r.Success? ==>
      var sel := SelectDtypes(t.columns, colType);
      && |r.value| == |sel|
      && forall i :: 0 <= i < |sel| ==>
        && r.value[i].feat == sel[i].name
        && r.value[i].numUnique == NUnique(sel[i].cells)
        && (r.value[i].pctUnique.None? <==> t.Rows() == 0)
        && (r.value[i].pctUnique.Some? ==>
              && r.value[i].pctUnique.value == Percent(r.value[i].numUnique, t.Rows())
              && r.value[i].pctUnique.value >= 0.0
              && (t.Valid() ==> r.value[i].numUnique <= t.Rows() && r.value[i].pctUnique.value <= 100.0))
  {
    if colType != "number" && colType != "object" && colType != "both" then Failure(ValueError)
    else
      var sel := SelectDtypes(t.columns, colType);
      assert t.Valid() ==> forall i :: 0 <= i < |sel| ==> sel[i].cells.Length() == t.Rows() by {
        if t.Valid() {
          forall i | 0 <= i < |sel| ensures sel[i].cells.Length() == t.Rows() {
            assert sel[i] in t.columns;
          }
        }
      }
      Success(seq(|sel|, i requires 0 <= i < |sel| =>
        var n := NUnique(sel[i].cells);
        UniqueRecord(sel[i].name, n, if t.Rows() == 0 then None else Some(Percent(n, t.Rows())))))
  }

  /** `nunique()` counts exactly the values some present cell holds. */
  lemma NUniqueMeaning(xs: seq<Option<string>>, v: string)
    ensures NUnique(Categorical(xs)) == |Values(xs)|
    ensures v in Values(xs) <==> exists i :: 0 <= i < |xs| && xs[i] == Some(v)
  {
    ValuesMembership(xs, v);
  }

  // ----- check_missing -----

  /** A (feature, count) row of an intermediate Series. */
  datatype Tally = Tally(feat: string, count: nat)

  /** `isna().sum()` of one column. */
  function MissingCount(c: Cells): (n: nat)
    ensures n <= c.Length()
  {
    match c
    case Numeric(xs) => CountMissing(xs)
    case Categorical(ss) => CountMissing(ss)
  }

  /** A column's missing count is zero exactly when none of its cells is missing. */
  lemma MissingCountZero(c: Cells)
    ensures MissingCount(c) == 0 <==> match c
      case Numeric(xs) => forall i :: 0 <= i < |xs| ==> xs[i].Some?
      case Categorical(ss) => forall i :: 0 <= i < |ss| ==> ss[i].Some?
  {
    match c
    case Numeric(xs) => CountMissingZero(xs);
    case Categorical(ss) => CountMissingZero(ss);
  }

  /** `data.isna().sum()`, one tally per column in column order. */
  function MissingCounts(t: Table): (r: seq<Tally>)
    ensures |r| == |t.columns|
    ensures forall j :: 0 <= j < |t.columns| ==> r[j] == Tally(t.columns[j].name, MissingCount(t.columns[j].cells))
    ensures t.Valid() ==> forall j :: 0 <= j < |r| ==> r[j].count <= t.Rows()
  {
    seq(|t.columns|, j requires 0 <= j < |t.columns| => Tally(t.columns[j].name, MissingCount(t.columns[j].cells)))
  }

  predicate SortedDesc(s: seq<Tally>) {
    forall i, j :: 0 <= i < j < |s| ==> s[i].count >= s[j].count
  }

  function Insert(x: Tally, s: seq<Tally>): (r: seq<Tally>)
    requires SortedDesc(s)
    ensures SortedDesc(r)
    ensures multiset(r) == multiset(s) + multiset{x}
  {
    if s == [] then [x]
    else if x.count >= s[0].count then [x] + s
    else
      var rest := Insert(x, s[1..]);
      assert s == [s[0]] + s[1..];
      forall i | 0 <= i < |rest| ensures rest[i].count <= s[0].count {
        HeadBounds(s, x, rest, i);
      }
      PrependSorted(s[0], rest);
      [s[0]] + rest
  }

  /** An entry of `Insert(x, s[1..])` is `x` or an entry of the tail, so the head of `s` bounds it. */
  lemma HeadBounds(s: seq<Tally>, x: Tally, rest: seq<Tally>, i: nat)
    requires SortedDesc(s) && |s| > 0 && x.count < s[0].count
    requires multiset(rest) == multiset(s[1..]) + multiset{x} && i < |rest|
    ensures rest[i].count <= s[0].count
  {
    assert rest[i] in multiset(rest);
    if rest[i] != x {
      assert rest[i] in multiset(s[1..]);
      var k :| 0 <= k < |s[1..]| && s[1..][k] == rest[i];
      assert s[k + 1] == rest[i];
    }
  }

  /** A head no smaller than every entry of a sorted sequence keeps it sorted. */
  lemma PrependSorted(h: Tally, rest: seq<Tally>)
    requires SortedDesc(rest)
    requires forall i :: 0 <= i < |rest| ==> rest[i].count <= h.count
    ensures SortedDesc([h] + rest)
  {
    var s := [h] + rest;
    forall i, j | 0 <= i < j < |s| ensures s[i].count >= s[j].count {
      if i > 0 {
        assert s[i] == rest[i - 1] && s[j] == rest[j - 1];
      } else {
        assert s[j] == rest[j - 1];
      }
    }
  }

  /** `sort_values(ascending=False)`: counts in non-increasing order, the same tallies. */
  function SortDescending(xs: seq<Tally>): (r: seq<Tally>)
    ensures SortedDesc(r)
    ensures multiset(r) == multiset(xs)
  {
    if xs == [] then []
    else
      var n := |xs| - 1;
      assert xs == xs[..n] + [xs[n]];
      Insert(xs[n], SortDescending(xs[..n]))
  }

  /** `data_missing[data_missing['tot_missing'] > 0]`. */
  function Positive(s: seq<Tally>): (r: seq<Tally>)
    ensures forall i :: 0 <= i < |r| ==> r[i].count > 0 && r[i] in s
    ensures SortedDesc(s) ==> SortedDesc(r)
  {
    if s == [] then []
    else
      var rest := Positive(s[1..]);
      assert forall i :: 0 <= i < |rest| ==> rest[i] in s by {
        forall i | 0 <= i < |rest| ensures rest[i] in s {
          assert rest[i] in s[1..];
        }
      }
      (if s[0].count > 0 then [s[0]] else []) + rest
  }

  /** The filter keeps every tally with a positive count as often as it occurs, and no other. */
  lemma {:induction false} PositiveMultiset(s: seq<Tally>, x: Tally)
    ensures multiset(Positive(s))[x] == if x.count > 0 then multiset(s)[x] else 0
  {
    if s != [] {
      PositiveMultiset(s[1..], x);
      assert s == [s[0]] + s[1..];
    }
  }

  datatype MissingRecord = MissingRecord(feat: string, count: nat, pct: real)

  function Tallies(r: seq<MissingRecord>): (s: seq<Tally>)
    ensures |s| == |r| && forall i :: 0 <= i < |r| ==> s[i] == Tally(r[i].feat, r[i].count)
  {
    seq(|r|, i requires 0 <= i < |r| => Tally(r[i].feat, r[i].count))
  }

  /** The records of `check_missing`: each tally with its share of the rows. */
  function WithPercent(kept: seq<Tally>, rows: nat): (r: seq<MissingRecord>)
    requires forall i :: 0 <= i < |kept| ==> 0 < kept[i].count <= rows
    ensures Tallies(r) == kept
    ensures forall i :: 0 <= i < |r| ==> r[i].count == kept[i].count
    ensures forall i :: 0 <= i < |r| ==> r[i].pct == Percent(r[i].count, rows) && 0.0 < r[i].pct <= 100.0
  {
    var r := seq(|kept|, i requires 0 <= i < |kept| => MissingRecord(kept[i].feat, kept[i].count, Percent(kept[i].count, rows)));
    assert Tallies(r) == kept;
    r
  }

  /** The tallies `check_missing` reports: positive counts, sorted from most to fewest. */
  function ReportedTallies(t: Table): (kept: seq<Tally>)
    requires t.Valid()
    ensures forall i :: 0 <= i < |kept| ==> 0 < kept[i].count <= t.Rows()
    ensures SortedDesc(kept)
    ensures forall x :: multiset(kept)[x] == if x.count > 0 then multiset(MissingCounts(t))[x] else 0
  {
    var counts := MissingCounts(t);
    var sorted := SortDescending(counts);
    var kept := Positive(sorted);
    forall i | 0 <= i < |kept| ensures kept[i].count <= t.Rows() {
      assert kept[i] in multiset(sorted);
      assert kept[i] in multiset(counts);
    }
    forall x ensures multiset(kept)[x] == if x.count > 0 then multiset(counts)[x] else 0 {
      PositiveMultiset(sorted, x);
    }
    kept
  }

  /**
   * `check_missing(data)`: the columns with at least one missing cell, by
   * missing count from most to fewest, each with its count and its share of
   * the rows. The (feature, count) pairs are exactly the columns' positive
   * tallies.
   */
  function CheckMissing(t: Table): (r: seq<MissingRecord>)
    requires t.Valid()
    ensures forall i :: 0 <= i < |r| ==>
      && 0 < r[i].count <= t.Rows()
      && r[i].pct == Percent(r[i].count, t.Rows())
      && 0.0 < r[i].pct <= 100.0
    ensures forall i, j :: 0 <= i < j < |r| ==> r[i].count >= r[j].count
    ensures forall x :: multiset(Tallies(r))[x] == if x.count > 0 then multiset(MissingCounts(t))[x] else 0
  {
    var kept := ReportedTallies(t);
    WithPercent(kept, t.Rows())
  }

  /** With distinct names, the only tally carrying column `j`'s name is column `j`'s own. */
  lemma OwnTally(counts: seq<Tally>, names: seq<string>, j: nat, y: Tally)
    requires |counts| == |names| && Distinct(names) && j < |names|
    requires forall k :: 0 <= k < |counts| ==> counts[k].feat == names[k]
    requires y in counts && y.feat == names[j]
    ensures y == counts[j]
  {
    var k :| 0 <= k < |counts| && counts[k] == y;
    assert names[k] == names[j];
  }

  /** A tally reported for column `j`'s name is column `j`'s own tally, since names are distinct. */
  lemma ReportedIsOwn(t: Table, j: nat, y: Tally)
    requires t.Valid() && j < |t.columns|
    requires y in multiset(ReportedTallies(t)) && y.feat == t.columns[j].name
    ensures y == MissingCounts(t)[j]
  {
    var counts := MissingCounts(t);
    assert multiset(counts)[y] > 0;
    assert y in counts;
    OwnTally(counts, t.Names(), j, y);
  }

  /** A column is reported by `check_missing` exactly when it has a missing cell, with its count. */
  lemma CheckMissingColumns(t: Table, j: nat)
    requires t.Valid() && j < |t.columns|
    ensures var r := CheckMissing(t);
      && ((exists i :: 0 <= i < |r| && r[i].feat == t.columns[j].name) <==> MissingCount(t.columns[j].cells) > 0)
      && (forall i :: 0 <= i < |r| && r[i].feat == t.columns[j].name ==> r[i].count == MissingCount(t.columns[j].cells))
  {
    var r := CheckMissing(t);
    var kept := ReportedTallies(t);
    assert Tallies(r) == kept;
    var x := MissingCounts(t)[j];
    if x.count > 0 {
      assert multiset(kept)[x] == multiset(MissingCounts(t))[x];
      assert x in kept;
      var i :| 0 <= i < |kept| && kept[i] == x;
      assert r[i].feat == t.columns[j].name;
    }
    forall i | 0 <= i < |r| && r[i].feat == t.columns[j].name
      ensures r[i].count == MissingCount(t.columns[j].cells)
    {
      assert Tallies(r)[i] == kept[i];
      assert kept[i] in multiset(kept);
      ReportedIsOwn(t, j, kept[i]);
    }
    if exists i :: 0 <= i < |r| && r[i].feat == t.columns[j].name {
      var i :| 0 <= i < |r| && r[i].feat == t.columns[j].name;
      assert r[i].count > 0;
    }
  }

  // ----- check_missing_special -----

  /** `missval in data[col].unique()`; a numeric column never holds a keyword string. */
  function InUnique(c: Cells, kw: string): bool {
    c.Categorical? && kw in Values(c.strs)
  }

  /** `len(data[data[col] == kw])`. */
  function KeywordCount(c: Cells, kw: string): (n: nat)
    ensures n <= c.Length()
    ensures !InUnique(c, kw) ==> n == 0
  {
    match c
    case Numeric(_) => 0
    case Categorical(ss) =>
      if kw !in Values(ss) then CountEqualAbsent(ss, kw); CountEqual(ss, kw) else CountEqual(ss, kw)
  }

  /** The sum over the keywords, in order and with repeats, of the cells equal to each. */
  function KeywordTotal(c: Cells, kws: seq<string>): (n: nat)
    ensures (forall k :: 0 <= k < |kws| ==> !InUnique(c, kws[k])) ==> n == 0
    ensures n > 0 ==> c.Categorical? && c.Length() > 0
  {
    if kws == [] then 0
    else KeywordTotal(c, kws[..|kws| - 1]) + KeywordCount(c, kws[|kws| - 1])
  }

  /** Totals add over the keyword list, so a repeated keyword is counted once per occurrence. */
  lemma {:induction false} KeywordTotalConcat(c: Cells, a: seq<string>, b: seq<string>)
    ensures KeywordTotal(c, a + b) == KeywordTotal(c, a) + KeywordTotal(c, b)
  {
    if b == [] {
      assert a + b == a;
    } else {
      var n := |b| - 1;
      KeywordTotalConcat(c, a, b[..n]);
      assert (a + b)[..|a + b| - 1] == a + b[..n];
    }
  }

  /** How many listed keywords a cell equals. */
  function Occurrences(kws: seq<string>, x: Option<string>): nat {
    if kws == [] then 0
    else Occurrences(kws[..|kws| - 1], x) + (if x == Some(kws[|kws| - 1]) then 1 else 0)
  }

  lemma {:induction false} OccurrencesDistinct(kws: seq<string>, x: Option<string>)
    requires Distinct(kws)
    ensures Occurrences(kws, x) <= 1
    ensures x.None? || x.value !in kws ==> Occurrences(kws, x) == 0
  {
    if kws != [] {
      var n := |kws| - 1;
      OccurrencesDistinct(kws[..n], x);
      if x == Some(kws[n]) {
        assert kws[n] !in kws[..n];
      }
    }
  }

  lemma {:induction false} KeywordTotalEmpty(kws: seq<string>)
    ensures KeywordTotal(Categorical([]), kws) == 0
  {
    if kws != [] {
      KeywordTotalEmpty(kws[..|kws| - 1]);
    }
  }

  /** Peeling the last cell off a column removes that cell's keyword matches from the total. */
  lemma {:induction false} KeywordTotalSnoc(xs: seq<Option<string>>, kws: seq<string>)
    requires xs != []
    ensures KeywordTotal(Categorical(xs), kws)
         == KeywordTotal(Categorical(xs[..|xs| - 1]), kws) + Occurrences(kws, xs[|xs| - 1])
  {
    if kws != [] {
      var m := |kws| - 1;
      KeywordTotalSnoc(xs, kws[..m]);
      var k := kws[m];
      var init := xs[..|xs| - 1];
      assert KeywordCount(Categorical(xs), k) == CountEqual(xs, k);
      assert KeywordCount(Categorical(init), k) == CountEqual(init, k);
    }
  }

  /** With distinct keywords, a column's total never exceeds its length. */
  lemma {:induction false} KeywordTotalBound(c: Cells, kws: seq<string>)
    requires Distinct(kws)
    ensures KeywordTotal(c, kws) <= c.Length()
    decreases c.Length()
  {
    match c
    case Numeric(_) => NumericKeywordTotal(c, kws);
    case Categorical(xs) =>
      if xs == [] {
        KeywordTotalEmpty(kws);
      } else {
        var n := |xs| - 1;
        KeywordTotalBound(Categorical(xs[..n]), kws);
        KeywordTotalSnoc(xs, kws);
        OccurrencesDistinct(kws, xs[n]);
      }
  }

  lemma {:induction false} NumericKeywordTotal(c: Cells, kws: seq<string>)
    requires c.Numeric?
    ensures KeywordTotal(c, kws) == 0
  {
    if kws != [] {
      NumericKeywordTotal(c, kws[..|kws| - 1]);
    }
  }

  datatype SpecialRecord = SpecialRecord(feat: string, count: nat, pct: real)

  /** The dictionary the loop of `check_missing_special` fills: one record per column. */
  function AllSpecial(t: Table, kws: seq<string>): (r: seq<SpecialRecord>)
    requires t.Rows() > 0 || |t.columns| == 0
    ensures |r| == |t.columns|
    ensures forall j :: 0 <= j < |r| ==>
      && r[j].feat == t.columns[j].name
      && r[j].count == KeywordTotal(t.columns[j].cells, kws)
      && r[j].pct == Percent(r[j].count, t.Rows())
  {
    seq(|t.columns|, j requires 0 <= j < |t.columns| =>
      var total := KeywordTotal(t.columns[j].cells, kws);
      SpecialRecord(t.columns[j].name, total, Percent(total, t.Rows())))
  }

  /** `missing_values[missing_values['tot_missing'] > 0]`, keeping the order. */
  function NonzeroOnly(s: seq<SpecialRecord>): (r: seq<SpecialRecord>)
    ensures |r| <= |s|
    ensures forall i :: 0 <= i < |r| ==> r[i].count > 0 && r[i] in s
    ensures forall i :: 0 <= i < |s| && s[i].count > 0 ==> s[i] in r
  {
    if s == [] then []
    else
      var rest := NonzeroOnly(s[1..]);
      assert forall i :: 1 <= i < |s| ==> s[i] == s[1..][i - 1];
      (if s[0].count > 0 then [s[0]] else []) + rest
  }

  /** Filtering distributes over concatenation: the kept records keep their relative order. */
  lemma {:induction false} NonzeroOnlyConcat(a: seq<SpecialRecord>, b: seq<SpecialRecord>)
    ensures NonzeroOnly(a + b) == NonzeroOnly(a) + NonzeroOnly(b)
  {
    if a != [] {
      assert (a + b)[1..] == a[1..] + b;
      NonzeroOnlyConcat(a[1..], b);
    } else {
      assert a + b == b;
    }
  }

  /**
   * What `check_missing_special(data, *keywords)` returns: ZeroDivisionError
   * when the table has columns but no rows; otherwise, in column order, the
   * columns whose keyword total is positive, each with its share of the rows.
   */
  function MissingSpecial(t: Table, kws: seq<string>): (r: Result<seq<SpecialRecord>, Error>)
    ensures r.Failure? <==> t.Rows() == 0 && |t.columns| > 0
    ensures r.Failure? ==> r.error == ZeroDivisionError
    ensures r.Success? ==> |r.value| <= |t.columns|
    ensures r.Success? && |r.value| > 0 ==> t.Rows() > 0
  {
    if t.Rows() == 0 && |t.columns| > 0 then Failure(ZeroDivisionError)
    else Success(NonzeroOnly(AllSpecial(t, kws)))
  }

  /**
   * Every reported record belongs to a column: its name, its positive keyword
   * total and that total's share of the rows.
   */
  lemma SpecialRecordsFromColumns(t: Table, kws: seq<string>)
    requires MissingSpecial(t, kws).Success?
    ensures var r := MissingSpecial(t, kws).value;
      forall i :: 0 <= i < |r| ==>
        && r[i].count > 0
        && r[i].pct == Percent(r[i].count, t.Rows())
        && exists j :: 0 <= j < |t.columns| && t.columns[j].name == r[i].feat
                       && r[i].count == KeywordTotal(t.columns[j].cells, kws)
  {
    var all := AllSpecial(t, kws);
    var r := MissingSpecial(t, kws).value;
    assert r == NonzeroOnly(all);
    forall i | 0 <= i < |r|
      ensures r[i].pct == Percent(r[i].count, t.Rows())
      ensures exists j :: 0 <= j < |t.columns| && t.columns[j].name == r[i].feat
                          && r[i].count == KeywordTotal(t.columns[j].cells, kws)
    {
      var j :| 0 <= j < |all| && all[j] == r[i];
    }
  }

  /** Every column whose keyword total is positive is reported, with that total and its share. */
  lemma SpecialColumnsReported(t: Table, kws: seq<string>)
    requires MissingSpecial(t, kws).Success?
    ensures forall j :: 0 <= j < |t.columns| && KeywordTotal(t.columns[j].cells, kws) > 0 ==>
      SpecialRecord(t.columns[j].name, KeywordTotal(t.columns[j].cells, kws),
                    Percent(KeywordTotal(t.columns[j].cells, kws), t.Rows())) in MissingSpecial(t, kws).value
  {
    var all := AllSpecial(t, kws);
    assert MissingSpecial(t, kws).value == NonzeroOnly(all);
    assert forall j :: 0 <= j < |t.columns| && KeywordTotal(t.columns[j].cells, kws) > 0 ==> all[j] in NonzeroOnly(all);
  }

  /** With distinct keywords on a well-formed table, no count exceeds the rows and no share exceeds 100. */
  lemma SpecialBounded(t: Table, kws: seq<string>)
    requires MissingSpecial(t, kws).Success? && t.Valid() && Distinct(kws)
    ensures var r := MissingSpecial(t, kws).value;
      forall i :: 0 <= i < |r| ==> r[i].count <= t.Rows() && r[i].pct <= 100.0
  {
    var all := AllSpecial(t, kws);
    var r := MissingSpecial(t, kws).value;
    assert r == NonzeroOnly(all);
    forall i | 0 <= i < |r| ensures r[i].count <= t.Rows() && r[i].pct <= 100.0 {
      var j :| 0 <= j < |all| && all[j] == r[i];
      KeywordTotalBound(t.columns[j].cells, kws);
    }
  }

  /**
   * `check_missing_special(data, *keywords)`: for each column, sum over the
   * keywords the cells equal to each, skipping a keyword the column does not
   * hold, then keep the columns with a positive total.
   */
  method CheckMissingSpecial(t: Table, keywords: seq<string>) returns (r: Result<seq<SpecialRecord>, Error>)
    ensures r == MissingSpecial(t, keywords)
  {
    var records: seq<SpecialRecord> := [];
    for j := 0 to |t.columns|
      invariant |records| == j
      invariant j > 0 ==> t.Rows() > 0
      invariant forall k :: 0 <= k < j ==>
        records[k] == SpecialRecord(t.columns[k].name, KeywordTotal(t.columns[k].cells, keywords),
                                    Percent(KeywordTotal(t.columns[k].cells, keywords), t.Rows()))
    {
      var col := t.columns[j];
      var total := 0;
      for m := 0 to |keywords|
        invariant total == KeywordTotal(col.cells, keywords[..m])
      {
        assert keywords[..m + 1][..m] == keywords[..m];
        if !InUnique(col.cells, keywords[m]) {
          continue;
        }
        total := total + KeywordCount(col.cells, keywords[m]);
      }
      assert keywords[..|keywords|] == keywords;
      if t.Rows() == 0 {
        return Failure(ZeroDivisionError);
      }
      records := records + [SpecialRecord(col.name, total, Percent(total, t.Rows()))];
    }
    assert records == AllSpecial(t, keywords);
    return Success(NonzeroOnly(records));
  }
}
