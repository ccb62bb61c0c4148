/**
 * The part of a pandas DataFrame that the data-preparation helpers rely on:
 * a row index and named columns of equal length whose cells may be missing
 * (NaN), together with the column-wise counts pandas computes for them
 * (`isna().sum()`, `nunique()`, `col == value`, `col > bound`).
 */
module Frames {

  datatype Option<+T> = None | Some(value: T)

  datatype Result<+R, +E> = Success(value: R) | Failure(error: E)

  /** The Python exceptions the helpers raise or let pandas raise. */
  datatype Error =
    | ValueError
    | KeyError(key: string)
    | TypeError
    | ZeroDivisionError

  /** The cells of one column; `None` is a missing cell (NaN). */
  datatype Cells =
    | Numeric(nums: seq<Option<real>>)
    | Categorical(strs: seq<Option<string>>)
  {
    function Length(): nat {
      match this
      case Numeric(xs) => |xs|
      case Categorical(ss) => |ss|
    }
  }

  datatype Column = Column(name: string, cells: Cells)

  datatype Table = Table(index: seq<int>, columns: seq<Column>)
  {
    function Rows(): nat { |index| }

    function Names(): (ns: seq<string>)
      ensures |ns| == |columns|
      ensures forall j :: 0 <= j < |columns| ==> ns[j] == columns[j].name
    {
      seq(|columns|, j requires 0 <= j < |columns| => columns[j].name)
    }

    /** Whether each column is numeric, in column order (the dtype tags). */
    function Kinds(): (ks: seq<bool>)
      ensures |ks| == |columns|
      ensures forall j :: 0 <= j < |columns| ==> ks[j] == columns[j].cells.Numeric?
    {
      seq(|columns|, j requires 0 <= j < |columns| => columns[j].cells.Numeric?)
    }

    /** Every column spans every row and no two columns share a name. */
    ghost predicate Valid() {
      && (forall j :: 0 <= j < |columns| ==> columns[j].cells.Length() == |index|)
      && Distinct(Names())
    }
  }

  ghost predicate Distinct<T>(xs: seq<T>) {
    forall i, j :: 0 <= i < j < |xs| ==> xs[i] != xs[j]
  }

  /** The set of row labels of a table. */
  function LabelSet(t: Table): set<int> {
    set i | i in t.index
  }

  /** Position of the first column called `name`, as `data[name]` finds it. */
  function Find(names: seq<string>, name: string): (r: Option<nat>)
    ensures r.None? <==> name !in names
    ensures r.Some? ==> r.value < |names| && names[r.value] == name
    ensures r.Some? ==> forall j :: 0 <= j < r.value ==> names[j] != name
  {
    if names == [] then None
    else if names[0] == name then Some(0)
    else match Find(names[1..], name)
      case None => None
      case Some(j) => Some(j + 1)
  }

  lemma FindUnique(names: seq<string>, j: nat)
    requires Distinct(names) && j < |names|
    ensures Find(names, names[j]) == Some(j)
  {
  }

  lemma FindAppend(names: seq<string>, name: string, n: string)
    requires n != name
    ensures Find(names + [name], n) == Find(names, n)
  {
    var r, s := Find(names + [name], n), Find(names, n);
    if s.Some? {
      assert (names + [name])[s.value] == n;
      assert r.value <= s.value;
      assert names[r.value] == (names + [name])[r.value];
    } else {
      assert n !in names + [name];
    }
  }

  /** `data[name]`: the cells of the column called `name`, if there is one. */
  function Lookup(t: Table, name: string): (c: Option<Cells>)
    ensures c.None? <==> name !in t.Names()
    ensures t.Valid() && c.Some? ==> c.value.Length() == t.Rows()
  {
    match Find(t.Names(), name)
    case None => None
    case Some(j) => Some(t.columns[j].cells)
  }

  lemma LookupAt(t: Table, j: nat)
    requires t.Valid() && j < |t.columns|
    ensures Lookup(t, t.columns[j].name) == Some(t.columns[j].cells)
  {
    FindUnique(t.Names(), j);
  }

  /** The numeric cells of the column called `name`, if it exists and is numeric. */
  function NumericColumn(t: Table, name: string): (xs: Option<seq<Option<real>>>)
    ensures xs.Some? <==> Lookup(t, name).Some? && Lookup(t, name).value.Numeric?
    ensures t.Valid() && xs.Some? ==> |xs.value| == t.Rows()
  {
    match Lookup(t, name)
    case Some(Numeric(xs)) => Some(xs)
    case _ => None
  }

  /** `data[name] = cells`: overwrite the column in place, or append it when new. */
  function SetColumn(t: Table, name: string, cells: Cells): (r: Table)
    ensures r.index == t.index
    ensures Lookup(r, name) == Some(cells)
    ensures forall n :: n != name ==> Lookup(r, n) == Lookup(t, n)
    ensures name in t.Names() ==> r.Names() == t.Names()
    ensures name !in t.Names() ==> r.Names() == t.Names() + [name]
    ensures t.Valid() && cells.Length() == t.Rows() ==> r.Valid()
  {
    match Find(t.Names(), name)
    case Some(j) =>
      var r := Table(t.index, t.columns[j := Column(name, cells)]);
      assert r.Names() == t.Names();
      r
    case None =>
      var r := Table(t.index, t.columns + [Column(name, cells)]);
      assert r.Names() == t.Names() + [name];
      forall n | n != name ensures Lookup(r, n) == Lookup(t, n) {
        FindAppend(t.Names(), name, n);
      }
      r
  }

  /** The rows at the given positions, in the given order. */
  function Pick<T>(xs: seq<T>, rows: seq<nat>): (r: seq<T>)
    requires forall k :: 0 <= k < |rows| ==> rows[k] < |xs|
    ensures |r| == |rows|
    ensures forall k :: 0 <= k < |rows| ==> r[k] == xs[rows[k]]
  {
    seq(|rows|, k requires 0 <= k < |rows| => xs[rows[k]])
  }

  function PickCells(c: Cells, rows: seq<nat>): (r: Cells)
    requires forall k :: 0 <= k < |rows| ==> rows[k] < c.Length()
    ensures r.Length() == |rows| && r.Numeric? == c.Numeric?
  {
    match c
    case Numeric(xs) =>
      assert c.Length() == |xs|;
      Numeric(Pick(xs, rows))
    case Categorical(ss) =>
      assert c.Length() == |ss|;
      Categorical(Pick(ss, rows))
  }

  /** The table restricted to the rows at the given positions (`data.loc[...]`). */
  function SelectRows(t: Table, rows: seq<nat>): (r: Table)
    requires t.Valid()
    requires forall k :: 0 <= k < |rows| ==> rows[k] < |t.index|
    ensures r.Valid() && r.Rows() == |rows|
    ensures r.Names() == t.Names() && r.Kinds() == t.Kinds()
    ensures r.index == Pick(t.index, rows)
    ensures forall n :: NumericColumn(t, n).Some? ==>
      NumericColumn(r, n) == Some(Pick(NumericColumn(t, n).value, rows))
    ensures forall n :: NumericColumn(t, n).None? ==> NumericColumn(r, n).None?
    ensures forall n :: Lookup(t, n).Some? ==> Lookup(r, n) == Some(PickCells(Lookup(t, n).value, rows))
  {
    var r := Table(Pick(t.index, rows),
      seq(|t.columns|, j requires 0 <= j < |t.columns| =>
        Column(t.columns[j].name, PickCells(t.columns[j].cells, rows))));
    assert r.Names() == t.Names();
    assert r.Kinds() == t.Kinds();
    r
  }

  /** The positions 0, 1, ..., n - 1: selecting them keeps every row. */
  function Identity(n: nat): (rows: seq<nat>)
    ensures |rows| == n && forall k :: 0 <= k < n ==> rows[k] == k
  {
    seq(n, k requires 0 <= k < n => k)
  }

  lemma PickIdentity(c: Cells)
    ensures PickCells(c, Identity(c.Length())) == c
  {
    match c
    case Numeric(xs) => assert Pick(xs, Identity(|xs|)) == xs;
    case Categorical(ss) => assert Pick(ss, Identity(|ss|)) == ss;
  }

  /** Selecting `b` from a selection `a` is selecting `Pick(a, b)` from the original. */
  lemma PickPick<T>(xs: seq<T>, a: seq<nat>, b: seq<nat>)
    requires forall k :: 0 <= k < |a| ==> a[k] < |xs|
    requires forall k :: 0 <= k < |b| ==> b[k] < |a|
    ensures Pick(Pick(xs, a), b) == Pick(xs, Pick(a, b))
  {
  }

  lemma PickCellsPick(c: Cells, a: seq<nat>, b: seq<nat>)
    requires forall k :: 0 <= k < |a| ==> a[k] < c.Length()
    requires forall k :: 0 <= k < |b| ==> b[k] < |a|
    ensures PickCells(PickCells(c, a), b) == PickCells(c, Pick(a, b))
  {
    match c
    case Numeric(xs) => PickPick(xs, a, b);
    case Categorical(ss) => PickPick(ss, a, b);
  }

  // ----- column-wise counts -----

  /** `isna().sum()`: the number of missing cells. */
  function CountMissing<T>(xs: seq<Option<T>>): (n: nat)
    ensures n <= |xs|
  {
    if xs == [] then 0
    else CountMissing(xs[..|xs| - 1]) + (if xs[|xs| - 1].None? then 1 else 0)
  }

  /** `len(data[data[col] == k])`: the number of cells equal to `k`. */
  function CountEqual<T(==)>(xs: seq<Option<T>>, k: T): (n: nat)
    ensures n <= |xs|
  {
    if xs == [] then 0
    else CountEqual(xs[..|xs| - 1], k) + (if xs[|xs| - 1] == Some(k) then 1 else 0)
  }

  /** `len(data[data[col] > u])`: the number of cells strictly above `u`. */
  function CountAbove(xs: seq<Option<real>>, u: real): (n: nat)
    ensures n <= |xs|
  {
    if xs == [] then 0
    else CountAbove(xs[..|xs| - 1], u) + (if xs[|xs| - 1].Some? && xs[|xs| - 1].value > u then 1 else 0)
  }

  /** `len(data[data[col] < l])`: the number of cells strictly below `l`. */
  function CountBelow(xs: seq<Option<real>>, l: real): (n: nat)
    ensures n <= |xs|
  {
    if xs == [] then 0
    else CountBelow(xs[..|xs| - 1], l) + (if xs[|xs| - 1].Some? && xs[|xs| - 1].value < l then 1 else 0)
  }

  /** `unique()` without NaN: the distinct present values; `nunique()` is its size. */
  function Values<T(==)>(xs: seq<Option<T>>): (vs: set<T>)
    ensures |vs| <= |xs|
  {
    if xs == [] then {}
    else
      var init := Values(xs[..|xs| - 1]);
      match xs[|xs| - 1]
      case None => init
      case Some(v) => init + {v}
  }

  /** The cells strictly above `u` are exactly the indices counted by CountAbove. */
  lemma {:induction false} CountAboveIsCardinality(xs: seq<Option<real>>, u: real)
    ensures CountAbove(xs, u) == |set i | 0 <= i < |xs| && xs[i].Some? && xs[i].value > u|
  {
    if xs != [] {
      var n := |xs| - 1;
      CountAboveIsCardinality(xs[..n], u);
      var before := set i | 0 <= i < n && xs[..n][i].Some? && xs[..n][i].value > u;
      var all := set i | 0 <= i < |xs| && xs[i].Some? && xs[i].value > u;
      if xs[n].Some? && xs[n].value > u {
        assert all == before + {n};
      } else {
        assert all == before;
      }
    }
  }

  /** The cells strictly below `l` are exactly the indices counted by CountBelow. */
  lemma {:induction false} CountBelowIsCardinality(xs: seq<Option<real>>, l: real)
    ensures CountBelow(xs, l) == |set i | 0 <= i < |xs| && xs[i].Some? && xs[i].value < l|
  {
    if xs != [] {
      var n := |xs| - 1;
      CountBelowIsCardinality(xs[..n], l);
      var before := set i | 0 <= i < n && xs[..n][i].Some? && xs[..n][i].value < l;
      var all := set i | 0 <= i < |xs| && xs[i].Some? && xs[i].value < l;
      if xs[n].Some? && xs[n].value < l {
        assert all == before + {n};
      } else {
        assert all == before;
      }
    }
  }

  /** A cell cannot lie both above `upper` and below `lower` when lower <= upper. */
  lemma {:induction false} TailsDisjoint(xs: seq<Option<real>>, upper: real, lower: real)
    requires lower <= upper
    ensures CountAbove(xs, upper) + CountBelow(xs, lower) <= |xs|
  {
    if xs != [] {
      TailsDisjoint(xs[..|xs| - 1], upper, lower);
    }
  }

  lemma {:induction false} CountMissingZero<T>(xs: seq<Option<T>>)
    ensures CountMissing(xs) == 0 <==> forall i :: 0 <= i < |xs| ==> xs[i].Some?
  {
    if xs != [] {
      var n := |xs| - 1;
      CountMissingZero(xs[..n]);
      assert forall i :: 0 <= i < n ==> xs[..n][i] == xs[i];
    }
  }

  lemma {:induction false} ValuesMembership<T>(xs: seq<Option<T>>, v: T)
    ensures v in Values(xs) <==> exists i :: 0 <= i < |xs| && xs[i] == Some(v)
  {
    if xs != [] {
      var n := |xs| - 1;
      ValuesMembership(xs[..n], v);
      if v in Values(xs[..n]) {
        var i :| 0 <= i < n && xs[..n][i] == Some(v);
        assert xs[i] == Some(v);
      }
      if exists i :: 0 <= i < |xs| && xs[i] == Some(v) {
        var i :| 0 <= i < |xs| && xs[i] == Some(v);
        if i < n {
          assert xs[..n][i] == Some(v);
        }
      }
    }
  }

  /** A value that `unique()` does not list is matched by no cell. */
  lemma {:induction false} CountEqualAbsent<T>(xs: seq<Option<T>>, k: T)
    requires k !in Values(xs)
    ensures CountEqual(xs, k) == 0
  {
    if xs != [] {
      var n := |xs| - 1;
      assert k !in Values(xs[..n]);
      CountEqualAbsent(xs[..n], k);
    }
  }

  /** `count / len(data) * 100`. */
  function Percent(count: nat, rows: nat): (p: real)
    requires rows > 0
    ensures p >= 0.0
    ensures p == 0.0 <==> count == 0
    ensures count <= rows ==> p <= 100.0
  {
    PercentBounds(count, rows);
    count as real / rows as real * 100.0
  }

  lemma PercentBounds(count: nat, rows: nat)
    requires rows > 0
    ensures count as real / rows as real >= 0.0
    ensures count as real / rows as real == 0.0 <==> count == 0
    ensures count <= rows ==> count as real / rows as real <= 1.0
  {
    var q := count as real / rows as real;
    assert q * rows as real == count as real;
    if count <= rows && q > 1.0 {
      assert q * rows as real > rows as real;
    }
  }

  /** Percentages of disjoint counts add up. */
  lemma PercentAdds(a: nat, b: nat, rows: nat)
    requires rows > 0
    ensures Percent(a, rows) + Percent(b, rows) == Percent(a + b, rows)
  {
    var r := rows as real;
    assert (a as real) / r + (b as real) / r == (a as real + b as real) / r;
  }

  /**
   * A pandas DataFrame object, which a caller can hand to a helper that
   * updates it in place (`data[name] = ...`).
   */
  class DataFrame {
    var index: seq<int>
    var columns: seq<Column>

    function Snapshot(): Table
      reads this
    {
      Table(index, columns)
    }

    constructor (t: Table)
      ensures Snapshot() == t
    {
      index := t.index;
      columns := t.columns;
    }

    /** `data[name] = cells`. */
    method SetItem(name: string, cells: Cells)
      modifies this
      ensures Snapshot() == SetColumn(old(Snapshot()), name, cells)
    {
      var t := SetColumn(Table(index, columns), name, cells);
      index, columns := t.index, t.columns;
    }
  }
}
