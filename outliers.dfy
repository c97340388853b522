/** The IQR outlier filter: for each numeric column in turn, keep the rows
    whose value lies within [Q1 - 1.5 IQR, Q3 + 1.5 IQR], the quartiles being
    computed on the rows that survived the columns before it. */
module Outliers {
  import opened DataFrame
  import opened Sequences
  import opened Statistics

  /** The quartiles of one column and the fences derived from them. */
  datatype Bounds = Bounds(q1: real, q3: real) {
    function Iqr(): real { q3 - q1 }
    function Lower(): real { q1 - 1.5 * Iqr() }
    function Upper(): real { q3 + 1.5 * Iqr() }
  }

  /** The quartiles of column `c` over `rows`; `None` (NaN) when the column
      has no value among them. */
  function ColumnBounds(rows: seq<Row>, c: nat): (b: Option<Bounds>)
    ensures b.Some? <==> ColumnNumbers(rows, c) != []
    ensures b.Some? ==> b.value.Lower() <= b.value.q1 <= b.value.q3 <= b.value.Upper()
  {
    var xs := Sort(ColumnNumbers(rows, c));
    if xs == [] then None
    else
      QuantileMonotone(xs, 0.25, 0.75);
      Some(Bounds(Quantile(xs, 0.25), Quantile(xs, 0.75)))
  }

  /** The row passes `(df[col] >= lower) & (df[col] <= upper)`. A missing
      value, or NaN bounds, fail both comparisons. */
  predicate InBounds(row: Row, c: nat, b: Option<Bounds>) {
    b.Some? && c < |row| && row[c].Num? &&
    b.value.Lower() <= row[c].value <= b.value.Upper()
  }

  /** One step of the loop: the rows within the bounds of column `c`,
      the bounds being computed on these same rows. */
  function FilterColumn(rows: seq<Row>, c: nat): (r: seq<Row>)
    ensures IsSubsequence(r, rows)
  {
    var b := ColumnBounds(rows, c);
    Keep(rows, row => InBounds(row, c, b))
  }

  /** A row survives a step exactly when it lies within that step's bounds,
      and then every copy of it survives. */
  lemma FilterColumnMembers(rows: seq<Row>, c: nat, row: Row)
    ensures row in FilterColumn(rows, c) <==> row in rows && InBounds(row, c, ColumnBounds(rows, c))
    ensures multiset(FilterColumn(rows, c))[row] ==
              if InBounds(row, c, ColumnBounds(rows, c)) then multiset(rows)[row] else 0
  {
    var b := ColumnBounds(rows, c);
    KeepCounts(rows, x => InBounds(x, c, b));
  }

  /** The numeric columns, fixed once before the loop starts. */
  function NumericColumns(t: Table): (cols: seq<nat>)
    ensures forall k :: 0 <= k < |cols| ==> cols[k] < |t.columns|
    ensures forall k, l :: 0 <= k < l < |cols| ==> cols[k] < cols[l]
    ensures forall j: nat :: j in cols <==> j < |t.columns| && t.columns[j].kind == Numeric
  {
    IndicesWhere(|t.columns|, (j: nat) => j < |t.columns| && t.columns[j].kind == Numeric)
  }

  /** The rows left after the first `k` columns of `cols` were filtered. */
  function FilteredUpTo(rows: seq<Row>, cols: seq<nat>, k: nat): seq<Row>
    requires k <= |cols|
  {
    Cumulative(FilterColumn, rows, cols, k)
  }

  /** The rows of the table once every numeric column was filtered. */
  function OutlierRows(t: Table): (r: seq<Row>)
    ensures IsSubsequence(r, t.rows)
  {
    var cols := NumericColumns(t);
    CumulativeSubsequence(FilterColumn, t.rows, cols, |cols|);
    FilteredUpTo(t.rows, cols, |cols|)
  }

  /** The stage as a value: the table after outlier removal when enabled;
      the columns are kept and the rows only thinned out. */
  function OutlierTable(t: Table, applyRemoval: bool): (r: Table)
    ensures r.columns == t.columns
    ensures IsSubsequence(r.rows, t.rows)
    ensures !applyRemoval ==> r == t
  {
    if applyRemoval then Table(t.columns, OutlierRows(t))
    else
      SubsequenceReflexive(t.rows);
      t
  }

  /** The surviving rows are an order-preserving subsequence of the input,
      so the reported count `before - after` is never negative. */
  lemma OutlierRowsSubsequence(t: Table)
    ensures IsSubsequence(OutlierRows(t), t.rows)
    ensures |OutlierRows(t)| <= |t.rows|
    ensures forall row :: row in OutlierRows(t) ==> row in t.rows
  {
    SubsequenceMembers(OutlierRows(t), t.rows);
  }

  /** Filtering is cumulative: a surviving row lies within the bounds of
      every step, each computed on the rows left by the steps before it. */
  lemma SurvivorsWithinEveryStep(rows: seq<Row>, cols: seq<nat>, k: nat)
    requires k <= |cols|
    ensures forall row, m :: row in FilteredUpTo(rows, cols, k) && 0 <= m < k ==>
              InBounds(row, cols[m], ColumnBounds(FilteredUpTo(rows, cols, m), cols[m]))
  {
    var pass := (r: seq<Row>, c: nat, row: Row) => InBounds(row, c, ColumnBounds(r, c));
    forall r, c, row | row in FilterColumn(r, c)
      ensures row in r && pass(r, c, row)
    {
      FilterColumnMembers(r, c, row);
    }
    CumulativeSurvivors(FilterColumn, pass, rows, cols, k);
  }

  /** A row is left after the first `k` steps exactly when it is an input
      row within the fences of each of those steps, each computed on the rows
      left by the steps before it. */
  lemma FilteredUpToMembers(rows: seq<Row>, cols: seq<nat>, k: nat, row: Row)
    requires k <= |cols|
    ensures row in FilteredUpTo(rows, cols, k) <==>
              row in rows &&
              forall m :: 0 <= m < k ==>
                InBounds(row, cols[m], ColumnBounds(FilteredUpTo(rows, cols, m), cols[m]))
  {
    var pass := (r: seq<Row>, c: nat, x: Row) => InBounds(x, c, ColumnBounds(r, c));
    forall r, c, x | x in r && pass(r, c, x)
      ensures x in FilterColumn(r, c)
    {
      FilterColumnMembers(r, c, x);
    }
    CumulativeKeepsPassing(FilterColumn, pass, rows, cols, k);
    SurvivorsWithinEveryStep(rows, cols, k);
    CumulativeSubsequence(FilterColumn, rows, cols, k);
    SubsequenceMembers(FilteredUpTo(rows, cols, k), rows);
  }

  /** Every copy of such a row is left, so the reported count `before -
      after` counts exactly the copies that failed some step. */
  lemma FilteredUpToCounts(rows: seq<Row>, cols: seq<nat>, k: nat)
    requires k <= |cols|
    ensures forall row :: multiset(FilteredUpTo(rows, cols, k))[row] ==
              if forall m :: 0 <= m < k ==>
                   InBounds(row, cols[m], ColumnBounds(FilteredUpTo(rows, cols, m), cols[m]))
              then multiset(rows)[row] else 0
  {
    var pass := (r: seq<Row>, c: nat, x: Row) => InBounds(x, c, ColumnBounds(r, c));
    forall r, c, x ensures multiset(FilterColumn(r, c))[x] == if pass(r, c, x) then multiset(r)[x] else 0 {
      FilterColumnMembers(r, c, x);
    }
    forall row ensures multiset(FilteredUpTo(rows, cols, k))[row] ==
                         if forall m :: 0 <= m < k ==>
                              InBounds(row, cols[m], ColumnBounds(FilteredUpTo(rows, cols, m), cols[m]))
                         then multiset(rows)[row] else 0
    {
      CumulativeCounts(FilterColumn, pass, rows, cols, k, row);
    }
  }

  /** In particular, a row outside the fences of any one step is gone at the end. */
  lemma OutsideOneStepRemoved(rows: seq<Row>, cols: seq<nat>, m: nat, row: Row)
    requires m < |cols|
    requires !InBounds(row, cols[m], ColumnBounds(FilteredUpTo(rows, cols, m), cols[m]))
    ensures row !in FilteredUpTo(rows, cols, |cols|)
  {
    SurvivorsWithinEveryStep(rows, cols, |cols|);
  }

  /** With the filter on, no surviving row has a missing value in any
      numeric column: NaN fails the bounds comparison. */
  lemma SurvivorsHaveNumbers(t: Table)
    ensures forall row: Row, j ::
              row in OutlierRows(t) && 0 <= j < |t.columns| && t.columns[j].kind == Numeric
              ==> j < |row| && row[j].Num?
  {
    var cols := NumericColumns(t);
    SurvivorsWithinEveryStep(t.rows, cols, |cols|);
    forall row: Row, j | row in OutlierRows(t) && 0 <= j < |t.columns| && t.columns[j].kind == Numeric
      ensures j < |row| && row[j].Num?
    {
      var m :| 0 <= m < |cols| && cols[m] == j;
      assert InBounds(row, cols[m], ColumnBounds(FilteredUpTo(t.rows, cols, m), cols[m]));
    }
  }

  /** Consequently a numeric column with no value at all removes every row. */
  lemma AllMissingColumnEmptiesTable(t: Table, j: nat)
    requires j < |t.columns| && t.columns[j].kind == Numeric
    requires forall row: Row :: row in t.rows ==> j < |row| && row[j].Missing?
    ensures OutlierRows(t) == []
  {
    OutlierRowsSubsequence(t);
    SurvivorsHaveNumbers(t);
    assert forall row :: row !in OutlierRows(t);
    NoMembersEmpty(OutlierRows(t));
  }

  /** Outlier_Detection: with the flag off the table is returned as it is;
      otherwise each numeric column filters the rows left by the previous
      ones, and the number of removed rows is reported. */
  method OutlierDetection(t: Table, applyRemoval: bool) returns (r: Cleaned)
    requires WellFormed(t)
    ensures r.table == OutlierTable(t, applyRemoval)
    ensures r.removed == |t.rows| - |r.table.rows|
    ensures WellFormed(r.table)
    ensures !applyRemoval ==> r.table == t && r.removed == 0
  {
    if !applyRemoval {
      return Cleaned(t, 0);
    }
    var numericCols := NumericColumns(t);
    var before := |t.rows|;
    var rows := t.rows;
    for k := 0 to |numericCols|
      invariant rows == FilteredUpTo(t.rows, numericCols, k)
    {
      rows := FilterColumn(rows, numericCols[k]);
    }
    OutlierRowsSubsequence(t);
    RowsOfWellFormed(t, rows);
    var after := |rows|;
    r := Cleaned(Table(t.columns, rows), before - after);
  }
}
