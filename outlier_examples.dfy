/** Worked instances of the outlier filter on small tables. */
module OutlierExamples {
  import opened DataFrame
  import opened Sequences
  import opened Statistics
  import opened Outliers

  /** A table with a single numeric column holding `xs`. */
  function OneColumn(xs: seq<real>): (t: Table)
    ensures |t.rows| == |xs|
    ensures forall i :: 0 <= i < |xs| ==> t.rows[i] == [Num(xs[i])]
  {
    Table([Column("x", Numeric)], seq(|xs|, i requires 0 <= i < |xs| => [Num(xs[i])]))
  }

  lemma OneColumnNumbers(xs: seq<real>)
    ensures ColumnNumbers(OneColumn(xs).rows, 0) == xs
  {
    ColumnNumbersComplete(OneColumn(xs).rows, 0);
  }

  /** A table with two numeric columns holding `a` and `b`. */
  function TwoColumns(a: seq<real>, b: seq<real>): (t: Table)
    requires |a| == |b|
    ensures |t.rows| == |a|
    ensures t.columns == [Column("a", Numeric), Column("b", Numeric)]
    ensures forall i :: 0 <= i < |a| ==> t.rows[i] == [Num(a[i]), Num(b[i])]
  {
    Table([Column("a", Numeric), Column("b", Numeric)],
          seq(|a|, i requires 0 <= i < |a| => [Num(a[i]), Num(b[i])]))
  }

  lemma TwoColumnsNumbers(a: seq<real>, b: seq<real>)
    requires |a| == |b|
    ensures ColumnNumbers(TwoColumns(a, b).rows, 0) == a
    ensures ColumnNumbers(TwoColumns(a, b).rows, 1) == b
  {
    ColumnNumbersComplete(TwoColumns(a, b).rows, 0);
    ColumnNumbersComplete(TwoColumns(a, b).rows, 1);
  }

  /** When every row but the last lies within the fences of column `c`,
      one step keeps exactly those rows. */
  lemma FilterDropsOnlyLast(rows: seq<Row>, c: nat, b: Bounds)
    requires |rows| > 0 && ColumnBounds(rows, c) == Some(b)
    requires forall i :: 0 <= i < |rows| - 1 ==>
               c < |rows[i]| && rows[i][c].Num? && b.Lower() <= rows[i][c].value <= b.Upper()
    requires c < |rows[|rows| - 1]| && rows[|rows| - 1][c].Num? && b.Upper() < rows[|rows| - 1][c].value
    ensures FilterColumn(rows, c) == rows[..|rows| - 1]
  {
    var bounds := ColumnBounds(rows, c);
    KeepDropsLast(rows, row => InBounds(row, c, bounds));
  }

  /** On a column whose numbers are already sorted the fences come from
      the quartiles of those numbers. */
  lemma SortedColumnBounds(rows: seq<Row>, c: nat, xs: seq<real>)
    requires ColumnNumbers(rows, c) == xs && Sorted(xs) && |xs| > 0
    ensures ColumnBounds(rows, c) == Some(Bounds(Quantile(xs, 0.25), Quantile(xs, 0.75)))
  {
    SortOfSorted(xs);
  }

  /** Among four sorted values the quartiles fall at positions 0.75 and 2.25. */
  lemma QuartilesOfFour(xs: seq<real>)
    requires Sorted(xs) && |xs| == 4
    ensures Quantile(xs, 0.25) == xs[0] + (xs[1] - xs[0]) * 0.75
    ensures Quantile(xs, 0.75) == xs[2] + (xs[3] - xs[2]) * 0.25
  {
    assert Position(4, 0.25) == 0.75 && (0.75).Floor == 0;
    assert Position(4, 0.75) == 2.25 && (2.25).Floor == 2;
  }

  /** Among five sorted values the quartiles are the second and fourth. */
  lemma QuartilesOfFive(xs: seq<real>)
    requires Sorted(xs) && |xs| == 5
    ensures Quantile(xs, 0.25) == xs[1] && Quantile(xs, 0.75) == xs[3]
  {
    assert Position(5, 0.25) == 1.0 && (1.0).Floor == 1;
    assert Position(5, 0.75) == 3.0 && (3.0).Floor == 3;
  }

  /** Among ten sorted values the quartiles fall at positions 2.25 and 6.75. */
  lemma QuartilesOfTen(xs: seq<real>)
    requires Sorted(xs) && |xs| == 10
    ensures Quantile(xs, 0.25) == xs[2] + (xs[3] - xs[2]) * 0.25
    ensures Quantile(xs, 0.75) == xs[6] + (xs[7] - xs[6]) * 0.75
  {
    assert Position(10, 0.25) == 2.25 && (2.25).Floor == 2;
    assert Position(10, 0.75) == 6.75 && (6.75).Floor == 6;
  }

  lemma OneColumnIsNumeric(xs: seq<real>)
    ensures NumericColumns(OneColumn(xs)) == [0]
  {
    assert 0 in NumericColumns(OneColumn(xs));
  }

  /** After one step only the first column has filtered. */
  lemma FirstStepOnly(rows: seq<Row>, cols: seq<nat>)
    requires |cols| > 0
    ensures FilteredUpTo(rows, cols, 1) == FilterColumn(rows, cols[0])
  {
    assert Cumulative(FilterColumn, rows, cols, 0) == rows;
  }

  /** With a single numeric column the filter is one step. */
  lemma OneColumnOutlierRows(xs: seq<real>)
    ensures OutlierRows(OneColumn(xs)) == FilterColumn(OneColumn(xs).rows, 0)
  {
    OneColumnIsNumeric(xs);
    FirstStepOnly(OneColumn(xs).rows, [0]);
  }

  /** `xs` is 1, 2, ..., 9, 1000. */
  predicate IsSpread(xs: seq<real>) {
    |xs| == 10 && xs[9] == 1000.0 && forall i :: 0 <= i < 9 ==> xs[i] == (i + 1) as real
  }

  /** In 1, 2, ..., 9, 1000 the quartiles are 3.25 and 7.75, so the fences
      are -3.5 and 14.5. */
  lemma SpreadBounds(xs: seq<real>)
    requires IsSpread(xs)
    ensures ColumnBounds(OneColumn(xs).rows, 0) == Some(Bounds(3.25, 7.75))
  {
    assert Sorted(xs) by {
      forall i, j | 0 <= i < j < |xs| ensures xs[i] <= xs[j] {
      }
    }
    OneColumnNumbers(xs);
    SortedColumnBounds(OneColumn(xs).rows, 0, xs);
    QuartilesOfTen(xs);
  }

  /** Only the row holding 1000 lies outside the fences. */
  lemma FarValueIsRemoved(xs: seq<real>)
    requires IsSpread(xs)
    ensures OutlierRows(OneColumn(xs)) == OneColumn(xs).rows[..9]
  {
    SpreadBounds(xs);
    OneColumnOutlierRows(xs);
    FilterDropsOnlyLast(OneColumn(xs).rows, 0, Bounds(3.25, 7.75));
  }

  /** Column a is 0, 0, 0, 0, 100 and column b is 1, 2, 3, 9, 100: the last
      row is far out in both. */
  predicate IsMixed(a: seq<real>, b: seq<real>) {
    |a| == 5 && |b| == 5 &&
    (forall i :: 0 <= i < 4 ==> a[i] == 0.0) && a[4] == 100.0 &&
    b[0] == 1.0 && b[1] == 2.0 && b[2] == 3.0 && b[3] == 9.0 && b[4] == 100.0
  }

  /** Column a over all rows: quartiles 0 and 0, so only a == 0 passes. */
  lemma MixedFirstBounds(a: seq<real>, b: seq<real>)
    requires IsMixed(a, b)
    ensures ColumnBounds(TwoColumns(a, b).rows, 0) == Some(Bounds(0.0, 0.0))
  {
    assert Sorted(a);
    TwoColumnsNumbers(a, b);
    SortedColumnBounds(TwoColumns(a, b).rows, 0, a);
    QuartilesOfFive(a);
  }

  /** Column b over all rows: quartiles 2 and 9, fences -8.5 and 19.5. */
  lemma MixedSecondBoundsAlone(a: seq<real>, b: seq<real>)
    requires IsMixed(a, b)
    ensures ColumnBounds(TwoColumns(a, b).rows, 1) == Some(Bounds(2.0, 9.0))
  {
    assert Sorted(b);
    TwoColumnsNumbers(a, b);
    SortedColumnBounds(TwoColumns(a, b).rows, 1, b);
    QuartilesOfFive(b);
  }

  /** Column b over the rows column a left: quartiles 1.75 and 4.5, so the
      upper fence drops to 8.625. */
  lemma MixedSecondBoundsAfterFirst(a: seq<real>, b: seq<real>)
    requires IsMixed(a, b)
    ensures ColumnBounds(TwoColumns(a, b).rows[..4], 1) == Some(Bounds(1.75, 4.5))
  {
    var a', b' := a[..4], b[..4];
    assert TwoColumns(a, b).rows[..4] == TwoColumns(a', b').rows;
    assert Sorted(b');
    TwoColumnsNumbers(a', b');
    SortedColumnBounds(TwoColumns(a', b').rows, 1, b');
    QuartilesOfFour(b');
  }

  /** Column a removes the last row only. */
  lemma MixedFirstStep(a: seq<real>, b: seq<real>)
    requires IsMixed(a, b)
    ensures FilterColumn(TwoColumns(a, b).rows, 0) == TwoColumns(a, b).rows[..4]
  {
    MixedFirstBounds(a, b);
    FilterDropsOnlyLast(TwoColumns(a, b).rows, 0, Bounds(0.0, 0.0));
  }

  lemma TwoColumnsAreNumeric(a: seq<real>, b: seq<real>)
    requires |a| == |b|
    ensures NumericColumns(TwoColumns(a, b)) == [0, 1]
  {
    var cols := NumericColumns(TwoColumns(a, b));
    assert 0 in cols && 1 in cols;
  }

  /** The filter is cumulative, not a conjunction of masks computed on the
      whole table: the row (0, 9) lies within the fences of both columns
      computed on all rows, yet it is removed, because the fences of b are
      computed on the rows that column a left. */
  lemma FilteringIsCumulative(a: seq<real>, b: seq<real>)
    requires IsMixed(a, b)
    ensures var t := TwoColumns(a, b);
      InBounds(t.rows[3], 0, ColumnBounds(t.rows, 0)) &&
      InBounds(t.rows[3], 1, ColumnBounds(t.rows, 1)) &&
      t.rows[3] !in OutlierRows(t)
  {
    MixedFirstBounds(a, b);
    MixedSecondBoundsAlone(a, b);
    MixedRowRemoved(a, b);
  }

  lemma MixedRowRemoved(a: seq<real>, b: seq<real>)
    requires IsMixed(a, b)
    ensures TwoColumns(a, b).rows[3] !in OutlierRows(TwoColumns(a, b))
  {
    var t := TwoColumns(a, b);
    var cols := [0, 1];
    TwoColumnsAreNumeric(a, b);
    MixedFirstStep(a, b);
    FirstStepOnly(t.rows, cols);
    MixedSecondBoundsAfterFirst(a, b);
    OutsideOneStepRemoved(t.rows, cols, 1, t.rows[3]);
  }
}
