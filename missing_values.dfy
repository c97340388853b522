/** handling_missing: one user-chosen policy for the missing cells of the
    whole table. */
module MissingValues {
  import opened DataFrame
  import opened Sequences
  import opened Statistics

  /** The five entries of the policy selector, in their order. */
  datatype Policy =
    | Unchosen     // "Choose an Option"
    | DropRows     // "Remove the Rows with missing values !"
    | FillMissing  // "Fill them by the mean of the Column if exists!"
    | DropColumns  // "Remove the Column with missing values ..."
    | KeepAsIs     // "Keep them as it is"

  /** What a missing cell of a non-numeric column is filled with. */
  const Placeholder: string := "No Data Provided"

  predicate Complete(row: Row) {
    forall j :: 0 <= j < |row| ==> !row[j].Missing?
  }

  predicate ColumnHasMissing(rows: seq<Row>, j: nat) {
    exists i :: 0 <= i < |rows| && j < |rows[i]| && rows[i][j].Missing?
  }

  /** The table has no missing cell at all. */
  predicate NoMissing(t: Table) {
    forall row :: row in t.rows ==> Complete(row)
  }

  /** dropna(): exactly the rows without a missing cell, in their order,
      each as often as in the input; the columns stay. */
  function DropIncompleteRows(t: Table): (r: Table)
    requires WellFormed(t)
    ensures r.columns == t.columns
    ensures IsSubsequence(r.rows, t.rows)
    ensures forall row :: row in r.rows <==> row in t.rows && Complete(row)
    ensures forall row :: multiset(r.rows)[row] == if Complete(row) then multiset(t.rows)[row] else 0
    ensures NoMissing(r)
    ensures WellFormed(r)
  {
    var rows := Keep(t.rows, Complete);
    KeepCounts(t.rows, Complete);
    RowsOfWellFormed(t, rows);
    Table(t.columns, rows)
  }

  /** The columns without a missing cell, in increasing order. */
  function CompleteColumns(t: Table): (keep: seq<nat>)
    ensures |keep| <= |t.columns|
    ensures forall k :: 0 <= k < |keep| ==> keep[k] < |t.columns|
    ensures forall k, l :: 0 <= k < l < |keep| ==> keep[k] < keep[l]
    ensures forall j: nat :: j in keep <==> j < |t.columns| && !ColumnHasMissing(t.rows, j)
  {
    IndicesWhere(|t.columns|, (j: nat) => !ColumnHasMissing(t.rows, j))
  }

  /** The cells of `row` at the positions `keep`. */
  function Project(row: Row, keep: seq<nat>): (r: Row)
    requires forall k :: 0 <= k < |keep| ==> keep[k] < |row|
    ensures |r| == |keep|
    ensures forall k :: 0 <= k < |keep| ==> r[k] == row[keep[k]]
  {
    seq(|keep|, k requires 0 <= k < |keep| => row[keep[k]])
  }

  /** dropna(axis=1): exactly the columns without a missing cell, in their
      order; every row stays, so the row count is unchanged and the column
      count does not grow. */
  function DropIncompleteColumns(t: Table): (r: Table)
    requires WellFormed(t)
    ensures |r.rows| == |t.rows|
    ensures |r.columns| <= |t.columns|
    ensures |r.columns| == |CompleteColumns(t)|
    ensures forall k :: 0 <= k < |r.columns| ==> r.columns[k] == t.columns[CompleteColumns(t)[k]]
    ensures forall i, k :: 0 <= i < |r.rows| && 0 <= k < |r.columns| ==>
              |r.rows[i]| == |r.columns| && r.rows[i][k] == t.rows[i][CompleteColumns(t)[k]]
    ensures NoMissing(r)
    ensures WellFormed(r)
  {
    var keep := CompleteColumns(t);
    var r := Table(seq(|keep|, k requires 0 <= k < |keep| => t.columns[keep[k]]),
                   seq(|t.rows|, i requires 0 <= i < |t.rows| => Project(t.rows[i], keep)));
    forall row: Row | row in r.rows ensures Complete(row) && RowFits(r.columns, row) {
      var i :| 0 <= i < |r.rows| && r.rows[i] == row;
      forall k | 0 <= k < |row| ensures !row[k].Missing? {
        assert keep[k] in keep;
      }
    }
    r
  }

  /** The value a missing cell of column `j` is filled with: the mean of
      the column's numbers for a numeric column (NaN, so still missing, when
      it has none), the placeholder text otherwise. */
  function FillValue(t: Table, j: nat): Cell
    requires j < |t.columns|
  {
    if t.columns[j].kind == Numeric then
      match Mean(ColumnNumbers(t.rows, j))
      case None => Missing
      case Some(m) => Num(m)
    else Text(Placeholder)
  }

  function FillCell(t: Table, j: nat, cell: Cell): Cell
    requires j < |t.columns|
  {
    if cell.Missing? then FillValue(t, j) else cell
  }

  /** The table after the fill branch: every missing cell replaced by its
      column's fill value. */
  function FilledTable(t: Table): (r: Table)
    requires WellFormed(t)
    ensures r.columns == t.columns && |r.rows| == |t.rows|
    ensures forall i :: 0 <= i < |r.rows| ==> |r.rows[i]| == |t.columns|
    ensures WellFormed(r)
  {
    Table(t.columns,
      seq(|t.rows|, i requires 0 <= i < |t.rows| =>
        seq(|t.columns|, j requires 0 <= j < |t.columns| => FillCell(t, j, t.rows[i][j]))))
  }

  /** fillna(v) on one column: its missing cells become `v`, nothing else
      changes. */
  function FillColumn(rows: seq<Row>, c: nat, v: Cell): (r: seq<Row>)
    ensures |r| == |rows|
    ensures forall i :: 0 <= i < |r| ==> |r[i]| == |rows[i]|
    ensures forall i, j :: 0 <= i < |r| && 0 <= j < |r[i]| ==>
              r[i][j] == if j == c && rows[i][j].Missing? then v else rows[i][j]
  {
    seq(|rows|, i requires 0 <= i < |rows| =>
      if c < |rows[i]| && rows[i][c].Missing? then rows[i][c := v] else rows[i])
  }

  /** The columns with at least one missing cell, in table order. */
  function ColumnsWithMissing(t: Table): (keys: seq<nat>)
    ensures forall k :: 0 <= k < |keys| ==> keys[k] < |t.columns|
    ensures forall k, l :: 0 <= k < l < |keys| ==> keys[k] < keys[l]
    ensures forall j: nat :: j in keys <==> j < |t.columns| && ColumnHasMissing(t.rows, j)
  {
    IndicesWhere(|t.columns|, (j: nat) => ColumnHasMissing(t.rows, j))
  }

  /** The rows after the fill loop handled the columns `keys[..k]`. */
  predicate FilledUpTo(t: Table, keys: seq<nat>, k: nat, rows: seq<Row>)
    requires k <= |keys|
  {
    |rows| == |t.rows| &&
    (forall i :: 0 <= i < |rows| ==> |rows[i]| == |t.columns| && |t.rows[i]| == |t.columns|) &&
    forall i, j :: 0 <= i < |rows| && 0 <= j < |t.columns| ==>
      rows[i][j] == if j in keys[..k] then FillCell(t, j, t.rows[i][j]) else t.rows[i][j]
  }

  /** Before its iteration, a column still holds its original cells, so the
      mean computed from the current rows is the original column's mean. */
  lemma FillStepNumbers(t: Table, keys: seq<nat>, k: nat, rows: seq<Row>)
    requires keys == ColumnsWithMissing(t) && k < |keys|
    requires FilledUpTo(t, keys, k, rows)
    ensures ColumnNumbers(rows, keys[k]) == ColumnNumbers(t.rows, keys[k])
  {
    var c := keys[k];
    assert c !in keys[..k];
    ColumnNumbersSameColumn(rows, t.rows, c);
  }

  /** One iteration: filling the next column handles one more column. */
  lemma FillStep(t: Table, keys: seq<nat>, k: nat, rows: seq<Row>)
    requires keys == ColumnsWithMissing(t) && k < |keys|
    requires FilledUpTo(t, keys, k, rows)
    ensures FilledUpTo(t, keys, k + 1, FillColumn(rows, keys[k], FillValue(t, keys[k])))
  {
    var c := keys[k];
    var next := FillColumn(rows, c, FillValue(t, c));
    assert keys[..k + 1] == keys[..k] + [c];
    forall i, j | 0 <= i < |next| && 0 <= j < |t.columns|
      ensures next[i][j] == if j in keys[..k + 1] then FillCell(t, j, t.rows[i][j]) else t.rows[i][j]
    {
      if j == c {
        assert c !in keys[..k];
      }
    }
  }

  /** After the last iteration the rows are those of the filled table. */
  lemma FillDone(t: Table, rows: seq<Row>)
    requires WellFormed(t)
    requires FilledUpTo(t, ColumnsWithMissing(t), |ColumnsWithMissing(t)|, rows)
    ensures rows == FilledTable(t).rows
  {
    var keys := ColumnsWithMissing(t);
    var filled := FilledTable(t);
    assert keys[..|keys|] == keys;
    forall i | 0 <= i < |rows| ensures rows[i] == filled.rows[i] {
      forall j | 0 <= j < |t.columns| ensures rows[i][j] == filled.rows[i][j] {
        if j !in keys {
          assert !ColumnHasMissing(t.rows, j);
        }
      }
    }
  }

  /** The fill branch: for each column that had missing values, fill them
      in place with the column's mean, or with the placeholder when the
      column is not numeric. */
  method FillMissingValues(t: Table) returns (r: Table)
    requires WellFormed(t)
    ensures r == FilledTable(t)
  {
    var keys := ColumnsWithMissing(t);
    var rows := t.rows;
    for k := 0 to |keys|
      invariant FilledUpTo(t, keys, k, rows)
    {
      var c := keys[k];
      FillStepNumbers(t, keys, k, rows);
      FillStep(t, keys, k, rows);
      var v := if t.columns[c].kind == Numeric then
                 (match Mean(ColumnNumbers(rows, c)) case None => Missing case Some(m) => Num(m))
               else Text(Placeholder);
      rows := FillColumn(rows, c, v);
    }
    FillDone(t, rows);
    r := Table(t.columns, rows);
  }

  /** What the fill does to one cell: a present value stays; a missing
      cell of a non-numeric column gets the placeholder; one of a numeric
      column gets the column's mean, which lies between the column's
      smallest and largest number, or stays missing when the column has no
      number at all. */
  lemma FilledCell(t: Table, i: nat, j: nat)
    requires WellFormed(t) && i < |t.rows| && j < |t.columns|
    ensures var before, after, xs := t.rows[i][j], FilledTable(t).rows[i][j], ColumnNumbers(t.rows, j);
      (!before.Missing? ==> after == before) &&
      (before.Missing? && t.columns[j].kind == NonNumeric ==> after == Text(Placeholder)) &&
      (before.Missing? && t.columns[j].kind == Numeric && xs == [] ==> after == Missing) &&
      (before.Missing? && t.columns[j].kind == Numeric && xs != [] ==>
         after == Num(Mean(xs).value) && Min(xs) <= after.value <= Max(xs))
  {
    var xs := ColumnNumbers(t.rows, j);
    if xs != [] {
      MeanBetween(xs, Min(xs), Max(xs));
    }
  }

  /** After the fill a cell is missing exactly when it was missing and its
      column is numeric with no number at all (its mean is NaN). */
  lemma FillRemovesMissing(t: Table)
    requires WellFormed(t)
    ensures forall i, j :: 0 <= i < |t.rows| && 0 <= j < |t.columns| ==>
              (FilledTable(t).rows[i][j].Missing? <==>
                 t.rows[i][j].Missing? && t.columns[j].kind == Numeric && ColumnNumbers(t.rows, j) == [])
  {
  }

  /** A column without missing values is left as it is by the fill. */
  lemma FillKeepsCompleteColumns(t: Table, j: nat)
    requires WellFormed(t) && j < |t.columns| && !ColumnHasMissing(t.rows, j)
    ensures forall i :: 0 <= i < |t.rows| ==> FilledTable(t).rows[i][j] == t.rows[i][j]
  {
  }

  /** handling_missing as a value: the table after the chosen policy. Only
      dropping columns changes the columns, only dropping rows changes the
      row count, and both drops leave no missing value. */
  function ResolveMissing(t: Table, policy: Policy): (r: Table)
    requires WellFormed(t)
    ensures WellFormed(r)
    ensures policy == Unchosen || policy == KeepAsIs ==> r == t
    ensures policy == DropRows || policy == DropColumns ==> NoMissing(r)
    ensures policy != DropColumns ==> r.columns == t.columns
    ensures policy != DropRows ==> |r.rows| == |t.rows|
    ensures |r.rows| <= |t.rows|
  {
    SubsequenceMembers(DropIncompleteRows(t).rows, t.rows);
    match policy
    case Unchosen => t
    case DropRows => DropIncompleteRows(t)
    case FillMissing => FilledTable(t)
    case DropColumns => DropIncompleteColumns(t)
    case KeepAsIs => t
  }

  /** handling_missing: dispatch on the chosen policy. */
  method HandlingMissing(t: Table, policy: Policy) returns (r: Table)
    requires WellFormed(t)
    ensures r == ResolveMissing(t, policy)
    ensures policy == Unchosen || policy == KeepAsIs ==> r == t
  {
    match policy {
      case Unchosen => r := t;
      case DropRows => r := DropIncompleteRows(t);
      case FillMissing => r := FillMissingValues(t);
      case DropColumns => r := DropIncompleteColumns(t);
      case KeepAsIs => r := t;
    }
  }
}
