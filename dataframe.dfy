/** The in-memory table the cleaning stages work on: a pandas DataFrame
    reduced to named, typed columns and positional rows of cells. */
module DataFrame {

  datatype Option<T> = None | Some(value: T)

  /** One cell. `Missing` stands for pandas' NaN/None. */
  datatype Cell = Missing | Num(value: real) | Text(text: string)

  /** The dtype family of a column, fixed when the table is loaded. */
  datatype Kind = Numeric | NonNumeric

  datatype Column = Column(name: string, kind: Kind)

  type Row = seq<Cell>

  datatype Table = Table(columns: seq<Column>, rows: seq<Row>)

  /** A row fits the columns: one cell per column, and a numeric column
      holds only numbers or missing markers. */
  predicate RowFits(columns: seq<Column>, row: Row) {
    |row| == |columns| &&
    forall j :: 0 <= j < |row| && columns[j].kind == Numeric ==> row[j].Num? || row[j].Missing?
  }

  /** All columns have equal length, and column kinds are respected. */
  predicate WellFormed(t: Table) {
    forall i :: 0 <= i < |t.rows| ==> RowFits(t.columns, t.rows[i])
  }

  /** Keeping only rows of a well-formed table keeps it well formed. */
  lemma RowsOfWellFormed(t: Table, rows: seq<Row>)
    requires WellFormed(t)
    requires forall row :: row in rows ==> row in t.rows
    ensures WellFormed(Table(t.columns, rows))
  {
    forall i | 0 <= i < |rows| ensures RowFits(t.columns, rows[i]) {
      assert rows[i] in t.rows;
    }
  }

  /** The non-missing numbers of column `c`, top to bottom (pandas' skipna). */
  function ColumnNumbers(rows: seq<Row>, c: nat): (xs: seq<real>)
    ensures |xs| <= |rows|
  {
    if rows == [] then []
    else
      var last := rows[|rows| - 1];
      ColumnNumbers(rows[..|rows| - 1], c) + (if c < |last| && last[c].Num? then [last[c].value] else [])
  }

  /** A number is among the column's numbers exactly when some row holds it. */
  lemma {:induction false} ColumnNumbersMembers(rows: seq<Row>, c: nat, x: real)
    ensures x in ColumnNumbers(rows, c) <==>
            exists i :: 0 <= i < |rows| && c < |rows[i]| && rows[i][c] == Num(x)
  {
    if rows != [] {
      var init := rows[..|rows| - 1];
      ColumnNumbersMembers(init, c, x);
      assert forall i :: 0 <= i < |init| ==> rows[i] == init[i];
    }
  }

  /** A column without missing values yields all its numbers, in order. */
  lemma {:induction false} ColumnNumbersComplete(rows: seq<Row>, c: nat)
    requires forall i :: 0 <= i < |rows| ==> c < |rows[i]| && rows[i][c].Num?
    ensures ColumnNumbers(rows, c) == seq(|rows|, i requires 0 <= i < |rows| => rows[i][c].value)
  {
    if rows != [] {
      ColumnNumbersComplete(rows[..|rows| - 1], c);
    }
  }

  /** The numbers of a column depend only on that column's cells. */
  lemma {:induction false} ColumnNumbersSameColumn(rows: seq<Row>, rows': seq<Row>, c: nat)
    requires |rows| == |rows'|
    requires forall i :: 0 <= i < |rows| ==> c < |rows[i]| && c < |rows'[i]| && rows[i][c] == rows'[i][c]
    ensures ColumnNumbers(rows, c) == ColumnNumbers(rows', c)
  {
    if rows != [] {
      ColumnNumbersSameColumn(rows[..|rows| - 1], rows'[..|rows'| - 1], c);
    }
  }

  /** A stage's result: the new table and how many rows it removed. */
  datatype Cleaned = Cleaned(table: Table, removed: nat)
}
