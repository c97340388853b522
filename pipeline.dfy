/** The cleaning pipeline behind both pages of the application: outlier
    removal, then duplicate removal, then the missing-value policy, each
    stage working on the previous stage's result. */
module Pipeline {
  import opened DataFrame
  import opened Outliers
  import opened Duplicates
  import opened MissingValues

  /** The table the pipeline produces for the chosen options. No stage
      adds a row, only dropping columns changes the columns, and with every
      stage off the table comes back unchanged. */
  function Cleaning(t: Table, applyOutliers: bool, applyDuplicates: bool, policy: Policy): (r: Table)
    requires WellFormed(t)
    ensures WellFormed(r)
    ensures |r.rows| <= |t.rows|
    ensures policy != DropColumns ==> r.columns == t.columns
    ensures !applyOutliers && !applyDuplicates && (policy == Unchosen || policy == KeepAsIs) ==> r == t
  {
    OutlierRowsSubsequence(t);
    RowsOfWellFormed(t, OutlierRows(t));
    ResolveMissing(RemoveDuplicate(OutlierTable(t, applyOutliers), applyDuplicates).table, policy)
  }

  /** The three stages applied in order to a copy of the uploaded (or
      edited) table. */
  method CleanTable(t: Table, applyOutliers: bool, applyDuplicates: bool, policy: Policy)
    returns (r: Table)
    requires WellFormed(t)
    ensures r == Cleaning(t, applyOutliers, applyDuplicates, policy)
    ensures WellFormed(r)
    ensures !applyOutliers && !applyDuplicates && (policy == Unchosen || policy == KeepAsIs) ==> r == t
  {
    var afterOutliers := OutlierDetection(t, applyOutliers);
    var afterDuplicates := RemoveDuplicate(afterOutliers.table, applyDuplicates);
    r := HandlingMissing(afterDuplicates.table, policy);
  }

  /** Dropping rows or columns always ends with a table without missing
      values, whatever the earlier stages did. */
  lemma DroppingLeavesNoMissing(t: Table, applyOutliers: bool, applyDuplicates: bool, policy: Policy)
    requires WellFormed(t) && (policy == DropRows || policy == DropColumns)
    ensures NoMissing(Cleaning(t, applyOutliers, applyDuplicates, policy))
  {
  }

  /** With outlier removal on, filling leaves no missing value: numeric
      columns have none left after the filter, and every other column is
      filled with the placeholder. */
  lemma OutliersThenFillLeaveNoMissing(t: Table, applyDuplicates: bool)
    requires WellFormed(t)
    ensures NoMissing(Cleaning(t, true, applyDuplicates, FillMissing))
  {
    SurvivorsHaveNumbers(t);
    OutlierRowsSubsequence(t);
    RowsOfWellFormed(t, OutlierRows(t));
    var u := RemoveDuplicate(OutlierTable(t, true), applyDuplicates).table;
    FillRemovesMissing(u);
    forall row: Row | row in FilledTable(u).rows ensures Complete(row) {
      var i :| 0 <= i < |FilledTable(u).rows| && FilledTable(u).rows[i] == row;
      forall j | 0 <= j < |row| ensures !row[j].Missing? {
        assert u.rows[i] in OutlierRows(t);
      }
    }
  }

  /** With duplicate removal on, the result has no repeated row unless the
      missing values are filled or columns dropped afterwards. */
  lemma DuplicatesStayRemoved(t: Table, applyOutliers: bool, policy: Policy)
    requires WellFormed(t) && (policy == Unchosen || policy == DropRows || policy == KeepAsIs)
    ensures Distinct(Cleaning(t, applyOutliers, true, policy).rows)
  {
    OutlierRowsSubsequence(t);
    RowsOfWellFormed(t, OutlierRows(t));
    var u := RemoveDuplicate(OutlierTable(t, applyOutliers), true).table;
    if policy == DropRows {
      SubsequenceOfDistinct(DropIncompleteRows(u).rows, u.rows);
    }
  }

  /** Filling can make distinct rows equal again, since duplicates are
      removed before the fill: a missing text cell becomes the placeholder
      another row already holds. */
  lemma FillCanRecreateDuplicates()
    ensures var t := Table([Column("note", NonNumeric)], [[Missing], [Text(Placeholder)]]);
      WellFormed(t) && Distinct(RemoveDuplicate(t, true).table.rows) &&
      !Distinct(Cleaning(t, false, true, FillMissing).rows)
  {
    var t := Table([Column("note", NonNumeric)], [[Missing], [Text(Placeholder)]]);
    DistinctUnchanged(t.rows);
    assert FilledTable(t).rows[0] == FilledTable(t).rows[1];
  }
}
