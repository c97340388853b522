# File Cleaner: the cleaning pipeline in Dafny

File Cleaner is a small Streamlit application. A user uploads a CSV or Excel
table, may edit it, ticks which cleaning stages to apply, and downloads the
result. Its only decision logic is three table transformations in `app.py`,
run in a fixed order on a copy of the table:

1. `Outlier_Detection`: an interquartile-range (IQR) filter. For each numeric
   column in turn, it computes Q1 and Q3 on the rows that are still left. It
   keeps the rows within `[Q1 - 1.5 IQR, Q3 + 1.5 IQR]` and reports how many
   rows it removed.
2. `remove_duplicate`: pandas' `drop_duplicates`, which keeps the first
   occurrence of each row.
3. `handling_missing`: one of five policies. It can do nothing, drop
   incomplete rows, drop incomplete columns, keep the table as it is, or fill
   missing cells. A numeric column is filled with its mean; any other column
   gets the text `"No Data Provided"`.

The model has one module per part:

- `DataFrame` (`dataframe.dfy`) is the table. It has named columns with a
  numeric or non-numeric kind, and positional rows of cells
  `Missing | Num(real) | Text(string)`. `Missing` stands for NaN/None.
- `Statistics` (`statistics.dfy`) holds the two column statistics. The
  quantile uses pandas' default linear interpolation over sorted values. The
  mean skips missing values. Over a column with no value both are NaN, which
  is modelled as `None`.
- `Outliers` (`outliers.dfy`) is the IQR filter. The cumulative loop is a
  method, proved against `Cumulative`, a function that applies the
  per-column step to the result of the step before it.
- `Duplicates` (`duplicates.dfy`) is duplicate removal. Two missing cells
  compare equal, as in pandas.
- `MissingValues` (`missing_values.dfy`) holds the five policies. The fill
  loop over the columns with missing values is a method, proved against the
  fully filled table.
- `Pipeline` (`pipeline.dfy`) is the stage order and what it implies.
- `OutlierExamples` (`outlier_examples.dfy`) holds worked instances.
  - In 1..9, 1000, only 1000 is removed.
  - A two-column table shows that cumulative filtering differs from
    independent masks.

The sequence tools shared by every stage live in `Sequences`
(`sequences.dfy`). They are order-preserving selection (`Keep`), the
subsequence relation, index selection and the cumulative fold.

A numeric column with no number at all is filled as the code does it.
pandas' mean of such a column is NaN, so `fillna` leaves its cells missing.
The model does the same (`FilledCell`, `FillRemovesMissing`). It does not
fall back to the placeholder. The same NaN bounds make the outlier filter
drop every row when a numeric column has no number left
(`AllMissingColumnEmptiesTable`).

## Model

| member | source | states |
|---|---|---|
| DataFrame.ColumnNumbersMembers | app.py:31 | a number is among a column's non-missing values exactly when some row holds it in that column |
| DataFrame.ColumnNumbersComplete | app.py:59 | a column without missing cells yields all its numbers, in row order |
| Statistics.Sort | app.py:59-60 | the values a quantile is read from are sorted and are a permutation of the column's numbers |
| Statistics.Quantile | app.py:59-60 | the linearly interpolated q-quantile lies between the smallest and the largest value |
| Statistics.QuantileMonotone | app.py:59-61 | a larger q never gives a smaller quantile, so Q1 <= Q3 and the IQR is never negative |
| Statistics.Mean | app.py:31 | the mean is defined (not NaN) exactly when the column has a value |
| Statistics.MeanBetween | app.py:31 | the mean of values in [lo, hi] lies in [lo, hi] |
| Outliers.ColumnBounds | app.py:59-63 | the fences are NaN exactly when the remaining rows hold no number in the column; otherwise lower <= Q1 <= Q3 <= upper |
| Outliers.FilterColumn | app.py:59-64 | one column's step keeps an order-preserving subsequence of the rows it is given, fences computed on those same rows |
| Outliers.FilterColumnMembers | app.py:64 | a row survives one column's step exactly when it was present and its value is a number within that step's fences; then every copy of it survives, otherwise none |
| Outliers.NumericColumns | app.py:56 | the filtered columns are exactly the numeric ones, fixed once, in table order |
| Outliers.OutlierRows | app.py:56-64 | the rows left once every numeric column has filtered are an order-preserving subsequence of the input rows |
| Outliers.OutlierTable | app.py:54-70 | the stage keeps the columns and only thins out the rows; with the flag off it returns the table unchanged |
| Outliers.OutlierRowsSubsequence | app.py:57-69 | the surviving rows are an order-preserving subsequence of the input, so before - after is never negative |
| Outliers.SurvivorsWithinEveryStep | app.py:58-64 | every surviving row lies within the fences of every step, each computed on the rows left by the steps before it |
| Outliers.FilteredUpToMembers | app.py:58-64 | a row is left after the first k steps exactly when it is an input row within the fences of each of those steps, each computed on the rows the steps before it left |
| Outliers.FilteredUpToCounts | app.py:58-65 | every copy of an input row within the fences of each step is left and every other copy is gone, so `before - after` counts exactly the copies that failed some step |
| Outliers.OutsideOneStepRemoved | app.py:58-64 | a row outside the fences of any one step is absent from the result |
| Outliers.SurvivorsHaveNumbers | app.py:64 | a surviving row has a number, not a missing value, in every numeric column |
| Outliers.AllMissingColumnEmptiesTable | app.py:59-64 | a numeric column with no number removes every row |
| Outliers.OutlierDetection | app.py:53-70 | the loop yields the cumulative filter's table; the count is before - after; the table stays well formed; with the flag off the table is returned unchanged |
| Duplicates.DropDuplicates | app.py:77 | the result has no two equal rows, is a subsequence of the input, and contains every input row |
| Duplicates.KeepsFirstOccurrences | app.py:77 | kept rows appear in the order of their first occurrences in the input |
| Duplicates.DistinctUnchanged | app.py:77 | a table without repeated rows is left as it is |
| Duplicates.DropDuplicatesIdempotent | app.py:77 | removing duplicates twice equals removing them once |
| Duplicates.RemoveDuplicate | app.py:73-83 | with the flag off: the table unchanged and 0 removed; with it on: distinct rows, a subsequence with the same rows, before - after removed; columns unchanged |
| Duplicates.RemoveDuplicateIdempotent | app.py:77 | a second pass returns the same table and reports 0 removed |
| Duplicates.TwoEqualRowsLeaveOne | app.py:76-78 | two identical rows leave exactly one, and 1 is reported |
| MissingValues.DropIncompleteRows | app.py:26-27 | exactly the rows without a missing cell, in order and with their multiplicities; columns unchanged; no missing cell left |
| MissingValues.CompleteColumns | app.py:36 | the kept column indices are exactly the columns without a missing cell, in increasing order |
| MissingValues.DropIncompleteColumns | app.py:35-36 | exactly the complete columns, in order, with their cells; row count unchanged; column count not larger; no missing cell left |
| MissingValues.ColumnsWithMissing | app.py:19-20 | the columns the fill visits are exactly those with a missing cell, in table order |
| MissingValues.FillColumn | app.py:31-33 | filling one column replaces exactly its missing cells with the given value and leaves every other cell as it was |
| MissingValues.FillStepNumbers | app.py:29-31 | when the loop reaches a column, its values are still the original ones, so its mean is the original mean |
| MissingValues.FillMissingValues | app.py:28-34 | the in-place fill loop produces the fully filled table |
| MissingValues.FilledTable | app.py:28-34 | filling keeps the columns, the row count and well-formedness |
| MissingValues.FilledCell | app.py:29-33 | a present cell is unchanged; a missing text cell becomes "No Data Provided"; a missing numeric cell becomes the mean of the column's numbers, which lies between their minimum and maximum, or stays missing when the column has no number |
| MissingValues.FillRemovesMissing | app.py:29-33 | after the fill a cell is missing exactly when it was missing in a numeric column with no number |
| MissingValues.FillKeepsCompleteColumns | app.py:19-20 | a column without missing values is untouched by the fill |
| MissingValues.ResolveMissing | app.py:23-39 | no choice and keep return the table unchanged; both drops leave no missing value; only dropping columns changes the columns; only dropping rows changes the row count, and never upwards |
| MissingValues.HandlingMissing | app.py:9-39 | the dispatch yields the chosen policy's table; "Choose an Option" and "Keep them as it is" return the table unchanged |
| Pipeline.Cleaning | app.py:134-137 | the three stages in order never add a row, change the columns only when columns are dropped, and with every stage off return the table unchanged |
| Pipeline.CleanTable | app.py:134-137 | outliers, then duplicates, then missing values; with every stage disabled the table is returned unchanged |
| Pipeline.DroppingLeavesNoMissing | app.py:134-137 | dropping rows or columns always ends without a missing cell |
| Pipeline.OutliersThenFillLeaveNoMissing | app.py:134-137 | with outlier removal on, the fill leaves no missing cell |
| Pipeline.DuplicatesStayRemoved | app.py:136-137 | with duplicate removal on, no repeated row remains after no-choice, keep or drop-rows |
| Pipeline.FillCanRecreateDuplicates | app.py:136-137 | the fill runs after duplicate removal and can make two distinct rows equal again |
| OutlierExamples.SpreadBounds | app.py:59-63 | in 1..9, 1000 the quartiles are 3.25 and 7.75 |
| OutlierExamples.FarValueIsRemoved | app.py:58-64 | in 1..9, 1000 exactly the row holding 1000 is removed |
| OutlierExamples.FilteringIsCumulative | app.py:58-64 | a row within both columns' fences computed on the whole table is still removed, because the second column's fences are computed on the rows the first left |

## Left out

- The Streamlit interface is not modelled: widgets, messages, the data editor and download buttons. The user's choices are parameters. The success messages are reduced to the removed-row count.
- File loading and export are not modelled (`read_csv`, `read_excel`, `to_csv`, the Excel writer). They are library serialisers whose code is not part of this model.
- The missing-value pie chart (`showing_pieChart`) is not modelled. It is presentation only.
- Session state, the RESET action and the random editor key are not modelled. They are UI plumbing, and the key is random.
- Floating point is not modelled. Means and quantiles are computed over exact reals, so rounding in `mean` and `quantile` is not captured.
- pandas dtype inference (`select_dtypes`, `is_numeric_dtype`) is not modelled. Each column carries a fixed numeric or non-numeric kind. A numeric column holds only numbers or missing cells.
- The chained-assignment caveat of `fillna(..., inplace=True)` is not modelled. The fill is assumed to take effect on the table.
- Policy: the five option strings are modelled as five constructors, not as text compared at run time.
- Outliers.OutlierDetection: the method returns the new rows as a value and does not model `df.copy()` or pandas' index labels.
- Re-running the outlier filter on its own output is not modelled as idempotent. The source does not promise it, since new fences are computed on fewer rows.
