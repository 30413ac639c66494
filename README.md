# Data Profiler & Cleaner: the table logic, in Dafny

This project models the table logic of a small CSV profiling and cleaning
web application (`app.py`). It covers two parts.

- **The profiler.** For each column it builds a report row of integer statistics:
  - `missing`: the number of NA cells;
  - `unique`: `nunique(dropna=False)`, where NA counts as one more distinct value;
  - `duplicates`: `duplicated().sum()`, the cells equal to some earlier cell, with NA equal to NA.
  It also picks the columns that get a histogram, and decides whether a correlation heat-map is drawn.
- **The cleaner.** It applies up to five transformations, always in this order, each to the previous one's output:
  1. drop the named columns, ignoring unknown names;
  2. drop duplicate rows, keeping the first occurrence;
  3. drop columns in which fewer than half of the cells (counted after step 2) are present;
  4. fill missing numeric cells with the column mean;
  5. fill missing text cells with `mode()[0]`.

The data model lives in `cells.dfy` and `tables.dfy`:
- a `Cell` is `Missing`, `Num(real)` or `Text(string)`;
- a `Column` has a name, a kind (`Numeric` or `Textual`) and its cells;
- a `Table` has a row count (the length of the frame's index) and its columns.

A well-formed table is rectangular, every cell fits its column's kind, and the column names are unique.

The pandas calls are modelled as functions on table values, in
`cleaning.dfy`, together with lemmas stating what each one does. The
request handler changes `df` step by step. That is modelled by the class
`Frames.DataFrame`:
- each cleaning step is one method that changes the frame's fields;
- the two fill steps loop over the columns and update them in place;
- every method ends with the frame equal to the matching `Cleaning` function applied to the old frame.

`DfProfile` and `NumericHistograms` build their lists with loops, as the source does.

Notes on how the model reads the code:
- **Mode tie-break.** pandas' `mode()` returns the most frequent values sorted, so `mode()[0]` is the *least* of the tied values in Python's string order (lexicographic by code point, `TextOrder.StrLe`). Ties are therefore broken by sorted order, not by first occurrence, and the model does the same.
- **Empty frames and `drop_duplicates`.** pandas returns an empty frame unchanged, where "empty" means no columns or no rows. So a frame whose columns were all dropped keeps all its rows, and `DropDuplicates` models that.
- **Sparse threshold.** pandas keeps a column when `count >= 0.5 * len(df)`. The model states this in integers as `2 * present >= rowCount`.
- **Mean.** The mean is exact: `Sum(Nums) / |Nums|` over the column's numbers, as a `real`.

## Model

| member | source | states |
|---|---|---|
| `Cells.MissingPlusPresent` | app.py:132 | every cell is either counted by `isna().sum()` or present: missing + present = row count |
| `Cells.NoneMissing` | app.py:132 | the missing count is zero exactly when no cell is NA |
| `Cells.MissingCountIsMultiplicity` | app.py:132 | the missing count equals the number of occurrences of NA in the column |
| `Cells.UniquePlusDuplicates` | app.py:134-135 | `unique + duplicates == rowCount`: every cell is either the first of its value or a repeat |
| `Cells.UniqueCountsMissingOnce` | app.py:134 | `nunique(dropna=False)` is the number of distinct present values plus 1 iff some cell is NA |
| `Cells.NumsOfNumeric` | app.py:240-241 | in a numeric column, the numbers the mean averages are exactly the present cells, in order (`Num(Nums[i])` is the `i`-th present cell) |
| `Cells.FillNaSpec` | app.py:241 | `fillna(v)` keeps the length and every present cell, and leaves no NA (missing count 0) |
| `Modes.PickIsBest` | app.py:245 | the value picked from a pool occurs in it, no value in the pool is more frequent, and equally frequent values sort after it |
| `Modes.ModeIsLeastMode` | app.py:245-246 | `mode()` is empty exactly when the column has no value; otherwise `mode()[0]` is the least most-frequent value |
| `Modes.LeastModeUnique` | app.py:245-247 | at most one value is the least most-frequent one, so the fill value is determined |
| `Modes.TextsOfText` | app.py:244-245 | in a text column, the values `mode` counts are exactly the present cells, in order (`Text(Texts[i])` is the `i`-th present cell) |
| `Tables.KeptSpec` | app.py:233 | the rows `drop_duplicates` keeps are exactly those with no equal earlier row, in ascending order |
| `Tables.SelectedRows` | app.py:233 | selecting rows keeps column names and kinds, row `a` of the result is input row `idx[a]`, and a well-formed table stays well-formed |
| `Profiler.ProfileOf` | app.py:127-136 | a column's report row carries its name and kind (numeric or not); missing + present = rows; unique + duplicates = rows; unique counts NA once; missing = 0 iff no NA |
| `Profiler.DfProfile` | app.py:124-141 | the report has exactly one row per column, in column order, each that column's statistics |
| `Profiler.NumericColumns` | app.py:153 | `select_dtypes(include="number")` contains exactly the numeric columns, as a subsequence in column order |
| `Profiler.NumericHistograms` | app.py:150-157 | one 30-bin histogram per numeric column, in column order, plotting that column's numbers |
| `Profiler.CorrelationHeatmap` | app.py:159-163 | a correlation matrix is made iff two distinct columns are numeric, over exactly the numeric columns' labels; otherwise `None` |
| `Cleaning.Drop` | app.py:228-230 | a column survives iff its name is not listed; survivors keep their cells and order; the row count does not change; the table stays well-formed |
| `Cleaning.DropIgnoresAbsent` | app.py:229-230 | listing only names the table does not have (or none) leaves the table unchanged |
| `Cleaning.DropDuplicates` | app.py:232-233 | the result is well-formed, has no more rows, and has the same columns by name and kind, in order |
| `Cleaning.DedupKeepsFirstOccurrences` | app.py:232-233 | result row `a` is input row `Kept[a]`; the kept rows are exactly the first occurrences, in ascending order |
| `Cleaning.DedupDistinct` | app.py:232-233 | no two rows of the result are equal (NA equal to NA) |
| `Cleaning.DedupCovers` | app.py:232-233 | every input row equals some row of the result |
| `Cleaning.DedupOfDistinct` | app.py:232-233 | a table whose rows are pairwise distinct is returned unchanged |
| `Cleaning.DedupIdempotent` | app.py:232-233 | dropping duplicates twice equals dropping them once |
| `Cleaning.DropSparse` | app.py:235-237 | a column survives iff `2 * present >= rowCount`; survivors keep their cells and order; the row count is unchanged |
| `Cleaning.SparseByMissing` | app.py:235-237 | a column survives iff at most half its cells are NA, so a column exactly half missing survives |
| `Cleaning.MeanFilledSpec` | app.py:239-241 | for a numeric column with a number: no NA remains, present cells are unchanged, each filled cell is sum/count of the present numbers; all-NA numeric and text columns are untouched |
| `Cleaning.FillMean` | app.py:239-241 | filling numeric columns keeps the table well-formed, its row count and its column names |
| `Cleaning.ModeFilledSpec` | app.py:243-247 | for a text column with a value: no NA remains, present cells are unchanged, each filled cell is the least most-frequent value; all-NA text and numeric columns are untouched |
| `Cleaning.FillMode` | app.py:243-247 | filling text columns keeps the table well-formed, its row count and its column names |
| `Cleaning.Cleaned` | app.py:227-247 | the pipeline's result is a well-formed table |
| `Cleaning.CleanedAllOff` | app.py:227-247 | with every option off the table is returned unchanged |
| `Cleaning.CleanedNeverGrows` | app.py:227-247 | the pipeline adds no rows and no columns; the surviving column names are a subsequence of the original ones |
| `Cleaning.SparseAfterDedup` | app.py:232-237 | whenever deduplication and the sparse step are both on, whatever the other options, the surviving columns are those of the deduplicated table with `2 * present >= ` its row count (the count after deduplication) |
| `Frames.DataFrame.constructor` | app.py:224 | the frame holds the loaded table and is well-formed |
| `Frames.DataFrame.DropColumns` | app.py:228-230 | after the in-place drop the frame is `Drop` of the old frame |
| `Frames.DataFrame.DropDuplicateRows` | app.py:232-233 | after reassignment the frame is `DropDuplicates` of the old frame |
| `Frames.DataFrame.DropEmptyColumns` | app.py:235-237 | after reassignment the frame is `DropSparse` of the old frame |
| `Frames.DataFrame.FillNumericMean` | app.py:239-241 | after the column loop the frame is `FillMean` of the old frame |
| `Frames.DataFrame.FillCategoricalMode` | app.py:243-247 | after the column loop the frame is `FillMode` of the old frame |
| `Frames.DataFrame.Clean` | app.py:227-247 | after the enabled steps, in order, the frame is `Cleaned` of the old frame with the same options |
| `Scenarios.ScoreProfile` | app.py:127-136 | the column 10, NA, 10, 30 has missing 1, unique 3 and duplicates 1 |
| `Scenarios.ScoreMeanFill` | app.py:239-241 | mean-filling 10, NA, 10, 30 puts 50/3 in the NA cell; a column without NA is untouched |
| `Scenarios.ThreeIdenticalRows` | app.py:232-233 | three identical rows become one row |
| `Scenarios.SixtyPercentMissingDropped` | app.py:235-237 | a column 60% missing is dropped |
| `Scenarios.HalfMissingKept` | app.py:235-237 | a column exactly 50% missing is kept |
| `Scenarios.RepeatedDeduplicated` | app.py:232-233 | a four-row table made of two distinct rows deduplicates to its first and last rows |
| `Scenarios.SparsityCountedAfterDedup` | app.py:232-237 | with deduplication first, a column one-quarter present in the input survives the sparse step |
| `Scenarios.SparsityWithoutDedup` | app.py:235-237 | without deduplication the same column is dropped |
| `Scenarios.TiedModeFillsLeast` | app.py:245-247 | when "b" and "a" tie as the most frequent value, the missing cell is filled with "a" |

## Left out

- Flask routes, flash messages, HTML templates and rendering (app.py:23-119, 175-222, 249-257) are transport and user interface.
- CSV reading and writing, and pandas' type inference (app.py:188, 206, 224, 251), are not modelled. The model takes column kinds as given, and `DataFrame.constructor` takes the loaded table as a value.
- Column dtypes: the report's `dtype` (`str(s.dtype)`, app.py:131, such as `int64`, `float64`, `bool`, `object`) is collapsed to the two kinds `Numeric` and `Textual`.
- Boolean columns: `select_dtypes("number")` excludes `bool`, so a boolean column is modelled as `Textual`. A boolean column read from CSV with an NA becomes an object column anyway.
- Temp-file naming, existence checks and removal (app.py:205, 219-225, 250) are file-system I/O.
- Histogram and heat-map drawing and `fig_to_base64` (app.py:143-170) are foreign libraries. The model stops at the data each chart is given (`Histogram`, the matrix labels).
- Floating-point statistics are not modelled:
  - `missing_pct` and its rounding (app.py:133);
  - the `describe()` statistics (app.py:137-139);
  - Pearson correlation values (app.py:163);
  - `round(3)` in the report (app.py:199).
- Cleaning.MeanFilledSpec: the mean is an exact real, sum divided by count. It does not model IEEE rounding.
- The 200 MB upload limit and the 2,000,000-row warning (app.py:24, 194-195) are plumbing policy.
- pandas Copy-on-Write: under newer pandas, the chained `df[col].fillna(..., inplace=True)` at app.py:241 and 247 may not write back. The model does the intended in-place fill.
- Mode over values that are not strings: a text column read from CSV holds strings, except that a boolean column with an NA becomes an object column of Python `bool`s. Modelling those as the texts "False" and "True" changes no mode, because `False < True` agrees with `"False" < "True"`.
- The order of `DataFrame` rows is modelled. Its index labels are not; the CSV is written without them.
