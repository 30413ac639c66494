/**
 * The frame that the cleaning request works on. It is read from the saved
 * upload and then changed step by step: columns dropped in place,
 * reassigned after `drop_duplicates` and `dropna`, and filled column by
 * column. Each method leaves the frame equal to the corresponding
 * function of `Cleaning` applied to the old frame.
 */
module Frames {
  import opened Wrappers
  import opened Cells
  import opened Modes
  import opened Tables
  import opened Cleaning

  class DataFrame {
    var rowCount: nat
    var columns: seq<Column>

    function Value(): Table
      reads this
    {
      Table(rowCount, columns)
    }

    ghost predicate Valid()
      reads this
    {
      WellFormed(Value())
    }

    /** The frame as loaded from the saved upload. */
    constructor (t: Table)
      requires WellFormed(t)
      ensures Valid() && Value() == t
    {
      rowCount := t.rowCount;
      columns := t.columns;
    }

    /** `df.drop(columns=names, inplace=True, errors="ignore")`. */
    method DropColumns(names: seq<string>)
      requires Valid()
      modifies this
      ensures Valid() && Value() == Drop(old(Value()), names)
    {
      columns := Drop(Value(), names).columns;
    }

    /** `df = df.drop_duplicates()`. */
    method DropDuplicateRows()
      requires Valid()
      modifies this
      ensures Valid() && Value() == DropDuplicates(old(Value()))
    {
      var r := DropDuplicates(Value());
      rowCount, columns := r.rowCount, r.columns;
    }

    /** `df = df.dropna(axis=1, thresh=len(df) * 0.5)`. */
    method DropEmptyColumns()
      requires Valid()
      modifies this
      ensures Valid() && Value() == DropSparse(old(Value()))
    {
      columns := DropSparse(Value()).columns;
    }

    /** For every numeric column, `df[col].fillna(df[col].mean(), inplace=True)`. */
    method FillNumericMean()
      requires Valid()
      modifies this
      ensures Valid() && Value() == FillMean(old(Value()))
    {
      ghost var before := Value();
      var k := 0;
      while k < |columns|
        invariant 0 <= k <= |columns| == |before.columns| && rowCount == before.rowCount
        invariant forall j :: 0 <= j < k ==> columns[j] == MeanFilled(before.columns[j])
        invariant forall j :: k <= j < |columns| ==> columns[j] == before.columns[j]
      {
        var col := columns[k];
        if col.kind == Numeric {
          var m := Mean(col.cells);
          if m.Some? {
            columns := columns[k := col.(cells := FillNa(col.cells, Num(m.value)))];
          }
        }
        k := k + 1;
      }
      assert columns == FillMean(before).columns;
    }

    /** For every text column whose mode is not empty, `df[col].fillna(mode[0], inplace=True)`. */
    method FillCategoricalMode()
      requires Valid()
      modifies this
      ensures Valid() && Value() == FillMode(old(Value()))
    {
      ghost var before := Value();
      var k := 0;
      while k < |columns|
        invariant 0 <= k <= |columns| == |before.columns| && rowCount == before.rowCount
        invariant forall j :: 0 <= j < k ==> columns[j] == ModeFilled(before.columns[j])
        invariant forall j :: k <= j < |columns| ==> columns[j] == before.columns[j]
      {
        var col := columns[k];
        if col.kind == Textual {
          var mode := Mode(Texts(col.cells));
          if mode.Some? {
            columns := columns[k := col.(cells := FillNa(col.cells, Text(mode.value)))];
          }
        }
        k := k + 1;
      }
      assert columns == FillMode(before).columns;
    }

    /** The cleaning request: each enabled step, in order, on the result of the previous one. */
    method Clean(o: Options)
      requires Valid()
      modifies this
      ensures Valid() && Value() == Cleaned(old(Value()), o)
    {
      if |o.dropCols| > 0 {
        DropColumns(o.dropCols);
      }
      if o.dropDuplicates {
        DropDuplicateRows();
      }
      if o.dropEmptyCols {
        DropEmptyColumns();
      }
      if o.fillNumericMean {
        FillNumericMean();
      }
      if o.fillCategoricalMode {
        FillCategoricalMode();
      }
    }
  }
}
