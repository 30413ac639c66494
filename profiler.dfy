/**
 * The profiler: one report row per column with its integer statistics,
 * the histograms requested for the numeric columns, and the decision
 * whether a correlation matrix is drawn.
 */
module Profiler {
  import opened Wrappers
  import opened Seqs
  import opened Cells
  import opened Tables

  /** A row of the profile report, restricted to its integer statistics. */
  datatype ColumnProfile = ColumnProfile(column: string, dtype: Kind, missing: nat, unique: nat, duplicates: nat)

  /** The statistics of one column; `unique` counts missing once, `duplicates` counts repeats. */
  function ProfileOf(c: Column): (p: ColumnProfile)
    ensures p.column == c.name && p.dtype == c.kind
    ensures p.missing + |Present(c.cells)| == |c.cells|
    ensures p.unique + p.duplicates == |c.cells|
    ensures p.unique == Unique(Present(c.cells)) + (if Missing in c.cells then 1 else 0)
    ensures p.missing == 0 <==> Missing !in c.cells
  {
    MissingPlusPresent(c.cells);
    UniquePlusDuplicates(c.cells);
    UniqueCountsMissingOnce(c.cells);
    NoneMissing(c.cells);
    ColumnProfile(c.name, c.kind, MissingCount(c.cells), Unique(c.cells), Duplicates(c.cells))
  }

  /** The report: exactly one row per column, in column order. */
  method DfProfile(cols: seq<Column>) returns (rows: seq<ColumnProfile>)
    ensures |rows| == |cols|
    ensures forall k :: 0 <= k < |cols| ==> rows[k] == ProfileOf(cols[k])
  {
    rows := [];
    for k := 0 to |cols|
      invariant |rows| == k
      invariant forall j :: 0 <= j < k ==> rows[j] == ProfileOf(cols[j])
    {
      rows := rows + [ProfileOf(cols[k])];
    }
  }

  predicate IsNumeric(c: Column) {
    c.kind == Numeric
  }

  /** `select_dtypes(include="number")`: the numeric columns, in column order. */
  function NumericColumns(cols: seq<Column>): (r: seq<Column>)
    ensures forall c :: c in r <==> c in cols && c.kind == Numeric
    ensures Subseq(r, cols)
  {
    FilterMembers(cols, IsNumeric);
    FilterIsSubseq(cols, IsNumeric);
    Filter(cols, IsNumeric)
  }

  const HistogramBins: nat := 30

  /** A request to draw one histogram: the column's title and the numbers it plots. */
  datatype Histogram = Histogram(column: string, values: seq<real>, bins: nat)

  function HistogramOf(c: Column): Histogram {
    Histogram(c.name, Nums(c.cells), HistogramBins)
  }

  /** One histogram per numeric column, in column order, over that column's numbers. */
  method NumericHistograms(cols: seq<Column>) returns (hs: seq<Histogram>)
    ensures |hs| == |NumericColumns(cols)|
    ensures forall k :: 0 <= k < |hs| ==>
      hs[k].column == NumericColumns(cols)[k].name &&
      hs[k].values == Nums(NumericColumns(cols)[k].cells) &&
      hs[k].bins == 30
  {
    hs := [];
    for k := 0 to |cols|
      invariant |hs| == |Filter(cols[..k], IsNumeric)|
      invariant forall j :: 0 <= j < |hs| ==> hs[j] == HistogramOf(Filter(cols[..k], IsNumeric)[j])
    {
      assert cols[..k + 1][..k] == cols[..k];
      if cols[k].kind == Numeric {
        hs := hs + [HistogramOf(cols[k])];
      }
    }
    assert cols[..|cols|] == cols;
  }

  /** The labels of the correlation matrix, or `None` when fewer than two columns are numeric. */
  function CorrelationHeatmap(cols: seq<Column>): (r: Option<seq<string>>)
    ensures r.Some? <==> exists i, j :: 0 <= i < j < |cols| && cols[i].kind == Numeric && cols[j].kind == Numeric
    ensures r.Some? ==> r.value == Names(NumericColumns(cols))
  {
    FilterAtLeastTwo(cols, IsNumeric);
    var num := NumericColumns(cols);
    if |num| < 2 then None else Some(Names(num))
  }
}
