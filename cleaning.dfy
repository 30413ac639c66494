/**
 * The cleaning transformations as functions on table values, one per
 * pandas call the cleaner makes, and the whole pipeline `Cleaned`, which
 * applies the enabled steps in their fixed order, each to the previous
 * step's output.
 */
module Cleaning {
  import opened Wrappers
  import opened Seqs
  import opened Cells
  import opened Modes
  import opened Tables

  /** The columns that survive dropping `names`. */
  function NotNamed(names: seq<string>): Column -> bool {
    (c: Column) => c.name !in names
  }

  /** `df.drop(columns=names, errors="ignore")`: names not in the table are ignored. */
  function Drop(t: Table, names: seq<string>): (r: Table)
    requires WellFormed(t)
    ensures WellFormed(r) && r.rowCount == t.rowCount
    ensures forall c :: c in r.columns <==> c in t.columns && c.name !in names
    ensures Subseq(r.columns, t.columns)
  {
    var cols := Filter(t.columns, NotNamed(names));
    FilterMembers(t.columns, NotNamed(names));
    FilterIsSubseq(t.columns, NotNamed(names));
    SubTable(t.rowCount, cols, t.columns);
    Table(t.rowCount, cols)
  }

  /** Dropping only names the table does not have leaves it unchanged. */
  lemma DropIgnoresAbsent(t: Table, names: seq<string>)
    requires WellFormed(t)
    requires forall k :: 0 <= k < |t.columns| ==> t.columns[k].name !in names
    ensures Drop(t, names) == t
  {
    FilterAll(t.columns, NotNamed(names));
  }

  /** `df.drop_duplicates()`: keeps the first of every run of equal rows; pandas returns an empty frame as it is. */
  function DropDuplicates(t: Table): (r: Table)
    requires WellFormed(t)
    ensures WellFormed(r) && r.rowCount <= t.rowCount && Names(r.columns) == Names(t.columns)
    ensures |r.columns| == |t.columns| && forall k :: 0 <= k < |r.columns| ==> r.columns[k].kind == t.columns[k].kind
  {
    if t.columns == [] || t.rowCount == 0 then t
    else
      var idx := Kept(t.columns, t.rowCount, t.rowCount);
      SelectedRows(t.columns, t.rowCount, idx);
      Table(|idx|, SelectRows(t.columns, t.rowCount, idx))
  }

  /** Row `a` of the result is input row `Kept[a]`: the first occurrences, ascending, and all of them. */
  lemma DedupKeepsFirstOccurrences(t: Table)
    requires WellFormed(t) && t.columns != []
    ensures var r, idx := DropDuplicates(t), Kept(t.columns, t.rowCount, t.rowCount);
      r.rowCount == |idx| &&
      (forall a :: 0 <= a < |idx| ==>
        RowAt(r.columns, r.rowCount, a) == RowAt(t.columns, t.rowCount, idx[a]) &&
        FirstOccurrence(t.columns, t.rowCount, idx[a])) &&
      (forall a, b :: 0 <= a < b < |idx| ==> idx[a] < idx[b]) &&
      (forall i :: 0 <= i < t.rowCount && FirstOccurrence(t.columns, t.rowCount, i) ==> i in idx)
  {
    var idx := Kept(t.columns, t.rowCount, t.rowCount);
    KeptSpec(t.columns, t.rowCount, t.rowCount);
    SelectedRows(t.columns, t.rowCount, idx);
  }

  /** No two rows of the result are equal (a frame without columns is returned as it is). */
  lemma DedupDistinct(t: Table)
    requires WellFormed(t) && t.columns != []
    ensures var r := DropDuplicates(t);
      forall a, b :: 0 <= a < b < r.rowCount ==> RowAt(r.columns, r.rowCount, a) != RowAt(r.columns, r.rowCount, b)
  {
    var r, idx := DropDuplicates(t), Kept(t.columns, t.rowCount, t.rowCount);
    if t.rowCount > 0 {
      DedupKeepsFirstOccurrences(t);
      forall a, b | 0 <= a < b < r.rowCount
        ensures RowAt(r.columns, r.rowCount, a) != RowAt(r.columns, r.rowCount, b)
      {
        assert idx[a] < idx[b] && FirstOccurrence(t.columns, t.rowCount, idx[b]);
      }
    }
  }

  lemma {:induction false} EarliestIsKept(cols: seq<Column>, n: nat, i: nat)
    requires Rect(cols, n) && i < n
    ensures exists a :: 0 <= a < |Kept(cols, n, n)| && RowAt(cols, n, Kept(cols, n, n)[a]) == RowAt(cols, n, i)
    decreases i
  {
    KeptSpec(cols, n, n);
    if FirstOccurrence(cols, n, i) {
      var idx := Kept(cols, n, n);
      assert i in idx;
      var a :| 0 <= a < |idx| && idx[a] == i;
    } else {
      var j :| 0 <= j < i && RowAt(cols, n, j) == RowAt(cols, n, i);
      EarliestIsKept(cols, n, j);
    }
  }

  /** Row `i` of `t` equals some row of `r`. */
  predicate RowCovered(r: Table, t: Table, i: nat)
    requires Rect(r.columns, r.rowCount) && Rect(t.columns, t.rowCount) && i < t.rowCount
  {
    exists a :: 0 <= a < r.rowCount && RowAt(r.columns, r.rowCount, a) == RowAt(t.columns, t.rowCount, i)
  }

  /** Every input row equals some row of the result. */
  lemma DedupCovers(t: Table)
    requires WellFormed(t)
    ensures forall i :: 0 <= i < t.rowCount ==> RowCovered(DropDuplicates(t), t, i)
  {
    var r := DropDuplicates(t);
    forall i | 0 <= i < t.rowCount
      ensures RowCovered(r, t, i)
    {
      if t.columns == [] {
        assert RowAt(r.columns, r.rowCount, i) == RowAt(t.columns, t.rowCount, i);
      } else {
        DedupKeepsFirstOccurrences(t);
        EarliestIsKept(t.columns, t.rowCount, i);
        var idx := Kept(t.columns, t.rowCount, t.rowCount);
        var a :| 0 <= a < |idx| && RowAt(t.columns, t.rowCount, idx[a]) == RowAt(t.columns, t.rowCount, i);
        assert RowAt(r.columns, r.rowCount, a) == RowAt(t.columns, t.rowCount, i);
      }
    }
  }

  /** A table whose rows are already pairwise distinct is left unchanged. */
  lemma DedupOfDistinct(t: Table)
    requires WellFormed(t)
    requires forall a, b :: 0 <= a < b < t.rowCount ==> RowAt(t.columns, t.rowCount, a) != RowAt(t.columns, t.rowCount, b)
    ensures DropDuplicates(t) == t
  {
    if t.columns != [] && t.rowCount > 0 {
      var n := t.rowCount;
      KeptAll(t.columns, n, n);
      var idx := Kept(t.columns, n, n);
      var cols := SelectRows(t.columns, n, idx);
      forall k | 0 <= k < |t.columns| ensures cols[k] == t.columns[k] {
        assert t.columns[k] in t.columns;
        assert cols[k].cells == t.columns[k].cells;
      }
      assert cols == t.columns;
    }
  }

  /** Dropping duplicates twice is the same as dropping them once. */
  lemma DedupIdempotent(t: Table)
    requires WellFormed(t)
    ensures DropDuplicates(DropDuplicates(t)) == DropDuplicates(t)
  {
    if t.columns != [] {
      DedupDistinct(t);
      DedupOfDistinct(DropDuplicates(t));
    }
  }

  /** The columns that `dropna(axis=1, thresh=0.5 * n)` keeps: at least half of the `n` cells present. */
  function Dense(n: nat): Column -> bool {
    (c: Column) => 2 * |Present(c.cells)| >= n
  }

  /** `df.dropna(axis=1, thresh=len(df) * 0.5)`, the threshold stated in integers. */
  function DropSparse(t: Table): (r: Table)
    requires WellFormed(t)
    ensures WellFormed(r) && r.rowCount == t.rowCount
    ensures forall c :: c in r.columns <==> c in t.columns && 2 * |Present(c.cells)| >= t.rowCount
    ensures Subseq(r.columns, t.columns)
  {
    var cols := Filter(t.columns, Dense(t.rowCount));
    FilterMembers(t.columns, Dense(t.rowCount));
    FilterIsSubseq(t.columns, Dense(t.rowCount));
    SubTable(t.rowCount, cols, t.columns);
    Table(t.rowCount, cols)
  }

  /** A column survives exactly when at most half of its cells are missing; exactly half survives. */
  lemma SparseByMissing(t: Table)
    requires WellFormed(t)
    ensures forall c :: c in t.columns ==> (c in DropSparse(t).columns <==> 2 * MissingCount(c.cells) <= t.rowCount)
  {
    forall c | c in t.columns
      ensures c in DropSparse(t).columns <==> 2 * MissingCount(c.cells) <= t.rowCount
    {
      MissingPlusPresent(c.cells);
    }
  }

  /** `df[col].fillna(df[col].mean())` for a numeric column; other columns unchanged. */
  function MeanFilled(c: Column): Column {
    if c.kind == Numeric then
      match Mean(c.cells)
      case Some(m) => c.(cells := FillNa(c.cells, Num(m)))
      case None => c
    else c
  }

  lemma MeanFilledSpec(c: Column)
    requires WellKinded(c)
    ensures SameShape(c, MeanFilled(c))
    ensures forall i :: 0 <= i < |c.cells| && c.cells[i] != Missing ==> MeanFilled(c).cells[i] == c.cells[i]
    ensures c.kind == Numeric && Present(c.cells) != [] ==>
      Missing !in MeanFilled(c).cells &&
      forall i :: 0 <= i < |c.cells| && c.cells[i] == Missing ==>
        MeanFilled(c).cells[i] == Num(Sum(Nums(c.cells)) / (|Present(c.cells)| as real))
    ensures c.kind == Textual || Present(c.cells) == [] ==> MeanFilled(c) == c
  {
    if c.kind == Numeric {
      NumsOfNumeric(c.cells);
      var m := Mean(c.cells);
      if m.Some? {
        FillNaSpec(c.cells, Num(m.value));
        var r := MeanFilled(c);
        forall x | x in r.cells ensures Fits(r.kind, x) {
          var i :| 0 <= i < |r.cells| && r.cells[i] == x;
          assert c.cells[i] in c.cells;
        }
      }
    }
  }

  /** The numeric-mean step over every column. */
  function FillMean(t: Table): (r: Table)
    requires WellFormed(t)
    ensures WellFormed(r) && r.rowCount == t.rowCount && Names(r.columns) == Names(t.columns)
  {
    var cols := seq(|t.columns|, k requires 0 <= k < |t.columns| => MeanFilled(t.columns[k]));
    assert forall k :: 0 <= k < |cols| ==> SameShape(t.columns[k], cols[k]) by {
      forall k | 0 <= k < |cols| ensures SameShape(t.columns[k], cols[k]) {
        assert t.columns[k] in t.columns;
        MeanFilledSpec(t.columns[k]);
      }
    }
    ReshapedWellFormed(t, cols);
    Table(t.rowCount, cols)
  }

  /** `fillna(mode()[0])` for a text column whose mode is not empty; other columns unchanged. */
  function ModeFilled(c: Column): Column {
    if c.kind == Textual then
      match Mode(Texts(c.cells))
      case Some(m) => c.(cells := FillNa(c.cells, Text(m)))
      case None => c
    else c
  }

  lemma ModeFilledSpec(c: Column)
    requires WellKinded(c)
    ensures SameShape(c, ModeFilled(c))
    ensures forall i :: 0 <= i < |c.cells| && c.cells[i] != Missing ==> ModeFilled(c).cells[i] == c.cells[i]
    ensures c.kind == Textual && Present(c.cells) != [] ==>
      Missing !in ModeFilled(c).cells &&
      forall i :: 0 <= i < |c.cells| && c.cells[i] == Missing ==>
        ModeFilled(c).cells[i].Text? && IsLeastMode(Texts(c.cells), ModeFilled(c).cells[i].text)
    ensures c.kind == Numeric || Present(c.cells) == [] ==> ModeFilled(c) == c
  {
    if c.kind == Textual {
      TextsOfText(c.cells);
      ModeIsLeastMode(Texts(c.cells));
      var m := Mode(Texts(c.cells));
      if m.Some? {
        FillNaSpec(c.cells, Text(m.value));
        var r := ModeFilled(c);
        forall x | x in r.cells ensures Fits(r.kind, x) {
          var i :| 0 <= i < |r.cells| && r.cells[i] == x;
          assert c.cells[i] in c.cells;
        }
      }
    }
  }

  /** The text-mode step over every column. */
  function FillMode(t: Table): (r: Table)
    requires WellFormed(t)
    ensures WellFormed(r) && r.rowCount == t.rowCount && Names(r.columns) == Names(t.columns)
  {
    var cols := seq(|t.columns|, k requires 0 <= k < |t.columns| => ModeFilled(t.columns[k]));
    assert forall k :: 0 <= k < |cols| ==> SameShape(t.columns[k], cols[k]) by {
      forall k | 0 <= k < |cols| ensures SameShape(t.columns[k], cols[k]) {
        assert t.columns[k] in t.columns;
        ModeFilledSpec(t.columns[k]);
      }
    }
    ReshapedWellFormed(t, cols);
    Table(t.rowCount, cols)
  }

  /** The choices of the cleaning form. */
  datatype Options = Options(
    dropCols: seq<string>,
    dropDuplicates: bool,
    dropEmptyCols: bool,
    fillNumericMean: bool,
    fillCategoricalMode: bool)

  /** The cleaning pipeline: the enabled steps in their fixed order. */
  function Cleaned(t: Table, o: Options): (r: Table)
    requires WellFormed(t)
    ensures WellFormed(r)
  {
    var t1 := if |o.dropCols| > 0 then Drop(t, o.dropCols) else t;
    var t2 := if o.dropDuplicates then DropDuplicates(t1) else t1;
    var t3 := if o.dropEmptyCols then DropSparse(t2) else t2;
    var t4 := if o.fillNumericMean then FillMean(t3) else t3;
    if o.fillCategoricalMode then FillMode(t4) else t4
  }

  /** With every option off the table comes back unchanged. */
  lemma CleanedAllOff(t: Table)
    requires WellFormed(t)
    ensures Cleaned(t, Options([], false, false, false, false)) == t
  {
  }

  /** No step adds rows or columns: the result's columns are some of the input's, in order. */
  lemma CleanedNeverGrows(t: Table, o: Options)
    requires WellFormed(t)
    ensures Cleaned(t, o).rowCount <= t.rowCount
    ensures Subseq(Names(Cleaned(t, o).columns), Names(t.columns))
    ensures |Cleaned(t, o).columns| <= |t.columns|
  {
    var t1 := if |o.dropCols| > 0 then Drop(t, o.dropCols) else t;
    var t2 := if o.dropDuplicates then DropDuplicates(t1) else t1;
    var t3 := if o.dropEmptyCols then DropSparse(t2) else t2;
    var t4 := if o.fillNumericMean then FillMean(t3) else t3;
    var r := Cleaned(t, o);
    SubseqRefl(Names(t.columns));
    if |o.dropCols| > 0 {
      SubseqNames(t1.columns, t.columns);
    }
    assert Subseq(Names(t2.columns), Names(t.columns));
    if o.dropEmptyCols {
      SubseqNames(t3.columns, t2.columns);
      SubseqTrans(Names(t3.columns), Names(t2.columns), Names(t.columns));
    }
    assert Names(r.columns) == Names(t3.columns);
    SubseqLength(Names(r.columns), Names(t.columns));
  }

  /** The sparse-column threshold is the row count after duplicates are gone. */
  lemma SparseAfterDedup(t: Table, o: Options)
    requires WellFormed(t)
    requires o.dropDuplicates && o.dropEmptyCols
    ensures var t1 := if |o.dropCols| > 0 then Drop(t, o.dropCols) else t;
      var d := DropDuplicates(t1);
      Names(Cleaned(t, o).columns) == Names(Filter(d.columns, Dense(d.rowCount)))
  {
  }
}
