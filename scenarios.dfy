/** Worked examples of the profiler and the cleaner on small concrete tables. */
module Scenarios {
  import opened Wrappers
  import opened Seqs
  import opened Cells
  import opened Tables
  import opened Profiler
  import opened Modes
  import opened TextOrder
  import opened Cleaning

  const Score := Column("score", Numeric, [Num(10.0), Missing, Num(10.0), Num(30.0)])
  const Id := Column("id", Numeric, [Num(1.0), Num(2.0), Num(3.0), Num(4.0)])

  /** score = 10, NA, 10, 30: one missing, three distinct values counting NA, one repeat. */
  lemma ScoreProfile()
    ensures ProfileOf(Score) == ColumnProfile("score", Numeric, 1, 3, 1)
  {
    var s := Score.cells;
    ScorePrefixes();
    assert MissingCount(s) == 1;
    assert Duplicates([Num(10.0), Missing]) == 0;
    assert Duplicates(s) == 1;
    assert Distinct(s) == {Num(10.0), Missing, Num(30.0)};
  }

  lemma ScorePrefixes()
    ensures Score.cells[..3] == [Num(10.0), Missing, Num(10.0)]
    ensures [Num(10.0), Missing, Num(10.0)][..2] == [Num(10.0), Missing]
    ensures [Num(10.0), Missing][..1] == [Num(10.0)]
    ensures [Num(10.0)][..0] == []
  {
  }

  /** Filling `score` with its mean puts 50/3 into the missing cell; `id` has nothing to fill. */
  lemma ScoreMeanFill()
    ensures MeanFilled(Score).cells == [Num(10.0), Num(50.0 / 3.0), Num(10.0), Num(30.0)]
    ensures MeanFilled(Id) == Id
  {
    var s := Score.cells;
    ScorePrefixes();
    assert Nums([Num(10.0), Missing]) == [10.0];
    assert Nums(s) == [10.0, 10.0, 30.0];
    assert Sum([10.0, 10.0, 30.0]) == 50.0 by {
      assert [10.0, 10.0, 30.0][..2] == [10.0, 10.0];
      assert [10.0, 10.0][..1] == [10.0];
    }
    assert Mean(s) == Some(50.0 / 3.0);
    assert Missing !in Id.cells;
    assert FillNa(Id.cells, Num(Sum(Nums(Id.cells)) / 4.0)) == Id.cells;
  }

  /** Three identical rows become one. */
  lemma ThreeIdenticalRows()
    ensures DropDuplicates(Table(3, [Column("a", Textual, [Text("x"), Text("x"), Text("x")])])).rowCount == 1
  {
    var t := Table(3, [Column("a", Textual, [Text("x"), Text("x"), Text("x")])]);
    assert Names(t.columns) == ["a"];
    assert RowAt(t.columns, 3, 1) == RowAt(t.columns, 3, 0);
    assert RowAt(t.columns, 3, 2) == RowAt(t.columns, 3, 0);
    assert !FirstOccurrence(t.columns, 3, 1);
    assert !FirstOccurrence(t.columns, 3, 2);
  }

  const Sparse := Column("sparse", Numeric, [Num(1.0), Missing, Missing, Num(2.0), Missing])
  const Half := Column("half", Textual, [Text("u"), Missing, Text("v"), Missing])

  /** Three of five cells missing (60%): the column is dropped. */
  lemma SixtyPercentMissingDropped()
    ensures Sparse !in DropSparse(Table(5, [Sparse])).columns
  {
    var t := Table(5, [Sparse]);
    assert Names(t.columns) == ["sparse"];
    assert WellFormed(t);
    SparseByMissing(t);
    MissingCountIsMultiplicity(Sparse.cells);
  }

  /** Two of four cells missing (exactly 50%): the column is kept. */
  lemma HalfMissingKept()
    ensures Half in DropSparse(Table(4, [Half])).columns
  {
    var t := Table(4, [Half]);
    assert Names(t.columns) == ["half"];
    assert WellFormed(t);
    SparseByMissing(t);
    MissingCountIsMultiplicity(Half.cells);
  }

  const A := Column("a", Numeric, [Num(1.0), Num(1.0), Num(1.0), Num(2.0)])
  const B := Column("b", Numeric, [Missing, Missing, Missing, Num(5.0)])
  const Repeated := Table(4, [A, B])

  /** The four rows of `Repeated` are two distinct rows, the first and the last. */
  lemma RepeatedDeduplicated()
    ensures WellFormed(Repeated)
    ensures DropDuplicates(Repeated) == Table(2, [A.(cells := [Num(1.0), Num(2.0)]), B.(cells := [Missing, Num(5.0)])])
  {
    var t := Repeated;
    assert Names(t.columns) == ["a", "b"];
    assert RowAt(t.columns, 4, 0) == [Num(1.0), Missing];
    assert RowAt(t.columns, 4, 1) == [Num(1.0), Missing];
    assert RowAt(t.columns, 4, 2) == [Num(1.0), Missing];
    assert RowAt(t.columns, 4, 3) == [Num(2.0), Num(5.0)];
    assert !FirstOccurrence(t.columns, 4, 1);
    assert !FirstOccurrence(t.columns, 4, 2);
    assert FirstOccurrence(t.columns, 4, 3);
    assert Kept(t.columns, 4, 1) == [0];
    assert Kept(t.columns, 4, 2) == [0];
    assert Kept(t.columns, 4, 3) == [0];
    assert Kept(t.columns, 4, 4) == [0, 3];
    var cols := SelectRows(t.columns, 4, [0, 3]);
    assert cols[0].cells == [Num(1.0), Num(2.0)];
    assert cols[1].cells == [Missing, Num(5.0)];
    assert cols == [A.(cells := [Num(1.0), Num(2.0)]), B.(cells := [Missing, Num(5.0)])];
  }

  /**
   * Column `b` has one value in four rows, but the four rows are only two
   * distinct rows: with duplicates dropped first, `b` is half present and
   * survives.
   */
  lemma SparsityCountedAfterDedup()
    ensures |Cleaned(Repeated, Options([], true, true, false, false)).columns| == 2
  {
    RepeatedDeduplicated();
    var d := DropDuplicates(Repeated);
    MissingCountIsMultiplicity(d.columns[0].cells);
    MissingCountIsMultiplicity(d.columns[1].cells);
    MissingPlusPresent(d.columns[0].cells);
    MissingPlusPresent(d.columns[1].cells);
    FilterAll(d.columns, Dense(2));
  }

  /** Without deduplication the same column is one value in four rows, and is dropped. */
  lemma SparsityWithoutDedup()
    ensures Cleaned(Repeated, Options([], false, true, false, false)).columns == [A]
  {
    RepeatedDeduplicated();
    MissingCountIsMultiplicity(A.cells);
    MissingCountIsMultiplicity(B.cells);
    MissingPlusPresent(A.cells);
    MissingPlusPresent(B.cells);
    assert Repeated.columns[..1] == [A];
    assert Filter(Repeated.columns, Dense(4)) == [A];
  }

  const City := Column("city", Textual, [Text("b"), Text("a"), Missing])

  /** "a" and "b" are tied; the sorted mode puts "a" first, so the missing cell becomes "a". */
  lemma TiedModeFillsLeast()
    ensures ModeFilled(City).cells == [Text("b"), Text("a"), Text("a")]
  {
    var s := City.cells;
    assert s[..2] == [Text("b"), Text("a")];
    assert s[..2][..1] == [Text("b")];
    assert [Text("b")][..0] == [];
    assert Texts([Text("b")]) == ["b"];
    assert Texts(s[..2]) == ["b", "a"];
    assert Texts(s) == ["b", "a"];
    assert Pick(["b", "a"], ["b", "a"]) == "a" by {
      assert ["b", "a"][1..] == ["a"];
      assert Freq(["b", "a"], "a") == 1 && Freq(["b", "a"], "b") == 1;
      assert !StrLe("b", "a");
    }
  }
}
