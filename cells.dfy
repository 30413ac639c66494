/**
 * Cells and columns of a table, and the per-column quantities that the
 * profiler reports and the cleaner tests: missing counts (`isna().sum()`),
 * present cells (`count()`), distinct values (`nunique(dropna=False)`),
 * repeated cells (`duplicated().sum()`), the mean of the numbers, and
 * filling missing cells (`fillna`).
 */
module Cells {
  import opened Wrappers
  import opened Seqs

  /** One cell: the missing marker (pandas NA), a number, or a text value. */
  datatype Cell = Missing | Num(value: real) | Text(text: string)

  /** The dtype class of a column: a numeric dtype, or anything else (object, bool). */
  datatype Kind = Numeric | Textual

  datatype Column = Column(name: string, kind: Kind, cells: seq<Cell>)

  /** A cell may be missing in any column; otherwise it matches the column's kind. */
  predicate Fits(k: Kind, x: Cell) {
    match x
    case Missing => true
    case Num(_) => k == Numeric
    case Text(_) => k == Textual
  }

  predicate WellKinded(c: Column) {
    forall x :: x in c.cells ==> Fits(c.kind, x)
  }

  predicate IsPresent(x: Cell) {
    x != Missing
  }

  /** The non-missing cells, in column order. */
  function Present(s: seq<Cell>): seq<Cell> {
    Filter(s, IsPresent)
  }

  /** The number of missing cells. */
  function MissingCount(s: seq<Cell>): nat {
    if s == [] then 0
    else MissingCount(s[..|s| - 1]) + (if s[|s| - 1] == Missing then 1 else 0)
  }

  /** Every cell is either missing or present. */
  lemma {:induction false} MissingPlusPresent(s: seq<Cell>)
    ensures MissingCount(s) + |Present(s)| == |s|
  {
    if s != [] {
      MissingPlusPresent(s[..|s| - 1]);
    }
  }

  /** The missing count is zero exactly when no cell is missing. */
  lemma {:induction false} NoneMissing(s: seq<Cell>)
    ensures MissingCount(s) == 0 <==> Missing !in s
  {
    if s != [] {
      NoneMissing(s[..|s| - 1]);
      assert s == s[..|s| - 1] + [s[|s| - 1]];
    }
  }

  /** The set of values that occur, the missing marker included when it occurs. */
  function Distinct(s: seq<Cell>): set<Cell> {
    set x | x in s
  }

  /** pandas' `nunique(dropna=False)`: missing counts as one more distinct value. */
  function Unique(s: seq<Cell>): nat {
    |Distinct(s)|
  }

  /** pandas' `duplicated().sum()`: cells equal to some earlier cell (missing equals missing). */
  function Duplicates(s: seq<Cell>): nat {
    if s == [] then 0
    else Duplicates(s[..|s| - 1]) + (if s[|s| - 1] in s[..|s| - 1] then 1 else 0)
  }

  /** Every cell is either the first of its value or a repeat of an earlier one. */
  lemma {:induction false} UniquePlusDuplicates(s: seq<Cell>)
    ensures Unique(s) + Duplicates(s) == |s|
  {
    if s != [] {
      var p, x := s[..|s| - 1], s[|s| - 1];
      UniquePlusDuplicates(p);
      assert s == p + [x];
      assert Distinct(s) == Distinct(p) + {x};
      if x in p {
        assert Distinct(s) == Distinct(p);
      } else {
        assert x !in Distinct(p);
      }
    }
  }

  /** `unique` is the number of distinct present values, plus one iff a cell is missing. */
  lemma UniqueCountsMissingOnce(s: seq<Cell>)
    ensures Unique(s) == Unique(Present(s)) + (if Missing in s then 1 else 0)
  {
    FilterMembers(s, IsPresent);
    assert Distinct(Present(s)) == Distinct(s) - {Missing};
    if Missing in s {
      assert Distinct(s) == Distinct(Present(s)) + {Missing};
    } else {
      assert Distinct(s) == Distinct(Present(s));
    }
  }

  /** The numbers of the column, in order: what a histogram plots and a mean averages. */
  function Nums(s: seq<Cell>): seq<real> {
    if s == [] then []
    else Nums(s[..|s| - 1]) + (match s[|s| - 1] case Num(v) => [v] case _ => [])
  }

  function Sum(xs: seq<real>): real {
    if xs == [] then 0.0 else Sum(xs[..|xs| - 1]) + xs[|xs| - 1]
  }

  /** pandas' `mean()` with NA skipped; `None` (NaN) when there is no number. */
  function Mean(s: seq<Cell>): Option<real> {
    var xs := Nums(s);
    if xs == [] then None else Some(Sum(xs) / (|xs| as real))
  }

  /** In a numeric column the numbers are exactly the present cells. */
  lemma {:induction false} NumsOfNumeric(s: seq<Cell>)
    requires forall x :: x in s ==> Fits(Numeric, x)
    ensures seq(|Nums(s)|, i requires 0 <= i < |Nums(s)| => Num(Nums(s)[i])) == Present(s)
  {
    if s != [] {
      var p := s[..|s| - 1];
      assert forall x :: x in p ==> x in s;
      NumsOfNumeric(p);
      assert s[|s| - 1] in s;
    }
  }

  /** pandas' `fillna(v)`: every missing cell becomes `v`, the others stay. */
  function FillNa(s: seq<Cell>, v: Cell): seq<Cell> {
    seq(|s|, i requires 0 <= i < |s| => if s[i] == Missing then v else s[i])
  }

  /** Filling with a value leaves nothing missing and keeps every present cell. */
  lemma FillNaSpec(s: seq<Cell>, v: Cell)
    requires v != Missing
    ensures |FillNa(s, v)| == |s| && Missing !in FillNa(s, v) && MissingCount(FillNa(s, v)) == 0
    ensures forall i :: 0 <= i < |s| && s[i] != Missing ==> FillNa(s, v)[i] == s[i]
  {
    NoneMissing(FillNa(s, v));
  }

  /** The missing count is the multiplicity of the missing marker. */
  lemma {:induction false} MissingCountIsMultiplicity(s: seq<Cell>)
    ensures MissingCount(s) == multiset(s)[Missing]
  {
    if s != [] {
      MissingCountIsMultiplicity(s[..|s| - 1]);
      assert s == s[..|s| - 1] + [s[|s| - 1]];
    }
  }
}
