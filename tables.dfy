/**
 * A table (a pandas DataFrame): its row count (the length of its index)
 * and its columns in order. A well-formed table is rectangular, its cells
 * fit their column's kind, and its column names are unique. The row count
 * is kept apart from the columns because a frame with every column dropped
 * still has its rows.
 */
module Tables {
  import opened Seqs
  import opened Cells

  datatype Table = Table(rowCount: nat, columns: seq<Column>)

  function Names(cols: seq<Column>): seq<string> {
    seq(|cols|, k requires 0 <= k < |cols| => cols[k].name)
  }

  predicate Rect(cols: seq<Column>, n: nat) {
    forall c :: c in cols ==> |c.cells| == n
  }

  predicate WellFormed(t: Table) {
    Rect(t.columns, t.rowCount) &&
    (forall c :: c in t.columns ==> WellKinded(c)) &&
    NoDup(Names(t.columns))
  }

  lemma {:induction false} SubseqNames(r: seq<Column>, s: seq<Column>)
    requires Subseq(r, s)
    ensures Subseq(Names(r), Names(s))
    decreases |s|
  {
    if r != [] {
      var r', s' := r[..|r| - 1], s[..|s| - 1];
      assert Names(s') == Names(s)[..|s| - 1];
      if r[|r| - 1] == s[|s| - 1] && Subseq(r', s') {
        SubseqNames(r', s');
        assert Names(r') == Names(r)[..|r| - 1];
      } else {
        SubseqNames(r, s');
      }
    }
  }

  /** Keeping some of a well-formed table's columns, in order, gives a well-formed table. */
  lemma SubTable(n: nat, r: seq<Column>, s: seq<Column>)
    requires Subseq(r, s) && WellFormed(Table(n, s))
    ensures WellFormed(Table(n, r))
  {
    SubseqMembers(r, s);
    SubseqNames(r, s);
    SubseqNoDup(Names(r), Names(s));
  }

  /** Row `i`: the `i`-th cell of every column, in column order. */
  function RowAt(cols: seq<Column>, n: nat, i: nat): seq<Cell>
    requires Rect(cols, n) && i < n
  {
    seq(|cols|, k requires 0 <= k < |cols| => cols[k].cells[i])
  }

  /** No earlier row equals row `i`. */
  predicate FirstOccurrence(cols: seq<Column>, n: nat, i: nat)
    requires Rect(cols, n) && i < n
  {
    forall j :: 0 <= j < i ==> RowAt(cols, n, j) != RowAt(cols, n, i)
  }

  /** The indices below `m` of rows that are first occurrences, ascending. */
  function Kept(cols: seq<Column>, n: nat, m: nat): (idx: seq<nat>)
    requires Rect(cols, n) && m <= n
    ensures |idx| <= m && forall a :: 0 <= a < |idx| ==> idx[a] < m
  {
    if m == 0 then []
    else Kept(cols, n, m - 1) + (if FirstOccurrence(cols, n, m - 1) then [m - 1] else [])
  }

  /** `Kept` lists exactly the first occurrences, in strictly increasing order. */
  lemma {:induction false} KeptSpec(cols: seq<Column>, n: nat, m: nat)
    requires Rect(cols, n) && m <= n
    ensures forall a :: 0 <= a < |Kept(cols, n, m)| ==> FirstOccurrence(cols, n, Kept(cols, n, m)[a])
    ensures forall a, b :: 0 <= a < b < |Kept(cols, n, m)| ==> Kept(cols, n, m)[a] < Kept(cols, n, m)[b]
    ensures forall i :: 0 <= i < m && FirstOccurrence(cols, n, i) ==> i in Kept(cols, n, m)
  {
    if m > 0 {
      KeptSpec(cols, n, m - 1);
    }
  }

  /** When every row is a first occurrence, every row is kept. */
  lemma {:induction false} KeptAll(cols: seq<Column>, n: nat, m: nat)
    requires Rect(cols, n) && m <= n
    requires forall i :: 0 <= i < m ==> FirstOccurrence(cols, n, i)
    ensures |Kept(cols, n, m)| == m && forall a :: 0 <= a < m ==> Kept(cols, n, m)[a] == a
  {
    if m > 0 {
      KeptAll(cols, n, m - 1);
    }
  }

  /** The cells of `c` at the positions `idx`, in the order of `idx`. */
  function SelectCells(c: Column, idx: seq<nat>): Column
    requires forall a :: 0 <= a < |idx| ==> idx[a] < |c.cells|
  {
    c.(cells := seq(|idx|, a requires 0 <= a < |idx| => c.cells[idx[a]]))
  }

  function SelectRows(cols: seq<Column>, n: nat, idx: seq<nat>): seq<Column>
    requires Rect(cols, n) && forall a :: 0 <= a < |idx| ==> idx[a] < n
  {
    seq(|cols|, k requires 0 <= k < |cols| => SelectCells(cols[k], idx))
  }

  /** Selecting rows keeps the columns' names, kinds and well-formedness; row `a` is old row `idx[a]`. */
  lemma SelectedRows(cols: seq<Column>, n: nat, idx: seq<nat>)
    requires Rect(cols, n) && forall a :: 0 <= a < |idx| ==> idx[a] < n
    ensures Rect(SelectRows(cols, n, idx), |idx|)
    ensures Names(SelectRows(cols, n, idx)) == Names(cols)
    ensures forall k :: 0 <= k < |cols| ==> SelectRows(cols, n, idx)[k].kind == cols[k].kind
    ensures forall a :: 0 <= a < |idx| ==> RowAt(SelectRows(cols, n, idx), |idx|, a) == RowAt(cols, n, idx[a])
    ensures WellFormed(Table(n, cols)) ==> WellFormed(Table(|idx|, SelectRows(cols, n, idx)))
  {
    var r := SelectRows(cols, n, idx);
    assert Names(r) == Names(cols);
    forall c | c in r ensures |c.cells| == |idx| {
      var k :| 0 <= k < |r| && r[k] == c;
    }
    if WellFormed(Table(n, cols)) {
      forall c | c in r ensures WellKinded(c) {
        var k :| 0 <= k < |r| && r[k] == c;
        assert cols[k] in cols;
        forall x | x in c.cells ensures Fits(c.kind, x) {
          var a :| 0 <= a < |c.cells| && c.cells[a] == x;
          assert cols[k].cells[idx[a]] in cols[k].cells;
        }
      }
    }
  }

  /** `b` is `a` with cells changed in place: same name, kind and length, cells still fitting. */
  predicate SameShape(a: Column, b: Column) {
    a.name == b.name && a.kind == b.kind && |a.cells| == |b.cells| && WellKinded(b)
  }

  /** Changing cells column by column, in place, keeps a table well-formed. */
  lemma ReshapedWellFormed(t: Table, cols: seq<Column>)
    requires WellFormed(t) && |cols| == |t.columns|
    requires forall k :: 0 <= k < |cols| ==> SameShape(t.columns[k], cols[k])
    ensures WellFormed(Table(t.rowCount, cols)) && Names(cols) == Names(t.columns)
  {
    assert Names(cols) == Names(t.columns);
    forall c | c in cols ensures |c.cells| == t.rowCount && WellKinded(c) {
      var k :| 0 <= k < |cols| && cols[k] == c;
      assert t.columns[k] in t.columns;
    }
  }
}
