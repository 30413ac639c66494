/**
 * Generic sequence facts used throughout the model: order-preserving
 * filtering (the shape of pandas' column selections), subsequences, and
 * sequences without repeated elements (unique column names).
 */
module Seqs {

  /** The elements of `s` that satisfy `p`, in their original order. */
  function Filter<T>(s: seq<T>, p: T -> bool): (r: seq<T>)
    ensures |r| <= |s|
  {
    if s == [] then []
    else Filter(s[..|s| - 1], p) + (if p(s[|s| - 1]) then [s[|s| - 1]] else [])
  }

  /** `r` is obtained from `s` by deleting elements, keeping the order of the rest. */
  predicate Subseq<T(==)>(r: seq<T>, s: seq<T>)
    decreases |s|
  {
    if r == [] then true
    else if s == [] then false
    else (r[|r| - 1] == s[|s| - 1] && Subseq(r[..|r| - 1], s[..|s| - 1])) || Subseq(r, s[..|s| - 1])
  }

  /** No element occurs twice. */
  predicate NoDup<T(==)>(s: seq<T>) {
    forall i, j :: 0 <= i < j < |s| ==> s[i] != s[j]
  }

  lemma {:induction false} FilterMembers<T>(s: seq<T>, p: T -> bool)
    ensures forall x :: x in Filter(s, p) ==> x in s && p(x)
    ensures forall x :: x in s && p(x) ==> x in Filter(s, p)
  {
    if s != [] {
      var s' := s[..|s| - 1];
      FilterMembers(s', p);
      assert s == s' + [s[|s| - 1]];
    }
  }

  /** Filtering with a predicate that every element satisfies changes nothing. */
  lemma {:induction false} FilterAll<T>(s: seq<T>, p: T -> bool)
    requires forall k :: 0 <= k < |s| ==> p(s[k])
    ensures Filter(s, p) == s
  {
    if s != [] {
      FilterAll(s[..|s| - 1], p);
      assert s == s[..|s| - 1] + [s[|s| - 1]];
    }
  }

  lemma {:induction false} FilterIsSubseq<T>(s: seq<T>, p: T -> bool)
    ensures Subseq(Filter(s, p), s)
  {
    if s != [] {
      var s' := s[..|s| - 1];
      FilterIsSubseq(s', p);
      var f := Filter(s', p);
      if p(s[|s| - 1]) {
        var r := f + [s[|s| - 1]];
        assert r[..|r| - 1] == f;
      } else {
        assert Filter(s, p) == f;
      }
    }
  }

  /** At least two elements satisfy `p` exactly when two distinct positions do. */
  lemma FilterAtLeastTwo<T>(s: seq<T>, p: T -> bool)
    ensures |Filter(s, p)| >= 2 <==> exists i, j :: 0 <= i < j < |s| && p(s[i]) && p(s[j])
  {
    if |Filter(s, p)| >= 2 {
      var i, j := FilterTwoPositions(s, p);
    }
    if exists i, j :: 0 <= i < j < |s| && p(s[i]) && p(s[j]) {
      var i, j :| 0 <= i < j < |s| && p(s[i]) && p(s[j]);
      FilterFromPositions(s, p, i, j);
    }
  }

  lemma {:induction false} FilterTwoPositions<T>(s: seq<T>, p: T -> bool) returns (i: nat, j: nat)
    requires |Filter(s, p)| >= 2
    ensures i < j < |s| && p(s[i]) && p(s[j])
  {
    var n := |s| - 1;
    var s' := s[..n];
    if |Filter(s', p)| >= 2 {
      i, j := FilterTwoPositions(s', p);
    } else {
      assert p(s[n]) && |Filter(s', p)| == 1;
      FilterMembers(s', p);
      var x := Filter(s', p)[0];
      assert x in Filter(s', p);
      assert x in s' && p(x);
      var k :| 0 <= k < |s'| && s'[k] == x;
      i, j := k, n;
    }
  }

  lemma {:induction false} FilterFromPositions<T>(s: seq<T>, p: T -> bool, i: nat, j: nat)
    requires i < j < |s| && p(s[i]) && p(s[j])
    ensures |Filter(s, p)| >= 2
  {
    var n := |s| - 1;
    var s' := s[..n];
    if j < n {
      FilterFromPositions(s', p, i, j);
    } else {
      FilterMembers(s', p);
      assert s'[i] in s' && p(s'[i]);
      assert |Filter(s', p)| >= 1;
    }
  }

  lemma {:induction false} SubseqMembers<T>(r: seq<T>, s: seq<T>)
    requires Subseq(r, s)
    ensures forall x :: x in r ==> x in s
    decreases |s|
  {
    if r != [] {
      var s' := s[..|s| - 1];
      assert s == s' + [s[|s| - 1]];
      if r[|r| - 1] == s[|s| - 1] && Subseq(r[..|r| - 1], s') {
        SubseqMembers(r[..|r| - 1], s');
        assert r == r[..|r| - 1] + [r[|r| - 1]];
      } else {
        SubseqMembers(r, s');
      }
    }
  }

  lemma {:induction false} SubseqLength<T>(r: seq<T>, s: seq<T>)
    requires Subseq(r, s)
    ensures |r| <= |s|
    decreases |s|
  {
    if r != [] {
      if r[|r| - 1] == s[|s| - 1] && Subseq(r[..|r| - 1], s[..|s| - 1]) {
        SubseqLength(r[..|r| - 1], s[..|s| - 1]);
      } else {
        SubseqLength(r, s[..|s| - 1]);
      }
    }
  }

  lemma {:induction false} SubseqRefl<T>(s: seq<T>)
    ensures Subseq(s, s)
  {
    if s != [] {
      SubseqRefl(s[..|s| - 1]);
    }
  }

  lemma {:induction false} SubseqTrans<T>(a: seq<T>, b: seq<T>, c: seq<T>)
    requires Subseq(a, b) && Subseq(b, c)
    ensures Subseq(a, c)
    decreases |b| + |c|
  {
    if a != [] {
      var b', c' := b[..|b| - 1], c[..|c| - 1];
      if b[|b| - 1] == c[|c| - 1] && Subseq(b', c') {
        if a[|a| - 1] == b[|b| - 1] && Subseq(a[..|a| - 1], b') {
          SubseqTrans(a[..|a| - 1], b', c');
        } else {
          SubseqTrans(a, b', c');
        }
      } else {
        SubseqTrans(a, b, c');
      }
    }
  }

  lemma {:induction false} SubseqNoDup<T>(r: seq<T>, s: seq<T>)
    requires Subseq(r, s) && NoDup(s)
    ensures NoDup(r)
    decreases |s|
  {
    if r != [] {
      var s' := s[..|s| - 1];
      assert NoDup(s');
      if r[|r| - 1] == s[|s| - 1] && Subseq(r[..|r| - 1], s') {
        var r' := r[..|r| - 1];
        SubseqNoDup(r', s');
        SubseqMembers(r', s');
        forall i, j | 0 <= i < j < |r| ensures r[i] != r[j] {
          if j == |r| - 1 {
            assert r[i] == r'[i] && r'[i] in s';
          } else {
            assert r[i] == r'[i] && r[j] == r'[j];
          }
        }
      } else {
        SubseqNoDup(r, s');
      }
    }
  }
}
