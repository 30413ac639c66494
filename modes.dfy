/**
 * pandas' `mode(dropna=True)` on a text column, and the value `mode()[0]`
 * that the cleaner fills with: pandas returns every most-frequent value,
 * sorted, so the first is the least of the tied most-frequent values.
 */
module Modes {
  import opened Wrappers
  import opened Cells
  import opened TextOrder

  /** The text values of the column, in order (its present cells, for a text column). */
  function Texts(s: seq<Cell>): seq<string> {
    if s == [] then []
    else Texts(s[..|s| - 1]) + (match s[|s| - 1] case Text(t) => [t] case _ => [])
  }

  /** How often `v` occurs among `xs`. */
  function Freq(xs: seq<string>, v: string): nat {
    multiset(xs)[v]
  }

  /** `m` occurs, no value is more frequent, and every equally frequent value sorts after it. */
  predicate IsLeastMode(xs: seq<string>, m: string) {
    m in xs &&
    forall v :: v in xs ==> Freq(xs, v) < Freq(xs, m) || (Freq(xs, v) == Freq(xs, m) && StrLe(m, v))
  }

  /** The best of `pool` by frequency in `xs`, ties going to the smaller value. */
  function Pick(xs: seq<string>, pool: seq<string>): string
    requires pool != []
    decreases |pool|
  {
    if |pool| == 1 then pool[0]
    else
      var b := Pick(xs, pool[1..]);
      if Freq(xs, pool[0]) > Freq(xs, b) || (Freq(xs, pool[0]) == Freq(xs, b) && StrLe(pool[0], b))
      then pool[0] else b
  }

  /** `mode()[0]`, or `None` when `mode()` is empty. */
  function Mode(xs: seq<string>): Option<string> {
    if xs == [] then None else Some(Pick(xs, xs))
  }

  lemma {:induction false} PickIsBest(xs: seq<string>, pool: seq<string>)
    requires pool != []
    ensures Pick(xs, pool) in pool
    ensures forall v :: v in pool ==>
      Freq(xs, v) < Freq(xs, Pick(xs, pool)) ||
      (Freq(xs, v) == Freq(xs, Pick(xs, pool)) && StrLe(Pick(xs, pool), v))
    decreases |pool|
  {
    var m := Pick(xs, pool);
    if |pool| == 1 {
      StrLeRefl(m);
    } else {
      var rest := pool[1..];
      var b := Pick(xs, rest);
      PickIsBest(xs, rest);
      assert pool == [pool[0]] + rest;
      forall v | v in pool
        ensures Freq(xs, v) < Freq(xs, m) || (Freq(xs, v) == Freq(xs, m) && StrLe(m, v))
      {
        if m == pool[0] {
          if v == pool[0] {
            StrLeRefl(m);
          } else if Freq(xs, v) == Freq(xs, m) {
            StrLeTrans(m, b, v);
          }
        } else {
          StrLeTotal(pool[0], b);
        }
      }
    }
  }

  /** `mode()` is empty exactly when there is no value, and `mode()[0]` is the least most-frequent value. */
  lemma ModeIsLeastMode(xs: seq<string>)
    ensures Mode(xs).Some? <==> xs != []
    ensures Mode(xs).Some? ==> IsLeastMode(xs, Mode(xs).value)
  {
    if xs != [] {
      PickIsBest(xs, xs);
    }
  }

  /** At most one value is the least most-frequent one, so the fill value is determined. */
  lemma LeastModeUnique(xs: seq<string>, a: string, b: string)
    requires IsLeastMode(xs, a) && IsLeastMode(xs, b)
    ensures a == b
  {
    StrLeAntisym(a, b);
  }

  /** In a text column the text values are exactly the present cells. */
  lemma {:induction false} TextsOfText(s: seq<Cell>)
    requires forall x :: x in s ==> Fits(Textual, x)
    ensures seq(|Texts(s)|, i requires 0 <= i < |Texts(s)| => Text(Texts(s)[i])) == Present(s)
  {
    if s != [] {
      var p := s[..|s| - 1];
      assert forall x :: x in p ==> x in s;
      TextsOfText(p);
      assert s[|s| - 1] in s;
    }
  }
}
