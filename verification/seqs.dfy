/** Sequence helpers shared by the pipeline and the survey rules: occurrence
    counts and the distinct values of a sequence in first-seen order (what
    pandas' Series.unique and Python's Counter both produce). */
module Seqs {

  function Count<T(==)>(xs: seq<T>, x: T): (n: nat)
    ensures n <= |xs|
    ensures n > 0 <==> x in xs
  {
    if xs == [] then 0
    else Count(xs[..|xs| - 1], x) + (if xs[|xs| - 1] == x then 1 else 0)
  }

  /** Position of the first occurrence of x. */
  function FirstIndex<T(==)>(xs: seq<T>, x: T): (i: nat)
    requires x in xs
    ensures i < |xs| && xs[i] == x && x !in xs[..i]
  {
    if xs[0] == x then 0 else 1 + FirstIndex(xs[1..], x)
  }

  predicate NoDuplicates<T(==)>(xs: seq<T>)
  {
    forall i, j :: 0 <= i < j < |xs| ==> xs[i] != xs[j]
  }

  /** The distinct values of xs, each once, ordered by first appearance. */
  function Distinct<T(==,!new)>(xs: seq<T>): (r: seq<T>)
    ensures forall x :: x in r <==> x in xs
    ensures NoDuplicates(r)
    ensures forall i, j :: 0 <= i < j < |r| ==> FirstIndex(xs, r[i]) < FirstIndex(xs, r[j])
  {
    if xs == [] then []
    else
      var init := xs[..|xs| - 1];
      var d := Distinct(init);
      var last := xs[|xs| - 1];
      assert xs == init + [last];
      assert forall i :: 0 <= i < |d| ==> d[i] in init by {
        forall i | 0 <= i < |d| ensures d[i] in init {
          assert d[i] in d;
        }
      }
      if last in d then
        DistinctKeepsOrder(init, last, d);
        d
      else
        DistinctKeepsOrder(init, last, d);
        DistinctAppend(init, last, d);
        d + [last]
  }

  /** Positions of first appearance do not move when an element is appended. */
  lemma DistinctKeepsOrder<T>(init: seq<T>, last: T, d: seq<T>)
    requires forall i :: 0 <= i < |d| ==> d[i] in init
    requires forall i, j :: 0 <= i < j < |d| ==> FirstIndex(init, d[i]) < FirstIndex(init, d[j])
    ensures forall i :: 0 <= i < |d| ==> d[i] in init + [last]
    ensures forall i :: 0 <= i < |d| ==> FirstIndex(init + [last], d[i]) == FirstIndex(init, d[i])
    ensures forall i, j :: 0 <= i < j < |d| ==> FirstIndex(init + [last], d[i]) < FirstIndex(init + [last], d[j])
  {
    forall i | 0 <= i < |d| ensures FirstIndex(init + [last], d[i]) == FirstIndex(init, d[i]) {
      FirstIndexOfPrefix(init + [last], init, d[i]);
    }
  }

  /** A value not seen before is first seen last. */
  lemma DistinctAppend<T>(init: seq<T>, last: T, d: seq<T>)
    requires forall i :: 0 <= i < |d| ==> d[i] in init
    requires last !in init
    requires forall i :: 0 <= i < |d| ==> FirstIndex(init + [last], d[i]) == FirstIndex(init, d[i])
    requires forall i, j :: 0 <= i < j < |d| ==> FirstIndex(init + [last], d[i]) < FirstIndex(init + [last], d[j])
    ensures forall i, j :: 0 <= i < j < |d + [last]| ==>
              FirstIndex(init + [last], (d + [last])[i]) < FirstIndex(init + [last], (d + [last])[j])
  {
    var xs, r := init + [last], d + [last];
    assert FirstIndex(xs, last) == |init| by {
      assert xs[..|init|] == init;
    }
    forall i, j | 0 <= i < j < |r| ensures FirstIndex(xs, r[i]) < FirstIndex(xs, r[j]) {
      assert r[i] == d[i];
    }
  }

  lemma FirstIndexOfPrefix<T>(xs: seq<T>, p: seq<T>, x: T)
    requires p <= xs && x in p
    ensures FirstIndex(xs, x) == FirstIndex(p, x)
  {
    var i, j := FirstIndex(xs, x), FirstIndex(p, x);
    assert xs[j] == x;
  }
}
