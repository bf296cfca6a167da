/**
  Sequence operations the service builds its answers from: `Array.filter`
  and `[...new Set(xs)]`, the distinct values of an array kept in the order
  in which each first appears.
 */
module Seqs {

  /** `xs.filter(p)`: the elements satisfying `p`, in their original order. */
  function Filter<T(!new)>(xs: seq<T>, p: T -> bool): (r: seq<T>)
    ensures |r| <= |xs|
    ensures forall x :: x in r <==> x in xs && p(x)
    ensures |xs| > 0 && p(xs[0]) ==> |r| > 0 && r[0] == xs[0]
    ensures |xs| > 0 && !p(xs[0]) ==> r == Filter(xs[1..], p)
  {
    if |xs| == 0 then []
    else
      var rest := Filter(xs[1..], p);
      assert forall x :: x in xs <==> x == xs[0] || x in xs[1..];
      if p(xs[0]) then [xs[0]] + rest else rest
  }

  /**
    Filtering works piece by piece: the survivors of `a + b` are the survivors
    of `a` followed by those of `b`. With a one-element input kept or dropped
    by `p`, this fixes the order and number of every kept element.
   */
  lemma {:induction false} FilterConcat<T(!new)>(a: seq<T>, b: seq<T>, p: T -> bool)
    ensures Filter(a + b, p) == Filter(a, p) + Filter(b, p)
    decreases |a|
  {
    if |a| == 0 {
      assert a + b == b;
    } else {
      assert (a + b)[0] == a[0];
      assert (a + b)[1..] == a[1..] + b;
      FilterConcat(a[1..], b, p);
    }
  }

  /** The first element of a filter is the first element of the input that passes it. */
  lemma {:induction false} FilterHead<T(!new)>(xs: seq<T>, p: T -> bool)
    requires |Filter(xs, p)| > 0
    ensures exists i :: 0 <= i < |xs| && xs[i] == Filter(xs, p)[0] && p(xs[i])
                        && forall j :: 0 <= j < i ==> !p(xs[j])
  {
    if p(xs[0]) {
      assert xs[0] == Filter(xs, p)[0];
    } else {
      FilterHead(xs[1..], p);
      var i :| 0 <= i < |xs[1..]| && xs[1..][i] == Filter(xs[1..], p)[0] && p(xs[1..][i])
               && forall j :: 0 <= j < i ==> !p(xs[1..][j]);
      assert xs[i + 1] == Filter(xs, p)[0];
      assert forall j :: 0 <= j < i + 1 ==> !p(xs[j]) by {
        forall j | 0 <= j < i + 1 ensures !p(xs[j]) {
          if j > 0 { assert xs[j] == xs[1..][j - 1]; }
        }
      }
    }
  }

  /** `xs.map(f)` */
  function Map<T, U>(xs: seq<T>, f: T -> U): seq<U> {
    seq(|xs|, i requires 0 <= i < |xs| => f(xs[i]))
  }

  /** A value is among the images of the passing elements exactly when some passing element maps to it. */
  lemma MapFilterMembership<T(!new), U>(xs: seq<T>, p: T -> bool, f: T -> U, y: U)
    ensures y in Map(Filter(xs, p), f) <==> exists i :: 0 <= i < |xs| && p(xs[i]) && f(xs[i]) == y
  {
    var kept := Filter(xs, p);
    var column := Map(kept, f);
    if y in column {
      var j :| 0 <= j < |column| && column[j] == y;
      assert kept[j] in kept;
      var i :| 0 <= i < |xs| && xs[i] == kept[j];
      assert p(xs[i]) && f(xs[i]) == y;
    }
    if exists i :: 0 <= i < |xs| && p(xs[i]) && f(xs[i]) == y {
      var i :| 0 <= i < |xs| && p(xs[i]) && f(xs[i]) == y;
      assert xs[i] in kept;
      var j :| 0 <= j < |kept| && kept[j] == xs[i];
      assert column[j] == y;
    }
  }

  predicate NoDup<T(==)>(xs: seq<T>) {
    forall i, j :: 0 <= i < j < |xs| ==> xs[i] != xs[j]
  }

  /** The position at which `x` first occurs in `xs`. */
  function FirstIndex<T(==)>(xs: seq<T>, x: T): (k: nat)
    requires x in xs
    ensures k < |xs| && xs[k] == x
    ensures forall j :: 0 <= j < k ==> xs[j] != x
  {
    if xs[0] == x then 0 else 1 + FirstIndex(xs[1..], x)
  }

  /** A value occurring before the end of `xs` first occurs at the same place in a prefix of `xs`. */
  lemma FirstIndexPrefix<T>(xs: seq<T>, n: nat, x: T)
    requires n <= |xs| && x in xs[..n]
    ensures FirstIndex(xs[..n], x) == FirstIndex(xs, x)
  {
    var p := FirstIndex(xs[..n], x);
    var q := FirstIndex(xs, x);
    assert xs[..n][p] == xs[p];
  }

  /**
    Every pair of result elements appears in the order of first occurrence:
    the earlier one has occurred in `xs` before the later one ever does.
   */
  predicate FirstOccurrenceOrder<T(==)>(r: seq<T>, xs: seq<T>) {
    forall i, j :: 0 <= i < j < |r| && r[i] in xs && r[j] in xs ==> FirstIndex(xs, r[i]) < FirstIndex(xs, r[j])
  }

  /** `[...new Set(xs)]`: each value once, in the order it was first inserted. */
  function Distinct<T(==,!new)>(xs: seq<T>): (r: seq<T>)
    ensures NoDup(r)
    ensures forall x :: x in r <==> x in xs
    ensures FirstOccurrenceOrder(r, xs)
    ensures |r| <= |xs|
  {
    if |xs| == 0 then []
    else
      var front := xs[..|xs| - 1];
      var last := xs[|xs| - 1];
      var d := Distinct(front);
      assert forall x :: x in xs <==> x in front || x == last by {
        assert xs == front + [last];
      }
      if last in d then
        OrderSurvivesExtension(xs, d);
        d
      else
        OrderSurvivesAppend(xs, d);
        d + [last]
  }

  /** First occurrences in the input without its last element are first occurrences in the input. */
  lemma OrderSurvivesExtension<T>(xs: seq<T>, d: seq<T>)
    requires |xs| > 0
    requires forall x :: x in d ==> x in xs[..|xs| - 1]
    requires FirstOccurrenceOrder(d, xs[..|xs| - 1])
    ensures FirstOccurrenceOrder(d, xs)
  {
    forall i, j | 0 <= i < j < |d| && d[i] in xs && d[j] in xs
      ensures FirstIndex(xs, d[i]) < FirstIndex(xs, d[j])
    {
      assert d[i] in d && d[j] in d;
      FirstIndexPrefix(xs, |xs| - 1, d[i]);
      FirstIndexPrefix(xs, |xs| - 1, d[j]);
    }
  }

  /** A last element seen for the first time comes after every earlier first occurrence. */
  lemma OrderSurvivesAppend<T>(xs: seq<T>, d: seq<T>)
    requires |xs| > 0
    requires forall x :: x in d ==> x in xs[..|xs| - 1]
    requires xs[|xs| - 1] !in xs[..|xs| - 1]
    requires FirstOccurrenceOrder(d, xs[..|xs| - 1])
    ensures FirstOccurrenceOrder(d + [xs[|xs| - 1]], xs)
  {
    var last := xs[|xs| - 1];
    var r := d + [last];
    assert FirstIndex(xs, last) == |xs| - 1;
    forall i, j | 0 <= i < j < |r| && r[i] in xs && r[j] in xs
      ensures FirstIndex(xs, r[i]) < FirstIndex(xs, r[j])
    {
      assert r[i] == d[i] && d[i] in d;
      FirstIndexPrefix(xs, |xs| - 1, r[i]);
      if j < |d| {
        assert r[j] == d[j] && d[j] in d;
        FirstIndexPrefix(xs, |xs| - 1, r[j]);
      }
    }
  }
}
