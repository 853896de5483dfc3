/** Sums of a weight over a sequence, and how they react to point updates. */
module Sums {

  ghost function Sum<T>(xs: seq<T>, f: T -> nat): (r: nat)
  {
    if xs == [] then 0 else f(xs[0]) + Sum(xs[1..], f)
  }

  lemma {:induction false} SumAppend<T>(xs: seq<T>, ys: seq<T>, f: T -> nat)
    ensures Sum(xs + ys, f) == Sum(xs, f) + Sum(ys, f)
  {
    if xs == [] {
      assert xs + ys == ys;
    } else {
      assert (xs + ys)[1..] == xs[1..] + ys;
      SumAppend(xs[1..], ys, f);
    }
  }

  lemma SumSplit<T>(xs: seq<T>, i: nat, f: T -> nat)
    requires i < |xs|
    ensures Sum(xs, f) == Sum(xs[..i], f) + f(xs[i]) + Sum(xs[i + 1..], f)
  {
    assert xs == xs[..i] + xs[i..];
    SumAppend(xs[..i], xs[i..], f);
  }

  lemma SumUpdate<T>(xs: seq<T>, i: nat, x: T, f: T -> nat)
    requires i < |xs|
    ensures Sum(xs[i := x], f) == Sum(xs, f) - f(xs[i]) + f(x)
  {
    var ys := xs[i := x];
    SumSplit(xs, i, f);
    SumSplit(ys, i, f);
    assert ys[..i] == xs[..i] && ys[i + 1..] == xs[i + 1..];
  }

  lemma SumRemove<T>(xs: seq<T>, i: nat, f: T -> nat)
    requires i < |xs|
    ensures Sum(xs[..i] + xs[i + 1..], f) == Sum(xs, f) - f(xs[i])
  {
    SumSplit(xs, i, f);
    SumAppend(xs[..i], xs[i + 1..], f);
  }

  lemma SumMember<T>(xs: seq<T>, i: nat, f: T -> nat)
    requires i < |xs|
    ensures f(xs[i]) <= Sum(xs, f)
  {
    SumSplit(xs, i, f);
  }

  lemma {:induction false} SumWitness<T>(xs: seq<T>, f: T -> nat) returns (i: nat)
    requires Sum(xs, f) > 0
    ensures i < |xs| && f(xs[i]) > 0
  {
    if f(xs[0]) > 0 {
      i := 0;
    } else {
      var j := SumWitness(xs[1..], f);
      i := j + 1;
    }
  }

  lemma {:induction false} SumConstant<T>(xs: seq<T>, f: T -> nat, c: nat)
    requires forall i :: 0 <= i < |xs| ==> f(xs[i]) == c
    ensures Sum(xs, f) == c * |xs|
  {
    if xs != [] {
      assert forall i :: 0 <= i < |xs[1..]| ==> xs[1..][i] == xs[i + 1];
      SumConstant(xs[1..], f, c);
    }
  }

  lemma {:induction false} SumMonotone<T>(xs: seq<T>, f: T -> nat, g: T -> nat)
    requires forall i :: 0 <= i < |xs| ==> f(xs[i]) <= g(xs[i])
    ensures Sum(xs, f) <= Sum(xs, g)
  {
    if xs != [] {
      assert forall i :: 0 <= i < |xs[1..]| ==> xs[1..][i] == xs[i + 1];
      SumMonotone(xs[1..], f, g);
    }
  }
}
