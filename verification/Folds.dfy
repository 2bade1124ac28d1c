/** Sums over sequences, with the facts needed when a sequence grows at the end,
    loses its head, or has one element replaced. */
module Folds {

  function Total<X>(xs: seq<X>, g: X -> int): int
  {
    if xs == [] then 0 else g(xs[0]) + Total(xs[1..], g)
  }

  lemma {:induction false} TotalAppend<X>(xs: seq<X>, x: X, g: X -> int)
    ensures Total(xs + [x], g) == Total(xs, g) + g(x)
  {
    if xs == [] {
      assert [x][1..] == [];
    } else {
      assert (xs + [x])[1..] == xs[1..] + [x];
      TotalAppend(xs[1..], x, g);
    }
  }

  lemma {:induction false} TotalUpdate<X>(xs: seq<X>, k: nat, x: X, g: X -> int)
    requires k < |xs|
    ensures Total(xs[k := x], g) == Total(xs, g) - g(xs[k]) + g(x)
  {
    if k == 0 {
      assert xs[0 := x][1..] == xs[1..];
    } else {
      assert xs[k := x][1..] == xs[1..][k - 1 := x];
      TotalUpdate(xs[1..], k - 1, x, g);
    }
  }

  /** A sum that reaches its upper bound has every element at the bound. */
  lemma {:induction false} TotalFull<X>(xs: seq<X>, g: X -> int)
    requires forall x | x in xs :: g(x) <= 1
    requires Total(xs, g) == |xs|
    ensures forall x | x in xs :: g(x) == 1
  {
    if xs != [] {
      AtMostOneEach(xs[1..], g);
      TotalFull(xs[1..], g);
      assert xs == [xs[0]] + xs[1..];
    }
  }

  lemma {:induction false} AtMostOneEach<X>(xs: seq<X>, g: X -> int)
    requires forall x | x in xs :: g(x) <= 1
    ensures Total(xs, g) <= |xs|
  {
    if xs != [] {
      AtMostOneEach(xs[1..], g);
    }
  }

  /** Non-negative summands: the total is zero exactly when every summand is. */
  lemma {:induction false} TotalZero<X>(xs: seq<X>, g: X -> int)
    requires forall x | x in xs :: g(x) >= 0
    ensures Total(xs, g) >= 0
    ensures Total(xs, g) == 0 <==> forall x | x in xs :: g(x) == 0
  {
    if xs != [] {
      TotalZero(xs[1..], g);
      assert xs == [xs[0]] + xs[1..];
    }
  }
}
