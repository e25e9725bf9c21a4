/**
 * Sums over finite sets, used to specify the accumulator loops of the
 * reporters (sums of distances, sums of histogram counts).  The set is
 * visited in no particular order, as the source's hash-table and tree
 * iterations are treated here.
 */
module Sums {

  /** The sum of `f` over the elements of `s`. */
  ghost function Sum<T>(s: set<T>, f: T -> int): int
    decreases |s|
  {
    if s == {} then 0
    else
      var x :| x in s;
      f(x) + Sum(s - {x}, f)
  }

  /** Any element can be taken out first: the sum does not depend on the order. */
  lemma {:induction false} SumRemove<T>(s: set<T>, f: T -> int, y: T)
    requires y in s
    ensures Sum(s, f) == f(y) + Sum(s - {y}, f)
    decreases |s|
  {
    var x :| x in s && Sum(s, f) == f(x) + Sum(s - {x}, f);
    if x != y {
      SumRemove(s - {x}, f, y);
      SumRemove(s - {y}, f, x);
      assert s - {x} - {y} == s - {y} - {x};
    }
  }

  lemma SumAdd<T>(s: set<T>, f: T -> int, y: T)
    requires y !in s
    ensures Sum(s + {y}, f) == Sum(s, f) + f(y)
  {
    SumRemove(s + {y}, f, y);
    assert s + {y} - {y} == s;
  }

  /** Two functions that agree on `s` have the same sum over it. */
  lemma {:induction false} SumAgree<T>(s: set<T>, f: T -> int, g: T -> int)
    requires forall x :: x in s ==> f(x) == g(x)
    ensures Sum(s, f) == Sum(s, g)
    decreases |s|
  {
    if s != {} {
      var x :| x in s;
      SumRemove(s, f, x);
      SumRemove(s, g, x);
      SumAgree(s - {x}, f, g);
    }
  }

  /** A sum of non-negative terms over a non-empty set with a positive term is positive. */
  lemma {:induction false} SumPositive<T>(s: set<T>, f: T -> int)
    requires forall x :: x in s ==> f(x) >= 1
    ensures Sum(s, f) >= |s|
    decreases |s|
  {
    if s != {} {
      var x :| x in s;
      SumRemove(s, f, x);
      SumPositive(s - {x}, f);
    }
  }

  /** The elements of `s` that `f` sends to `k`. */
  ghost function Preimage<T>(s: set<T>, f: T -> int, k: int): set<T> {
    set x | x in s && f(x) == k
  }

  lemma PreimageAdd<T>(s: set<T>, f: T -> int, y: T, k: int)
    requires y !in s
    ensures |Preimage(s + {y}, f, k)| == |Preimage(s, f, k)| + (if f(y) == k then 1 else 0)
  {
    if f(y) == k {
      assert Preimage(s + {y}, f, k) == Preimage(s, f, k) + {y};
    } else {
      assert Preimage(s + {y}, f, k) == Preimage(s, f, k);
    }
  }

  lemma ProperSubsetCard<T>(a: set<T>, b: set<T>)
    requires a < b
    ensures |a| < |b|
  {
    assert b == a + (b - a);
  }
}
