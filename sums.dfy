/**
 * Sums of an integer-valued function over a finite set of item ids. The
 * similarity counts of the statistics engine are such sums: one term per
 * distinct item of a transaction or a rule side.
 */
module Sums {

  /** The sum of f(x) over the elements x of s, in no particular order. */
  ghost function Sum(s: set<nat>, f: nat -> int): int
    decreases s
  {
    if s == {} then 0 else var x :| x in s; f(x) + Sum(s - {x}, f)
  }

  /** Any element can be taken out first: the order of summation does not matter. */
  lemma {:induction false} SumRemove(s: set<nat>, f: nat -> int, y: nat)
    requires y in s
    ensures Sum(s, f) == f(y) + Sum(s - {y}, f)
    decreases s
  {
    var x :| x in s && Sum(s, f) == f(x) + Sum(s - {x}, f);
    if x != y {
      SumRemove(s - {x}, f, y);
      SumRemove(s - {y}, f, x);
      assert s - {x} - {y} == s - {y} - {x};
    }
  }

  /** A sum of non-negative terms is non-negative, and it is zero exactly when every term is. */
  lemma {:induction false} SumZero(s: set<nat>, f: nat -> int)
    requires forall x :: x in s ==> f(x) >= 0
    ensures Sum(s, f) >= 0
    ensures Sum(s, f) == 0 <==> forall x :: x in s ==> f(x) == 0
    decreases s
  {
    if s != {} {
      var y :| y in s;
      SumRemove(s, f, y);
      SumZero(s - {y}, f);
    }
  }

  /** Summing termwise smaller values gives a smaller sum, equal only if every term is equal. */
  lemma {:induction false} SumLe(s: set<nat>, f: nat -> int, g: nat -> int)
    requires forall x :: x in s ==> f(x) <= g(x)
    ensures Sum(s, f) <= Sum(s, g)
    ensures Sum(s, f) == Sum(s, g) <==> forall x :: x in s ==> f(x) == g(x)
    decreases s
  {
    if s != {} {
      var y :| y in s;
      SumRemove(s, f, y);
      SumRemove(s, g, y);
      SumLe(s - {y}, f, g);
    }
  }

}
