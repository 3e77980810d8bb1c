/** Sums of an integer-valued function over a finite set. Used to state what the
    order-independent "for every key, add up" loops of the index compute. */
module Sums {

  /** The sum of `f` over the elements of `s`, in no particular order. */
  ghost function SumOver<T>(s: set<T>, f: T -> int): int
    decreases s
  {
    if s == {} then 0 else var x :| x in s; f(x) + SumOver(s - {x}, f)
  }

  /** Any element may be taken out first: the sum does not depend on the order. */
  lemma {:induction false} SumOverRemove<T>(s: set<T>, f: T -> int, y: T)
    requires y in s
    ensures SumOver(s, f) == f(y) + SumOver(s - {y}, f)
    decreases s
  {
    var x :| x in s && SumOver(s, f) == f(x) + SumOver(s - {x}, f);
    if x != y {
      SumOverRemove(s - {x}, f, y);
      SumOverRemove(s - {y}, f, x);
      assert s - {x} - {y} == s - {y} - {x};
    }
  }

  /** Adding a fresh element adds its value. */
  lemma SumOverInsert<T>(s: set<T>, f: T -> int, y: T)
    requires y !in s
    ensures SumOver(s + {y}, f) == SumOver(s, f) + f(y)
  {
    SumOverRemove(s + {y}, f, y);
    assert s + {y} - {y} == s;
  }

  /** The sum only depends on the values of `f` on `s`. */
  lemma {:induction false} SumOverExt<T>(s: set<T>, f: T -> int, g: T -> int)
    requires forall x :: x in s ==> f(x) == g(x)
    ensures SumOver(s, f) == SumOver(s, g)
    decreases s
  {
    if s != {} {
      var y :| y in s;
      SumOverRemove(s, f, y);
      SumOverRemove(s, g, y);
      SumOverExt(s - {y}, f, g);
    }
  }

  /** A sum of non-negative values is non-negative; it is zero when every value is. */
  lemma {:induction false} SumOverNonneg<T>(s: set<T>, f: T -> int)
    requires forall x :: x in s ==> f(x) >= 0
    ensures SumOver(s, f) >= 0
    ensures (forall x :: x in s ==> f(x) == 0) ==> SumOver(s, f) == 0
    decreases s
  {
    if s != {} {
      var y :| y in s;
      SumOverRemove(s, f, y);
      SumOverNonneg(s - {y}, f);
    }
  }

  /** With non-negative values, no single value exceeds the sum. */
  lemma SumOverAtLeastEach<T>(s: set<T>, f: T -> int)
    requires forall x :: x in s ==> f(x) >= 0
    ensures forall y :: y in s ==> f(y) <= SumOver(s, f)
  {
    forall y | y in s
      ensures f(y) <= SumOver(s, f)
    {
      SumOverRemove(s, f, y);
      SumOverNonneg(s - {y}, f);
    }
  }

  /** Counting the elements with a positive value never exceeds summing the values. */
  lemma {:induction false} PositiveCountAtMostSum<T>(s: set<T>, f: T -> int)
    requires forall x :: x in s ==> f(x) >= 0
    ensures |set x | x in s && f(x) > 0| <= SumOver(s, f)
    decreases s
  {
    if s == {} {
      assert (set x | x in s && f(x) > 0) == {};
    } else {
      var y :| y in s;
      SumOverRemove(s, f, y);
      PositiveCountAtMostSum(s - {y}, f);
      var pos := set x | x in s && f(x) > 0;
      var rest := set x | x in s - {y} && f(x) > 0;
      if f(y) > 0 {
        assert pos == rest + {y};
      } else {
        assert pos == rest;
      }
    }
  }
  /** Counting the elements with a positive value equals summing the values
      exactly when no value exceeds one. */
  lemma PositiveCountEqSum<T>(s: set<T>, f: T -> int)
    requires forall x :: x in s ==> f(x) >= 0
    ensures |set x | x in s && f(x) > 0| == SumOver(s, f) <==> forall x :: x in s ==> f(x) <= 1
  {
    if forall x :: x in s ==> f(x) <= 1 {
      PositiveCountOnes(s, f);
    } else {
      var y :| y in s && f(y) > 1;
      PositiveCountBelowSum(s, f, y);
    }
  }

  /** With values 0 or 1, counting the positive ones is summing. */
  lemma {:induction false} PositiveCountOnes<T>(s: set<T>, f: T -> int)
    requires forall x :: x in s ==> 0 <= f(x) <= 1
    ensures |set x | x in s && f(x) > 0| == SumOver(s, f)
    decreases s
  {
    if s == {} {
      assert (set x | x in s && f(x) > 0) == {};
    } else {
      var y :| y in s;
      SumOverRemove(s, f, y);
      PositiveCountOnes(s - {y}, f);
      PositiveSplit(s, f, y);
    }
  }

  /** One value above one makes the count fall short of the sum. */
  lemma {:induction false} PositiveCountBelowSum<T>(s: set<T>, f: T -> int, y: T)
    requires forall x :: x in s ==> f(x) >= 0
    requires y in s && f(y) > 1
    ensures |set x | x in s && f(x) > 0| < SumOver(s, f)
  {
    SumOverRemove(s, f, y);
    PositiveCountAtMostSum(s - {y}, f);
    PositiveSplit(s, f, y);
  }

  /** The positive elements of `s` are those of `s - {y}`, plus `y` when positive. */
  lemma PositiveSplit<T>(s: set<T>, f: T -> int, y: T)
    requires y in s
    ensures |set x | x in s && f(x) > 0|
         == |set x | x in s - {y} && f(x) > 0| + (if f(y) > 0 then 1 else 0)
  {
    var pos := set x | x in s && f(x) > 0;
    var rest := set x | x in s - {y} && f(x) > 0;
    if f(y) > 0 {
      assert pos == rest + {y};
    } else {
      assert pos == rest;
    }
  }
}
