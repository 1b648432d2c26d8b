/** Sizes of finite sets. */
module Sets {
  lemma {:induction false} SubsetSize<T>(a: set<T>, b: set<T>)
    requires a <= b
    ensures |a| <= |b|
  {
    if a != {} {
      var x :| x in a;
      SubsetSize(a - {x}, b - {x});
    }
  }

  /** A set that has a whole range of numbers is at least as large as the range. */
  lemma {:induction false} RangeFits(lo: nat, hi: nat, numbers: set<nat>)
    requires lo <= hi && forall n :: lo <= n < hi ==> n in numbers
    ensures hi - lo <= |numbers|
    decreases hi
  {
    if lo < hi {
      RangeFits(lo, hi - 1, numbers - {hi - 1});
    }
  }

  lemma {:induction false} RangeSize(lo: nat, hi: nat, numbers: set<nat>)
    requires lo <= hi && forall n :: n in numbers <==> lo <= n < hi
    ensures |numbers| == hi - lo
    decreases hi
  {
    if lo < hi {
      RangeSize(lo, hi - 1, numbers - {hi - 1});
    } else {
      assert numbers == {};
    }
  }
}
