/** The least element of a finite set under a total order. */
module Minima {

  ghost predicate TotalOrder<T(!new)>(leq: (T, T) -> bool) {
    && (forall a, b :: leq(a, b) || leq(b, a))
    && (forall a, b :: leq(a, b) && leq(b, a) ==> a == b)
    && (forall a, b, c :: leq(a, b) && leq(b, c) ==> leq(a, c))
  }

  predicate IsLeast<T(==)>(leq: (T, T) -> bool, m: T, s: set<T>) {
    m in s && forall x :: x in s ==> leq(m, x)
  }

  lemma {:induction false} LeastExists<T(!new)>(leq: (T, T) -> bool, s: set<T>)
    requires TotalOrder(leq) && s != {}
    ensures exists m :: IsLeast(leq, m, s)
    ensures forall m, n :: IsLeast(leq, m, s) && IsLeast(leq, n, s) ==> m == n
    decreases s
  {
    var x :| x in s;
    if s == {x} {
      assert IsLeast(leq, x, s);
    } else {
      LeastExists(leq, s - {x});
      var m :| IsLeast(leq, m, s - {x});
      var least := if leq(m, x) then m else x;
      forall y | y in s
        ensures leq(least, y)
      {
        assert y == x || y in s - {x};
      }
      assert IsLeast(leq, least, s);
    }
  }
}
