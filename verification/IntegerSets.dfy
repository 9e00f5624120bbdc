/** The ascending listing of a finite set of integers. */
module IntegerSets {
  import opened Minima

  /** Some element of a set that has one. */
  lemma Pick<T>(s: set<T>) returns (x: T)
    requires s != {}
    ensures x in s
  {
    x :| x in s;
  }

  predicate AtMost(a: int, b: int) {
    a <= b
  }

  function Ascending(s: set<int>): (r: seq<int>)
    ensures forall i, j :: 0 <= i < j < |r| ==> r[i] < r[j]
    ensures forall x :: x in r <==> x in s
  {
    if s == {} then [] else
      LeastExists(AtMost, s);
      var m :| IsLeast(AtMost, m, s);
      [m] + Ascending(s - {m})
  }
}
