/** Bounds on how storage may grow with the work (benchmarks/scripts/test-tiny-lifecycle-certification.py). */
module Growth {

  /** A quantity observed at three scales. */
  datatype Series = Series(a: int, b: int, c: int)

  predicate Increasing(s: Series) {
    s.a < s.b < s.c
  }

  predicate Positive(s: Series) {
    s.a > 0 && s.b > 0 && s.c > 0
  }

  // ----- the four bounds; false is the `ValueError`

  predicate PositiveSlopes(v: Series, w: Series) {
    && v.a < v.b && v.b < v.c
    && (v.b - v.a) * (w.c - w.b) <= 2 * ((v.c - v.b) * (w.b - w.a))
    && (v.c - v.b) * (w.b - w.a) <= 2 * ((v.b - v.a) * (w.c - w.b))
  }

  predicate SublinearGrowth(v: Series, w: Series) {
    v.a >= 0 && v.b >= 0 && v.c >= 0 && v.c * w.a * 2 <= v.a * w.c
  }

  predicate PeakEnvelope(v: Series, w: Series) {
    v.a < v.b && v.b < v.c && v.b * w.a <= v.a * w.b && v.c * w.b <= v.b * w.c
  }

  predicate NormalizedCeiling(v: Series, w: Series, nondecreasing: bool) {
    && Positive(v) && (nondecreasing ==> v.a <= v.b && v.b <= v.c)
    && v.b * w.a <= 2 * v.a * w.b && v.c * w.a <= 2 * v.a * w.c
  }

  // ----- affine costs

  /** An operation's cost: fixed overhead and a rate. */
  datatype Cost = Cost(fixed: int, rate: int)

  function At(cost: Cost, w: int): (r: int) {
    cost.fixed + cost.rate * w
  }

  function Along(cost: Cost, w: Series): (r: Series) {
    Series(At(cost, w.a), At(cost, w.b), At(cost, w.c))
  }

  /** The most expensive operation. */
  function Most(costs: seq<Cost>, w: int): (r: int)
    requires costs != []
    ensures forall c :: c in costs ==> At(c, w) <= r
    ensures exists c :: c in costs && At(c, w) == r
  {
    var last := costs[|costs| - 1];
    if |costs| == 1 then At(last, w) else
      var rest := Most(costs[..|costs| - 1], w);
      assert forall c :: c in costs <==> c in costs[..|costs| - 1] || c == last;
      if At(last, w) > rest then At(last, w) else rest
  }

  function Envelope(costs: seq<Cost>, w: Series): (r: Series)
    requires costs != []
  {
    Series(Most(costs, w.a), Most(costs, w.b), Most(costs, w.c))
  }

  lemma Product(x: int, y: int)
    requires x >= 0 && y >= 0
    ensures x * y >= 0
  {
  }

  /** Every affine cost with a positive rate passes the slope bound. */
  lemma AffineHasPositiveSlopes(cost: Cost, w: Series)
    requires Increasing(w) && cost.rate > 0
    ensures PositiveSlopes(Along(cost, w), w)
  {
    var v, p, q := Along(cost, w), w.b - w.a, w.c - w.b;
    assert v.b - v.a == cost.rate * p && v.c - v.b == cost.rate * q;
    assert cost.rate * p * q == cost.rate * q * p;
    Product(p, q);
    Product(cost.rate, p * q);
    assert cost.rate * p * q == cost.rate * (p * q);
    Product(cost.rate - 1, p);
    Product(cost.rate - 1, q);
  }

  lemma OneCostPerWorkFalls(c: Cost, x: int, y: int)
    requires c.fixed >= 0 && 0 < x < y
    ensures At(c, y) * x <= At(c, x) * y
  {
    Product(c.fixed, y - x);
    assert At(c, x) * y - At(c, y) * x == c.fixed * (y - x);
  }

  lemma Dearest(costs: seq<Cost>, w: int) returns (c: Cost)
    requires costs != []
    ensures c in costs && At(c, w) == Most(costs, w)
  {
    hide At;
    assert Most(costs, w) == Most(costs, w);
    c :| c in costs && At(c, w) == Most(costs, w);
  }

  /** Cost per work does not rise: the most expensive operation, with non-negative overheads. */
  lemma CostPerWorkFalls(costs: seq<Cost>, x: int, y: int)
    requires costs != [] && (forall c :: c in costs ==> c.fixed >= 0) && 0 < x < y
    ensures Most(costs, y) * x <= Most(costs, x) * y
  {
    hide At;
    var c := Dearest(costs, y);
    OneCostPerWorkFalls(c, x, y);
    Product(Most(costs, x) - At(c, x), y);
    assert (Most(costs, x) - At(c, x)) * y == Most(costs, x) * y - At(c, x) * y;
  }

  /** The maximum over affine costs passes the envelope exactly when it strictly increases. */
  lemma EnvelopePassesExactly(costs: seq<Cost>, w: Series)
    requires costs != [] && (forall c :: c in costs ==> c.fixed >= 0) && w.a > 0 && Increasing(w)
    ensures PeakEnvelope(Envelope(costs, w), w) <==> Increasing(Envelope(costs, w))
  {
    CostPerWorkFalls(costs, w.a, w.b);
    CostPerWorkFalls(costs, w.b, w.c);
  }

  lemma Cancel(x: int, y: int, z: int)
    requires z > 0 && x * z <= y * z
    ensures x <= y
  {
  }

  /** On positive values the envelope is the stricter bound. */
  lemma EnvelopeImpliesCeiling(v: Series, w: Series)
    requires Positive(v) && w.a > 0 && Increasing(w) && PeakEnvelope(v, w)
    ensures NormalizedCeiling(v, w, true)
  {
    Product(v.a, w.b);
    Product(v.a, w.c);
    Ratio(v, w);
  }

  lemma Ratio(v: Series, w: Series)
    requires Positive(v) && Positive(w) && v.b * w.a <= v.a * w.b && v.c * w.b <= v.b * w.c
    ensures v.c * w.a <= v.a * w.c
  {
    var p, q := v.a * w.b - v.b * w.a, v.b * w.c - v.c * w.b;
    Product(p, w.c);
    Product(q, w.a);
    assert v.c * w.a * w.b <= v.a * w.c * w.b by {
      assert v.a * w.c * w.b - v.c * w.a * w.b == p * w.c + q * w.a;
    }
    Cancel(v.c * w.a, v.a * w.c, w.b);
  }

  /**
   * Over one, two and four times the work, an affine owner is taken for a copy exactly when its
   * overhead is below twice its first share of the data.
   */
  lemma SublinearExactly(cost: Cost, w: int)
    requires w > 0 && At(cost, w) >= 0 && At(cost, 2 * w) >= 0 && At(cost, 4 * w) >= 0
    ensures var works := Series(w, 2 * w, 4 * w);
            SublinearGrowth(Along(cost, works), works) <==> cost.fixed >= 2 * cost.rate * w
  {
    var works := Series(w, 2 * w, 4 * w);
    var v := Along(cost, works);
    var slack := cost.fixed - 2 * cost.rate * w;
    assert v.a * works.c - v.c * works.a * 2 == 2 * (slack * w) by {
      assert v.a * works.c == 4 * (v.a * w) && v.c * works.a * 2 == 2 * (v.c * w);
      assert 2 * v.a - v.c == slack;
      assert 2 * (v.a * w) - v.c * w == (2 * v.a - v.c) * w;
    }
    SignOf(slack, w);
  }

  lemma SignOf(x: int, w: int)
    requires w > 0
    ensures x * w >= 0 <==> x >= 0
  {
    if x < 0 {
      Product(-x - 1, w);
    }
  }

  // ----- the bounds as rates

  /** Growth per unit of work between two scales. */
  function Slope(v0: int, v1: int, w0: int, w1: int): (r: real)
    requires w0 < w1
  {
    (v1 - v0) as real / (w1 - w0) as real
  }

  /** Value per unit of work. */
  function PerWork(v: int, w: int): (r: real)
    requires w > 0
  {
    v as real / w as real
  }

  lemma CrossMultiply(a: int, b: int, c: int, d: int)
    requires b > 0 && d > 0
    ensures a as real / b as real <= c as real / d as real <==> a * d <= c * b
  {
    var x, y := a as real / b as real, c as real / d as real;
    assert x * b as real == a as real && y * d as real == c as real;
    var k := b as real * d as real;
    assert k > 0.0;
    assert (a * d) as real == x * k && (c * b) as real == y * k by {
      assert (a * d) as real == a as real * d as real && (c * b) as real == c as real * b as real;
    }
    Scaled(x, y, k);
  }

  lemma Scaled(x: real, y: real, k: real)
    requires k > 0.0
    ensures x <= y <==> x * k <= y * k
  {
  }

  lemma Doubled(a: int, b: int, c: int, d: int)
    requires b > 0 && d > 0
    ensures a as real / b as real <= 2.0 * (c as real / d as real) <==> a * d <= 2 * (c * b)
  {
    CrossMultiply(a, b, 2 * c, d);
    assert (2 * c) as real / d as real == 2.0 * (c as real / d as real) by {
      var y := c as real / d as real;
      assert y * d as real == c as real;
      assert (2.0 * y) * d as real == (2 * c) as real;
    }
  }

  /** The slope bound refuses exactly growth that is not positive, and adjacent slopes more than a factor two apart. */
  lemma PositiveSlopesExactly(v: Series, w: Series)
    requires Increasing(w)
    ensures var s, t := Slope(v.a, v.b, w.a, w.b), Slope(v.b, v.c, w.b, w.c);
            PositiveSlopes(v, w) <==> Increasing(v) && s <= 2.0 * t && t <= 2.0 * s
  {
    Doubled(v.b - v.a, w.b - w.a, v.c - v.b, w.c - w.b);
    Doubled(v.c - v.b, w.c - w.b, v.b - v.a, w.b - w.a);
  }

  /**
   * The ceiling refuses exactly values that are not positive, that fall where they must not, or that exceed
   * twice the first per unit of work.
   */
  lemma NormalizedCeilingExactly(v: Series, w: Series, nondecreasing: bool)
    requires Positive(w)
    ensures NormalizedCeiling(v, w, nondecreasing) <==>
            && v.a > 0 && v.b > 0 && v.c > 0 && (nondecreasing ==> v.a <= v.b <= v.c)
            && PerWork(v.b, w.b) <= 2.0 * PerWork(v.a, w.a) && PerWork(v.c, w.c) <= 2.0 * PerWork(v.a, w.a)
  {
    Doubled(v.b, w.b, v.a, w.a);
    Doubled(v.c, w.c, v.a, w.a);
  }

  /** The envelope refuses exactly what does not strictly grow, or grows per unit of work. */
  lemma PeakEnvelopeExactly(v: Series, w: Series)
    requires Positive(w)
    ensures PeakEnvelope(v, w) <==>
            Increasing(v) && PerWork(v.b, w.b) <= PerWork(v.a, w.a) && PerWork(v.c, w.c) <= PerWork(v.b, w.b)
  {
    CrossMultiply(v.b, w.b, v.a, w.a);
    CrossMultiply(v.c, w.c, v.b, w.b);
  }

  /** An owner without payload is refused exactly when it is negative, or at the end holds more than half as much per unit of work. */
  lemma SublinearGrowthExactly(v: Series, w: Series)
    requires Positive(w)
    ensures SublinearGrowth(v, w) <==>
            v.a >= 0 && v.b >= 0 && v.c >= 0 && 2.0 * PerWork(v.c, w.c) <= PerWork(v.a, w.a)
  {
    CrossMultiply(2 * v.c, w.c, v.a, w.a);
    assert (2 * v.c) as real / w.c as real == 2.0 * PerWork(v.c, w.c) by {
      var y := v.c as real / w.c as real;
      assert y * w.c as real == v.c as real;
      assert (2.0 * y) * w.c as real == (2 * v.c) as real;
    }
    assert 2 * v.c * w.a == v.c * w.a * 2;
  }
}
