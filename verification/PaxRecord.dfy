/**
 * One pax extended-header record: `LENGTH KEYWORD=VALUE\n`, whose decimal LENGTH counts the
 * whole record including itself (scripts/ci/portable-contract.py).
 */
module PaxRecord {
  import opened Numerals
  import opened Bytes

  function Body(keyword: Bytes, value: Bytes): (r: Bytes)
    ensures |r| == |keyword| + |value| + 2
  {
    keyword + [EQUALS] + value + [NEWLINE]
  }

  /** The size of a record whose prefix is the decimal text of `length`. */
  function SizeWith(body: nat, length: nat): (r: nat) {
    |Digits(length, 10)| + 1 + body
  }

  /** A length prefix that tells the truth about its own record. */
  ghost predicate SelfConsistent(body: nat, length: nat) {
    SizeWith(body, length) == length
  }

  ghost predicate IsLeastLength(body: nat, length: nat) {
    SelfConsistent(body, length) && forall m :: SelfConsistent(body, m) ==> length <= m
  }

  /** The smallest truthful length. */
  ghost function LeastLength(body: nat): (r: nat)
    ensures IsLeastLength(body, r)
  {
    LeastLengthExists(body);
    var r :| IsLeastLength(body, r);
    r
  }

  ghost function Record(keyword: Bytes, value: Bytes): (r: Bytes)
    ensures |r| == LeastLength(|Body(keyword, value)|)
  {
    var body := Body(keyword, value);
    Decimal(LeastLength(|body|)) + [SPACE] + body
  }

  /** The writer's search loop: it stops, and at the least truthful length. */
  method PaxRecord(keyword: Bytes, value: Bytes) returns (record: Bytes)
    ensures record == Record(keyword, value)
    ensures SelfConsistent(|Body(keyword, value)|, |record|)
    ensures forall m :: SelfConsistent(|Body(keyword, value)|, m) ==> |record| <= m
  {
    var body := Body(keyword, value);
    var length := |body| + 2;
    ghost var least := LeastLength(|body|);
    while true
      invariant length <= least
      invariant length <= SizeWith(|body|, length)
      decreases least - length
    {
      record := Decimal(length) + [SPACE] + body;
      if |record| == length {
        assert SelfConsistent(|body|, length);
        return;
      }
      DigitCountMonotone(length, least, 10);
      DigitCountMonotone(length, |record|, 10);
      length := |record|;
    }
  }

  // ----- existence of a least truthful length

  lemma {:induction false} FewDigits(n: nat)
    ensures |Digits(n, 10)| <= n / 2 + 1
  {
    if n >= 10 {
      FewDigits(n / 10);
    }
  }

  lemma LeastLengthExists(body: nat)
    ensures exists r :: IsLeastLength(body, r)
  {
    Climb(body, body + 2);
  }

  lemma {:induction false} Climb(body: nat, length: nat)
    requires length <= SizeWith(body, length)
    requires length <= 2 * body + 4
    requires forall m :: SelfConsistent(body, m) ==> length <= m
    ensures exists r :: IsLeastLength(body, r)
    decreases 2 * body + 4 - length
  {
    var next := SizeWith(body, length);
    if next == length {
      assert IsLeastLength(body, length);
    } else {
      forall m | SelfConsistent(body, m)
        ensures next <= m
      {
        DigitCountMonotone(length, m, 10);
      }
      FewDigits(2 * body + 4);
      DigitCountMonotone(length, 2 * body + 4, 10);
      DigitCountMonotone(length, next, 10);
      Climb(body, next);
    }
  }

  // ----- how many truthful lengths there are

  lemma {:induction false} PowGap(k: nat, e: nat)
    ensures Pow(10, k + e) >= Pow(10, k) + 9 * e
  {
    if e > 0 {
      PowGap(k, e - 1);
      assert Pow(10, k + e) == 10 * Pow(10, k + e - 1);
      PowPositive(10, k + e - 1);
    }
  }

  /** Two different truthful lengths are 10^k - 1 and 10^k, where k is the width of the smaller. */
  lemma TwoLengthsStraddle(body: nat, a: nat, b: nat)
    requires a < b && SelfConsistent(body, a) && SelfConsistent(body, b)
    ensures var k := |Digits(a, 10)|;
            b == a + 1 == Pow(10, k) && body + k + 2 == Pow(10, k)
  {
    var k, j := |Digits(a, 10)|, |Digits(b, 10)|;
    DigitCount(a, 10, k);
    assert j > k;
    DigitCount(b, 10, j - 1);
    PowGap(k, j - 1 - k);
  }

  /** The length is ambiguous exactly at the digit boundaries 10^k = body + k + 2. */
  lemma AmbiguousExactlyAtBoundaries(body: nat)
    ensures (exists a, b :: a < b && SelfConsistent(body, a) && SelfConsistent(body, b))
       <==> (exists k: nat :: k >= 1 && body + k + 2 == Pow(10, k))
  {
    if a, b :| a < b && SelfConsistent(body, a) && SelfConsistent(body, b) {
      TwoLengthsStraddle(body, a, b);
    }
    if k: nat :| k >= 1 && body + k + 2 == Pow(10, k) {
      BoundaryIsAmbiguous(body, k);
    }
  }

  lemma BoundaryIsAmbiguous(body: nat, k: nat)
    requires k >= 1 && body + k + 2 == Pow(10, k)
    ensures SelfConsistent(body, Pow(10, k) - 1) && SelfConsistent(body, Pow(10, k))
  {
    hide Digits;
    var b := Pow(10, k);
    PowPositive(10, k - 1);
    DigitCount(b - 1, 10, k);
    DigitCount(b, 10, k);
    DigitCount(b, 10, k + 1);
    if k > 1 {
      PowGap(k - 1, 1);
      DigitCount(b - 1, 10, k - 1);
    }
  }
}
