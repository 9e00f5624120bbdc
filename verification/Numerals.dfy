/** Positional numerals: the decimal and octal text that several formats print and read back. */
module Numerals {

  function Pow(base: nat, k: nat): (r: nat) {
    if k == 0 then 1 else base * Pow(base, k - 1)
  }

  /** The digits of `n`, most significant first; zero is the single digit 0. */
  function Digits(n: nat, base: nat): (r: seq<nat>)
    requires base >= 2
    ensures |r| >= 1
    ensures forall i :: 0 <= i < |r| ==> r[i] < base
  {
    if n < base then [n] else
      Shrinks(n, base);
      Digits(n / base, base) + [n % base]
  }

  /** The number a digit sequence denotes. */
  function Value(ds: seq<nat>, base: nat): (r: nat) {
    if ds == [] then 0 else Value(ds[..|ds| - 1], base) * base + ds[|ds| - 1]
  }

  function Zeros(k: nat): (r: seq<nat>)
    ensures |r| == k
    ensures forall i :: 0 <= i < k ==> r[i] == 0
  {
    seq(k, _ => 0)
  }

  /** Left-pads with zeros to at least `width` digits. */
  function Pad(ds: seq<nat>, width: nat): (r: seq<nat>) {
    if |ds| >= width then ds else Zeros(width - |ds|) + ds
  }

  lemma Recompose(n: nat, base: nat)
    requires base >= 1
    ensures n == n / base * base + n % base
  {
  }

  lemma Shrinks(n: nat, base: nat)
    requires base >= 2 && n >= base
    ensures n / base < n
  {
    assert n == (n / base) * base + n % base;
  }

  lemma PowPositive(base: nat, k: nat)
    requires base >= 1
    ensures Pow(base, k) >= 1
  {
  }

  lemma PowMonotone(base: nat, j: nat, k: nat)
    requires base >= 1 && j <= k
    ensures Pow(base, j) <= Pow(base, k)
  {
    if j < k {
      PowMonotone(base, j, k - 1);
      PowPositive(base, k - 1);
    }
  }

  /** Reading digits back gives the number that was written. */
  lemma {:induction false} DigitsDenote(n: nat, base: nat)
    requires base >= 2
    ensures Value(Digits(n, base), base) == n
  {
    if n < base {
      assert [n][..0] == [];
    } else {
      Shrinks(n, base);
      DigitsDenote(n / base, base);
      var high, low := Digits(n / base, base), n % base;
      assert (high + [low])[..|high|] == high;
      assert Value(high + [low], base) == Value(high, base) * base + low;
      Recompose(n, base);
    }
  }

  /** Zero padding does not change the number. */
  lemma {:induction false} PaddingIsSilent(k: nat, ds: seq<nat>, base: nat)
    ensures Value(Zeros(k) + ds, base) == Value(ds, base)
    decreases k + |ds|
  {
    var all := Zeros(k) + ds;
    if ds == [] {
      if k > 0 {
        assert all[..|all| - 1] == Zeros(k - 1) + ds;
        PaddingIsSilent(k - 1, ds, base);
      }
    } else {
      assert all[..|all| - 1] == Zeros(k) + ds[..|ds| - 1];
      PaddingIsSilent(k, ds[..|ds| - 1], base);
    }
  }

  lemma PadDenotes(n: nat, width: nat, base: nat)
    requires base >= 2
    ensures Value(Pad(Digits(n, base), width), base) == n
  {
    var ds := Digits(n, base);
    DigitsDenote(n, base);
    if |ds| < width {
      PaddingIsSilent(width - |ds|, ds, base);
    }
  }

  /** `n` needs at most `k` digits exactly when it is below `base^k`. */
  lemma {:induction false} DigitCount(n: nat, base: nat, k: nat)
    requires base >= 2 && k >= 1
    ensures |Digits(n, base)| <= k <==> n < Pow(base, k)
    decreases k
  {
    if n < base {
      PowMonotone(base, 1, k);
      assert Pow(base, 1) == base * Pow(base, 0) == base;
    } else {
      var q := n / base;
      Shrinks(n, base);
      if k == 1 {
        assert Pow(base, 1) == base * Pow(base, 0) == base;
      } else {
        DigitCount(q, base, k - 1);
        QuotientBelow(n, base, Pow(base, k - 1));
      }
    }
  }

  lemma Scale(base: nat, a: nat, b: nat)
    requires a <= b
    ensures base * a <= base * b
  {
  }

  lemma QuotientBelow(n: nat, base: nat, bound: nat)
    requires base >= 1
    ensures n / base < bound <==> n < base * bound
  {
    var q := n / base;
    Recompose(n, base);
    if q < bound {
      Scale(base, q + 1, bound);
    } else {
      Scale(base, bound, q);
    }
  }

  lemma DigitCountMonotone(a: nat, b: nat, base: nat)
    requires base >= 2 && a <= b
    ensures |Digits(a, base)| <= |Digits(b, base)|
  {
    DigitCount(b, base, |Digits(b, base)|);
    DigitCount(a, base, |Digits(b, base)|);
  }

  /** A number of two or more digits has no leading zero. */
  lemma {:induction false} NoLeadingZero(n: nat, base: nat)
    requires base >= 2
    ensures |Digits(n, base)| > 1 ==> Digits(n, base)[0] != 0
    ensures n == 0 <==> Digits(n, base) == [0]
  {
    if n >= base {
      Shrinks(n, base);
      NoLeadingZero(n / base, base);
    }
  }
}
