/** Byte strings, and the ASCII text of numbers inside them. */
module Bytes {
  import opened Results
  import opened Numerals

  type Byte = b: int | 0 <= b < 256

  type Bytes = seq<Byte>

  const SPACE: Byte := 32
  const SLASH: Byte := 47
  const ZERO: Byte := 48
  const NEWLINE: Byte := 10
  const EQUALS: Byte := 61

  /** The bytes of an ASCII literal. */
  function Ascii(s: string): (r: Bytes)
    requires forall i :: 0 <= i < |s| ==> s[i] as int < 128
    ensures |r| == |s|
    ensures forall i :: 0 <= i < |s| ==> r[i] == s[i] as int
  {
    seq(|s|, i requires 0 <= i < |s| => s[i] as int)
  }

  function Nuls(k: nat): (r: Bytes)
    ensures |r| == k
    ensures forall i :: 0 <= i < k ==> r[i] == 0
  {
    seq(k, _ => 0)
  }

  /** Digit values as ASCII digits. */
  function DigitBytes(ds: seq<nat>): (r: Bytes)
    requires forall i :: 0 <= i < |ds| ==> ds[i] < 10
    ensures |r| == |ds|
    ensures forall i :: 0 <= i < |ds| ==> r[i] == ZERO + ds[i]
  {
    seq(|ds|, i requires 0 <= i < |ds| => ZERO + ds[i])
  }

  function Decimal(n: nat): (r: Bytes)
    ensures |r| == |Digits(n, 10)| >= 1
    ensures forall i :: 0 <= i < |r| ==> ZERO <= r[i] < ZERO + 10
  {
    DigitBytes(Digits(n, 10))
  }

  /** Reads a non-empty run of digits of the given base. */
  function ReadNumber(bs: Bytes, base: nat): (r: Option<nat>)
    requires 2 <= base <= 10
  {
    if bs != [] && forall i :: 0 <= i < |bs| ==> ZERO <= bs[i] < ZERO + base then
      Some(Value(seq(|bs|, i requires 0 <= i < |bs| => (bs[i] - ZERO) as nat), base))
    else
      None
  }

  lemma ReadDigitBytes(ds: seq<nat>, base: nat)
    requires 2 <= base <= 10 && ds != []
    requires forall i :: 0 <= i < |ds| ==> ds[i] < base
    ensures ReadNumber(DigitBytes(ds), base) == Some(Value(ds, base))
  {
    var bs := DigitBytes(ds);
    assert seq(|bs|, i requires 0 <= i < |bs| => (bs[i] - ZERO) as nat) == ds;
  }

  lemma ReadDecimal(n: nat)
    ensures ReadNumber(Decimal(n), 10) == Some(n)
  {
    ReadDigitBytes(Digits(n, 10), 10);
    DigitsDenote(n, 10);
  }

  /** The prefix before the first occurrence of `stop`, or everything. */
  function Until(bs: Bytes, stop: Byte): (r: Bytes)
    ensures r <= bs
    ensures forall i :: 0 <= i < |r| ==> r[i] != stop
    ensures |r| < |bs| ==> bs[|r|] == stop
  {
    if bs == [] || bs[0] == stop then [] else [bs[0]] + Until(bs[1..], stop)
  }

  /** What follows the stop cannot change what comes before it. */
  lemma {:induction false} UntilIgnores(field: Bytes, rest: Bytes, stop: Byte)
    requires rest == [] || rest[0] == stop
    ensures Until(field + rest, stop) == Until(field, stop)
  {
    if field == [] {
      assert field + rest == rest;
    } else {
      assert (field + rest)[1..] == field[1..] + rest;
      UntilIgnores(field[1..], rest, stop);
    }
  }

  lemma {:induction false} UntilWhole(field: Bytes, stop: Byte)
    ensures Until(field, stop) == field <==> forall i :: 0 <= i < |field| ==> field[i] != stop
  {
    if field != [] {
      UntilWhole(field[1..], stop);
      assert field == [field[0]] + field[1..];
      assert Until(field, stop) == field ==> field[0] != stop && Until(field[1..], stop) == field[1..];
    }
  }

  /** A stop-free prefix followed by the stop is exactly what `Until` returns. */
  lemma UntilStops(field: Bytes, rest: Bytes, stop: Byte)
    requires forall i :: 0 <= i < |field| ==> field[i] != stop
    requires rest == [] || rest[0] == stop
    ensures Until(field + rest, stop) == field
  {
    UntilIgnores(field, rest, stop);
    UntilWhole(field, stop);
  }

  function Sum(bs: Bytes): (r: nat)
    ensures r <= 255 * |bs|
  {
    if bs == [] then 0 else Sum(bs[..|bs| - 1]) + bs[|bs| - 1]
  }

  lemma {:induction false} SumConcat(a: Bytes, b: Bytes)
    ensures Sum(a + b) == Sum(a) + Sum(b)
  {
    if b == [] {
      assert a + b == a;
    } else {
      var last := |b| - 1;
      assert (a + b)[..|a + b| - 1] == a + b[..last];
      SumConcat(a, b[..last]);
    }
  }
}
