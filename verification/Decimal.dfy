/**
 * Decimal numerals, powers of ten and the value of a number's text, over exact integers and
 * rationals. `PowM10` stands for the table `powm10`, whose entry for n is ten to the power -n.
 */
module Decimal {
  import opened Bytes

  predicate Digits(ds: bytes) {
    forall i :: 0 <= i < |ds| ==> Digit(ds[i])
  }

  /** The value of a string of decimal digits. */
  function Numeral(ds: bytes): nat
    requires Digits(ds)
  {
    if ds == [] then 0
    else 10 * Numeral(ds[..|ds| - 1]) + DigitValue(ds[|ds| - 1])
  }

  lemma NumeralSnoc(ds: bytes, d: byte)
    requires Digits(ds) && Digit(d)
    ensures Digits(ds + [d])
    ensures Numeral(ds + [d]) == 10 * Numeral(ds) + DigitValue(d)
  {
    assert (ds + [d])[..|ds|] == ds;
  }

  function Pow10(n: nat): (p: nat)
    ensures p > 0
  {
    if n == 0 then 1 else 10 * Pow10(n - 1)
  }

  lemma {:induction false} NumeralConcat(a: bytes, b: bytes)
    requires Digits(a) && Digits(b)
    ensures Digits(a + b)
    ensures Numeral(a + b) == Numeral(a) * Pow10(|b|) + Numeral(b)
  {
    if b == [] {
      assert a + b == a;
    } else {
      var front, d := b[..|b| - 1], b[|b| - 1];
      NumeralConcat(a, front);
      assert a + b == (a + front) + [d] && b == front + [d];
      NumeralSnoc(a + front, d);
      NumeralSnoc(front, d);
      ShiftedSum(Numeral(a), Pow10(|front|), Numeral(front), DigitValue(d));
    }
  }

  lemma ShiftedSum(x: int, p: int, y: int, d: int)
    ensures 10 * (x * p + y) + d == x * (10 * p) + (10 * y + d)
  {
  }

  lemma {:induction false} NumeralBound(ds: bytes)
    requires Digits(ds)
    ensures Numeral(ds) < Pow10(|ds|)
  {
    if ds != [] {
      NumeralBound(ds[..|ds| - 1]);
    }
  }

  /** Ten to the power -n, for an exponent of either sign. */
  function PowM10(n: int): (r: real)
    ensures r > 0.0
    decreases if n < 0 then -n else n
  {
    if n == 0 then 1.0
    else if n > 0 then PowM10(n - 1) / 10.0
    else 10.0 * PowM10(n + 1)
  }

  /** `r` times ten to the power -n. */
  function Scale(r: real, n: int): real
    decreases if n < 0 then -n else n
  {
    if n == 0 then r
    else if n > 0 then Scale(r, n - 1) / 10.0
    else 10.0 * Scale(r, n + 1)
  }

  /** Scaling is the product with the entry of the table. */
  lemma {:induction false} ScaleIsProduct(r: real, n: int)
    ensures Scale(r, n) == r * PowM10(n)
    decreases if n < 0 then -n else n
  {
    if n > 0 {
      ScaleIsProduct(r, n - 1);
      TenFold(r, PowM10(n - 1));
    } else if n < 0 {
      ScaleIsProduct(r, n + 1);
      TenFold(r, PowM10(n + 1));
    }
  }

  lemma TenFold(x: real, y: real)
    ensures x * (y / 10.0) == (x * y) / 10.0
    ensures x * (10.0 * y) == 10.0 * (x * y)
  {
  }

  lemma {:induction false} ScaleSum(x: real, y: real, n: int)
    ensures Scale(x + y, n) == Scale(x, n) + Scale(y, n)
    decreases if n < 0 then -n else n
  {
    if n > 0 {
      ScaleSum(x, y, n - 1);
    } else if n < 0 {
      ScaleSum(x, y, n + 1);
    }
  }

  lemma {:induction false} ScaleTwice(r: real, a: nat, b: int)
    ensures Scale(Scale(r, a), b) == Scale(r, a + b)
    decreases if b < 0 then -b else b
  {
    if b > 0 {
      ScaleTwice(r, a, b - 1);
    } else if b < 0 {
      ScaleTwice(r, a, b + 1);
      assert Scale(r, a + b + 1) == Scale(r, a + b) / 10.0;
    }
  }

  lemma {:induction false} ScaleBack(x: int, k: nat)
    ensures Scale((x * Pow10(k)) as real, k) == x as real
    decreases k
  {
    if k > 0 {
      ScaleBack(x * 10, k - 1);
      assert x * 10 * Pow10(k - 1) == x * Pow10(k);
      assert Scale((x * Pow10(k)) as real, k - 1) == (x * 10) as real;
    }
  }

  lemma {:induction false} ScaleInjective(x: real, y: real, n: int)
    requires Scale(x, n) == Scale(y, n)
    ensures x == y
    decreases if n < 0 then -n else n
  {
    if n > 0 {
      ScaleInjective(x, y, n - 1);
    } else if n < 0 {
      ScaleInjective(x, y, n + 1);
    }
  }
}
