/** Exact powers with a natural exponent and the geometric sum that the
    annuity formula is built from, over Dafny's unbounded `real`. */
module Power {

  /** b raised to the natural power n. */
  function Pow(b: real, n: nat): real
  {
    if n == 0 then 1.0 else b * Pow(b, n - 1)
  }

  /** 1 + q + q^2 + ... + q^(n-1), written as the recurrence G(n) = q * G(n-1) + 1
      that the month-by-month balance follows. */
  function Geom(q: real, n: nat): real
  {
    if n == 0 then 0.0 else q * Geom(q, n - 1) + 1.0
  }

  function Abs(x: real): real
  {
    if x < 0.0 then -x else x
  }

  /** The closed form of the geometric sum: G(n) * (q - 1) == q^n - 1. */
  lemma {:induction false} GeomTimesRate(q: real, n: nat)
    ensures Geom(q, n) * (q - 1.0) == Pow(q, n) - 1.0
  {
    if n > 0 {
      GeomTimesRate(q, n - 1);
      var g, p := Geom(q, n - 1), Pow(q, n - 1);
      assert g * (q - 1.0) == p - 1.0;
      assert (q * g + 1.0) * (q - 1.0) == q * (g * (q - 1.0)) + q - 1.0;
    }
  }

  lemma {:induction false} PowOfOne(n: nat)
    ensures Pow(1.0, n) == 1.0
  {
    if n > 0 { PowOfOne(n - 1); }
  }

  lemma {:induction false} GeomOfOne(n: nat)
    ensures Geom(1.0, n) == n as real
  {
    if n > 0 { GeomOfOne(n - 1); }
  }

  lemma {:induction false} PowPositive(q: real, n: nat)
    requires q > 0.0
    ensures Pow(q, n) > 0.0
  {
    if n > 0 {
      PowPositive(q, n - 1);
      MulPositive(q, Pow(q, n - 1));
    }
  }

  /** For a positive ratio and at least one term the geometric sum is at least 1. */
  lemma {:induction false} GeomAtLeastOne(q: real, n: nat)
    requires q > 0.0 && n >= 1
    ensures Geom(q, n) >= 1.0
  {
    if n > 1 {
      GeomAtLeastOne(q, n - 1);
      MulPositive(q, Geom(q, n - 1));
    }
  }

  lemma MulPositive(a: real, b: real)
    requires a > 0.0 && b > 0.0
    ensures a * b > 0.0
  {
  }

  lemma MulNonNegative(a: real, b: real)
    requires a >= 0.0 && b >= 0.0
    ensures a * b >= 0.0
  {
  }

  lemma AbsMul(a: real, b: real)
    ensures Abs(a * b) == Abs(a) * Abs(b)
  {
    if a < 0.0 {
      if b < 0.0 { assert a * b == (-a) * (-b); } else { assert -(a * b) == (-a) * b; }
    } else {
      if b < 0.0 { assert -(a * b) == a * (-b); }
    }
  }

  lemma {:induction false} AbsPow(q: real, n: nat)
    ensures Abs(Pow(q, n)) == Pow(Abs(q), n)
  {
    if n > 0 {
      AbsPow(q, n - 1);
      AbsMul(q, Pow(q, n - 1));
    }
  }

  lemma {:induction false} PowAboveOne(a: real, n: nat)
    requires a > 1.0 && n >= 1
    ensures Pow(a, n) > 1.0
  {
    if n > 1 {
      PowAboveOne(a, n - 1);
      var x := Pow(a, n - 1);
      assert a * x - x == (a - 1.0) * x;
      MulPositive(a - 1.0, x);
    }
  }

  lemma {:induction false} PowAtMostOne(a: real, n: nat)
    requires 0.0 <= a <= 1.0
    ensures 0.0 <= Pow(a, n) <= 1.0
  {
    if n > 0 {
      PowAtMostOne(a, n - 1);
      var x := Pow(a, n - 1);
      assert x - a * x == (1.0 - a) * x;
      assert (1.0 - a) * x >= 0.0;
      assert a * x >= 0.0;
    }
  }

  lemma PowBelowOne(a: real, n: nat)
    requires 0.0 <= a < 1.0 && n >= 1
    ensures Pow(a, n) < 1.0
  {
    PowAtMostOne(a, n - 1);
    var x := Pow(a, n - 1);
    assert Pow(a, n) == a * x;
    assert x - a * x == (1.0 - a) * x;
    assert a * x <= a;
  }

  lemma {:induction false} PowMinusOne(n: nat)
    ensures Pow(-1.0, n) == if n % 2 == 0 then 1.0 else -1.0
  {
    if n > 0 { PowMinusOne(n - 1); }
  }

  /** With at least one factor, q^n is 1 exactly when q is 1, or q is -1 and n is even. */
  lemma PowEqualsOne(q: real, n: nat)
    requires n >= 1
    ensures Pow(q, n) == 1.0 <==> q == 1.0 || (q == -1.0 && n % 2 == 0)
  {
    AbsPow(q, n);
    if Abs(q) > 1.0 {
      PowAboveOne(Abs(q), n);
    } else if Abs(q) < 1.0 {
      PowBelowOne(Abs(q), n);
    } else if q == 1.0 {
      PowOfOne(n);
    } else {
      assert q == -1.0;
      PowMinusOne(n);
    }
  }
}
