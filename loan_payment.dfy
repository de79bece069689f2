/** The level monthly payment of a fixed-rate loan (`monthly_payment`): guards
    for the term and a zero principal, a straight-line fallback for a zero rate,
    and the annuity formula P * r * (1+r)^n / ((1+r)^n - 1) otherwise. */
module LoanPayment {
  import opened Power

  /** The two ways the payment computation fails: a term that is not positive
      (the `ValueError` it raises) and a zero denominator in the annuity
      formula (the `ZeroDivisionError` Python raises on division by zero). */
  datatype Error = InvalidTerm | ZeroDenominator

  datatype Result<T> = Ok(value: T) | Err(error: Error)

  /** The periodic rate: an annual percentage, per hundred, per twelve months. */
  function MonthlyRate(annualRatePercent: real): (r: real)
    ensures r * 1200.0 == annualRatePercent
  {
    annualRatePercent / 100.0 / 12.0
  }

  function MonthlyPayment(principal: real, annualRatePercent: real, nMonths: int): (res: Result<real>)
    ensures nMonths <= 0 <==> res == Err(InvalidTerm)
    ensures res == Err(ZeroDenominator) <==>
      nMonths > 0 && principal != 0.0 && MonthlyRate(annualRatePercent) == -2.0 && nMonths % 2 == 0
    ensures nMonths > 0 && principal == 0.0 ==> res == Ok(0.0)
    ensures nMonths > 0 && annualRatePercent == 0.0 ==> res == Ok(principal / nMonths as real)
  {
    if nMonths <= 0 then Err(InvalidTerm)
    else if principal == 0.0 then Ok(0.0)
    else
      var r := MonthlyRate(annualRatePercent);
      if r == 0.0 then Ok(principal / nMonths as real)
      else
        PowEqualsOne(1.0 + r, nMonths);
        if Pow(1.0 + r, nMonths) - 1.0 == 0.0 then Err(ZeroDenominator)
        else Ok(Annuity(principal, r, Pow(1.0 + r, nMonths)))
  }

  /** The annuity formula P * r * g / (g - 1), where g = (1+r)^n is the growth
      of one currency unit over the term, for a growth other than 1. */
  function Annuity(principal: real, r: real, growth: real): real
    requires growth != 1.0
  {
    principal * r * growth / (growth - 1.0)
  }

  /** What the formula means: paying `payment` at the end of every month for
      nMonths months at monthly growth q = 1 + r leaves exactly nothing owed,
      i.e. the payments grown to the end of the term, payment * (1 + q + ... +
      q^(n-1)), equal the principal grown over the same term, principal * q^n. */
  lemma PaymentRetiresLoan(principal: real, annualRatePercent: real, nMonths: int, payment: real)
    requires MonthlyPayment(principal, annualRatePercent, nMonths) == Ok(payment)
    ensures nMonths > 0
    ensures payment * Geom(1.0 + MonthlyRate(annualRatePercent), nMonths)
      == principal * Pow(1.0 + MonthlyRate(annualRatePercent), nMonths)
  {
    var r := MonthlyRate(annualRatePercent);
    var n: nat := nMonths;
    if principal == 0.0 {
      assert payment == 0.0;
    } else if r == 0.0 {
      assert payment == principal / n as real;
      StraightLineRetiresLoan(principal, n);
    } else {
      PaymentIsAnnuity(principal, annualRatePercent, nMonths, payment);
      AnnuityRetiresLoan(principal, r, n);
    }
  }

  /** At a zero rate, n payments of principal / n repay the principal. */
  lemma StraightLineRetiresLoan(principal: real, n: nat)
    requires n > 0
    ensures (principal / n as real) * Geom(1.0, n) == principal * Pow(1.0, n)
  {
    GeomOfOne(n);
    PowOfOne(n);
  }

  /** Away from the zero-principal and zero-rate shortcuts, a payment that is
      defined is the annuity formula's. */
  lemma PaymentIsAnnuity(principal: real, annualRatePercent: real, nMonths: int, payment: real)
    requires MonthlyPayment(principal, annualRatePercent, nMonths) == Ok(payment)
    requires principal != 0.0 && MonthlyRate(annualRatePercent) != 0.0
    ensures nMonths > 0 && Pow(1.0 + MonthlyRate(annualRatePercent), nMonths) != 1.0
    ensures payment == Annuity(principal, MonthlyRate(annualRatePercent), Pow(1.0 + MonthlyRate(annualRatePercent), nMonths))
  {
  }

  lemma AnnuityRetiresLoan(principal: real, r: real, n: nat)
    requires Pow(1.0 + r, n) != 1.0
    ensures Annuity(principal, r, Pow(1.0 + r, n)) * Geom(1.0 + r, n) == principal * Pow(1.0 + r, n)
  {
    GrowthOverTerm(r, n);
    AnnuityAlgebra(principal, r, Pow(1.0 + r, n), Geom(1.0 + r, n));
  }

  /** The growth over the term less one is the rate times the geometric sum. */
  lemma GrowthOverTerm(r: real, n: nat)
    ensures Geom(1.0 + r, n) * r == Pow(1.0 + r, n) - 1.0
  {
    GeomTimesRate(1.0 + r, n);
    RateOfGrowth(Geom(1.0 + r, n), r);
  }

  lemma RateOfGrowth(g: real, r: real)
    ensures g * ((1.0 + r) - 1.0) == g * r
  {
  }

  /** The division step of PaymentRetiresLoan, kept apart so that the solver
      sees only the four quantities involved. */
  lemma AnnuityAlgebra(principal: real, r: real, growth: real, g: real)
    requires g * r == growth - 1.0 && growth - 1.0 != 0.0
    ensures Annuity(principal, r, growth) * g == principal * growth
  {
    var d := growth - 1.0;
    var x := principal * r * growth / d;
    assert x * d == principal * r * growth;
    assert (x * g) * r == x * d;
    assert (x * g - principal * growth) * r == 0.0;
  }

  /** For a non-negative principal and a monthly rate above -100% the payment
      is defined, never negative, and positive when something is borrowed. */
  lemma PaymentSign(principal: real, annualRatePercent: real, nMonths: int)
    requires principal >= 0.0 && annualRatePercent > -1200.0 && nMonths > 0
    ensures MonthlyPayment(principal, annualRatePercent, nMonths).Ok?
    ensures MonthlyPayment(principal, annualRatePercent, nMonths).value >= 0.0
    ensures principal > 0.0 ==> MonthlyPayment(principal, annualRatePercent, nMonths).value > 0.0
  {
    var q := 1.0 + MonthlyRate(annualRatePercent);
    var n: nat := nMonths;
    var payment := MonthlyPayment(principal, annualRatePercent, nMonths).value;
    PaymentRetiresLoan(principal, annualRatePercent, nMonths, payment);
    GeomAtLeastOne(q, n);
    PowPositive(q, n);
    SignFromGrowth(payment, principal, Geom(q, n), Pow(q, n));
  }

  /** A payment that, grown by a positive factor g, matches a non-negative
      principal grown by a positive factor is itself not negative, and positive
      when the principal is. */
  lemma SignFromGrowth(payment: real, principal: real, g: real, growth: real)
    requires g > 0.0 && growth > 0.0 && principal >= 0.0 && payment * g == principal * growth
    ensures payment >= 0.0
    ensures principal > 0.0 ==> payment > 0.0
  {
    MulNonNegative(principal, growth);
    if principal > 0.0 {
      MulPositive(principal, growth);
    }
    if payment < 0.0 {
      MulPositive(-payment, g);
    } else if payment == 0.0 {
      assert principal * growth == 0.0;
    }
  }

  /** A one-month loan costs the principal plus one month of interest, at any
      rate (the annuity formula reduces to P * r * (1+r) / r). */
  lemma SingleMonthPayment(principal: real, annualRatePercent: real)
    ensures MonthlyPayment(principal, annualRatePercent, 1)
      == Ok(principal * (1.0 + MonthlyRate(annualRatePercent)))
  {
    var r := MonthlyRate(annualRatePercent);
    if principal != 0.0 && r != 0.0 {
      assert Pow(1.0 + r, 1) == 1.0 + r;
      assert MonthlyPayment(principal, annualRatePercent, 1) == Ok(Annuity(principal, r, 1.0 + r));
      AnnuityOneMonth(principal, r);
    }
  }

  lemma AnnuityOneMonth(principal: real, r: real)
    requires r != 0.0
    ensures Annuity(principal, r, 1.0 + r) == principal * (1.0 + r)
  {
    var x := principal * (1.0 + r);
    assert (1.0 + r) - 1.0 == r;
    assert principal * r * (1.0 + r) == x * r;
    assert x * r / r == x;
  }
}
