/** The affordability rule of the desktop form's "Calculate EMI" action: the
    tenure in years becomes a month count, the four inputs must be positive
    (the rate may be zero), the level payment is computed, and a payment above
    half the monthly salary is classed as not affordable. */
module Affordability {
  import opened Power
  import opened LoanPayment

  /** What the action ends in: the "valid positive values" error, the "valid
      numeric values" error (the payment computation's ValueError, caught), or
      an assessed payment. */
  datatype Outcome = InvalidInput | CalculationError | Assessed(payment: real, affordable: bool)

  /** Python's round() of a number to an int: to the nearest integer, and to
      the even one of two equally near. */
  function RoundHalfEven(x: real): (n: int)
    ensures x - 0.5 <= n as real <= x + 0.5
    ensures (n as real - x == 0.5 || x - n as real == 0.5) ==> n % 2 == 0
  {
    var f := x.Floor;
    var frac := x - f as real;
    if frac < 0.5 then f
    else if frac > 0.5 then f + 1
    else if f % 2 == 0 then f
    else f + 1
  }

  /** The input check of the form: principal, tenure and salary positive, rate
      not negative. */
  predicate ValidInputs(salary: real, principal: real, annualRatePercent: real, tenureYears: real)
  {
    !(principal <= 0.0 || annualRatePercent < 0.0 || tenureYears <= 0.0 || salary <= 0.0)
  }

  function Assess(salary: real, principal: real, annualRatePercent: real, tenureYears: real): (o: Outcome)
    ensures o == InvalidInput <==> !ValidInputs(salary, principal, annualRatePercent, tenureYears)
    ensures o == CalculationError <==>
      ValidInputs(salary, principal, annualRatePercent, tenureYears) && tenureYears * 12.0 <= 0.5
    ensures o.Assessed? ==>
      && MonthlyPayment(principal, annualRatePercent, RoundHalfEven(tenureYears * 12.0)) == Ok(o.payment)
      && o.payment > 0.0
      && (o.affordable <==> o.payment <= salary * 0.5)
  {
    var nMonths := RoundHalfEven(tenureYears * 12.0);
    if !ValidInputs(salary, principal, annualRatePercent, tenureYears) then InvalidInput
    else
      match MonthlyPayment(principal, annualRatePercent, nMonths)
      case Err(_) => CalculationError
      case Ok(payment) =>
        PaymentSign(principal, annualRatePercent, nMonths);
        Assessed(payment, !(payment > salary * 0.5))
  }
}
