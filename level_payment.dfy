/** Why the annuity payment is a level payment: with exact arithmetic, a loan
    with a non-negative principal and a monthly rate above -100% is repaid by
    nMonths equal payments, the terminal clamp never fires, the balance falls
    month by month and ends at exactly zero, and the principal portions add up
    to the principal. */
module LevelPayment {
  import opened Power
  import opened LoanPayment
  import opened LoanSchedule

  /** What is owed after k months in which the payment is charged in full:
      each month grows the balance by the rate and takes the payment off. */
  function Owed(principal: real, payment: real, rate: real, k: nat): real
  {
    if k == 0 then principal else (1.0 + rate) * Owed(principal, payment, rate, k - 1) - payment
  }

  /** The closed form of the balance: the principal grown over k months less
      the payments grown to month k, P * q^k - payment * (1 + q + ... + q^(k-1)). */
  lemma {:induction false} OwedClosedForm(principal: real, payment: real, rate: real, k: nat)
    ensures Owed(principal, payment, rate, k)
      == principal * Pow(1.0 + rate, k) - payment * Geom(1.0 + rate, k)
  {
    if k > 0 {
      OwedClosedForm(principal, payment, rate, k - 1);
      ClosedFormAlgebra(principal, payment, 1.0 + rate, Pow(1.0 + rate, k - 1), Geom(1.0 + rate, k - 1));
    }
  }

  lemma ClosedFormAlgebra(principal: real, payment: real, q: real, x: real, g: real)
    ensures q * (principal * x - payment * g) - payment == principal * (q * x) - payment * (q * g + 1.0)
  {
  }

  /** The same step in the loop's own terms: the closing balance is the opening
      balance less the payment's principal portion. */
  lemma OwedMonth(principal: real, payment: real, rate: real, k: nat)
    ensures Owed(principal, payment, rate, k) - (payment - Owed(principal, payment, rate, k) * rate)
      == Owed(principal, payment, rate, k + 1)
  {
    GrowthSplit(Owed(principal, payment, rate, k), rate);
  }

  lemma GrowthSplit(b: real, rate: real)
    ensures (1.0 + rate) * b == b + b * rate
  {
  }

  lemma NonNegativeFactor(q: real, b: real)
    requires q > 0.0 && q * b >= 0.0
    ensures b >= 0.0
  {
  }

  /** When the balance reaches zero at month n, it is never negative before:
      going backwards, each earlier balance is (later balance + payment) / (1 + rate). */
  lemma {:induction false} OwedNonNegative(principal: real, payment: real, rate: real, n: nat, k: nat)
    requires k <= n && 1.0 + rate > 0.0 && payment >= 0.0
    requires Owed(principal, payment, rate, n) == 0.0
    ensures Owed(principal, payment, rate, k) >= 0.0
    decreases n - k
  {
    if k < n {
      OwedNonNegative(principal, payment, rate, n, k + 1);
      NonNegativeFactor(1.0 + rate, Owed(principal, payment, rate, k));
    }
  }

  /** Under the same conditions every month's principal portion, payment minus
      interest, is not negative, so the balance never rises. */
  lemma {:induction false} OwedPrincipalNonNegative(principal: real, payment: real, rate: real, n: nat, k: nat)
    requires k < n && 1.0 + rate > 0.0 && payment >= 0.0
    requires Owed(principal, payment, rate, n) == 0.0
    ensures payment - Owed(principal, payment, rate, k) * rate >= 0.0
    decreases n - k
  {
    if k == n - 1 {
      OwedNonNegative(principal, payment, rate, n, k);
      LastPrincipal(Owed(principal, payment, rate, k), payment, rate);
    } else {
      OwedPrincipalNonNegative(principal, payment, rate, n, k + 1);
      EarlierPrincipal(Owed(principal, payment, rate, k), Owed(principal, payment, rate, k + 1), payment, rate);
    }
  }

  /** The month that brings a non-negative balance b to zero repays b in full. */
  lemma LastPrincipal(b: real, payment: real, r: real)
    requires (1.0 + r) * b - payment == 0.0 && b >= 0.0
    ensures payment - b * r >= 0.0
  {
    assert payment - b * r == b;
  }

  /** One month earlier the principal portion is the later one divided by
      1 + r, so it keeps its sign. */
  lemma EarlierPrincipal(b: real, next: real, payment: real, r: real)
    requires next == (1.0 + r) * b - payment && 1.0 + r > 0.0 && payment - next * r >= 0.0
    ensures payment - b * r >= 0.0
  {
    assert payment - next * r == (1.0 + r) * (payment - b * r);
    NonNegativeFactor(1.0 + r, payment - b * r);
  }

  /** Row j (counting from 0) of a level schedule: the full payment, interest
      on the balance owed, and the balance owed after it. */
  function LevelRow(principal: real, payment: real, rate: real, j: nat): Row
  {
    var b := Owed(principal, payment, rate, j);
    Row(j + 1, payment, b * rate, payment - b * rate, Owed(principal, payment, rate, j + 1))
  }

  /** rows are the level rows j = k, k + 1, ... */
  predicate LevelFrom(rows: seq<Row>, principal: real, payment: real, rate: real, k: nat)
  {
    forall i :: 0 <= i < |rows| ==> rows[i] == LevelRow(principal, payment, rate, k + i)
  }

  /** A month whose payment does not exceed the balance plus interest keeps
      the payment and is charged in full. */
  lemma UnclampedStep(balance: real, payment: real, rate: real, month: int, next: real)
    requires balance - (payment - balance * rate) == next && next >= 0.0
    ensures MonthStep(balance, payment, rate, month)
      == (Row(month, payment, balance * rate, payment - balance * rate, next), Carry(next, payment))
  {
  }

  /** From month k + 1 on, a walk whose payment retires the loan at month n
      follows `Owed` row by row, without ever clamping. */
  lemma {:induction false} LevelWalk(principal: real, payment: real, rate: real, n: nat, k: nat)
    requires k <= n && 1.0 + rate > 0.0 && payment >= 0.0
    requires Owed(principal, payment, rate, n) == 0.0
    ensures LevelFrom(Walk(Owed(principal, payment, rate, k), payment, rate, k + 1, n - k),
                      principal, payment, rate, k)
    decreases n - k
  {
    if k < n {
      LevelHead(principal, payment, rate, n, k);
      LevelWalk(principal, payment, rate, n, k + 1);
      LevelFromCons(Walk(Owed(principal, payment, rate, k), payment, rate, k + 1, n - k), principal, payment, rate, k);
    }
  }

  /** The first month of such a walk is level row k, and the walk goes on from
      the balance owed after month k + 1 with the same payment. */
  lemma LevelHead(principal: real, payment: real, rate: real, n: nat, k: nat)
    requires k < n && 1.0 + rate > 0.0 && payment >= 0.0
    requires Owed(principal, payment, rate, n) == 0.0
    ensures var rows := Walk(Owed(principal, payment, rate, k), payment, rate, k + 1, n - k);
      && rows[0] == LevelRow(principal, payment, rate, k)
      && rows[1..] == Walk(Owed(principal, payment, rate, k + 1), payment, rate, k + 2, n - k - 1)
  {
    OwedMonth(principal, payment, rate, k);
    OwedNonNegative(principal, payment, rate, n, k + 1);
    UnclampedStep(Owed(principal, payment, rate, k), payment, rate, k + 1, Owed(principal, payment, rate, k + 1));
    WalkFirst(Owed(principal, payment, rate, k), payment, rate, k + 1, n - k);
  }

  /** A level row k followed by level rows from k + 1 on are level rows from k on. */
  lemma LevelFromCons(rows: seq<Row>, principal: real, payment: real, rate: real, k: nat)
    requires |rows| > 0 && rows[0] == LevelRow(principal, payment, rate, k)
    requires LevelFrom(rows[1..], principal, payment, rate, k + 1)
    ensures LevelFrom(rows, principal, payment, rate, k)
  {
    forall i | 0 < i < |rows| ensures rows[i] == LevelRow(principal, payment, rate, k + i) {
      assert rows[i] == rows[1..][i - 1];
    }
  }

  /** What makes n rows from `principal` a level schedule: n rows, each
      charging the same payment with a principal portion that is not negative,
      a balance that never rises and ends at exactly zero, and principal
      portions that add up to the principal. */
  predicate LevelSchedule(rows: seq<Row>, principal: real, payment: real, n: nat)
  {
    && |rows| == n > 0
    && (forall i :: 0 <= i < n ==> rows[i].payment == payment && rows[i].principal >= 0.0)
    && (forall i :: 0 < i < n ==> rows[i].balance <= rows[i - 1].balance)
    && rows[n - 1].balance == 0.0
    && SumPrincipal(rows) == principal
  }

  /** Level rows from month 1 on charge the payment in full with principal
      portions that are not negative, and the last one closes the loan. */
  lemma LevelRowsFromStart(rows: seq<Row>, principal: real, payment: real, r: real, n: nat)
    requires |rows| == n > 0 && 1.0 + r > 0.0 && payment >= 0.0
    requires Owed(principal, payment, r, n) == 0.0
    requires LevelFrom(rows, principal, payment, r, 0)
    ensures forall i :: 0 <= i < n ==> rows[i].payment == payment && rows[i].principal >= 0.0
    ensures rows[n - 1].balance == 0.0
  {
    forall i | 0 <= i < n
      ensures rows[i].payment == payment && rows[i].principal >= 0.0
    {
      assert rows[i] == LevelRow(principal, payment, r, i);
      OwedPrincipalNonNegative(principal, payment, r, n, i);
    }
    assert rows[n - 1] == LevelRow(principal, payment, r, n - 1);
  }

  /** In a chained run of rows whose principal portions are never negative,
      the balance never rises. */
  lemma ChainedBalanceFalls(rows: seq<Row>, opening: real, rate: real, month: int)
    requires Chained(rows, opening, rate, month)
    requires forall i :: 0 <= i < |rows| ==> rows[i].principal >= 0.0
    ensures forall i :: 0 < i < |rows| ==> rows[i].balance <= rows[i - 1].balance
  {
    forall i | 0 < i < |rows| ensures rows[i].balance <= rows[i - 1].balance {
      assert RowFollows(rows[i], Opening(rows, opening, i), rate, month + i);
    }
  }

  /** The level-payment theorem for a walk from the principal whose payment
      retires the loan at month n. */
  lemma LevelWalkFromPrincipal(principal: real, payment: real, r: real, n: nat)
    requires n > 0 && 1.0 + r > 0.0 && payment >= 0.0
    requires Owed(principal, payment, r, n) == 0.0
    ensures LevelSchedule(Walk(principal, payment, r, 1, n), principal, payment, n)
  {
    var rows := Walk(principal, payment, r, 1, n);
    assert Owed(principal, payment, r, 0) == principal;
    LevelWalk(principal, payment, r, n, 0);
    LevelRowsFromStart(rows, principal, payment, r, n);
    WalkChained(principal, payment, r, 1, n);
    ChainedBalanceFalls(rows, principal, r, 1);
    WalkPrincipalSum(principal, payment, r, 1, n);
  }

  /** The level-payment theorem for the schedule the source computes: for a
      non-negative principal and a monthly rate above -100%, the schedule
      succeeds and is a level schedule that charges the computed payment. */
  lemma LevelPaymentSchedule(principal: real, annualRatePercent: real, nMonths: int)
    requires principal >= 0.0 && annualRatePercent > -1200.0 && nMonths > 0
    ensures MonthlyPayment(principal, annualRatePercent, nMonths).Ok?
    ensures Schedule(principal, annualRatePercent, nMonths).Ok?
    ensures LevelSchedule(Schedule(principal, annualRatePercent, nMonths).value, principal,
                          MonthlyPayment(principal, annualRatePercent, nMonths).value, nMonths)
  {
    PaymentSign(principal, annualRatePercent, nMonths);
    var payment := MonthlyPayment(principal, annualRatePercent, nMonths).value;
    PaymentClosesForm(principal, annualRatePercent, nMonths, payment);
    ScheduleOfPayment(principal, annualRatePercent, nMonths, payment);
    LevelWalkFromPrincipal(principal, payment, MonthlyRate(annualRatePercent), nMonths);
  }

  /** The payment `monthly_payment` returns brings the balance owed to
      zero at the end of the term. */
  lemma PaymentClosesForm(principal: real, annualRatePercent: real, nMonths: int, payment: real)
    requires MonthlyPayment(principal, annualRatePercent, nMonths) == Ok(payment)
    ensures nMonths > 0
    ensures Owed(principal, payment, MonthlyRate(annualRatePercent), nMonths) == 0.0
  {
    PaymentRetiresLoan(principal, annualRatePercent, nMonths, payment);
    RetiringPaymentClears(principal, payment, MonthlyRate(annualRatePercent), nMonths);
  }

  /** A payment whose growth over n months matches the principal's leaves
      nothing owed after month n. */
  lemma RetiringPaymentClears(principal: real, payment: real, rate: real, n: nat)
    requires payment * Geom(1.0 + rate, n) == principal * Pow(1.0 + rate, n)
    ensures Owed(principal, payment, rate, n) == 0.0
  {
    OwedClosedForm(principal, payment, rate, n);
  }
}
