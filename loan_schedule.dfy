/** The amortization schedule (`amortization_schedule`): starting from the
    principal, each month charges interest on the balance carried over, puts
    the rest of the payment towards the principal, clamps the last payment so
    that the balance never goes below zero, and emits one row per month. */
module LoanSchedule {
  import opened Power
  import opened LoanPayment

  /** One month of the schedule, with the fields of the emitted record. */
  datatype Row = Row(month: int, payment: real, interest: real, principal: real, balance: real)

  /** What the loop carries from one month to the next: the running balance and
      the payment, which the clamp may have rewritten. */
  datatype Carry = Carry(balance: real, payment: real)

  /** Python's max(x, 0.0): x unless 0.0 is strictly greater. */
  function NonNegative(x: real): real
  {
    if 0.0 > x then 0.0 else x
  }

  /** The bookkeeping every row obeys, given the balance it opens with: interest
      on that balance, interest and principal adding up to the payment, no more
      principal repaid than was owed, and a closing balance that is what remains
      and is never negative. */
  predicate RowFollows(row: Row, opening: real, rate: real, month: int)
  {
    && row.month == month
    && row.interest == opening * rate
    && row.interest + row.principal == row.payment
    && row.principal <= opening
    && row.balance == opening - row.principal
    && row.balance >= 0.0
  }

  /** One pass through the loop body. The payment is either kept, or lowered to
      exactly what settles the loan this month. */
  function MonthStep(balance: real, payment: real, rate: real, month: int): (step: (Row, Carry))
    ensures RowFollows(step.0, balance, rate, month)
    ensures step.0.payment <= payment
    ensures step.0.payment == payment || step.0.balance == 0.0
    ensures step.1 == Carry(step.0.balance, step.0.payment)
  {
    var interest := balance * rate;
    var nominal := payment - interest;
    var clamped := nominal > balance;
    var principalPaid := if clamped then balance else nominal;
    var paid := if clamped then interest + principalPaid else payment;
    var remaining := balance - principalPaid;
    (Row(month, paid, interest, principalPaid, NonNegative(remaining)), Carry(remaining, paid))
  }

  /** The rows of `count` consecutive months, numbered from `month`, starting
      from a balance and a payment. */
  function Walk(balance: real, payment: real, rate: real, month: int, count: nat): (rows: seq<Row>)
    ensures |rows| == count
    ensures forall i :: 0 <= i < count ==> rows[i].month == month + i
    decreases count
  {
    if count == 0 then []
    else
      var step := MonthStep(balance, payment, rate, month);
      [step.0] + Walk(step.1.balance, step.1.payment, rate, month + 1, count - 1)
  }

  /** The schedule the source returns: the payment's failure, or the walk of
      nMonths months from the principal, numbered from 1. */
  function Schedule(principal: real, annualRatePercent: real, nMonths: int): (res: Result<seq<Row>>)
    ensures res.Err? <==> MonthlyPayment(principal, annualRatePercent, nMonths).Err?
    ensures res.Err? ==> res.error == MonthlyPayment(principal, annualRatePercent, nMonths).error
    ensures res.Ok? ==> |res.value| == nMonths
    ensures res.Ok? ==> forall i :: 0 <= i < |res.value| ==> res.value[i].month == i + 1
  {
    match MonthlyPayment(principal, annualRatePercent, nMonths)
    case Err(e) => Err(e)
    case Ok(payment) => Ok(Walk(principal, payment, MonthlyRate(annualRatePercent), 1, nMonths))
  }

  /** The balance a row opens with: the given opening balance for the first
      row, the previous row's closing balance after that. */
  function Opening(rows: seq<Row>, opening: real, i: nat): real
    requires i < |rows|
  {
    if i == 0 then opening else rows[i - 1].balance
  }

  /** Every row follows from the one before it. */
  predicate Chained(rows: seq<Row>, opening: real, rate: real, month: int)
  {
    forall i :: 0 <= i < |rows| ==> RowFollows(rows[i], Opening(rows, opening, i), rate, month + i)
  }

  function SumPrincipal(rows: seq<Row>): real
  {
    if rows == [] then 0.0 else rows[0].principal + SumPrincipal(rows[1..])
  }

  method AmortizationSchedule(principal: real, annualRatePercent: real, nMonths: int)
    returns (res: Result<seq<Row>>)
    ensures res == Schedule(principal, annualRatePercent, nMonths)
    ensures res.Err? <==> MonthlyPayment(principal, annualRatePercent, nMonths).Err?
    ensures nMonths <= 0 ==> res == Err(InvalidTerm)
    ensures res.Ok? ==> |res.value| == nMonths
    ensures res.Ok? ==> Chained(res.value, principal, MonthlyRate(annualRatePercent), 1)
  {
    var nominal := MonthlyPayment(principal, annualRatePercent, nMonths);
    if nominal.Err? {
      return Err(nominal.error);
    }
    var payment := nominal.value;
    var balance := principal;
    var monthlyRate := annualRatePercent / 100.0 / 12.0;
    var schedule: seq<Row> := [];
    ghost var whole := Walk(principal, nominal.value, monthlyRate, 1, nMonths);
    for m := 1 to nMonths + 1
      invariant schedule + Walk(balance, payment, monthlyRate, m, nMonths + 1 - m) == whole
    {
      ghost var step := MonthStep(balance, payment, monthlyRate, m);
      ghost var before := schedule;
      WalkCons(balance, payment, monthlyRate, m, nMonths + 1 - m);
      var interest := balance * monthlyRate;
      var principalPaid := payment - interest;
      if principalPaid > balance {
        principalPaid := balance;
        payment := interest + principalPaid;
      }
      balance := balance - principalPaid;
      schedule := schedule + [Row(m, payment, interest, principalPaid, NonNegative(balance))];
      assert Row(m, payment, interest, principalPaid, NonNegative(balance)) == step.0;
      assert Carry(balance, payment) == step.1;
      AppendAssociates(before, step.0, Walk(balance, payment, monthlyRate, m + 1, nMonths - m));
    }
    assert schedule == whole;
    assert monthlyRate == MonthlyRate(annualRatePercent);
    res := Ok(schedule);
    WalkChained(principal, nominal.value, monthlyRate, 1, nMonths);
  }

  /** A walk of at least one month is that month's row followed by the walk
      from what the month carries over. */
  lemma WalkCons(balance: real, payment: real, rate: real, month: int, count: nat)
    requires count > 0
    ensures var step := MonthStep(balance, payment, rate, month);
      Walk(balance, payment, rate, month, count)
        == [step.0] + Walk(step.1.balance, step.1.payment, rate, month + 1, count - 1)
  {
  }

  lemma AppendAssociates(before: seq<Row>, row: Row, rest: seq<Row>)
    ensures before + [row] + rest == before + ([row] + rest)
  {
  }

  lemma FirstMonthInterest(principal: real, annualRatePercent: real)
    ensures principal * MonthlyRate(annualRatePercent) == principal * annualRatePercent / 1200.0
  {
    assert MonthlyRate(annualRatePercent) == annualRatePercent / 1200.0;
  }

  /** A row that settles the loan charges the opening balance grown by one
      month of interest, which is not negative for a rate of at least -100%. */
  lemma SettlingPaymentNonNegative(row: Row, opening: real, rate: real, month: int)
    requires RowFollows(row, opening, rate, month) && row.balance == 0.0
    requires opening >= 0.0 && rate >= -1.0
    ensures row.payment == opening * (1.0 + rate) >= 0.0
  {
    MulNonNegative(opening, 1.0 + rate);
  }

  /** Every walk is chained: each row follows from the balance the previous
      row closed with. */
  lemma {:induction false} WalkChained(balance: real, payment: real, rate: real, month: int, count: nat)
    ensures Chained(Walk(balance, payment, rate, month, count), balance, rate, month)
    decreases count
  {
    if count > 0 {
      var rows := Walk(balance, payment, rate, month, count);
      var step := MonthStep(balance, payment, rate, month);
      var rest := Walk(step.1.balance, step.1.payment, rate, month + 1, count - 1);
      assert rows == [step.0] + rest;
      WalkChained(step.1.balance, step.1.payment, rate, month + 1, count - 1);
      forall i | 0 <= i < |rows|
        ensures RowFollows(rows[i], Opening(rows, balance, i), rate, month + i)
      {
        if i > 0 {
          assert rows[i] == rest[i - 1];
          assert Opening(rows, balance, i) == Opening(rest, step.1.balance, i - 1);
        }
      }
    }
  }

  /** The first row of a walk, and the fresh walk from its closing balance and
      payment that follows it. */
  lemma WalkFirst(balance: real, payment: real, rate: real, month: int, count: nat)
    requires count > 0
    ensures var rows := Walk(balance, payment, rate, month, count);
      && rows[0] == MonthStep(balance, payment, rate, month).0
      && rows[1..] == Walk(rows[0].balance, rows[0].payment, rate, month + 1, count - 1)
  {
    var rows := Walk(balance, payment, rate, month, count);
    var step := MonthStep(balance, payment, rate, month);
    assert rows == [step.0] + Walk(step.1.balance, step.1.payment, rate, month + 1, count - 1);
  }

  /** After row k, the walk goes on exactly as a fresh walk would from row k's
      closing balance and payment. */
  lemma {:induction false} WalkSuffix(balance: real, payment: real, rate: real, month: int, count: nat, k: nat)
    requires k < count
    ensures var rows := Walk(balance, payment, rate, month, count);
      rows[k + 1..] == Walk(rows[k].balance, rows[k].payment, rate, month + k + 1, count - k - 1)
    decreases k
  {
    WalkFirst(balance, payment, rate, month, count);
    if k > 0 {
      var rows := Walk(balance, payment, rate, month, count);
      var rest := Walk(rows[0].balance, rows[0].payment, rate, month + 1, count - 1);
      WalkSuffix(rows[0].balance, rows[0].payment, rate, month + 1, count - 1, k - 1);
      TailOfTail(rows, k);
      assert rows[1..] == rest;
      assert rows[k] == rest[k - 1];
    }
  }

  /** Row k and the rows after it, seen from the tail that starts at row 1. */
  lemma TailOfTail(rows: seq<Row>, k: nat)
    requires 0 < k < |rows|
    ensures rows[1..][k - 1] == rows[k] && rows[1..][k - 1 + 1..] == rows[k + 1..]
  {
  }

  /** A walk that starts with nothing owed and a payment that is not negative
      consists of all-zero rows: the first month clamps the payment to zero. */
  lemma {:induction false} WalkSettled(payment: real, rate: real, month: int, count: nat)
    requires payment >= 0.0
    ensures forall i :: 0 <= i < count ==>
      Walk(0.0, payment, rate, month, count)[i] == Row(month + i, 0.0, 0.0, 0.0, 0.0)
    decreases count
  {
    if count > 0 {
      var rows := Walk(0.0, payment, rate, month, count);
      var step := MonthStep(0.0, payment, rate, month);
      assert step == (Row(month, 0.0, 0.0, 0.0, 0.0), Carry(0.0, 0.0));
      var rest := Walk(0.0, 0.0, rate, month + 1, count - 1);
      assert rows == [step.0] + rest;
      WalkSettled(0.0, rate, month + 1, count - 1);
      forall i | 0 < i < count ensures rows[i] == Row(month + i, 0.0, 0.0, 0.0, 0.0) {
        assert rows[i] == rest[i - 1];
      }
    }
  }

  /** Once a row closes the loan (balance 0), every later row is all zeros,
      provided the payment that row charged is not negative, which holds when
      the monthly rate is at least -100% and the row opened with a balance that
      was not negative. */
  lemma SettledStaysSettled(balance: real, payment: real, rate: real, month: int, count: nat, k: nat)
    requires k < count && rate >= -1.0 && (k > 0 || balance >= 0.0)
    requires Walk(balance, payment, rate, month, count)[k].balance == 0.0
    ensures var rows := Walk(balance, payment, rate, month, count);
      forall j :: k < j < count ==> rows[j] == Row(month + j, 0.0, 0.0, 0.0, 0.0)
  {
    var rows := Walk(balance, payment, rate, month, count);
    SettlingRowPayment(balance, payment, rate, month, count, k);
    WalkSuffix(balance, payment, rate, month, count, k);
    WalkSettled(rows[k].payment, rate, month + k + 1, count - k - 1);
    ZeroTail(rows, k, Walk(0.0, rows[k].payment, rate, month + k + 1, count - k - 1), month);
  }

  /** Rows after row k that form an all-zero run numbered on from row k make
      every later row all zeros. */
  lemma ZeroTail(rows: seq<Row>, k: nat, tail: seq<Row>, month: int)
    requires k < |rows| && rows[k + 1..] == tail
    requires forall i :: 0 <= i < |tail| ==> tail[i] == Row(month + k + 1 + i, 0.0, 0.0, 0.0, 0.0)
    ensures forall j :: k < j < |rows| ==> rows[j] == Row(month + j, 0.0, 0.0, 0.0, 0.0)
  {
    forall j | k < j < |rows| ensures rows[j] == Row(month + j, 0.0, 0.0, 0.0, 0.0) {
      assert rows[j] == tail[j - k - 1];
    }
  }

  /** The row that closes the loan charges a payment that is not negative. */
  lemma SettlingRowPayment(balance: real, payment: real, rate: real, month: int, count: nat, k: nat)
    requires k < count && rate >= -1.0 && (k > 0 || balance >= 0.0)
    requires Walk(balance, payment, rate, month, count)[k].balance == 0.0
    ensures Walk(balance, payment, rate, month, count)[k].payment >= 0.0
  {
    var rows := Walk(balance, payment, rate, month, count);
    WalkChained(balance, payment, rate, month, count);
    var opening := Opening(rows, balance, k);
    assert RowFollows(rows[k], opening, rate, month + k);
    if k > 0 {
      assert RowFollows(rows[k - 1], Opening(rows, balance, k - 1), rate, month + k - 1);
    }
    SettlingPaymentNonNegative(rows[k], opening, rate, month + k);
  }

  /** The principal repaid over a walk is what was owed at the start minus what
      is still owed at the end. */
  lemma {:induction false} WalkPrincipalSum(balance: real, payment: real, rate: real, month: int, count: nat)
    requires count > 0
    ensures var rows := Walk(balance, payment, rate, month, count);
      SumPrincipal(rows) == balance - rows[count - 1].balance
    decreases count
  {
    var rows := Walk(balance, payment, rate, month, count);
    var step := MonthStep(balance, payment, rate, month);
    var rest := Walk(step.1.balance, step.1.payment, rate, month + 1, count - 1);
    assert rows == [step.0] + rest;
    assert rows[1..] == rest;
    if count > 1 {
      WalkPrincipalSum(step.1.balance, step.1.payment, rate, month + 1, count - 1);
      assert rows[count - 1] == rest[count - 2];
    }
  }

  /** The first month's interest is the principal times the annual percentage
      over 1200. */
  lemma FirstRowInterest(principal: real, annualRatePercent: real, nMonths: int)
    requires Schedule(principal, annualRatePercent, nMonths).Ok?
    ensures |Schedule(principal, annualRatePercent, nMonths).value| == nMonths > 0
    ensures Schedule(principal, annualRatePercent, nMonths).value[0].interest
      == principal * annualRatePercent / 1200.0
  {
    var payment := MonthlyPayment(principal, annualRatePercent, nMonths).value;
    var rows := Walk(principal, payment, MonthlyRate(annualRatePercent), 1, nMonths);
    WalkChained(principal, payment, MonthlyRate(annualRatePercent), 1, nMonths);
    assert RowFollows(rows[0], principal, MonthlyRate(annualRatePercent), 1);
    FirstMonthInterest(principal, annualRatePercent);
  }

  /** Nothing borrowed: the payment is 0 and every one of the nMonths rows is
      all zeros. */
  lemma ZeroPrincipalSchedule(annualRatePercent: real, nMonths: int)
    requires nMonths > 0
    ensures Schedule(0.0, annualRatePercent, nMonths).Ok?
    ensures var rows := Schedule(0.0, annualRatePercent, nMonths).value;
      |rows| == nMonths && forall i :: 0 <= i < |rows| ==> rows[i] == Row(i + 1, 0.0, 0.0, 0.0, 0.0)
  {
    WalkSettled(0.0, MonthlyRate(annualRatePercent), 1, nMonths);
  }

  /** A one-month loan is repaid in a single row: the principal plus one month
      of interest, leaving nothing owed. */
  lemma SingleMonthSchedule(principal: real, annualRatePercent: real)
    ensures var r := MonthlyRate(annualRatePercent);
      Schedule(principal, annualRatePercent, 1)
        == Ok([Row(1, principal * (1.0 + r), principal * r, principal, 0.0)])
  {
    var r := MonthlyRate(annualRatePercent);
    SingleMonthPayment(principal, annualRatePercent);
    ScheduleOfPayment(principal, annualRatePercent, 1, principal * (1.0 + r));
    OneMonthWalk(principal, r);
  }

  /** A schedule whose payment is defined is the walk from the principal. */
  lemma ScheduleOfPayment(principal: real, annualRatePercent: real, nMonths: int, payment: real)
    requires MonthlyPayment(principal, annualRatePercent, nMonths) == Ok(payment)
    ensures nMonths > 0
    ensures Schedule(principal, annualRatePercent, nMonths)
      == Ok(Walk(principal, payment, MonthlyRate(annualRatePercent), 1, nMonths))
  {
  }

  /** Paying the balance plus one month of interest settles it in one row. */
  lemma OneMonthWalk(balance: real, rate: real)
    ensures Walk(balance, balance * (1.0 + rate), rate, 1, 1)
      == [Row(1, balance * (1.0 + rate), balance * rate, balance, 0.0)]
  {
    var step := MonthStep(balance, balance * (1.0 + rate), rate, 1);
    assert step.0 == Row(1, balance * (1.0 + rate), balance * rate, balance, 0.0);
  }

  /** Over any schedule the principal repaid adds up to the amount borrowed
      less what is still owed after the last month. */
  lemma PrincipalRepaid(principal: real, annualRatePercent: real, nMonths: int)
    requires Schedule(principal, annualRatePercent, nMonths).Ok?
    ensures var rows := Schedule(principal, annualRatePercent, nMonths).value;
      |rows| == nMonths > 0 && SumPrincipal(rows) == principal - rows[nMonths - 1].balance
  {
    var payment := MonthlyPayment(principal, annualRatePercent, nMonths).value;
    WalkPrincipalSum(principal, payment, MonthlyRate(annualRatePercent), 1, nMonths);
  }
}
