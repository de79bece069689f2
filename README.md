# Loan amortization engine, modelled in Dafny

This project models the amortization engine of the EMI calculator and export tool. That engine is the two functions at the top of `Loan_Amortization_Calculator.py`:

- `monthly_payment` computes the level monthly payment. It rejects a term that is not positive, returns 0 for a zero principal, and pays the loan off in a straight line (principal / months) when the rate is zero. Otherwise it applies the annuity formula P·r·(1+r)^n / ((1+r)^n − 1), with the monthly rate r = rate / 100 / 12.
- `amortization_schedule` walks the balance down month by month. Each month it charges interest on the balance and puts the rest of the payment towards the principal. When the principal portion would exceed the balance, it clamps that portion and rewrites the payment; the rewritten payment carries into later months. It emits one row per month.

The model also covers the affordability rule of the desktop form's "Calculate EMI" action: the input check, and the rule that a payment above half the salary is not affordable.

All arithmetic is over Dafny's exact `real`. Files and modules:

- `power.dfy` (`Power`): powers with a natural exponent, the geometric sum 1 + q + … + q^(n−1), and the facts about them that the payment needs.
- `loan_payment.dfy` (`LoanPayment`): `monthly_payment`, which returns a `Result`. Its two error cases are `InvalidTerm`, the `ValueError` for a term ≤ 0, and `ZeroDenominator`, the `ZeroDivisionError` the formula raises when (1+r)^n = 1.
- `loan_schedule.dfy` (`LoanSchedule`): `amortization_schedule`.
  - It is written as a method with the source's loop over the months. The loop updates the running balance and payment and appends one `Row` per month.
  - The method is proved against `Walk`, a recursive function that does one loop iteration (`MonthStep`) per month.
  - The lemmas about `Walk` and `Schedule` state what the schedule promises.
- `level_payment.dfy` (`LevelPayment`): why the annuity payment is a level payment.
  - Take a non-negative principal and a monthly rate above −100%.
  - `Owed` is the balance after k months in which the payment is charged in full: B(0) = P and B(k+1) = q·B(k) − payment, with q = 1 + r. Its closed form is P·q^k − payment·(1+q+…+q^(k−1)).
  - With the computed payment, this balance reaches exactly 0 at month n and is never negative before.
  - So the clamp never fires, every row charges the same payment, the balance never rises and ends at 0, and the principal portions add up to the principal.
- `affordability.dfy` (`Affordability`): the form's rule.
  - The month count is Python's `round` of 12 × years, which rounds halves to even.
  - Then come the input check, the payment, and the 50%-of-salary test.

Besides the `ValueError` for a term ≤ 0, `monthly_payment` raises `ZeroDivisionError`. That happens when r = −2 (an annual rate of −2400%), the term is even and the principal is not 0. `MonthlyPayment` models it as `ZeroDenominator`.

The code does not check the sign of the principal or the rate. What holds where:

- `LevelPaymentSchedule` proves the level-payment property for a principal ≥ 0 and an annual rate above −1200%. The property: the last balance is 0 and the principal portions sum to the principal.
- `PrincipalRepaid` holds for all inputs: the principal repaid equals the principal minus the final balance.
- `SettledStaysSettled` needs two conditions: a monthly rate of at least −100%, and a principal ≥ 0 when it is the first row that closes the loan. Then, once a row closes the loan, the later rows are all zeros. Without the second condition it fails. A principal of −1 at an annual rate of 1200% over 2 months gives the rows (1, −2, −1, −1, 0) and (2, −2, 0, −2, 2).

## Model

| member | source | states |
|---|---|---|
| `LoanPayment.MonthlyRate` | Loan_Amortization_Calculator.py:21 | The monthly rate is the annual percentage per hundred per twelve months, so 1200 times it gives back the annual percentage. |
| `LoanPayment.MonthlyPayment` | Loan_Amortization_Calculator.py:12-27 | Fails with InvalidTerm exactly when n_months ≤ 0. Fails with ZeroDenominator exactly when the term is positive, the principal is not 0, r = −2 and the term is even. Returns 0 for a zero principal and principal / n_months for a zero rate. |
| `Power.PowEqualsOne` | Loan_Amortization_Calculator.py:25-26 | With n ≥ 1, (1+r)^n = 1, i.e. the annuity denominator is 0, exactly when q = 1 or (q = −1 and n is even). |
| `LoanPayment.AnnuityRetiresLoan` | Loan_Amortization_Calculator.py:24-26 | The annuity formula's payment, grown over the term, equals the principal grown over the term: payment·(1+q+…+q^(n−1)) = P·q^n. |
| `LoanPayment.PaymentRetiresLoan` | Loan_Amortization_Calculator.py:18-26 | The same holds for every payment `monthly_payment` returns, in all three branches (zero principal, zero rate, annuity), and the term is then positive. This is what the formula is for. |
| `LoanPayment.StraightLineRetiresLoan` | Loan_Amortization_Calculator.py:21-22 | At a zero rate, n payments of principal / n repay the principal: (P/n)·n = P·1^n. |
| `LoanPayment.PaymentIsAnnuity` | Loan_Amortization_Calculator.py:18-26 | A defined payment with a nonzero principal and a nonzero rate comes from the annuity formula: the term is positive, (1+r)^n ≠ 1, and the payment is P·r·g/(g−1) with g = (1+r)^n. |
| `LoanPayment.PaymentSign` | Loan_Amortization_Calculator.py:16-26 | For a principal ≥ 0, an annual rate above −1200% and a positive term, the payment is defined and not negative. It is positive when the principal is positive. |
| `LoanPayment.SingleMonthPayment` | Loan_Amortization_Calculator.py:21-26 | At any rate, a one-month loan's payment is principal·(1+r). |
| `LoanSchedule.MonthStep` | Loan_Amortization_Calculator.py:37-49 | One month: interest = opening balance·r, and interest + principal = payment. The principal is at most the opening balance. The closing balance is the opening balance minus the principal, and is ≥ 0. The payment is never raised: it is either kept or lowered to what settles the loan (closing balance 0). The carried balance equals the emitted one, so `max(balance, 0)` changes nothing. |
| `LoanSchedule.Walk` | Loan_Amortization_Calculator.py:36-50 | The walk has exactly `count` rows, numbered consecutively from the first month. |
| `LoanSchedule.Schedule` | Loan_Amortization_Calculator.py:30-51 | The schedule fails exactly when `monthly_payment` fails, with the same error. Otherwise it has n_months rows, and row i is month i+1. |
| `LoanSchedule.AmortizationSchedule` | Loan_Amortization_Calculator.py:30-51 | The loop's result equals `Schedule` (the walk of n_months months from the principal with the computed payment). It fails exactly when `monthly_payment` fails, with the same error, and with InvalidTerm when n_months ≤ 0. Otherwise it has n_months rows; row i is month i+1, and each row follows from the previous row's balance as in `MonthStep`. |
| `LoanSchedule.WalkChained` | Loan_Amortization_Calculator.py:36-49 | In every walk each row follows, as in `MonthStep`, from the previous row's closing balance; the first row follows from the principal. So each row's interest is the carried balance times r, and every balance is ≥ 0. |
| `LoanSchedule.FirstRowInterest` | Loan_Amortization_Calculator.py:32-37 | A successful schedule has n_months > 0 rows, and the first row's interest is principal·rate / 1200. |
| `LoanSchedule.WalkSuffix` | Loan_Amortization_Calculator.py:36-50 | After row k the walk continues as a fresh walk from row k's balance and its payment (possibly rewritten). This is how the rewritten payment carries into later months. |
| `LoanSchedule.WalkSettled` | Loan_Amortization_Calculator.py:37-43 | From a zero balance and a payment ≥ 0, every row is all zeros: the first month clamps the payment to 0. |
| `LoanSchedule.SettlingPaymentNonNegative` | Loan_Amortization_Calculator.py:40-42 | A row that closes the loan charges its opening balance times (1+r). That is ≥ 0 when the opening balance is ≥ 0 and r ≥ −1. |
| `LoanSchedule.SettlingRowPayment` | Loan_Amortization_Calculator.py:37-43 | For r ≥ −1, the row whose balance is 0 charges a payment ≥ 0. If that row is the first, the opening balance must be ≥ 0; later rows always open with a balance ≥ 0. |
| `LoanSchedule.SettledStaysSettled` | Loan_Amortization_Calculator.py:37-43 | Under the same conditions, every row after the one whose balance is 0 is all zeros. |
| `LoanSchedule.WalkPrincipalSum` | Loan_Amortization_Calculator.py:40-43 | Over any walk, the principal portions add up to the opening balance minus the last row's balance. |
| `LoanSchedule.PrincipalRepaid` | Loan_Amortization_Calculator.py:30-51 | The same for every successful schedule and all inputs: the principal repaid equals the principal minus the final balance. |
| `LoanSchedule.ZeroPrincipalSchedule` | Loan_Amortization_Calculator.py:18-49 | With a zero principal and n_months > 0, the schedule has n_months rows, and row i is (i+1, 0, 0, 0, 0). |
| `LoanSchedule.OneMonthWalk` | Loan_Amortization_Calculator.py:37-49 | Paying balance·(1+r) against a balance settles it in one row: payment balance·(1+r), interest balance·r, principal = balance, balance 0. |
| `LoanSchedule.SingleMonthSchedule` | Loan_Amortization_Calculator.py:21-49 | At any rate, a one-month schedule is exactly one row (1, P·(1+r), P·r, P, 0). |
| `LevelPayment.OwedClosedForm` | Loan_Amortization_Calculator.py:24-26 | The balance after k full payments has the closed form P·q^k − payment·(1+q+…+q^(k−1)). |
| `LevelPayment.OwedMonth` | Loan_Amortization_Calculator.py:37-43 | In the loop's terms, a full-payment month takes B(k) to B(k+1): B(k) − (payment − B(k)·r) = B(k+1). |
| `LevelPayment.PaymentClosesForm` | Loan_Amortization_Calculator.py:18-26 | With the payment `monthly_payment` returns, the balance after n full payments is exactly 0. |
| `LevelPayment.OwedNonNegative` | Loan_Amortization_Calculator.py:40-43 | Take 1 + r > 0 and a payment ≥ 0. If the balance after n full payments is 0, it is ≥ 0 after every earlier month. |
| `LevelPayment.OwedPrincipalNonNegative` | Loan_Amortization_Calculator.py:37-38 | Under the same conditions, every month's principal portion (payment − interest) is ≥ 0. |
| `LevelPayment.UnclampedStep` | Loan_Amortization_Calculator.py:37-43 | A month whose closing balance would be ≥ 0 keeps the payment and charges it in full. |
| `LevelPayment.LevelHead` | Loan_Amortization_Calculator.py:36-50 | Under the same conditions, the first row of the walk from B(k) is the full-payment row for month k+1, and the walk goes on from B(k+1) with the same payment. |
| `LevelPayment.LevelWalk` | Loan_Amortization_Calculator.py:36-50 | Take 1 + r > 0 and a payment ≥ 0. If the balance after n full payments is 0, then the walk from B(k) starting at month k+1 is made of full-payment rows: the full payment, interest on B(j), and closing balance B(j+1). The clamp never fires. |
| `LevelPayment.LevelRowsFromStart` | Loan_Amortization_Calculator.py:37-49 | Full-payment rows from month 1 on charge the payment with principal portions ≥ 0, and the last one closes the loan. |
| `LevelPayment.ChainedBalanceFalls` | Loan_Amortization_Calculator.py:40-49 | In chained rows whose principal portions are ≥ 0, the balance never rises. |
| `LevelPayment.LevelWalkFromPrincipal` | Loan_Amortization_Calculator.py:36-50 | A walk from the principal with such a payment is a `LevelSchedule`: n rows, the same payment in every row, principal portions ≥ 0, balances that never rise, a last balance of 0, and principal portions that add up to the principal. |
| `LevelPayment.LevelPaymentSchedule` | Loan_Amortization_Calculator.py:30-51 | For a principal ≥ 0, an annual rate above −1200% and n_months > 0, the payment and the schedule succeed, and the schedule is a `LevelSchedule`. It has n_months rows, and every row charges the payment `monthly_payment` returns. Each principal portion is ≥ 0. The balance never rises and ends at exactly 0. The principal portions sum to the principal. |
| `Affordability.RoundHalfEven` | Loan_Amortization_Calculator.py:171 | Python's `round`: within 0.5 of its argument, and even when the argument lies exactly between two integers. |
| `Affordability.Assess` | Loan_Amortization_Calculator.py:165-203 | "Valid positive values" error exactly when the input check at line 173 fails. The caught `ValueError` (n_months rounds to 0) happens exactly when the inputs are valid and 12·years ≤ 0.5. Otherwise the assessed payment is what `monthly_payment` returns and it is positive; the loan is affordable exactly when the payment is at most half the salary. |

Proof helpers, which unfold a definition or rearrange a sequence and model no source lines of their own:

- `LoanSchedule.WalkCons` and `LoanSchedule.WalkFirst`: one month of `Walk`, seen from the front.
- `LoanSchedule.TailOfTail`, `LoanSchedule.AppendAssociates` and `LoanSchedule.ZeroTail`: index and slice facts about rows.
- `LevelPayment.LevelFromCons`: puts a level row in front of level rows.
- The algebra steps `GrowthSplit`, `NonNegativeFactor`, `LastPrincipal`, `EarlierPrincipal`, `ClosedFormAlgebra`, `RateOfGrowth` and `SignFromGrowth`.

## Left out

- Floating point:
  - The model uses exact reals, so floating-point drift, overflow of (1+r)^n and float zero-tests such as `monthly_rate == 0` are not captured.
  - Over floats, the annuity denominator can also be 0 for a nonzero rate small enough that `1 + r == 1.0` (an annual rate of 1e-13, say). There `monthly_payment` raises `ZeroDivisionError`, whereas `MonthlyPayment`'s `ZeroDenominator` condition (r = −2 and an even term) holds only over exact reals.
  - The clamp exists because of floating-point drift. `LevelPaymentSchedule` shows that it never fires with exact arithmetic for a principal ≥ 0 and a rate above −1200%.
- Rounding: `round(x, 10)` on every emitted field (lines 46-49) is not modelled; rows hold the exact values. The `max(balance, 0.0)` of line 49 is modelled, as `NonNegative`.
- Console and file output: `format_currency`, `print_schedule` and `write_csv` (lines 54-72) only format, print and write files.
- Command line: `parse_args` and `main` (lines 75-112) are argument parsing and output. This includes the `if args.months:` test at line 90. `--years` and `--months` are mutually exclusive, so with `-m 0` no years value is set. A months value of 0 is falsy, so line 93 computes `args.years * 12` with `years` unset and fails with a `TypeError`. Also out are the totals summed from rounded rows.
- GUI:
  - The tkinter GUI (lines 115-301) is left out except the affordability rule.
  - Also out: the widgets and message boxes, the `float()` parsing of the entry fields (its `ValueError` is user input), the EMI percentage shown to the user, and the results stored as attributes of `calculate_emi`.
  - The order of effects inside the action is not modelled: the schedule computed at line 196 is the same `amortization_schedule` call, so it is not modelled separately.
- Concrete scenario: the worked example (20,000,000 at 10% over 120 months) is not evaluated, because (1+r)^120 is not computed symbolically. For that example, `FirstRowInterest` gives a first interest of 20,000,000·10/1200.
- Determinism: Dafny functions always give the same result for the same inputs, so no lemma states it.
- LevelPayment.LevelPaymentSchedule: does not cover a negative principal or an annual rate of −1200% or below. The code accepts those, but the level-payment property does not hold for them in general.
