# Credit-decision core of the credit-approval service, in Dafny

This project models the decision logic of a small lending service (`loans/views.py`).
The service registers customers and scores their loan history. It decides whether a
requested loan is approved, and at what corrected interest rate. It records approved
loans and lists a customer's active loans.

The database is replaced by an explicit immutable `Store`. It holds a map from customer
ids to `Customer` records, the loan table as a `seq<Loan>` in insertion order, and two
counters that stand for the auto-increment keys. Each handler is a pure function from
the store and the validated request to a response. The writing handlers also return the
next store.

Modules:

- `Wrappers`: `Option` and `Result`.
- `Seqs`: `Filter`, an order-preserving filter. It stands for a query-set `filter(...)`.
- `Records`: the entities, the store, the per-customer queries (`LoansOf`, `ActiveLoansOf`),
  the sums of principals and installments, and the store invariant `Valid`.
- `Rounding`: `round_to_nearest_lakh` (one lakh is 100000), with Python's ties-to-even `round`.
- `Scoring`: `calculate_credit_score`.
- `RatePolicy`: the score-band chain that both loan handlers use. It is defined once, and
  checked against an independent ordered tier table.
- `Installment`: `calculate_emi`. The zero-rate case and the zero-tenure division are modelled.
  The annuity formula is a function parameter.
- `Views`: `register_customer`, `check_eligibility`, `create_loan`, `view_loans_by_customer`.
- `HandlerProperties`: lemmas that relate the handlers to each other and to the invariant.
  They also cover sequences of requests.

Tenure zero: nothing in `loans/views.py` rejects a zero tenure before `calculate_emi`,
which then divides by zero (`loans/views.py:20-21`). The model returns `Err(EmiRaised)`
there. This is the same error as a float failure of the annuity formula. In `create_loan`
it can happen only on the approved path, because the EMI is computed only after the
rejection return (`loans/views.py:110-117`). Whatever the serializers accept is not part
of this model.

## Model

| member | source | states |
|---|---|---|
| Rounding.RoundToNearestLakh | loans/views.py:14-15 | The result is a multiple of 100000 at most 50000 from the amount. An exact half goes to the even multiple. A non-negative amount gives a non-negative limit. |
| Rounding.NearestLakhUnique | loans/views.py:14-15 | Only one value is the nearest multiple of 100000 with ties to even, so that property fully determines the rounding. |
| Rounding.RoundIdempotent | loans/views.py:14-15 | Rounding an already rounded limit changes nothing. |
| Rounding.RoundMonotone | loans/views.py:14-15 | A larger amount never rounds to a smaller limit. |
| Rounding.RoundingExamples | loans/views.py:14-15 | 36 x 100000 gives 3600000; 36 x 102778 = 3700008 gives 3700000; 150000 and 250000 both give 200000 (ties to even). |
| Views.ApprovedLimit | loans/views.py:41 | The registration limit is 36 months of income rounded to the nearest lakh. |
| Views.RegisterCustomer | loans/views.py:36-58 | Registration adds exactly one customer, under a fresh id when the store is consistent. The new customer stores the request's names, age and phone, the income as salary, the rounded limit and zero debt. The response echoes the id, "first last", age, income, limit and phone. Existing customers and loans are unchanged. |
| Scoring.CreditScore | loans/views.py:23-33 | The score lies in [0, 100]. It is 80 without loans, and 0 when the active principal exceeds the approved limit. Otherwise it is the floor of 100 x on-time loans / loans, where a loan is on time with at least one on-time EMI. |
| Scoring.ScoreExamples | loans/views.py:23-33 | Concrete scores: no loans gives 80. One of two loans on time gives 50, and another customer's loan is ignored. The same loans give 0 when their active principal of 400000 exceeds the limit. |
| Scoring.PerfectScoreIffAllOnTime | loans/views.py:28-29 | Without over-exposure, the score is 100 exactly when every loan of the customer has an on-time EMI. |
| Scoring.ScoreIgnoresOtherLoans | loans/views.py:24 | Adding another customer's loan leaves a customer's score unchanged. |
| Scoring.ScoreAfterNewLoan | loans/views.py:23-33 | A new loan of the customer with no on-time EMI never raises the score. |
| Scoring.NewLoanCounts | loans/views.py:24-30 | Adding such a loan appends exactly it to the customer's history. It keeps the on-time count and never lowers the active principal total. |
| Scoring.ScoreStepBound | loans/views.py:26-33 | With one more loan, the same on-time count and exposure that only grew, the score cannot rise. This holds whether the old history was empty, over-exposed or floored. |
| RatePolicy.Decide | loans/views.py:69-78 | The band approves exactly when score > 10, and the corrected rate is never below the requested one. Only approved scores of 50 or less change the rate: to at least 12.0, and to at least 16.0 at 30 or less. |
| RatePolicy.ChainMatchesTable | loans/views.py:71-78 | The if/elif chain agrees, for every score and rate, with an ordered table of tiers (above 50: no floor; above 30: 12.0; above 10: 16.0; otherwise rejected). |
| RatePolicy.HigherScoreNoWorse | loans/views.py:71-78 | A higher score keeps an approval and never needs a higher corrected rate. |
| RatePolicy.CorrectionMonotoneInRate | loans/views.py:73-76 | A higher requested rate never gives a lower corrected rate. |
| RatePolicy.CorrectionIdempotent | loans/views.py:73-76 | Applying the correction to an already corrected rate changes nothing. |
| RatePolicy.BandBoundaries | loans/views.py:71-78 | 51 keeps the rate. 50 and 31 are in the 12.0 band, 30 and 11 in the 16.0 band. 10 is rejected with the rate unchanged. |
| Installment.MonthlyRate | loans/views.py:18 | The monthly rate times 1200 is the annual percentage rate. |
| Installment.Emi | loans/views.py:17-21 | A zero tenure raises (division by zero). At a zero rate and positive tenure, the installment exists, and the installment times the months is the principal. Otherwise the result is the annuity formula's at the monthly rate, which may itself fail. |
| Views.CheckEligibility | loans/views.py:60-90 | An unknown customer is NotFound. For a known customer, the error EmiRaised happens exactly when the EMI at the corrected rate raises, and always for a zero tenure. Approval holds exactly when score > 10 and the active EMIs are at most half the salary. The corrected rate is the band's rate and is at least the requested one. The installment is the EMI at the corrected rate. |
| Views.CreateLoan | loans/views.py:92-137 | An unknown customer is NotFound. For a known customer, the error EmiRaised happens exactly when the request is approved and the EMI at the corrected rate raises, which includes every zero tenure. A rejected request gets the rejection response, with no installment, whatever the tenure. Approval holds exactly when score > 10, and the response carries the customer id. On rejection the store is unchanged and neither a loan id nor an installment is returned. On approval one loan is appended with the next id, the requested amount and tenure, the corrected rate, the EMI, no on-time EMIs and the active flag. The response has the loan id, the success message and the EMI. The owner's debt grows by the amount. Other customers and the earlier loans are unchanged. |
| Views.ViewLoansByCustomer | loans/views.py:158-171 | An unknown customer is NotFound. Otherwise there is one row per active loan of the customer, in stored order. Each row copies the loan's fields and has repayments left = tenure - on-time EMIs. |
| Records.ActiveExposureWithinDebt | loans/views.py:30 | In a consistent store, a customer's active principal never exceeds the recorded current debt. |
| HandlerProperties.RegisterPreservesValid | loans/views.py:41-50 | Registration keeps the store consistent. |
| HandlerProperties.RecordLoanPreservesValid | loans/views.py:118-130 | The atomic insert-and-debit keeps every customer's debt equal to the principal sum of that customer's loans. It also keeps loan ids ascending and owned. |
| HandlerProperties.CreateLoanPreservesValid | loans/views.py:92-137 | Loan creation, approved or not, keeps the store consistent. |
| HandlerProperties.ReachableStoresValid | loans/views.py:36-137 | Every store built from the empty store by any sequence of registrations and loan creations is consistent. |
| HandlerProperties.StepOnlyGrows | loans/views.py:129 | No request removes a customer or a loan or rewrites a stored loan. No request changes the approved limit or lowers the debt of an issued customer. |
| HandlerProperties.HandlersShareBandPolicy | loans/views.py:67-110 | Whenever the eligibility check answers, loan creation answers too, and it approves exactly when the eligibility check's band does. The eligibility approval implies creation's. Without the salary veto the two agree. An approved loan carries the eligibility check's corrected rate and installment. |
| HandlerProperties.SalaryVetoOnlyRejects | loans/views.py:79-80 | The salary veto can turn an approval into a rejection, never the reverse. |
| HandlerProperties.NoActiveLoansNoVeto | loans/views.py:68-80 | With no active loans the EMI sum is zero, so the band alone decides the approval. |
| HandlerProperties.SalaryVetoMonotone | loans/views.py:68-80 | Once a customer's active EMIs exceed half the salary, more active loans with non-negative installments keep the veto. |
| HandlerProperties.ListingIsActiveLoans | loans/views.py:161-170 | The listing has a row for every active loan of the customer, and every row comes from such a loan. |
| HandlerProperties.ListingAfterCreateLoan | loans/views.py:161-170 | After an approved creation, the owner's listing gains exactly one row at the end, with the amount and all repayments left. Every other listing, and every listing after a rejection, stays the same. |
| HandlerProperties.CreateLoanNeverRaisesScore | loans/views.py:118-130 | An approved creation never raises the borrower's score and leaves every other customer's score unchanged. |
| HandlerProperties.VetoNeedsDebtAboveLimit | loans/views.py:30-32 | In a consistent store, the over-exposure veto fires only for a customer whose debt exceeds the approved limit. |
| HandlerProperties.NewCustomerScoresBootstrap | loans/views.py:25-27 | A customer just registered in a consistent store has no loans and scores 80. |

## Left out

- Scoring.CreditScore: the score is the exact integer floor of 100 x on-time / loans. The source computes `int((on_time / n) * 100)` in floating point, which can come out one lower (29 of 100 gives 28). IEEE rounding is not modelled.
- Rounding.RoundToNearestLakh: the division by 100000.0 uses exact arithmetic here. The float quotient `amount / 100000.0` is usually inexact (37.00008 has no exact binary form), but `round` still agrees with exact ties-to-even rounding for integer amounts of realistic size. A true tie k + 0.5 is representable, so it divides exactly. Any other quotient lies at least 1e-5 from k + 0.5, far more than the division's rounding error. Very large amounts, where that margin fails, are not modelled.
- Installment.Emi: the annuity formula for a non-zero rate and its rounding to two decimals are floating-point work. They are the `amortize` parameter, which returns a value or fails. Which rates and tenures make it fail is not stated. In floats that happens when 1 + r rounds to 1.0 (ZeroDivisionError) or `(1 + r) ** months` overflows (OverflowError). Views.CheckEligibility and Views.CreateLoan answer EmiRaised exactly when it fails. Monotonicity of the EMI in the rate is not stated. The zero-rate result is exact and not rounded. A rate so small that `(annual_rate / 12) / 100` underflows to 0.0 takes the zero-rate branch in floats but not here. Rates and installments are exact reals.
- Request validation by the serializers is not part of this model. Requests arrive as typed fields: amounts, tenure, income and age are naturals, and rates are reals. HTTP status codes and response building are left out. `get_object_or_404` is the `NotFound` error.
- `date.today()` and the loan's start and end dates are left out: nothing in the core reads them.
- `view_loan` is left out: it only copies fields of one loan and its customer.
- Persistence atomicity and concurrency are left out. The loan insert and the debt update are one atomic step (`Views.RecordLoan`).
- The active-loan query in `view_loans_by_customer` has no explicit ordering. The model returns rows in insertion order, which is the database's usual order for this query but not a guarantee.
- Loan servicing, which updates `emis_paid_on_time` and `is_active`, lies outside this code. The model takes those fields as stored.
- The `Customer` and `Loan` models file is not part of this model. Field types follow their use in the handlers.
- Records.Valid: debt equal to the loan total holds for stores built by the handlers. Data loaded into the database by other means need not satisfy it.
