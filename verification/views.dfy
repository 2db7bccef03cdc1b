/**
 * The four request handlers of the lending service over an explicit store:
 * customer registration, the eligibility check, loan creation and the listing of a
 * customer's active loans. Each handler is a function from the store and the
 * validated request to a response and, for the writing ones, the next store.
 */
module Views {
  import opened Wrappers
  import opened Records
  import opened Rounding
  import opened Scoring
  import opened RatePolicy
  import opened Installment

  /**
   * `get_object_or_404` failing, or `calculate_emi` raising: a division by a zero tenure,
   * or a float failure of the annuity formula.
   */
  datatype Error = NotFound | EmiRaised

  /** The approved limit is this many months of income. */
  const IncomeMonths: nat := 36

  const RejectedMessage: string := "Loan not approved due to low credit score."
  const CreatedMessage: string := "Loan created successfully."

  datatype RegisterRequest = RegisterRequest(
    firstName: string, lastName: string, age: nat, monthlyIncome: nat, phoneNumber: nat)

  datatype RegisterResponse = RegisterResponse(
    customerId: CustomerId, name: string, age: nat, monthlyIncome: nat,
    approvedLimit: nat, phoneNumber: nat)

  /** The validated body shared by the eligibility check and loan creation. */
  datatype LoanRequest = LoanRequest(
    customerId: CustomerId, loanAmount: nat, interestRate: real, tenure: nat)

  datatype EligibilityResponse = EligibilityResponse(
    customerId: CustomerId, approval: bool, interestRate: real, correctedInterestRate: real,
    tenure: nat, monthlyInstallment: real, creditScore: int)

  datatype CreateLoanResponse = CreateLoanResponse(
    loanId: Option<LoanId>, customerId: CustomerId, loanApproved: bool, message: string,
    monthlyInstallment: Option<real>)

  /** One row of the active-loan listing. */
  datatype LoanSummary = LoanSummary(
    loanId: LoanId, loanAmount: nat, interestRate: real, monthlyInstallment: real,
    repaymentsLeft: int)

  /** The limit granted at registration: 36 months of income to the nearest lakh. */
  function ApprovedLimit(monthlyIncome: nat): (limit: nat)
    ensures IsNearestLakh(IncomeMonths * monthlyIncome, limit)
  {
    RoundToNearestLakh(IncomeMonths * monthlyIncome)
  }

  /** `register_customer`: a new customer with its limit and no debt; nothing else changes. */
  function RegisterCustomer(st: Store, req: RegisterRequest): (r: (Store, RegisterResponse))
    ensures Valid(st) ==> r.1.customerId !in st.customers
    ensures r.0.customers.Keys == st.customers.Keys + {r.1.customerId}
    ensures forall id :: id in st.customers && id != r.1.customerId ==>
              r.0.customers[id] == st.customers[id]
    ensures r.0.customers[r.1.customerId] ==
              Customer(req.firstName, req.lastName, req.age, req.phoneNumber, req.monthlyIncome,
                       r.1.approvedLimit, 0)
    ensures IsNearestLakh(IncomeMonths * req.monthlyIncome, r.1.approvedLimit)
    ensures r.1.name == req.firstName + " " + req.lastName
    ensures r.1.age == req.age && r.1.monthlyIncome == req.monthlyIncome && r.1.phoneNumber == req.phoneNumber
    ensures r.0.loans == st.loans && r.0.nextLoanId == st.nextLoanId
  {
    var id := st.nextCustomerId;
    var limit := ApprovedLimit(req.monthlyIncome);
    var c := Customer(req.firstName, req.lastName, req.age, req.phoneNumber, req.monthlyIncome, limit, 0);
    (Store(st.customers[id := c], st.loans, id + 1, st.nextLoanId),
     RegisterResponse(id, req.firstName + " " + req.lastName, req.age, req.monthlyIncome, limit, req.phoneNumber))
  }

  /** The EMIs of the active loans exceed half the monthly salary. */
  predicate SalaryVetoed(c: Customer, active: seq<Loan>) {
    TotalPayment(active) > 0.5 * c.monthlySalary as real
  }

  /**
   * `check_eligibility`: the band decision for the customer's score, vetoed when the active
   * EMIs exceed half the salary, with the installment at the corrected rate.
   */
  function CheckEligibility(st: Store, req: LoanRequest, amortize: Amortizer)
    : (r: Result<EligibilityResponse, Error>)
    ensures req.customerId !in st.customers ==> r == Err(NotFound)
    ensures req.customerId in st.customers ==>
              var score := CreditScore(req.customerId, st.customers[req.customerId], st.loans);
              var rate := Decide(score, req.interestRate).correctedRate;
              (r.Err? <==> Emi(req.loanAmount, rate, req.tenure, amortize).None?)
    ensures req.customerId in st.customers && req.tenure == 0 ==> r.Err?
    ensures req.customerId in st.customers && r.Err? ==> r.error == EmiRaised
    ensures r.Ok? ==>
              var c := st.customers[req.customerId];
              var e := r.value;
              && e.customerId == req.customerId
              && e.interestRate == req.interestRate
              && e.tenure == req.tenure
              && e.creditScore == CreditScore(req.customerId, c, st.loans)
              && (e.approval <==>
                    e.creditScore > LowBandAbove && !SalaryVetoed(c, ActiveLoansOf(st.loans, req.customerId)))
              && e.correctedInterestRate >= req.interestRate
              && e.correctedInterestRate == Decide(e.creditScore, req.interestRate).correctedRate
              && Emi(req.loanAmount, e.correctedInterestRate, req.tenure, amortize) == Some(e.monthlyInstallment)
  {
    if req.customerId !in st.customers then Err(NotFound)
    else
      var c := st.customers[req.customerId];
      var score := CreditScore(req.customerId, c, st.loans);
      var currentEmis := TotalPayment(ActiveLoansOf(st.loans, req.customerId));
      var band := Decide(score, req.interestRate);
      var approved := band.approved && !(currentEmis > 0.5 * c.monthlySalary as real);
      match Emi(req.loanAmount, band.correctedRate, req.tenure, amortize)
      case None => Err(EmiRaised)
      case Some(emi) =>
        Ok(EligibilityResponse(req.customerId, approved, req.interestRate, band.correctedRate,
                               req.tenure, emi, score))
  }

  /**
   * `create_loan`: on rejection the store is untouched; on approval exactly one active loan
   * is appended at the corrected rate and the customer's debt grows by its amount.
   */
  function CreateLoan(st: Store, req: LoanRequest, amortize: Amortizer)
    : (r: Result<(Store, CreateLoanResponse), Error>)
    ensures req.customerId !in st.customers ==> r == Err(NotFound)
    ensures req.customerId in st.customers ==>
              var score := CreditScore(req.customerId, st.customers[req.customerId], st.loans);
              var rate := Decide(score, req.interestRate).correctedRate;
              (r.Err? <==> score > LowBandAbove && Emi(req.loanAmount, rate, req.tenure, amortize).None?)
    ensures r.Err? && req.customerId in st.customers ==> r.error == EmiRaised
    ensures (req.customerId in st.customers && req.tenure == 0 &&
             CreditScore(req.customerId, st.customers[req.customerId], st.loans) > LowBandAbove) ==> r.Err?
    ensures r.Ok? ==> r.value.1.customerId == req.customerId
    ensures r.Ok? ==>
              (r.value.1.loanApproved <==>
                 CreditScore(req.customerId, st.customers[req.customerId], st.loans) > LowBandAbove)
    ensures r.Ok? && !r.value.1.loanApproved ==>
              r.value.0 == st && r.value.1.loanId == None && r.value.1.message == RejectedMessage
              && r.value.1.monthlyInstallment == None
    ensures r.Ok? && r.value.1.loanApproved ==>
              var st' := r.value.0;
              var resp := r.value.1;
              var c := st.customers[req.customerId];
              && |st'.loans| == |st.loans| + 1
              && st'.loans[..|st.loans|] == st.loans
              && (var l := st'.loans[|st.loans|];
                  && resp.loanId == Some(l.loanId) && l.loanId == st.nextLoanId
                  && resp.message == CreatedMessage
                  && l.customerId == req.customerId
                  && l.loanAmount == req.loanAmount
                  && l.tenure == req.tenure
                  && l.isActive && l.emisPaidOnTime == 0
                  && l.interestRate >= req.interestRate
                  && l.interestRate == Decide(CreditScore(req.customerId, c, st.loans), req.interestRate).correctedRate
                  && Emi(req.loanAmount, l.interestRate, req.tenure, amortize) == Some(l.monthlyPayment)
                  && resp.monthlyInstallment == Some(l.monthlyPayment))
              && st'.customers.Keys == st.customers.Keys
              && st'.customers[req.customerId] == c.(currentDebt := c.currentDebt + req.loanAmount)
              && (forall id :: id in st.customers && id != req.customerId ==>
                    st'.customers[id] == st.customers[id])
              && st'.nextCustomerId == st.nextCustomerId
              && st'.nextLoanId == st.nextLoanId + 1
  {
    if req.customerId !in st.customers then Err(NotFound)
    else
      var c := st.customers[req.customerId];
      var score := CreditScore(req.customerId, c, st.loans);
      var band := Decide(score, req.interestRate);
      if !band.approved then
        Ok((st, CreateLoanResponse(None, req.customerId, false, RejectedMessage, None)))
      else
        match Emi(req.loanAmount, band.correctedRate, req.tenure, amortize)
        case None => Err(EmiRaised)
        case Some(emi) =>
          var loan := Loan(st.nextLoanId, req.customerId, req.loanAmount, req.tenure,
                           band.correctedRate, emi, 0, true);
          Ok((RecordLoan(st, loan),
              CreateLoanResponse(Some(loan.loanId), req.customerId, true, CreatedMessage, Some(emi))))
  }

  /**
   * The write of an approved creation, as one atomic step: insert the loan and add its
   * amount to the owner's debt.
   */
  function RecordLoan(st: Store, loan: Loan): Store
    requires loan.customerId in st.customers
  {
    var c := st.customers[loan.customerId];
    Store(st.customers[loan.customerId := c.(currentDebt := c.currentDebt + loan.loanAmount)],
          st.loans + [loan], st.nextCustomerId, st.nextLoanId + 1)
  }

  /** The listing row of one loan. */
  function Summarize(l: Loan): LoanSummary {
    LoanSummary(l.loanId, l.loanAmount, l.interestRate, l.monthlyPayment, l.tenure - l.emisPaidOnTime)
  }

  /** The listing rows of some loans, one per loan, in order. */
  function Summaries(ls: seq<Loan>): seq<LoanSummary> {
    seq(|ls|, i requires 0 <= i < |ls| => Summarize(ls[i]))
  }

  /** `view_loans_by_customer`: one row per active loan of the customer, in stored order. */
  function ViewLoansByCustomer(st: Store, id: CustomerId): (r: Result<seq<LoanSummary>, Error>)
    ensures r.Err? <==> id !in st.customers
    ensures r.Err? ==> r.error == NotFound
    ensures r.Ok? ==> |r.value| == |ActiveLoansOf(st.loans, id)|
    ensures r.Ok? ==> forall i :: 0 <= i < |r.value| ==>
              var l := ActiveLoansOf(st.loans, id)[i];
              && r.value[i].loanId == l.loanId
              && r.value[i].loanAmount == l.loanAmount
              && r.value[i].interestRate == l.interestRate
              && r.value[i].monthlyInstallment == l.monthlyPayment
              && r.value[i].repaymentsLeft == l.tenure - l.emisPaidOnTime
  {
    if id !in st.customers then Err(NotFound)
    else
      Ok(Summaries(ActiveLoansOf(st.loans, id)))
  }
}
