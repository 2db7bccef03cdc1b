/**
 * Properties relating the handlers to each other and to the store invariant:
 * both loan handlers apply the same band policy, creation keeps the debt in step
 * with the loan table, and the listing follows the loan table.
 */
module HandlerProperties {
  import opened Wrappers
  import opened Seqs
  import opened Records
  import opened Scoring
  import opened RatePolicy
  import opened Installment
  import opened Views

  /** Registration keeps the store consistent. */
  lemma RegisterPreservesValid(st: Store, req: RegisterRequest)
    requires Valid(st)
    ensures Valid(RegisterCustomer(st, req).0)
  {
    var (st', resp) := RegisterCustomer(st, req);
    var id := resp.customerId;
    forall k | k in st'.customers
      ensures st'.customers[k].currentDebt == TotalAmount(LoansOf(st'.loans, k))
    {
      if k == id {
        FilterEmpty(BelongsTo(k), st.loans);
      }
    }
  }

  /** Recording a loan for a registered customer keeps ownership and the id order. */
  lemma RecordLoanKeepsLoanTable(st: Store, loan: Loan)
    requires LoansOwned(st) && LoanIdsAscending(st)
    requires loan.customerId in st.customers
    requires loan.loanId == st.nextLoanId
    ensures LoansOwned(RecordLoan(st, loan)) && LoanIdsAscending(RecordLoan(st, loan))
  {
    var st' := RecordLoan(st, loan);
    var n := |st.loans|;
    assert st'.loans == st.loans + [loan];
    forall i | 0 <= i < |st'.loans|
      ensures st'.loans[i].customerId in st'.customers && st'.loans[i].loanId < st'.nextLoanId
    {
      if i < n {
        assert st'.loans[i] == st.loans[i];
      }
    }
    forall i, j | 0 <= i < j < |st'.loans|
      ensures st'.loans[i].loanId < st'.loans[j].loanId
    {
      assert st'.loans[i] == st.loans[i];
      if j < n {
        assert st'.loans[j] == st.loans[j];
      }
    }
  }

  /** Recording a loan adds its amount to exactly its owner's debt and loan total. */
  lemma RecordLoanKeepsDebt(st: Store, loan: Loan)
    requires DebtTracksLoans(st)
    requires loan.customerId in st.customers
    ensures DebtTracksLoans(RecordLoan(st, loan))
  {
    var st' := RecordLoan(st, loan);
    assert st'.loans == st.loans + [loan];
    forall k | k in st'.customers
      ensures st'.customers[k].currentDebt == TotalAmount(LoansOf(st'.loans, k))
    {
      LoansOfSnoc(st.loans, loan, k);
      if k == loan.customerId {
        TotalAmountConcat(LoansOf(st.loans, k), [loan]);
      }
    }
  }

  /** Recording a loan with a fresh id for a registered customer keeps the store consistent. */
  lemma RecordLoanPreservesValid(st: Store, loan: Loan)
    requires Valid(st)
    requires loan.customerId in st.customers
    requires loan.loanId == st.nextLoanId
    ensures Valid(RecordLoan(st, loan))
  {
    RecordLoanKeepsLoanTable(st, loan);
    RecordLoanKeepsDebt(st, loan);
  }

  /** Loan creation keeps the store consistent: the new debt is the new loan total. */
  lemma CreateLoanPreservesValid(st: Store, req: LoanRequest, amortize: Amortizer)
    requires Valid(st)
    requires CreateLoan(st, req, amortize).Ok?
    ensures Valid(CreateLoan(st, req, amortize).value.0)
  {
    var (st', resp) := CreateLoan(st, req, amortize).value;
    if resp.loanApproved {
      var l := st'.loans[|st.loans|];
      assert st' == RecordLoan(st, l);
      RecordLoanPreservesValid(st, l);
    }
  }

  /** A writing request, as the service receives them one after another. */
  datatype Op = RegisterOp(reg: RegisterRequest) | CreateLoanOp(loan: LoanRequest)

  /** The store after one request; a request that fails leaves the store as it was. */
  function Step(st: Store, op: Op, amortize: Amortizer): Store {
    match op
    case RegisterOp(reg) => RegisterCustomer(st, reg).0
    case CreateLoanOp(req) =>
      match CreateLoan(st, req, amortize)
      case Ok(res) => res.0
      case Err(_) => st
  }

  /** The store after a sequence of requests. */
  function Run(st: Store, ops: seq<Op>, amortize: Amortizer): Store
    decreases |ops|
  {
    if |ops| == 0 then st else Run(Step(st, ops[0], amortize), ops[1..], amortize)
  }

  /** Each writing request keeps the store consistent. */
  lemma StepPreservesValid(st: Store, op: Op, amortize: Amortizer)
    requires Valid(st)
    ensures Valid(Step(st, op, amortize))
  {
    match op
    case RegisterOp(reg) => RegisterPreservesValid(st, reg);
    case CreateLoanOp(req) =>
      if CreateLoan(st, req, amortize).Ok? {
        CreateLoanPreservesValid(st, req, amortize);
      }
  }

  /** Every store the handlers build from the empty store is consistent. */
  lemma {:induction false} RunPreservesValid(st: Store, ops: seq<Op>, amortize: Amortizer)
    requires Valid(st)
    ensures Valid(Run(st, ops, amortize))
    decreases |ops|
  {
    if |ops| > 0 {
      StepPreservesValid(st, ops[0], amortize);
      RunPreservesValid(Step(st, ops[0], amortize), ops[1..], amortize);
    }
  }

  /** Reachable stores are consistent. */
  lemma ReachableStoresValid(ops: seq<Op>, amortize: Amortizer)
    ensures Valid(Run(EmptyStore(), ops, amortize))
  {
    EmptyStoreValid();
    RunPreservesValid(EmptyStore(), ops, amortize);
  }

  /**
   * A request never removes a customer, never changes an approved limit, never lowers a debt
   * and never removes or rewrites a stored loan.
   */
  lemma StepOnlyGrows(st: Store, op: Op, amortize: Amortizer)
    ensures var st' := Step(st, op, amortize);
            && st.customers.Keys <= st'.customers.Keys
            && |st.loans| <= |st'.loans| && st'.loans[..|st.loans|] == st.loans
            && forall id :: id in st.customers && id < st.nextCustomerId ==>
                 && st'.customers[id].approvedLimit == st.customers[id].approvedLimit
                 && st'.customers[id].currentDebt >= st.customers[id].currentDebt
  {
    match op
    case RegisterOp(reg) =>
      assert RegisterCustomer(st, reg).1.customerId == st.nextCustomerId;
    case CreateLoanOp(req) =>
  }

  /**
   * The two loan handlers share one band policy: creation approves exactly when the band
   * approves, the eligibility check can only add a rejection through the salary veto, and
   * without the veto the two agree, on the approval and on the rate and installment.
   */
  lemma HandlersShareBandPolicy(st: Store, req: LoanRequest, amortize: Amortizer)
    requires CheckEligibility(st, req, amortize).Ok?
    ensures CreateLoan(st, req, amortize).Ok?
    ensures var e := CheckEligibility(st, req, amortize).value;
            var (st', resp) := CreateLoan(st, req, amortize).value;
            var c := st.customers[req.customerId];
            && resp.loanApproved == Decide(e.creditScore, req.interestRate).approved
            && (e.approval ==> resp.loanApproved)
            && (!SalaryVetoed(c, ActiveLoansOf(st.loans, req.customerId)) ==> e.approval == resp.loanApproved)
            && (resp.loanApproved ==>
                  && st'.loans[|st.loans|].interestRate == e.correctedInterestRate
                  && resp.monthlyInstallment == Some(e.monthlyInstallment))
  {
  }

  /** The salary veto only ever turns an approval into a rejection. */
  lemma SalaryVetoOnlyRejects(st: Store, req: LoanRequest, amortize: Amortizer)
    requires CheckEligibility(st, req, amortize).Ok?
    ensures var e := CheckEligibility(st, req, amortize).value;
            e.approval ==> Decide(e.creditScore, req.interestRate).approved
  {
  }

  /** A customer with no active loans is never vetoed on salary: the band alone decides. */
  lemma NoActiveLoansNoVeto(st: Store, req: LoanRequest, amortize: Amortizer)
    requires CheckEligibility(st, req, amortize).Ok?
    requires ActiveLoansOf(st.loans, req.customerId) == []
    ensures var e := CheckEligibility(st, req, amortize).value;
            e.approval == Decide(e.creditScore, req.interestRate).approved
  {
  }

  /**
   * Further active loans with non-negative installments never lift the veto: once the
   * EMIs already exceed half the salary, adding more keeps them above it.
   */
  lemma SalaryVetoMonotone(c: Customer, active: seq<Loan>, more: seq<Loan>)
    requires forall i :: 0 <= i < |more| ==> more[i].monthlyPayment >= 0.0
    requires SalaryVetoed(c, active)
    ensures SalaryVetoed(c, active + more)
  {
    TotalPaymentConcat(active, more);
  }

  /** The listing holds a row for every active loan of the customer and nothing else. */
  lemma ListingIsActiveLoans(st: Store, id: CustomerId)
    requires id in st.customers
    ensures forall l :: l in st.loans && l.customerId == id && l.isActive ==>
              Summarize(l) in ViewLoansByCustomer(st, id).value
    ensures forall row :: row in ViewLoansByCustomer(st, id).value ==>
              exists l :: l in st.loans && l.customerId == id && l.isActive && row == Summarize(l)
  {
    var rows := ViewLoansByCustomer(st, id).value;
    var active := ActiveLoansOf(st.loans, id);
    forall l | l in st.loans && l.customerId == id && l.isActive
      ensures Summarize(l) in rows
    {
      assert l in LoansOf(st.loans, id);
      assert l in active;
      var i :| 0 <= i < |active| && active[i] == l;
      assert rows[i] == Summarize(l);
    }
    forall row | row in rows
      ensures exists l :: l in st.loans && l.customerId == id && l.isActive && row == Summarize(l)
    {
      var i :| 0 <= i < |rows| && rows[i] == row;
      assert active[i] in active;
      assert row == Summarize(active[i]);
    }
  }

  /** The rows of loans extended by one loan are the old rows and that loan's row. */
  lemma SummariesSnoc(ls: seq<Loan>, l: Loan)
    ensures Summaries(ls + [l]) == Summaries(ls) + [Summarize(l)]
  {
    var a, b := Summaries(ls + [l]), Summaries(ls) + [Summarize(l)];
    assert |a| == |b|;
    forall i | 0 <= i < |a| ensures a[i] == b[i] {
      if i < |ls| {
        assert (ls + [l])[i] == ls[i];
      }
    }
  }

  /**
   * Recording an active loan appends its row to its owner's listing and leaves every
   * other listing as it was.
   */
  lemma ListingAfterRecordLoan(st: Store, loan: Loan, id: CustomerId)
    requires loan.customerId in st.customers && loan.isActive
    requires id in st.customers
    ensures var before := ViewLoansByCustomer(st, id).value;
            var after := ViewLoansByCustomer(RecordLoan(st, loan), id).value;
            if id == loan.customerId then after == before + [Summarize(loan)] else after == before
  {
    var st' := RecordLoan(st, loan);
    assert st'.loans == st.loans + [loan];
    LoansOfSnoc(st.loans, loan, id);
    FilterSnoc(IsActive, LoansOf(st.loans, id), loan);
    if id == loan.customerId {
      assert ActiveLoansOf(st'.loans, id) == ActiveLoansOf(st.loans, id) + [loan];
      SummariesSnoc(ActiveLoansOf(st.loans, id), loan);
    } else {
      assert ActiveLoansOf(st'.loans, id) == ActiveLoansOf(st.loans, id);
    }
  }

  /**
   * After an approved creation the customer's listing gains exactly one row at the end,
   * with all repayments left; other customers' listings, and everything after a
   * rejection, stay as they were.
   */
  lemma ListingAfterCreateLoan(st: Store, req: LoanRequest, amortize: Amortizer, id: CustomerId)
    requires CreateLoan(st, req, amortize).Ok?
    requires id in st.customers
    ensures var (st', resp) := CreateLoan(st, req, amortize).value;
            var before := ViewLoansByCustomer(st, id).value;
            var after := ViewLoansByCustomer(st', id).value;
            if resp.loanApproved && id == req.customerId then
              |after| == |before| + 1 && after[..|before|] == before
              && after[|before|].loanAmount == req.loanAmount
              && after[|before|].repaymentsLeft == req.tenure
            else after == before
  {
    var (st', resp) := CreateLoan(st, req, amortize).value;
    if resp.loanApproved {
      var l := st'.loans[|st.loans|];
      assert st' == RecordLoan(st, l);
      ListingAfterRecordLoan(st, l, id);
    }
  }

  /**
   * An approved creation never raises the borrower's credit score, and leaves every other
   * customer's score unchanged.
   */
  lemma CreateLoanNeverRaisesScore(st: Store, req: LoanRequest, amortize: Amortizer, id: CustomerId)
    requires CreateLoan(st, req, amortize).Ok?
    requires id in st.customers
    ensures var st' := CreateLoan(st, req, amortize).value.0;
            var c := st.customers[id];
            var c' := st'.customers[id];
            if id == req.customerId then CreditScore(id, c', st'.loans) <= CreditScore(id, c, st.loans)
            else CreditScore(id, c', st'.loans) == CreditScore(id, c, st.loans)
  {
    var (st', resp) := CreateLoan(st, req, amortize).value;
    if resp.loanApproved {
      var l := st'.loans[|st.loans|];
      assert st'.loans == st.loans + [l];
      if id == req.customerId {
        ScoreAfterNewLoan(id, st.customers[id], st'.customers[id], st.loans, l);
      } else {
        ScoreIgnoresOtherLoans(id, st.customers[id], st.loans, l);
      }
    }
  }

  /** In a consistent store, the over-exposure veto needs a debt above the approved limit. */
  lemma VetoNeedsDebtAboveLimit(st: Store, id: CustomerId)
    requires Valid(st)
    requires id in st.customers
    requires OverExposed(st.customers[id], LoansOf(st.loans, id))
    ensures st.customers[id].currentDebt > st.customers[id].approvedLimit
  {
    ActiveExposureWithinDebt(st, id);
  }

  /** A newly registered customer has no loans yet and so scores the bootstrap 80. */
  lemma NewCustomerScoresBootstrap(st: Store, req: RegisterRequest)
    requires Valid(st)
    ensures var (st', resp) := RegisterCustomer(st, req);
            CreditScore(resp.customerId, st'.customers[resp.customerId], st'.loans) == NewCustomerScore
  {
    var (st', resp) := RegisterCustomer(st, req);
    FilterEmpty(BelongsTo(resp.customerId), st.loans);
  }
}
