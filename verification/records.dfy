/**
 * The two persistent entities of the lending service, the store that holds them,
 * and the query helpers the handlers use in place of ORM look-ups.
 */
module Records {
  import opened Seqs

  type CustomerId = nat
  type LoanId = nat

  /** A registered borrower. `approvedLimit` is fixed at registration; `currentDebt` only grows here. */
  datatype Customer = Customer(
    firstName: string,
    lastName: string,
    age: nat,
    phoneNumber: nat,
    monthlySalary: nat,
    approvedLimit: nat,
    currentDebt: nat)

  /** A loan record; `emisPaidOnTime` and `isActive` are maintained by servicing outside this core. */
  datatype Loan = Loan(
    loanId: LoanId,
    customerId: CustomerId,
    loanAmount: nat,
    tenure: nat,
    interestRate: real,
    monthlyPayment: real,
    emisPaidOnTime: nat,
    isActive: bool)

  /**
   * The data store: customers by id and the loan table in insertion order.
   * The two counters stand for the database's auto-increment keys.
   */
  datatype Store = Store(
    customers: map<CustomerId, Customer>,
    loans: seq<Loan>,
    nextCustomerId: CustomerId,
    nextLoanId: LoanId)

  /** The store before anything is registered. */
  function EmptyStore(): Store {
    Store(map[], [], 0, 0)
  }

  function BelongsTo(id: CustomerId): Loan -> bool {
    (l: Loan) => l.customerId == id
  }

  predicate IsActive(l: Loan) {
    l.isActive
  }

  /** At least one EMI of the loan was paid on time. */
  predicate PaidOnTime(l: Loan) {
    l.emisPaidOnTime >= 1
  }

  /** All loans of a customer, in stored order. */
  function LoansOf(loans: seq<Loan>, id: CustomerId): seq<Loan> {
    Filter(BelongsTo(id), loans)
  }

  /** The active loans of a customer, in stored order. */
  function ActiveLoansOf(loans: seq<Loan>, id: CustomerId): seq<Loan> {
    Filter(IsActive, LoansOf(loans, id))
  }

  /** Sum of principals; every loan's principal is part of it. */
  function TotalAmount(ls: seq<Loan>): (total: nat)
    ensures forall i :: 0 <= i < |ls| ==> ls[i].loanAmount <= total
    ensures total == 0 <==> forall i :: 0 <= i < |ls| ==> ls[i].loanAmount == 0
  {
    if |ls| == 0 then 0
    else TotalAmount(ls[..|ls| - 1]) + ls[|ls| - 1].loanAmount
  }

  /** Sum of monthly installments; non-negative when every installment is. */
  function TotalPayment(ls: seq<Loan>): (total: real)
    ensures (forall i :: 0 <= i < |ls| ==> ls[i].monthlyPayment >= 0.0) ==> total >= 0.0
  {
    if |ls| == 0 then 0.0
    else TotalPayment(ls[..|ls| - 1]) + ls[|ls| - 1].monthlyPayment
  }

  /** The sum of principals is additive over concatenation. */
  lemma {:induction false} TotalAmountConcat(a: seq<Loan>, b: seq<Loan>)
    ensures TotalAmount(a + b) == TotalAmount(a) + TotalAmount(b)
    decreases |b|
  {
    if |b| == 0 {
      assert a + b == a;
    } else {
      var b' := b[..|b| - 1];
      assert b == b' + [b[|b| - 1]];
      assert a + b == (a + b') + [b[|b| - 1]];
      assert (a + b)[..|a + b| - 1] == a + b';
      TotalAmountConcat(a, b');
    }
  }

  /** The sum of installments is additive over concatenation. */
  lemma {:induction false} TotalPaymentConcat(a: seq<Loan>, b: seq<Loan>)
    ensures TotalPayment(a + b) == TotalPayment(a) + TotalPayment(b)
    decreases |b|
  {
    if |b| == 0 {
      assert a + b == a;
    } else {
      var b' := b[..|b| - 1];
      assert b == b' + [b[|b| - 1]];
      assert a + b == (a + b') + [b[|b| - 1]];
      assert (a + b)[..|a + b| - 1] == a + b';
      TotalPaymentConcat(a, b');
    }
  }

  /** Keeping only some loans never increases the sum of principals. */
  lemma {:induction false} TotalAmountOfFilter(p: Loan -> bool, ls: seq<Loan>)
    ensures TotalAmount(Filter(p, ls)) <= TotalAmount(ls)
    decreases |ls|
  {
    if |ls| > 0 {
      var init := ls[..|ls| - 1];
      var x := ls[|ls| - 1];
      assert ls == init + [x];
      FilterSnoc(p, init, x);
      TotalAmountOfFilter(p, init);
      if p(x) {
        TotalAmountConcat(Filter(p, init), [x]);
      }
    }
  }

  /** Appending a loan leaves every other customer's loan list as it was. */
  lemma LoansOfSnoc(loans: seq<Loan>, l: Loan, id: CustomerId)
    ensures LoansOf(loans + [l], id) == LoansOf(loans, id) + (if l.customerId == id then [l] else [])
  {
    FilterSnoc(BelongsTo(id), loans, l);
  }

  /** Every registered customer id was issued by the counter. */
  ghost predicate CustomerIdsIssued(st: Store) {
    forall id :: id in st.customers ==> id < st.nextCustomerId
  }

  /** Every loan belongs to a registered customer and carries an issued id. */
  ghost predicate LoansOwned(st: Store) {
    forall i :: 0 <= i < |st.loans| ==>
      st.loans[i].customerId in st.customers && st.loans[i].loanId < st.nextLoanId
  }

  /** Loan ids ascend in stored order, so they are unique. */
  ghost predicate LoanIdsAscending(st: Store) {
    forall i, j :: 0 <= i < j < |st.loans| ==> st.loans[i].loanId < st.loans[j].loanId
  }

  /** Each customer's `currentDebt` is the sum of the principals of that customer's loans. */
  ghost predicate DebtTracksLoans(st: Store) {
    forall id :: id in st.customers ==> st.customers[id].currentDebt == TotalAmount(LoansOf(st.loans, id))
  }

  /** Consistency of a store reachable through the handlers. */
  ghost predicate Valid(st: Store) {
    && CustomerIdsIssued(st)
    && LoansOwned(st)
    && LoanIdsAscending(st)
    && DebtTracksLoans(st)
  }

  /** The empty store is consistent. */
  lemma EmptyStoreValid()
    ensures Valid(EmptyStore())
  {
  }

  /** In a consistent store a customer's active principal never exceeds the recorded debt. */
  lemma ActiveExposureWithinDebt(st: Store, id: CustomerId)
    requires Valid(st)
    requires id in st.customers
    ensures TotalAmount(ActiveLoansOf(st.loans, id)) <= st.customers[id].currentDebt
  {
    TotalAmountOfFilter(IsActive, LoansOf(st.loans, id));
  }
}
