/**
 * The credit scorer: a fold over a customer's loan records giving a score in [0, 100],
 * with a veto to 0 for customers whose active principal exceeds their approved limit.
 */
module Scoring {
  import opened Seqs
  import opened Records

  /** The score of a customer who has never had a loan. */
  const NewCustomerScore: int := 80

  /** Number of the given loans with at least one on-time EMI. */
  function OnTimeCount(mine: seq<Loan>): nat {
    |Filter(PaidOnTime, mine)|
  }

  /** The principal of the customer's active loans exceeds the approved limit. */
  predicate OverExposed(c: Customer, mine: seq<Loan>) {
    TotalAmount(Filter(IsActive, mine)) > c.approvedLimit
  }

  /** `q` is the integer part of the percentage `100 * k / n`. */
  ghost predicate IsFloorPercent(q: int, k: nat, n: nat) {
    n > 0 && q * n <= 100 * k < q * n + n
  }

  /** Integer division gives the floor of the percentage, and at most 100 when `k <= n`. */
  lemma PercentFloor(k: nat, n: nat)
    requires 0 < n && k <= n
    ensures IsFloorPercent((100 * k) / n, k, n)
    ensures 0 <= (100 * k) / n <= 100
  {
    var q := (100 * k) / n;
    assert 100 * k == q * n + (100 * k) % n;
  }

  /** Multiplying by a positive number preserves a strict order, read backwards. */
  lemma MulCancelLt(a: int, b: int, n: nat)
    requires a * n < b * n
    ensures a < b
  {
    assert b * n - a * n == (b - a) * n;
  }

  /** The floor of a percentage is determined: any two witnesses agree. */
  lemma FloorPercentUnique(q: int, q': int, k: nat, n: nat)
    requires IsFloorPercent(q, k, n) && IsFloorPercent(q', k, n)
    ensures q == q'
  {
    assert q' * n < (q + 1) * n;
    MulCancelLt(q', q + 1, n);
    assert q * n < (q' + 1) * n;
    MulCancelLt(q, q' + 1, n);
  }

  /**
   * `calculate_credit_score`: 80 with no loans; otherwise the floor of the on-time percentage,
   * unless the active principal exceeds the approved limit, in which case 0.
   */
  function CreditScore(id: CustomerId, c: Customer, loans: seq<Loan>): (score: int)
    ensures 0 <= score <= 100
    ensures LoansOf(loans, id) == [] ==> score == NewCustomerScore
    ensures LoansOf(loans, id) != [] && OverExposed(c, LoansOf(loans, id)) ==> score == 0
    ensures LoansOf(loans, id) != [] && !OverExposed(c, LoansOf(loans, id)) ==>
              IsFloorPercent(score, OnTimeCount(LoansOf(loans, id)), |LoansOf(loans, id)|)
  {
    var mine := LoansOf(loans, id);
    var n := |mine|;
    if n == 0 then NewCustomerScore
    else
      var onTime := OnTimeCount(mine);
      PercentFloor(onTime, n);
      var ratioScore := (100 * onTime) / n;
      if OverExposed(c, mine) then 0 else ratioScore
  }

  /** Without over-exposure, the score is 100 exactly when every loan has an on-time EMI. */
  lemma PerfectScoreIffAllOnTime(id: CustomerId, c: Customer, loans: seq<Loan>)
    requires LoansOf(loans, id) != []
    requires !OverExposed(c, LoansOf(loans, id))
    ensures CreditScore(id, c, loans) == 100 <==>
              forall i :: 0 <= i < |LoansOf(loans, id)| ==> PaidOnTime(LoansOf(loans, id)[i])
  {
    var mine := LoansOf(loans, id);
    var n := |mine|;
    var k := OnTimeCount(mine);
    FilterKeepsAll(PaidOnTime, mine);
    if k == n {
      PercentFloor(k, n);
      FloorPercentUnique(CreditScore(id, c, loans), 100, k, n);
    } else {
      assert k < n;
      PercentFloor(k, n);
    }
  }

  /** The score of a customer depends only on that customer's own loans. */
  lemma ScoreIgnoresOtherLoans(id: CustomerId, c: Customer, loans: seq<Loan>, l: Loan)
    requires l.customerId != id
    ensures CreditScore(id, c, loans + [l]) == CreditScore(id, c, loans)
  {
    LoansOfSnoc(loans, l, id);
  }

  /** One more loan with the same number of on-time loans never raises the percentage. */
  lemma FloorPercentMoreLoans(q: int, q': int, k: nat, n: nat)
    requires IsFloorPercent(q, k, n) && IsFloorPercent(q', k, n + 1)
    requires q' >= 0
    ensures q' <= q
  {
    assert q' * n <= q' * (n + 1);
    assert q' * n < (q + 1) * n;
    MulCancelLt(q', q + 1, n);
  }

  /**
   * Recording a new loan without an on-time EMI for the customer never raises the score:
   * it adds to the loan count but not to the on-time count, and only adds exposure.
   */
  lemma ScoreAfterNewLoan(id: CustomerId, c: Customer, c': Customer, loans: seq<Loan>, l: Loan)
    requires c'.approvedLimit == c.approvedLimit
    requires l.customerId == id && !PaidOnTime(l)
    ensures CreditScore(id, c', loans + [l]) <= CreditScore(id, c, loans)
  {
    var mine, mine' := LoansOf(loans, id), LoansOf(loans + [l], id);
    NewLoanCounts(id, loans, l);
    var q, q' := CreditScore(id, c, loans), CreditScore(id, c', loans + [l]);
    var k, n := OnTimeCount(mine), |mine|;
    var over, over' := OverExposed(c, mine), OverExposed(c', mine');
    ScoreStepBound(q, q', k, n, over, over');
  }

  /**
   * The arithmetic behind `ScoreAfterNewLoan`, on the score's inputs alone: one more loan
   * with the same on-time count, and exposure that can only have grown.
   */
  lemma ScoreStepBound(q: int, q': int, k: nat, n: nat, over: bool, over': bool)
    requires over ==> over'
    requires n == 0 ==> q == NewCustomerScore && k == 0
    requires n > 0 && over ==> q == 0
    requires n > 0 && !over ==> IsFloorPercent(q, k, n)
    requires over' ==> q' == 0
    requires !over' ==> IsFloorPercent(q', k, n + 1)
    ensures q' <= q
  {
    if !over' && n > 0 {
      FloorPercentMoreLoans(q, q', k, n);
    }
  }

  /**
   * What recording such a loan does to the inputs of the score: the customer's history
   * gains exactly that loan, the on-time count stays, and the active exposure does not fall.
   */
  lemma NewLoanCounts(id: CustomerId, loans: seq<Loan>, l: Loan)
    requires l.customerId == id && !PaidOnTime(l)
    ensures LoansOf(loans + [l], id) == LoansOf(loans, id) + [l]
    ensures OnTimeCount(LoansOf(loans + [l], id)) == OnTimeCount(LoansOf(loans, id))
    ensures TotalAmount(Filter(IsActive, LoansOf(loans + [l], id))) >= TotalAmount(Filter(IsActive, LoansOf(loans, id)))
  {
    var mine := LoansOf(loans, id);
    LoansOfSnoc(loans, l, id);
    FilterSnoc(PaidOnTime, mine, l);
    FilterSnoc(IsActive, mine, l);
    if IsActive(l) {
      TotalAmountConcat(Filter(IsActive, mine), [l]);
    }
  }

  /** Example loans: one of customer 0 paid on time, one of customer 1, one of customer 0 not yet paid. */
  const ExampleOnTime: Loan := Loan(1, 0, 100000, 12, 10.0, 8800.0, 3, true)
  const ExampleOtherCustomer: Loan := Loan(2, 1, 500000, 12, 14.0, 44900.0, 0, true)
  const ExampleNotYetPaid: Loan := Loan(3, 0, 300000, 36, 16.0, 10500.0, 0, true)

  /**
   * Concrete scores: no loans gives 80; one of two loans on time gives 50 (a loan of
   * another customer is ignored); the same loans over a limit they exceed give 0.
   */
  lemma ScoreExamples(c: Customer)
    ensures CreditScore(0, c, []) == 80
    ensures c.approvedLimit >= 400000 ==>
              CreditScore(0, c, [ExampleOnTime, ExampleOtherCustomer, ExampleNotYetPaid]) == 50
    ensures c.approvedLimit < 400000 ==>
              CreditScore(0, c, [ExampleOnTime, ExampleOtherCustomer, ExampleNotYetPaid]) == 0
  {
    var a, other, x := ExampleOnTime, ExampleOtherCustomer, ExampleNotYetPaid;
    LoansOfSnoc([a, other], x, 0);
    assert [a, other] + [x] == [a, other, x];
    LoansOfSnoc([a], other, 0);
    assert [a] + [other] == [a, other];
    LoansOfSnoc([], a, 0);
    assert [] + [a] == [a];
    var mine := LoansOf([a, other, x], 0);
    assert mine == [a, x];
    FilterSnoc(PaidOnTime, [a], x);
    FilterSnoc(PaidOnTime, [], a);
    assert Filter(PaidOnTime, mine) == [a];
    FilterSnoc(IsActive, [a], x);
    FilterSnoc(IsActive, [], a);
    assert Filter(IsActive, mine) == [a, x];
    assert TotalAmount([a, x]) == 400000;
  }
}
