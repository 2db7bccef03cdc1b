/**
 * The equated monthly installment. The closed-form annuity formula and its rounding to two
 * decimals are floating-point computations; they are a parameter here, one that may fail.
 * The zero-rate case and the division by a zero tenure are modelled.
 */
module Installment {
  import opened Wrappers

  /**
   * The annuity formula for a non-zero monthly rate: principal, monthly rate, months to
   * payment (including its rounding to two decimals). `None` stands for the float
   * failures of the formula: a `ZeroDivisionError` when `1 + r` rounds to 1.0, so that
   * `(1 + r) ** months - 1` is zero, and an `OverflowError` when `(1 + r) ** months`
   * leaves the float range.
   */
  type Amortizer = (real, real, nat) -> Option<real>

  /** The monthly rate as a fraction: `(annual_rate / 12) / 100`. */
  function MonthlyRate(annualRate: real): (r: real)
    ensures r * 1200.0 == annualRate
  {
    (annualRate / 12.0) / 100.0
  }

  /**
   * `calculate_emi`: with a zero rate the principal is spread evenly over the months;
   * otherwise the annuity formula applies. `None` is a raised exception: a zero tenure
   * divides by zero in both branches, and the formula itself may fail.
   */
  function Emi(principal: nat, annualRate: real, months: nat, amortize: Amortizer): (payment: Option<real>)
    ensures months == 0 ==> payment.None?
    ensures months > 0 && annualRate == 0.0 ==>
              payment.Some? && payment.value * months as real == principal as real
    ensures months > 0 && annualRate != 0.0 ==>
              payment == amortize(principal as real, MonthlyRate(annualRate), months)
  {
    if months == 0 then None
    else
      var r := MonthlyRate(annualRate);
      if r == 0.0 then Some(principal as real / months as real)
      else amortize(principal as real, r, months)
  }
}
