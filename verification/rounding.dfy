/**
 * Rounding of the registration limit to a whole number of lakhs (units of 100000),
 * with Python's `round`: exact halves go to the even multiple.
 */
module Rounding {

  const Lakh: int := 100000
  const HalfLakh: int := 50000

  function Abs(x: int): nat {
    if x < 0 then -x else x
  }

  /**
   * The reference meaning of the rounding: `r` is a multiple of a lakh at most half a lakh
   * from `amount`, and at exactly half a lakh it is the even multiple.
   */
  ghost predicate IsNearestLakh(amount: int, r: int) {
    && r % Lakh == 0
    && Abs(r - amount) <= HalfLakh
    && (Abs(r - amount) == HalfLakh ==> (r / Lakh) % 2 == 0)
  }

  /** `round(amount / 100000) * 100000` on exact arithmetic, ties to even. */
  function RoundToNearestLakh(amount: int): (r: int)
    ensures IsNearestLakh(amount, r)
    ensures amount >= 0 ==> r >= 0
  {
    var q := amount / Lakh;
    var rem := amount % Lakh;
    var k :=
      if rem < HalfLakh then q
      else if rem > HalfLakh then q + 1
      else if q % 2 == 0 then q
      else q + 1;
    assert amount == q * Lakh + rem;
    assert (k * Lakh) / Lakh == k;
    k * Lakh
  }

  /** Two multiples of a lakh are equal, or at least a lakh apart. */
  lemma MultiplesApart(a: int, b: int)
    requires a % Lakh == 0 && b % Lakh == 0
    ensures a == b || Abs(a - b) >= Lakh
    ensures Abs(a - b) == Lakh ==> (a / Lakh) % 2 != (b / Lakh) % 2
  {
    var qa, qb := a / Lakh, b / Lakh;
    assert a == qa * Lakh && b == qb * Lakh;
    assert a - b == (qa - qb) * Lakh;
    if qa - qb >= 1 {
      assert (qa - qb) * Lakh >= Lakh;
    } else if qa - qb <= -1 {
      assert (qb - qa) * Lakh >= Lakh;
    }
  }

  /** The reference meaning has exactly one witness, so it pins the rounding down. */
  lemma NearestLakhUnique(amount: int, r: int)
    requires IsNearestLakh(amount, r)
    ensures r == RoundToNearestLakh(amount)
  {
    var s := RoundToNearestLakh(amount);
    MultiplesApart(r, s);
  }

  /** Rounding leaves a whole number of lakhs unchanged. */
  lemma RoundIdempotent(amount: int)
    ensures RoundToNearestLakh(RoundToNearestLakh(amount)) == RoundToNearestLakh(amount)
  {
    var r := RoundToNearestLakh(amount);
    NearestLakhUnique(r, r);
  }

  /** A larger amount never rounds to a smaller limit. */
  lemma RoundMonotone(a: int, b: int)
    requires a <= b
    ensures RoundToNearestLakh(a) <= RoundToNearestLakh(b)
  {
    var ra, rb := RoundToNearestLakh(a), RoundToNearestLakh(b);
    if ra > rb {
      MultiplesApart(ra, rb);
    }
  }

  /** 36 x 100000 is already whole; 36 x 102778 = 3700008 rounds down; a half rounds to even. */
  lemma RoundingExamples()
    ensures RoundToNearestLakh(36 * 100000) == 3600000
    ensures RoundToNearestLakh(36 * 102778) == 3700000
    ensures RoundToNearestLakh(150000) == 200000
    ensures RoundToNearestLakh(250000) == 200000
  {
  }
}
