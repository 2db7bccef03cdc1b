/**
 * The score-band policy shared by the eligibility check and loan creation: a score maps to
 * an approval flag and a corrected interest rate that is never below the requested one.
 */
module RatePolicy {
  import opened Wrappers

  const TopBandAbove: int := 50
  const MidBandAbove: int := 30
  const LowBandAbove: int := 10
  const MidBandFloor: real := 12.0
  const LowBandFloor: real := 16.0

  /** Python's `max(a, b)` on numbers. */
  function Max(a: real, b: real): real {
    if b > a then b else a
  }

  /** The policy's verdict: whether the band approves, and the rate after correction. */
  datatype Decision = Decision(approved: bool, correctedRate: real)

  /** The if/elif chain over the score, exactly as both handlers evaluate it. */
  function Decide(score: int, requestedRate: real): (d: Decision)
    ensures d.approved <==> score > LowBandAbove
    ensures d.correctedRate >= requestedRate
    ensures d.correctedRate == requestedRate || (d.approved && score <= TopBandAbove)
    ensures d.approved && score <= TopBandAbove ==> d.correctedRate >= MidBandFloor
    ensures d.approved && score <= MidBandAbove ==> d.correctedRate >= LowBandFloor
  {
    if score > TopBandAbove then Decision(true, requestedRate)
    else if MidBandAbove < score <= TopBandAbove then Decision(true, Max(requestedRate, MidBandFloor))
    else if LowBandAbove < score <= MidBandAbove then Decision(true, Max(requestedRate, LowBandFloor))
    else Decision(false, requestedRate)
  }

  /**
   * An independent reading of the same policy as an ordered table: the first tier whose
   * exclusive lower bound the score exceeds decides, with its optional floor rate;
   * a score above no tier is rejected.
   */
  datatype Tier = Tier(above: int, floor: Option<real>)

  const Tiers: seq<Tier> := [
    Tier(TopBandAbove, None),
    Tier(MidBandAbove, Some(MidBandFloor)),
    Tier(LowBandAbove, Some(LowBandFloor))
  ]

  function LookupTier(tiers: seq<Tier>, score: int, requestedRate: real): Decision {
    if |tiers| == 0 then Decision(false, requestedRate)
    else if score > tiers[0].above then
      match tiers[0].floor
      case None => Decision(true, requestedRate)
      case Some(f) => Decision(true, Max(requestedRate, f))
    else LookupTier(tiers[1..], score, requestedRate)
  }

  /** The chain and the table agree on every score and rate. */
  lemma ChainMatchesTable(score: int, requestedRate: real)
    ensures Decide(score, requestedRate) == LookupTier(Tiers, score, requestedRate)
  {
    var mid := Tiers[1..];
    var low := mid[1..];
    assert mid == [Tier(MidBandAbove, Some(MidBandFloor)), Tier(LowBandAbove, Some(LowBandFloor))];
    assert low == [Tier(LowBandAbove, Some(LowBandFloor))];
    assert LookupTier(low[1..], score, requestedRate) == Decision(false, requestedRate);
    if score <= TopBandAbove {
      assert LookupTier(Tiers, score, requestedRate) == LookupTier(mid, score, requestedRate);
      if score <= MidBandAbove {
        assert LookupTier(mid, score, requestedRate) == LookupTier(low, score, requestedRate);
      }
    }
  }

  /** Among approved scores, a higher score never asks for a higher rate, and stays approved. */
  lemma HigherScoreNoWorse(s1: int, s2: int, requestedRate: real)
    requires s1 <= s2
    ensures Decide(s1, requestedRate).approved ==> Decide(s2, requestedRate).approved
    ensures Decide(s1, requestedRate).approved ==>
              Decide(s2, requestedRate).correctedRate <= Decide(s1, requestedRate).correctedRate
  {
  }

  /** A higher requested rate never yields a lower corrected rate. */
  lemma CorrectionMonotoneInRate(score: int, r1: real, r2: real)
    requires r1 <= r2
    ensures Decide(score, r1).correctedRate <= Decide(score, r2).correctedRate
  {
  }

  /** Correcting an already corrected rate changes nothing. */
  lemma CorrectionIdempotent(score: int, requestedRate: real)
    ensures Decide(score, Decide(score, requestedRate).correctedRate) == Decide(score, requestedRate)
  {
  }

  /** The band edges: 51 keeps the rate, 50 falls in the 12.0 band, 30 in the 16.0 band, 10 is rejected. */
  lemma BandBoundaries(requestedRate: real)
    ensures Decide(51, requestedRate) == Decision(true, requestedRate)
    ensures Decide(50, requestedRate) == Decision(true, Max(requestedRate, 12.0))
    ensures Decide(31, requestedRate) == Decision(true, Max(requestedRate, 12.0))
    ensures Decide(30, requestedRate) == Decision(true, Max(requestedRate, 16.0))
    ensures Decide(11, requestedRate) == Decision(true, Max(requestedRate, 16.0))
    ensures Decide(10, requestedRate) == Decision(false, requestedRate)
  {
  }
}
