/**
  The confidence policy of the identity resolver: every squared-L2 distance a
  search reports is mapped to one of three confidence tiers, and only the
  tiers that reach the acceptance bar count as a recognition.
*/
module Scoring {

  /** Distances strictly below this bound earn full confidence. */
  const NearBound: real := 0.6
  /** Distances strictly below this bound (and not below NearBound) earn high confidence. */
  const FarBound: real := 1.0

  const FullConfidence: real := 1.0
  const HighConfidence: real := 0.95
  const LowConfidence: real := 0.5

  /** A neighbour is reported only when its confidence is at least this bar. */
  const AcceptBar: real := 0.8

  /** The three-tier step function applied to one distance. */
  function Confidence(distance: real): (c: real)
    ensures distance < NearBound ==> c == FullConfidence
    ensures NearBound <= distance < FarBound ==> c == HighConfidence
    ensures FarBound <= distance ==> c == LowConfidence
    ensures c == FullConfidence || c == HighConfidence || c == LowConfidence
    ensures Accepted(c) <==> distance < FarBound
  {
    if distance < NearBound then FullConfidence
    else if distance < FarBound then HighConfidence
    else LowConfidence
  }

  /** The filter's test: a confidence that reaches the acceptance bar. */
  predicate Accepted(c: real) {
    c >= AcceptBar
  }

  /** A larger distance never earns a larger confidence. */
  lemma ConfidenceNonIncreasing(d1: real, d2: real)
    requires d1 <= d2
    ensures Confidence(d2) <= Confidence(d1)
  {
  }

  /** The lower end of each tier is exclusive of the tier above it. */
  lemma ConfidenceAtBoundaries()
    ensures Confidence(NearBound) == HighConfidence
    ensures Confidence(FarBound) == LowConfidence
  {
  }
}
