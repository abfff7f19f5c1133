/** Flow control as a whole: two ends that exchange credits, each with a threshold that follows its own
    receive rate. */
module CreditLiveness {
  import opened Base
  import opened CreditProtocol
  import R = AdaptiveThreshold

  /** The largest threshold an end with this configuration can come to. */
  function Ceiling(c: R.Config): nat
    requires R.NonNegative(c)
  {
    R.Threshold(c, R.Max(R.High(c), c.lazyThreshold))
  }

  /** The threshold an end starts with, and those it comes to by rate samples. */
  function ThresholdAfter(c: R.Config, rates: seq<uint32>): nat
    requires R.NonNegative(c) && 0.0 <= c.lazyThreshold
  {
    R.RatioStaysInHull(c, c.lazyThreshold, rates);
    R.Threshold(c, R.RatioAfter(c, c.lazyThreshold, rates))
  }

  lemma ThresholdIsMonotone(c: R.Config, p: real, q: real)
    requires 0.0 <= p <= q
    ensures R.Threshold(c, p) <= R.Threshold(c, q)
  {
    var d := c.recvDepth as real;
    R.ScaleIsMonotone(p, q, d);
    R.Commute(p, d);
    R.Commute(q, d);
    R.FloorIsMonotone(d * p, d * q);
  }

  /** Whatever the samples, the threshold stays below its ceiling. */
  lemma StaysBelowCeiling(c: R.Config, rates: seq<uint32>)
    requires R.NonNegative(c) && 0.0 <= c.lazyThreshold
    ensures ThresholdAfter(c, rates) <= Ceiling(c)
  {
    R.RatioStaysInHull(c, c.lazyThreshold, rates);
    ThresholdIsMonotone(c, R.RatioAfter(c, c.lazyThreshold, rates), R.Max(R.High(c), c.lazyThreshold));
  }

  /** Every change of a threshold in the run is one the end's rate samples bring about. */
  ghost predicate Follows(evs: seq<Event>, a: R.Config, b: R.Config)
    requires R.NonNegative(a) && R.NonNegative(b) && 0.0 <= a.lazyThreshold && 0.0 <= b.lazyThreshold
  {
    forall i :: 0 <= i < |evs| && evs[i].Retune? ==> IsReached(if evs[i].side == A then a else b, evs[i].threshold)
  }

  ghost predicate IsReached(c: R.Config, threshold: nat)
    requires R.NonNegative(c) && 0.0 <= c.lazyThreshold
  {
    exists rates :: ThresholdAfter(c, rates) == threshold
  }

  /** Two ends with adaptive thresholds never deadlock, after any run and any receive rates, as long as the
      largest threshold of each is within the depth of the other. */
  lemma AdaptivePeersNeverDeadlock(a: R.Config, b: R.Config, evs: seq<Event>, side: Side)
    requires R.NonNegative(a) && R.NonNegative(b) && 0.0 <= a.lazyThreshold && 0.0 <= b.lazyThreshold
    requires 0 < a.recvDepth && 0 < b.recvDepth && Ceiling(a) <= b.recvDepth && Ceiling(b) <= a.recvDepth
    requires EnabledRun(Initial(a.recvDepth, ThresholdAfter(a, []), b.recvDepth, ThresholdAfter(b, [])), evs)
    requires Follows(evs, a, b)
    ensures exists rest :: Recovers(Run(Initial(a.recvDepth, ThresholdAfter(a, []),
                                                b.recvDepth, ThresholdAfter(b, [])), evs), side, rest)
  {
    StaysBelowCeiling(a, []);
    StaysBelowCeiling(b, []);
    forall i | 0 <= i < |evs| && evs[i].Retune?
      ensures evs[i].threshold <= if evs[i].side == A then b.recvDepth else a.recvDepth
    {
      var c := if evs[i].side == A then a else b;
      assert IsReached(c, evs[i].threshold);
      var rates :| ThresholdAfter(c, rates) == evs[i].threshold;
      StaysBelowCeiling(c, rates);
    }
    PeersNeverDeadlock(a.recvDepth, ThresholdAfter(a, []), b.recvDepth, ThresholdAfter(b, []), evs, side);
  }

  /** In particular ends of equal depth whose configured ratios are fractions. */
  lemma FractionsAreSafe(c: R.Config)
    requires 0.0 <= R.Low(c) <= R.High(c) <= 1.0 && 0.0 <= c.lazyThreshold <= 1.0
    ensures Ceiling(c) <= c.recvDepth
  {
    R.SafeRatio(c, R.Max(R.High(c), c.lazyThreshold));
  }
}
