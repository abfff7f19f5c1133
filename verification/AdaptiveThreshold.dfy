/** The adaptive part of flow control, with ratios as reals: the target the receive rate asks for and
    the smoothed ratio that follows it. */
module AdaptiveThreshold {
  import opened Base

  datatype Config = Config(recvDepth: uint32, lazyThreshold: real, adaptive: bool, minThreshold: real,
                           maxThreshold: real, windowSize: uint32, highRate: uint32, lowRate: uint32)

  /** Negative ratios have no unsigned threshold. */
  ghost predicate NonNegative(c: Config) {
    0.0 <= c.minThreshold && 0.0 <= c.maxThreshold
  }

  /** The ends of the interval, whichever way round they are configured. */
  function Low(c: Config): real { Min(c.minThreshold, c.maxThreshold) }
  function High(c: Config): real { Max(c.minThreshold, c.maxThreshold) }

  function Min(a: real, b: real): real { if a < b then a else b }
  function Max(a: real, b: real): real { if a < b then b else a }

  /** What AdjustThreshold aims for: the ends outside the rate interval, a straight line inside. */
  function Target(c: Config, rate: uint32): real {
    if rate >= c.highRate then c.maxThreshold
    else if rate <= c.lowRate then c.minThreshold
    else c.minThreshold + Times(Slope(c, rate), c.maxThreshold - c.minThreshold)
  }

  /** A product, named so that proofs can take it as it is. */
  function Times(x: real, y: real): real {
    x * y
  }

  function Slope(c: Config, rate: uint32): real
    requires c.lowRate < rate < c.highRate
  {
    (rate - c.lowRate) as real / (c.highRate - c.lowRate) as real
  }

  function Blend(ratio: real, target: real): real {
    0.8 * ratio + 0.2 * target
  }

  /** The conversion to an unsigned number cuts off the fraction. */
  function Threshold(c: Config, ratio: real): (t: nat)
    requires ratio >= 0.0
  {
    (c.recvDepth as real * ratio).Floor
  }

  lemma SlopeIsFraction(c: Config, rate: uint32)
    requires c.lowRate < rate < c.highRate
    ensures 0.0 < Slope(c, rate) < 1.0
  {
    var x, y := (rate - c.lowRate) as real, (c.highRate - c.lowRate) as real;
    assert 0.0 < x < y;
    FractionBounds(x, y);
    assert Slope(c, rate) == x / y;
  }

  lemma FractionBounds(x: real, y: real)
    requires 0.0 < x < y
    ensures 0.0 < x / y < 1.0
  {
    QuotientBounds(x / y, x, y);
  }

  lemma QuotientBounds(q: real, x: real, y: real)
    requires 0.0 < x < y && q * y == x
    ensures 0.0 < q < 1.0
  {
    assert q >= 1.0 ==> q * y >= y;
    assert q <= 0.0 ==> q * y <= 0.0;
  }

  lemma ScaledBounds(q: real, d: real)
    requires 0.0 <= q <= 1.0
    ensures if d >= 0.0 then 0.0 <= Times(q, d) <= d else d <= Times(q, d) <= 0.0
  {
    if d < 0.0 {
      assert q * -d == -(q * d);
    }
  }

  /** The target never leaves the configured interval. */
  lemma TargetInRange(c: Config, rate: uint32)
    ensures Low(c) <= Target(c, rate) <= High(c)
  {
    if c.lowRate < rate < c.highRate {
      var q, d := Slope(c, rate), c.maxThreshold - c.minThreshold;
      SlopeIsFraction(c, rate);
      ScaledBounds(q, d);
      assert Target(c, rate) == c.minThreshold + Times(q, d);
    }
  }

  /** A higher rate never asks for a lower ratio. */
  lemma TargetIsMonotone(c: Config, r1: uint32, r2: uint32)
    requires c.minThreshold <= c.maxThreshold && r1 <= r2 && c.lowRate <= c.highRate
    ensures Target(c, r1) <= Target(c, r2)
  {
    TargetInRange(c, r1);
    TargetInRange(c, r2);
    if c.lowRate < r1 && r2 < c.highRate {
      var p, q, d := Slope(c, r1), Slope(c, r2), c.maxThreshold - c.minThreshold;
      SlopeIsMonotone((r1 - c.lowRate) as real, (r2 - c.lowRate) as real, (c.highRate - c.lowRate) as real);
      ScaleIsMonotone(p, q, d);
      assert Target(c, r1) == c.minThreshold + Times(p, d) && Target(c, r2) == c.minThreshold + Times(q, d);
    }
  }

  /** Inside the rate interval the target divides the configured interval as the rate divides the rate
      interval, and at and beyond the ends it is the configured end. */
  lemma TargetIsTheLine(c: Config, rate: uint32)
    ensures c.lowRate < rate < c.highRate ==>
              (Target(c, rate) - c.minThreshold) * (c.highRate - c.lowRate) as real
              == (rate - c.lowRate) as real * (c.maxThreshold - c.minThreshold)
    ensures rate >= c.highRate ==> Target(c, rate) == c.maxThreshold
    ensures rate <= c.lowRate && rate < c.highRate ==> Target(c, rate) == c.minThreshold
  {
    if c.lowRate < rate < c.highRate {
      var x, y, d := (rate - c.lowRate) as real, (c.highRate - c.lowRate) as real, c.maxThreshold - c.minThreshold;
      assert Target(c, rate) == c.minThreshold + Times(x / y, d);
      Proportion(x, y, d);
    }
  }

  lemma Proportion(x: real, y: real, d: real)
    requires y > 0.0
    ensures Times(x / y, d) * y == x * d
  {
    var q := x / y;
    assert q * y == x;
    assert (q * d) * y == (q * y) * d;
  }

  lemma SlopeIsMonotone(a: real, b: real, y: real)
    requires a <= b && 0.0 < y
    ensures a / y <= b / y
  {
    var p, q := a / y, b / y;
    assert p * y == a && q * y == b;
    assert p > q ==> p * y > q * y;
  }

  lemma ScaleIsMonotone(p: real, q: real, d: real)
    requires p <= q && 0.0 <= d
    ensures Times(p, d) <= Times(q, d)
  {
  }

  lemma BlendIsNonNegative(c: Config, ratio: real, rate: uint32)
    requires NonNegative(c) && 0.0 <= ratio
    ensures 0.0 <= Blend(ratio, Target(c, rate))
  {
    TargetInRange(c, rate);
  }

  /** The ratio after a sequence of rate samples. */
  function RatioAfter(c: Config, ratio: real, rates: seq<uint32>): real {
    if rates == [] then ratio
    else Blend(RatioAfter(c, ratio, rates[..|rates| - 1]), Target(c, rates[|rates| - 1]))
  }

  /** Whatever the samples, the ratio stays between the configured ends and where it started. */
  lemma {:induction false} RatioStaysInHull(c: Config, ratio: real, rates: seq<uint32>)
    ensures Min(Low(c), ratio) <= RatioAfter(c, ratio, rates) <= Max(High(c), ratio)
  {
    if rates != [] {
      RatioStaysInHull(c, ratio, rates[..|rates| - 1]);
      TargetInRange(c, rates[|rates| - 1]);
    }
  }

  /** The threshold is the share of the depth the ratio stands for, but for less than one. */
  lemma ThresholdIsTheShare(c: Config, ratio: real)
    requires 0.0 <= ratio
    ensures Threshold(c, ratio) as real <= c.recvDepth as real * ratio < Threshold(c, ratio) as real + 1.0
  {
  }

  /** The lazy threshold is within the depth exactly when the ratio's share of it is less than one
      more than the depth; so ratios of at most 1 are safe after any samples. */
  lemma ThresholdWithinDepthIff(c: Config, ratio: real)
    requires ratio >= 0.0
    ensures Threshold(c, ratio) <= c.recvDepth <==> c.recvDepth as real * ratio < c.recvDepth as real + 1.0
  {
  }

  lemma SafeRatio(c: Config, ratio: real)
    requires 0.0 <= ratio <= 1.0
    ensures Threshold(c, ratio) <= c.recvDepth
  {
    var d := c.recvDepth as real;
    var x := d * ratio;
    FractionOf(d, ratio);
    FloorIsMonotone(x, d);
    assert Threshold(c, ratio) == x.Floor;
  }

  lemma FractionOf(d: real, q: real)
    requires 0.0 <= d && 0.0 <= q <= 1.0
    ensures 0.0 <= d * q <= d
  {
    ScaledBounds(q, d);
    Commute(q, d);
  }

  lemma FloorIsMonotone(x: real, y: real)
    requires x <= y
    ensures x.Floor <= y.Floor
  {
  }

  lemma ThresholdStaysWithinDepth(c: Config, ratio: real, rates: seq<uint32>)
    requires 0.0 <= Low(c) <= High(c) <= 1.0 && 0.0 <= ratio <= 1.0
    ensures 0.0 <= RatioAfter(c, ratio, rates) <= 1.0
    ensures Threshold(c, RatioAfter(c, ratio, rates)) <= c.recvDepth
  {
    RatioStaysInHull(c, ratio, rates);
    SafeRatio(c, RatioAfter(c, ratio, rates));
  }

  lemma Commute(x: real, y: real)
    ensures x * y == y * x
  {
  }

  function Power(x: real, n: nat): real {
    if n == 0 then 1.0 else x * Power(x, n - 1)
  }

  function Distance(a: real, b: real): real { if a < b then b - a else a - b }

  /** Under a constant rate what is left of the distance to the target after n samples is 0.8^n. */
  lemma {:induction false} ConstantRateConverges(c: Config, ratio: real, rates: seq<uint32>, rate: uint32)
    requires forall i :: 0 <= i < |rates| ==> rates[i] == rate
    ensures Distance(RatioAfter(c, ratio, rates), Target(c, rate))
            == Power(0.8, |rates|) * Distance(ratio, Target(c, rate))
  {
    if rates != [] {
      var before := rates[..|rates| - 1];
      ConstantRateConverges(c, ratio, before, rate);
      var d := Distance(RatioAfter(c, ratio, before), Target(c, rate));
      assert Distance(RatioAfter(c, ratio, rates), Target(c, rate)) == 0.8 * d;
      Associate(0.8, Power(0.8, |before|), Distance(ratio, Target(c, rate)));
    }
  }

  lemma Associate(x: real, y: real, z: real)
    ensures x * (y * z) == (x * y) * z
  {
  }

  // ----- the rate window -----

  /** Messages per second, computed in 32 bits. */
  function Rate(received: uint32, elapsedMs: nat): uint32
    requires elapsedMs > 0
  {
    Quotient(received * 1000 % TWO32, elapsedMs) % TWO32
  }

  /** A rate is messages times 1000, in 32 bits, over the milliseconds that have passed; below 4294968
      messages nothing wraps. */
  lemma RateIsMessagesPerSecond(received: uint32, elapsedMs: nat)
    requires elapsedMs > 0
    ensures Rate(received, elapsedMs) == received * 1000 % 0x1_0000_0000 / elapsedMs
    ensures received < 4294968 ==> Rate(received, elapsedMs) == received * 1000 / elapsedMs
  {
    QuotientIsDivision(received * 1000 % TWO32, elapsedMs);
    QuotientIsSmaller(received * 1000 % TWO32, elapsedMs);
    if received < 4294968 {
      Digits(0, received * 1000, TWO32);
    }
  }

  lemma {:induction false} QuotientIsSmaller(x: nat, d: nat)
    requires d > 0
    ensures Quotient(x, d) <= x
  {
    if x >= d {
      QuotientIsSmaller(x - d, d);
    }
  }

  /** Completions handled since the last sample, and the messages they brought. */
  datatype Window = Window(samples: uint32, received: uint32)

  /** One more completion: in adaptive mode a full window gives a rate sample, if time has passed, and starts
      again. */
  function Feed(c: Config, w: Window, count: uint32, elapsedMs: nat): (Window, seq<uint32>) {
    var w' := Window((w.samples + 1) % TWO32, (w.received + count) % TWO32);
    if !c.adaptive then (w, [])
    else if w'.samples < c.windowSize then (w', [])
    else (Window(0, 0), if elapsedMs > 0 then [Rate(w'.received, elapsedMs)] else [])
  }

  function Sum(counts: seq<uint32>): nat {
    if counts == [] then 0 else Sum(counts[..|counts| - 1]) + counts[|counts| - 1]
  }

  /** Completions one after the other, with the time since the last sample at each. */
  function FeedAll(c: Config, w: Window, counts: seq<uint32>, elapsedMs: seq<nat>): (Window, seq<uint32>)
    requires |elapsedMs| == |counts|
  {
    if counts == [] then (w, [])
    else
      var k := |counts| - 1;
      var (w1, rates) := FeedAll(c, w, counts[..k], elapsedMs[..k]);
      var (w2, more) := Feed(c, w1, counts[k], elapsedMs[k]);
      (w2, rates + more)
  }

  lemma FedAfter(c: Config, w: Window, counts: seq<uint32>, elapsedMs: seq<nat>)
    requires |elapsedMs| == |counts| && counts != []
    ensures var k := |counts| - 1; var before := FeedAll(c, w, counts[..k], elapsedMs[..k]);
            before.1 == [] ==> FeedAll(c, w, counts, elapsedMs) == Feed(c, before.0, counts[k], elapsedMs[k])
  {
    var k := |counts| - 1;
    var before := FeedAll(c, w, counts[..k], elapsedMs[..k]);
    var last := Feed(c, before.0, counts[k], elapsedMs[k]);
    assert [] + last.1 == last.1;
  }

  lemma FeedStaysBelow(c: Config, w: Window, count: uint32, elapsedMs: nat)
    requires c.adaptive && w.samples + 1 < c.windowSize && w.received + count < TWO32
    ensures Feed(c, w, count, elapsedMs) == (Window(w.samples + 1, w.received + count), [])
  {
  }

  lemma FeedFills(c: Config, w: Window, count: uint32, elapsedMs: nat)
    requires c.adaptive && w.samples + 1 == c.windowSize && w.received + count < TWO32 && elapsedMs > 0
    ensures Feed(c, w, count, elapsedMs) == (Window(0, 0), [Rate(w.received + count, elapsedMs)])
  {
  }

  /** Without adaptive mode nothing is counted; a window that fills in no time starts again without a sample. */
  lemma NoSampleWithoutTime(c: Config, w: Window, count: uint32, elapsedMs: nat)
    ensures !c.adaptive ==> Feed(c, w, count, elapsedMs) == (w, [])
    ensures c.adaptive && w.samples + 1 == c.windowSize ==> Feed(c, w, count, 0) == (Window(0, 0), [])
  {
  }

  lemma {:induction false} PartWindowGivesNone(c: Config, counts: seq<uint32>, elapsedMs: seq<nat>)
    requires c.adaptive && |elapsedMs| == |counts| && (counts == [] || |counts| < c.windowSize) && Sum(counts) < TWO32
    ensures FeedAll(c, Window(0, 0), counts, elapsedMs) == (Window(|counts|, Sum(counts)), [])
  {
    if counts != [] {
      var k := |counts| - 1;
      PartWindowGivesNone(c, counts[..k], elapsedMs[..k]);
      FedAfter(c, Window(0, 0), counts, elapsedMs);
      FeedStaysBelow(c, Window(k, Sum(counts[..k])), counts[k], elapsedMs[k]);
    }
  }

  /** From an empty window, fewer than windowSize completions give no sample; windowSize of them give exactly
      one, of all their messages over the time at the last one, and leave the window empty. */
  lemma FullWindowGivesOneSample(c: Config, counts: seq<uint32>, elapsedMs: seq<nat>)
    requires c.adaptive && |elapsedMs| == |counts| == c.windowSize > 0 && Sum(counts) < TWO32
    requires elapsedMs[|counts| - 1] > 0
    ensures FeedAll(c, Window(0, 0), counts, elapsedMs)
            == (Window(0, 0), [Rate(Sum(counts), elapsedMs[|counts| - 1])])
    ensures forall k :: 0 <= k < |counts| ==> FeedAll(c, Window(0, 0), counts[..k], elapsedMs[..k]).1 == []
  {
    var k := |counts| - 1;
    PartWindowGivesNone(c, counts[..k], elapsedMs[..k]);
    FedAfter(c, Window(0, 0), counts, elapsedMs);
    FeedFills(c, Window(k, Sum(counts[..k])), counts[k], elapsedMs[k]);
    forall i | 0 <= i < |counts|
      ensures FeedAll(c, Window(0, 0), counts[..i], elapsedMs[..i]).1 == []
    {
      SumGrows(counts, i);
      PartWindowGivesNone(c, counts[..i], elapsedMs[..i]);
    }
  }

  lemma {:induction false} SumGrows(counts: seq<uint32>, i: nat)
    requires i <= |counts|
    ensures Sum(counts[..i]) <= Sum(counts)
    decreases |counts| - i
  {
    if i < |counts| {
      assert counts[..i + 1][..i] == counts[..i];
      SumGrows(counts, i + 1);
    } else {
      assert counts[..i] == counts;
    }
  }
}
