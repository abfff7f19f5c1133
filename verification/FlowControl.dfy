/** One end of a connection: the credit counters and the rate window, in place.  Reading the clock
    becomes a parameter, the milliseconds since the last sample. */
module FlowControl {
  import opened Base
  import C = CreditProtocol
  import A = AdaptiveThreshold

  class FlowControl {
    var config: A.Config
    var lazyThreshold: nat
    var currentRatio: real
    var sendCredits: uint32
    var pendingCredits: uint32
    var windowRecvCount: uint32
    var windowSampleCount: uint32
    var estimatedRate: uint32

    ghost predicate Valid()
      reads `config, `currentRatio, `lazyThreshold
    {
      && A.NonNegative(config) && 0.0 <= currentRatio
      && lazyThreshold == A.Threshold(config, currentRatio)
    }

    /** This end as the credit protocol sees it. */
    ghost function AsPeer(): C.Peer
      reads `sendCredits, `pendingCredits, `lazyThreshold
    {
      C.Peer(sendCredits, pendingCredits, lazyThreshold)
    }

    constructor (config: A.Config)
      requires A.NonNegative(config) && 0.0 <= config.lazyThreshold
      ensures Valid() && this.config == config && currentRatio == config.lazyThreshold
      ensures AsPeer() == C.Peer(config.recvDepth, 0, A.Threshold(config, config.lazyThreshold))
      ensures windowRecvCount == windowSampleCount == estimatedRate == 0
    {
      this.config := config;
      lazyThreshold, currentRatio := A.Threshold(config, config.lazyThreshold), config.lazyThreshold;
      sendCredits, pendingCredits := config.recvDepth, 0;
      windowRecvCount, windowSampleCount, estimatedRate := 0, 0, 0;
    }

    method TryConsume(count: uint32) returns (ok: bool)
      requires Valid()
      modifies `sendCredits
      ensures Valid() && (ok <==> count <= old(sendCredits))
      ensures sendCredits == old(sendCredits) - if ok then count else 0
      ensures AsPeer() == if ok then C.Consume(old(AsPeer()), count) else old(AsPeer())
    {
      if sendCredits < count {
        return false;
      }
      sendCredits := sendCredits - count;
      ok := true;
    }

    /** The rate window as a value. */
    ghost function AsWindow(): A.Window
      reads `windowSampleCount, `windowRecvCount
    {
      A.Window(windowSampleCount, windowRecvCount)
    }

    /** What one more completion does to the window, and the rate sample it gives, if any. */
    ghost function Fed(count: uint32, elapsedMs: nat): (A.Window, seq<uint32>)
      reads `config, `windowSampleCount, `windowRecvCount
    {
      A.Feed(config, AsWindow(), count, elapsedMs)
    }

    /** What a sample, if there is one, leaves of the ratio, the threshold and the estimate. */
    ghost predicate Sampled(rates: seq<uint32>, ratio: real, threshold: nat, rate: uint32)
      reads `config, `currentRatio, `lazyThreshold, `estimatedRate
    {
      && currentRatio == A.RatioAfter(config, ratio, rates)
      && (rates == [] ==> lazyThreshold == threshold)
      && estimatedRate == if rates == [] then rate else rates[0]
    }

    /** Counts what has been received as credits to return, and in adaptive mode as a rate sample. */
    method OnRecvCompleted(count: uint32, elapsedMs: nat)
      requires Valid()
      modifies this
      ensures Valid() && config == old(config)
      ensures pendingCredits == (old(pendingCredits) + count) % TWO32 && sendCredits == old(sendCredits)
      ensures AsPeer() == C.Take(old(AsPeer()), C.Message(count, 0)).(threshold := lazyThreshold)
      ensures AsWindow() == old(Fed(count, elapsedMs)).0
      ensures Sampled(old(Fed(count, elapsedMs)).1, old(currentRatio), old(lazyThreshold), old(estimatedRate))
    {
      pendingCredits := (pendingCredits + count) % TWO32;
      if config.adaptive {
        UpdateRateStatistics(count, elapsedMs);
      } else {
        assert Fed(count, elapsedMs) == (AsWindow(), []);
      }
    }

    method UpdateRateStatistics(count: uint32, elapsedMs: nat)
      requires Valid() && config.adaptive
      modifies `windowRecvCount, `windowSampleCount, `estimatedRate, `currentRatio, `lazyThreshold
      ensures Valid()
      ensures AsWindow() == old(Fed(count, elapsedMs)).0
      ensures Sampled(old(Fed(count, elapsedMs)).1, old(currentRatio), old(lazyThreshold), old(estimatedRate))
    {
      windowRecvCount := (windowRecvCount + count) % TWO32;
      windowSampleCount := (windowSampleCount + 1) % TWO32;
      if windowSampleCount >= config.windowSize {
        if elapsedMs > 0 {
          QuotientIsDivision(windowRecvCount * 1000 % TWO32, elapsedMs);
          estimatedRate := windowRecvCount * 1000 % TWO32 / elapsedMs % TWO32;
          AdjustThreshold();
        }
        windowRecvCount := 0;
        windowSampleCount := 0;
      }
    }

    /** Moves the ratio one step towards what the estimated rate asks for. */
    method AdjustThreshold()
      requires Valid()
      modifies `currentRatio, `lazyThreshold
      ensures Valid() && currentRatio == A.RatioAfter(config, old(currentRatio), [estimatedRate])
      ensures currentRatio == 0.8 * old(currentRatio) + 0.2 * A.Target(config, estimatedRate)
    {
      A.BlendIsNonNegative(config, currentRatio, estimatedRate);
      assert [estimatedRate][..0] == [];
      var newRatio: real;
      if estimatedRate >= config.highRate {
        newRatio := config.maxThreshold;
      } else if estimatedRate <= config.lowRate {
        newRatio := config.minThreshold;
      } else {
        var rateRatio := (estimatedRate - config.lowRate) as real / (config.highRate - config.lowRate) as real;
        newRatio := config.minThreshold + A.Times(rateRatio, config.maxThreshold - config.minThreshold);
      }
      assert newRatio == A.Target(config, estimatedRate);
      currentRatio := 0.8 * currentRatio + 0.2 * newRatio;
      lazyThreshold := A.Threshold(config, currentRatio);
    }

    method ShouldUpdateCredit() returns (r: bool)
      ensures r <==> pendingCredits >= lazyThreshold
      ensures r == C.ShouldUpdateCredit(AsPeer())
    {
      r := pendingCredits >= lazyThreshold;
    }

    method GetPiggybackCredits() returns (credits: uint32)
      requires Valid()
      modifies `pendingCredits
      ensures Valid() && credits == old(pendingCredits) && AsPeer() == old(AsPeer()).(pending := 0)
    {
      credits := pendingCredits;
      pendingCredits := 0;
    }

    method AddCredits(count: uint32)
      requires Valid()
      modifies `sendCredits
      ensures Valid() && sendCredits == (old(sendCredits) + count) % TWO32
      ensures AsPeer() == C.Take(old(AsPeer()), C.Message(0, count))
    {
      sendCredits := (sendCredits + count) % TWO32;
    }

    method Reset(config: A.Config)
      requires A.NonNegative(config) && 0.0 <= config.lazyThreshold
      modifies this
      ensures Valid() && this.config == config && currentRatio == config.lazyThreshold
      ensures AsPeer() == C.Peer(config.recvDepth, 0, A.Threshold(config, config.lazyThreshold))
      ensures windowRecvCount == windowSampleCount == estimatedRate == 0
    {
      this.config := config;
      lazyThreshold, currentRatio := A.Threshold(config, config.lazyThreshold), config.lazyThreshold;
      sendCredits, pendingCredits := config.recvDepth, 0;
      windowRecvCount, windowSampleCount, estimatedRate := 0, 0, 0;
    }
  }
}
