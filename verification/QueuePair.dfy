/** The queue pair in place: signalling counters and the loop that posts fragment by fragment.  Whether
    the hardware takes a request is decided, attempt by attempt, by `accepts`; what it took is `wire`. */
module QueuePair {
  import opened Base
  import WrId
  import S = SendQueue

  class QueuePair {
    const config: S.Config
    const accepts: nat -> bool
    var unsignaledCount: uint32
    var outstandingSignaled: uint32
    var attempts: nat
    var wire: seq<S.WorkRequest>

    ghost function Model(): S.Queue
      reads this
    {
      S.Queue(config, unsignaledCount, outstandingSignaled, attempts, wire)
    }

    constructor (config: S.Config, accepts: nat -> bool)
      ensures Model() == S.Queue(config, 0, 0, 0, []) && this.accepts == accepts
    {
      this.config, this.accepts := config, accepts;
      unsignaledCount, outstandingSignaled, attempts, wire := 0, 0, 0, [];
    }

    method ShouldSignal() returns (signaled: bool)
      modifies this
      ensures (Model(), signaled) == S.ShouldSignal(old(Model()))
    {
      unsignaledCount := (unsignaledCount + 1) % TWO32;
      signaled := unsignaledCount >= config.signalInterval;
      if signaled {
        if !(outstandingSignaled < config.cqDepth / 2) {
          return false;
        }
        unsignaledCount := 0;
        outstandingSignaled := (outstandingSignaled + 1) % TWO32;
      }
    }

    method OnSendComplete(wasSignaled: bool)
      modifies this
      ensures Model() == S.OnSendComplete(old(Model()), wasSignaled)
    {
      if wasSignaled {
        outstandingSignaled := (outstandingSignaled + TWO32 - 1) % TWO32;
      }
    }

    method DoPostSendSGL(iov: seq<S.Iov>, wrId: nat, signaled: bool) returns (ok: bool)
      modifies this
      ensures (Model(), ok) == S.DoPost(old(Model()), accepts, iov, wrId, signaled)
    {
      if |iov| > S.MAX_SGES {
        return false;
      }
      ok := accepts(attempts);
      attempts := attempts + 1;
      if ok {
        wire := wire + [S.WorkRequest(wrId, iov, signaled)];
      }
    }

    method PostSendSGL(iov: seq<S.Iov>, wrIdBase: nat, conn: uint16, gen: uint8) returns (ok: bool)
      requires 0 < config.maxSendSge
      modifies this
      ensures (Model(), ok) == S.PostSendSGL(old(Model()), accepts, iov, wrIdBase, conn, gen)
    {
      var signaled := false;
      if |iov| <= config.maxSendSge {
        signaled := ShouldSignal();
        ok := DoPostSendSGL(iov, wrIdBase, signaled);
        return;
      }
      var remaining: nat, offset: nat, fragment: nat := |iov|, 0, 0;
      while remaining > 0
        invariant remaining + offset == |iov|
        invariant S.PostFragments(Model(), accepts, iov[offset..], wrIdBase, conn, gen, fragment)
               == S.PostFragments(old(Model()), accepts, iov, wrIdBase, conn, gen, 0)
      {
        var chunk := if remaining < config.maxSendSge then remaining else config.maxSendSge;
        var fragId := WrId.Encode(conn, S.REQUEST_SEND, gen, S.FragmentSlot(wrIdBase, fragment));
        signaled := false;
        if remaining == chunk {
          signaled := ShouldSignal();
        }
        ghost var rest := iov[offset..];
        assert rest[..chunk] == iov[offset..offset + chunk] && rest[chunk..] == iov[offset + chunk..];
        ok := DoPostSendSGL(iov[offset..offset + chunk], fragId, signaled);
        if !ok {
          return;
        }
        remaining, offset, fragment := remaining - chunk, offset + chunk, fragment + 1;
      }
      ok := true;
    }
  }
}
