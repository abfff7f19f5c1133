/** What a scatter-gather send does on both of its paths, whatever the hardware takes. */
module SendPaths {
  import opened Base
  import opened SendQueue
  import WrId

  /** The interval is over with this request, and there is room for a signalled one. */
  ghost predicate TurnHasCome(q: Queue) {
    q.unsignaled + 1 >= q.config.signalInterval && q.outstanding < q.config.cqDepth / 2
  }

  /** The counters after one request that asked to be signalled. */
  ghost predicate CountedOnce(q: Queue, q': Queue) {
    && q'.config == q.config
    && (if TurnHasCome(q) then q'.unsignaled == 0 && q'.outstanding == q.outstanding + 1
        else q'.unsignaled == q.unsignaled + 1 && q'.outstanding == q.outstanding)
  }

  /** A list within the limit is one request with the id as it was given, or, beyond 16 entries, none. */
  lemma FastPathPostsOne(q: Queue, accepts: nat -> bool, iov: seq<Iov>, wrIdBase: nat, conn: uint16, gen: uint8)
    requires |iov| <= q.config.maxSendSge && 0 < q.config.maxSendSge && q.unsignaled + 1 < TWO32
    ensures var (q', ok) := PostSendSGL(q, accepts, iov, wrIdBase, conn, gen);
            && CountedOnce(q, q')
            && (ok <==> |iov| <= 16 && accepts(q.attempts))
            && q'.attempts == q.attempts + (if |iov| <= 16 then 1 else 0)
            && q'.wire == q.wire + if ok then [WorkRequest(wrIdBase, iov, TurnHasCome(q))] else []
  {
  }

  /** More than 16 entries under a limit above 16 are refused without a post, on either path. */
  lemma TooManyEntriesAreRefused(q: Queue, accepts: nat -> bool, iov: seq<Iov>, wrIdBase: nat, conn: uint16, gen: uint8)
    requires q.config.maxSendSge > 16 && |iov| > 16
    ensures var (q', ok) := PostSendSGL(q, accepts, iov, wrIdBase, conn, gen);
            !ok && q'.attempts == q.attempts && q'.wire == q.wire
  {
  }

  /** What the loop adds to the wire when `tried` posts are tried from `first` on: those before the first
      refusal, which cut the list in order. */
  ghost predicate StopsAtRefusal(accepts: nat -> bool, first: nat, tried: nat, sent: seq<WorkRequest>, iov: seq<Iov>, ok: bool) {
    && |sent| == (if ok then tried else tried - 1)
    && (forall k :: first <= k < first + |sent| ==> accepts(k))
    && (!ok ==> !accepts(first + tried - 1))
    && Joined(sent) <= iov && (ok <==> Joined(sent) == iov)
  }

  lemma OneMoreTaken(accepts: nat -> bool, first: nat, tried: nat, wr: WorkRequest, sent: seq<WorkRequest>,
                     iov: seq<Iov>, chunk: nat, ok: bool)
    requires 0 < chunk <= |iov| && wr.sges == iov[..chunk] && accepts(first)
    requires StopsAtRefusal(accepts, first + 1, tried, sent, iov[chunk..], ok)
    ensures StopsAtRefusal(accepts, first, tried + 1, [wr] + sent, iov, ok)
  {
    var all := [wr] + sent;
    assert all[1..] == sent && iov == iov[..chunk] + iov[chunk..];
    assert Joined(all) == iov[..chunk] + Joined(sent);
    PrefixOfSum(iov[..chunk], Joined(sent), iov[chunk..]);
    forall k | first <= k < first + |all|
      ensures accepts(k)
    {
      assert k > first ==> first + 1 <= k < first + 1 + |sent|;
    }
  }

  lemma PrefixOfSum(a: seq<Iov>, b: seq<Iov>, c: seq<Iov>)
    requires b <= c
    ensures a + b <= a + c && (a + b == a + c <==> b == c)
  {
    assert (a + b)[|a|..] == b && (a + c)[|a|..] == c;
  }

  /** The loop's first turn. */
  lemma FirstTurn(q: Queue, accepts: nat -> bool, iov: seq<Iov>, wrIdBase: nat, conn: uint16, gen: uint8, index: nat)
      returns (wr: WorkRequest, q2: Queue)
    requires 0 < q.config.maxSendSge <= 16 && iov != []
    ensures var max := q.config.maxSendSge; var chunk := if |iov| < max then |iov| else max;
            && wr.sges == iov[..chunk] && q2.config == q.config && q2.attempts == q.attempts + 1
            && q2.wire == q.wire + (if accepts(q.attempts) then [wr] else [])
            && PostFragments(q, accepts, iov, wrIdBase, conn, gen, index)
               == if accepts(q.attempts) then PostFragments(q2, accepts, iov[chunk..], wrIdBase, conn, gen, index + 1)
                  else (q2, false)
  {
    var max := q.config.maxSendSge;
    var chunk := if |iov| < max then |iov| else max;
    var (q1, signaled) := if chunk == |iov| then ShouldSignal(q) else (q, false);
    wr := WorkRequest(FragmentId(conn, gen, wrIdBase, index), iov[..chunk], signaled);
    q2 := DoPost(q1, accepts, wr.sges, wr.wrId, signaled).0;
  }

  /** What a send from q leaves when it stops at the first refusal. */
  ghost predicate Sent(q: Queue, q': Queue, ok: bool, accepts: nat -> bool, iov: seq<Iov>) {
    && q'.attempts >= q.attempts && q.wire <= q'.wire
    && StopsAtRefusal(accepts, q.attempts, q'.attempts - q.attempts, q'.wire[|q.wire|..], iov, ok)
  }

  lemma SentAfterOne(q: Queue, q2: Queue, q': Queue, ok: bool, accepts: nat -> bool, iov: seq<Iov>, chunk: nat, wr: WorkRequest)
    requires 0 < chunk <= |iov| && wr.sges == iov[..chunk] && accepts(q.attempts)
    requires q2.wire == q.wire + [wr] && q2.attempts == q.attempts + 1 && Sent(q2, q', ok, accepts, iov[chunk..])
    ensures Sent(q, q', ok, accepts, iov)
  {
    WireFrom(q.wire, wr, q'.wire);
    OneMoreTaken(accepts, q.attempts, q'.attempts - q2.attempts, wr, q'.wire[|q2.wire|..], iov, chunk, ok);
  }

  /** The loop posts fragment after fragment until one is refused, and nothing after that one. */
  lemma {:induction false} LoopStopsAtRefusal(q: Queue, accepts: nat -> bool, iov: seq<Iov>, wrIdBase: nat,
                                              conn: uint16, gen: uint8, index: nat)
    requires 0 < q.config.maxSendSge <= 16
    ensures var (q', ok) := PostFragments(q, accepts, iov, wrIdBase, conn, gen, index); Sent(q, q', ok, accepts, iov)
    decreases |iov|
  {
    if iov != [] {
      var max := q.config.maxSendSge;
      var chunk := if |iov| < max then |iov| else max;
      var wr, q2 := FirstTurn(q, accepts, iov, wrIdBase, conn, gen, index);
      if accepts(q.attempts) {
        LoopStopsAtRefusal(q2, accepts, iov[chunk..], wrIdBase, conn, gen, index + 1);
        var (q', ok) := PostFragments(q2, accepts, iov[chunk..], wrIdBase, conn, gen, index + 1);
        SentAfterOne(q, q2, q', ok, accepts, iov, chunk, wr);
      } else {
        assert q2.wire[|q.wire|..] == [];
      }
    }
  }

  /** A send of a list the limit allows, in one request or in many: what it adds to the wire is the list in
      order, up to the first request that is refused, and it succeeds exactly when none is. */
  lemma SendStopsAtRefusal(q: Queue, accepts: nat -> bool, iov: seq<Iov>, wrIdBase: nat, conn: uint16, gen: uint8)
    requires 0 < q.config.maxSendSge <= 16 && q.unsignaled + 1 < TWO32 && iov != []
    ensures var (q', ok) := PostSendSGL(q, accepts, iov, wrIdBase, conn, gen); Sent(q, q', ok, accepts, iov)
  {
    if |iov| <= q.config.maxSendSge {
      FastPathPostsOne(q, accepts, iov, wrIdBase, conn, gen);
      var (q', ok) := PostSendSGL(q, accepts, iov, wrIdBase, conn, gen);
      var wr := WorkRequest(wrIdBase, iov, TurnHasCome(q));
      assert q'.wire[|q.wire|..] == if ok then [wr] else [];
      assert [wr][1..] == [] && Joined([wr]) == iov;
    } else {
      LoopStopsAtRefusal(q, accepts, iov, wrIdBase, conn, gen, 0);
    }
  }

  /** The last fragment asks to be signalled, and is when its turn has come; the whole list is counted
      as one request. */
  lemma {:induction false} LastFragmentTakesTheTurn(q: Queue, accepts: nat -> bool, iov: seq<Iov>, wrIdBase: nat,
                                                    conn: uint16, gen: uint8, index: nat)
    requires 0 < q.config.maxSendSge <= 16 && q.unsignaled + 1 < TWO32 && iov != []
    ensures var (q', ok) := PostFragments(q, accepts, iov, wrIdBase, conn, gen, index);
            ok ==> CountedOnce(q, q') && q'.wire != [] && (q'.wire[|q'.wire| - 1].signaled <==> TurnHasCome(q))
    decreases |iov|
  {
    var max := q.config.maxSendSge;
    if |iov| > max {
      var q2 := DoPost(q, accepts, iov[..max], FragmentId(conn, gen, wrIdBase, index), false).0;
      LastFragmentTakesTheTurn(q2, accepts, iov[max..], wrIdBase, conn, gen, index + 1);
    }
  }

  /** If every post is taken, a send adds exactly the list, in one request as it stands if the limit allows
      and otherwise in as few fragments as possible; the last request is signalled when its turn has come. */
  lemma SendIsFaithful(q: Queue, accepts: nat -> bool, iov: seq<Iov>, wrIdBase: nat, conn: uint16, gen: uint8)
    requires 0 < q.config.maxSendSge <= 16 && q.unsignaled + 1 < TWO32 && forall k :: accepts(k)
    ensures var (q', ok), max := PostSendSGL(q, accepts, iov, wrIdBase, conn, gen), q.config.maxSendSge;
            && ok && CountedOnce(q, q') && q.wire < q'.wire
            && var sent := q'.wire[|q.wire|..];
               && Joined(sent) == iov && (sent[|sent| - 1].signaled <==> TurnHasCome(q))
               && (if |iov| <= max then sent == [WorkRequest(wrIdBase, iov, TurnHasCome(q))]
                   else Fragments(sent, iov, max, wrIdBase, conn, gen, 0))
  {
    var (q', ok) := PostSendSGL(q, accepts, iov, wrIdBase, conn, gen);
    if |iov| <= q.config.maxSendSge {
      FastPathPostsOne(q, accepts, iov, wrIdBase, conn, gen);
      var wr := WorkRequest(wrIdBase, iov, TurnHasCome(q));
      assert q'.wire[|q.wire|..] == [wr];
      assert [wr][1..] == [] && Joined([wr]) == iov;
    } else {
      FragmentsAreFaithful(q, accepts, iov, wrIdBase, conn, gen, 0);
      LastFragmentTakesTheTurn(q, accepts, iov, wrIdBase, conn, gen, 0);
      var sent := q'.wire[|q.wire|..];
      assert sent != [];
      assert sent[|sent| - 1] == q'.wire[|q'.wire| - 1];
    }
  }

  // ----- signalling, backpressure included -----

  /** How many requests were posted since the last signalled one, if there were `u` before these. */
  function SinceSignal(u: nat, signals: seq<bool>): nat {
    if signals == [] then u
    else if signals[|signals| - 1] then 0
    else SinceSignal(u, signals[..|signals| - 1]) + 1
  }

  lemma {:induction false} SinceSignalFromFirst(u: nat, signals: seq<bool>)
    requires signals != []
    ensures SinceSignal(u, signals) == SinceSignal(if signals[0] then 0 else u + 1, signals[1..])
    decreases |signals|
  {
    var k := |signals| - 1;
    if k > 0 && !signals[k] {
      SinceSignalFromFirst(u, signals[..k]);
      assert signals[..k][1..] == signals[1..][..k - 1];
    }
  }

  lemma {:induction false} CounterIsSinceSignal(b: Books, evs: seq<Event>)
    requires EnabledRun(b, evs) && b.queue.unsignaled + |evs| < TWO32
    ensures Run(b, evs).queue.unsignaled == SinceSignal(b.queue.unsignaled, Signals(b, evs)) <= b.queue.unsignaled + |evs|
    ensures Run(b, evs).queue.config == b.queue.config
    decreases |evs|
  {
    if evs != [] {
      var b1 := Step(b, evs[0]);
      CounterIsSinceSignal(b1, evs[1..]);
      if evs[0].Post? {
        assert Signals(b, evs)[1..] == Signals(b1, evs[1..]);
        SinceSignalFromFirst(b.queue.unsignaled, Signals(b, evs));
      } else {
        assert Signals(b, evs) == Signals(b1, evs[1..]);
      }
    }
  }

  lemma {:induction false} OneMorePost(b: Books, evs: seq<Event>, taken: bool)
    requires EnabledRun(b, evs)
    ensures EnabledRun(b, evs + [Post(taken)])
    ensures Signals(b, evs + [Post(taken)]) == Signals(b, evs) + [ShouldSignal(Run(b, evs).queue).1]
    decreases |evs|
  {
    var more := evs + [Post(taken)];
    if evs == [] {
      assert more[1..] == [];
    } else {
      OneMorePost(Step(b, evs[0]), evs[1..], taken);
      assert more[1..] == evs[1..] + [Post(taken)];
    }
  }

  /** After every run, backpressure included: the next request is signalled if and only if, with it, at least
      signalInterval requests were posted since the last signalled one, and fewer than half a completion
      queue of signalled requests are in flight or were refused.  So the first request after room returns is
      signalled if the interval is over by then. */
  lemma SignalLaw(b: Books, evs: seq<Event>, taken: bool)
    requires Balanced(b) && EnabledRun(b, evs) && b.queue.unsignaled + |evs| + 1 < TWO32
    ensures EnabledRun(b, evs + [Post(taken)])
    ensures var r, since := Run(b, evs), SinceSignal(b.queue.unsignaled, Signals(b, evs));
            Signals(b, evs + [Post(taken)])
            == Signals(b, evs) + [since + 1 >= b.queue.config.signalInterval
                                  && r.inFlight + r.refused < b.queue.config.cqDepth / 2]
  {
    OutstandingIsBounded(b, evs);
    CounterIsSinceSignal(b, evs);
    OneMorePost(b, evs, taken);
    TurnIsSignaled(Run(b, evs).queue);
  }

  lemma TurnIsSignaled(q: Queue)
    requires q.unsignaled + 1 < TWO32
    ensures ShouldSignal(q).1 <==> TurnHasCome(q)
  {
  }
}
