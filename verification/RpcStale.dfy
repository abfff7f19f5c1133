/** What a token that is not current does: nothing.  And what every callback was made for. */
module RpcStale {
  import opened Base
  import opened RpcSlotPool
  import opened RpcProtocol
  import opened RpcRuns
  import opened RpcDeadlines
  import opened RpcSuccess
  import T = Timer

  // ----- one token -----

  /** A token of a request that is over is dropped, by completions and timeouts alike, as long as its slot
      has not been freed 256 more times. */
  lemma StaleTokenIsDropped(r: Rpc, s: nat, n: nat)
    requires Inv(r) && s < MAX_SLOTS && (s, n) in r.requests && r.inc[s] != n && r.inc[s] - n <= 255
    ensures RpcProtocol.Deliver(r, s, n % 0x100) == r && Expire(r, s, n % 0x100) == r
  {
    RecentIsOwnOnly(r, s, n);
  }

  /** A completion is dropped exactly when it is not current or its request's generation is past 255. */
  lemma DeliveryIsDroppedIff(r: Rpc, s: nat, n: nat)
    requires Inv(r) && Enabled(r, Deliver(s, n)) && Always(OwnOnly, r, Deliver(s, n))
    ensures Step(r, Deliver(s, n)) == r <==> r.inc[s] != n || n % 4096 >= 0x100
  {
    assert SlotInv(r, s) && RequestInv(r, s, n);
    IncarnationFields(r.pool.hot[s], s, r.inc[s]);
    if r.inc[s] == n && n % 4096 < 0x100 {
      CompletionReportsSuccess(r, s, n % 0x100);
      assert Step(r, Deliver(s, n)).pool.hot[s] != r.pool.hot[s];
    }
  }

  /** Nothing but slot `s` differs. */
  ghost predicate SameElsewhere(r: Rpc, r': Rpc, s: nat)
    requires Shape(r) && Shape(r')
  {
    && r'.requests == r.requests && r'.timer == r.timer && r'.origin == r.origin && r.log <= r'.log
    && (forall q :: 0 <= q < MAX_SLOTS && q != s ==>
          r'.pool.hot[q] == r.pool.hot[q] && r'.pool.context[q] == r.pool.context[q] && r'.inc[q] == r.inc[q])
    && (forall i :: |r.log| <= i < |r'.log| ==> r'.log[i].slot == s)
    && (r'.pool.stack == r.pool.stack || r'.pool.stack == r.pool.stack + [s])
  }

  lemma RetireChangesOneSlot(r: Rpc, s: nat, h: Hot, status: uint8)
    requires Shape(r) && s < MAX_SLOTS
    ensures SameElsewhere(r, Retire(r, s, h, status), s)
  {
  }

  /** A completion or a timeout changes its own slot at most. */
  lemma TokenChangesOneSlot(r: Rpc, s: nat, gen: uint8)
    requires Shape(r) && s < MAX_SLOTS
    ensures SameElsewhere(r, RpcProtocol.Deliver(r, s, gen), s) && SameElsewhere(r, Expire(r, s, gen), s)
  {
    var h := r.pool.hot[s];
    RetireChangesOneSlot(r, s, h.MarkCompleted(), h.error);
    RetireChangesOneSlot(r, s, h.(error := 1, completed := h.total), 1);
  }

  /** A send changes the slot it takes at most, and none when none is free. */
  lemma SendChangesOneSlot(r: Rpc, c: Call, q: nat)
    requires Shape(r) && q < MAX_SLOTS && (r.pool.stack == [] || q != TopSlot(r))
    ensures var r' := RpcProtocol.Send(r, c);
            && r'.pool.hot[q] == r.pool.hot[q] && r'.pool.context[q] == r.pool.context[q] && r'.inc[q] == r.inc[q]
            && r'.log == r.log && r'.timer.now == r.timer.now
    ensures r.pool.stack == [] ==> RpcProtocol.Send(r, c) == r
  {
  }

  /** The slot of a request that was sent carries what the request was given. */
  lemma SentSlotHolds(r: Rpc, c: Call)
    requires Shape(r) && r.pool.stack != [] && c.inlineOk
    ensures var s, r' := TopSlot(r), RpcProtocol.Send(r, c); var h := r'.pool.hot[s];
            && h.inUse && h.connId == c.connId && h.completed == 0 && h.error == 0
            && h.total == (if c.hasData then 2 else 1) && h.packed == r.pool.hot[s].packed
            && r'.pool.context[s] == Context(c.callback, c.ctx) && r'.pool.stack + [s] == r.pool.stack
  {
  }

  /** A send that is refused gives its slot back at once, one incarnation later, and calls nobody back. */
  lemma RefusedSendGivesBack(r: Rpc, c: Call)
    requires Shape(r) && r.pool.stack != [] && !c.inlineOk
    ensures var s, r' := TopSlot(r), RpcProtocol.Send(r, c);
            && r'.pool.stack == r.pool.stack && r'.inc == r.inc[s := r.inc[s] + 1] && r'.log == r.log
            && !r'.pool.hot[s].inUse && r'.pool.hot[s].packed == r.pool.hot[s].NextGeneration()
            && r'.requests == r.requests[(s, r.inc[s]) := Request(c.callback, c.ctx, false)]
  {
  }

  // ----- lists of tokens -----

  /** No token of the list was issued for the request that holds slot `s`. */
  ghost predicate NoneCurrent(r: Rpc, expired: seq<(nat, nat)>, ns: seq<nat>, s: nat)
    requires |ns| == |expired| && s < |r.inc|
  {
    forall i :: 0 <= i < |expired| && expired[i].0 == s ==> ns[i] != r.inc[s]
  }

  lemma StaleExpiryIsDropped(r: Rpc, s: nat, n: nat)
    requires Inv(r) && s < MAX_SLOTS && (s, n) in r.requests && Holds(OwnOnly, r, s, n) && r.inc[s] != n
    ensures Expire(r, s, n % 0x100) == r
  {
  }

  /** The handler leaves every slot alone, and makes no callback for it, of whose request the list has no
      token. */
  lemma {:induction false} OthersAreUntouched(r: Rpc, expired: seq<(nat, nat)>, ns: seq<nat>, s: nat)
    requires Inv(r) && InRange(expired) && Issued(r, expired, ns) && ForEach(OwnOnly, r, expired, ns)
    requires s < MAX_SLOTS && NoneCurrent(r, expired, ns, s)
    ensures var r' := CheckTimeouts(r, expired); Untouched(r, r', s) && r.log <= r'.log
    decreases |expired|
  {
    if expired != [] {
      var q, n := expired[0].0, ns[0];
      var r1 := Expire(r, q, expired[0].1);
      ExpireIssued(r, q, n);
      ExpireOnlyAdds(r, q, expired[0].1);
      IssuedRest(r, expired, ns, r1);
      FirstLeavesAlone(r, q, n, s);
      assert NoneCurrent(r1, expired[1..], ns[1..], s);
      OthersAreUntouched(r1, expired[1..], ns[1..], s);
      UntouchedTwice(r, r1, CheckTimeouts(r, expired), s);
    }
  }

  lemma FirstLeavesAlone(r: Rpc, q: nat, n: nat, s: nat)
    requires Inv(r) && q < MAX_SLOTS && (q, n) in r.requests && Holds(OwnOnly, r, q, n)
    requires s < MAX_SLOTS && (q == s ==> n != r.inc[s])
    ensures var r' := Expire(r, q, n % 0x100); Untouched(r, r', s) && r.log <= r'.log
  {
    if q == s {
      StaleExpiryIsDropped(r, q, n);
    } else {
      TokenChangesOneSlot(r, q, n % 0x100);
    }
  }

  // ----- what a callback was made for -----

  /** The event that made callback `f`: the last completion of its request, or the tick at which the wheel
      entry issued for its incarnation was due. */
  ghost predicate Caused(r: Rpc, ev: Event, f: Fired) {
    && Shape(r) && f.slot < MAX_SLOTS && r.inc[f.slot] == f.inc
    && (|| (f.status == 0 && ev == Deliver(f.slot, f.inc))
        || (f.status == 1 && ev.Tick? && DueAtTick(r, f.slot, f.inc)))
  }

  ghost predicate DueAtTick(r: Rpc, s: nat, n: nat) {
    exists e :: e in r.timer.pending && e in r.origin && r.origin[e] == n
                && r.timer.pending[e].slot == s && r.timer.pending[e].due == r.timer.now
  }

  /** A callback the handler makes: with failure, for a token of its list, and for no incarnation that was
      over when the handler began. */
  ghost predicate FromList(r: Rpc, expired: seq<(nat, nat)>, ns: seq<nat>, f: Fired)
    requires Shape(r) && |ns| == |expired|
  {
    && f.status == 1 && f.slot < MAX_SLOTS && r.inc[f.slot] <= f.inc
    && exists j :: 0 <= j < |expired| && expired[j].0 == f.slot && ns[j] == f.inc
  }

  lemma ExpireFires(r: Rpc, s: nat, n: nat)
    requires Inv(r) && s < MAX_SLOTS && (s, n) in r.requests && Holds(OwnOnly, r, s, n)
    ensures var r' := Expire(r, s, n % 0x100);
            && r.log <= r'.log && |r'.log| <= |r.log| + 1
            && (|r'.log| > |r.log| ==> r.inc[s] == n && r'.log[|r.log|].slot == s && r'.log[|r.log|].inc == n
                                       && r'.log[|r.log|].status == 1)
  {
    if r.inc[s] != n {
      StaleExpiryIsDropped(r, s, n);
    }
  }

  lemma FromRest(r: Rpc, r1: Rpc, expired: seq<(nat, nat)>, ns: seq<nat>, f: Fired)
    requires Shape(r) && Shape(r1) && |ns| == |expired| && expired != []
    requires FromList(r1, expired[1..], ns[1..], f) && r.inc[f.slot] <= r1.inc[f.slot]
    ensures FromList(r, expired, ns, f)
  {
    var j :| 0 <= j < |expired| - 1 && expired[1..][j].0 == f.slot && ns[1..][j] == f.inc;
    assert expired[j + 1].0 == f.slot && ns[j + 1] == f.inc;
  }

  lemma {:induction false} CheckTimeoutsFires(r: Rpc, expired: seq<(nat, nat)>, ns: seq<nat>)
    requires Inv(r) && InRange(expired) && Issued(r, expired, ns) && ForEach(OwnOnly, r, expired, ns)
    ensures var r' := CheckTimeouts(r, expired);
            r.log <= r'.log && forall i :: |r.log| <= i < |r'.log| ==> FromList(r, expired, ns, r'.log[i])
    decreases |expired|
  {
    if expired != [] {
      var s, n := expired[0].0, ns[0];
      var r1 := Expire(r, s, expired[0].1);
      ExpireIssued(r, s, n);
      ExpireOnlyAdds(r, s, expired[0].1);
      IssuedRest(r, expired, ns, r1);
      ExpireFires(r, s, n);
      CheckTimeoutsFires(r1, expired[1..], ns[1..]);
      var r' := CheckTimeouts(r, expired);
      forall i | |r.log| <= i < |r'.log|
        ensures FromList(r, expired, ns, r'.log[i])
      {
        if i < |r1.log| {
          assert r'.log[i] == r1.log[i];
          assert expired[0].0 == r'.log[i].slot && ns[0] == r'.log[i].inc;
        } else {
          FromRest(r, r1, expired, ns, r'.log[i]);
        }
      }
    }
  }

  /** What the handler reports at a tick was due then, and is the current request of its slot. */
  lemma ListedIsCaused(r: Rpc, order: seq<nat>, f: Fired)
    requires Inv(r) && Enabled(r, Tick(order))
    requires FromList(AfterTick(r), Expired(r, order), Origins(r, order), f)
    ensures Caused(r, Tick(order), f)
  {
    var j :| 0 <= j < |order| && Expired(r, order)[j].0 == f.slot && Origins(r, order)[j] == f.inc;
    var e := order[j];
    assert e in T.Due(r.timer) && EntryInv(r, e);
    assert RequestInv(r, f.slot, f.inc);
    assert e in r.timer.pending && r.timer.pending[e].due == r.timer.now;
  }

  ghost predicate NewAreCaused(r: Rpc, ev: Event, r': Rpc) {
    && Shape(r) && r.log <= r'.log
    && forall i :: |r.log| <= i < |r'.log| ==> Caused(r, ev, r'.log[i])
  }

  lemma DeliverCauses(r: Rpc, s: nat, n: nat)
    requires Inv(r) && s < MAX_SLOTS && (s, n) in r.requests && Holds(OwnOnly, r, s, n)
    ensures NewAreCaused(r, Deliver(s, n), RpcProtocol.Deliver(r, s, n % 0x100))
  {
    assert SlotInv(r, s);
  }

  lemma SendCauses(r: Rpc, c: Call)
    requires Shape(r)
    ensures NewAreCaused(r, Event.Send(c), RpcProtocol.Send(r, c))
  {
    assert RpcProtocol.Send(r, c).log == r.log;
  }

  /** Every callback a step makes is made by the completion or the timeout of its own request. */
  lemma StepCauses(r: Rpc, ev: Event)
    requires Inv(r) && Enabled(r, ev) && Always(OwnOnly, r, ev)
    ensures NewAreCaused(r, ev, Step(r, ev))
  {
    match ev
    case Send(c) => SendCauses(r, c);
    case Deliver(s, n) => DeliverCauses(r, s, n);
    case Tick(order) => TickCauses(r, order);
  }

  lemma TickCauses(r: Rpc, order: seq<nat>)
    requires Inv(r) && Enabled(r, Tick(order)) && Always(OwnOnly, r, Tick(order))
    ensures NewAreCaused(r, Tick(order), Step(r, Tick(order)))
  {
    AfterTickKeepsInv(r);
    ExpiredAreIssued(r, order);
    CheckTimeoutsFires(AfterTick(r), Expired(r, order), Origins(r, order));
    var r' := Step(r, Tick(order));
    forall i | |r.log| <= i < |r'.log|
      ensures Caused(r, Tick(order), r'.log[i])
    {
      ListedIsCaused(r, order, r'.log[i]);
    }
  }

  // ----- whole runs -----

  /** The run made callback `f` at its event k, and that event caused it. */
  ghost predicate CausedAt(r: Rpc, evs: seq<Event>, k: nat, f: Fired)
    requires Shape(r) && EnabledRun(r, evs) && k < |evs|
  {
    EnabledRun(r, evs[..k]) && Caused(Run(r, evs[..k]), evs[k], f)
  }

  ghost predicate HasCause(r: Rpc, evs: seq<Event>, f: Fired)
    requires Shape(r) && EnabledRun(r, evs)
  {
    exists k :: 0 <= k < |evs| && CausedAt(r, evs, k, f)
  }

  ghost predicate AllHaveCauses(r: Rpc, evs: seq<Event>, log: seq<Fired>)
    requires Shape(r) && EnabledRun(r, evs)
  {
    forall i :: 0 <= i < |log| ==> HasCause(r, evs, log[i])
  }

  lemma SamePrefix(r: Rpc, front: seq<Event>, evs: seq<Event>, k: nat, f: Fired)
    requires Shape(r) && EnabledRun(r, evs) && EnabledRun(r, front) && k < |front| <= |evs|
    requires front[..k] == evs[..k] && front[k] == evs[k] && CausedAt(r, front, k, f)
    ensures CausedAt(r, evs, k, f)
  {
  }

  lemma EarlierCause(r: Rpc, front: seq<Event>, evs: seq<Event>, f: Fired)
    requires Shape(r) && EnabledRun(r, evs) && EnabledRun(r, front) && front <= evs && HasCause(r, front, f)
    ensures HasCause(r, evs, f)
  {
    var k :| 0 <= k < |front| && CausedAt(r, front, k, f);
    SamePrefix(r, front, evs, k, f);
  }

  lemma NextCauses(r: Rpc, front: seq<Event>, evs: seq<Event>, r1: Rpc, r2: Rpc)
    requires Shape(r) && EnabledRun(r, evs) && EnabledRun(r, front) && evs != [] && front == evs[..|evs| - 1]
    requires r1 == Run(r, front) && AllHaveCauses(r, front, r1.log) && NewAreCaused(r1, evs[|evs| - 1], r2)
    ensures AllHaveCauses(r, evs, r2.log)
  {
    forall i | 0 <= i < |r2.log|
      ensures HasCause(r, evs, r2.log[i])
    {
      if i < |r1.log| {
        assert r2.log[i] == r1.log[i];
        EarlierCause(r, front, evs, r2.log[i]);
      } else {
        assert CausedAt(r, evs, |front|, r2.log[i]);
      }
    }
  }

  lemma {:induction false} CausesFrom(r: Rpc, evs: seq<Event>)
    requires Inv(r) && r.log == [] && EnabledRun(r, evs) && AlwaysInRun(OwnOnly, r, evs)
    ensures AllHaveCauses(r, evs, Run(r, evs).log)
    decreases |evs|
  {
    if evs != [] {
      var front, ev := evs[..|evs| - 1], evs[|evs| - 1];
      LastEvent(r, evs);
      CausesFrom(r, front);
      RunKeepsInv(r, front);
      StepCauses(Run(r, front), ev);
      NextCauses(r, front, evs, Run(r, front), Run(r, evs));
    }
  }

  /** In every run in which a token is accepted only by the incarnation it was issued for, each callback
      was made for the current request of its slot: a success by a completion that came for that same
      request, a failure by a tick at which that same request's wheel entry was due. */
  lemma CallbacksHaveCauses(evs: seq<Event>)
    requires EnabledRun(Initial(), evs) && AlwaysInRun(OwnOnly, Initial(), evs)
    ensures AllHaveCauses(Initial(), evs, Run(Initial(), evs).log)
  {
    InitialInv();
    CausesFrom(Initial(), evs);
  }
}
