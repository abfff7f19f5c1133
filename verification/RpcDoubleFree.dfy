/** The runs that show why tokens must not outlive 255 frees: once enough refused requests have brought
    slot 0 back to a generation an old token names, the timeout of a refused request is accepted. */
module RpcDoubleFree {
  import opened Base
  import opened RpcSlotPool
  import opened RpcProtocol
  import opened RpcRuns
  import opened RpcRefusals
  import T = Timer
  import TimingWheel

  // ----- every pattern has a run -----

  /** The wheel can list what is due. */
  ghost predicate Tickable(r: Rpc) {
    && Shape(r)
    && forall e: nat :: e in r.timer.pending ==>
         e in r.origin && r.timer.pending[e].slot < MAX_SLOTS && r.timer.pending[e].gen < 0x100
  }

  lemma {:induction false} SomeOrder(due: set<nat>) returns (order: seq<nat>)
    ensures (forall e: nat :: e in order <==> e in due) && forall i, j :: 0 <= i < j < |order| ==> order[i] != order[j]
  {
    if due == {} {
      order := [];
    } else {
      var e :| e in due;
      order := SomeOrder(due - {e});
      order := order + [e];
    }
  }

  lemma FreeEntry(pending: map<nat, T.Pending>) returns (entry: Option<nat>)
    ensures if entry.Some? then entry.value < TimingWheel.MAX_ENTRIES && entry.value !in pending
            else |pending| >= TimingWheel.MAX_ENTRIES
  {
    if e: nat :| e < TimingWheel.MAX_ENTRIES && e !in pending {
      entry := Some(e);
    } else {
      entry := None;
      var used := set e | e in pending && e < TimingWheel.MAX_ENTRIES;
      MissingMember(used, TimingWheel.MAX_ENTRIES);
      SubsetSize(used, pending.Keys);
      assert |pending| == |pending.Keys|;
    }
  }

  lemma {:induction false} SubsetSize(a: set<nat>, b: set<nat>)
    requires a <= b
    ensures |a| <= |b|
  {
    if a != {} {
      var x :| x in a;
      SubsetSize(a - {x}, b - {x});
    }
  }

  lemma {:induction false} CheckTimeoutsKeepsTimer(r: Rpc, expired: seq<(nat, nat)>)
    requires Shape(r) && InRange(expired)
    ensures CheckTimeouts(r, expired).timer == r.timer && CheckTimeouts(r, expired).origin == r.origin
    decreases |expired|
  {
    if expired != [] {
      CheckTimeoutsKeepsTimer(Expire(r, expired[0].0, expired[0].1), expired[1..]);
    }
  }

  lemma TickIsPossible(r: Rpc) returns (ev: Event)
    requires Tickable(r)
    ensures ev.Tick? && Enabled(r, ev) && Tickable(Step(r, ev))
  {
    var order := SomeOrder(T.Due(r.timer));
    ev := Event.Tick(order);
    OrderIsEnabled(r, order);
    CheckTimeoutsKeepsTimer(AfterTick(r), Expired(r, order));
    AfterTickIsTickable(r);
    SameTimerIsTickable(AfterTick(r), Step(r, ev));
  }

  lemma OrderIsEnabled(r: Rpc, order: seq<nat>)
    requires Tickable(r) && T.Enumerates(r.timer, order)
    ensures Enabled(r, Event.Tick(order))
  {
    forall i | 0 <= i < |order|
      ensures order[i] in r.timer.pending && order[i] in r.origin
    {
      assert order[i] in T.Due(r.timer);
    }
  }

  lemma AfterTickIsTickable(r: Rpc)
    requires Tickable(r)
    ensures Tickable(AfterTick(r))
  {
  }

  lemma SameTimerIsTickable(r: Rpc, r': Rpc)
    requires Tickable(r) && Shape(r') && r'.timer == r.timer && r'.origin == r.origin
    ensures Tickable(r')
  {
  }

  lemma RefusalIsPossible(r: Rpc, timeout: uint32) returns (ev: Event)
    requires Tickable(r)
    ensures IsRefusal(ev, timeout) && Enabled(r, ev) && Tickable(Step(r, ev))
  {
    var entry := FreeEntry(r.timer.pending);
    ev := Event.Send(Call(1, 0, 0, timeout, entry, false, false));
  }

  /** Whatever the pattern, some run follows it. */
  lemma {:induction false} PatternHasRunFrom(r: Rpc, refusals: seq<bool>, timeout: uint32)
    requires Tickable(r)
    ensures exists evs :: IsRunFrom(r, evs, refusals, timeout) && Tickable(Run(r, evs))
    decreases |refusals|
  {
    if refusals == [] {
      assert IsRunFrom(r, [], refusals, timeout) && Run(r, []) == r;
    } else {
      var front, last := refusals[..|refusals| - 1], refusals[|refusals| - 1];
      PatternHasRunFrom(r, front, timeout);
      var evs :| IsRunFrom(r, evs, front, timeout) && Tickable(Run(r, evs));
      var ev := NextIsPossible(Run(r, evs), last, timeout);
      FollowedBy(r, evs, ev, refusals, timeout);
    }
  }

  lemma NextIsPossible(r: Rpc, refusal: bool, timeout: uint32) returns (ev: Event)
    requires Tickable(r)
    ensures if refusal then IsRefusal(ev, timeout) else ev.Tick?
    ensures Enabled(r, ev) && Tickable(Step(r, ev))
  {
    if refusal {
      ev := RefusalIsPossible(r, timeout);
    } else {
      ev := TickIsPossible(r);
    }
  }

  lemma RunOfSnoc(r: Rpc, evs: seq<Event>, ev: Event)
    requires Shape(r) && EnabledRun(r, evs) && Enabled(Run(r, evs), ev)
    ensures EnabledRun(r, evs + [ev]) && Run(r, evs + [ev]) == Step(Run(r, evs), ev)
  {
    assert (evs + [ev])[..|evs|] == evs;
  }

  lemma MatchesOneMore(evs: seq<Event>, ev: Event, refusals: seq<bool>, timeout: uint32)
    requires refusals != [] && Matches(evs, refusals[..|refusals| - 1], timeout)
    requires if refusals[|refusals| - 1] then IsRefusal(ev, timeout) else ev.Tick?
    ensures Matches(evs + [ev], refusals, timeout)
  {
  }

  lemma FollowedBy(r: Rpc, evs: seq<Event>, ev: Event, refusals: seq<bool>, timeout: uint32)
    requires refusals != [] && IsRunFrom(r, evs, refusals[..|refusals| - 1], timeout)
    requires if refusals[|refusals| - 1] then IsRefusal(ev, timeout) else ev.Tick?
    requires Enabled(Run(r, evs), ev)
    ensures IsRunFrom(r, evs + [ev], refusals, timeout) && Run(r, evs + [ev]) == Step(Run(r, evs), ev)
  {
    MatchesOneMore(evs, ev, refusals, timeout);
    RunOfSnoc(r, evs, ev);
  }

  lemma PatternHasRun(refusals: seq<bool>, timeout: uint32)
    ensures exists evs :: IsRefusedRun(evs, refusals, timeout)
  {
    InitialIsTickable();
    PatternHasRunFrom(Initial(), refusals, timeout);
    var evs :| IsRunFrom(Initial(), evs, refusals, timeout);
    assert IsRefusedRun(evs, refusals, timeout);
  }

  lemma InitialIsTickable()
    ensures Tickable(Initial())
  {
  }

  // ----- the results -----

  /** For every configured timeout, in every run of 4096 refused requests in one tick and then ticks until
      their timeouts fire: the last tick calls back into the last request, whose slot is free, and frees
      that slot again, so the next two requests share it.  There is such a run. */
  lemma StaleTimeoutFreesTwice(timeout: uint32)
    ensures exists evs :: IsRefusedRun(evs, Batch(4096, timeout), timeout)
    ensures forall evs :: IsRefusedRun(evs, Batch(4096, timeout), timeout) ==> FreedTwice(Run(Initial(), evs), 4096)
  {
    assert IsAccepted(0, 4096, 0);
    OneBatchAlwaysEnds(4096, timeout);
  }

  lemma OneBatchAlwaysEnds(k: nat, timeout: uint32)
    requires 0 < k <= TimingWheel.MAX_ENTRIES && SomeAccepted(0, k)
    ensures exists evs :: IsRefusedRun(evs, Batch(k, timeout), timeout)
    ensures forall evs :: IsRefusedRun(evs, Batch(k, timeout), timeout) ==> FreedTwice(Run(Initial(), evs), k)
  {
    PatternHasRun(Batch(k, timeout), timeout);
    forall evs | IsRefusedRun(evs, Batch(k, timeout), timeout)
      ensures FreedTwice(Run(Initial(), evs), k)
    {
      OneBatchEnds(evs, k, timeout);
    }
  }

  lemma OneBatchEnds(evs: seq<Event>, k: nat, timeout: uint32)
    requires IsRefusedRun(evs, Batch(k, timeout), timeout)
    requires 0 < k <= TimingWheel.MAX_ENTRIES && SomeAccepted(0, k)
    ensures FreedTwice(Run(Initial(), evs), k)
  {
    RunIsTrace(Initial(), evs);
    var states :| IsTrace(states, evs) && states[0] == Initial() && states[|evs|] == Run(Initial(), evs);
    OneBatch(states, evs, k, timeout);
  }

  /** The slot is free and of the tokens the next tick looks at, it accepts exactly that of incarnation n. */
  ghost predicate OnlyAccepts(r: Rpc, n: nat) {
    && Shape(r) && !r.pool.hot[0].inUse && HasOrigin(r, n)
    && (forall e: nat :: e in r.timer.pending ==>
          e in r.origin && r.timer.pending[e].slot == 0 && r.timer.pending[e].due == r.timer.now
          && r.timer.pending[e].gen < 0x100
          && (r.pool.hot[0].Accepts(r.timer.pending[e].gen) <==> r.origin[e] == n))
  }

  /** Of the tokens of incarnations m to k - 1, incarnation k accepts that of n and no other. */
  ghost predicate IsOnlyAccepted(m: nat, k: nat, n: nat) {
    IsAccepted(m, k, n) && forall i :: IsAccepted(m, k, i) ==> i == n
  }

  lemma StageOnlyAccepts(r: Rpc, m: nat, k: nat, n: nat)
    requires Stage(r, m, k, r.timer.now) && IsOnlyAccepted(m, k, n)
    ensures OnlyAccepts(r, n)
  {
    IncarnationFields(r.pool.hot[0], 0, k);
    assert HasOrigin(r, n);
    forall e: nat | e in r.timer.pending
      ensures r.pool.hot[0].Accepts(r.timer.pending[e].gen) <==> r.origin[e] == n
    {
      var i := r.origin[e];
      assert IsAccepted(m, k, i) <==> i % 0x100 == k % 4096;
    }
  }

  /** Before its last event the run has slot 0 at incarnation k, accepting only the token of n. */
  ghost predicate LastTickFreesTwice(evs: seq<Event>, n: nat, k: nat)
  {
    && evs != [] && EnabledRun(Initial(), evs) && EnabledRun(Initial(), evs[..|evs| - 1])
    && var before := Run(Initial(), evs[..|evs| - 1]);
       before.inc[0] == k && OnlyAccepts(before, n) && FreedTwice(Run(Initial(), evs), k)
  }

  lemma TwoBatchesEnd(evs: seq<Event>, k: nat, l: nat, n: nat, timeout: uint32)
    requires IsRefusedRun(evs, Batch(k, timeout) + Batch(l, timeout), timeout)
    requires 0 < k <= TimingWheel.MAX_ENTRIES && 0 < l <= TimingWheel.MAX_ENTRIES && !SomeAccepted(0, k)
    requires IsOnlyAccepted(k, k + l, n)
    ensures LastTickFreesTwice(evs, n, k + l)
  {
    var front := evs[..|evs| - 1];
    LastMove(Initial(), evs);
    RunIsTrace(Initial(), front);
    var states :| IsTrace(states, front) && states[0] == Initial() && states[|front|] == Run(Initial(), front);
    LongerTrace(states, evs, Run(Initial(), evs));
    TwoBatchesOfTrace(states + [Run(Initial(), evs)], evs, k, l, n, timeout);
  }

  lemma TwoBatchesOfTrace(states: seq<Rpc>, evs: seq<Event>, k: nat, l: nat, n: nat, timeout: uint32)
    requires IsTrace(states, evs) && states[0] == Initial() && evs != []
    requires Matches(evs, Batch(k, timeout) + Batch(l, timeout), timeout)
    requires 0 < k <= TimingWheel.MAX_ENTRIES && 0 < l <= TimingWheel.MAX_ENTRIES && !SomeAccepted(0, k)
    requires IsOnlyAccepted(k, k + l, n)
    ensures var before := states[|evs| - 1];
            OnlyAccepts(before, n) && before.inc[0] == k + l && FreedTwice(states[|evs|], k + l)
  {
    TwoBatchesFallDue(states, evs, k, l, timeout);
    StageOnlyAccepts(states[|evs| - 1], k, k + l, n);
    TwoBatches(states, evs, k, l, timeout);
  }

  lemma TwoBatchesAlwaysEnd(k: nat, l: nat, n: nat, timeout: uint32)
    requires 0 < k <= TimingWheel.MAX_ENTRIES && 0 < l <= TimingWheel.MAX_ENTRIES && !SomeAccepted(0, k)
    requires IsOnlyAccepted(k, k + l, n)
    ensures exists evs :: IsRefusedRun(evs, Batch(k, timeout) + Batch(l, timeout), timeout)
    ensures forall evs :: IsRefusedRun(evs, Batch(k, timeout) + Batch(l, timeout), timeout) ==>
              LastTickFreesTwice(evs, n, k + l)
  {
    PatternHasRun(Batch(k, timeout) + Batch(l, timeout), timeout);
    forall evs | IsRefusedRun(evs, Batch(k, timeout) + Batch(l, timeout), timeout)
      ensures LastTickFreesTwice(evs, n, k + l)
    {
      TwoBatchesEnd(evs, k, l, n, timeout);
    }
  }

  /** The bound of 255 frees is the best there is, for every configured timeout: in every run of 4095
      refused requests whose timeouts fire unheeded, and then 256 more, the last tick accepts the token of
      incarnation 4095 of slot 0, and no other, at incarnation 4351, and frees the slot twice.  There is
      such a run. */
  lemma TwoHundredFiftySixFreesAreEnough(timeout: uint32)
    ensures exists evs :: IsRefusedRun(evs, Batch(4095, timeout) + Batch(256, timeout), timeout)
    ensures forall evs :: IsRefusedRun(evs, Batch(4095, timeout) + Batch(256, timeout), timeout) ==>
              LastTickFreesTwice(evs, 4095, 4351)
  {
    StaleTokenGapIsTight();
    assert !SomeAccepted(0, 4095);
    assert IsOnlyAccepted(4095, 4351, 4095);
    TwoBatchesAlwaysEnd(4095, 256, 4095, timeout);
  }
}
