/** Runs of requests whose first send is refused.  They give their slot back but leave their timeouts
    on the wheel.  Which wheel entries are handed out, and in which order they are listed, plays no part. */
module RpcRefusals {
  import opened Base
  import opened RpcSlotPool
  import opened RpcProtocol
  import opened RpcRuns
  import T = Timer
  import TimingWheel

  // ----- the runs -----

  /** A refused request of an endpoint that is configured with this timeout. */
  ghost predicate IsRefusal(ev: Event, timeout: uint32) {
    ev.Send? && ev.call.timeout == timeout && !ev.call.inlineOk && ev.call.callback != 0
  }

  /** Refusals where the pattern says so, ticks elsewhere; entries and orders are free. */
  ghost predicate Matches(evs: seq<Event>, refusals: seq<bool>, timeout: uint32) {
    && |evs| == |refusals|
    && forall i :: 0 <= i < |evs| ==> if refusals[i] then IsRefusal(evs[i], timeout) else evs[i].Tick?
  }

  ghost predicate IsRunFrom(r: Rpc, evs: seq<Event>, refusals: seq<bool>, timeout: uint32) {
    Shape(r) && EnabledRun(r, evs) && Matches(evs, refusals, timeout)
  }

  /** All requests are refused, so no callback should ever be made. */
  ghost predicate IsRefusedRun(evs: seq<Event>, refusals: seq<bool>, timeout: uint32) {
    IsRunFrom(Initial(), evs, refusals, timeout)
  }

  function Repeat(b: bool, n: nat): (s: seq<bool>)
    ensures |s| == n && forall i :: 0 <= i < n ==> s[i] == b
  {
    seq(n, _ => b)
  }

  /** k refusals, and as many ticks as it takes for their timeouts to fire. */
  function Batch(k: nat, timeout: uint32): seq<bool> {
    Repeat(true, k) + Repeat(false, timeout % TimingWheel.WHEEL_SIZE + 1)
  }

  /** A run with the states it goes through. */
  ghost predicate IsTrace(states: seq<Rpc>, evs: seq<Event>) {
    && |states| == |evs| + 1
    && forall i :: 0 <= i < |evs| ==> Moves(states[i], evs[i], states[i + 1])
  }

  ghost predicate Moves(r: Rpc, ev: Event, r': Rpc) {
    Shape(r) && Enabled(r, ev) && r' == Step(r, ev)
  }

  lemma {:induction false} RunIsTrace(r: Rpc, evs: seq<Event>)
    requires Shape(r) && EnabledRun(r, evs)
    ensures exists states :: IsTrace(states, evs) && states[0] == r && states[|evs|] == Run(r, evs)
    decreases |evs|
  {
    if evs == [] {
      assert IsTrace([r], evs);
    } else {
      var k := |evs| - 1;
      RunIsTrace(r, evs[..k]);
      var states :| IsTrace(states, evs[..k]) && states[0] == r && states[k] == Run(r, evs[..k]);
      LastMove(r, evs);
      LongerTrace(states, evs, Run(r, evs));
    }
  }

  lemma LastMove(r: Rpc, evs: seq<Event>)
    requires Shape(r) && EnabledRun(r, evs) && evs != []
    ensures var k := |evs| - 1; EnabledRun(r, evs[..k]) && Moves(Run(r, evs[..k]), evs[k], Run(r, evs))
  {
  }

  lemma LongerTrace(states: seq<Rpc>, evs: seq<Event>, r: Rpc)
    requires evs != [] && IsTrace(states, evs[..|evs| - 1]) && Moves(states[|evs| - 1], evs[|evs| - 1], r)
    ensures IsTrace(states + [r], evs)
  {
    forall i | 0 <= i < |evs| - 1
      ensures Moves(states[i], evs[i], states[i + 1])
    {
      assert Moves(states[i], evs[..|evs| - 1][i], states[i + 1]);
    }
  }

  // ----- the states they go through -----

  ghost predicate HasOrigin(r: Rpc, n: nat) {
    exists e :: e in r.origin && r.origin[e] == n
  }

  /** Slot 0 is free, on top of the stack, after k refused requests.  The timeouts of those from m on
      are pending, all due at the same tick. */
  ghost predicate Stage(r: Rpc, m: nat, k: nat, due: nat) {
    && Shape(r) && r.pool.stack == InitialPool().stack && r.log == []
    && r.inc[0] == k && AtIncarnation(r.pool.hot[0], 0, k)
    && !r.pool.hot[0].inUse && r.pool.hot[0].completed == 0
    && (k > 0 ==> LastWasRefused(r, k))
    && PendingSince(r, m, k, due)
  }

  ghost predicate LastWasRefused(r: Rpc, k: nat)
    requires Shape(r) && k > 0
  {
    var c := r.pool.context[0];
    && r.pool.hot[0].total == 1 && c.callback != 0
    && (0, k - 1) in r.requests && r.requests[(0, k - 1)] == Request(c.callback, c.ctx, false)
  }

  ghost predicate PendingSince(r: Rpc, m: nat, k: nat, due: nat) {
    && m <= k && r.origin.Keys == r.timer.pending.Keys && |r.timer.pending| == k - m
    && (forall e: nat :: e in r.timer.pending ==>
          e in r.origin && m <= r.origin[e] < k
          && r.timer.pending[e] == T.Pending(0, r.origin[e] % 0x100, due))
    && (forall n: nat :: m <= n < k ==> HasOrigin(r, n))
  }

  lemma RefusalGivesSlotBack(r: Rpc, m: nat, k: nat, due: nat, ev: Event, timeout: uint32)
    requires Stage(r, m, k, due) && Enabled(r, ev) && IsRefusal(ev, timeout) && k - m < TimingWheel.MAX_ENTRIES
    ensures ev.call.entry.Some? && ev.call.entry.value !in r.timer.pending
    ensures var r', e := Step(r, ev), ev.call.entry.value;
            && r'.pool.stack == r.pool.stack && r'.inc[0] == k + 1 && r'.log == r.log
            && AtIncarnation(r'.pool.hot[0], 0, k + 1)
            && !r'.pool.hot[0].inUse && r'.pool.hot[0].completed == 0
            && LastWasRefused(r', k + 1)
            && r'.timer == T.Add(r.timer, e, T.Pending(0, k % 0x100, r.timer.now + timeout % TimingWheel.WHEEL_SIZE))
            && r'.origin == r.origin[e := k]
  {
    assert TopSlot(r) == 0;
    IncarnationFields(r.pool.hot[0], 0, k);
    var r' := Step(r, ev);
    assert r'.pool.stack == r.pool.stack[..MAX_SLOTS - 1] + [0];
  }

  lemma OneMorePending(r: Rpc, r': Rpc, e: nat, m: nat, k: nat, due: nat)
    requires PendingSince(r, m, k, due) && e !in r.timer.pending
    requires r'.timer == T.Add(r.timer, e, T.Pending(0, k % 0x100, due)) && r'.origin == r.origin[e := k]
    ensures PendingSince(r', m, k + 1, due)
  {
    forall n: nat | m <= n < k + 1
      ensures HasOrigin(r', n)
    {
      if n == k {
        assert r'.origin[e] == k;
      } else {
        assert HasOrigin(r, n);
        var d :| d in r.origin && r.origin[d] == n;
        assert r'.origin[d] == n;
      }
    }
  }

  lemma OneRefusal(r: Rpc, m: nat, k: nat, ev: Event, timeout: uint32, due: nat)
    requires Stage(r, m, k, due) && Enabled(r, ev) && IsRefusal(ev, timeout) && k - m < TimingWheel.MAX_ENTRIES
    requires due == r.timer.now + timeout % TimingWheel.WHEEL_SIZE
    ensures Stage(Step(r, ev), m, k + 1, due) && Step(r, ev).timer.now == r.timer.now
  {
    RefusalGivesSlotBack(r, m, k, due, ev, timeout);
    OneMorePending(r, Step(r, ev), ev.call.entry.value, m, k, due);
  }

  lemma ListedIsDue(t: T.Timer, order: seq<nat>)
    requires T.Enumerates(t, order)
    ensures order != [] ==> T.Due(t) != {}
  {
    if order != [] {
      assert order[0] in T.Due(t);
    }
  }

  lemma NothingDue(r: Rpc)
    requires T.Due(r.timer) == {}
    ensures AfterTick(r).origin == r.origin && AfterTick(r).timer.pending == r.timer.pending
  {
  }

  lemma SameOrigins(r: Rpc, r': Rpc, m: nat, k: nat)
    requires r'.origin == r.origin && forall n: nat :: m <= n < k ==> HasOrigin(r, n)
    ensures forall n: nat :: m <= n < k ==> HasOrigin(r', n)
  {
    forall n: nat | m <= n < k
      ensures HasOrigin(r', n)
    {
      assert HasOrigin(r, n);
      var e :| e in r.origin && r.origin[e] == n;
      assert e in r'.origin && r'.origin[e] == n;
    }
  }

  lemma IdleTick(r: Rpc, m: nat, k: nat, due: nat, ev: Event)
    requires Stage(r, m, k, due) && Enabled(r, ev) && ev.Tick? && r.timer.now < due
    ensures Stage(Step(r, ev), m, k, due) && Step(r, ev).timer.now == r.timer.now + 1
  {
    assert T.Due(r.timer) == {};
    ListedIsDue(r.timer, ev.order);
    assert Step(r, ev) == AfterTick(r);
    NothingDue(r);
    SameOrigins(r, AfterTick(r), m, k);
  }

  // ----- the last tick of a batch -----

  /** Once the counters of the slot are complete the handler skips it. */
  lemma {:induction false} CompleteIsSkipped(r: Rpc, expired: seq<(nat, nat)>)
    requires Shape(r) && InRange(expired) && r.pool.hot[0].IsCompleted()
    requires forall i :: 0 <= i < |expired| ==> expired[i].0 == 0
    ensures CheckTimeouts(r, expired) == r
    decreases |expired|
  {
    if expired != [] {
      CompleteIsSkipped(r, expired[1..]);
    }
  }

  /** Of many tokens for slot 0, in whatever order, at most one ends a request. */
  lemma {:induction false} OneTokenCounts(r: Rpc, expired: seq<(nat, nat)>)
    requires Shape(r) && InRange(expired) && !r.pool.hot[0].IsCompleted()
    requires forall i :: 0 <= i < |expired| ==> expired[i].0 == 0
    ensures var g := r.pool.hot[0].Generation();
            CheckTimeouts(r, expired) == if (0, g) in expired then Expire(r, 0, g) else r
    decreases |expired|
  {
    var h := r.pool.hot[0];
    if expired != [] {
      var r1 := Expire(r, 0, expired[0].1);
      if h.Accepts(expired[0].1) {
        assert r1.pool.hot[0] == Released(h.(error := 1, completed := h.total));
        CompleteIsSkipped(r1, expired[1..]);
      } else {
        OneTokenCounts(r, expired[1..]);
      }
    }
  }

  /** A callback was made for the last, refused request, and the free slot 0 is on the stack twice. */
  ghost predicate FreedTwice(r: Rpc, k: nat) {
    && Shape(r) && k > 0 && (0, k - 1) in r.requests && !r.requests[(0, k - 1)].sent
    && r.log == [Fired(0, k, r.requests[(0, k - 1)].callback, r.requests[(0, k - 1)].ctx, 1, false)]
    && |r.pool.stack| == MAX_SLOTS + 1 && r.pool.stack[MAX_SLOTS - 1] == r.pool.stack[MAX_SLOTS] == 0
    && !Inv(r)
  }

  /** One of the incarnations from m to k - 1 has a token that incarnation k accepts. */
  ghost predicate SomeAccepted(m: nat, k: nat) {
    exists n :: IsAccepted(m, k, n)
  }

  ghost predicate IsAccepted(m: nat, k: nat, n: nat) {
    m <= n < k && n % 0x100 == k % 4096
  }

  lemma TokensAreListed(r: Rpc, m: nat, k: nat, order: seq<nat>, g: nat)
    requires Stage(r, m, k, r.timer.now) && Enabled(r, Event.Tick(order))
    ensures forall i :: 0 <= i < |order| ==> Expired(r, order)[i].0 == 0
    ensures (0, g) in Expired(r, order) <==> exists n: nat :: m <= n < k && n % 0x100 == g
  {
    var expired := Expired(r, order);
    if i :| 0 <= i < |expired| && expired[i] == (0, g) {
      var n := r.origin[order[i]];
      assert m <= n < k && n % 0x100 == g;
    }
    if n: nat :| m <= n < k && n % 0x100 == g {
      assert HasOrigin(r, n);
      var e :| e in r.origin && r.origin[e] == n;
      assert e in T.Due(r.timer) && e in order;
      var i :| 0 <= i < |order| && order[i] == e;
      assert expired[i] == (0, g);
    }
  }

  lemma StaleExpiry(r: Rpc, k: nat)
    requires Stage(r, k, k, 0) && k > 0 && k % 4096 < 0x100
    ensures FreedTwice(Expire(r, 0, k % 4096), k)
  {
    IncarnationFields(r.pool.hot[0], 0, k);
    var r' := Expire(r, 0, k % 4096);
    assert r'.pool.stack[MAX_SLOTS - 1] == r'.pool.stack[MAX_SLOTS] == 0;
  }

  lemma NothingLeft(r: Rpc, m: nat, k: nat)
    requires Stage(r, m, k, r.timer.now)
    ensures Stage(AfterTick(r), k, k, 0) && AfterTick(r).timer.now == r.timer.now + 1
  {
    assert AfterTick(r).timer.pending == map[] && AfterTick(r).origin == map[];
  }

  /** All timeouts fire in one tick.  The slot is freed twice if one of their tokens is accepted, and
      otherwise nothing happens. */
  lemma LastTick(r: Rpc, m: nat, k: nat, ev: Event)
    requires Stage(r, m, k, r.timer.now) && Enabled(r, ev) && ev.Tick? && k > 0
    ensures if SomeAccepted(m, k) then FreedTwice(Step(r, ev), k)
            else Stage(Step(r, ev), k, k, 0) && Step(r, ev).timer.now == r.timer.now + 1
  {
    var mid, g := AfterTick(r), k % 4096;
    NothingLeft(r, m, k);
    IncarnationFields(r.pool.hot[0], 0, k);
    TokensAreListed(r, m, k, ev.order, g);
    OneTokenCounts(mid, Expired(r, ev.order));
    if n: nat :| m <= n < k && n % 0x100 == g {
      assert IsAccepted(m, k, n);
      StaleExpiry(mid, k);
    } else {
      assert !SomeAccepted(m, k);
    }
  }

  // ----- batches -----

  lemma RefusalOfTrace(states: seq<Rpc>, evs: seq<Event>, j: nat, m: nat, k: nat, timeout: uint32, due: nat, now: nat)
    requires IsTrace(states, evs) && j < |evs| && IsRefusal(evs[j], timeout)
    requires StageAt(states[j], m, k, due, now) && k - m < TimingWheel.MAX_ENTRIES
    requires due == now + timeout % TimingWheel.WHEEL_SIZE
    ensures StageAt(states[j + 1], m, k + 1, due, now)
  {
    assert Moves(states[j], evs[j], states[j + 1]);
    OneRefusal(states[j], m, k, evs[j], timeout, due);
  }

  lemma TickOfTrace(states: seq<Rpc>, evs: seq<Event>, j: nat, m: nat, k: nat, due: nat, now: nat)
    requires IsTrace(states, evs) && j < |evs| && evs[j].Tick?
    requires StageAt(states[j], m, k, due, now) && now < due
    ensures StageAt(states[j + 1], m, k, due, now + 1)
  {
    assert Moves(states[j], evs[j], states[j + 1]);
    IdleTick(states[j], m, k, due, evs[j]);
  }

  ghost predicate StageAt(r: Rpc, m: nat, k: nat, due: nat, now: nat) {
    Stage(r, m, k, due) && r.timer.now == now
  }

  lemma {:induction false} Along(states: seq<Rpc>, at: nat, n: nat, stage: (Rpc, nat) -> bool)
    requires at + n < |states| && stage(states[at], 0)
    requires forall i :: 0 <= i < n ==> LeadsOn(states, at, i, stage)
    ensures stage(states[at + n], n)
    decreases n
  {
    if n > 0 {
      Along(states, at, n - 1, stage);
      assert LeadsOn(states, at, n - 1, stage);
    }
  }

  ghost predicate LeadsOn(states: seq<Rpc>, at: nat, i: nat, stage: (Rpc, nat) -> bool)
    requires at + i + 1 < |states|
  {
    stage(states[at + i], i) ==> stage(states[at + i + 1], i + 1)
  }

  ghost function RefusalStages(m: nat, due: nat, now: nat): (Rpc, nat) -> bool {
    (r: Rpc, i: nat) => StageAt(r, m, m + i, due, now)
  }

  ghost function TickStages(m: nat, k: nat, due: nat, now: nat): (Rpc, nat) -> bool {
    (r: Rpc, i: nat) => StageAt(r, m, k, due, now + i)
  }

  lemma RefusalsOfTrace(states: seq<Rpc>, evs: seq<Event>, at: nat, m: nat, k: nat, timeout: uint32, due: nat, now: nat)
    requires IsTrace(states, evs) && at + k <= |evs| && k <= TimingWheel.MAX_ENTRIES
    requires forall j :: at <= j < at + k ==> IsRefusal(evs[j], timeout)
    requires due == now + timeout % TimingWheel.WHEEL_SIZE
    ensures RefusalStages(m, due, now)(states[at], 0) ==> RefusalStages(m, due, now)(states[at + k], k)
  {
    var stage := RefusalStages(m, due, now);
    forall i | 0 <= i < k
      ensures LeadsOn(states, at, i, stage)
    {
      if stage(states[at + i], i) {
        RefusalOfTrace(states, evs, at + i, m, m + i, timeout, due, now);
      }
    }
    if stage(states[at], 0) {
      Along(states, at, k, stage);
    }
  }

  lemma TicksOfTrace(states: seq<Rpc>, evs: seq<Event>, at: nat, m: nat, k: nat, n: nat, due: nat, now: nat)
    requires IsTrace(states, evs) && at + n <= |evs| && (forall j :: at <= j < at + n ==> evs[j].Tick?)
    requires now + n <= due
    ensures TickStages(m, k, due, now)(states[at], 0) ==> TickStages(m, k, due, now)(states[at + n], n)
  {
    var stage := TickStages(m, k, due, now);
    forall i | 0 <= i < n
      ensures LeadsOn(states, at, i, stage)
    {
      if stage(states[at + i], i) {
        TickOfTrace(states, evs, at + i, m, k, due, now + i);
      }
    }
    if stage(states[at], 0) {
      Along(states, at, n, stage);
    }
  }

  /** A batch of k refusals that starts with slot 0 at incarnation m and nothing pending: before its
      last tick all its timeouts are due. */
  lemma BatchFallsDue(states: seq<Rpc>, evs: seq<Event>, at: nat, m: nat, k: nat, now: nat, timeout: uint32)
    requires IsTrace(states, evs) && 0 < k <= TimingWheel.MAX_ENTRIES
    requires IsBatch(evs, at, k, timeout) && StageAt(states[at], m, m, 0, now)
    ensures var d := timeout % TimingWheel.WHEEL_SIZE; StageAt(states[at + k + d], m, m + k, now + d, now + d)
  {
    var d := timeout % TimingWheel.WHEEL_SIZE;
    EmptyStage(states[at], m, now, now + d);
    RefusalsReach(states, evs, at, m, k, timeout, now + d, now);
    TicksReach(states, evs, at + k, m, m + k, d, now + d, now);
  }

  /** At its last tick the slot is freed twice if incarnation m + k accepts one of its tokens, and
      otherwise the slot is ready for the next batch. */
  lemma BatchOfTrace(states: seq<Rpc>, evs: seq<Event>, at: nat, m: nat, k: nat, now: nat, timeout: uint32)
    requires IsTrace(states, evs) && 0 < k <= TimingWheel.MAX_ENTRIES
    requires IsBatch(evs, at, k, timeout) && StageAt(states[at], m, m, 0, now)
    ensures var end := at + k + timeout % TimingWheel.WHEEL_SIZE;
            if SomeAccepted(m, m + k) then FreedTwice(states[end + 1], m + k)
            else StageAt(states[end + 1], m + k, m + k, 0, now + timeout % TimingWheel.WHEEL_SIZE + 1)
  {
    var d := timeout % TimingWheel.WHEEL_SIZE;
    BatchFallsDue(states, evs, at, m, k, now, timeout);
    LastTickOfTrace(states, evs, at + k + d, m, m + k, now + d);
  }

  lemma EmptyStage(r: Rpc, m: nat, now: nat, due: nat)
    requires StageAt(r, m, m, 0, now)
    ensures StageAt(r, m, m, due, now)
  {
  }

  lemma RefusalsReach(states: seq<Rpc>, evs: seq<Event>, at: nat, m: nat, k: nat, timeout: uint32, due: nat, now: nat)
    requires IsTrace(states, evs) && at + k <= |evs| && k <= TimingWheel.MAX_ENTRIES
    requires forall j :: at <= j < at + k ==> IsRefusal(evs[j], timeout)
    requires due == now + timeout % TimingWheel.WHEEL_SIZE && StageAt(states[at], m, m, due, now)
    ensures StageAt(states[at + k], m, m + k, due, now)
  {
    RefusalsOfTrace(states, evs, at, m, k, timeout, due, now);
  }

  lemma TicksReach(states: seq<Rpc>, evs: seq<Event>, at: nat, m: nat, k: nat, n: nat, due: nat, now: nat)
    requires IsTrace(states, evs) && at + n <= |evs| && (forall j :: at <= j < at + n ==> evs[j].Tick?)
    requires now + n <= due && StageAt(states[at], m, k, due, now)
    ensures StageAt(states[at + n], m, k, due, now + n)
  {
    TicksOfTrace(states, evs, at, m, k, n, due, now);
  }

  ghost predicate IsBatch(evs: seq<Event>, at: nat, k: nat, timeout: uint32) {
    var d := timeout % TimingWheel.WHEEL_SIZE;
    && at + k + d < |evs| && (forall j :: at <= j < at + k ==> IsRefusal(evs[j], timeout))
    && (forall j :: at + k <= j <= at + k + d ==> evs[j].Tick?)
  }

  lemma LastTickOfTrace(states: seq<Rpc>, evs: seq<Event>, j: nat, m: nat, k: nat, due: nat)
    requires IsTrace(states, evs) && j < |evs| && evs[j].Tick? && k > 0 && StageAt(states[j], m, k, due, due)
    ensures if SomeAccepted(m, k) then FreedTwice(states[j + 1], k) else StageAt(states[j + 1], k, k, 0, due + 1)
  {
    assert Moves(states[j], evs[j], states[j + 1]);
    LastTick(states[j], m, k, evs[j]);
  }

  // ----- runs of one batch and of two -----

  lemma InitialStage()
    ensures StageAt(Initial(), 0, 0, 0, 0)
  {
  }

  lemma MatchesBatch(evs: seq<Event>, refusals: seq<bool>, at: nat, k: nat, timeout: uint32)
    requires Matches(evs, refusals, timeout)
    requires at + |Batch(k, timeout)| <= |refusals| && refusals[at..at + |Batch(k, timeout)|] == Batch(k, timeout)
    ensures IsBatch(evs, at, k, timeout)
  {
    var batch := Batch(k, timeout);
    assert forall i :: 0 <= i < |batch| ==> refusals[at + i] == refusals[at..at + |batch|][i] == batch[i];
    forall j | at <= j < at + k
      ensures IsRefusal(evs[j], timeout)
    {
      assert batch[j - at];
    }
    forall j | at + k <= j < at + |batch|
      ensures evs[j].Tick?
    {
      assert !batch[j - at];
    }
  }

  lemma OneBatch(states: seq<Rpc>, evs: seq<Event>, k: nat, timeout: uint32)
    requires IsTrace(states, evs) && states[0] == Initial() && Matches(evs, Batch(k, timeout), timeout)
    requires 0 < k <= TimingWheel.MAX_ENTRIES && SomeAccepted(0, k)
    ensures FreedTwice(states[|evs|], k)
  {
    InitialStage();
    assert Batch(k, timeout)[0..|Batch(k, timeout)|] == Batch(k, timeout);
    MatchesBatch(evs, Batch(k, timeout), 0, k, timeout);
    BatchOfTrace(states, evs, 0, 0, k, 0, timeout);
  }

  lemma TwoBatches(states: seq<Rpc>, evs: seq<Event>, k: nat, l: nat, timeout: uint32)
    requires IsTrace(states, evs) && states[0] == Initial()
    requires Matches(evs, Batch(k, timeout) + Batch(l, timeout), timeout)
    requires 0 < k <= TimingWheel.MAX_ENTRIES && 0 < l <= TimingWheel.MAX_ENTRIES
    requires !SomeAccepted(0, k) && SomeAccepted(k, k + l)
    ensures FreedTwice(states[|evs|], k + l)
  {
    BothMatch(evs, k, l, timeout);
    var at := |Batch(k, timeout)|;
    FirstBatch(states, evs, k, timeout);
    SecondBatch(states, evs, at, k, l, at - k, timeout);
  }

  lemma TwoBatchesFallDue(states: seq<Rpc>, evs: seq<Event>, k: nat, l: nat, timeout: uint32)
    requires IsTrace(states, evs) && states[0] == Initial()
    requires Matches(evs, Batch(k, timeout) + Batch(l, timeout), timeout)
    requires 0 < k <= TimingWheel.MAX_ENTRIES && 0 < l <= TimingWheel.MAX_ENTRIES && !SomeAccepted(0, k)
    ensures Stage(states[|evs| - 1], k, k + l, states[|evs| - 1].timer.now)
  {
    BothMatch(evs, k, l, timeout);
    var at := |Batch(k, timeout)|;
    FirstBatch(states, evs, k, timeout);
    BatchFallsDue(states, evs, at, k, l, at - k, timeout);
  }

  lemma BothMatch(evs: seq<Event>, k: nat, l: nat, timeout: uint32)
    requires Matches(evs, Batch(k, timeout) + Batch(l, timeout), timeout)
    ensures IsBatch(evs, 0, k, timeout) && IsBatch(evs, |Batch(k, timeout)|, l, timeout)
    ensures |evs| == |Batch(k, timeout)| + |Batch(l, timeout)|
  {
    var both, at := Batch(k, timeout) + Batch(l, timeout), |Batch(k, timeout)|;
    assert both[0..0 + at] == Batch(k, timeout) && both[at..at + |Batch(l, timeout)|] == Batch(l, timeout);
    MatchesBatch(evs, both, 0, k, timeout);
    MatchesBatch(evs, both, at, l, timeout);
  }

  lemma FirstBatch(states: seq<Rpc>, evs: seq<Event>, k: nat, timeout: uint32)
    requires IsTrace(states, evs) && states[0] == Initial() && IsBatch(evs, 0, k, timeout)
    requires 0 < k <= TimingWheel.MAX_ENTRIES && !SomeAccepted(0, k)
    ensures var at := |Batch(k, timeout)|; StageAt(states[at], k, k, 0, at - k)
  {
    InitialStage();
    BatchOfTrace(states, evs, 0, 0, k, 0, timeout);
  }

  lemma SecondBatch(states: seq<Rpc>, evs: seq<Event>, at: nat, k: nat, l: nat, now: nat, timeout: uint32)
    requires IsTrace(states, evs) && 0 < l <= TimingWheel.MAX_ENTRIES && SomeAccepted(k, k + l)
    requires IsBatch(evs, at, l, timeout) && StageAt(states[at], k, k, 0, now) && |evs| == at + |Batch(l, timeout)|
    ensures FreedTwice(states[|evs|], k + l)
  {
    BatchOfTrace(states, evs, at, k, l, now, timeout);
  }
}
