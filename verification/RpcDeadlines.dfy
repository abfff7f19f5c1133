/** By when a request is over, and when it never is. */
module RpcDeadlines {
  import opened Base
  import opened RpcSlotPool
  import opened RpcProtocol
  import opened RpcRuns
  import T = Timer
  import TimingWheel

  // ----- bounded completion -----

  function Ticks(evs: seq<Event>): nat
    decreases |evs|
  {
    if evs == [] then 0
    else Ticks(evs[..|evs| - 1]) + if evs[|evs| - 1].Tick? then 1 else 0
  }

  /** The request of incarnation `n` of slot `s` is over: its slot was freed, and its callback made. */
  ghost predicate Over(r: Rpc, s: nat, n: nat, c: Context)
    requires Shape(r) && s < MAX_SLOTS
  {
    && r.inc[s] > n
    && (c.callback != 0 ==>
          exists i :: 0 <= i < |r.log| && r.log[i].slot == s && r.log[i].inc == n
                      && r.log[i].callback == c.callback && r.log[i].ctx == c.ctx)
  }

  /** The request still has its slot, and more completions to come. */
  ghost predicate HoldsSlot(r: Rpc, s: nat, n: nat, c: Context)
    requires Shape(r) && s < MAX_SLOTS
  {
    var h := r.pool.hot[s];
    && r.inc[s] == n && AtIncarnation(h, s, n) && h.inUse && h.completed < h.total <= 2
    && s !in r.pool.stack && r.pool.context[s] == c
  }

  /** It is over, or it has its slot and the wheel its token. */
  ghost predicate Awaited(r: Rpc, s: nat, n: nat, c: Context, e: nat, due: nat)
    requires Shape(r) && s < MAX_SLOTS
  {
    || Over(r, s, n, c)
    || (&& HoldsSlot(r, s, n, c) && r.timer.now <= due
        && e in r.timer.pending && r.timer.pending[e] == T.Pending(s, n % 0x100, due))
  }

  lemma OverIsForGood(r: Rpc, r': Rpc, s: nat, n: nat, c: Context)
    requires Shape(r) && Shape(r') && s < MAX_SLOTS && Over(r, s, n, c)
    requires r'.inc[s] >= r.inc[s] && r.log <= r'.log
    ensures Over(r', s, n, c)
  {
    if c.callback != 0 {
      var i :| 0 <= i < |r.log| && r.log[i].slot == s && r.log[i].inc == n
               && r.log[i].callback == c.callback && r.log[i].ctx == c.ctx;
      assert r'.log[i] == r.log[i];
    }
  }

  /** Whatever request a token was issued for, ending the one on slot `q` ends this one or leaves it be. */
  lemma RetireKeepsWait(r: Rpc, q: nat, h: Hot, status: uint8, s: nat, n: nat, c: Context)
    requires Shape(r) && q < MAX_SLOTS && s < MAX_SLOTS && (Over(r, s, n, c) || HoldsSlot(r, s, n, c))
    ensures var r' := Retire(r, q, h, status);
            && (Over(r', s, n, c) || (q != s && HoldsSlot(r', s, n, c))) && r'.timer == r.timer
  {
    var r' := Retire(r, q, h, status);
    if Over(r, s, n, c) {
      OverIsForGood(r, r', s, n, c);
    } else if q == s && c.callback != 0 {
      assert r'.log[|r.log|] == Fired(s, n, c.callback, c.ctx, status, h.inUse);
    }
  }

  lemma DeliverKeepsWait(r: Rpc, q: nat, gen: uint8, s: nat, n: nat, c: Context)
    requires Shape(r) && q < MAX_SLOTS && s < MAX_SLOTS && (Over(r, s, n, c) || HoldsSlot(r, s, n, c))
    ensures var r' := RpcProtocol.Deliver(r, q, gen);
            && (Over(r', s, n, c) || HoldsSlot(r', s, n, c)) && r'.timer == r.timer
  {
    var h := r.pool.hot[q];
    if h.Accepts(gen) {
      if h.MarkCompleted().IsCompleted() {
        RetireKeepsWait(r, q, h.MarkCompleted(), h.error, s, n, c);
      } else if Over(r, s, n, c) {
        OverIsForGood(r, RpcProtocol.Deliver(r, q, gen), s, n, c);
      }
    }
  }

  lemma ExpireKeepsWait(r: Rpc, q: nat, gen: uint8, s: nat, n: nat, c: Context)
    requires Shape(r) && q < MAX_SLOTS && s < MAX_SLOTS && (Over(r, s, n, c) || HoldsSlot(r, s, n, c))
    ensures var r' := Expire(r, q, gen);
            && (Over(r', s, n, c) || HoldsSlot(r', s, n, c)) && r'.timer == r.timer
            && (q == s && gen == n % 0x100 && n % 4096 < 0x100 ==> Over(r', s, n, c))
  {
    var h := r.pool.hot[q];
    if h.Accepts(gen) && !h.IsCompleted() {
      RetireKeepsWait(r, q, h.(error := 1, completed := h.total), 1, s, n, c);
    } else if HoldsSlot(r, s, n, c) {
      IncarnationFields(r.pool.hot[s], s, n);
    }
  }

  /** The handler ends every request it meets a current token of. */
  lemma {:induction false} CheckTimeoutsKeepsWait(r: Rpc, expired: seq<(nat, nat)>, s: nat, n: nat, c: Context)
    requires Shape(r) && InRange(expired) && s < MAX_SLOTS && (Over(r, s, n, c) || HoldsSlot(r, s, n, c))
    ensures var r' := CheckTimeouts(r, expired);
            && (Over(r', s, n, c) || HoldsSlot(r', s, n, c)) && r'.timer == r.timer
            && (Over(r, s, n, c) || ((s, n % 0x100) in expired && n % 4096 < 0x100) ==> Over(r', s, n, c))
    decreases |expired|
  {
    if expired != [] {
      var r1 := Expire(r, expired[0].0, expired[0].1);
      ExpireKeepsWait(r, expired[0].0, expired[0].1, s, n, c);
      if Over(r, s, n, c) {
        OverIsForGood(r, r1, s, n, c);
      }
      CheckTimeoutsKeepsWait(r1, expired[1..], s, n, c);
    }
  }

  /** A new request waits for the time it was given.  Nothing is asked of the other slots. */
  lemma SendStartsWait(r: Rpc, c: Call)
    requires Shape(r) && CleanTop(r) && c.inlineOk && c.entry.Some? && Enabled(r, Event.Send(c))
    ensures var s := TopSlot(r);
            Awaited(RpcProtocol.Send(r, c), s, r.inc[s], Context(c.callback, c.ctx),
                    c.entry.value, r.timer.now + c.timeout % TimingWheel.WHEEL_SIZE)
  {
    var s := TopSlot(r);
    IncarnationFields(r.pool.hot[s], s, r.inc[s]);
    assert Begin(r, c).pool.stack == r.pool.stack[..|r.pool.stack| - 1];
  }

  /** The slot that is taken next is on the stack once, and its word shows its own incarnation. */
  ghost predicate CleanTop(r: Rpc)
    requires Shape(r)
  {
    && r.pool.stack != [] && TopSlot(r) !in r.pool.stack[..|r.pool.stack| - 1]
    && AtIncarnation(r.pool.hot[TopSlot(r)], TopSlot(r), r.inc[TopSlot(r)])
  }

  lemma PostKeepsWait(r: Rpc, q: nat, inlineOk: bool, hasData: bool, s: nat, n: nat, c: Context)
    requires Shape(r) && q < MAX_SLOTS && (q, r.inc[q]) in r.requests
    requires s < MAX_SLOTS && (Over(r, s, n, c) || (q != s && HoldsSlot(r, s, n, c)))
    ensures var r' := Post(r, q, inlineOk, hasData);
            && (Over(r', s, n, c) || HoldsSlot(r', s, n, c)) && r'.timer == r.timer
  {
    if Over(r, s, n, c) {
      OverIsForGood(r, Post(r, q, inlineOk, hasData), s, n, c);
    }
  }

  lemma SendKeepsWait(r: Rpc, call: Call, s: nat, n: nat, c: Context, e: nat, due: nat)
    requires Shape(r) && s < MAX_SLOTS && Awaited(r, s, n, c, e, due) && Enabled(r, Event.Send(call))
    ensures Awaited(RpcProtocol.Send(r, call), s, n, c, e, due)
    ensures RpcProtocol.Send(r, call).timer.now == r.timer.now
  {
    if r.pool.stack != [] {
      var top := TopSlot(r);
      assert top in r.pool.stack;
      var r1 := WithTimeout(Begin(r, call), top, call.entry, call.timeout);
      if Over(r, s, n, c) {
        OverIsForGood(r, r1, s, n, c);
      } else {
        assert HoldsSlot(r1, s, n, c);
      }
      PostKeepsWait(r1, top, call.inlineOk, call.hasData, s, n, c);
    }
  }

  lemma TickKeepsWait(r: Rpc, order: seq<nat>, s: nat, n: nat, c: Context, e: nat, due: nat)
    requires Shape(r) && s < MAX_SLOTS && n % 4096 < 0x100 && Awaited(r, s, n, c, e, due) && Enabled(r, Tick(order))
    ensures Awaited(Step(r, Tick(order)), s, n, c, e, due)
    ensures Step(r, Tick(order)).timer.now == r.timer.now + 1
  {
    var expired := Expired(r, order);
    CheckTimeoutsKeepsWait(AfterTick(r), expired, s, n, c);
    if !Over(r, s, n, c) && due == r.timer.now {
      assert e in T.Due(r.timer) && e in order;
      var i :| 0 <= i < |order| && order[i] == e;
      assert expired[i] == (s, n % 0x100);
    }
  }

  /** Every event keeps this, whatever tokens it brings. */
  lemma StepKeepsWait(r: Rpc, ev: Event, s: nat, n: nat, c: Context, e: nat, due: nat)
    requires Shape(r) && s < MAX_SLOTS && n % 4096 < 0x100 && Awaited(r, s, n, c, e, due) && Enabled(r, ev)
    ensures Awaited(Step(r, ev), s, n, c, e, due)
    ensures Step(r, ev).timer.now == r.timer.now + if ev.Tick? then 1 else 0
  {
    match ev
    case Send(call) => SendKeepsWait(r, call, s, n, c, e, due);
    case Deliver(q, m) => DeliverKeepsWait(r, q, m % 0x100, s, n, c);
    case Tick(order) => TickKeepsWait(r, order, s, n, c, e, due);
  }

  lemma {:induction false} RunKeepsWait(r: Rpc, evs: seq<Event>, s: nat, n: nat, c: Context, e: nat, due: nat)
    requires Shape(r) && s < MAX_SLOTS && n % 4096 < 0x100 && Awaited(r, s, n, c, e, due) && EnabledRun(r, evs)
    ensures Awaited(Run(r, evs), s, n, c, e, due)
    ensures Run(r, evs).timer.now == r.timer.now + Ticks(evs)
    decreases |evs|
  {
    if evs != [] {
      var k := |evs| - 1;
      RunKeepsWait(r, evs[..k], s, n, c, e, due);
      StepKeepsWait(Run(r, evs[..k]), evs[k], s, n, c, e, due);
    }
  }

  /** Bounded completion.  A request whose timeout got a wheel entry, on a slot whose generation
      is below 256, has been called back and its slot freed by the end of the
      (timeout mod 1024 + 1)-th later tick, whatever completions arrive in between, stale or not. */
  lemma CompletesInTime(r: Rpc, c: Call, evs: seq<Event>)
    requires Shape(r) && CleanTop(r) && c.inlineOk && c.entry.Some? && Enabled(r, Event.Send(c))
    requires r.inc[TopSlot(r)] % 4096 < 0x100
    requires EnabledRun(RpcProtocol.Send(r, c), evs) && Ticks(evs) > c.timeout % 1024
    ensures Over(Run(RpcProtocol.Send(r, c), evs), TopSlot(r), r.inc[TopSlot(r)], Context(c.callback, c.ctx))
  {
    SendStartsWait(r, c);
    RunKeepsWait(RpcProtocol.Send(r, c), evs, TopSlot(r), r.inc[TopSlot(r)], Context(c.callback, c.ctx),
                 c.entry.value, r.timer.now + c.timeout % 1024);
  }

  /** That can be said of every state the protocol invariant describes. */
  lemma InvHasCleanTop(r: Rpc)
    requires Inv(r) && r.pool.stack != []
    ensures CleanTop(r)
  {
    assert TopSlot(r) in r.pool.stack && SlotInv(r, TopSlot(r));
  }

  ghost predicate Numbered(r: Rpc)
    requires Shape(r)
  {
    forall s :: 0 <= s < MAX_SLOTS ==> AtIncarnation(r.pool.hot[s], s, r.inc[s])
  }

  lemma RetireKeepsNumbers(r: Rpc, s: nat, h: Hot, status: uint8)
    requires Shape(r) && s < MAX_SLOTS && Numbered(r) && h.packed == r.pool.hot[s].packed
    ensures Numbered(Retire(r, s, h, status)) && Numbered(WithHot(r, s, h))
  {
    IncarnationFields(h, s, r.inc[s]);
    assert Retire(r, s, h, status).pool.hot == r.pool.hot[s := Released(h)];
    assert Retire(r, s, h, status).inc == r.inc[s := r.inc[s] + 1];
  }

  lemma ExpireKeepsNumbers(r: Rpc, s: nat, gen: uint8)
    requires Shape(r) && s < MAX_SLOTS && Numbered(r)
    ensures Numbered(Expire(r, s, gen)) && Numbered(RpcProtocol.Deliver(r, s, gen))
  {
    var h := r.pool.hot[s];
    RetireKeepsNumbers(r, s, h.(error := 1, completed := h.total), 1);
    RetireKeepsNumbers(r, s, h.MarkCompleted(), h.error);
  }

  lemma {:induction false} CheckTimeoutsKeepsNumbers(r: Rpc, expired: seq<(nat, nat)>)
    requires Shape(r) && InRange(expired) && Numbered(r)
    ensures Numbered(CheckTimeouts(r, expired))
    decreases |expired|
  {
    if expired != [] {
      ExpireKeepsNumbers(r, expired[0].0, expired[0].1);
      CheckTimeoutsKeepsNumbers(Expire(r, expired[0].0, expired[0].1), expired[1..]);
    }
  }

  lemma SendKeepsNumbers(r: Rpc, c: Call)
    requires Shape(r) && Numbered(r)
    ensures Numbered(RpcProtocol.Send(r, c))
  {
    if r.pool.stack != [] {
      IncarnationFields(r.pool.hot[TopSlot(r)], TopSlot(r), r.inc[TopSlot(r)]);
    }
  }

  lemma {:induction false} RunsKeepNumbers(r: Rpc, evs: seq<Event>)
    requires Shape(r) && Numbered(r) && EnabledRun(r, evs)
    ensures Numbered(Run(r, evs))
    decreases |evs|
  {
    if evs != [] {
      var k := |evs| - 1;
      RunsKeepNumbers(r, evs[..k]);
      var mid := Run(r, evs[..k]);
      match evs[k]
      case Send(c) => SendKeepsNumbers(mid, c);
      case Deliver(s, n) => ExpireKeepsNumbers(mid, s, n % 0x100);
      case Tick(order) => CheckTimeoutsKeepsNumbers(AfterTick(mid), Expired(mid, order));
    }
  }

  lemma InitialIsNumbered()
    ensures Numbered(Initial())
  {
  }

  /** And of every state of any run at all, stale tokens accepted or not, in which the top slot is not
      on the stack a second time. */
  lemma RunsHaveCleanTop(evs: seq<Event>)
    requires EnabledRun(Initial(), evs)
    ensures var r := Run(Initial(), evs);
            r.pool.stack != [] && TopSlot(r) !in r.pool.stack[..|r.pool.stack| - 1] ==> CleanTop(r)
  {
    InitialIsNumbered();
    RunsKeepNumbers(Initial(), evs);
    var r := Run(Initial(), evs);
    if r.pool.stack != [] {
      assert AtIncarnation(r.pool.hot[TopSlot(r)], TopSlot(r), r.inc[TopSlot(r)]);
    }
  }

  // ----- slots that are lost -----

  /** A slot in use whose 12-bit generation no 8-bit token can equal. */
  ghost predicate Lost(r: Rpc, s: nat)
    requires Shape(r)
  {
    s < MAX_SLOTS && r.pool.hot[s].inUse && r.pool.hot[s].Generation() >= 0x100 && s !in r.pool.stack
  }

  /** Nothing about slot `s` differs, and no callback was made for it in between. */
  ghost predicate Untouched(r: Rpc, r': Rpc, s: nat)
    requires Shape(r) && Shape(r') && s < MAX_SLOTS
  {
    && r'.pool.hot[s] == r.pool.hot[s] && r'.inc[s] == r.inc[s]
    && (s in r'.pool.stack <==> s in r.pool.stack)
    && |r.log| <= |r'.log| && (forall i :: |r.log| <= i < |r'.log| ==> r'.log[i].slot != s)
  }

  lemma UntouchedTwice(r: Rpc, mid: Rpc, r': Rpc, s: nat)
    requires Shape(r) && Shape(mid) && Shape(r') && s < MAX_SLOTS
    requires Untouched(r, mid, s) && Untouched(mid, r', s)
    requires forall i :: 0 <= i < |mid.log| ==> i < |r'.log| && r'.log[i] == mid.log[i]
    ensures Untouched(r, r', s)
  {
  }

  lemma ExpireMissesLost(r: Rpc, q: nat, gen: uint8, s: nat)
    requires Shape(r) && q < MAX_SLOTS && Lost(r, s)
    ensures Untouched(r, Expire(r, q, gen), s) && r.log <= Expire(r, q, gen).log
  {
  }

  lemma {:induction false} CheckTimeoutsMissesLost(r: Rpc, expired: seq<(nat, nat)>, s: nat)
    requires Shape(r) && InRange(expired) && Lost(r, s)
    ensures Untouched(r, CheckTimeouts(r, expired), s) && r.log <= CheckTimeouts(r, expired).log
    decreases |expired|
  {
    if expired != [] {
      var r1 := Expire(r, expired[0].0, expired[0].1);
      ExpireMissesLost(r, expired[0].0, expired[0].1, s);
      CheckTimeoutsMissesLost(r1, expired[1..], s);
      UntouchedTwice(r, r1, CheckTimeouts(r, expired), s);
    }
  }

  lemma SendMissesLost(r: Rpc, c: Call, s: nat)
    requires Shape(r) && Lost(r, s)
    ensures Untouched(r, RpcProtocol.Send(r, c), s) && RpcProtocol.Send(r, c).log == r.log
  {
    if r.pool.stack != [] {
      assert TopSlot(r) in r.pool.stack;
    }
  }

  lemma StepMissesLost(r: Rpc, ev: Event, s: nat)
    requires Shape(r) && Enabled(r, ev) && Lost(r, s)
    ensures Untouched(r, Step(r, ev), s) && r.log <= Step(r, ev).log
  {
    match ev
    case Send(c) => SendMissesLost(r, c, s);
    case Deliver(q, n) =>
    case Tick(order) => CheckTimeoutsMissesLost(AfterTick(r), Expired(r, order), s);
  }

  /** A lost slot stays lost in every run, fresh tokens or not: no completion, no response and no
      timeout is ever accepted for it, so its request is never called back. */
  lemma {:induction false} LostForever(r: Rpc, evs: seq<Event>, s: nat)
    requires Shape(r) && EnabledRun(r, evs) && Lost(r, s)
    ensures Untouched(r, Run(r, evs), s) && Lost(Run(r, evs), s)
    decreases |evs|
  {
    if evs != [] {
      var k := |evs| - 1;
      LostForever(r, evs[..k], s);
      StepMissesLost(Run(r, evs[..k]), evs[k], s);
      UntouchedTwice(r, Run(r, evs[..k]), Run(r, evs), s);
    }
  }

  /** A request that was sent loses its slot exactly when the slot's generation has passed 255.  Nothing
      is asked of the other slots. */
  lemma SendLosesSlotIff(r: Rpc, c: Call)
    requires Shape(r) && CleanTop(r) && c.inlineOk
    ensures Lost(RpcProtocol.Send(r, c), TopSlot(r)) <==> r.inc[TopSlot(r)] % 4096 >= 0x100
  {
    var s := TopSlot(r);
    IncarnationFields(r.pool.hot[s], s, r.inc[s]);
    assert Begin(r, c).pool.stack == r.pool.stack[..|r.pool.stack| - 1];
  }
}
