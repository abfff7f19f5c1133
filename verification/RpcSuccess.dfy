/** What a callback of status 0 is worth: every work request its RPC posted has completed. */
module RpcSuccess {
  import opened Base
  import opened RpcSlotPool
  import opened RpcProtocol
  import opened RpcRuns
  import T = Timer

  /** How many completions a run has brought for incarnation n of slot s. */
  function Deliveries(evs: seq<Event>, s: nat, n: nat): nat
    decreases |evs|
  {
    if evs == [] then 0
    else Deliveries(evs[..|evs| - 1], s, n) + if evs[|evs| - 1] == Deliver(s, n) then 1 else 0
  }

  /** How many work requests a send posts: the inline send, and the data write. */
  function Posted(c: Call): nat {
    if c.hasData then 2 else 1
  }

  /** What each request of a run has posted, by slot and incarnation. */
  ghost function Work(r: Rpc, evs: seq<Event>): map<(nat, nat), nat>
    requires Shape(r) && EnabledRun(r, evs)
    decreases |evs|
  {
    if evs == [] then map[]
    else
      var k := |evs| - 1;
      WorkAfter(Run(r, evs[..k]), Work(r, evs[..k]), evs[k])
  }

  function WorkAfter(r: Rpc, work: map<(nat, nat), nat>, ev: Event): map<(nat, nat), nat>
    requires Shape(r)
  {
    if ev.Send? && r.pool.stack != [] && ev.call.inlineOk
    then work[(TopSlot(r), r.inc[TopSlot(r)]) := Posted(ev.call)] else work
  }

  /** The counters of a slot in use: what its request posted, and no more than what has completed. */
  ghost predicate CountedSlot(r: Rpc, work: map<(nat, nat), nat>, evs: seq<Event>, s: nat)
    requires Shape(r) && s < MAX_SLOTS
  {
    var h, key := r.pool.hot[s], (s, r.inc[s]);
    h.inUse ==> key in work && work[key] == h.total && h.completed <= Deliveries(evs, s, r.inc[s])
  }

  /** A callback of status 0 was made for a request whose work has all completed. */
  ghost predicate Earned(f: Fired, work: map<(nat, nat), nat>, evs: seq<Event>) {
    f.status == 0 ==> (f.slot, f.inc) in work && work[(f.slot, f.inc)] <= Deliveries(evs, f.slot, f.inc)
  }

  ghost predicate Counted(r: Rpc, work: map<(nat, nat), nat>, evs: seq<Event>) {
    && Shape(r)
    && (forall s :: 0 <= s < MAX_SLOTS ==> CountedSlot(r, work, evs, s))
    && (forall i :: 0 <= i < |r.log| ==> Earned(r.log[i], work, evs))
  }

  lemma SendCounts(r: Rpc, work: map<(nat, nat), nat>, evs: seq<Event>, c: Call)
    requires Inv(r) && Counted(r, work, evs)
    ensures Counted(RpcProtocol.Send(r, c), WorkAfter(r, work, Event.Send(c)), evs)
  {
    if r.pool.stack != [] {
      var top, r', work' := TopSlot(r), RpcProtocol.Send(r, c), WorkAfter(r, work, Event.Send(c));
      assert top in r.pool.stack && SlotInv(r, top);
      forall s | 0 <= s < MAX_SLOTS
        ensures CountedSlot(r', work', evs, s)
      {
        assert CountedSlot(r, work, evs, s);
      }
      forall i | 0 <= i < |r'.log|
        ensures Earned(r'.log[i], work', evs)
      {
        assert FiredInv(r, r.log[i]) && Earned(r.log[i], work, evs);
      }
    }
  }

  lemma MoreDeliveries(r: Rpc, work: map<(nat, nat), nat>, evs: seq<Event>, ev: Event)
    requires Counted(r, work, evs)
    ensures Counted(r, work, evs + [ev])
  {
    assert (evs + [ev])[..|evs|] == evs;
    forall s | 0 <= s < MAX_SLOTS
      ensures CountedSlot(r, work, evs + [ev], s)
    {
      assert CountedSlot(r, work, evs, s);
    }
    forall i | 0 <= i < |r.log|
      ensures Earned(r.log[i], work, evs + [ev])
    {
      assert Earned(r.log[i], work, evs);
    }
  }

  lemma RetireCounts(r: Rpc, work: map<(nat, nat), nat>, evs: seq<Event>, s: nat, h: Hot, status: uint8)
    requires Counted(r, work, evs) && s < MAX_SLOTS
    requires status == 0 ==> (s, r.inc[s]) in work && work[(s, r.inc[s])] <= Deliveries(evs, s, r.inc[s])
    ensures Counted(Retire(r, s, h, status), work, evs)
  {
    var r' := Retire(r, s, h, status);
    forall q | 0 <= q < MAX_SLOTS
      ensures CountedSlot(r', work, evs, q)
    {
      assert CountedSlot(r, work, evs, q);
    }
    forall i | 0 <= i < |r'.log|
      ensures Earned(r'.log[i], work, evs)
    {
      assert i < |r.log| ==> Earned(r.log[i], work, evs);
    }
  }

  lemma DeliverCounts(r: Rpc, work: map<(nat, nat), nat>, evs: seq<Event>, s: nat, n: nat)
    requires Inv(r) && Counted(r, work, evs) && s < MAX_SLOTS && (s, n) in r.requests && Holds(OwnOnly, r, s, n)
    ensures Counted(RpcProtocol.Deliver(r, s, n % 0x100), work, evs + [Deliver(s, n)])
  {
    var h, more := r.pool.hot[s], evs + [Deliver(s, n)];
    MoreDeliveries(r, work, evs, Deliver(s, n));
    if h.Accepts(n % 0x100) {
      assert more[..|evs|] == evs;
      assert SlotInv(r, s) && RequestInv(r, s, n) && CountedSlot(r, work, evs, s);
      assert h.inUse && h.completed + 1 <= Deliveries(more, s, n);
      if h.MarkCompleted().IsCompleted() {
        RetireCounts(r, work, more, s, h.MarkCompleted(), h.error);
      } else {
        var r' := WithHot(r, s, h.MarkCompleted());
        forall q | 0 <= q < MAX_SLOTS
          ensures CountedSlot(r', work, more, q)
        {
          assert CountedSlot(r, work, more, q);
        }
      }
    }
  }

  lemma {:induction false} CheckTimeoutsCounts(r: Rpc, work: map<(nat, nat), nat>, evs: seq<Event>, expired: seq<(nat, nat)>)
    requires Counted(r, work, evs) && InRange(expired)
    ensures Counted(CheckTimeouts(r, expired), work, evs)
    decreases |expired|
  {
    if expired != [] {
      var s, gen := expired[0].0, expired[0].1;
      var h := r.pool.hot[s];
      if h.Accepts(gen) && !h.IsCompleted() {
        RetireCounts(r, work, evs, s, h.(error := 1, completed := h.total), 1);
      }
      CheckTimeoutsCounts(Expire(r, s, gen), work, evs, expired[1..]);
    }
  }

  lemma AfterTickCounts(r: Rpc, work: map<(nat, nat), nat>, evs: seq<Event>)
    requires Counted(r, work, evs)
    ensures Counted(AfterTick(r), work, evs)
  {
    forall s | 0 <= s < MAX_SLOTS
      ensures CountedSlot(AfterTick(r), work, evs, s)
    {
      assert CountedSlot(r, work, evs, s);
    }
  }

  lemma StepCounts(r: Rpc, work: map<(nat, nat), nat>, evs: seq<Event>, ev: Event)
    requires Inv(r) && Counted(r, work, evs) && Enabled(r, ev) && Always(OwnOnly, r, ev)
    ensures Counted(Step(r, ev), WorkAfter(r, work, ev), evs + [ev])
  {
    match ev
    case Send(c) =>
      SendCounts(r, work, evs, c);
      MoreDeliveries(RpcProtocol.Send(r, c), WorkAfter(r, work, ev), evs, ev);
    case Deliver(s, n) => DeliverCounts(r, work, evs, s, n);
    case Tick(order) =>
      MoreDeliveries(r, work, evs, ev);
      AfterTickCounts(r, work, evs + [ev]);
      CheckTimeoutsCounts(AfterTick(r), work, evs + [ev], Expired(r, order));
  }

  lemma InitialCounts()
    ensures Counted(Initial(), map[], [])
  {
  }

  lemma {:induction false} CountedFrom(r: Rpc, evs: seq<Event>)
    requires Inv(r) && Counted(r, map[], []) && EnabledRun(r, evs) && AlwaysInRun(OwnOnly, r, evs)
    ensures Counted(Run(r, evs), Work(r, evs), evs)
    decreases |evs|
  {
    if evs != [] {
      var front, ev := evs[..|evs| - 1], evs[|evs| - 1];
      CountedFrom(r, front);
      RunKeepsInv(r, front);
      LastEvent(r, evs);
      NextCounts(Run(r, front), Work(r, front), front, ev, Run(r, evs), Work(r, evs), evs);
    }
  }

  /** The last event of a run, with what it leads from and to. */
  lemma LastEvent(r: Rpc, evs: seq<Event>)
    requires Shape(r) && EnabledRun(r, evs) && AlwaysInRun(OwnOnly, r, evs) && evs != []
    ensures var front, ev := evs[..|evs| - 1], evs[|evs| - 1];
            && EnabledRun(r, front) && AlwaysInRun(OwnOnly, r, front)
            && Leads(Run(r, front), Work(r, front), ev, Run(r, evs), Work(r, evs))
  {
  }

  ghost predicate Leads(r: Rpc, work: map<(nat, nat), nat>, ev: Event, r': Rpc, work': map<(nat, nat), nat>) {
    && Shape(r) && Enabled(r, ev) && Always(OwnOnly, r, ev)
    && r' == Step(r, ev) && work' == WorkAfter(r, work, ev)
  }

  lemma NextCounts(r: Rpc, work: map<(nat, nat), nat>, front: seq<Event>, ev: Event,
                   r': Rpc, work': map<(nat, nat), nat>, evs: seq<Event>)
    requires Inv(r) && Counted(r, work, front) && Leads(r, work, ev, r', work')
    requires evs != [] && front == evs[..|evs| - 1] && ev == evs[|evs| - 1]
    ensures Counted(r', work', evs)
  {
    StepCounts(r, work, front, ev);
    assert front + [ev] == evs;
  }

  /** Every such run keeps the protocol invariant. */
  lemma {:induction false} RunKeepsInv(r: Rpc, evs: seq<Event>)
    requires Inv(r) && EnabledRun(r, evs) && AlwaysInRun(OwnOnly, r, evs)
    ensures Inv(Run(r, evs))
    decreases |evs|
  {
    if evs != [] {
      var k := |evs| - 1;
      RunKeepsInv(r, evs[..k]);
      StepKeepsInv(Run(r, evs[..k]), evs[k]);
    }
  }

  /** In every run in which a token is accepted only by the incarnation it was issued for, a callback of
      status 0 comes after at least as many completions for its request as the request posted work. */
  lemma SuccessIsEarned(evs: seq<Event>)
    requires EnabledRun(Initial(), evs) && AlwaysInRun(OwnOnly, Initial(), evs)
    ensures var log := Run(Initial(), evs).log;
            forall i :: 0 <= i < |log| ==> Earned(log[i], Work(Initial(), evs), evs)
  {
    InitialInv();
    InitialCounts();
    CountedFrom(Initial(), evs);
  }
}
