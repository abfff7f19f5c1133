/** When a failure is reported: at the tick its request's timeout asked for, never before or after. */
module RpcTiming {
  import opened Base
  import opened RpcSlotPool
  import opened RpcProtocol
  import opened RpcRuns
  import opened RpcDeadlines
  import opened RpcSuccess
  import opened RpcStale
  import T = Timer

  /** The tick at which each request that got a wheel entry is due, counted in ticks of the run. */
  ghost function Dues(r: Rpc, evs: seq<Event>): map<(nat, nat), nat>
    requires Shape(r) && EnabledRun(r, evs)
    decreases |evs|
  {
    if evs == [] then map[]
    else
      var k := |evs| - 1;
      DuesAfter(Run(r, evs[..k]), Dues(r, evs[..k]), Ticks(evs[..k]), evs[k])
  }

  function DuesAfter(r: Rpc, dues: map<(nat, nat), nat>, ticks: nat, ev: Event): map<(nat, nat), nat>
    requires Shape(r)
  {
    if ev.Send? && r.pool.stack != [] && ev.call.entry.Some?
    then dues[(TopSlot(r), r.inc[TopSlot(r)]) := ticks + ev.call.timeout % 1024] else dues
  }

  /** A pending wheel entry stands for its own request's timeout. */
  ghost predicate TimedEntry(r: Rpc, dues: map<(nat, nat), nat>, e: nat)
    requires e in r.timer.pending && e in r.origin
  {
    var key := (r.timer.pending[e].slot, r.origin[e]);
    key in dues && dues[key] == r.timer.pending[e].due
  }

  ghost predicate Timed(r: Rpc, dues: map<(nat, nat), nat>, ticks: nat) {
    && r.timer.now == ticks && r.origin.Keys == r.timer.pending.Keys
    && forall e <- r.timer.pending :: TimedEntry(r, dues, e)
  }

  lemma SameWheelIsTimed(r: Rpc, r': Rpc, dues: map<(nat, nat), nat>, ticks: nat)
    requires Timed(r, dues, ticks) && r'.timer == r.timer && r'.origin == r.origin
    ensures Timed(r', dues, ticks)
  {
    forall e <- r'.timer.pending
      ensures TimedEntry(r', dues, e)
    {
      assert TimedEntry(r, dues, e);
    }
  }

  lemma AfterTickIsTimed(r: Rpc, dues: map<(nat, nat), nat>, ticks: nat)
    requires Timed(r, dues, ticks)
    ensures Timed(AfterTick(r), dues, ticks + 1)
  {
    forall e <- AfterTick(r).timer.pending
      ensures TimedEntry(AfterTick(r), dues, e)
    {
      assert TimedEntry(r, dues, e);
    }
  }

  /** No pending entry was issued for incarnation n of slot s. */
  ghost predicate Unissued(r: Rpc, s: nat, n: nat) {
    forall e <- r.timer.pending :: e in r.origin ==> r.timer.pending[e].slot != s || r.origin[e] != n
  }

  lemma NewRequestIsUnissued(r: Rpc, c: Call)
    requires Inv(r) && r.pool.stack != []
    ensures Unissued(r, TopSlot(r), r.inc[TopSlot(r)])
  {
    BeginKeepsInv(r, c);
    forall e <- r.timer.pending
      ensures r.timer.pending[e].slot != TopSlot(r) || r.origin[e] != r.inc[TopSlot(r)]
    {
      assert EntryInv(r, e);
    }
  }

  lemma WithTimeoutIsTimed(r: Rpc, c: Call, dues: map<(nat, nat), nat>, ticks: nat)
    requires Shape(r) && Timed(r, dues, ticks) && r.pool.stack != [] && Unissued(r, TopSlot(r), r.inc[TopSlot(r)])
    ensures Timed(WithTimeout(Begin(r, c), TopSlot(r), c.entry, c.timeout), DuesAfter(r, dues, ticks, Event.Send(c)), ticks)
  {
    var s := TopSlot(r);
    var r', dues' := WithTimeout(Begin(r, c), s, c.entry, c.timeout), DuesAfter(r, dues, ticks, Event.Send(c));
    forall e <- r'.timer.pending
      ensures TimedEntry(r', dues', e)
    {
      assert c.entry != Some(e) ==> TimedEntry(r, dues, e);
    }
  }

  lemma SendIsTimed(r: Rpc, c: Call, dues: map<(nat, nat), nat>, ticks: nat)
    requires Inv(r) && Timed(r, dues, ticks)
    ensures Timed(RpcProtocol.Send(r, c), DuesAfter(r, dues, ticks, Event.Send(c)), ticks)
  {
    if r.pool.stack != [] {
      NewRequestIsUnissued(r, c);
      WithTimeoutIsTimed(r, c, dues, ticks);
      SameWheelIsTimed(WithTimeout(Begin(r, c), TopSlot(r), c.entry, c.timeout), RpcProtocol.Send(r, c),
                       DuesAfter(r, dues, ticks, Event.Send(c)), ticks);
    }
  }

  lemma {:induction false} CheckTimeoutsKeepsWheel(r: Rpc, expired: seq<(nat, nat)>)
    requires Shape(r) && InRange(expired)
    ensures var r' := CheckTimeouts(r, expired); r'.timer == r.timer && r'.origin == r.origin
    decreases |expired|
  {
    if expired != [] {
      ExpireOnlyAdds(r, expired[0].0, expired[0].1);
      CheckTimeoutsKeepsWheel(Expire(r, expired[0].0, expired[0].1), expired[1..]);
    }
  }

  lemma StepIsTimed(r: Rpc, ev: Event, dues: map<(nat, nat), nat>, ticks: nat)
    requires Inv(r) && Timed(r, dues, ticks) && Enabled(r, ev)
    ensures Timed(Step(r, ev), DuesAfter(r, dues, ticks, ev), ticks + if ev.Tick? then 1 else 0)
  {
    match ev
    case Send(c) => SendIsTimed(r, c, dues, ticks);
    case Deliver(s, n) => SameWheelIsTimed(r, Step(r, ev), dues, ticks);
    case Tick(order) =>
      AfterTickIsTimed(r, dues, ticks);
      CheckTimeoutsKeepsWheel(AfterTick(r), Expired(r, order));
      SameWheelIsTimed(AfterTick(r), Step(r, ev), dues, ticks + 1);
  }

  /** What a run leads from and to in its last event. */
  lemma LastDue(r: Rpc, evs: seq<Event>)
    requires Shape(r) && EnabledRun(r, evs) && AlwaysInRun(OwnOnly, r, evs) && evs != []
    ensures var front, ev := evs[..|evs| - 1], evs[|evs| - 1];
            && EnabledRun(r, front) && AlwaysInRun(OwnOnly, r, front) && Enabled(Run(r, front), ev)
            && Always(OwnOnly, Run(r, front), ev) && Run(r, evs) == Step(Run(r, front), ev)
            && Dues(r, evs) == DuesAfter(Run(r, front), Dues(r, front), Ticks(front), ev)
            && Ticks(evs) == Ticks(front) + if ev.Tick? then 1 else 0
  {
  }

  lemma {:induction false} RunIsTimed(r: Rpc, evs: seq<Event>)
    requires Inv(r) && Timed(r, map[], 0) && EnabledRun(r, evs) && AlwaysInRun(OwnOnly, r, evs)
    ensures Timed(Run(r, evs), Dues(r, evs), Ticks(evs))
    decreases |evs|
  {
    if evs != [] {
      var front, ev := evs[..|evs| - 1], evs[|evs| - 1];
      LastDue(r, evs);
      RunIsTimed(r, front);
      RunKeepsInv(r, front);
      StepIsTimed(Run(r, front), ev, Dues(r, front), Ticks(front));
    }
  }

  /** A failure is reported on time: its request got a wheel entry, and its timeout, modulo 1024, is the
      number of ticks from the send to the one that reports it. */
  ghost predicate OnTime(f: Fired, dues: map<(nat, nat), nat>, ev: Event, ticks: nat) {
    f.status == 1 ==> ev.Tick? && (f.slot, f.inc) in dues && dues[(f.slot, f.inc)] == ticks
  }

  lemma CausedIsOnTime(r: Rpc, ev: Event, f: Fired, dues: map<(nat, nat), nat>, ticks: nat)
    requires Timed(r, dues, ticks) && Caused(r, ev, f)
    ensures OnTime(f, dues, ev, ticks)
  {
    if f.status == 1 {
      var e :| e in r.timer.pending && e in r.origin && r.origin[e] == f.inc
               && r.timer.pending[e].slot == f.slot && r.timer.pending[e].due == r.timer.now;
      assert TimedEntry(r, dues, e);
    }
  }

  /** In every run in which a token is accepted only by the incarnation it was issued for, the callbacks
      an event makes are on time. */
  lemma FailuresAreOnTime(evs: seq<Event>)
    requires EnabledRun(Initial(), evs) && AlwaysInRun(OwnOnly, Initial(), evs) && evs != []
    ensures var front, ev := evs[..|evs| - 1], evs[|evs| - 1];
            EnabledRun(Initial(), front) &&
            var log, log' := Run(Initial(), front).log, Run(Initial(), evs).log;
            && log <= log'
            && forall i :: |log| <= i < |log'| ==> OnTime(log'[i], Dues(Initial(), front), ev, Ticks(front))
  {
    InitialInv();
    OnTimeFrom(Initial(), evs);
  }

  lemma OnTimeFrom(r: Rpc, evs: seq<Event>)
    requires Inv(r) && Timed(r, map[], 0) && EnabledRun(r, evs) && AlwaysInRun(OwnOnly, r, evs) && evs != []
    ensures var front, ev := evs[..|evs| - 1], evs[|evs| - 1];
            EnabledRun(r, front) &&
            var log, log' := Run(r, front).log, Run(r, evs).log;
            && log <= log' && forall i :: |log| <= i < |log'| ==> OnTime(log'[i], Dues(r, front), ev, Ticks(front))
  {
    var front, ev := evs[..|evs| - 1], evs[|evs| - 1];
    LastDue(r, evs);
    RunIsTimed(r, front);
    RunKeepsInv(r, front);
    NewAreOnTime(Run(r, front), ev, Dues(r, front), Ticks(front));
  }

  lemma NewAreOnTime(r: Rpc, ev: Event, dues: map<(nat, nat), nat>, ticks: nat)
    requires Inv(r) && Enabled(r, ev) && Always(OwnOnly, r, ev) && Timed(r, dues, ticks)
    ensures var log, log' := r.log, Step(r, ev).log;
            log <= log' && forall i :: |log| <= i < |log'| ==> OnTime(log'[i], dues, ev, ticks)
  {
    StepCauses(r, ev);
    var log, log' := r.log, Step(r, ev).log;
    forall i | |log| <= i < |log'|
      ensures OnTime(log'[i], dues, ev, ticks)
    {
      CausedIsOnTime(r, ev, log'[i], dues, ticks);
    }
  }
}
