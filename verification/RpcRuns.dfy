/** Whole runs of the RPC slot protocol: what is safe, by when a request is over, and the two
    ways in which 8-bit tokens fail a 12-bit generation. */
module RpcRuns {
  import opened Base
  import opened RpcSlotPool
  import opened RpcProtocol
  import T = Timer
  import TimingWheel

  /** A completion carries the token of some request that was made; a tick carries the order in
      which the wheel lists what has expired. */
  datatype Event = Send(call: Call) | Deliver(slot: nat, n: nat) | Tick(order: seq<nat>)

  function Expired(r: Rpc, order: seq<nat>): seq<(nat, nat)>
    requires forall i :: 0 <= i < |order| ==> order[i] in r.timer.pending
  {
    seq(|order|, i requires 0 <= i < |order| => (r.timer.pending[order[i]].slot, r.timer.pending[order[i]].gen))
  }

  /** The incarnations the expired tokens were issued for. */
  ghost function Origins(r: Rpc, order: seq<nat>): seq<nat>
    requires forall i :: 0 <= i < |order| ==> order[i] in r.origin
  {
    seq(|order|, i requires 0 <= i < |order| => r.origin[order[i]])
  }

  function AfterTick(r: Rpc): Rpc {
    r.(timer := T.Advance(r.timer), origin := r.origin - T.Due(r.timer))
  }

  /** What can happen next: the wheel hands out an unused entry unless all are pending, a
      completion brings an issued token, a tick lists what is due. */
  ghost predicate Enabled(r: Rpc, ev: Event)
    requires Shape(r)
  {
    match ev
    case Send(c) =>
      if c.entry.Some? then c.entry.value < TimingWheel.MAX_ENTRIES && c.entry.value !in r.timer.pending
      else |r.timer.pending| >= TimingWheel.MAX_ENTRIES
    case Deliver(s, n) => s < MAX_SLOTS && (s, n) in r.requests
    case Tick(order) =>
      && T.Enumerates(r.timer, order)
      && (forall i :: 0 <= i < |order| ==> order[i] in r.timer.pending && order[i] in r.origin)
      && InRange(Expired(r, order))
  }

  function Step(r: Rpc, ev: Event): (r': Rpc)
    requires Shape(r) && Enabled(r, ev)
    ensures Shape(r')
  {
    match ev
    case Send(c) => RpcProtocol.Send(r, c)
    case Deliver(s, n) => RpcProtocol.Deliver(r, s, n % 0x100)
    case Tick(order) => CheckTimeouts(AfterTick(r), Expired(r, order))
  }

  ghost predicate EnabledRun(r: Rpc, evs: seq<Event>)
    requires Shape(r)
    decreases |evs|, 0
  {
    evs == [] || (var k := |evs| - 1; EnabledRun(r, evs[..k]) && Enabled(Run(r, evs[..k]), evs[k]))
  }

  ghost function Run(r: Rpc, evs: seq<Event>): (r': Rpc)
    requires Shape(r) && EnabledRun(r, evs)
    ensures Shape(r')
    decreases |evs|, 1
  {
    if evs == [] then r
    else var k := |evs| - 1; Step(Run(r, evs[..k]), evs[k])
  }

  // ----- hypotheses about tokens -----

  /** OwnOnly: a token is accepted only by the incarnation it was issued for.
      Recent: a token is looked at before its slot has been freed 256 more times. */
  datatype Hypothesis = OwnOnly | Recent

  ghost predicate Holds(hyp: Hypothesis, r: Rpc, s: nat, n: nat)
    requires Shape(r) && s < MAX_SLOTS
  {
    match hyp
    case OwnOnly => r.pool.hot[s].Accepts(n % 0x100) ==> n == r.inc[s]
    case Recent => r.inc[s] - n <= 255
  }

  /** The hypothesis is true of every expired token at the moment the handler looks at it. */
  ghost predicate ForEach(hyp: Hypothesis, r: Rpc, expired: seq<(nat, nat)>, ns: seq<nat>)
    requires Shape(r) && InRange(expired) && |ns| == |expired|
    decreases |expired|
  {
    expired == [] ||
    (Holds(hyp, r, expired[0].0, ns[0])
     && ForEach(hyp, Expire(r, expired[0].0, expired[0].1), expired[1..], ns[1..]))
  }

  ghost predicate Always(hyp: Hypothesis, r: Rpc, ev: Event)
    requires Shape(r) && Enabled(r, ev)
  {
    match ev
    case Send(_) => true
    case Deliver(s, n) => Holds(hyp, r, s, n)
    case Tick(order) => ForEach(hyp, AfterTick(r), Expired(r, order), Origins(r, order))
  }

  ghost predicate AlwaysInRun(hyp: Hypothesis, r: Rpc, evs: seq<Event>)
    requires Shape(r) && EnabledRun(r, evs)
    decreases |evs|
  {
    evs == [] || (var k := |evs| - 1;
                  AlwaysInRun(hyp, r, evs[..k]) && Always(hyp, Run(r, evs[..k]), evs[k]))
  }

  /** The expired tokens of a tick, with the requests they were issued for. */
  ghost predicate Issued(r: Rpc, expired: seq<(nat, nat)>, ns: seq<nat>) {
    && |ns| == |expired|
    && forall i :: 0 <= i < |expired| ==>
         (expired[i].0, ns[i]) in r.requests && expired[i].1 == ns[i] % 0x100
  }

  /** Handling one expired token of a request. */
  lemma ExpireIssued(r: Rpc, s: nat, n: nat)
    requires Inv(r) && s < MAX_SLOTS && (s, n) in r.requests && Holds(OwnOnly, r, s, n)
    ensures Inv(Expire(r, s, n % 0x100))
  {
    assert RequestInv(r, s, n);
    ExpireKeepsInvIff(r, s, n % 0x100);
  }

  lemma ExpireEndsCurrent(r: Rpc, s: nat, n: nat)
    requires Inv(r) && s < MAX_SLOTS && (s, n) in r.requests && n % 4096 < 0x100
    ensures Expire(r, s, n % 0x100).inc[s] > n
  {
    assert SlotInv(r, s) && RequestInv(r, s, n);
    IncarnationFields(r.pool.hot[s], s, r.inc[s]);
  }

  lemma ExpireOnlyAdds(r: Rpc, s: nat, gen: uint8)
    requires Shape(r) && s < MAX_SLOTS
    ensures var r' := Expire(r, s, gen);
            && r'.requests == r.requests && r'.timer == r.timer && r'.origin == r.origin
            && (forall q :: 0 <= q < MAX_SLOTS ==> r'.inc[q] >= r.inc[q])
  {
  }

  lemma IssuedRest(r: Rpc, expired: seq<(nat, nat)>, ns: seq<nat>, r': Rpc)
    requires Issued(r, expired, ns) && expired != [] && r'.requests == r.requests
    ensures Issued(r', expired[1..], ns[1..])
  {
  }

  /** Handling a whole list keeps the invariant and never lowers an incarnation. */
  lemma {:induction false} CheckTimeoutsKeepsInv(r: Rpc, expired: seq<(nat, nat)>, ns: seq<nat>)
    requires Inv(r) && InRange(expired) && Issued(r, expired, ns) && ForEach(OwnOnly, r, expired, ns)
    ensures Inv(CheckTimeouts(r, expired))
    ensures var r' := CheckTimeouts(r, expired);
            && r'.requests == r.requests && r'.timer == r.timer && r'.origin == r.origin
            && (forall s :: 0 <= s < MAX_SLOTS ==> r'.inc[s] >= r.inc[s])
    decreases |expired|
  {
    if expired != [] {
      var s, n := expired[0].0, ns[0];
      var r1 := Expire(r, s, expired[0].1);
      ExpireIssued(r, s, n);
      ExpireOnlyAdds(r, s, expired[0].1);
      IssuedRest(r, expired, ns, r1);
      CheckTimeoutsKeepsInv(r1, expired[1..], ns[1..]);
    }
  }

  /** And it never leaves an accepted token of the current incarnation of a slot unretired. */
  lemma {:induction false} CheckTimeoutsEndsCurrent(r: Rpc, expired: seq<(nat, nat)>, ns: seq<nat>, i: nat)
    requires Inv(r) && InRange(expired) && Issued(r, expired, ns) && ForEach(OwnOnly, r, expired, ns)
    requires i < |expired| && ns[i] % 4096 < 0x100
    ensures CheckTimeouts(r, expired).inc[expired[i].0] > ns[i]
    decreases |expired|
  {
    var s, n := expired[0].0, ns[0];
    var r1 := Expire(r, s, expired[0].1);
    ExpireIssued(r, s, n);
    ExpireOnlyAdds(r, s, expired[0].1);
    IssuedRest(r, expired, ns, r1);
    if i == 0 {
      ExpireEndsCurrent(r, s, n);
      CheckTimeoutsKeepsInv(r1, expired[1..], ns[1..]);
    } else {
      CheckTimeoutsEndsCurrent(r1, expired[1..], ns[1..], i - 1);
    }
  }

  lemma AfterTickKeepsInv(r: Rpc)
    requires Inv(r)
    ensures Inv(AfterTick(r))
  {
    var r' := AfterTick(r);
    forall s | 0 <= s < MAX_SLOTS
      ensures SlotInv(r', s)
    {
      assert SlotInv(r, s);
    }
    forall s, n | (s, n) in r'.requests
      ensures RequestInv(r', s, n)
    {
      assert RequestInv(r, s, n);
      assert Logged(r, s, n) ==> Logged(r', s, n);
    }
    forall i | 0 <= i < |r'.log|
      ensures FiredInv(r', r'.log[i])
    {
      assert FiredInv(r, r.log[i]);
    }
    forall e <- r'.timer.pending
      ensures EntryInv(r', e)
    {
      assert EntryInv(r, e);
    }
  }

  lemma ExpiredAreIssued(r: Rpc, order: seq<nat>)
    requires Inv(r) && T.Enumerates(r.timer, order)
    requires forall i :: 0 <= i < |order| ==> order[i] in r.timer.pending && order[i] in r.origin
    ensures Issued(AfterTick(r), Expired(r, order), Origins(r, order)) && InRange(Expired(r, order))
  {
    forall i | 0 <= i < |order|
      ensures (Expired(r, order)[i].0, Origins(r, order)[i]) in r.requests
      ensures Expired(r, order)[i].0 < MAX_SLOTS && Expired(r, order)[i].1 == Origins(r, order)[i] % 0x100
    {
      assert EntryInv(r, order[i]);
      assert RequestInv(r, r.timer.pending[order[i]].slot, r.origin[order[i]]);
    }
  }

  lemma StepKeepsInv(r: Rpc, ev: Event)
    requires Inv(r) && Enabled(r, ev) && Always(OwnOnly, r, ev)
    ensures Inv(Step(r, ev))
  {
    match ev
    case Send(c) => SendKeepsInv(r, c);
    case Deliver(s, n) =>
      assert RequestInv(r, s, n);
      DeliverKeepsInvIff(r, s, n % 0x100);
    case Tick(order) =>
      AfterTickKeepsInv(r);
      ExpiredAreIssued(r, order);
      CheckTimeoutsKeepsInv(AfterTick(r), Expired(r, order), Origins(r, order));
  }

  lemma RecentIsOwnOnly(r: Rpc, s: nat, n: nat)
    requires Inv(r) && s < MAX_SLOTS && (s, n) in r.requests && Holds(Recent, r, s, n)
    ensures Holds(OwnOnly, r, s, n)
  {
    assert SlotInv(r, s) && RequestInv(r, s, n);
    IncarnationFields(r.pool.hot[s], s, r.inc[s]);
    if r.pool.hot[s].Accepts(n % 0x100) && n < r.inc[s] {
      StaleTokenGap(n, r.inc[s]);
    }
  }

  lemma {:induction false} RecentTokensAreOwnOnly(r: Rpc, expired: seq<(nat, nat)>, ns: seq<nat>)
    requires Inv(r) && InRange(expired) && Issued(r, expired, ns) && ForEach(Recent, r, expired, ns)
    ensures ForEach(OwnOnly, r, expired, ns)
    decreases |expired|
  {
    if expired != [] {
      var s, n := expired[0].0, ns[0];
      RecentIsOwnOnly(r, s, n);
      assert SlotInv(r, s) && RequestInv(r, s, n);
      ExpireKeepsInvIff(r, s, expired[0].1);
      RecentTokensAreOwnOnly(Expire(r, s, expired[0].1), expired[1..], ns[1..]);
    }
  }

  /** Safety.  In every run in which no token outlives 255 further frees of its slot, no slot is
      freed twice, a request is called back at most once, only while it holds its slot, and with
      its own callback; and a sent request that is over has been called back. */
  lemma {:induction false} RecentRunsAreSafe(evs: seq<Event>)
    requires EnabledRun(Initial(), evs) && AlwaysInRun(Recent, Initial(), evs)
    ensures Inv(Run(Initial(), evs)) && AlwaysInRun(OwnOnly, Initial(), evs)
    decreases |evs|
  {
    if evs == [] {
      InitialInv();
    } else {
      var k := |evs| - 1;
      RecentRunsAreSafe(evs[..k]);
      var r := Run(Initial(), evs[..k]);
      match evs[k]
      case Send(_) =>
        StepKeepsInv(r, evs[k]);
      case Deliver(s, n) =>
        RecentIsOwnOnly(r, s, n);
        StepKeepsInv(r, evs[k]);
      case Tick(order) =>
        AfterTickKeepsInv(r);
        ExpiredAreIssued(r, order);
        RecentTokensAreOwnOnly(AfterTick(r), Expired(r, order), Origins(r, order));
        StepKeepsInv(r, evs[k]);
    }
  }

  /** In every such state the free stack and the slots in use add up to the pool. */
  lemma SlotsAreConserved(r: Rpc)
    requires Inv(r)
    ensures |r.pool.stack| + |set s | 0 <= s < MAX_SLOTS && r.pool.hot[s].inUse| == 65536
  {
    var busy: set<nat> := set s | 0 <= s < MAX_SLOTS && r.pool.hot[s].inUse;
    T.DistinctSeqSize(r.pool.stack);
    forall s: nat
      ensures s in Below(MAX_SLOTS) <==> s in T.Elements(r.pool.stack) || s in busy
      ensures !(s in T.Elements(r.pool.stack) && s in busy)
    {
      if s < MAX_SLOTS {
        assert SlotInv(r, s);
      }
    }
    T.DisjointUnionSize(T.Elements(r.pool.stack), busy, Below(MAX_SLOTS));
  }
}
