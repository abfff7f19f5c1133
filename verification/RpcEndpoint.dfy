/** The endpoint itself: the slot pool, the timing wheel, and the steps that work on both.  Each
    method is proved to be a step of RpcProtocol; what runs of those steps keep is in RpcRuns.
    Callbacks append to a ghost log, and whether the connection accepts a send is a parameter. */
module RpcEndpoint {
  import opened Base
  import P = RpcSlotPool
  import W = TimingWheel
  import T = Timer
  import WrId
  import Protocol = RpcProtocol
  import Runs = RpcRuns

  const REQUEST_SEND: uint8 := 0

  datatype SendResult = Sent(slot: nat) | NoSlots | Refused

  /** What SendRequest hands to the connection: one work-request id, and immediate data when there
      is a data write. */
  datatype Wire = Wire(wrId: nat, imm: Option<uint32>)

  function MakeWire(connId: uint16, gen: uint8, slot: uint32, hasData: bool): (w: Wire)
    ensures slot < P.MAX_SLOTS ==> Names(w, connId, slot, gen, hasData)
  {
    WrId.FieldsOfEncoding(connId, REQUEST_SEND, gen, slot);
    WrId.ImmRoundTrip(gen, slot);
    Wire(WrId.Encode(connId, REQUEST_SEND, gen, slot), if hasData then Some(WrId.EncodeImm(gen, slot)) else None)
  }

  /** A completion or a response that brings this id or immediate back names the slot and token. */
  ghost predicate Names(w: Wire, connId: uint16, slot: nat, gen: nat, hasData: bool) {
    && WrId.GetSlotIndex(w.wrId) == slot && WrId.GetGeneration(w.wrId) == gen
    && WrId.GetConnId(w.wrId) == connId && WrId.GetOpcode(w.wrId) == REQUEST_SEND
    && (w.imm.Some? <==> hasData)
    && (hasData ==> WrId.ImmSlot(w.imm.value) == slot && WrId.ImmGeneration(w.imm.value) == gen)
  }

  /** Retiring expired requests only adds to the free stack. */
  lemma {:induction false} CheckTimeoutsGrowsStack(r: Protocol.Rpc, expired: seq<(nat, nat)>)
    requires Protocol.Shape(r) && Protocol.InRange(expired)
    ensures |r.pool.stack| <= |Protocol.CheckTimeouts(r, expired).pool.stack|
    decreases |expired|
  {
    if expired != [] {
      CheckTimeoutsGrowsStack(Protocol.Expire(r, expired[0].0, expired[0].1), expired[1..]);
    }
  }

  lemma {:induction false} CheckTimeoutsOneMore(r: Protocol.Rpc, expired: seq<(nat, nat)>, i: nat)
    requires Protocol.Shape(r) && Protocol.InRange(expired) && i < |expired|
    ensures Protocol.CheckTimeouts(r, expired[..i + 1])
            == Protocol.Expire(Protocol.CheckTimeouts(r, expired[..i]), expired[i].0, expired[i].1)
    decreases i
  {
    if i > 0 {
      var r1 := Protocol.Expire(r, expired[0].0, expired[0].1);
      assert expired[..i + 1][1..] == expired[1..][..i] && expired[..i][1..] == expired[1..][..i - 1];
      CheckTimeoutsOneMore(r1, expired[1..], i - 1);
    }
  }

  lemma WithTimeoutFields(r: Protocol.Rpc, s: nat, entry: Option<nat>, p: T.Pending, timeout: uint32,
                          timer: T.Timer, origin: map<nat, nat>)
    requires Protocol.Shape(r) && s < P.MAX_SLOTS
    requires p == T.Pending(s, P.Token(r.pool.hot[s]), r.timer.now + timeout % W.WHEEL_SIZE)
    requires entry.None? ==> timer == r.timer && origin == r.origin
    requires entry.Some? ==> timer == T.Add(r.timer, entry.value, p) && origin == r.origin[entry.value := r.inc[s]]
    ensures Protocol.WithTimeout(r, s, entry, timeout)
            == Protocol.Rpc(r.pool, timer, r.inc, r.requests, origin, r.log)
  {
  }

  /** In every state the protocol keeps, the free stack fits its array: the bound the methods
      below ask for holds in every run in which no token outlives 255 frees of its slot. */
  lemma StackFits(r: Protocol.Rpc)
    requires Protocol.Inv(r)
    ensures |r.pool.stack| <= P.MAX_SLOTS
  {
    Runs.SlotsAreConserved(r);
  }

  class RpcEndpoint {
    const pool: P.RpcSlotPool
    const wheel: W.TimingWheel
    const connId: uint16
    const timeout: uint32
    ghost var inc: seq<nat>
    ghost var requests: map<(nat, nat), Protocol.Request>
    ghost var origin: map<nat, nat>
    ghost var log: seq<Protocol.Fired>

    ghost function PoolObjects(): set<object> {
      {pool, pool.slotsHot, pool.slotsContext, pool.freeStack}
    }

    ghost function WheelObjects(): set<object> {
      {wheel, wheel.lists, wheel.lists.entries, wheel.lists.heads}
    }

    ghost predicate Valid()
      reads this, PoolObjects(), WheelObjects()
    {
      && PoolObjects() !! WheelObjects() && this !in PoolObjects() + WheelObjects()
      && pool.Valid() && wheel.Valid() && |inc| == P.MAX_SLOTS
      && origin.Keys == wheel.timer.pending.Keys
      && (forall e <- wheel.timer.pending ::
            wheel.timer.pending[e].slot < P.MAX_SLOTS && wheel.timer.pending[e].gen < 0x100)
    }

    /** The endpoint as a state of the protocol. */
    ghost function Model(): (r: Protocol.Rpc)
      requires Valid()
      reads this, PoolObjects(), WheelObjects()
      ensures Protocol.Shape(r)
    {
      Protocol.Rpc(pool.Contents(), wheel.timer, inc, requests, origin, log)
    }

    constructor (connId: uint16, timeout: uint32)
      ensures Valid() && Model() == Protocol.Initial()
      ensures this.connId == connId && this.timeout == timeout
    {
      pool := new P.RpcSlotPool();
      wheel := new W.TimingWheel();
      this.connId, this.timeout := connId, timeout;
      inc, requests, origin, log := seq(P.MAX_SLOTS, _ => 0), map[], map[], [];
    }

    /** Returns a slot to the pool; the incarnation that used it is over. */
    method FreeSlot(index: nat)
      requires Valid() && index < P.MAX_SLOTS && pool.stackTop < P.MAX_SLOTS
      modifies this`inc, PoolObjects()
      ensures Valid() && Model() == Protocol.Free(old(Model()), index)
    {
      pool.Free(index);
      inc := inc[index := inc[index] + 1];
    }

    /** Invokes the callback of a slot unless it is null. */
    ghost method Invoke(index: nat, status: uint8)
      requires Valid() && index < P.MAX_SLOTS
      modifies this`log
      ensures Valid() && Model() == Protocol.Invoke(old(Model()), index, status)
    {
      var c := pool.slotsContext[index];
      if c.callback != 0 {
        log := log + [Protocol.Fired(index, inc[index], c.callback, c.ctx, status, pool.slotsHot[index].inUse)];
      }
    }

    /** Overwrites the counters of a slot. */
    method SetHot(index: nat, h: P.Hot)
      requires Valid() && index < P.MAX_SLOTS
      modifies pool.slotsHot
      ensures Valid() && Model() == Protocol.WithHot(old(Model()), index, h)
    {
      pool.slotsHot[index] := h;
    }

    /** Takes a slot, if there is one, and sets it up for one work request. */
    method TakeSlot(callback: nat, ctx: nat, ghost call: Protocol.Call) returns (r: Option<(nat, uint8)>)
      requires Valid() && call.callback == callback && call.ctx == ctx && call.connId == connId
      modifies this`requests, PoolObjects()
      ensures Valid()
      ensures r.None? <==> old(Model()).pool.stack == []
      ensures r.None? ==> Model() == old(Model())
      ensures r.Some? ==>
                && Model() == Protocol.Begin(old(Model()), call)
                && r.value.0 == Protocol.TopSlot(old(Model())) < P.MAX_SLOTS
                && r.value.1 == P.Token(old(Model()).pool.hot[r.value.0]) == P.Token(Model().pool.hot[r.value.0])
    {
      r := pool.Allocate();
      if r.Some? {
        var slot := r.value.0;
        pool.slotsHot[slot] := pool.slotsHot[slot].(inUse := true, connId := connId, total := 1, completed := 0);
        pool.slotsContext[slot] := P.Context(callback, ctx);
        requests := requests[(slot, inc[slot]) := Protocol.Request(callback, ctx, true)];
      }
    }

    /** Schedules the timeout of a slot's current token; a full wheel is not reported. */
    method ScheduleTimeout(slot: nat, generation: uint8) returns (ghost entry: Option<nat>)
      requires Valid() && slot < P.MAX_SLOTS && generation == P.Token(pool.slotsHot[slot])
      modifies this`origin, WheelObjects()
      ensures Valid() && Model() == Protocol.WithTimeout(old(Model()), slot, entry, timeout)
      ensures entry.Some? ==> entry.value < W.MAX_ENTRIES && entry.value !in old(wheel.timer).pending
      ensures entry.None? ==> |old(wheel.timer).pending| >= W.MAX_ENTRIES
    {
      ghost var before := Model();
      var scheduled, e, p := wheel.Schedule(slot, generation, timeout);
      entry := if scheduled then Some(e) else None;
      if scheduled {
        origin := origin[e := inc[slot]];
      }
      assert pool.Contents() == before.pool;
      WithTimeoutFields(before, slot, entry, p, timeout, wheel.timer, origin);
    }

    /** Frees the slot of a request whose first send was refused. */
    method AbortRequest(slot: nat)
      requires Valid() && slot < P.MAX_SLOTS && pool.stackTop < P.MAX_SLOTS && (slot, inc[slot]) in requests
      modifies this`inc, this`requests, PoolObjects()
      ensures Valid() && Model() == Protocol.Abort(old(Model()), slot)
    {
      ghost var key := (slot, inc[slot]);
      FreeSlot(slot);
      requests := requests[key := requests[key].(sent := false)];
    }

    /** Posts the inline send and, if it was taken, the data write. */
    method Post(slot: nat, inlineOk: bool, hasData: bool)
      requires Valid() && slot < P.MAX_SLOTS && pool.stackTop < P.MAX_SLOTS && (slot, inc[slot]) in requests
      modifies this`inc, this`requests, PoolObjects()
      ensures Valid() && Model() == Protocol.Post(old(Model()), slot, inlineOk, hasData)
    {
      if !inlineOk {
        AbortRequest(slot);
      } else if hasData {
        SetHot(slot, pool.slotsHot[slot].(total := (pool.slotsHot[slot].total + 1) % 0x100));
      }
    }

    method SendRequest(callback: nat, ctx: nat, hasData: bool, inlineOk: bool)
        returns (r: SendResult, wire: Wire, ghost call: Protocol.Call)
      requires Valid()
      modifies this, PoolObjects(), WheelObjects()
      ensures Valid()
      ensures call.callback == callback && call.ctx == ctx && call.connId == connId && call.timeout == timeout
              && call.inlineOk == inlineOk && call.hasData == hasData
      ensures old(Model()).pool.stack != [] ==> Runs.Enabled(old(Model()), Runs.Event.Send(call))
      ensures Model() == Protocol.Send(old(Model()), call)
      ensures r == if old(Model()).pool.stack == [] then NoSlots
                   else if !inlineOk then Refused else Sent(Protocol.TopSlot(old(Model())))
      ensures r.Sent? ==> Names(wire, connId, r.slot, P.Token(old(Model()).pool.hot[r.slot]), hasData)
    {
      wire := Wire(0, None);
      call := Protocol.Call(callback, ctx, connId, timeout, None, inlineOk, hasData);
      var taken := TakeSlot(callback, ctx, call);
      if taken.None? {
        return NoSlots, wire, call;
      }
      var slot, generation := taken.value.0, taken.value.1;
      ghost var entry := ScheduleTimeout(slot, generation);
      call := call.(entry := entry);
      Post(slot, inlineOk, hasData);
      if !inlineOk {
        return Refused, wire, call;
      }
      wire := MakeWire(connId, generation, slot, hasData);
      r := Sent(slot);
    }

    /** Counts a completion towards the request its token names; a stale token is dropped. */
    method Complete(slot: nat, generation: uint8)
      requires Valid() && slot < P.MAX_SLOTS
      requires |Protocol.Deliver(Model(), slot, generation).pool.stack| <= P.MAX_SLOTS
      modifies this`inc, this`log, PoolObjects()
      ensures Valid() && Model() == Protocol.Deliver(old(Model()), slot, generation)
    {
      var hot := pool.slotsHot[slot];
      if !hot.Accepts(generation) {
        return;
      }
      SetHot(slot, hot.MarkCompleted());
      if hot.MarkCompleted().IsCompleted() {
        Invoke(slot, hot.error);
        FreeSlot(slot);
      }
    }

    method OnSendComplete(wrId: nat)
      requires Valid() && WrId.GetSlotIndex(wrId) < P.MAX_SLOTS
      requires |Protocol.Deliver(Model(), WrId.GetSlotIndex(wrId), WrId.GetGeneration(wrId)).pool.stack| <= P.MAX_SLOTS
      modifies this`inc, this`log, PoolObjects()
      ensures Valid()
      ensures Model() == Protocol.Deliver(old(Model()), WrId.GetSlotIndex(wrId), WrId.GetGeneration(wrId))
    {
      Complete(WrId.GetSlotIndex(wrId), WrId.GetGeneration(wrId));
    }

    method OnWriteWithImmRecv(imm: uint32)
      requires Valid()
      requires |Protocol.Deliver(Model(), WrId.ImmSlot(imm), WrId.ImmGeneration(imm)).pool.stack| <= P.MAX_SLOTS
      modifies this`inc, this`log, PoolObjects()
      ensures Valid() && Model() == Protocol.Deliver(old(Model()), WrId.ImmSlot(imm), WrId.ImmGeneration(imm))
    {
      Complete(WrId.ImmSlot(imm), WrId.ImmGeneration(imm));
    }

    /** Looks at one expired token, and says whether it ended a request. */
    method ExpireOne(slot: nat, generation: uint8) returns (ended: bool)
      requires Valid() && slot < P.MAX_SLOTS
      requires |Protocol.Expire(Model(), slot, generation).pool.stack| <= P.MAX_SLOTS
      modifies this`inc, this`log, PoolObjects()
      ensures Valid() && Model() == Protocol.Expire(old(Model()), slot, generation)
      ensures |Model().pool.stack| == |old(Model()).pool.stack| + if ended then 1 else 0
    {
      var hot := pool.slotsHot[slot];
      if !hot.Accepts(generation) || hot.IsCompleted() {
        return false;
      }
      SetHot(slot, hot.(error := 1, completed := hot.total));
      Invoke(slot, 1);
      FreeSlot(slot);
      ended := true;
    }

    /** Ends the requests whose tokens have expired and are still current, and counts them. */
    method CheckTimeouts(expired: seq<(nat, nat)>) returns (count: nat)
      requires Valid() && Protocol.InRange(expired)
      requires |Protocol.CheckTimeouts(Model(), expired).pool.stack| <= P.MAX_SLOTS
      modifies this`inc, this`log, PoolObjects()
      ensures Valid() && Model() == Protocol.CheckTimeouts(old(Model()), expired)
      ensures count == |Model().pool.stack| - |old(Model()).pool.stack|
    {
      ghost var before := Model();
      count := 0;
      for i := 0 to |expired|
        invariant Valid() && Model() == Protocol.CheckTimeouts(before, expired[..i])
        invariant |Model().pool.stack| == |before.pool.stack| + count
      {
        CheckTimeoutsOneMore(before, expired, i);
        CheckTimeoutsSplit(before, expired, i + 1);
        CheckTimeoutsGrowsStack(Protocol.CheckTimeouts(before, expired[..i + 1]), expired[i + 1..]);
        var ended := ExpireOne(expired[i].0, expired[i].1);
        if ended {
          count := count + 1;
        }
      }
      assert expired[..|expired|] == expired;
    }

    /** One turn of the clock: the wheel reports what has expired and the handler looks at it. */
    method PollTimeouts() returns (count: nat, ghost order: seq<nat>)
      requires Valid()
      requires forall order :: Runs.Enabled(Model(), Runs.Event.Tick(order)) ==>
                 |Runs.Step(Model(), Runs.Event.Tick(order)).pool.stack| <= P.MAX_SLOTS
      modifies this, PoolObjects(), WheelObjects()
      ensures Valid() && Runs.Enabled(old(Model()), Runs.Event.Tick(order))
      ensures Model() == Runs.Step(old(Model()), Runs.Event.Tick(order))
    {
      ghost var before := Model();
      var expired;
      expired, order := wheel.Tick();
      assert expired == Runs.Expired(before, order);
      assert Runs.Enabled(before, Runs.Event.Tick(order));
      origin := origin - T.Due(before.timer);
      assert Model() == Runs.AfterTick(before);
      count := CheckTimeouts(expired);
    }
  }

  lemma {:induction false} CheckTimeoutsSplit(r: Protocol.Rpc, expired: seq<(nat, nat)>, i: nat)
    requires Protocol.Shape(r) && Protocol.InRange(expired) && i <= |expired|
    ensures Protocol.CheckTimeouts(r, expired)
            == Protocol.CheckTimeouts(Protocol.CheckTimeouts(r, expired[..i]), expired[i..])
    decreases i
  {
    if i > 0 {
      assert expired[..i][1..] == expired[1..][..i - 1] && expired[i..] == expired[1..][i - 1..];
      CheckTimeoutsSplit(Protocol.Expire(r, expired[0].0, expired[0].1), expired[1..], i - 1);
    } else {
      assert expired[0..] == expired;
    }
  }
}
