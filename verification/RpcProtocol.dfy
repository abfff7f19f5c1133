/** The life of an RPC slot as a state machine.  A request takes a slot, schedules a timeout and
    posts work; completions and timeouts come back later carrying only the slot and an 8-bit
    token, in any order, possibly after the slot has been reused.  The state carries its own
    history: how often each slot was freed, which request each incarnation belongs to, and every
    callback that was made. */
module RpcProtocol {
  import opened Base
  import opened RpcSlotPool
  import T = Timer
  import TimingWheel

  /** A request: its callback, and whether its first send was accepted. */
  datatype Request = Request(callback: nat, ctx: nat, sent: bool)

  /** A callback that was made, with the incarnation of the slot it was made for and whether the
      slot was in use at the time. */
  datatype Fired = Fired(slot: nat, inc: nat, callback: nat, ctx: nat, status: uint8, live: bool)

  /** inc: frees of each slot so far.  requests: by slot and incarnation.  origin: the incarnation
      whose token each pending wheel entry holds. */
  datatype Rpc = Rpc(pool: Pool, timer: T.Timer, inc: seq<nat>, requests: map<(nat, nat), Request>,
                     origin: map<nat, nat>, log: seq<Fired>)

  ghost predicate Shape(r: Rpc) {
    PoolShape(r.pool) && |r.inc| == MAX_SLOTS
  }

  function Initial(): Rpc {
    Rpc(InitialPool(), T.Timer(0, map[]), seq(MAX_SLOTS, _ => 0), map[], map[], [])
  }

  // ----- the steps -----

  function WithHot(r: Rpc, s: nat, h: Hot): Rpc
    requires s < |r.pool.hot|
  {
    r.(pool := r.pool.(hot := r.pool.hot[s := h]))
  }

  function Free(r: Rpc, s: nat): Rpc
    requires Shape(r) && s < MAX_SLOTS
  {
    r.(pool := Freed(r.pool, s), inc := r.inc[s := r.inc[s] + 1])
  }

  /** Invokes the callback of a slot unless it is null. */
  function Invoke(r: Rpc, s: nat, status: uint8): Rpc
    requires Shape(r) && s < MAX_SLOTS
  {
    var c := r.pool.context[s];
    if c.callback == 0 then r
    else r.(log := r.log + [Fired(s, r.inc[s], c.callback, c.ctx, status, r.pool.hot[s].inUse)])
  }

  /** Ends the request on slot `s`: stores its last counters, calls back, frees the slot. */
  function Retire(r: Rpc, s: nat, h: Hot, status: uint8): (r': Rpc)
    requires Shape(r) && s < MAX_SLOTS
    ensures Shape(r')
  {
    Free(Invoke(WithHot(r, s, h), s, status), s)
  }

  /** A send completion or a zero-copy response arrives with a token. */
  function Deliver(r: Rpc, s: nat, gen: uint8): (r': Rpc)
    requires Shape(r) && s < MAX_SLOTS
    ensures Shape(r')
  {
    var h := r.pool.hot[s];
    if !h.Accepts(gen) then r
    else
      var h' := h.MarkCompleted();
      if h'.IsCompleted() then Retire(r, s, h', h'.error) else WithHot(r, s, h')
  }

  /** The timeout handler looks at one expired token. */
  function Expire(r: Rpc, s: nat, gen: uint8): (r': Rpc)
    requires Shape(r) && s < MAX_SLOTS
    ensures Shape(r')
  {
    var h := r.pool.hot[s];
    if !h.Accepts(gen) || h.IsCompleted() then r
    else Retire(r, s, h.(error := 1, completed := h.total), 1)
  }

  ghost predicate InRange(expired: seq<(nat, nat)>) {
    forall i :: 0 <= i < |expired| ==> expired[i].0 < MAX_SLOTS && expired[i].1 < 0x100
  }

  function CheckTimeouts(r: Rpc, expired: seq<(nat, nat)>): (r': Rpc)
    requires Shape(r) && InRange(expired)
    ensures Shape(r')
    decreases |expired|
  {
    if expired == [] then r
    else CheckTimeouts(Expire(r, expired[0].0, expired[0].1), expired[1..])
  }

  datatype Call = Call(callback: nat, ctx: nat, connId: uint16, timeout: uint32,
                       entry: Option<nat>, inlineOk: bool, hasData: bool)

  function TopSlot(r: Rpc): nat
    requires Shape(r) && r.pool.stack != []
  {
    r.pool.stack[|r.pool.stack| - 1]
  }

  /** The wheel with a timeout for the token of slot `s`, if it had an entry to give. */
  function WithTimeout(r: Rpc, s: nat, entry: Option<nat>, timeout: uint32): Rpc
    requires Shape(r) && s < MAX_SLOTS
  {
    match entry
    case None => r
    case Some(e) =>
      var due := r.timer.now + timeout % TimingWheel.WHEEL_SIZE;
      r.(timer := T.Add(r.timer, e, T.Pending(s, Token(r.pool.hot[s]), due)), origin := r.origin[e := r.inc[s]])
  }

  /** The top slot is taken and set up for one work request. */
  function Begin(r: Rpc, c: Call): (r': Rpc)
    requires Shape(r) && r.pool.stack != []
    ensures Shape(r')
  {
    var s := TopSlot(r);
    var pool := Allocated(r.pool);
    var hot := pool.hot[s].(connId := c.connId, total := 1, completed := 0);
    r.(pool := pool.(hot := pool.hot[s := hot], context := pool.context[s := Context(c.callback, c.ctx)]),
       requests := r.requests[(s, r.inc[s]) := Request(c.callback, c.ctx, true)])
  }

  /** The first send was refused: the slot is freed and the caller gets the error instead of a callback. */
  function Abort(r: Rpc, s: nat): (r': Rpc)
    requires Shape(r) && s < MAX_SLOTS && (s, r.inc[s]) in r.requests
    ensures Shape(r')
  {
    var key := (s, r.inc[s]);
    Free(r, s).(requests := r.requests[key := r.requests[key].(sent := false)])
  }

  /** Posting what a request sends: the slot is given back if the inline send is refused, and a data
      write makes one more completion due. */
  function Post(r: Rpc, s: nat, inlineOk: bool, hasData: bool): (r': Rpc)
    requires Shape(r) && s < MAX_SLOTS && (s, r.inc[s]) in r.requests
    ensures Shape(r')
  {
    if !inlineOk then Abort(r, s)
    else if hasData then WithHot(r, s, r.pool.hot[s].(total := (r.pool.hot[s].total + 1) % 0x100))
    else r
  }

  /** SendRequest.  The environment chooses the wheel entry and whether the inline send works; a
      failing data write is only logged, so its outcome plays no part. */
  function Send(r: Rpc, c: Call): (r': Rpc)
    requires Shape(r)
    ensures Shape(r')
  {
    if r.pool.stack == [] then r
    else
      var s := TopSlot(r);
      Post(WithTimeout(Begin(r, c), s, c.entry, c.timeout), s, c.inlineOk, c.hasData)
  }

  // ----- what every step keeps -----

  ghost predicate Logged(r: Rpc, s: nat, n: nat) {
    exists i :: 0 <= i < |r.log| && r.log[i].slot == s && r.log[i].inc == n
  }

  ghost predicate SlotInv(r: Rpc, s: nat)
    requires Shape(r) && s < MAX_SLOTS
  {
    var h := r.pool.hot[s];
    && AtIncarnation(h, s, r.inc[s])
    && h.completed <= h.total <= 2
    && (!h.inUse ==> h.total <= h.completed + 1)
    && (s in r.pool.stack <==> !h.inUse)
    && (h.inUse ==>
          && h.completed < h.total && h.error == 0
          && (s, r.inc[s]) in r.requests
          && r.requests[(s, r.inc[s])] == Request(r.pool.context[s].callback, r.pool.context[s].ctx, true))
  }

  /** A request belongs to a past incarnation or to the current one of a slot in use.  Past
      requests that were sent have been called back, unless their callback is null. */
  ghost predicate RequestInv(r: Rpc, s: nat, n: nat)
    requires Shape(r) && (s, n) in r.requests
  {
    && s < MAX_SLOTS
    && (n == r.inc[s] ==> r.pool.hot[s].inUse)
    && n <= r.inc[s]
    && (n < r.inc[s] && r.requests[(s, n)].sent && r.requests[(s, n)].callback != 0 ==> Logged(r, s, n))
  }

  /** A callback was made while its slot was in use, for a request that was sent and is over, and
      it is that request's own callback. */
  ghost predicate FiredInv(r: Rpc, f: Fired)
    requires Shape(r)
  {
    && f.live && f.slot < MAX_SLOTS && f.inc < r.inc[f.slot]
    && (f.slot, f.inc) in r.requests
    && r.requests[(f.slot, f.inc)] == Request(f.callback, f.ctx, true)
  }

  ghost predicate EntryInv(r: Rpc, e: nat)
    requires e in r.timer.pending && e in r.origin
  {
    var p := r.timer.pending[e];
    p.gen == r.origin[e] % 0x100 && (p.slot, r.origin[e]) in r.requests
  }

  ghost predicate Inv(r: Rpc) {
    && Shape(r)
    && (forall i, j :: 0 <= i < j < |r.pool.stack| ==> r.pool.stack[i] != r.pool.stack[j])
    && (forall s :: 0 <= s < MAX_SLOTS ==> SlotInv(r, s))
    && (forall s, n :: (s, n) in r.requests ==> RequestInv(r, s, n))
    && (forall i :: 0 <= i < |r.log| ==> FiredInv(r, r.log[i]))
    && (forall i, j :: 0 <= i < j < |r.log| ==> r.log[i].slot != r.log[j].slot || r.log[i].inc != r.log[j].inc)
    && T.Inv(r.timer) && r.origin.Keys == r.timer.pending.Keys
    && (forall e <- r.timer.pending :: EntryInv(r, e))
  }

  lemma InitialInv()
    ensures Inv(Initial())
  {
    var r := Initial();
    forall s | 0 <= s < MAX_SLOTS
      ensures SlotInv(r, s)
    {
      assert r.pool.stack[MAX_SLOTS - 1 - s] == s;
    }
  }

  lemma RetireKeepsSlot(r: Rpc, s: nat, h: Hot, status: uint8, q: nat)
    requires Shape(r) && s < MAX_SLOTS && q < MAX_SLOTS && SlotInv(r, s) && SlotInv(r, q) && r.pool.hot[s].inUse
    requires h.inUse && h.packed == r.pool.hot[s].packed
    requires h.completed <= h.total <= 2 && h.total <= h.completed + 1
    ensures SlotInv(Retire(r, s, h, status), q)
  {
    var r' := Retire(r, s, h, status);
    IncarnationFields(h, s, r.inc[s]);
    assert r'.pool.stack == r.pool.stack + [s];
  }

  /** Ending the request on a slot in use. */
  lemma RetireKeepsInv(r: Rpc, s: nat, h: Hot, status: uint8)
    requires Inv(r) && s < MAX_SLOTS && r.pool.hot[s].inUse
    requires h.inUse && h.packed == r.pool.hot[s].packed
    requires h.completed <= h.total <= 2 && h.total <= h.completed + 1
    ensures Inv(Retire(r, s, h, status))
  {
    var r' := Retire(r, s, h, status);
    assert SlotInv(r, s);
    forall q | 0 <= q < MAX_SLOTS
      ensures SlotInv(r', q)
    {
      RetireKeepsSlot(r, s, h, status, q);
    }
    forall q, n | (q, n) in r'.requests
      ensures RequestInv(r', q, n)
    {
      assert RequestInv(r, q, n);
      if Logged(r, q, n) {
        var i :| 0 <= i < |r.log| && r.log[i].slot == q && r.log[i].inc == n;
        assert r'.log[i] == r.log[i];
      } else if q == s && n == r.inc[s] && r.requests[(q, n)].callback != 0 {
        assert r'.log[|r.log|].slot == s && r'.log[|r.log|].inc == n;
      }
    }
    forall i | 0 <= i < |r'.log|
      ensures FiredInv(r', r'.log[i])
    {
      assert i < |r.log| ==> FiredInv(r, r.log[i]);
    }
    forall e <- r'.timer.pending
      ensures EntryInv(r', e)
    {
      assert EntryInv(r, e);
    }
  }

  /** Storing counters in a slot without freeing it. */
  lemma CountKeepsInv(r: Rpc, s: nat, h: Hot)
    requires Inv(r) && s < MAX_SLOTS && r.pool.hot[s].inUse
    requires h.inUse && h.packed == r.pool.hot[s].packed && h.completed < h.total <= 2 && h.error == 0
    ensures Inv(WithHot(r, s, h))
  {
    var r' := WithHot(r, s, h);
    forall q | 0 <= q < MAX_SLOTS
      ensures SlotInv(r', q)
    {
      assert SlotInv(r, q);
    }
    CarryOver(r, r');
  }

  /** What is said of requests, callbacks and wheel entries depends only on history and on which
      slots are in use. */
  lemma CarryOver(r: Rpc, r': Rpc)
    requires Inv(r) && Shape(r')
    requires r'.inc == r.inc && r'.requests == r.requests && r'.origin == r.origin
    requires r'.timer == r.timer && r'.log == r.log && r'.pool.stack == r.pool.stack
    requires forall s :: 0 <= s < MAX_SLOTS ==> SlotInv(r', s)
    requires forall s :: 0 <= s < MAX_SLOTS ==> r'.pool.hot[s].inUse == r.pool.hot[s].inUse
    ensures Inv(r')
  {
    forall q, n | (q, n) in r'.requests
      ensures RequestInv(r', q, n)
    {
      assert RequestInv(r, q, n);
      assert Logged(r, q, n) ==> Logged(r', q, n);
    }
    forall i | 0 <= i < |r'.log|
      ensures FiredInv(r', r'.log[i])
    {
      assert FiredInv(r, r.log[i]);
    }
    forall e <- r'.timer.pending
      ensures EntryInv(r', e)
    {
      assert EntryInv(r, e);
    }
  }

  /** A completion keeps the invariant unless its token is accepted by a free slot, and then it
      does not: the slot is freed twice. */
  lemma DeliverKeepsInvIff(r: Rpc, s: nat, gen: uint8)
    requires Inv(r) && s < MAX_SLOTS
    ensures Inv(Deliver(r, s, gen)) <==> (r.pool.hot[s].Accepts(gen) ==> r.pool.hot[s].inUse)
  {
    assert SlotInv(r, s);
    var h, h' := r.pool.hot[s], r.pool.hot[s].MarkCompleted();
    if h.Accepts(gen) {
      if !h.inUse {
        var r' := Deliver(r, s, gen);
        var i :| 0 <= i < |r.pool.stack| && r.pool.stack[i] == s;
        assert r'.pool.stack[i] == s && r'.pool.stack[|r.pool.stack|] == s;
      } else if h'.IsCompleted() {
        RetireKeepsInv(r, s, h', h'.error);
      } else {
        CountKeepsInv(r, s, h');
      }
    }
  }

  /** The same for a timeout, except that the handler skips slots whose counters are complete. */
  lemma ExpireKeepsInvIff(r: Rpc, s: nat, gen: uint8)
    requires Inv(r) && s < MAX_SLOTS
    ensures Inv(Expire(r, s, gen))
            <==> (r.pool.hot[s].Accepts(gen) && !r.pool.hot[s].IsCompleted() ==> r.pool.hot[s].inUse)
  {
    assert SlotInv(r, s);
    var h := r.pool.hot[s];
    if h.Accepts(gen) && !h.IsCompleted() {
      if !h.inUse {
        var r' := Expire(r, s, gen);
        var i :| 0 <= i < |r.pool.stack| && r.pool.stack[i] == s;
        assert r'.pool.stack[i] == s && r'.pool.stack[|r.pool.stack|] == s;
      } else {
        RetireKeepsInv(r, s, h.(error := 1, completed := h.total), 1);
      }
    }
  }

  lemma BeginKeepsInv(r: Rpc, c: Call)
    requires Inv(r) && r.pool.stack != []
    ensures Inv(Begin(r, c)) && (TopSlot(r), r.inc[TopSlot(r)]) !in r.requests
  {
    var s, r' := TopSlot(r), Begin(r, c);
    assert s in r.pool.stack && SlotInv(r, s);
    assert forall n :: (s, n) in r.requests ==> RequestInv(r, s, n);
    forall q | 0 <= q < MAX_SLOTS
      ensures SlotInv(r', q)
    {
      assert SlotInv(r, q);
      assert forall x :: x in r'.pool.stack <==> x in r.pool.stack && x != s;
    }
    forall q, n | (q, n) in r'.requests
      ensures RequestInv(r', q, n)
    {
      assert (q, n) != (s, r.inc[s]) ==> RequestInv(r, q, n);
      assert Logged(r, q, n) ==> Logged(r', q, n);
    }
    forall i | 0 <= i < |r'.log|
      ensures FiredInv(r', r'.log[i])
    {
      assert FiredInv(r, r.log[i]);
    }
    forall e <- r'.timer.pending
      ensures EntryInv(r', e)
    {
      assert EntryInv(r, e);
    }
  }

  lemma WithTimeoutKeepsInv(r: Rpc, s: nat, entry: Option<nat>, timeout: uint32)
    requires Inv(r) && s < MAX_SLOTS && r.pool.hot[s].inUse
    requires entry.Some? ==> entry.value !in r.timer.pending
    ensures Inv(WithTimeout(r, s, entry, timeout))
  {
    var r' := WithTimeout(r, s, entry, timeout);
    assert SlotInv(r, s);
    IncarnationFields(r.pool.hot[s], s, r.inc[s]);
    forall q | 0 <= q < MAX_SLOTS
      ensures SlotInv(r', q)
    {
      assert SlotInv(r, q);
    }
    forall q, n | (q, n) in r'.requests
      ensures RequestInv(r', q, n)
    {
      assert RequestInv(r, q, n);
      assert Logged(r, q, n) ==> Logged(r', q, n);
    }
    forall i | 0 <= i < |r'.log|
      ensures FiredInv(r', r'.log[i])
    {
      assert FiredInv(r, r.log[i]);
    }
    forall e <- r'.timer.pending
      ensures EntryInv(r', e)
    {
      assert e in r.timer.pending ==> EntryInv(r, e);
    }
  }

  lemma AbortKeepsInv(r: Rpc, s: nat)
    requires Inv(r) && s < MAX_SLOTS && r.pool.hot[s].inUse
    requires (s, r.inc[s]) in r.requests && r.pool.hot[s].total == 1
    ensures Inv(Abort(r, s))
  {
    var r' := Abort(r, s);
    assert SlotInv(r, s);
    IncarnationFields(r.pool.hot[s], s, r.inc[s]);
    forall q | 0 <= q < MAX_SLOTS
      ensures SlotInv(r', q)
    {
      assert SlotInv(r, q);
      assert r'.pool.stack[|r.pool.stack|] == s;
      assert q in r.pool.stack ==> q in r'.pool.stack;
    }
    forall q, n | (q, n) in r'.requests
      ensures RequestInv(r', q, n)
    {
      assert RequestInv(r, q, n);
      assert Logged(r, q, n) ==> Logged(r', q, n);
    }
    forall i | 0 <= i < |r'.log|
      ensures FiredInv(r', r'.log[i])
    {
      assert FiredInv(r, r.log[i]);
    }
    forall e <- r'.timer.pending
      ensures EntryInv(r', e)
    {
      assert EntryInv(r, e);
    }
  }

  lemma PostKeepsInv(r: Rpc, s: nat, inlineOk: bool, hasData: bool)
    requires Inv(r) && s < MAX_SLOTS && r.pool.hot[s].inUse
    requires (s, r.inc[s]) in r.requests && r.pool.hot[s].total == 1 && r.pool.hot[s].completed == 0
    ensures Inv(Post(r, s, inlineOk, hasData))
  {
    if !inlineOk {
      AbortKeepsInv(r, s);
    } else if hasData {
      assert SlotInv(r, s);
      CountKeepsInv(r, s, r.pool.hot[s].(total := 2));
    }
  }

  lemma SendKeepsInv(r: Rpc, c: Call)
    requires Inv(r)
    requires c.entry.Some? ==> c.entry.value !in r.timer.pending
    ensures Inv(Send(r, c))
  {
    if r.pool.stack != [] {
      var s := TopSlot(r);
      BeginKeepsInv(r, c);
      WithTimeoutKeepsInv(Begin(r, c), s, c.entry, c.timeout);
      PostKeepsInv(WithTimeout(Begin(r, c), s, c.entry, c.timeout), s, c.inlineOk, c.hasData);
    }
  }

  // ----- what a request is told -----

  /** The request on slot `s` has ended with `status`: one callback if it has one, and the slot on top
      of the free stack, at its next incarnation. */
  ghost predicate EndedWith(r: Rpc, r': Rpc, s: nat, status: uint8)
    requires Shape(r) && Shape(r') && s < MAX_SLOTS
  {
    var c := r.pool.context[s];
    && r'.pool.stack == r.pool.stack + [s] && r'.inc == r.inc[s := r.inc[s] + 1] && !r'.pool.hot[s].inUse
    && r'.log == r.log + if c.callback == 0 then [] else [Fired(s, r.inc[s], c.callback, c.ctx, status, true)]
  }

  /** A current completion ends a request exactly when it is the last of its work requests, and the
      request is told of success; before that only the count moves. */
  lemma CompletionReportsSuccess(r: Rpc, s: nat, gen: uint8)
    requires Inv(r) && s < MAX_SLOTS && r.pool.hot[s].inUse && r.pool.hot[s].Accepts(gen)
    ensures var h, r' := r.pool.hot[s], Deliver(r, s, gen);
            if h.completed + 1 == h.total then EndedWith(r, r', s, 0)
            else h.completed + 2 == h.total && r' == WithHot(r, s, h.(completed := h.completed + 1))
  {
    assert SlotInv(r, s);
  }

  /** A current timeout always ends its request, which is told of the timeout. */
  lemma TimeoutReportsFailure(r: Rpc, s: nat, gen: uint8)
    requires Inv(r) && s < MAX_SLOTS && r.pool.hot[s].inUse && r.pool.hot[s].Accepts(gen)
    ensures EndedWith(r, Expire(r, s, gen), s, 1)
  {
    assert SlotInv(r, s);
  }
}
