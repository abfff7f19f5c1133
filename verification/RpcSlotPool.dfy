/** The pool of RPC slots: a slot carries a 20-bit index and a 12-bit generation in one word,
    the token handed out with it carries only 8 bits of the generation. */
module RpcSlotPool {
  import opened Base

  const MAX_SLOTS: nat := 65536
  const INDEX_UNIT: nat := 0x10_0000

  /** The part of a slot that the completion path touches.  Of the two state bits only
      free and in-use are ever stored. */
  datatype Hot = Hot(packed: uint32, inUse: bool, connId: uint16, total: uint8, completed: uint8, error: uint8)
  {
    function Index(): nat { packed % INDEX_UNIT }

    function Generation(): nat { packed / INDEX_UNIT % 4096 }

    /** Adds one to the high 12 bits, modulo 4096, and leaves the index alone. */
    function NextGeneration(): uint32 {
      packed % INDEX_UNIT + (packed / INDEX_UNIT + 1) % 4096 * INDEX_UNIT
    }

    predicate IsCompleted() { completed >= total }

    /** The token stores 8 bits; the check compares them with all 12. */
    predicate Accepts(gen: uint8) { Generation() == gen }

    function MarkCompleted(): Hot { this.(completed := (completed + 1) % 0x100) }
  }

  /** A callback of 0 is a null function pointer. */
  datatype Context = Context(callback: nat, ctx: nat)

  datatype Pool = Pool(hot: seq<Hot>, context: seq<Context>, stack: seq<nat>)

  ghost predicate PoolShape(p: Pool) {
    && |p.hot| == |p.context| == MAX_SLOTS
    && forall i :: 0 <= i < |p.stack| ==> p.stack[i] < MAX_SLOTS
  }

  function InitialPool(): Pool {
    Pool(seq(MAX_SLOTS, i requires 0 <= i < MAX_SLOTS => Hot(i, false, 0, 0, 0, 0)),
         seq(MAX_SLOTS, _ => Context(0, 0)),
         seq(MAX_SLOTS, i requires 0 <= i < MAX_SLOTS => MAX_SLOTS - 1 - i))
  }

  function Taken(h: Hot): Hot {
    h.(inUse := true, completed := 0, error := 0)
  }

  function Released(h: Hot): Hot {
    h.(inUse := false, packed := h.NextGeneration())
  }

  /** The pool after the top of a non-empty free stack has been handed out. */
  function Allocated(p: Pool): Pool
    requires PoolShape(p) && p.stack != []
  {
    var s := p.stack[|p.stack| - 1];
    Pool(p.hot[s := Taken(p.hot[s])], p.context, p.stack[..|p.stack| - 1])
  }

  function Freed(p: Pool, s: nat): Pool
    requires s < |p.hot|
  {
    Pool(p.hot[s := Released(p.hot[s])], p.context, p.stack + [s])
  }

  function Token(h: Hot): uint8 {
    h.Generation() % 0x100
  }

  /** From a new pool the slots are taken in order, each free, at generation 0 and with its own index; after
      that the slot freed last is taken first. */
  lemma SlotsAreTakenInOrder(p: Pool, s: nat)
    ensures s < 65536 ==> InitialPool().stack[65536 - 1 - s] == s && InitialPool().hot[s] == Hot(s, false, 0, 0, 0, 0)
    ensures PoolShape(p) && s < MAX_SLOTS ==>
              var freed := Freed(p, s);
              Allocated(freed).stack == p.stack && Allocated(freed).hot == p.hot[s := Taken(Released(p.hot[s]))]
  {
  }

  // ----- what the token checks are worth -----

  /** A slot word at its `n`-th incarnation, that is after `n` frees. */
  ghost predicate AtIncarnation(h: Hot, s: nat, n: nat) {
    h.packed == s + n % 4096 * INDEX_UNIT
  }

  lemma IncarnationFields(h: Hot, s: nat, n: nat)
    requires s < INDEX_UNIT && AtIncarnation(h, s, n)
    ensures h.Index() == s && h.Generation() == n % 4096 && Token(h) == n % 0x100
    ensures AtIncarnation(Released(h), s, n + 1)
  {
    Digits(n % 4096, s, INDEX_UNIT);
    GenerationDigits(n);
  }

  lemma GenerationDigits(n: nat)
    ensures n % 4096 < INDEX_UNIT && n % 4096 % 4096 == n % 4096
    ensures n % 4096 % 0x100 == n % 0x100
    ensures (n % 4096 + 1) % 4096 == (n + 1) % 4096
  {
    SumModulo(n, 1, 4096);
    var q, r := n / 4096, n % 4096;
    assert n == (16 * q + r / 0x100) * 0x100 + r % 0x100;
    Digits(16 * q + r / 0x100, r % 0x100, 0x100);
  }

  /** The token law: what was issued at incarnation n is accepted at incarnation m exactly when
      m modulo 4096 equals n modulo 256. */
  lemma TokenLaw(issued: Hot, current: Hot, s: nat, n: nat, m: nat)
    requires s < MAX_SLOTS && AtIncarnation(issued, s, n) && AtIncarnation(current, s, m)
    ensures current.Accepts(Token(issued)) <==> m % 4096 == n % 0x100
  {
    IncarnationFields(issued, s, n);
    IncarnationFields(current, s, m);
  }

  /** So a stale token cannot be accepted before the slot has been freed 256 more times, and can
      be then; a slot accepts its own token only in the first 256 of every 4096 incarnations. */
  lemma StaleTokenGap(n: nat, m: nat)
    requires n < m && m % 4096 == n % 0x100
    ensures m - n >= 0x100
  {
  }

  lemma StaleTokenGapIsTight()
    ensures var n, m := 4095, 4096 + 255;
            m - n == 0x100 && m % 4096 == n % 0x100
  {
  }

  lemma OwnToken(h: Hot, s: nat, n: nat)
    requires s < MAX_SLOTS && AtIncarnation(h, s, n)
    ensures h.Accepts(Token(h)) <==> n % 4096 < 0x100
  {
    IncarnationFields(h, s, n);
  }

  class RpcSlotPool {
    const slotsHot: array<Hot>
    const slotsContext: array<Context>
    const freeStack: array<nat>
    var stackTop: nat

    ghost predicate Valid()
      reads this, slotsHot, slotsContext, freeStack
    {
      && slotsHot.Length == slotsContext.Length == freeStack.Length == MAX_SLOTS
      && stackTop <= MAX_SLOTS
      && forall i :: 0 <= i < stackTop ==> freeStack[i] < MAX_SLOTS
    }

    ghost function Contents(): (p: Pool)
      requires Valid()
      reads this, slotsHot, slotsContext, freeStack
      ensures PoolShape(p)
    {
      Pool(slotsHot[..], slotsContext[..], freeStack[..stackTop])
    }

    constructor ()
      ensures Valid() && Contents() == InitialPool()
      ensures fresh(slotsHot) && fresh(slotsContext) && fresh(freeStack)
    {
      var hot := new Hot[MAX_SLOTS](_ => Hot(0, false, 0, 0, 0, 0));
      var stack := new nat[MAX_SLOTS](_ => 0);
      for i := 0 to MAX_SLOTS
        invariant forall j :: 0 <= j < i ==> hot[j] == Hot(j, false, 0, 0, 0, 0)
        invariant forall j :: 0 <= j < i ==> stack[j] == MAX_SLOTS - 1 - j
      {
        hot[i] := Hot(i, false, 0, 0, 0, 0);
        stack[i] := MAX_SLOTS - 1 - i;
      }
      slotsHot, freeStack := hot, stack;
      slotsContext := new Context[MAX_SLOTS](_ => Context(0, 0));
      stackTop := MAX_SLOTS;
    }

    /** Hands out the slot on top of the free stack with its 8-bit token, or nothing. */
    method Allocate() returns (r: Option<(nat, uint8)>)
      requires Valid()
      modifies this, slotsHot
      ensures Valid()
      ensures r.None? <==> old(Contents()).stack == []
      ensures r.None? ==> Contents() == old(Contents())
      ensures r.Some? ==>
                && Contents() == Allocated(old(Contents()))
                && r.value.0 == old(Contents()).stack[|old(Contents()).stack| - 1]
                && r.value.1 == Token(old(Contents()).hot[r.value.0])
    {
      if stackTop == 0 {
        return None;
      }
      stackTop := stackTop - 1;
      var index := freeStack[stackTop];
      slotsHot[index] := Taken(slotsHot[index]);
      r := Some((index, slotsHot[index].Generation() % 0x100));
    }

    /** The push is in bounds only while some slot is out. */
    method Free(index: nat)
      requires Valid() && index < MAX_SLOTS && stackTop < MAX_SLOTS
      modifies this, slotsHot, freeStack
      ensures Valid() && Contents() == Freed(old(Contents()), index)
    {
      slotsHot[index] := Released(slotsHot[index]);
      freeStack[stackTop] := index;
      stackTop := stackTop + 1;
    }
  }
}
