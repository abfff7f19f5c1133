/** The single-producer single-consumer ring as interleaved steps: each load, copy and store of
    Push and Pop is a step of its own.  It refines a FIFO of capacity - 1 items. */
module SpscRing {
  import opened Base

  /** Where a push stands: the head read, room seen, the item copied. */
  datatype Producer<T> = NoPush | HeadRead(item: T, head: nat) | RoomSeen(item: T, head: nat) | ItemStored(item: T, head: nat)

  /** Where a pop stands: the tail read, an item seen, the item copied. */
  datatype Consumer<T> = NoPop | TailRead(tail: nat) | ItemSeen(tail: nat) | ItemCopied(tail: nat, item: T)

  /** pushed, popped: the items of all pushes and pops that have completed, in order. */
  datatype State<T> = State(head: nat, tail: nat, buffer: seq<T>, producer: Producer<T>, consumer: Consumer<T>,
                            pushed: seq<T>, popped: seq<T>)

  datatype Event<T> = StartPush(item: T) | CheckRoom | StoreItem | Publish
                    | StartPop | CheckItem | CopyItem | Release

  /** An index advanced by one; capacities are powers of two, for which masking is the remainder. */
  function Succ(i: nat, capacity: nat): nat
    requires capacity > 0
  {
    (i + 1) % capacity
  }

  lemma SuccIsNext(i: nat, capacity: nat)
    requires i < capacity
    ensures Succ(i, capacity) == RingAt(i, 1, capacity)
  {
    RingStep(i, 0, capacity);
  }

  /** What has been pushed and not yet popped. */
  function Queue<T>(s: State<T>): seq<T>
    requires |s.popped| <= |s.pushed|
  {
    s.pushed[|s.popped|..]
  }

  ghost predicate Enabled<T>(s: State<T>, ev: Event<T>) {
    match ev
    case StartPush(_) => s.producer.NoPush?
    case CheckRoom => s.producer.HeadRead?
    case StoreItem => s.producer.RoomSeen? && s.producer.head < |s.buffer|
    case Publish => s.producer.ItemStored? && |s.buffer| > 0
    case StartPop => s.consumer.NoPop?
    case CheckItem => s.consumer.TailRead?
    case CopyItem => s.consumer.ItemSeen? && s.consumer.tail < |s.buffer|
    case Release => s.consumer.ItemCopied? && |s.buffer| > 0
  }

  /** CheckRoom and CheckItem end an operation with `false` when the ring is full or empty. */
  function Step<T>(s: State<T>, ev: Event<T>): State<T>
    requires |s.buffer| > 0 && Enabled(s, ev)
  {
    match ev
    case StartPush(x) => s.(producer := HeadRead(x, s.head))
    case CheckRoom =>
      if Succ(s.producer.head, |s.buffer|) == s.tail then s.(producer := NoPush)
      else s.(producer := RoomSeen(s.producer.item, s.producer.head))
    case StoreItem =>
      s.(buffer := s.buffer[s.producer.head := s.producer.item],
         producer := ItemStored(s.producer.item, s.producer.head))
    case Publish =>
      s.(head := Succ(s.producer.head, |s.buffer|), pushed := s.pushed + [s.producer.item], producer := NoPush)
    case StartPop => s.(consumer := TailRead(s.tail))
    case CheckItem =>
      if s.consumer.tail == s.head then s.(consumer := NoPop) else s.(consumer := ItemSeen(s.consumer.tail))
    case CopyItem => s.(consumer := ItemCopied(s.consumer.tail, s.buffer[s.consumer.tail]))
    case Release =>
      s.(tail := Succ(s.consumer.tail, |s.buffer|), popped := s.popped + [s.consumer.item], consumer := NoPop)
  }

  ghost predicate Inv<T>(s: State<T>) {
    var cap := |s.buffer|;
    && s.popped <= s.pushed && cap > 0 && s.tail < cap
    && var q := Queue(s);
       && |q| < cap && s.head == RingAt(s.tail, |q|, cap)
       && (forall i :: 0 <= i < |q| ==> s.buffer[RingAt(s.tail, i, cap)] == q[i])
       && (!s.producer.NoPush? ==> s.producer.head == s.head)
       && (s.producer.RoomSeen? || s.producer.ItemStored? ==> |q| + 1 < cap)
       && (s.producer.ItemStored? ==> s.buffer[s.head] == s.producer.item)
       && (!s.consumer.NoPop? ==> s.consumer.tail == s.tail)
       && (s.consumer.ItemSeen? || s.consumer.ItemCopied? ==> q != [])
       && (s.consumer.ItemCopied? ==> s.consumer.item == q[0])
  }

  lemma InitialInv<T>(buffer: seq<T>)
    requires buffer != []
    ensures Inv(State(0, 0, buffer, NoPush, NoPop, [], []))
  {
  }

  lemma PublishAppends<T>(s: State<T>)
    requires Inv(s) && Enabled(s, Publish)
    ensures var s' := Step(s, Publish);
            Inv(s') && |s'.buffer| == |s.buffer| && Queue(s') == Queue(s) + [s.producer.item]
  {
    SuccIsNext(s.head, |s.buffer|);
    assert Queue(Step(s, Publish)) == Queue(s) + [s.producer.item];
  }

  lemma ReleaseRemoves<T>(s: State<T>)
    requires Inv(s) && Enabled(s, Release)
    ensures var s' := Step(s, Release);
            && Inv(s') && |s'.buffer| == |s.buffer|
            && |s'.popped| == |s.popped| + 1 && Queue(s) == [s'.popped[|s.popped|]] + Queue(s')
  {
    var s', cap := Step(s, Release), |s.buffer|;
    SuccIsNext(s.tail, cap);
    assert s.pushed == s.popped + Queue(s);
    assert s'.popped <= s'.pushed;
    assert Queue(s') == Queue(s)[1..];
    forall i | 0 <= i < |Queue(s')|
      ensures s'.buffer[RingAt(s'.tail, i, cap)] == Queue(s')[i]
    {
      assert RingAt(s'.tail, i, cap) == RingAt(s.tail, i + 1, cap);
    }
  }

  lemma OtherStepsKeepQueue<T>(s: State<T>, ev: Event<T>)
    requires Inv(s) && Enabled(s, ev) && !ev.Publish? && !ev.Release?
    ensures var q, s' := Queue(s), Step(s, ev);
            && Inv(s') && |s'.buffer| == |s.buffer| && Queue(s') == q
            && (ev.CheckRoom? ==> (s'.producer.NoPush? <==> |q| == |s.buffer| - 1))
            && (ev.CheckItem? ==> (s'.consumer.NoPop? <==> q == []))
  {
    SuccIsNext(s.head, |s.buffer|);
  }

  /** Every step keeps the ring right and does to the queue exactly what its operation should do, at
      one moment of the operation: a push adds its item at the end when it publishes the head, a pop
      takes the first item when it releases the slot, a push fails only while capacity - 1 items
      are queued and a pop only while none is, and no other step changes the queue. */
  lemma StepRefinesFifo<T>(s: State<T>, ev: Event<T>)
    requires Inv(s) && Enabled(s, ev)
    ensures Inv(Step(s, ev)) && |Step(s, ev).buffer| == |s.buffer|
    ensures var q, s' := Queue(s), Step(s, ev);
            match ev
            case Publish => Queue(s') == q + [s.producer.item]
            case Release => q == [s'.popped[|s.popped|]] + Queue(s')
            case CheckRoom => Queue(s') == q && (s'.producer.NoPush? <==> |q| == |s.buffer| - 1)
            case CheckItem => Queue(s') == q && (s'.consumer.NoPop? <==> q == [])
            case _ => Queue(s') == q
  {
    match ev
    case Publish => PublishAppends(s);
    case Release => ReleaseRemoves(s);
    case _ => OtherStepsKeepQueue(s, ev);
  }

  /** States joined by enabled steps, from an empty ring. */
  ghost predicate IsRun<T>(states: seq<State<T>>, evs: seq<Event<T>>) {
    && |states| == |evs| + 1 && states[0].buffer != []
    && states[0] == State(0, 0, states[0].buffer, NoPush, NoPop, [], [])
    && forall i :: 0 <= i < |evs| ==>
         |states[i].buffer| > 0 && Enabled(states[i], evs[i]) && states[i + 1] == Step(states[i], evs[i])
  }

  /** In every interleaving the items popped are a prefix of the items pushed: none is lost,
      duplicated, reordered or overwritten before it is copied. */
  lemma {:induction false} PoppedIsPrefixOfPushed<T>(states: seq<State<T>>, evs: seq<Event<T>>, k: nat)
    requires IsRun(states, evs) && k <= |evs|
    ensures Inv(states[k]) && states[k].popped <= states[k].pushed
    ensures |states[k].buffer| == |states[0].buffer| && |states[k].pushed| - |states[k].popped| < |states[0].buffer|
  {
    if k == 0 {
      InitialInv(states[0].buffer);
    } else {
      PoppedIsPrefixOfPushed(states, evs, k - 1);
      StepRefinesFifo(states[k - 1], evs[k - 1]);
    }
  }

  /** One push from its start to its end, while the other side stands still anywhere in a pop: it appends
      its own item, or is given up at the check because the ring is full. */
  lemma PushAlone<T>(s: State<T>, x: T)
    requires Inv(s) && s.producer.NoPush?
    ensures var s2 := Step(Step(s, StartPush(x)), CheckRoom);
            if |Queue(s)| == |s.buffer| - 1 then s2 == s
            else
              && s2.producer.RoomSeen? && Enabled(s2, StoreItem) && Enabled(Step(s2, StoreItem), Publish)
              && var s' := Step(Step(s2, StoreItem), Publish);
                 && Inv(s') && s'.pushed == s.pushed + [x] && s'.producer == NoPush
                 && s'.tail == s.tail && s'.popped == s.popped && s'.consumer == s.consumer
  {
    var s1 := Step(s, StartPush(x));
    StepRefinesFifo(s, StartPush(x));
    StepRefinesFifo(s1, CheckRoom);
    var s2 := Step(s1, CheckRoom);
    if |Queue(s)| < |s.buffer| - 1 {
      StepRefinesFifo(s2, StoreItem);
      StepRefinesFifo(Step(s2, StoreItem), Publish);
    }
  }

  /** And one pop: it takes the oldest item, or is given up because there is none. */
  lemma PopAlone<T>(s: State<T>)
    requires Inv(s) && s.consumer.NoPop?
    ensures var s2 := Step(Step(s, StartPop), CheckItem);
            if Queue(s) == [] then s2 == s
            else
              && s2.consumer.ItemSeen? && Enabled(s2, CopyItem) && Enabled(Step(s2, CopyItem), Release)
              && var s' := Step(Step(s2, CopyItem), Release);
                 && Inv(s') && s'.popped == s.popped + [Queue(s)[0]] && s'.consumer == NoPop
                 && s'.head == s.head && s'.pushed == s.pushed && s'.buffer == s.buffer && s'.producer == s.producer
  {
    var s1 := Step(s, StartPop);
    StepRefinesFifo(s, StartPop);
    StepRefinesFifo(s1, CheckItem);
    var s2 := Step(s1, CheckItem);
    if Queue(s) != [] {
      StepRefinesFifo(s2, CopyItem);
      StepRefinesFifo(Step(s2, CopyItem), Release);
    }
  }

  const TWO64: nat := 0x1_0000_0000_0000_0000

  /** Size on 64-bit words: the subtraction may wrap, the sum brings it back. */
  function Size(head: nat, tail: nat, capacity: nat): nat
    requires 0 < capacity && tail <= head + TWO64
  {
    ((head + TWO64 - tail) % TWO64 + capacity) % TWO64 % capacity
  }

  lemma SizeOfRing(tail: nat, n: nat, capacity: nat)
    requires tail < capacity && n < capacity && 2 * capacity <= TWO64
    ensures Size(RingAt(tail, n, capacity), tail, capacity) == n
  {
    if tail + n < capacity {
      Digits(1, n, TWO64);
      Digits(0, n + capacity, TWO64);
      Digits(1, n, capacity);
    } else {
      Digits(0, TWO64 - (capacity - n), TWO64);
      Digits(1, n, TWO64);
      Digits(0, n, capacity);
    }
  }

  lemma SizeIsLength<T>(s: State<T>)
    requires Inv(s) && 2 * |s.buffer| <= TWO64
    ensures Size(s.head, s.tail, |s.buffer|) == |Queue(s)|
  {
    SizeOfRing(s.tail, |Queue(s)|, |s.buffer|);
  }

  /** The ring in place, used by one thread at a time. */
  class SpscRingBuffer<T(0)> {
    const buffer: array<T>
    var head: nat
    var tail: nat
    ghost var queue: seq<T>

    ghost predicate Valid()
      reads this, buffer
    {
      && 0 < buffer.Length && 2 * buffer.Length <= TWO64
      && tail < buffer.Length && |queue| < buffer.Length
      && head == RingAt(tail, |queue|, buffer.Length)
      && forall i :: 0 <= i < |queue| ==> buffer[RingAt(tail, i, buffer.Length)] == queue[i]
    }

    constructor (capacity: nat)
      requires 0 < capacity && 2 * capacity <= TWO64
      ensures Valid() && fresh(buffer) && buffer.Length == capacity && queue == []
    {
      buffer := new T[capacity];
      head, tail, queue := 0, 0, [];
    }

    /** Fails exactly when capacity - 1 items are queued. */
    method Push(item: T) returns (ok: bool)
      requires Valid()
      modifies this, buffer
      ensures Valid() && (ok <==> |old(queue)| < buffer.Length - 1)
      ensures queue == if ok then old(queue) + [item] else old(queue)
    {
      SuccIsNext(head, buffer.Length);
      var nextHead := Succ(head, buffer.Length);
      if nextHead == tail {
        return false;
      }
      buffer[head] := item;
      head := nextHead;
      queue := queue + [item];
      ok := true;
    }

    /** Fails exactly when nothing is queued. */
    method Pop() returns (item: Option<T>)
      requires Valid()
      modifies this
      ensures Valid() && (item.None? <==> old(queue) == [])
      ensures item.None? ==> queue == old(queue)
      ensures item.Some? ==> old(queue) == [item.value] + queue
    {
      if tail == head {
        return None;
      }
      SuccIsNext(tail, buffer.Length);
      item := Some(buffer[tail]);
      assert forall i :: 0 <= i < |queue| - 1 ==>
          RingAt(RingAt(tail, 1, buffer.Length), i, buffer.Length) == RingAt(tail, i + 1, buffer.Length);
      tail := Succ(tail, buffer.Length);
      queue := queue[1..];
    }

    method GetSize() returns (n: nat)
      requires Valid()
      ensures n == |queue|
    {
      SizeOfRing(tail, |queue|, buffer.Length);
      n := Size(head, tail, buffer.Length);
    }
  }
}
