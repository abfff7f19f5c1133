/** The send side of a queue pair on values: when a work request is signalled, and how a scatter list
    longer than the hardware takes is cut into fragments. */
module SendQueue {
  import opened Base
  import WrId

  const REQUEST_SEND: uint8 := 0
  const MAX_SGES: nat := 16

  datatype Config = Config(maxSendSge: uint32, signalInterval: uint32, cqDepth: uint32)

  datatype Iov = Iov(addr: nat, len: nat)

  datatype WorkRequest = WorkRequest(wrId: nat, sges: seq<Iov>, signaled: bool)

  /** unsignaled: requests since the last signalled one.  outstanding: signalled requests that have not
      been seen to complete.  attempts, wire: posts tried, and those the hardware took. */
  datatype Queue = Queue(config: Config, unsignaled: uint32, outstanding: uint32, attempts: nat, wire: seq<WorkRequest>)

  predicate CanPostSignaled(q: Queue) { q.outstanding < q.config.cqDepth / 2 }

  function ShouldSignal(q: Queue): (Queue, bool) {
    var next := (q.unsignaled + 1) % TWO32;
    if next < q.config.signalInterval then (q.(unsignaled := next), false)
    else if !CanPostSignaled(q) then (q.(unsignaled := next), false)
    else (q.(unsignaled := 0, outstanding := (q.outstanding + 1) % TWO32), true)
  }

  /** A completion was handled; the counter is unsigned and wraps. */
  function OnSendComplete(q: Queue, wasSignaled: bool): Queue {
    if wasSignaled then q.(outstanding := (q.outstanding + TWO32 - 1) % TWO32) else q
  }

  /** At most 16 entries fit; beyond that the hardware decides, attempt by attempt. */
  function DoPost(q: Queue, accepts: nat -> bool, iov: seq<Iov>, wrId: nat, signaled: bool): (Queue, bool) {
    if |iov| > MAX_SGES then (q, false)
    else
      var tried := q.(attempts := q.attempts + 1);
      if accepts(q.attempts) then (tried.(wire := q.wire + [WorkRequest(wrId, iov, signaled)]), true)
      else (tried, false)
  }

  /** The slot field of a fragment: 24 bits of the base id below 8 bits of the fragment index. */
  function FragmentSlot(wrIdBase: nat, index: nat): (s: uint32) {
    wrIdBase % TWO32 % 0x100_0000 + index % 0x100 * 0x100_0000
  }

  function FragmentId(conn: uint16, gen: uint8, wrIdBase: nat, index: nat): nat {
    WrId.Encode(conn, REQUEST_SEND, gen, FragmentSlot(wrIdBase, index))
  }

  /** The fragmentation loop from fragment `index` on; only the last fragment asks to be signalled. */
  function PostFragments(q: Queue, accepts: nat -> bool, iov: seq<Iov>, wrIdBase: nat, conn: uint16, gen: uint8,
                         index: nat): (Queue, bool)
    requires 0 < q.config.maxSendSge
    decreases |iov|
  {
    if iov == [] then (q, true)
    else
      var chunk := if |iov| < q.config.maxSendSge then |iov| else q.config.maxSendSge;
      var (q1, signaled) := if chunk == |iov| then ShouldSignal(q) else (q, false);
      var (q2, ok) := DoPost(q1, accepts, iov[..chunk], FragmentId(conn, gen, wrIdBase, index), signaled);
      if !ok then (q2, false) else PostFragments(q2, accepts, iov[chunk..], wrIdBase, conn, gen, index + 1)
  }

  function PostSendSGL(q: Queue, accepts: nat -> bool, iov: seq<Iov>, wrIdBase: nat, conn: uint16, gen: uint8): (Queue, bool)
    requires 0 < q.config.maxSendSge
  {
    if |iov| <= q.config.maxSendSge then
      var (q1, signaled) := ShouldSignal(q);
      DoPost(q1, accepts, iov, wrIdBase, signaled)
    else PostFragments(q, accepts, iov, wrIdBase, conn, gen, 0)
  }

  // ----- fragmentation -----

  /** Put together again in order, the fragments are the list. */
  function Joined(wrs: seq<WorkRequest>): seq<Iov> {
    if wrs == [] then [] else wrs[0].sges + Joined(wrs[1..])
  }

  /** As few requests as the limit allows, whose parts in order are the list, none over the limit, with
      successive ids, and none but the last signalled. */
  ghost predicate Fragments(sent: seq<WorkRequest>, iov: seq<Iov>, max: nat, wrIdBase: nat, conn: uint16, gen: uint8,
                            index: nat)
  {
    && Joined(sent) == iov
    && (iov == [] ==> sent == [])
    && (iov != [] ==> (|sent| - 1) * max < |iov| <= |sent| * max)
    && (forall i :: 0 <= i < |sent| ==> 0 < |sent[i].sges| <= max)
    && (forall i :: 0 <= i < |sent| ==> sent[i].wrId == FragmentId(conn, gen, wrIdBase, index + i))
    && (forall i :: 0 <= i < |sent| - 1 ==> !sent[i].signaled)
  }

  lemma FirstFragment(wr: WorkRequest, rest: seq<WorkRequest>, iov: seq<Iov>, chunk: nat, max: nat, wrIdBase: nat,
                      conn: uint16, gen: uint8, index: nat)
    requires 0 < chunk <= |iov| && chunk == if |iov| < max then |iov| else max
    requires wr.sges == iov[..chunk] && wr.wrId == FragmentId(conn, gen, wrIdBase, index)
    requires wr.signaled ==> chunk == |iov|
    requires Fragments(rest, iov[chunk..], max, wrIdBase, conn, gen, index + 1)
    ensures Fragments([wr] + rest, iov, max, wrIdBase, conn, gen, index)
  {
    var sent := [wr] + rest;
    assert sent[1..] == rest && iov == iov[..chunk] + iov[chunk..];
    OneMoreFragment(|rest|, max, |iov|, chunk);
    forall i | 0 <= i < |sent| ensures sent[i].wrId == FragmentId(conn, gen, wrIdBase, index + i) {
      if i > 0 { assert sent[i] == rest[i - 1] && index + 1 + (i - 1) == index + i; }
    }
  }

  lemma WireFrom(before: seq<WorkRequest>, wr: WorkRequest, wire: seq<WorkRequest>)
    requires before + [wr] <= wire
    ensures before <= wire && wire[|before|..] == [wr] + wire[|before| + 1..]
  {
  }

  /** If every post is taken, the loop succeeds and adds exactly the fragments of the list. */
  lemma {:induction false} FragmentsAreFaithful(q: Queue, accepts: nat -> bool, iov: seq<Iov>, wrIdBase: nat,
                                                conn: uint16, gen: uint8, index: nat)
    requires 0 < q.config.maxSendSge <= MAX_SGES && forall k :: accepts(k)
    ensures var (q', ok) := PostFragments(q, accepts, iov, wrIdBase, conn, gen, index);
            && ok && q'.config == q.config && q.wire <= q'.wire
            && Fragments(q'.wire[|q.wire|..], iov, q.config.maxSendSge, wrIdBase, conn, gen, index)
    decreases |iov|
  {
    if iov != [] {
      var max := q.config.maxSendSge;
      var chunk := if |iov| < max then |iov| else max;
      var (q1, signaled) := if chunk == |iov| then ShouldSignal(q) else (q, false);
      var wr := WorkRequest(FragmentId(conn, gen, wrIdBase, index), iov[..chunk], signaled);
      var q2 := DoPost(q1, accepts, wr.sges, wr.wrId, signaled).0;
      assert q2.wire == q.wire + [wr] && q2.config == q.config;
      FragmentsAreFaithful(q2, accepts, iov[chunk..], wrIdBase, conn, gen, index + 1);
      var q' := PostFragments(q2, accepts, iov[chunk..], wrIdBase, conn, gen, index + 1).0;
      WireFrom(q.wire, wr, q'.wire);
      FirstFragment(wr, q'.wire[|q2.wire|..], iov, chunk, max, wrIdBase, conn, gen, index);
    }
  }

  lemma OneMoreFragment(k: nat, max: nat, n: nat, chunk: nat)
    requires 0 < chunk <= n && chunk == if n < max then n else max
    requires n - chunk > 0 ==> (k - 1) * max < n - chunk <= k * max
    requires n - chunk == 0 ==> k == 0
    ensures k * max < n <= (k + 1) * max
  {
    assert (k + 1) * max == k * max + max && k * max == (k - 1) * max + max;
  }

  /** The slot field of a fragment has the index in its high byte and the base below. */
  lemma FragmentSlotDigits(wrIdBase: nat, index: nat)
    ensures var s := FragmentSlot(wrIdBase, index);
            s / 0x100_0000 == index % 0x100 && s % 0x100_0000 == wrIdBase % 0x100_0000
  {
    var r := wrIdBase % TWO32;
    Digits(index % 0x100, r % 0x100_0000, 0x100_0000);
    LowDigits(wrIdBase);
  }

  lemma LowDigits(x: nat)
    ensures x % 0x1_0000_0000 % 0x100_0000 == x % 0x100_0000
  {
    var q, r := x / 0x1_0000_0000, x % 0x1_0000_0000;
    assert x == (0x100 * q + r / 0x100_0000) * 0x100_0000 + r % 0x100_0000;
    Digits(0x100 * q + r / 0x100_0000, r % 0x100_0000, 0x100_0000);
  }

  lemma FragmentIdFields(conn: uint16, gen: uint8, wrIdBase: nat, i: nat)
    ensures WrId.GetSlotIndex(FragmentId(conn, gen, wrIdBase, i)) == FragmentSlot(wrIdBase, i)
    ensures WrId.GetGeneration(FragmentId(conn, gen, wrIdBase, i)) == gen
  {
    WrId.FieldsOfEncoding(conn, REQUEST_SEND, gen, FragmentSlot(wrIdBase, i));
  }

  /** Fragment ids repeat exactly every 256 fragments, and the low 24 bits of the base survive. */
  lemma FragmentIdsDifferIff(conn: uint16, gen: uint8, wrIdBase: nat, i: nat, j: nat)
    ensures FragmentId(conn, gen, wrIdBase, i) == FragmentId(conn, gen, wrIdBase, j) <==> i % 0x100 == j % 0x100
    ensures WrId.GetSlotIndex(FragmentId(conn, gen, wrIdBase, i)) % 0x100_0000 == wrIdBase % 0x100_0000
    ensures WrId.GetGeneration(FragmentId(conn, gen, wrIdBase, i)) == gen
  {
    FragmentIdFields(conn, gen, wrIdBase, i);
    FragmentIdFields(conn, gen, wrIdBase, j);
    FragmentSlotDigits(wrIdBase, i);
    FragmentSlotDigits(wrIdBase, j);
  }

  /** So a fragment names the slot it was sent for only if its index is a multiple of 256. */
  lemma FragmentNamesSlotIff(conn: uint16, gen: uint8, slot: nat, i: nat)
    requires slot < 0x100_0000
    ensures WrId.GetSlotIndex(FragmentId(conn, gen, slot, i)) == slot <==> i % 0x100 == 0
  {
    FragmentIdFields(conn, gen, slot, i);
    FragmentSlotDigits(slot, i);
    Digits(0, slot, 0x100_0000);
  }

  // ----- signalling -----

  /** A queue with the signalled requests the hardware holds, and those it refused after they had
      been counted. */
  datatype Books = Books(queue: Queue, inFlight: nat, refused: nat)

  datatype Event = Post(taken: bool) | CompleteSignaled | CompleteUnsignaled

  /** Only signalled requests that were taken complete as signalled. */
  ghost predicate Enabled(b: Books, ev: Event) {
    ev.CompleteSignaled? ==> b.inFlight > 0
  }

  function Step(b: Books, ev: Event): Books
    requires Enabled(b, ev)
  {
    match ev
    case Post(taken) =>
      var (q, signaled) := ShouldSignal(b.queue);
      if !signaled then b.(queue := q)
      else if taken then b.(queue := q, inFlight := b.inFlight + 1)
      else b.(queue := q, refused := b.refused + 1)
    case CompleteSignaled => b.(queue := OnSendComplete(b.queue, true), inFlight := b.inFlight - 1)
    case CompleteUnsignaled => b.(queue := OnSendComplete(b.queue, false))
  }

  ghost predicate Balanced(b: Books) {
    b.queue.outstanding == b.inFlight + b.refused <= b.queue.config.cqDepth / 2
  }

  ghost predicate EnabledRun(b: Books, evs: seq<Event>)
    decreases |evs|
  {
    evs == [] || (Enabled(b, evs[0]) && EnabledRun(Step(b, evs[0]), evs[1..]))
  }

  ghost function Run(b: Books, evs: seq<Event>): Books
    requires EnabledRun(b, evs)
    decreases |evs|
  {
    if evs == [] then b else Run(Step(b, evs[0]), evs[1..])
  }

  /** In every run the counter is what is in flight plus what was refused, and never more than half the
      completion queue. */
  lemma {:induction false} OutstandingIsBounded(b: Books, evs: seq<Event>)
    requires Balanced(b) && EnabledRun(b, evs)
    ensures Balanced(Run(b, evs)) && Run(b, evs).queue.config == b.queue.config && Run(b, evs).refused >= b.refused
    decreases |evs|
  {
    if evs != [] {
      OutstandingIsBounded(Step(b, evs[0]), evs[1..]);
    }
  }

  /** Posts that are refused after they were counted are never taken off again: once half a completion
      queue of them has been lost, no request is signalled in any later state of any run; before that,
      draining what is in flight makes signalling possible again. */
  lemma RefusedPostsStopSignaling(b: Books, evs: seq<Event>)
    requires Balanced(b) && EnabledRun(b, evs)
    ensures b.refused == b.queue.config.cqDepth / 2 ==> !CanPostSignaled(Run(b, evs).queue)
    ensures Run(b, evs).inFlight == 0 && Run(b, evs).refused < b.queue.config.cqDepth / 2 ==>
              CanPostSignaled(Run(b, evs).queue)
  {
    OutstandingIsBounded(b, evs);
  }

  /** The posts of a run, each with whether it was signalled. */
  ghost function Signals(b: Books, evs: seq<Event>): seq<bool>
    requires EnabledRun(b, evs)
    decreases |evs|
  {
    if evs == [] then []
    else (if evs[0].Post? then [ShouldSignal(b.queue).1] else []) + Signals(Step(b, evs[0]), evs[1..])
  }

  /** Whenever a request is posted there is room for another signalled one. */
  ghost predicate NoBackpressure(b: Books, evs: seq<Event>)
    requires EnabledRun(b, evs)
    decreases |evs|
  {
    evs == [] || ((evs[0].Post? ==> CanPostSignaled(b.queue)) && NoBackpressure(Step(b, evs[0]), evs[1..]))
  }

  function Interval(c: Config): (n: nat)
    ensures n > 0
  {
    if c.signalInterval == 0 then 1 else c.signalInterval
  }

  lemma OnceAround(x: nat, d: nat)
    requires d > 0
    ensures (x + d) % d == x % d && (x + d) / d == x / d + 1
  {
    Digits(x / d + 1, x % d, d);
  }

  /** A count below `d` that moves on by one starts a new round at `d`. */
  lemma NextInRound(u: nat, n: nat, d: nat)
    requires u < d && n > 0
    ensures (u + n) / d == if u + 1 == d then 1 + (n - 1) / d else (u + 1 + (n - 1)) / d
  {
    if u + 1 == d {
      OnceAround(n - 1, d);
    }
  }

  /** Every n-th is set, counting from `u` + 1. */
  ghost predicate Periodic(signals: seq<bool>, u: nat, n: nat)
    requires n > 0
  {
    forall j :: 0 <= j < |signals| ==> (signals[j] <==> (u + j + 1) % n == 0)
  }

  lemma PeriodicFromFirst(signals: seq<bool>, u: nat, n: nat)
    requires u < n && signals != [] && (signals[0] <==> u + 1 == n)
    requires Periodic(signals[1..], if u + 1 == n then 0 else u + 1, n)
    ensures Periodic(signals, u, n)
  {
    forall j | 0 <= j < |signals|
      ensures signals[j] <==> (u + j + 1) % n == 0
    {
      if j == 0 {
        OnceAround(0, n);
        Digits(0, (u + 1) % n, n);
        assert u + 1 < n ==> (u + 1) % n == u + 1;
      } else {
        assert signals[j] == signals[1..][j - 1];
        if u + 1 == n {
          OnceAround(j, n);
        }
      }
    }
  }

  /** Without backpressure, in every run, every signalInterval-th request is signalled and no other;
      `unsignaled` says how far the count was at the start. */
  lemma {:induction false} SignalsComeInTime(b: Books, evs: seq<Event>)
    requires EnabledRun(b, evs) && NoBackpressure(b, evs) && b.queue.unsignaled < Interval(b.queue.config)
    ensures Periodic(Signals(b, evs), b.queue.unsignaled, Interval(b.queue.config))
    decreases |evs|
  {
    if evs != [] {
      var b1 := Step(b, evs[0]);
      SignalsComeInTime(b1, evs[1..]);
      if evs[0].Post? {
        PostMovesOn(b, evs[0].taken);
        assert Signals(b, evs)[1..] == Signals(b1, evs[1..]);
        PeriodicFromFirst(Signals(b, evs), b.queue.unsignaled, Interval(b.queue.config));
      } else {
        assert Signals(b, evs) == Signals(b1, evs[1..]);
      }
    }
  }

  function RefusedPosts(n: nat): seq<Event> {
    seq(n, _ => Post(false))
  }

  /** A queue on which nothing is in flight, and from which every request is refused. */
  lemma {:induction false} RefusalsAddUp(b: Books, n: nat)
    requires b.inFlight == 0 && b.queue.outstanding == b.refused && b.queue.unsignaled < Interval(b.queue.config)
    requires b.refused + (b.queue.unsignaled + n) / Interval(b.queue.config) <= b.queue.config.cqDepth / 2
    ensures EnabledRun(b, RefusedPosts(n))
    ensures var r := Run(b, RefusedPosts(n));
            && r.queue.config == b.queue.config && r.inFlight == 0 && r.queue.outstanding == r.refused
            && r.refused == b.refused + (b.queue.unsignaled + n) / Interval(b.queue.config)
    decreases n
  {
    var d, u := Interval(b.queue.config), b.queue.unsignaled;
    if n == 0 {
      Digits(0, u, d);
      assert u / d == 0;
    } else {
      NextInRound(u, n, d);
      RoundsAreCounted(u + n, d);
      PostMovesOn(b, false);
      assert RefusedPosts(n)[1..] == RefusedPosts(n - 1);
      RefusalsAddUp(Step(b, Post(false)), n - 1);
    }
  }

  lemma RoundsAreCounted(x: nat, d: nat)
    requires d > 0
    ensures x / d > 0 <==> x >= d
  {
    if x < d {
      Digits(0, x, d);
    } else {
      OnceAround(x - d, d);
    }
  }

  /** One post: signalled when the round is full and there is room. */
  lemma PostMovesOn(b: Books, taken: bool)
    requires b.queue.unsignaled < Interval(b.queue.config)
    requires b.queue.unsignaled + 1 < Interval(b.queue.config) || CanPostSignaled(b.queue)
    ensures var u, b', full := b.queue.unsignaled, Step(b, Post(taken)), b.queue.unsignaled + 1 == Interval(b.queue.config);
            && ShouldSignal(b.queue).1 == full && b'.queue.config == b.queue.config
            && b'.queue.unsignaled == (if full then 0 else u + 1)
            && (full && !taken ==> b'.refused == b.refused + 1 && b'.inFlight == b.inFlight
                                   && b'.queue.outstanding == b.queue.outstanding + 1)
            && (!full ==> b'.refused == b.refused && b'.inFlight == b.inFlight
                          && b'.queue.outstanding == b.queue.outstanding)
  {
  }

  /** So a new queue can lose signalling for good: after half a completion queue of intervals of refused
      requests, no request is signalled in any later state of any run. */
  lemma RefusalsCanStopSignaling(config: Config)
    ensures var b := Books(Queue(config, 0, 0, 0, []), 0, 0);
            var evs := RefusedPosts(config.cqDepth / 2 * Interval(config));
            && EnabledRun(b, evs)
            && forall later :: EnabledRun(Run(b, evs), later) ==> !CanPostSignaled(Run(Run(b, evs), later).queue)
  {
    var half, d := config.cqDepth / 2, Interval(config);
    var b, evs := Books(Queue(config, 0, 0, 0, []), 0, 0), RefusedPosts(half * d);
    Digits(half, 0, d);
    RefusalsAddUp(b, half * d);
    var r := Run(b, evs);
    forall later | EnabledRun(r, later)
      ensures !CanPostSignaled(Run(r, later).queue)
    {
      RefusedPostsStopSignaling(r, later);
    }
  }
}
