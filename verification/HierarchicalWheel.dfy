/** The two-level timing wheel: 256 buckets of one tick, 256 buckets of 256 ticks, and a pool of
    2^20 entries.  Lists 0..255 are level 1, lists 256..511 are level 2, list 512 is free. */
module HierarchicalWheel {
  import opened Base
  import opened EntryLists
  import T = Timer

  const LEVEL1_SIZE: nat := 256
  const LEVEL2_SIZE: nat := 256
  const FREE: nat := 512
  const MAX_ENTRIES: nat := 0x10_0000
  const ENTRY_BYTES: nat := 16

  /** The level-1 bucket a demoted entry lands in: taken from the entry's address, not from
      what is left of its timeout. */
  function Spread(base: nat, e: nat): (r: nat)
    ensures r < LEVEL1_SIZE
  {
    (base + ENTRY_BYTES * e) / 64 % LEVEL1_SIZE
  }

  /** The first step, at or after step `n`, at which a cursor that counts steps modulo 256 is at `b`. */
  function Next(n: nat, b: nat): nat
    requires b < 256
  {
    n + (b + 256 - n % 256) % 256
  }

  lemma NextIsStable(n: nat, b: nat)
    requires b < 256
    ensures Next(n, b) == n <==> b == n % 256
    ensures b != n % 256 ==> Next(n + 1, b) == Next(n, b)
  {
    assert (n + 1) % 256 == if n % 256 == 255 then 0 else n % 256 + 1;
  }

  lemma NextOfSum(n: nat, k: nat)
    ensures Next(n, (n % 256 + k) % 256) == n + k % 256
  {
  }

  /** The absolute tick at which an entry on bucket `b` is reported, if demotion would put it in
      level-1 bucket `r`. */
  function DueOf(now: nat, b: nat, r: nat): nat
    requires b < LEVEL1_SIZE + LEVEL2_SIZE
  {
    if b < LEVEL1_SIZE then Next(now, b)
    else LEVEL1_SIZE * (Next(now / LEVEL1_SIZE, b - LEVEL1_SIZE) + 1) + r
  }

  /** When a new entry with timeout `t` is reported. */
  function FiringTick(now: nat, t: nat, r: nat): nat {
    if t < LEVEL1_SIZE then now + t
    else LEVEL1_SIZE * (now / LEVEL1_SIZE + t / 256 % LEVEL2_SIZE + 1) + r
  }

  function TargetBucket(now: nat, t: nat): nat {
    if t < LEVEL1_SIZE then (now % LEVEL1_SIZE + t) % LEVEL1_SIZE
    else LEVEL1_SIZE + (now / LEVEL1_SIZE % LEVEL2_SIZE + t / 256) % LEVEL2_SIZE
  }

  lemma FiringBound(now: nat, t: nat, r: nat)
    requires r < LEVEL1_SIZE
    ensures t < LEVEL1_SIZE ==> FiringTick(now, t, r) == now + t
    ensures t >= LEVEL1_SIZE ==> now + t % 0x1_0000 - 254 <= FiringTick(now, t, r) <= now + t % 0x1_0000 + 511
    ensures FiringTick(now, t, r) >= now
  {
    SecondDigit(t);
    var a, b, c, d := now / LEVEL1_SIZE, now % LEVEL1_SIZE, t % 0x1_0000 / 256, t % 0x1_0000 % 256;
    assert now == LEVEL1_SIZE * a + b && t % 0x1_0000 == 256 * c + d;
    assert t >= LEVEL1_SIZE ==> FiringTick(now, t, r) == LEVEL1_SIZE * (a + c + 1) + r;
  }

  /** The second of the base-256 digits of a number. */
  lemma SecondDigit(t: nat)
    ensures t / 256 % 256 == t % 0x1_0000 / 256
  {
    var q, r := t / 0x1_0000, t % 0x1_0000;
    assert t == (q * 256 + r / 256) * 256 + r % 256;
    Digits(q * 256 + r / 256, r % 256, 256);
    Digits(q, r / 256, 256);
  }

  /** The timer once an entry has been scheduled, as Schedule leaves it. */
  ghost function Scheduled(t: T.Timer, base: nat, e: nat, slot: nat, gen: nat, timeout: uint32): T.Timer {
    T.Add(t, e, T.Pending(slot, gen, FiringTick(t.now, timeout, Spread(base, e))))
  }

  /** The documented precision of level 2 is 256 ticks.  What the code keeps in every run, for every
      wheel position and every bucket the demotion picks: an entry is first reported by exactly the
      (timeout + 1)-th later tick if the timeout is below 256, and otherwise, with the timeout cut to
      its remainder modulo 65536, at most 254 ticks before and 511 after that one. */
  lemma FiresInWindow(t: T.Timer, base: nat, e: nat, slot: nat, gen: nat, timeout: uint32, evs: seq<T.Event>)
    requires T.Inv(t) && e !in t.pending
    requires var t' := Scheduled(t, base, e, slot, gen, timeout);
             T.EnabledRun(t', evs)
             && |T.Reports(t', evs)| > if timeout < 256 then timeout else timeout % 0x1_0000 + 511
    ensures exists k: nat :: T.FirstReport(T.Reports(Scheduled(t, base, e, slot, gen, timeout), evs), e, k)
                        && if timeout < 256 then k == timeout
                           else timeout % 0x1_0000 - 254 <= k <= timeout % 0x1_0000 + 511
  {
    FiringBound(t.now, timeout, Spread(base, e));
    T.FirstReportIsWhenDue(Scheduled(t, base, e, slot, gen, timeout), evs, e);
  }

  /** Every entry of the pool lands in every bucket for some 64-byte aligned pool address. */
  lemma SpreadReaches(e: nat, r: nat)
    requires r < LEVEL1_SIZE
    ensures exists base :: base % 64 == 0 && Spread(base, e) == r
  {
    var b := (r + LEVEL1_SIZE - e / 4 % LEVEL1_SIZE) % LEVEL1_SIZE;
    var base := 64 * b;
    assert ENTRY_BYTES * e == 64 * (e / 4) + 16 * (e % 4);
    assert (base + ENTRY_BYTES * e) / 64 == b + e / 4;
    assert Spread(base, e) == r;
  }

  /** An aligned pool puts four entries in a row in each bucket, and so goes around every 1024 entries. */
  lemma SpreadGroupsFours(line: nat, e: nat)
    ensures Spread(64 * line, e) == (line + e / 4) % 256
  {
    assert ENTRY_BYTES * e == 64 * (e / 4) + 16 * (e % 4);
    assert (64 * line + ENTRY_BYTES * e) / 64 == line + e / 4;
  }

  ghost predicate AlwaysFiresAt(t: T.Timer, e: nat, k: nat) {
    forall evs :: T.EnabledRun(t, evs) && |T.Reports(t, evs)| > k ==> T.FirstReport(T.Reports(t, evs), e, k)
  }

  lemma {:induction false} IdleTicks(now: nat, n: nat)
    ensures T.EnabledRun(T.Timer(now, map[]), seq(n, _ => T.Tick))
    ensures T.Run(T.Timer(now, map[]), seq(n, _ => T.Tick)) == T.Timer(now + n, map[])
    decreases n
  {
    if n > 0 {
      assert seq(n, _ => T.Tick)[1..] == seq(n - 1, _ => T.Tick);
      assert T.Advance(T.Timer(now, map[])) == T.Timer(now + 1, map[]);
      IdleTicks(now + 1, n - 1);
    }
  }

  /** Both ends of the window are reached, whichever entry Schedule hands out: for some pool address,
      a timeout of 511 scheduled after 255 ticks of a new wheel fires 254 ticks early in every run,
      and for some other one a timeout of 256 scheduled at once fires 511 ticks late. */
  lemma FiringBoundIsTight(e: nat, slot: nat, gen: nat)
    ensures var start, later := T.Timer(0, map[]), T.Run(T.Timer(0, map[]), seq(255, _ => T.Tick));
            && (exists base :: base % 64 == 0 && AlwaysFiresAt(Scheduled(later, base, e, slot, gen, 511), e, 511 - 254))
            && (exists base :: base % 64 == 0 && AlwaysFiresAt(Scheduled(start, base, e, slot, gen, 256), e, 256 + 511))
  {
    IdleTicks(0, 255);
    SpreadReaches(e, 0);
    var early :| early % 64 == 0 && Spread(early, e) == 0;
    DueIsWhenItFires(T.Timer(255, map[]), early, e, slot, gen, 511);
    assert FiringTick(255, 511, 0) == 255 + 511 - 254;
    SpreadReaches(e, 255);
    var late :| late % 64 == 0 && Spread(late, e) == 255;
    DueIsWhenItFires(T.Timer(0, map[]), late, e, slot, gen, 256);
    assert FiringTick(0, 256, 255) == 256 + 511;
  }

  lemma DueIsWhenItFires(t: T.Timer, base: nat, e: nat, slot: nat, gen: nat, timeout: uint32)
    requires T.Inv(t) && e !in t.pending
    ensures FiringTick(t.now, timeout, Spread(base, e)) >= t.now
    ensures AlwaysFiresAt(Scheduled(t, base, e, slot, gen, timeout), e,
                          FiringTick(t.now, timeout, Spread(base, e)) - t.now)
  {
    FiringBound(t.now, timeout, Spread(base, e));
    var t', k := Scheduled(t, base, e, slot, gen, timeout), FiringTick(t.now, timeout, Spread(base, e)) - t.now;
    forall evs | T.EnabledRun(t', evs) && |T.Reports(t', evs)| > k
      ensures T.FirstReport(T.Reports(t', evs), e, k)
    {
      T.FirstReportIsWhenDue(t', evs, e);
    }
  }

  /** A timeout of 65536 or more is cut to its remainder, so it can fire 65281 ticks early. */
  lemma LongTimeoutsWrap(now: nat, t: nat, r: nat)
    requires t >= LEVEL1_SIZE
    ensures FiringTick(now, t + LEVEL1_SIZE * LEVEL2_SIZE, r) == FiringTick(now, t, r)
  {
    assert (t + 65536) / 256 == t / 256 + 256;
  }

  lemma TargetIsDue(now: nat, t: nat, r: nat)
    ensures DueOf(now, TargetBucket(now, t), r) == FiringTick(now, t, r)
  {
    NextOfSum(now, t);
    NextOfSum(now / LEVEL1_SIZE, t / 256);
  }

  predicate Wraps(now: nat) {
    (now + 1) % LEVEL1_SIZE == 0
  }

  function Demoted(now: nat): nat {
    LEVEL1_SIZE + now / LEVEL1_SIZE % LEVEL2_SIZE
  }

  lemma RoundOf(now: nat)
    ensures now == LEVEL1_SIZE * (now / LEVEL1_SIZE) + now % LEVEL1_SIZE
    ensures (now + 1) / LEVEL1_SIZE == now / LEVEL1_SIZE + if Wraps(now) then 1 else 0
    ensures Wraps(now) ==> now + 1 == LEVEL1_SIZE * (now / LEVEL1_SIZE + 1)
  {
  }

  lemma CursorStep(now: nat)
    ensures (now + 1) % LEVEL1_SIZE == (now % LEVEL1_SIZE + 1) % LEVEL1_SIZE
    ensures (now + 1) / LEVEL1_SIZE % LEVEL2_SIZE ==
              if Wraps(now) then (now / LEVEL1_SIZE % LEVEL2_SIZE + 1) % LEVEL2_SIZE else now / LEVEL1_SIZE % LEVEL2_SIZE
  {
    RoundOf(now);
  }

  /** Advancing the clock keeps the tick of every bucket except the drained one, and demoting a
      level-2 bucket at the end of a round keeps the tick of its entries. */
  lemma DueIsStable(now: nat, b: nat, r: nat)
    requires b < FREE && r < LEVEL1_SIZE
    ensures DueOf(now, b, r) == now <==> b == now % LEVEL1_SIZE
    ensures DueOf(now, b, r) >= now
    ensures b != now % LEVEL1_SIZE && !(Wraps(now) && b == Demoted(now)) ==> DueOf(now + 1, b, r) == DueOf(now, b, r)
    ensures Wraps(now) && b == Demoted(now) ==> DueOf(now + 1, r, r) == DueOf(now, b, r)
  {
    if b < LEVEL1_SIZE {
      NextIsStable(now, b);
    } else {
      LongDueIsStable(now, b, r);
    }
  }

  lemma LongDueIsStable(now: nat, b: nat, r: nat)
    requires LEVEL1_SIZE <= b < FREE && r < LEVEL1_SIZE
    ensures DueOf(now, b, r) > now
    ensures !(Wraps(now) && b == Demoted(now)) ==> DueOf(now + 1, b, r) == DueOf(now, b, r)
    ensures Wraps(now) && b == Demoted(now) ==> DueOf(now + 1, r, r) == DueOf(now, b, r)
  {
    RoundOf(now);
    var round, q := now / LEVEL1_SIZE, b - LEVEL1_SIZE;
    var k := Next(round, q);
    assert k >= round && DueOf(now, b, r) == LEVEL1_SIZE * (k + 1) + r;
    NextIsStable(round, q);
    if Wraps(now) && q == round % 256 {
      NextOfMultiple(round + 1, r);
    }
  }

  lemma NextOfMultiple(m: nat, r: nat)
    requires r < 256
    ensures Next(256 * m, r) == 256 * m + r
  {
    assert 256 * m % 256 == 0;
  }

  ghost predicate Represents(t: T.Timer, now: nat, base: nat, es: seq<Entry>, v: View) {
    && |v.owner| == |es| && t.now == now
    && (forall e: nat :: e in t.pending <==> e < |es| && 0 <= v.owner[e] < FREE)
    && (forall e: nat :: e in t.pending ==>
          t.pending[e] == T.Pending(es[e].slot, es[e].gen, DueOf(now, v.owner[e], Spread(base, e))))
  }

  /** The free list and the pending entries share out the pool. */
  lemma FreeChainComplementsPending(t: T.Timer, now: nat, base: nat, es: seq<Entry>, heads: seq<int>, v: View)
    requires Represents(t, now, base, es, v) && Shape(es, heads, v) && |heads| == FREE + 1
    requires forall e :: 0 <= e < |es| ==> v.owner[e] != LOOSE
    ensures |v.chains[FREE]| + |t.pending| == |es|
  {
    var order := TopFirst(v.chains[FREE]);
    assert ListOk(es, v, heads[FREE], FREE);
    TopFirstEnumerates(es, v, heads[FREE], FREE);
    T.DistinctSeqSize(order);
    forall e: nat | e < |es|
      ensures 0 <= v.owner[e] <= FREE
    {
      assert Placed(v, e);
    }
    T.DisjointUnionSize(T.Elements(order), t.pending.Keys, Below(|es|));
    assert |t.pending| == |t.pending.Keys|;
  }

  lemma PushIsAdd(timer: T.Timer, now: nat, base: nat, es: seq<Entry>, v: View, e: nat, es': seq<Entry>, v': View,
                  slot: nat, gen: nat, t: nat)
    requires Represents(timer, now, base, es, v) && e < |es|
    requires Inserted(es, v, es', v', e, TargetBucket(now, t), slot, gen)
    ensures Represents(T.Add(timer, e, T.Pending(slot, gen, FiringTick(now, t, Spread(base, e)))), now, base, es', v')
  {
    TargetIsDue(now, t, Spread(base, e));
  }

  lemma BucketEnumeratesDue(t: T.Timer, now: nat, base: nat, es: seq<Entry>, heads: seq<int>, v: View)
    requires Represents(t, now, base, es, v) && Shape(es, heads, v) && |heads| == FREE + 1
    ensures T.Enumerates(t, TopFirst(v.chains[now % LEVEL1_SIZE]))
  {
    var b := now % LEVEL1_SIZE;
    assert ListOk(es, v, heads[b], b);
    TopFirstEnumerates(es, v, heads[b], b);
    forall e <- t.pending
      ensures e in T.Due(t) <==> v.owner[e] == b
    {
      DueIsStable(now, v.owner[e], Spread(base, e));
    }
  }

  lemma HeldIsReported(t: T.Timer, now: nat, base: nat, es: seq<Entry>, v: View, order: seq<nat>, held: seq<(nat, nat)>)
    requires Represents(t, now, base, es, v) && Holding(es, order, held) && T.Enumerates(t, order)
    ensures T.Reported(t, order, held)
  {
    forall i | 0 <= i < |order|
      ensures order[i] in T.Due(t)
    {
      assert order[i] in order;
    }
  }

  /** Draining the current level-1 bucket and, at the end of a round, demoting the current level-2
      bucket is one tick of the clock. */
  lemma DrainsAreTick(t: T.Timer, now: nat, base: nat, es: seq<Entry>, v: View, es1: seq<Entry>, v1: View,
                      es': seq<Entry>, v': View, free: nat -> nat, spread: nat -> nat)
    requires Represents(t, now, base, es, v) && SameTokens(es, es1) && SameTokens(es1, es') && |v'.owner| == |es|
    requires forall e: nat :: free(e) == FREE && spread(e) == Spread(base, e)
    requires Moved(v, v1, now % LEVEL1_SIZE, 0, free)
    requires if Wraps(now) then Moved(v1, v', Demoted(now), 0, spread) else v' == v1
    ensures Represents(T.Advance(t), now + 1, base, es', v')
  {
    forall e <- t.pending
      ensures e in T.Due(t) <==> v.owner[e] == now % LEVEL1_SIZE
      ensures e !in T.Due(t) ==>
                0 <= v'.owner[e] < FREE &&
                DueOf(now + 1, v'.owner[e], Spread(base, e)) == DueOf(now, v.owner[e], Spread(base, e))
    {
      DueIsStable(now, v.owner[e], Spread(base, e));
    }
  }

  class HierarchicalTimingWheel {
    const lists: Lists
    const base: nat
    var level1: nat
    var level2: nat
    /** What the wheel means: the clock and the pending entries. */
    ghost var timer: T.Timer

    ghost predicate Valid()
      reads this, lists, lists.entries, lists.heads
      ensures Valid() ==> forall e <- timer.pending :: e < MAX_ENTRIES
    {
      && lists.Valid() && lists.AllListed()
      && lists.entries.Length == MAX_ENTRIES && lists.heads.Length == FREE + 1
      && level1 == timer.now % LEVEL1_SIZE && level2 == timer.now / LEVEL1_SIZE % LEVEL2_SIZE
      && Represents(timer, timer.now, base, lists.entries[..], lists.view)
    }

    /** `poolAddress` is where the allocator put the entry pool. */
    constructor (poolAddress: nat)
      ensures Valid() && timer == T.Timer(0, map[]) && base == poolAddress
      ensures fresh(lists) && fresh(lists.entries) && fresh(lists.heads)
    {
      lists := new Lists(MAX_ENTRIES, FREE);
      base := poolAddress;
      level1, level2, timer := 0, 0, T.Timer(0, map[]);
    }

    /** Fails exactly when every entry of the pool is pending; otherwise one more entry becomes
        pending, due at the tick FiringTick gives. */
    method Schedule(slot: nat, gen: nat, timeout: uint32) returns (ok: bool, ghost e: nat, ghost p: T.Pending)
      requires Valid()
      modifies this, lists, lists.entries, lists.heads
      ensures Valid()
      ensures ok <==> |old(timer).pending| < MAX_ENTRIES
      ensures !ok ==> timer == old(timer)
      ensures ok ==> p == T.Pending(slot, gen, FiringTick(timer.now, timeout, Spread(base, e)))
      ensures ok ==> e !in old(timer).pending && e < MAX_ENTRIES && timer == T.Add(old(timer), e, p)
    {
      ghost var es, v := lists.entries[..], lists.view;
      FreeChainComplementsPending(timer, timer.now, base, es, lists.heads[..], v);
      var target := Target(timeout);
      var entry := lists.Insert(target, slot, gen);
      if entry == NIL {
        return false, 0, T.Pending(slot, gen, 0);
      }
      e := entry;
      PushIsAdd(timer, timer.now, base, es, v, e, lists.entries[..], lists.view, slot, gen, timeout);
      p := T.Pending(slot, gen, FiringTick(timer.now, timeout, Spread(base, e)));
      timer := T.Add(timer, e, p);
      ok := true;
    }

    /** The bucket a timeout goes to, counted from the cursors. */
    method Target(timeout: uint32) returns (b: nat)
      requires level1 == timer.now % LEVEL1_SIZE && level2 == timer.now / LEVEL1_SIZE % LEVEL2_SIZE
      ensures b == TargetBucket(timer.now, timeout) < FREE
    {
      if timeout < LEVEL1_SIZE {
        b := (level1 + timeout) % LEVEL1_SIZE;
      } else {
        b := LEVEL1_SIZE + (level2 + timeout / 256) % LEVEL2_SIZE;
      }
    }

    /** Empties the current level-1 bucket into the free list and reports what it held. */
    method Report(ghost free: nat -> nat) returns (expired: seq<(nat, nat)>, ghost order: seq<nat>)
      requires Valid() && forall e: nat :: free(e) == FREE
      modifies lists, lists.entries, lists.heads
      ensures lists.Valid() && lists.AllListed() && |lists.view.owner| == MAX_ENTRIES
      ensures SameTokens(old(lists.entries[..]), lists.entries[..])
      ensures Moved(old(lists.view), lists.view, level1, 0, free)
      ensures T.Enumerates(timer, order) && T.Reported(timer, order, expired)
    {
      ghost var es, v := lists.entries[..], lists.view;
      order := TopFirst(v.chains[level1]);
      BucketEnumeratesDue(timer, timer.now, base, es, lists.heads[..], v);
      var toFree := (e: nat) => FREE;
      expired := lists.Drain(level1, toFree);
      assert forall e: nat :: toFree(e) == free(e);
      HeldIsReported(timer, timer.now, base, es, v, order, expired);
    }

    /** Reports exactly the entries that are due, each once, and advances the clock. */
    method Tick() returns (expired: seq<(nat, nat)>, ghost order: seq<nat>)
      requires Valid()
      modifies this, lists, lists.entries, lists.heads
      ensures Valid() && timer == T.Advance(old(timer))
      ensures T.Enumerates(old(timer), order) && T.Reported(old(timer), order, expired)
    {
      ghost var now, es, v := timer.now, lists.entries[..], lists.view;
      ghost var free, spread := (e: nat) => FREE, (e: nat) => Spread(base, e);
      expired, order := Report(free);
      ghost var es1, v1 := lists.entries[..], lists.view;
      Turn(spread);
      DrainsAreTick(timer, now, base, es, v, es1, v1, lists.entries[..], lists.view, free, spread);
      timer := T.Advance(timer);
    }

    /** Advances the level-1 cursor and, when it wraps, demotes a level-2 bucket. */
    method Turn(ghost spread: nat -> nat)
      requires lists.Valid() && lists.AllListed() && lists.heads.Length == FREE + 1
      requires level1 == timer.now % LEVEL1_SIZE && level2 == timer.now / LEVEL1_SIZE % LEVEL2_SIZE
      requires forall e: nat :: spread(e) == Spread(base, e)
      modifies `level1, `level2, lists, lists.entries, lists.heads
      ensures lists.Valid() && lists.AllListed()
      ensures level1 == (timer.now + 1) % LEVEL1_SIZE && level2 == (timer.now + 1) / LEVEL1_SIZE % LEVEL2_SIZE
      ensures SameTokens(old(lists.entries[..]), lists.entries[..])
      ensures if Wraps(timer.now) then Moved(old(lists.view), lists.view, Demoted(timer.now), 0, spread)
              else lists.view == old(lists.view)
    {
      CursorStep(timer.now);
      level1 := (level1 + 1) % LEVEL1_SIZE;
      if level1 == 0 {
        var address := base;
        var target := (e: nat) => Spread(address, e);
        var _ := lists.Drain(LEVEL1_SIZE + level2, target);
        assert forall e: nat :: target(e) == spread(e);
        level2 := (level2 + 1) % LEVEL2_SIZE;
      }
    }

    /** Walks the free list; what it counts is what is not pending. */
    method GetFreeCount() returns (count: nat)
      requires Valid()
      ensures count + |timer.pending| == MAX_ENTRIES
    {
      count := 0;
      var entry := lists.heads[FREE];
      ghost var chain := lists.view.chains[FREE];
      assert ListOk(lists.entries[..], lists.view, lists.heads[..][FREE], FREE);
      while entry != NIL
        invariant count <= |chain| && entry == Top(chain[..|chain| - count])
        decreases |chain| - count
      {
        count := count + 1;
        assert lists.entries[..][chain[|chain| - count]].next == Top(chain[..|chain| - count]);
        entry := lists.entries[entry].next;
      }
      FreeChainComplementsPending(timer, timer.now, base, lists.entries[..], lists.heads[..], lists.view);
    }
  }
}
