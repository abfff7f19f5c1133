/** The single-level timing wheel: 1024 buckets over a pool of 65536 entries. */
module TimingWheel {
  import opened Base
  import opened EntryLists
  import T = Timer

  const WHEEL_SIZE: nat := 1024
  const MAX_ENTRIES: nat := 65536

  /** The absolute tick at which bucket `b` is next drained, on or after `now`. */
  function DueOf(now: nat, b: nat): nat
    requires b < WHEEL_SIZE
  {
    now + (b + WHEEL_SIZE - now % WHEEL_SIZE) % WHEEL_SIZE
  }

  /** The bucket picked for a timeout falls due `timeout mod 1024` ticks from now, even when the
      32-bit sum of the cursor and the timeout wraps. */
  lemma TargetIsDue(now: nat, timeout: uint32)
    ensures var b := (now % WHEEL_SIZE + timeout) % TWO32 % WHEEL_SIZE;
            DueOf(now, b) == now + timeout % WHEEL_SIZE
  {
  }

  /** Once scheduled, an entry is first reported by the (timeout mod 1024 + 1)-th later tick of every
      run, whatever else is scheduled. */
  lemma FiresInTime(t: T.Timer, e: nat, slot: nat, gen: nat, timeout: uint32, evs: seq<T.Event>)
    requires T.Inv(t) && e !in t.pending
    requires var t' := T.Add(t, e, T.Pending(slot, gen, t.now + timeout % 1024));
             T.EnabledRun(t', evs) && |T.Reports(t', evs)| > timeout % 1024
    ensures var t' := T.Add(t, e, T.Pending(slot, gen, t.now + timeout % 1024));
            T.FirstReport(T.Reports(t', evs), e, timeout % 1024)
  {
    T.FirstReportIsWhenDue(T.Add(t, e, T.Pending(slot, gen, t.now + timeout % 1024)), evs, e);
  }

  lemma OtherBucketsKeepTheirTick(now: nat, b: nat)
    requires b < WHEEL_SIZE
    ensures DueOf(now, b) == now <==> b == now % WHEEL_SIZE
    ensures b != now % WHEEL_SIZE ==> DueOf(now + 1, b) == DueOf(now, b)
  {
    assert (now + 1) % WHEEL_SIZE == if now % WHEEL_SIZE == WHEEL_SIZE - 1 then 0 else now % WHEEL_SIZE + 1;
  }

  /** Bucketed entries are pending until their bucket is next drained. */
  ghost predicate Represents(t: T.Timer, now: nat, es: seq<Entry>, v: View) {
    && |v.owner| == |es| && t.now == now
    && (forall e: nat :: e in t.pending <==> e < |es| && 0 <= v.owner[e] < WHEEL_SIZE)
    && (forall e: nat :: e in t.pending ==> t.pending[e] == T.Pending(es[e].slot, es[e].gen, DueOf(now, v.owner[e])))
  }

  /** The free list is empty exactly when all entries are pending. */
  lemma FreeListEmptyIffFull(t: T.Timer, now: nat, es: seq<Entry>, heads: seq<int>, v: View)
    requires Represents(t, now, es, v) && Shape(es, heads, v) && |heads| == WHEEL_SIZE + 1
    requires forall e :: 0 <= e < |es| ==> v.owner[e] != LOOSE
    ensures |t.pending| <= |es|
    ensures v.chains[WHEEL_SIZE] == [] <==> |t.pending| == |es|
  {
    MissingMember(t.pending.Keys, |es|);
    assert |t.pending| == |t.pending.Keys|;
    if v.chains[WHEEL_SIZE] == [] {
      forall e: nat | e < |es|
        ensures e in t.pending.Keys
      {
        assert Placed(v, e);
      }
    } else {
      assert ListOk(es, v, heads[WHEEL_SIZE], WHEEL_SIZE);
      var e := v.chains[WHEEL_SIZE][0];
      assert e < |es| && e !in t.pending.Keys;
    }
  }

  /** Filling an entry and pushing it onto the bucket a timeout picks makes that entry, and no
      other, pending until its time. */
  lemma PushIsAdd(t: T.Timer, now: nat, es: seq<Entry>, v: View, e: nat, es': seq<Entry>, v': View,
                  slot: nat, gen: nat, timeout: uint32)
    requires Represents(t, now, es, v) && e < |es|
    requires Inserted(es, v, es', v', e, (now % WHEEL_SIZE + timeout) % TWO32 % WHEEL_SIZE, slot, gen)
    ensures Represents(T.Add(t, e, T.Pending(slot, gen, now + timeout % WHEEL_SIZE)), now, es', v')
  {
    TargetIsDue(now, timeout);
  }

  /** Moving the entries of the current bucket to the free list is one tick of the clock. */
  lemma DrainIsTick(t: T.Timer, now: nat, es: seq<Entry>, v: View, es': seq<Entry>, v': View, target: nat -> nat)
    requires Represents(t, now, es, v) && SameTokens(es, es')
    requires Moved(v, v', now % WHEEL_SIZE, 0, target)
    requires forall e: nat :: target(e) == WHEEL_SIZE
    ensures Represents(T.Advance(t), now + 1, es', v')
  {
    forall e <- t.pending
      ensures e in T.Due(t) <==> v.owner[e] == now % WHEEL_SIZE
      ensures e !in T.Due(t) ==> DueOf(now + 1, v.owner[e]) == DueOf(now, v.owner[e])
    {
      OtherBucketsKeepTheirTick(now, v.owner[e]);
    }
  }

  /** Walking that bucket from its head enumerates what the tick reports. */
  lemma BucketEnumeratesDue(t: T.Timer, now: nat, es: seq<Entry>, heads: seq<int>, v: View)
    requires Represents(t, now, es, v) && Shape(es, heads, v) && |heads| == WHEEL_SIZE + 1
    ensures T.Enumerates(t, TopFirst(v.chains[now % WHEEL_SIZE]))
  {
    var b := now % WHEEL_SIZE;
    assert ListOk(es, v, heads[b], b);
    TopFirstEnumerates(es, v, heads[b], b);
    forall e <- t.pending
      ensures e in T.Due(t) <==> v.owner[e] == b
    {
      OtherBucketsKeepTheirTick(now, v.owner[e]);
    }
  }

  lemma HeldIsReported(t: T.Timer, now: nat, es: seq<Entry>, v: View, order: seq<nat>, held: seq<(nat, nat)>)
    requires Represents(t, now, es, v) && Holding(es, order, held) && T.Enumerates(t, order)
    ensures T.Reported(t, order, held)
  {
    forall i | 0 <= i < |order|
      ensures order[i] in T.Due(t)
    {
      assert order[i] in order;
    }
  }

  class TimingWheel {
    const lists: Lists
    var current: nat
    /** What the wheel means: the clock and the pending entries. */
    ghost var timer: T.Timer

    ghost predicate Valid()
      reads this, lists, lists.entries, lists.heads
      ensures Valid() ==> forall e <- timer.pending :: e < MAX_ENTRIES
    {
      && lists.Valid() && lists.AllListed()
      && lists.entries.Length == MAX_ENTRIES && lists.heads.Length == WHEEL_SIZE + 1
      && current == timer.now % WHEEL_SIZE
      && Represents(timer, timer.now, lists.entries[..], lists.view)
    }

    constructor ()
      ensures Valid() && timer == T.Timer(0, map[])
      ensures fresh(lists) && fresh(lists.entries) && fresh(lists.heads)
    {
      lists := new Lists(MAX_ENTRIES, WHEEL_SIZE);
      current := 0;
      timer := T.Timer(0, map[]);
    }

    /** Fails exactly when every entry of the pool is pending; otherwise one more entry becomes
        pending, due `timeout mod 1024` ticks from now. */
    method Schedule(slot: nat, gen: nat, timeout: uint32) returns (ok: bool, ghost e: nat, ghost p: T.Pending)
      requires Valid()
      modifies this, lists, lists.entries, lists.heads
      ensures Valid()
      ensures ok <==> |old(timer).pending| < MAX_ENTRIES
      ensures !ok ==> timer == old(timer)
      ensures p == T.Pending(slot, gen, timer.now + timeout % WHEEL_SIZE)
      ensures ok ==> e !in old(timer).pending && e < MAX_ENTRIES && timer == T.Add(old(timer), e, p)
    {
      p := T.Pending(slot, gen, timer.now + timeout % WHEEL_SIZE);
      ghost var es, v := lists.entries[..], lists.view;
      FreeListEmptyIffFull(timer, timer.now, es, lists.heads[..], v);
      var entry := lists.Insert((current + timeout) % TWO32 % WHEEL_SIZE, slot, gen);
      if entry == NIL {
        return false, 0, p;
      }
      e := entry;
      PushIsAdd(timer, timer.now, es, v, e, lists.entries[..], lists.view, slot, gen, timeout);
      timer := T.Add(timer, e, p);
      ok := true;
    }

    /** Reports exactly the entries that are due, each once, and advances the clock. */
    method Tick() returns (expired: seq<(nat, nat)>, ghost order: seq<nat>)
      requires Valid()
      modifies this, lists, lists.entries, lists.heads
      ensures Valid() && timer == T.Advance(old(timer))
      ensures T.Enumerates(old(timer), order) && T.Reported(old(timer), order, expired)
    {
      ghost var es, v := lists.entries[..], lists.view;
      order := TopFirst(v.chains[current]);
      BucketEnumeratesDue(timer, timer.now, es, lists.heads[..], v);
      var free := (e: nat) => WHEEL_SIZE;
      expired := lists.Drain(current, free);
      HeldIsReported(timer, timer.now, es, v, order, expired);
      DrainIsTick(timer, timer.now, es, v, lists.entries[..], lists.view, free);
      current, timer := (current + 1) % WHEEL_SIZE, T.Advance(timer);
    }
  }
}
