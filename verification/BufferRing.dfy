/** The ring of free buffer offsets as a value, and what runs of allocations and frees keep. */
module BufferRing {
  import opened Base

  datatype Policy = Fifo | Lifo

  /** `tail` is where the next freed offset goes; a new pool has it one past the end. */
  datatype Ring = Ring(offsets: seq<nat>, head: nat, tail: nat, count: nat, policy: Policy)

  ghost predicate Shape(r: Ring) {
    && 0 < |r.offsets| && r.head < |r.offsets| && r.count <= |r.offsets|
    && (if r.tail == |r.offsets| then 0 else r.tail) == RingAt(r.head, r.count, |r.offsets|)
  }

  function Created(n: nat, size: nat, policy: Policy): Ring {
    Ring(seq(n, i requires 0 <= i < n => i * size), 0, n, n, policy)
  }

  /** Takes an offset from the head, or from below the tail, unless none is left. */
  function Allocate(r: Ring): (Ring, Option<nat>)
    requires Shape(r)
  {
    var n := |r.offsets|;
    if r.count == 0 then (r, None)
    else if r.policy == Fifo then
      (r.(head := (r.head + 1) % n, count := r.count - 1), Some(r.offsets[r.head]))
    else
      var t := (r.tail + n - 1) % n;
      (r.(tail := t, count := r.count - 1), Some(r.offsets[t]))
  }

  /** Puts an offset at the tail; the write is in bounds only there. */
  function Free(r: Ring, offset: nat): Ring
    requires Shape(r) && r.tail < |r.offsets|
  {
    r.(offsets := r.offsets[r.tail := offset], tail := (r.tail + 1) % |r.offsets|, count := r.count + 1)
  }

  /** The free offsets, oldest first. */
  function Available(r: Ring): (s: seq<nat>)
    requires Shape(r)
    ensures |s| == r.count
  {
    seq(r.count, i requires 0 <= i < r.count => r.offsets[RingAt(r.head, i, |r.offsets|)])
  }

  /** A first-in pool hands out the oldest free offset, a last-in pool the newest. */
  lemma AllocateTakes(r: Ring)
    requires Shape(r) && r.count > 0
    ensures var (r', offset) := Allocate(r);
            && Shape(r') && |r'.offsets| == |r.offsets| && r'.policy == r.policy && offset.Some?
            && (r.policy == Fifo ==> Available(r) == [offset.value] + Available(r') && r'.tail == r.tail)
            && (r.policy == Lifo ==> Available(r) == Available(r') + [offset.value] && r'.tail < |r.offsets|)
  {
    var n, r' := |r.offsets|, Allocate(r).0;
    RingStep(r.head, 0, n);
    RingStep(r.head, r.count - 1, n);
    if r.policy == Fifo {
      assert forall i :: 0 <= i < r.count - 1 ==> RingAt(r'.head, i, n) == RingAt(r.head, i + 1, n);
    } else {
      TailBefore(r.tail, n);
      assert r'.tail == RingAt(r.head, r.count - 1, n);
    }
  }

  lemma TailBefore(tail: nat, n: nat)
    requires 0 < n && tail <= n
    ensures (tail + n - 1) % n == if tail == 0 then n - 1 else tail - 1
  {
    if tail > 0 {
      Digits(1, tail - 1, n);
    } else {
      Digits(0, n - 1, n);
    }
  }

  lemma FreeAppends(r: Ring, offset: nat)
    requires Shape(r) && r.tail < |r.offsets| && r.count < |r.offsets|
    ensures Shape(Free(r, offset)) && Available(Free(r, offset)) == Available(r) + [offset]
    ensures Free(r, offset).tail < |r.offsets|
  {
    RingStep(r.head, r.count, |r.offsets|);
    assert forall i, j :: 0 <= i < j <= r.count ==> RingAt(r.head, i, |r.offsets|) != RingAt(r.head, j, |r.offsets|);
  }

  // ----- books -----

  function Offsets(n: nat, size: nat): set<nat> {
    set i: nat | i < n :: i * size
  }

  ghost predicate Distinct(s: seq<nat>) {
    forall i, j :: 0 <= i < j < |s| ==> s[i] != s[j]
  }

  /** The free offsets and the ones handed out make up the pool, each offset once. */
  ghost predicate Books(r: Ring, out: set<nat>, n: nat, size: nat) {
    && Shape(r) && |r.offsets| == n && Distinct(Available(r))
    && (forall x :: x in Available(r) ==> x !in out)
    && (forall x :: x in Available(r) || x in out <==> x in Offsets(n, size))
    && r.count + |out| == n
  }

  lemma {:induction false} MultiplesAscend(i: nat, j: nat, size: nat)
    requires i < j && 0 < size
    ensures i * size < j * size
  {
    if i < j - 1 {
      MultiplesAscend(i, j - 1, size);
    }
    assert j * size == (j - 1) * size + size;
  }

  lemma CreatedBooks(n: nat, size: nat, policy: Policy)
    requires 0 < n && 0 < size
    ensures Books(Created(n, size, policy), {}, n, size)
    ensures Books(Created(n, size, policy).(tail := 0), {}, n, size)
  {
    var r := Created(n, size, policy);
    assert Available(r) == r.offsets && Available(r.(tail := 0)) == r.offsets;
    forall i, j | 0 <= i < j < n
      ensures r.offsets[i] != r.offsets[j]
    {
      MultiplesAscend(i, j, size);
    }
    CreatedOffsets(n, size, policy);
  }

  lemma CreatedOffsets(n: nat, size: nat, policy: Policy)
    ensures forall x :: x in Created(n, size, policy).offsets <==> x in Offsets(n, size)
  {
    var offsets := Created(n, size, policy).offsets;
    forall x | x in Offsets(n, size)
      ensures x in offsets
    {
      var i: nat :| i < n && x == i * size;
      assert offsets[i] == x;
    }
  }

  /** An allocation never hands out what is already out. */
  lemma AllocateKeepsBooks(r: Ring, out: set<nat>, n: nat, size: nat)
    requires Books(r, out, n, size) && r.count > 0
    ensures var (r', offset) := Allocate(r);
            offset.Some? && offset.value !in out && offset.value in Offsets(n, size)
            && Books(r', out + {offset.value}, n, size)
  {
    AllocateTakes(r);
    var r', x, s := Allocate(r).0, Allocate(r).1.value, Available(r);
    var s' := Available(r');
    if r.policy == Fifo {
      assert s[0] == x && forall i :: 0 <= i < |s'| ==> s'[i] == s[i + 1];
    } else {
      assert s[|s'|] == x && forall i :: 0 <= i < |s'| ==> s'[i] == s[i];
    }
    assert x in s && x !in s';
    assert forall y :: y in s <==> y in s' || y == x;
  }

  lemma FreeKeepsBooks(r: Ring, out: set<nat>, n: nat, size: nat, x: nat)
    requires Books(r, out, n, size) && x in out && r.tail < n
    ensures Books(Free(r, x), out - {x}, n, size)
  {
    assert |out - {x}| == |out| - 1;
    FreeAppends(r, x);
    assert forall y :: y in Available(Free(r, x)) <==> y in Available(r) || y == x;
  }

  // ----- runs -----

  datatype Event = Get | Put(offset: nat)

  /** Callers free only what they hold. */
  ghost predicate Enabled(out: set<nat>, ev: Event) {
    ev.Put? ==> ev.offset in out
  }

  /** What the ring and the set of offsets handed out become. */
  function Step(r: Ring, out: set<nat>, ev: Event): (Ring, set<nat>)
    requires Shape(r) && (ev.Put? ==> r.tail < |r.offsets|)
  {
    match ev
    case Get => var a := Allocate(r); (a.0, if a.1.Some? then out + {a.1.value} else out)
    case Put(x) => (Free(r, x), out - {x})
  }

  /** Nothing has been handed out as long as the tail is past the end. */
  ghost predicate TailOk(r: Ring, out: set<nat>) {
    r.tail < |r.offsets| || (r.policy == Lifo && out == {})
  }

  lemma StepKeepsBooks(r: Ring, out: set<nat>, n: nat, size: nat, ev: Event)
    requires Books(r, out, n, size) && TailOk(r, out) && Enabled(out, ev)
    ensures ev.Put? ==> r.tail < n
    ensures var (r', out') := Step(r, out, ev); Books(r', out', n, size) && TailOk(r', out')
  {
    match ev
    case Get =>
      if r.count > 0 {
        AllocateTakes(r);
        AllocateKeepsBooks(r, out, n, size);
      }
    case Put(x) =>
      FreeKeepsBooks(r, out, n, size, x);
      FreeAppends(r, x);
  }

  ghost predicate IsRun(states: seq<(Ring, set<nat>)>, evs: seq<Event>) {
    && |states| == |evs| + 1
    && forall i :: 0 <= i < |evs| ==>
         && Enabled(states[i].1, evs[i]) && Shape(states[i].0)
         && (evs[i].Put? ==> states[i].0.tail < |states[i].0.offsets|)
         && states[i + 1] == Step(states[i].0, states[i].1, evs[i])
  }

  /** In every run no offset is lost or handed out twice, from any state in which the books are right
      and the tail is inside the ring once something is out. */
  lemma {:induction false} RunsKeepBooks(states: seq<(Ring, set<nat>)>, evs: seq<Event>, n: nat, size: nat, k: nat)
    requires IsRun(states, evs) && k <= |evs|
    requires Books(states[0].0, states[0].1, n, size) && TailOk(states[0].0, states[0].1)
    ensures Books(states[k].0, states[k].1, n, size) && TailOk(states[k].0, states[k].1)
  {
    if k > 0 {
      RunsKeepBooks(states, evs, n, size, k - 1);
      StepKeepsBooks(states[k - 1].0, states[k - 1].1, n, size, evs[k - 1]);
    }
  }

  /** In particular from a new last-in pool as it is written, and under either policy from a pool whose
      tail has been reduced to 0. */
  lemma NewPoolsKeepBooks(states: seq<(Ring, set<nat>)>, evs: seq<Event>, n: nat, size: nat, k: nat)
    requires 0 < n && 0 < size && IsRun(states, evs) && k <= |evs| && states[0].1 == {}
    requires states[0].0 == Created(n, size, Lifo)
             || exists policy :: states[0].0 == Created(n, size, policy).(tail := 0)
    ensures Books(states[k].0, states[k].1, n, size) && TailOk(states[k].0, states[k].1)
  {
    CreatedBooks(n, size, states[0].0.policy);
    RunsKeepBooks(states, evs, n, size, k);
  }

  function AllocateMany(r: Ring, k: nat): Ring
    requires Shape(r) && k <= r.count
    ensures Shape(AllocateMany(r, k)) && AllocateMany(r, k).count == r.count - k
  {
    if k == 0 then r
    else
      var before := AllocateMany(r, k - 1);
      AllocateTakes(before);
      Allocate(before).0
  }

  /** The first free of a pool as it is created comes after some allocations; its write is in bounds
      exactly under the last-in policy.  Under the first-in policy it is one past the ring's end. */
  lemma {:induction false} FirstFreeInBoundsIff(n: nat, size: nat, policy: Policy, k: nat)
    requires 0 < k <= n
    ensures Shape(Created(n, size, policy))
    ensures var r := AllocateMany(Created(n, size, policy), k);
            && |r.offsets| == n && r.policy == policy
            && (r.tail < n <==> policy == Lifo) && (policy == Fifo ==> r.tail == n)
  {
    var r := Created(n, size, policy);
    if k > 1 {
      FirstFreeInBoundsIff(n, size, policy, k - 1);
    }
    AllocateTakes(AllocateMany(r, k - 1));
  }
}
