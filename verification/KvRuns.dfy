/** Whole runs of the store against the bounded map, and what slots smaller than a value do. */
module KvRuns {
  import opened Base
  import opened KvTable
  import opened KvRefinement
  import opened KvScatter

  datatype Op = Store(key: nat, value: Bytes) | Scatter(key: nat, segments: seq<Bytes>, total: uint32)
              | Fetch(key: nat, room: nat) | Info(key: nat)

  datatype Outcome = Put(status: Status) | Got(status: Status, bytes: Bytes) | Sized(size: Option<nat>)

  /** A copy the operation makes stays inside the pool. */
  ghost predicate Safe(hash: nat -> nat, s: KvTable.Store, op: Op)
    requires Shape(s)
  {
    match op
    case Store(key, value) => IsValidValueSize(|value|) ==> InPool(hash, s, key, |value|)
    case Scatter(key, segments, total) => Accepted(segments, total) ==> InPool(hash, s, key, TotalLength(segments))
    case _ => true
  }

  /** A value that is accepted fits a slot, and is as long as the request says. */
  ghost predicate Sane(op: Op, slotSize: nat) {
    match op
    case Store(_, value) => IsValidValueSize(|value|) ==> |value| <= slotSize
    case Scatter(_, segments, total) => Accepted(segments, total) ==> TotalLength(segments) == total <= slotSize
    case _ => true
  }

  /** On slots of at least 64 KB only the length a scatter request states can be wrong. */
  lemma LargeSlotsFit(op: Op, slotSize: nat)
    requires slotSize >= 0x1_0000
    ensures op.Scatter? && TotalLength(op.segments) < TWO32 ==> Sane(op, slotSize)
    ensures !op.Scatter? ==> Sane(op, slotSize)
  {
    if op.Scatter? {
      WrappedIsRemainder(op.segments);
    }
  }

  function StepOn(hash: nat -> nat, s: KvTable.Store, op: Op): (r: (KvTable.Store, Outcome))
    requires Shape(s) && Safe(hash, s, op)
    ensures Shape(r.0)
  {
    match op
    case Store(key, value) => var r := KvTable.Put(hash, s, key, value); (r.0, Outcome.Put(r.1))
    case Scatter(key, segments, total) => var r := PutSGL(hash, s, key, segments, total); (r.0, Outcome.Put(r.1))
    case Fetch(key, room) => var r := Get(hash, s, key, room); (s, Got(r.0, r.1))
    case Info(key) => (s, Sized(GetInfo(hash, s, key)))
  }

  ghost function MapStep(m: map<nat, Bytes>, slots: nat, entries: nat, op: Op): (map<nat, Bytes>, Outcome) {
    match op
    case Store(key, value) => var r := MapPut(m, slots, entries, key, value); (r.0, Outcome.Put(r.1))
    case Scatter(key, segments, total) =>
      if TotalLength(segments) != total then (m, Outcome.Put(InvalidRequest))
      else var r := MapPut(m, slots, entries, key, Concat(segments)); (r.0, Outcome.Put(r.1))
    case Fetch(key, room) =>
      (m, if key !in m then Got(NotFound, []) else if room < |m[key]| then Got(InvalidRequest, []) else Got(OK, m[key]))
    case Info(key) => (m, Sized(if key in m then Some(|m[key]|) else None))
  }

  ghost function MapOutcomes(m: map<nat, Bytes>, slots: nat, entries: nat, ops: seq<Op>): seq<Outcome>
    decreases |ops|
  {
    if ops == [] then []
    else var r := MapStep(m, slots, entries, ops[0]); [r.1] + MapOutcomes(r.0, slots, entries, ops[1..])
  }

  ghost predicate SafeRun(hash: nat -> nat, s: KvTable.Store, ops: seq<Op>)
    requires Shape(s)
    decreases |ops|
  {
    ops == [] || (Safe(hash, s, ops[0]) && SafeRun(hash, StepOn(hash, s, ops[0]).0, ops[1..]))
  }

  ghost function Outcomes(hash: nat -> nat, s: KvTable.Store, ops: seq<Op>): seq<Outcome>
    requires Shape(s) && SafeRun(hash, s, ops)
    decreases |ops|
  {
    if ops == [] then []
    else var r := StepOn(hash, s, ops[0]); [r.1] + Outcomes(hash, r.0, ops[1..])
  }

  lemma StepRefinesMap(hash: nat -> nat, s: KvTable.Store, m: map<nat, Bytes>, op: Op)
    requires Inv(hash, s) && Represents(s, m) && Sane(op, s.slotSize)
    ensures Safe(hash, s, op)
    ensures var (s', out), (m', expected) := StepOn(hash, s, op), MapStep(m, s.slots, |s.table|, op);
            && Inv(hash, s') && Represents(s', m') && out == expected
            && |s'.table| == |s.table| && s'.slots == s.slots && s'.slotSize == s.slotSize
  {
    match op
    case Store(key, value) => PutRefinesMap(hash, s, m, key, value);
    case Scatter(key, segments, total) => ScatterRefinesMap(hash, s, m, key, segments, total);
    case Fetch(key, room) => GetRefinesMap(hash, s, m, key, room);
    case Info(key) => GetRefinesMap(hash, s, m, key, 0);
  }

  lemma ScatterRefinesMap(hash: nat -> nat, s: KvTable.Store, m: map<nat, Bytes>, key: nat, segments: seq<Bytes>,
                          total: uint32)
    requires Inv(hash, s) && Represents(s, m) && Sane(Scatter(key, segments, total), s.slotSize)
    ensures Accepted(segments, total) ==> InPool(hash, s, key, TotalLength(segments))
    ensures var (s', status), (m', expected) := PutSGL(hash, s, key, segments, total),
                                                MapStep(m, s.slots, |s.table|, Scatter(key, segments, total));
            && Inv(hash, s') && Represents(s', m') && Outcome.Put(status) == expected
            && |s'.table| == |s.table| && s'.slots == s.slots && s'.slotSize == s.slotSize
  {
    ConcatLength(segments);
    WrappedIsRemainder(segments);
    StorableSizes(TotalLength(segments));
    if TotalLength(segments) == total && IsValidValueSize(total) {
      PutRefinesMap(hash, s, m, key, Concat(segments));
      TrueTotalIsPut(hash, s, key, segments);
    }
  }

  /** A scatter request is refused as invalid exactly when the total it states is not one of the sixteen
      sizes, or is not the 32-bit sum of its segments. */
  lemma PutSglIsInvalidIff(hash: nat -> nat, s: KvTable.Store, key: nat, segments: seq<Bytes>, total: uint32)
    requires Shape(s)
    requires Storable(total) && TotalLength(segments) % 0x1_0000_0000 == total ==> InPool(hash, s, key, TotalLength(segments))
    ensures Accepted(segments, total) ==> InPool(hash, s, key, TotalLength(segments))
    ensures PutSGL(hash, s, key, segments, total).1 == InvalidRequest
            <==> !(Storable(total) && TotalLength(segments) % 0x1_0000_0000 == total)
  {
    StorableSizes(total);
    WrappedIsRemainder(segments);
  }

  /** For any hash function, slot size and table size: every run of puts, scatter-gather puts and reads,
      in which accepted values fit a slot and are as long as stated, answers as the bounded map does
      and never copies past the pool. */
  lemma {:induction false} RunsRefineMap(hash: nat -> nat, s: KvTable.Store, m: map<nat, Bytes>, ops: seq<Op>)
    requires Inv(hash, s) && Represents(s, m)
    requires forall i :: 0 <= i < |ops| ==> Sane(ops[i], s.slotSize)
    ensures SafeRun(hash, s, ops)
    ensures Outcomes(hash, s, ops) == MapOutcomes(m, s.slots, |s.table|, ops)
    decreases |ops|
  {
    if ops != [] {
      StepRefinesMap(hash, s, m, ops[0]);
      RunsRefineMap(hash, StepOn(hash, s, ops[0]).0, MapStep(m, s.slots, |s.table|, ops[0]).0, ops[1..]);
    }
  }

  // ----- slots smaller than a value -----

  ghost predicate LeavesNextSlot(pool: Bytes, k: nat, slotSize: nat, value: Bytes)
    requires SlotBase(k, slotSize) + |value| <= |pool| && SlotBase(k + 2, slotSize) <= |pool|
  {
    var a, b := SlotBase(k + 1, slotSize), SlotBase(k + 2, slotSize);
    Write(pool, SlotBase(k, slotSize), value)[a..b] == pool[a..b]
  }

  /** A value written to slot k leaves slot k + 1 alone, whatever is there, exactly when it fits its slot. */
  lemma NextSlotIsSafeIff(size: nat, k: nat, slotSize: nat, value: Bytes)
    requires 0 < slotSize && SlotBase(k, slotSize) + |value| <= size && SlotBase(k + 2, slotSize) <= size
    ensures (forall pool: Bytes :: |pool| == size ==> LeavesNextSlot(pool, k, slotSize, value)) <==> |value| <= slotSize
  {
    var base, a, b := SlotBase(k, slotSize), SlotBase(k + 1, slotSize), SlotBase(k + 2, slotSize);
    assert a == base + slotSize && b == a + slotSize;
    if |value| <= slotSize {
      forall pool: Bytes | |pool| == size
        ensures LeavesNextSlot(pool, k, slotSize, value)
      {
        WriteElsewhere(pool, base, value, a, slotSize);
      }
    } else {
      var other: uint8 := if value[slotSize] == 0 then 1 else 0;
      var pool: Bytes := seq(size, _ => other);
      assert Write(pool, base, value)[a..b][0] == value[slotSize] && pool[a..b][0] == other;
      assert !LeavesNextSlot(pool, k, slotSize, value);
    }
  }

  lemma InitialIsShaped(slots: nat, slotSize: nat, tableSize: nat, pool: Bytes)
    requires 0 < slotSize && 0 < tableSize && SlotBase(slots, slotSize) <= |pool|
    ensures Shape(Initial(slots, slotSize, tableSize, pool))
  {
  }

  /** The first key goes to the first entry it probes and to slot 0. */
  lemma FirstPut(hash: nat -> nat, s: KvTable.Store, pool: Bytes, tableSize: nat, key: nat, value: Bytes)
    requires 0 < s.slotSize && 0 < tableSize && 2 <= s.slots && SlotBase(s.slots, s.slotSize) <= |pool|
    requires s == Initial(s.slots, s.slotSize, tableSize, pool) && IsValidValueSize(|value|) && |value| <= |pool|
    ensures Shape(s) && Safe(hash, s, Op.Store(key, value))
    ensures var (s', status) := KvTable.Put(hash, s, key, value);
            && status == OK && s'.free == s.free[..s.slots - 1]
            && s'.pool == Write(pool, 0, value) && s'.slots == s.slots && s'.slotSize == s.slotSize
            && s'.table == s.table[Start(hash, key, tableSize) := Entry(key, 0, |value|, true, false)]
  {
    var start := Start(hash, key, tableSize);
    assert RingAt(start, 0, tableSize) == start && s.table[start] == EMPTY;
    assert Find(s.table, start, key, 0) == None && FindRoom(s.table, start, 0) == Some(start);
  }

  /** The second key goes to another entry and to slot 1. */
  lemma SecondPut(hash: nat -> nat, s: KvTable.Store, at: nat, key: nat, value: Bytes)
    requires Shape(s) && 2 <= |s.table| && at < |s.table| && s.table[at].Live() && s.table[at].key != key
    requires forall i :: 0 <= i < |s.table| && i != at ==> s.table[i] == EMPTY
    requires s.free != [] && s.free[|s.free| - 1] == 1 && IsValidValueSize(|value|) && s.slotSize + |value| <= |s.pool|
    ensures Safe(hash, s, Op.Store(key, value))
    ensures var (s', status) := KvTable.Put(hash, s, key, value);
            && status == OK && |s'.table| == |s.table| && s'.table[at] == s.table[at]
            && s'.pool == Write(s.pool, s.slotSize, value) && s'.slotSize == s.slotSize
  {
    var n := |s.table|;
    var start := Start(hash, key, n);
    assert RingAt(start, 0, n) == start;
    assert RingAt(start, 1, n) != start;
    assert SlotBase(1, s.slotSize) == s.slotSize;
    if start == at {
      assert Find(s.table, start, key, 0) == Find(s.table, start, key, 1) == None;
      assert FindRoom(s.table, start, 0) == FindRoom(s.table, start, 1) == Some(RingAt(start, 1, n));
    } else {
      assert Find(s.table, start, key, 0) == None && FindRoom(s.table, start, 0) == Some(start);
    }
  }

  /** What the second copy leaves of the first. */
  lemma Overlap(pool: Bytes, slotSize: nat, v1: Bytes, v2: Bytes)
    requires slotSize < |v1| <= |pool| && slotSize + |v2| <= |pool|
    ensures Write(Write(pool, 0, v1), slotSize, v2)[0..|v1|] == v1
            <==> forall i :: 0 <= i < |v2| && slotSize + i < |v1| ==> v2[i] == v1[slotSize + i]
  {
    var read := Write(Write(pool, 0, v1), slotSize, v2)[0..|v1|];
    assert |read| == |v1|;
    forall j | 0 <= j < |v1|
      ensures read[j] == if slotSize <= j < slotSize + |v2| then v2[j - slotSize] else v1[j]
    {
    }
    if read == v1 {
      forall i | 0 <= i < |v2| && slotSize + i < |v1|
        ensures v2[i] == v1[slotSize + i]
      {
        assert read[slotSize + i] == v2[i];
      }
    }
  }

  /** Two puts to a new store and a get: the first value is longer than its slot, and the second goes
      to the slot behind it.  Both are accepted, and the get answers rightly exactly when the second
      value happens to agree with what the first had written there. */
  lemma SmallSlotsOverlap(hash: nat -> nat, slots: nat, slotSize: nat, tableSize: nat, pool: Bytes,
                          k1: nat, v1: Bytes, k2: nat, v2: Bytes)
    requires 2 <= slots && 0 < slotSize && 2 <= tableSize && SlotBase(slots, slotSize) <= |pool| && k1 != k2
    requires IsValidValueSize(|v1|) && IsValidValueSize(|v2|) && |v1| > slotSize
    requires |v1| <= |pool| && slotSize + |v2| <= |pool|
    ensures var s := Initial(slots, slotSize, tableSize, pool);
            var ops := [Op.Store(k1, v1)] + ([Op.Store(k2, v2)] + ([Fetch(k1, |v1|)] + []));
            && Shape(s) && SafeRun(hash, s, ops)
            && exists answer :: Outcomes(hash, s, ops) == [Outcome.Put(OK), Outcome.Put(OK), answer]
                 && (answer == Got(OK, v1)
                     <==> forall i :: 0 <= i < |v2| && slotSize + i < |v1| ==> v2[i] == v1[slotSize + i])
  {
    var s := Initial(slots, slotSize, tableSize, pool);
    InitialIsShaped(slots, slotSize, tableSize, pool);
    FirstPut(hash, s, pool, tableSize, k1, v1);
    var s1 := KvTable.Put(hash, s, k1, v1).0;
    var at := Start(hash, k1, tableSize);
    SecondPut(hash, s1, at, k2, v2);
    var s2 := KvTable.Put(hash, s1, k2, v2).0;
    assert RingAt(at, 0, tableSize) == at && SlotBase(0, slotSize) == 0;
    assert Get(hash, s2, k1, |v1|) == (OK, s2.pool[0..|v1|]);
    Overlap(pool, slotSize, v1, v2);
    var answer := Got(OK, s2.pool[0..|v1|]);
    NextOutcome(hash, s2, Fetch(k1, |v1|), []);
    NextOutcome(hash, s1, Op.Store(k2, v2), [Fetch(k1, |v1|)] + []);
    NextOutcome(hash, s, Op.Store(k1, v1), [Op.Store(k2, v2)] + ([Fetch(k1, |v1|)] + []));
    assert [Outcome.Put(OK)] + ([Outcome.Put(OK)] + ([answer] + [])) == [Outcome.Put(OK), Outcome.Put(OK), answer];
  }

  lemma NextOutcome(hash: nat -> nat, s: KvTable.Store, op: Op, rest: seq<Op>)
    requires Shape(s) && Safe(hash, s, op) && SafeRun(hash, StepOn(hash, s, op).0, rest)
    ensures SafeRun(hash, s, [op] + rest)
    ensures var r := StepOn(hash, s, op); Outcomes(hash, s, [op] + rest) == [r.1] + Outcomes(hash, r.0, rest)
  {
    assert ([op] + rest)[1..] == rest;
  }

  // ----- where a new key goes -----

  lemma {:induction false} FirstRoom(table: seq<Entry>, start: nat, k: nat, i: nat)
    requires start < |table| && k <= i < |table| && !table[RingAt(start, i, |table|)].Live()
    requires forall j :: k <= j < i ==> table[RingAt(start, j, |table|)].Live()
    ensures FindRoom(table, start, k) == Some(RingAt(start, i, |table|))
    decreases |table| - k
  {
    if k < i {
      FirstRoom(table, start, k + 1, i);
    }
  }

  /** A new key is put in the first entry without a live key, counted from hash(key) modulo the table size
      and around, with the slot freed last; no other entry changes. */
  lemma NewKeyGoesToFirstRoom(hash: nat -> nat, s: KvTable.Store, key: nat, value: Bytes, i: nat)
    requires Inv(hash, s) && Storable(|value|) && |value| <= s.slotSize && s.free != [] && !HasLive(s.table, key)
    requires i < |s.table| && !s.table[RingAt(hash(key) % |s.table|, i, |s.table|)].Live()
    requires forall j :: 0 <= j < i ==> s.table[RingAt(hash(key) % |s.table|, j, |s.table|)].Live()
    ensures IsValidValueSize(|value|) && InPool(hash, s, key, |value|)
    ensures var (s', status) := KvTable.Put(hash, s, key, value);
            && status == OK && s'.free == s.free[..|s.free| - 1]
            && s'.table == s.table[RingAt(hash(key) % |s.table|, i, |s.table|)
                                   := Entry(key, s.free[|s.free| - 1], |value|, true, false)]
  {
    StorableSizes(|value|);
    FittingIsInPool(hash, s, key, |value|);
    FindFindsLive(hash, s, key);
    FirstRoom(s.table, Start(hash, key, |s.table|), 0, i);
  }
}
