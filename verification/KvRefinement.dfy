/** The store refines a map from key to bytes that holds at most as many keys as there are slots. */
module KvRefinement {
  import opened Base
  import opened KvTable

  // ----- counting live entries -----

  function LiveCount(table: seq<Entry>): nat {
    if table == [] then 0
    else LiveCount(table[..|table| - 1]) + if table[|table| - 1].Live() then 1 else 0
  }

  function LiveBytes(table: seq<Entry>): nat {
    if table == [] then 0
    else LiveBytes(table[..|table| - 1]) + if table[|table| - 1].Live() then table[|table| - 1].size else 0
  }

  function LiveKeys(table: seq<Entry>): set<nat> {
    if table == [] then {}
    else LiveKeys(table[..|table| - 1]) + if table[|table| - 1].Live() then {table[|table| - 1].key} else {}
  }

  lemma {:induction false} UpdateCounts(table: seq<Entry>, at: nat, e: Entry)
    requires at < |table|
    ensures LiveCount(table[at := e])
            == LiveCount(table) - (if table[at].Live() then 1 else 0) + (if e.Live() then 1 else 0)
    ensures LiveBytes(table[at := e])
            == LiveBytes(table) - (if table[at].Live() then table[at].size else 0) + (if e.Live() then e.size else 0)
  {
    var k := |table| - 1;
    if at == k {
      assert table[at := e][..k] == table[..k];
    } else {
      assert table[at := e][..k] == table[..k][at := e];
      UpdateCounts(table[..k], at, e);
    }
  }

  lemma {:induction false} AllLiveCount(table: seq<Entry>)
    ensures LiveCount(table) <= |table|
    ensures LiveCount(table) == |table| <==> forall i :: 0 <= i < |table| ==> table[i].Live()
  {
    if table != [] {
      AllLiveCount(table[..|table| - 1]);
    }
  }

  lemma {:induction false} NoneLiveCount(table: seq<Entry>)
    requires forall i :: 0 <= i < |table| ==> !table[i].Live()
    ensures LiveCount(table) == 0 && LiveBytes(table) == 0
  {
    if table != [] {
      NoneLiveCount(table[..|table| - 1]);
    }
  }

  ghost predicate DistinctKeys(table: seq<Entry>) {
    forall i, j :: 0 <= i < j < |table| && table[i].Live() && table[j].Live() ==> table[i].key != table[j].key
  }

  ghost predicate HasLive(table: seq<Entry>, key: nat) {
    exists i :: 0 <= i < |table| && table[i].Live() && table[i].key == key
  }

  lemma HasLiveFront(table: seq<Entry>, key: nat)
    requires table != []
    ensures HasLive(table, key) <==>
              HasLive(table[..|table| - 1], key)
              || (table[|table| - 1].Live() && table[|table| - 1].key == key)
  {
    var front := table[..|table| - 1];
    if HasLive(front, key) {
      var i :| 0 <= i < |front| && front[i].Live() && front[i].key == key;
      assert table[i] == front[i];
    }
    if HasLive(table, key) {
      var i :| 0 <= i < |table| && table[i].Live() && table[i].key == key;
      assert i < |front| ==> front[i] == table[i];
    }
  }

  lemma {:induction false} KeysAreLive(table: seq<Entry>, key: nat)
    ensures key in LiveKeys(table) <==> HasLive(table, key)
  {
    if table != [] {
      HasLiveFront(table, key);
      KeysAreLive(table[..|table| - 1], key);
    }
  }

  lemma {:induction false} KeysAreCounted(table: seq<Entry>)
    requires DistinctKeys(table)
    ensures |LiveKeys(table)| == LiveCount(table)
  {
    if table != [] {
      var front := table[..|table| - 1];
      assert forall i :: 0 <= i < |front| ==> front[i] == table[i];
      KeysAreCounted(front);
      KeysAreLive(front, table[|table| - 1].key);
    }
  }

  // ----- the invariant -----

  /** Only entries that are or have been occupied lie before a live entry in the probes for its key. */
  ghost predicate Reachable(hash: nat -> nat, table: seq<Entry>, p: nat)
    requires p < |table|
  {
    var start := Start(hash, table[p].key, |table|);
    exists i :: 0 <= i < |table| && RingAt(start, i, |table|) == p && OccupiedUpTo(table, start, i)
  }

  ghost predicate OccupiedUpTo(table: seq<Entry>, start: nat, i: nat)
    requires start < |table| && i <= |table|
  {
    forall j :: 0 <= j < i ==> table[RingAt(start, j, |table|)].occupied
  }

  ghost predicate Inv(hash: nat -> nat, s: Store) {
    && Shape(s) && DistinctKeys(s.table)
    && (forall p :: 0 <= p < |s.table| && s.table[p].Live() ==>
          Reachable(hash, s.table, p) && s.table[p].size <= s.slotSize && s.table[p].slot !in s.free)
    && (forall p, q :: 0 <= p < q < |s.table| && s.table[p].Live() && s.table[q].Live() ==>
          s.table[p].slot != s.table[q].slot)
    && (forall i, j :: 0 <= i < j < |s.free| ==> s.free[i] != s.free[j])
    && |s.free| + LiveCount(s.table) == s.slots
    && s.usedSlots == LiveCount(s.table) && s.usedBytes == LiveBytes(s.table)
  }

  /** The store holds exactly the keys and bytes of `m`. */
  ghost predicate Represents(s: Store, m: map<nat, Bytes>) {
    && Shape(s)
    && (forall p :: 0 <= p < |s.table| && s.table[p].Live() ==> Holds(s, p, m))
    && (forall k :: k in m ==> HasLive(s.table, k))
  }

  ghost predicate Holds(s: Store, p: nat, m: map<nat, Bytes>)
    requires p < |s.table|
  {
    var e := s.table[p];
    && SlotBase(e.slot, s.slotSize) + e.size <= |s.pool|
    && e.key in m && m[e.key] == ValueOf(s, p)
  }

  lemma SizeOfContents(hash: nat -> nat, s: Store, m: map<nat, Bytes>)
    requires Inv(hash, s) && Represents(s, m)
    ensures |m| == s.usedSlots && |m| + |s.free| == s.slots
  {
    KeysAreCounted(s.table);
    forall k: nat
      ensures k in LiveKeys(s.table) <==> k in m
    {
      KeysAreLive(s.table, k);
    }
    assert m.Keys == LiveKeys(s.table);
    assert |m| == |m.Keys|;
  }

  lemma InitialRepresents(hash: nat -> nat, slots: nat, slotSize: nat, tableSize: nat, pool: Bytes)
    requires 0 < tableSize && 0 < slotSize && SlotBase(slots, slotSize) <= |pool|
    ensures Inv(hash, Initial(slots, slotSize, tableSize, pool))
    ensures Represents(Initial(slots, slotSize, tableSize, pool), map[])
  {
    NoneLiveCount(Initial(slots, slotSize, tableSize, pool).table);
  }

  // ----- probing -----

  /** FindEntry finds a live key wherever it was probed to, and nothing else, also past tombstones. */
  lemma {:induction false} FindIsExact(hash: nat -> nat, table: seq<Entry>, key: nat, i: nat, p: nat)
    requires i <= |table| && p < |table| && DistinctKeys(table)
    requires table[p].Live() && table[p].key == key
    requires var start := Start(hash, key, |table|);
             exists j :: i <= j < |table| && RingAt(start, j, |table|) == p && OccupiedUpTo(table, start, j)
    ensures Find(table, Start(hash, key, |table|), key, i) == Some(p)
    decreases |table| - i
  {
    var start := Start(hash, key, |table|);
    var j :| i <= j < |table| && RingAt(start, j, |table|) == p && OccupiedUpTo(table, start, j);
    if i < j {
      FindIsExact(hash, table, key, i + 1, p);
    }
  }

  lemma FindFindsLive(hash: nat -> nat, s: Store, key: nat)
    requires Inv(hash, s)
    ensures var r := Find(s.table, Start(hash, key, |s.table|), key, 0);
            r.Some? <==> HasLive(s.table, key)
  {
    if HasLive(s.table, key) {
      var p :| 0 <= p < |s.table| && s.table[p].Live() && s.table[p].key == key;
      assert Reachable(hash, s.table, p);
      FindIsExact(hash, s.table, key, 0, p);
    }
  }

  /** The probes cover the table, so room is found unless every entry is live; and what is found can
      be reached. */
  lemma {:induction false} FindRoomFacts(table: seq<Entry>, start: nat, i: nat)
    requires start < |table| && i <= |table| && OccupiedUpTo(table, start, i)
    requires forall j :: 0 <= j < i ==> table[RingAt(start, j, |table|)].Live()
    ensures match FindRoom(table, start, i)
            case None => forall p :: 0 <= p < |table| ==> table[p].Live()
            case Some(p) => exists j :: 0 <= j < |table| && RingAt(start, j, |table|) == p && OccupiedUpTo(table, start, j)
    decreases |table| - i
  {
    if i == |table| {
      forall p | 0 <= p < |table|
        ensures table[p].Live()
      {
        var j := if p >= start then p - start else p + |table| - start;
        assert RingAt(start, j, |table|) == p;
      }
    } else if table[RingAt(start, i, |table|)].Live() {
      FindRoomFacts(table, start, i + 1);
    }
  }

  // ----- the pool -----

  lemma WriteElsewhere(pool: Bytes, at: nat, value: Bytes, base: nat, n: nat)
    requires at + |value| <= |pool| && base + n <= |pool|
    requires base + n <= at || at + |value| <= base
    ensures Write(pool, at, value)[base..base + n] == pool[base..base + n]
  {
    var r := Write(pool, at, value);
    assert forall i :: 0 <= i < |pool| && (i < at || at + |value| <= i) ==> r[i] == pool[i];
  }

  lemma WriteHere(pool: Bytes, at: nat, value: Bytes)
    requires at + |value| <= |pool|
    ensures Write(pool, at, value)[at..at + |value|] == value
  {
  }

  /** A value that fits its slot leaves the bytes of every other slot alone. */
  lemma OtherSlotsKeepTheirBytes(s: Store, slot: nat, value: Bytes, other: nat, n: nat)
    requires SlotBase(s.slots, s.slotSize) <= |s.pool| && slot < s.slots && other < s.slots && slot != other
    requires |value| <= s.slotSize && n <= s.slotSize
    ensures var at, base := SlotBase(slot, s.slotSize), SlotBase(other, s.slotSize);
            && at + |value| <= |s.pool| && base + n <= |s.pool|
            && Write(s.pool, at, value)[base..base + n] == s.pool[base..base + n]
  {
    SlotInPool(s, slot, |value|);
    SlotInPool(s, other, n);
    if slot < other {
      SlotsAreApart(slot, other, s.slotSize);
    } else {
      SlotsAreApart(other, slot, s.slotSize);
    }
    WriteElsewhere(s.pool, SlotBase(slot, s.slotSize), value, SlotBase(other, s.slotSize), n);
  }

  // ----- puts -----

  lemma ReachableAfterUpdate(hash: nat -> nat, table: seq<Entry>, at: nat, e: Entry, p: nat)
    requires at < |table| && p < |table| && p != at && e.occupied && Reachable(hash, table, p)
    ensures Reachable(hash, table[at := e], p)
  {
    var start := Start(hash, table[p].key, |table|);
    var i :| 0 <= i < |table| && RingAt(start, i, |table|) == p && OccupiedUpTo(table, start, i);
    assert OccupiedUpTo(table[at := e], start, i);
  }

  /** An entry that is written to is reachable if an entry for the same key there was. */
  lemma ReachableAtUpdate(hash: nat -> nat, table: seq<Entry>, at: nat, e: Entry, i: nat)
    requires at < |table| && e.occupied && i < |table|
    requires RingAt(Start(hash, e.key, |table|), i, |table|) == at && OccupiedUpTo(table, Start(hash, e.key, |table|), i)
    ensures Reachable(hash, table[at := e], at)
  {
    assert OccupiedUpTo(table[at := e], Start(hash, e.key, |table|), i);
  }

  /** Writing a value to the slot of entry `at` makes that entry hold it. */
  lemma WrittenEntryHolds(s: Store, at: nat, e: Entry, value: Bytes, m: map<nat, Bytes>, s': Store)
    requires Shape(s) && at < |s.table| && e.slot < s.slots && e.size == |value| <= s.slotSize
    requires s'.table == s.table[at := e] && s'.slotSize == s.slotSize
    requires SlotBase(e.slot, s.slotSize) + |value| <= |s.pool|
    requires s'.pool == Write(s.pool, SlotBase(e.slot, s.slotSize), value)
    requires e.key in m && m[e.key] == value
    ensures Holds(s', at, m)
  {
    WriteHere(s.pool, SlotBase(e.slot, s.slotSize), value);
  }

  /** And leaves what the entries with other slots and keys hold as it was. */
  lemma OtherEntryHolds(s: Store, m: map<nat, Bytes>, at: nat, e: Entry, value: Bytes, m': map<nat, Bytes>, s': Store, p: nat)
    requires Shape(s) && at < |s.table| && e.slot < s.slots && |value| <= s.slotSize
    requires p < |s.table| && p != at && Holds(s, p, m)
    requires s.table[p].slot < s.slots && s.table[p].slot != e.slot && s.table[p].size <= s.slotSize
    requires s'.table == s.table[at := e] && s'.slotSize == s.slotSize
    requires SlotBase(e.slot, s.slotSize) + |value| <= |s.pool|
    requires s'.pool == Write(s.pool, SlotBase(e.slot, s.slotSize), value)
    requires s.table[p].key in m' && m'[s.table[p].key] == m[s.table[p].key]
    ensures Holds(s', p, m')
  {
    OtherSlotsKeepTheirBytes(s, e.slot, value, s.table[p].slot, s.table[p].size);
  }

  lemma OverwriteKeepsInv(hash: nat -> nat, s: Store, at: nat, value: Bytes)
    requires Inv(hash, s)
    requires at < |s.table| && s.table[at].Live() && |value| <= s.slotSize
    ensures HasRoom(s, s.table[at].slot, |value|)
    ensures Inv(hash, Overwrite(s, at, value))
  {
    SlotInPool(s, s.table[at].slot, |value|);
    var e', s' := s.table[at].(size := |value|), Overwrite(s, at, value);
    UpdateCounts(s.table, at, e');
    forall p | 0 <= p < |s.table| && s'.table[p].Live()
      ensures Reachable(hash, s'.table, p)
    {
      assert Reachable(hash, s.table, p);
      if p == at {
        var start := Start(hash, e'.key, |s.table|);
        var i :| 0 <= i < |s.table| && RingAt(start, i, |s.table|) == p && OccupiedUpTo(s.table, start, i);
        ReachableAtUpdate(hash, s.table, at, e', i);
      } else {
        ReachableAfterUpdate(hash, s.table, at, e', p);
      }
    }
  }

  lemma OverwriteRepresents(hash: nat -> nat, s: Store, m: map<nat, Bytes>, at: nat, value: Bytes)
    requires Inv(hash, s) && Represents(s, m)
    requires at < |s.table| && s.table[at].Live() && |value| <= s.slotSize
    ensures HasRoom(s, s.table[at].slot, |value|)
    ensures Represents(Overwrite(s, at, value), m[s.table[at].key := value])
  {
    SlotInPool(s, s.table[at].slot, |value|);
    var e', s' := s.table[at].(size := |value|), Overwrite(s, at, value);
    var m' := m[e'.key := value];
    SlotInPool(s, e'.slot, |value|);
    forall p | 0 <= p < |s.table| && s'.table[p].Live()
      ensures Holds(s', p, m')
    {
      if p == at {
        WrittenEntryHolds(s, at, e', value, m', s');
      } else {
        assert Holds(s, p, m) && s.table[p].key != e'.key;
        OtherEntryHolds(s, m, at, e', value, m', s', p);
      }
    }
    forall k | k in m'
      ensures HasLive(s'.table, k)
    {
      var p :| 0 <= p < |s.table| && s.table[p].Live() && s.table[p].key == k;
      assert s'.table[p].Live() && s'.table[p].key == k;
    }
  }

  lemma InsertKeepsInv(hash: nat -> nat, s: Store, at: nat, key: nat, value: Bytes, i: nat)
    requires Inv(hash, s) && !HasLive(s.table, key)
    requires at < |s.table| && !s.table[at].Live() && s.free != [] && |value| <= s.slotSize
    requires i < |s.table| && RingAt(Start(hash, key, |s.table|), i, |s.table|) == at
    requires OccupiedUpTo(s.table, Start(hash, key, |s.table|), i)
    ensures HasRoom(s, s.free[|s.free| - 1], |value|)
    ensures Inv(hash, Insert(s, at, key, value))
  {
    SlotInPool(s, s.free[|s.free| - 1], |value|);
    var s', slot := Insert(s, at, key, value), s.free[|s.free| - 1];
    var e' := s'.table[at];
    UpdateCounts(s.table, at, e');
    assert slot in s.free && forall x :: x in s'.free ==> x in s.free;
    forall p | 0 <= p < |s.table| && s'.table[p].Live()
      ensures Reachable(hash, s'.table, p) && s'.table[p].slot !in s'.free
      ensures p != at ==> s.table[p].slot != slot && s.table[p].key != key
    {
      if p == at {
        ReachableAtUpdate(hash, s.table, at, e', i);
      } else {
        assert Reachable(hash, s.table, p);
        ReachableAfterUpdate(hash, s.table, at, e', p);
      }
    }
  }

  lemma InsertRepresents(hash: nat -> nat, s: Store, m: map<nat, Bytes>, at: nat, key: nat, value: Bytes)
    requires Inv(hash, s) && Represents(s, m) && !HasLive(s.table, key)
    requires at < |s.table| && !s.table[at].Live() && s.free != [] && |value| <= s.slotSize
    ensures HasRoom(s, s.free[|s.free| - 1], |value|)
    ensures Represents(Insert(s, at, key, value), m[key := value])
  {
    SlotInPool(s, s.free[|s.free| - 1], |value|);
    var s', m', slot := Insert(s, at, key, value), m[key := value], s.free[|s.free| - 1];
    var e' := s'.table[at];
    SlotInPool(s, slot, |value|);
    assert slot in s.free;
    forall p | 0 <= p < |s.table| && s'.table[p].Live()
      ensures Holds(s', p, m')
    {
      if p == at {
        WrittenEntryHolds(s, at, e', value, m', s');
      } else {
        assert Holds(s, p, m) && s.table[p].key != key;
        OtherEntryHolds(s, m, at, e', value, m', s', p);
      }
    }
    forall k | k in m'
      ensures HasLive(s'.table, k)
    {
      if k == key {
        assert s'.table[at].Live() && s'.table[at].key == k;
      } else {
        var p :| 0 <= p < |s.table| && s.table[p].Live() && s.table[p].key == k;
        assert s'.table[p].Live() && s'.table[p].key == k;
      }
    }
  }

  // ----- the bounded map -----

  /** The sixteen sizes a value can have. */
  ghost predicate Storable(n: nat) {
    exists k: nat :: 1 <= k <= 16 && n == 4096 * k
  }

  lemma StorableSizes(n: nat)
    ensures IsValidValueSize(n) <==> Storable(n)
  {
    if IsValidValueSize(n) {
      var k := n / 4096;
      assert n == 4096 * k && 1 <= k <= 16;
    }
  }

  /** A put is refused as invalid exactly when its value does not have one of these sizes. */
  lemma PutIsInvalidIff(hash: nat -> nat, s: Store, key: nat, value: Bytes)
    requires Shape(s) && (Storable(|value|) ==> InPool(hash, s, key, |value|))
    ensures IsValidValueSize(|value|) ==> InPool(hash, s, key, |value|)
    ensures Put(hash, s, key, value).1 == InvalidRequest <==> !Storable(|value|)
    ensures !Storable(|value|) ==> Put(hash, s, key, value).0 == s
  {
    StorableSizes(|value|);
  }

  /** What a put does to a map that has room for `slots` values and `entries` keys: it is refused when
      all slots are used, even if it would replace the value of a key that is there, and a new key is
      refused when all entries are. */
  ghost function MapPut(m: map<nat, Bytes>, slots: nat, entries: nat, key: nat, value: Bytes): (map<nat, Bytes>, Status) {
    if !Storable(|value|) then (m, InvalidRequest)
    else if |m| >= slots || (key !in m && |m| >= entries) then (m, NoSpace)
    else (m[key := value], OK)
  }

  /** On a table with as many entries as there are slots, only the slots count. */
  lemma AmpleTablesNeverFill(m: map<nat, Bytes>, slots: nat, entries: nat, key: nat, value: Bytes)
    requires Storable(|value|)
    ensures slots <= entries ==> (MapPut(m, slots, entries, key, value).1 == NoSpace <==> |m| >= slots)
  {
  }

  lemma UpdateRefinesMap(hash: nat -> nat, s: Store, m: map<nat, Bytes>, at: nat, value: Bytes)
    requires Inv(hash, s) && Represents(s, m) && |value| <= s.slotSize
    requires at < |s.table| && s.table[at].Live()
    ensures HasRoom(s, s.table[at].slot, |value|)
    ensures var s' := Overwrite(s, at, value);
            s.table[at].key in m && Inv(hash, s') && Represents(s', m[s.table[at].key := value])
  {
    assert Holds(s, at, m);
    OverwriteKeepsInv(hash, s, at, value);
    OverwriteRepresents(hash, s, m, at, value);
  }

  lemma NewKeyRefinesMap(hash: nat -> nat, s: Store, m: map<nat, Bytes>, key: nat, value: Bytes)
    requires Inv(hash, s) && Represents(s, m) && |value| <= s.slotSize && s.free != [] && !HasLive(s.table, key)
    ensures HasRoom(s, s.free[|s.free| - 1], |value|)
    ensures match FindRoom(s.table, Start(hash, key, |s.table|), 0)
            case Some(at) =>
              && |m| < |s.table|
              && var s' := Insert(s, at, key, value); Inv(hash, s') && Represents(s', m[key := value])
            case None => |m| == |s.table|
  {
    var start := Start(hash, key, |s.table|);
    SizeOfContents(hash, s, m);
    AllLiveCount(s.table);
    FindRoomFacts(s.table, start, 0);
    SlotInPool(s, s.free[|s.free| - 1], |value|);
    match FindRoom(s.table, start, 0)
    case Some(at) =>
      var i :| 0 <= i < |s.table| && RingAt(start, i, |s.table|) == at && OccupiedUpTo(s.table, start, i);
      InsertKeepsInv(hash, s, at, key, value, i);
      InsertRepresents(hash, s, m, at, key, value);
    case None =>
  }

  lemma KeysOfContents(s: Store, m: map<nat, Bytes>, key: nat)
    requires Represents(s, m)
    ensures key in m <==> HasLive(s.table, key)
  {
    if HasLive(s.table, key) {
      var p :| 0 <= p < |s.table| && s.table[p].Live() && s.table[p].key == key;
      assert Holds(s, p, m);
    }
  }

  /** Put is MapPut, whatever the size of the table. */
  lemma PutRefinesMap(hash: nat -> nat, s: Store, m: map<nat, Bytes>, key: nat, value: Bytes)
    requires Inv(hash, s) && Represents(s, m) && Fits(s, |value|)
    ensures IsValidValueSize(|value|) ==> InPool(hash, s, key, |value|)
    ensures var (s', status), (m', expected) := Put(hash, s, key, value), MapPut(m, s.slots, |s.table|, key, value);
            && Inv(hash, s') && Represents(s', m') && status == expected
            && |s'.table| == |s.table| && s'.slots == s.slots && s'.slotSize == s.slotSize
  {
    StorableSizes(|value|);
    if IsValidValueSize(|value|) {
      FittingIsInPool(hash, s, key, |value|);
      SizeOfContents(hash, s, m);
      FindFindsLive(hash, s, key);
      KeysOfContents(s, m, key);
      if s.free != [] {
        match Find(s.table, Start(hash, key, |s.table|), key, 0)
        case Some(at) => UpdateRefinesMap(hash, s, m, at, value);
        case None => NewKeyRefinesMap(hash, s, m, key, value);
      }
    }
  }

  /** Exactly when a put of a valid size is refused for space, whatever the table size. */
  lemma PutIsRefusedIff(hash: nat -> nat, s: Store, key: nat, value: Bytes)
    requires Inv(hash, s) && IsValidValueSize(|value|) && InPool(hash, s, key, |value|)
    ensures Put(hash, s, key, value).1 == NoSpace
            <==> s.free == [] || (!HasLive(s.table, key) && forall p :: 0 <= p < |s.table| ==> s.table[p].Live())
    ensures s.slots <= |s.table| ==> (Put(hash, s, key, value).1 == NoSpace <==> s.free == [])
  {
    FindFindsLive(hash, s, key);
    FindRoomFacts(s.table, Start(hash, key, |s.table|), 0);
    AllLiveCount(s.table);
  }

  /** Get returns the bytes of the map, or says that the key is missing or the buffer too small. */
  lemma GetRefinesMap(hash: nat -> nat, s: Store, m: map<nat, Bytes>, key: nat, room: nat)
    requires Inv(hash, s) && Represents(s, m)
    ensures Get(hash, s, key, room)
            == if key !in m then (NotFound, []) else if room < |m[key]| then (InvalidRequest, []) else (OK, m[key])
    ensures GetInfo(hash, s, key) == if key in m then Some(|m[key]|) else None
  {
    FindFindsLive(hash, s, key);
    var r := Find(s.table, Start(hash, key, |s.table|), key, 0);
    if r.Some? {
      assert Holds(s, r.value, m);
    }
  }
}
