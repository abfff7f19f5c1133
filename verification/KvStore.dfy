/** The store in place: a table that is sized once, a byte pool, and a stack of free slots. */
module KvStore {
  import opened Base
  import T = KvTable
  import S = KvScatter
  import R = KvRefinement
  import P = PowerOfTwo

  class KVStore {
    const hashKey: nat -> nat
    const slotSize: nat
    const numSlots: nat
    const table: array<T.Entry>
    const pool: array<uint8>
    var freeSlots: seq<nat>
    var usedSlots: int
    var usedBytes: int

    ghost function Model(): T.Store
      reads this, table, pool
    {
      T.Store(table[..], freeSlots, pool[..], numSlots, slotSize, usedSlots, usedBytes)
    }

    ghost predicate Valid()
      reads this, table, pool
    {
      T.Shape(Model())
    }

    constructor (hash: nat -> nat, slotSize: nat, numSlots: nat, tableSize: nat, total: nat)
      requires 0 < slotSize && 0 < tableSize && numSlots * slotSize <= total
      ensures Valid() && fresh(table) && fresh(pool) && hashKey == hash
      ensures pool.Length == total && Model() == T.Initial(numSlots, slotSize, tableSize, pool[..])
    {
      this.hashKey, this.slotSize, this.numSlots := hash, slotSize, numSlots;
      table := new T.Entry[tableSize](_ => T.EMPTY);
      pool := new uint8[total](_ => 0);
      var free: seq<nat> := [];
      for i := 0 to numSlots
        invariant free == seq(i, j requires 0 <= j < i => numSlots - 1 - j)
      {
        free := free + [numSlots - 1 - i];
      }
      freeSlots := free;
      usedSlots, usedBytes := 0, 0;
      T.SlotBaseIsProduct(numSlots, slotSize);
    }

    /** Fails when the storage does not hold one slot.  A table size of 0 asks for the least power of
        two that is twice the number of slots, which a put can never find full. */
    static method Initialize(hash: nat -> nat, total: nat, slotSize: nat, hashTableSize: nat) returns (r: KVStore?)
      requires 0 < slotSize && total < 0x4000_0000_0000_0000 && hashTableSize <= 0x8000_0000_0000_0000
      ensures r == null <==> total < slotSize
      ensures r != null ==>
                && fresh(r) && fresh(r.table) && fresh(r.pool) && r.Valid() && r.hashKey == hash
                && R.Inv(hash, r.Model()) && R.Represents(r.Model(), map[])
                && r.slotSize == slotSize && r.numSlots == total / slotSize
                && P.IsLeastPower(r.table.Length, if hashTableSize == 0 then 2 * r.numSlots else hashTableSize)
                && (hashTableSize == 0 ==> r.numSlots <= r.table.Length)
    {
      var numSlots := total / slotSize;
      QuotientBounds(total, slotSize);
      if numSlots == 0 {
        return null;
      }
      var tableSize;
      if hashTableSize == 0 {
        tableSize := P.NextPowerOfTwo(numSlots * 2);
      } else {
        tableSize := P.NextPowerOfTwo(hashTableSize);
      }
      r := new KVStore(hash, slotSize, numSlots, tableSize, total);
      T.SlotBaseIsProduct(numSlots, slotSize);
      R.InitialRepresents(hash, numSlots, slotSize, tableSize, r.pool[..]);
    }

    static lemma QuotientBounds(total: nat, size: nat)
      requires size > 0
      ensures total / size * size <= total && total / size <= total
      ensures total / size == 0 <==> total < size
    {
      var q := total / size;
      assert q * size <= total < (q + 1) * size;
      AtLeastFactor(q, size);
      AtLeastFactor(size, q);
    }

    static lemma AtLeastFactor(a: nat, b: nat)
      ensures b > 0 ==> a * b >= a
    {
      if b > 1 {
        AtLeastFactor(a, b - 1);
      }
    }

    method FindEntry(key: nat) returns (r: Option<nat>)
      requires Valid()
      ensures r == T.Find(table[..], T.Start(hashKey, key, table.Length), key, 0)
    {
      var start := T.Start(hashKey, key, table.Length);
      var index := start;
      for i := 0 to table.Length
        invariant i < table.Length ==> index == RingAt(start, i, table.Length)
        invariant T.Find(table[..], start, key, 0) == T.Find(table[..], start, key, i)
      {
        var entry := table[index];
        if !entry.occupied {
          return None;
        }
        if entry.key == key && !entry.deleted {
          return Some(index);
        }
        RingStep(start, i, table.Length);
        index := (index + 1) % table.Length;
      }
      r := None;
    }

    /** The first probed entry that is empty or deleted. */
    method FindRoom(key: nat) returns (r: Option<nat>)
      requires Valid()
      ensures r == T.FindRoom(table[..], T.Start(hashKey, key, table.Length), 0)
    {
      var start := T.Start(hashKey, key, table.Length);
      var index := start;
      for i := 0 to table.Length
        invariant i < table.Length ==> index == RingAt(start, i, table.Length)
        invariant T.FindRoom(table[..], start, 0) == T.FindRoom(table[..], start, i)
      {
        if !table[index].occupied || table[index].deleted {
          return Some(index);
        }
        RingStep(start, i, table.Length);
        index := (index + 1) % table.Length;
      }
      r := None;
    }

    /** memcpy into the pool. */
    method CopyIn(at: nat, value: T.Bytes)
      requires at + |value| <= pool.Length
      modifies pool
      ensures pool[..] == T.Write(old(pool[..]), at, value)
    {
      forall i | 0 <= i < |value| {
        pool[at + i] := value[i];
      }
    }

    method SlotPtr(slot: nat) returns (at: nat)
      ensures at == T.SlotBase(slot, slotSize)
    {
      T.SlotBaseIsProduct(slot, slotSize);
      at := slot * slotSize;
    }

    method Overwrite(at: nat, value: T.Bytes)
      requires Valid() && at < table.Length && table[at].Live() && T.HasRoom(Model(), table[at].slot, |value|)
      modifies this`usedBytes, table, pool
      ensures Valid() && Model() == T.Overwrite(old(Model()), at, value)
    {
      var entry := table[at];
      var base := SlotPtr(entry.slot);
      CopyIn(base, value);
      usedBytes := usedBytes - entry.size;
      table[at] := entry.(size := |value|);
      usedBytes := usedBytes + |value|;
    }

    method Insert(at: nat, key: nat, value: T.Bytes)
      requires Valid() && at < table.Length && freeSlots != []
      requires T.HasRoom(Model(), freeSlots[|freeSlots| - 1], |value|)
      modifies this, table, pool
      ensures Valid() && Model() == T.Insert(old(Model()), at, key, value)
    {
      var slot := freeSlots[|freeSlots| - 1];
      freeSlots := freeSlots[..|freeSlots| - 1];
      var base := SlotPtr(slot);
      CopyIn(base, value);
      table[at] := T.Entry(key, slot, |value|, true, false);
      usedSlots := usedSlots + 1;
      usedBytes := usedBytes + |value|;
    }

    method Put(key: nat, value: T.Bytes) returns (status: T.Status)
      requires Valid() && (T.IsValidValueSize(|value|) ==> T.InPool(hashKey, Model(), key, |value|))
      modifies this, table, pool
      ensures Valid() && (Model(), status) == T.Put(hashKey, old(Model()), key, value)
    {
      if !T.IsValidValueSize(|value|) {
        return T.InvalidRequest;
      }
      if freeSlots == [] {
        return T.NoSpace;
      }
      var existing := FindEntry(key);
      if existing.Some? {
        Overwrite(existing.value, value);
        return T.OK;
      }
      var room := FindRoom(key);
      if room.Some? {
        Insert(room.value, key, value);
        return T.OK;
      }
      status := T.NoSpace;
    }

    /** Copies the segments one after the other. */
    method CopySegments(at: nat, segments: seq<T.Bytes>)
      requires at + S.TotalLength(segments) <= pool.Length
      modifies pool
      ensures pool[..] == S.CopySegments(old(pool[..]), at, segments)
    {
      var offset := 0;
      PrefixLength(segments, |segments|);
      for i := 0 to |segments|
        invariant offset == S.TotalLength(segments[..i]) && at + offset <= pool.Length
        invariant pool[..] == S.CopySegments(old(pool[..]), at, segments[..i])
      {
        PrefixLength(segments, i + 1);
        OneMoreSegment(old(pool[..]), at, segments, i);
        CopyIn(at + offset, segments[i]);
        offset := offset + |segments[i]|;
      }
      assert segments[..|segments|] == segments;
    }

    static lemma OneMoreSegment(bytes: T.Bytes, at: nat, segments: seq<T.Bytes>, i: nat)
      requires i < |segments| && at + S.TotalLength(segments[..i + 1]) <= |bytes|
      ensures S.TotalLength(segments[..i + 1]) == S.TotalLength(segments[..i]) + |segments[i]|
      ensures S.CopySegments(bytes, at, segments[..i + 1])
              == T.Write(S.CopySegments(bytes, at, segments[..i]), at + S.TotalLength(segments[..i]), segments[i])
    {
      assert segments[..i + 1][..i] == segments[..i];
    }

    static lemma {:induction false} PrefixLength(segments: seq<T.Bytes>, i: nat)
      requires i <= |segments|
      ensures S.TotalLength(segments[..i]) <= S.TotalLength(segments)
      decreases |segments| - i
    {
      if i < |segments| {
        assert segments[..i + 1][..i] == segments[..i];
        PrefixLength(segments, i + 1);
      } else {
        assert segments[..i] == segments;
      }
    }

    method SumLengths(segments: seq<T.Bytes>) returns (calculated: uint32)
      ensures calculated == S.WrappedTotal(segments)
    {
      calculated := 0;
      for i := 0 to |segments|
        invariant calculated == S.WrappedTotal(segments[..i])
      {
        assert segments[..i + 1][..i] == segments[..i];
        calculated := (calculated + |segments[i]|) % TWO32;
      }
      assert segments[..|segments|] == segments;
    }

    method PutSGL(key: nat, segments: seq<T.Bytes>, total: uint32) returns (status: T.Status)
      requires Valid()
      requires S.Accepted(segments, total) ==> T.InPool(hashKey, Model(), key, S.TotalLength(segments))
      modifies this, table, pool
      ensures Valid() && (Model(), status) == S.PutSGL(hashKey, old(Model()), key, segments, total)
    {
      if !T.IsValidValueSize(total) || segments == [] {
        return T.InvalidRequest;
      }
      var calculated := SumLengths(segments);
      S.WrappedIsRemainder(segments);
      if calculated != total {
        return T.InvalidRequest;
      }
      if freeSlots == [] {
        return T.NoSpace;
      }
      var existing := FindEntry(key);
      if existing.Some? {
        OverwriteSGL(existing.value, segments, total);
        return T.OK;
      }
      var room := FindRoom(key);
      if room.None? {
        return T.NoSpace;
      }
      InsertSGL(room.value, key, segments, total);
      status := T.OK;
    }

    method OverwriteSGL(at: nat, segments: seq<T.Bytes>, total: uint32)
      requires Valid() && at < table.Length && table[at].Live() && total <= S.TotalLength(segments)
      requires T.HasRoom(Model(), table[at].slot, S.TotalLength(segments))
      modifies this`usedBytes, table, pool
      ensures Valid() && Model() == S.OverwriteSGL(old(Model()), at, segments, total)
    {
      var entry := table[at];
      usedBytes := usedBytes - entry.size;
      table[at] := entry.(size := total);
      FillSlot(entry.slot, segments, total);
    }

    method InsertSGL(at: nat, key: nat, segments: seq<T.Bytes>, total: uint32)
      requires Valid() && at < table.Length && freeSlots != [] && total <= S.TotalLength(segments)
      requires T.HasRoom(Model(), freeSlots[|freeSlots| - 1], S.TotalLength(segments))
      modifies this, table, pool
      ensures Valid() && Model() == S.InsertSGL(old(Model()), at, key, segments, total)
    {
      var slot := freeSlots[|freeSlots| - 1];
      freeSlots := freeSlots[..|freeSlots| - 1];
      table[at] := T.Entry(key, slot, total, true, false);
      usedSlots := usedSlots + 1;
      FillSlot(slot, segments, total);
    }

    /** Copies the segments into a slot and counts their bytes. */
    method FillSlot(slot: nat, segments: seq<T.Bytes>, total: uint32)
      requires T.SlotBase(slot, slotSize) + S.TotalLength(segments) <= pool.Length
      modifies this`usedBytes, pool
      ensures pool[..] == S.CopySegments(old(pool[..]), T.SlotBase(slot, slotSize), segments)
      ensures usedBytes == old(usedBytes) + total
    {
      var at := SlotPtr(slot);
      CopySegments(at, segments);
      usedBytes := usedBytes + total;
    }

    method Get(key: nat, room: nat) returns (status: T.Status, value: T.Bytes)
      requires Valid()
      ensures (status, value) == T.Get(hashKey, Model(), key, room)
    {
      var entry := FindEntry(key);
      if entry.None? {
        return T.NotFound, [];
      }
      var e := table[entry.value];
      if room < e.size {
        return T.InvalidRequest, [];
      }
      var at := SlotPtr(e.slot);
      status, value := T.OK, pool[at..at + e.size];
    }

    method GetInfo(key: nat) returns (size: Option<nat>)
      requires Valid()
      ensures size == T.GetInfo(hashKey, Model(), key)
    {
      var entry := FindEntry(key);
      size := if entry.None? then None else Some(table[entry.value].size);
    }
  }
}
