/** The key-value store on values: a linear-probing table over a byte pool that is cut into slots
    of equal size, with a stack of free slots.  The hash function is a parameter. */
module KvTable {
  import opened Base

  const MIN_VALUE_SIZE: nat := 4096
  const MAX_VALUE_SIZE: nat := 65536
  const VALUE_ALIGN: nat := 4096

  type Bytes = seq<uint8>

  /** A deleted entry is a tombstone.  No operation makes one, and none is confused by one. */
  datatype Entry = Entry(key: nat, slot: nat, size: nat, occupied: bool, deleted: bool)
  {
    predicate Live() { occupied && !deleted }
  }

  const EMPTY: Entry := Entry(0, 0, 0, false, false)

  datatype Status = OK | NotFound | NoSpace | InvalidRequest

  datatype Store = Store(table: seq<Entry>, free: seq<nat>, pool: Bytes, slots: nat, slotSize: nat,
                         usedSlots: int, usedBytes: int)

  predicate IsValidValueSize(size: nat) {
    MIN_VALUE_SIZE <= size <= MAX_VALUE_SIZE && size % VALUE_ALIGN == 0
  }

  /** Where the probes for a key start; table sizes are powers of two, for which masking is the remainder. */
  function Start(hash: nat -> nat, key: nat, n: nat): (p: nat)
    requires n > 0
    ensures p < n
  {
    hash(key) % n
  }

  /** FindEntry from probe `i` on. */
  function Find(table: seq<Entry>, start: nat, key: nat, i: nat): (r: Option<nat>)
    requires start < |table| && i <= |table|
    ensures r.Some? ==> r.value < |table| && table[r.value].Live() && table[r.value].key == key
    decreases |table| - i
  {
    if i == |table| then None
    else
      var e := table[RingAt(start, i, |table|)];
      if !e.occupied then None
      else if e.key == key && !e.deleted then Some(RingAt(start, i, |table|))
      else Find(table, start, key, i + 1)
  }

  /** The first probe, from `i` on, that holds no live entry. */
  function FindRoom(table: seq<Entry>, start: nat, i: nat): (r: Option<nat>)
    requires start < |table| && i <= |table|
    ensures r.Some? ==> r.value < |table| && !table[r.value].Live()
    decreases |table| - i
  {
    if i == |table| then None
    else if !table[RingAt(start, i, |table|)].Live() then Some(RingAt(start, i, |table|))
    else FindRoom(table, start, i + 1)
  }

  /** memcpy into the pool. */
  function Write(pool: Bytes, at: nat, value: Bytes): (r: Bytes)
    requires at + |value| <= |pool|
    ensures |r| == |pool|
  {
    pool[..at] + value + pool[at + |value|..]
  }

  /** Where a slot starts in the pool: slot times slotSize, added up so that proofs stay linear. */
  function SlotBase(slot: nat, size: nat): nat {
    if slot == 0 then 0 else SlotBase(slot - 1, size) + size
  }

  lemma {:induction false} SlotBaseIsProduct(slot: nat, size: nat)
    ensures SlotBase(slot, size) == slot * size
  {
    if slot > 0 {
      SlotBaseIsProduct(slot - 1, size);
    }
  }

  lemma {:induction false} SlotsAreApart(a: nat, b: nat, size: nat)
    requires a < b
    ensures SlotBase(a, size) + size <= SlotBase(b, size)
  {
    if a < b - 1 {
      SlotsAreApart(a, b - 1, size);
    }
  }

  /** Lengths agree, and every slot and every stored value lies inside the pool.  A value may be longer
      than a slot: nothing in the configuration prevents it. */
  ghost predicate Shape(s: Store) {
    && 0 < |s.table| && 0 < s.slotSize && SlotBase(s.slots, s.slotSize) <= |s.pool|
    && (forall i :: 0 <= i < |s.free| ==> s.free[i] < s.slots)
    && (forall i :: 0 <= i < |s.table| && s.table[i].Live() ==>
          s.table[i].slot < s.slots && HasRoom(s, s.table[i].slot, s.table[i].size))
  }

  ghost predicate HasRoom(s: Store, slot: nat, n: nat) {
    SlotBase(slot, s.slotSize) + n <= |s.pool|
  }

  /** The slot a put that gets past the space check writes to, unless the table is full. */
  function TargetSlot(hash: nat -> nat, s: Store, key: nat): Option<nat>
    requires Shape(s) && s.free != []
  {
    var start := Start(hash, key, |s.table|);
    match Find(s.table, start, key, 0)
    case Some(at) => Some(s.table[at].slot)
    case None => if FindRoom(s.table, start, 0).Some? then Some(s.free[|s.free| - 1]) else None
  }

  /** Copying n bytes for `key` does not run past the end of the pool. */
  ghost predicate InPool(hash: nat -> nat, s: Store, key: nat, n: nat)
    requires Shape(s)
  {
    s.free != [] ==> match TargetSlot(hash, s, key)
                     case Some(slot) => HasRoom(s, slot, n)
                     case None => true
  }

  lemma SlotInPool(s: Store, slot: nat, n: nat)
    requires SlotBase(s.slots, s.slotSize) <= |s.pool| && slot < s.slots && n <= s.slotSize
    ensures SlotBase(slot, s.slotSize) + n <= |s.pool|
  {
    SlotsAreApart(slot, s.slots, s.slotSize);
  }

  /** The size check of a put implies that the value fits its slot. */
  ghost predicate Fits(s: Store, size: nat) {
    IsValidValueSize(size) ==> size <= s.slotSize
  }

  lemma FittingIsInPool(hash: nat -> nat, s: Store, key: nat, n: nat)
    requires Shape(s) && n <= s.slotSize
    ensures InPool(hash, s, key, n)
  {
    if s.free != [] && TargetSlot(hash, s, key).Some? {
      SlotInPool(s, TargetSlot(hash, s, key).value, n);
    }
  }

  function Overwrite(s: Store, at: nat, value: Bytes): (s': Store)
    requires Shape(s) && at < |s.table| && s.table[at].Live() && HasRoom(s, s.table[at].slot, |value|)
    ensures Shape(s')
  {
    var e := s.table[at];
    s.(pool := Write(s.pool, SlotBase(e.slot, s.slotSize), value), table := s.table[at := e.(size := |value|)],
       usedBytes := s.usedBytes - e.size + |value|)
  }

  function Insert(s: Store, at: nat, key: nat, value: Bytes): (s': Store)
    requires Shape(s) && at < |s.table| && s.free != [] && HasRoom(s, s.free[|s.free| - 1], |value|)
    ensures Shape(s')
  {
    var slot := s.free[|s.free| - 1];
    s.(free := s.free[..|s.free| - 1], pool := Write(s.pool, SlotBase(slot, s.slotSize), value),
       table := s.table[at := Entry(key, slot, |value|, true, false)],
       usedSlots := s.usedSlots + 1, usedBytes := s.usedBytes + |value|)
  }

  function Put(hash: nat -> nat, s: Store, key: nat, value: Bytes): (r: (Store, Status))
    requires Shape(s) && (IsValidValueSize(|value|) ==> InPool(hash, s, key, |value|))
    ensures Shape(r.0)
  {
    if !IsValidValueSize(|value|) then (s, InvalidRequest)
    else if s.free == [] then (s, NoSpace)
    else
      var start := Start(hash, key, |s.table|);
      match Find(s.table, start, key, 0)
      case Some(at) => (Overwrite(s, at, value), OK)
      case None =>
        match FindRoom(s.table, start, 0)
        case Some(at) => (Insert(s, at, key, value), OK)
        case None => (s, NoSpace)
  }

  /** The bytes a live entry stands for. */
  function ValueOf(s: Store, at: nat): Bytes
    requires at < |s.table| && SlotBase(s.table[at].slot, s.slotSize) + s.table[at].size <= |s.pool|
  {
    var base := SlotBase(s.table[at].slot, s.slotSize);
    s.pool[base..base + s.table[at].size]
  }

  /** Get with a buffer of `room` bytes. */
  function Get(hash: nat -> nat, s: Store, key: nat, room: nat): (r: (Status, Bytes))
    requires Shape(s)
  {
    match Find(s.table, Start(hash, key, |s.table|), key, 0)
    case None => (NotFound, [])
    case Some(at) =>
      if room < s.table[at].size then (InvalidRequest, [])
      else (OK, ValueOf(s, at))
  }

  function GetInfo(hash: nat -> nat, s: Store, key: nat): Option<nat>
    requires Shape(s)
  {
    match Find(s.table, Start(hash, key, |s.table|), key, 0)
    case None => None
    case Some(at) => Some(s.table[at].size)
  }

  function Initial(slots: nat, slotSize: nat, tableSize: nat, pool: Bytes): Store {
    Store(seq(tableSize, _ => EMPTY), seq(slots, i requires 0 <= i < slots => slots - 1 - i), pool,
          slots, slotSize, 0, 0)
  }
}
