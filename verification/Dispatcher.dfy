/** The completion dispatcher on values: a 2-way set-associative cache (L0) over a 4-probe hash
    cache (L1) over a complete two-level index (L2), and what it must agree with, a plain map. */
module Dispatcher {
  import opened Base

  /** The id that marks an empty cache entry. */
  const NONE: uint16 := 0xFFFF

  const SETS: nat := 32
  const HOT: nat := 64
  const PROBES: nat := 4

  /** A registered pair; handler 0 is a null function pointer. */
  datatype Conn = Conn(ctx: nat, handler: nat)

  const NO_CONN: Conn := Conn(0, 0)

  datatype Way = Way(id: uint16, access: uint8, conn: Conn)
  datatype HotEntry = HotEntry(id: uint16, access: uint16, conn: Conn)

  /** Way w of set s is l0[2 * s + w].  A bucket of l2 is empty until it is allocated. */
  datatype State = State(l0: seq<Way>, l1: seq<HotEntry>, l2: seq<seq<Conn>>)

  ghost predicate Shape(d: State) {
    && |d.l0| == 2 * SETS && |d.l1| == HOT && |d.l2| == 256
    && forall b :: 0 <= b < 256 ==> |d.l2[b]| == 0 || |d.l2[b]| == 256
  }

  const EMPTY_WAY: Way := Way(NONE, 0, NO_CONN)
  const EMPTY_HOT: HotEntry := HotEntry(NONE, 0, NO_CONN)

  function Initial(): State {
    State(seq(2 * SETS, _ => EMPTY_WAY), seq(HOT, _ => EMPTY_HOT), seq(256, _ => []))
  }

  // ----- level 2 -----

  function L2Lookup(l2: seq<seq<Conn>>, id: uint16): Conn
    requires |l2| == 256 && forall b :: 0 <= b < 256 ==> |l2[b]| == 0 || |l2[b]| == 256
  {
    if l2[id / 256] == [] then NO_CONN else l2[id / 256][id % 256]
  }

  function L2Store(l2: seq<seq<Conn>>, id: uint16, c: Conn): (l2': seq<seq<Conn>>)
    requires |l2| == 256 && forall b :: 0 <= b < 256 ==> |l2[b]| == 0 || |l2[b]| == 256
    ensures |l2'| == 256 && forall b :: 0 <= b < 256 ==> |l2'[b]| == 0 || |l2'[b]| == 256
  {
    var bucket := if l2[id / 256] == [] then seq(256, _ => NO_CONN) else l2[id / 256];
    l2[id / 256 := bucket[id % 256 := c]]
  }

  // ----- level 0 -----

  function SetOf(id: uint16): nat {
    id % SETS
  }

  /** The way with the smaller access count, way 0 on a tie. */
  function Lru(w0: Way, w1: Way): nat {
    if w1.access < w0.access then 1 else 0
  }

  /** Where RegisterConnection puts an id: the first way that holds it or is empty, or else the least used. */
  function RegisterWay(w0: Way, w1: Way, id: uint16): (w: nat)
    ensures w < 2
  {
    if w0.id == id || w0.id == NONE then 0
    else if w1.id == id || w1.id == NONE then 1
    else Lru(w0, w1)
  }

  function L0Register(l0: seq<Way>, id: uint16, c: Conn): (l0': seq<Way>)
    requires |l0| == 2 * SETS
    ensures |l0'| == 2 * SETS
  {
    var base := 2 * SetOf(id);
    l0[base + RegisterWay(l0[base], l0[base + 1], id) := Way(id, 128, c)]
  }

  /** Promotion looks for an empty way first, and leaves a set alone that already holds the id. */
  function L0Promote(l0: seq<Way>, id: uint16, c: Conn): (l0': seq<Way>)
    requires |l0| == 2 * SETS
    ensures |l0'| == 2 * SETS
  {
    var base := 2 * SetOf(id);
    var w0, w1 := l0[base], l0[base + 1];
    if w0.id == NONE then l0[base := Way(id, 128, c)]
    else if w0.id == id then l0
    else if w1.id == NONE then l0[base + 1 := Way(id, 128, c)]
    else if w1.id == id then l0
    else l0[base + Lru(w0, w1) := Way(id, 128, c)]
  }

  /** A hit saturates the count of its way and ages the other. */
  function L0Touch(l0: seq<Way>, at: nat, other: nat): (l0': seq<Way>)
    requires at < |l0| && other < |l0| && at != other
    ensures |l0'| == |l0|
  {
    var o := l0[other];
    l0[at := l0[at].(access := 255)][other := o.(access := if o.access > 0 then o.access - 1 else 0)]
  }

  /** As written: the first way that holds the id is emptied. */
  function L0ClearFirst(l0: seq<Way>, id: uint16): (l0': seq<Way>)
    requires |l0| == 2 * SETS
    ensures |l0'| == 2 * SETS
  {
    var base := 2 * SetOf(id);
    if l0[base].id == id then l0[base := l0[base].(id := NONE, conn := NO_CONN)]
    else if l0[base + 1].id == id then l0[base + 1 := l0[base + 1].(id := NONE, conn := NO_CONN)]
    else l0
  }

  // ----- level 1 -----

  /** The low six bits of the 32-bit product. */
  function Hash(id: uint16): (h: nat)
    ensures h < HOT
  {
    id * 0x9E37_79B9 % TWO32 % HOT
  }

  function Probe(id: uint16, k: nat): (p: nat)
    ensures p < HOT
  {
    (Hash(id) + k) % HOT
  }

  /** The first probe, from `k` on, that holds the id, unless an empty entry comes before it. */
  function Find(l1: seq<HotEntry>, id: uint16, k: nat): (r: Option<nat>)
    requires |l1| == HOT && k <= PROBES
    ensures r.Some? ==> r.value < HOT && l1[r.value].id == id
    decreases PROBES - k
  {
    if k == PROBES then None
    else if l1[Probe(id, k)].id == id then Some(Probe(id, k))
    else if l1[Probe(id, k)].id == NONE then None
    else Find(l1, id, k + 1)
  }

  /** Where an insertion goes: the first probe that holds the id or is empty, or else the first of
      the least used; `best` and `least` are the candidate so far. */
  function InsertAt(l1: seq<HotEntry>, id: uint16, k: nat, best: nat, least: uint16): (p: nat)
    requires |l1| == HOT && k <= PROBES && best < HOT
    ensures p < HOT
    decreases PROBES - k
  {
    if k == PROBES then best
    else
      var p := Probe(id, k);
      if l1[p].id == id || l1[p].id == NONE then p
      else if l1[p].access < least then InsertAt(l1, id, k + 1, p, l1[p].access)
      else InsertAt(l1, id, k + 1, best, least)
  }

  function L1Insert(l1: seq<HotEntry>, id: uint16, c: Conn): (l1': seq<HotEntry>)
    requires |l1| == HOT
    ensures |l1'| == HOT
  {
    var p := InsertAt(l1, id, 0, Hash(id), 0xFFFF);
    if l1[p].id == id then l1[p := HotEntry(id, (l1[p].access + 1) % 0x1_0000, c)]
    else l1[p := HotEntry(id, 1, c)]
  }

  /** As written: the first probe that holds the id is emptied, and empty entries are skipped. */
  function L1ClearFirst(l1: seq<HotEntry>, id: uint16, k: nat): (l1': seq<HotEntry>)
    requires |l1| == HOT && k <= PROBES
    ensures |l1'| == HOT
    decreases PROBES - k
  {
    if k == PROBES then l1
    else
      var p := Probe(id, k);
      if l1[p].id == id then l1[p := l1[p].(id := NONE, conn := NO_CONN)]
      else L1ClearFirst(l1, id, k + 1)
  }

  // ----- the operations -----

  function Register(d: State, id: uint16, c: Conn): (d': State)
    requires Shape(d)
    ensures Shape(d')
  {
    State(L0Register(d.l0, id, c), L1Insert(d.l1, id, c), L2Store(d.l2, id, c))
  }

  function Unregister(d: State, id: uint16): (d': State)
    requires Shape(d)
    ensures Shape(d')
  {
    State(L0ClearFirst(d.l0, id), L1ClearFirst(d.l1, id, 0),
          if d.l2[id / 256] == [] then d.l2 else L2Store(d.l2, id, NO_CONN))
  }

  /** What would keep the caches right in every run: every copy of the id is emptied. */
  function UnregisterAll(d: State, id: uint16): (d': State)
    requires Shape(d)
    ensures Shape(d')
  {
    State(seq(|d.l0|, i requires 0 <= i < |d.l0| => if d.l0[i].id == id then EMPTY_WAY else d.l0[i]),
          seq(|d.l1|, i requires 0 <= i < |d.l1| => if d.l1[i].id == id then EMPTY_HOT else d.l1[i]),
          if d.l2[id / 256] == [] then d.l2 else L2Store(d.l2, id, NO_CONN))
  }

  /** What a successful completion leads to. */
  datatype Outcome = Invoked(conn: Conn) | Dropped

  function Dispatch(d: State, id: uint16): (r: (State, Outcome))
    requires Shape(d)
    ensures Shape(r.0)
  {
    var base := 2 * SetOf(id);
    if d.l0[base].id == id then
      (d.(l0 := L0Touch(d.l0, base, base + 1)), Invoked(d.l0[base].conn))
    else if d.l0[base + 1].id == id then
      (d.(l0 := L0Touch(d.l0, base + 1, base)), Invoked(d.l0[base + 1].conn))
    else match Find(d.l1, id, 0)
      case Some(p) =>
        var e := d.l1[p];
        (d.(l0 := L0Promote(d.l0, id, e.conn), l1 := d.l1[p := e.(access := (e.access + 1) % 0x1_0000)]),
         Invoked(e.conn))
      case None =>
        var c := L2Lookup(d.l2, id);
        if c.handler == 0 then (d, Dropped)
        else (d.(l1 := L1Insert(d.l1, id, c)), Invoked(c))
  }
}
