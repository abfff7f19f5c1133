/** What the caches are for: an id that is used moves up to the fast level, and nothing else moves. */
module DispatcherCaching {
  import opened Base
  import opened Dispatcher
  import opened DispatcherInvariant

  /** Where a dispatch of the id finds its connection. */
  function Level(d: State, id: uint16): (level: nat)
    requires Shape(d)
    ensures level <= 2
  {
    if d.l0[2 * SetOf(id)].id == id || d.l0[2 * SetOf(id) + 1].id == id then 0
    else if Find(d.l1, id, 0).Some? then 1
    else 2
  }

  // ----- registration -----

  /** An insertion can be found, and is what is found. */
  lemma InsertedIsFound(l1: seq<HotEntry>, id: uint16, c: Conn)
    requires |l1| == HOT && id != NONE
    ensures match Find(L1Insert(l1, id, c), id, 0) case Some(p) => L1Insert(l1, id, c)[p].conn == c case None => false
  {
    var at, l1' := InsertAt(l1, id, 0, Hash(id), 0xFFFF), L1Insert(l1, id, c);
    InsertAtFacts(l1, id, 0, Hash(id), 0xFFFF);
    ProbeOffset(id, at, 0);
    forall j | 0 <= j < Offset(id, at)
      ensures l1'[Probe(id, j)].id != NONE && l1'[Probe(id, j)].id != id
    {
      ProbeOffset(id, at, j);
    }
    FirstIsFound(l1', id, 0, Offset(id, at));
  }

  lemma {:induction false} FirstIsFound(l1: seq<HotEntry>, id: uint16, k: nat, j: nat)
    requires |l1| == HOT && k <= j < PROBES && l1[Probe(id, j)].id == id && Reaches(l1, id, j)
    ensures Find(l1, id, k) == Some(Probe(id, j))
    decreases PROBES - k
  {
    if k < j {
      FirstIsFound(l1, id, k + 1, j);
    }
  }

  /** A registered id is in every level, and the next dispatch is a hit on the fast one, for any caches. */
  lemma RegisteredIsCached(d: State, id: uint16, c: Conn)
    requires Shape(d) && id != NONE
    ensures var d' := Register(d, id, c);
            && Level(d', id) == 0 && Dispatch(d', id).1 == Invoked(c) && L2Lookup(d'.l2, id) == c
            && (match Find(d'.l1, id, 0) case Some(p) => d'.l1[p].conn == c case None => false)
  {
    InsertedIsFound(d.l1, id, c);
  }

  /** One entry was used: its count is one up, or one if it was given to a newcomer. */
  ghost predicate OneUse(l1: seq<HotEntry>, l1': seq<HotEntry>, p: nat, id: uint16, c: Conn) {
    && p < |l1| == |l1'| && (forall q :: 0 <= q < |l1| && q != p ==> l1'[q] == l1[q])
    && l1'[p].id == id && l1'[p].conn == c
    && l1'[p].access == if l1[p].id == id then (l1[p].access + 1) % 0x1_0000 else 1
  }

  /** One way of the id's own set was given to it. */
  ghost predicate OneWay(l0: seq<Way>, l0': seq<Way>, i: nat, id: uint16, c: Conn) {
    && i < |l0| == |l0'| && i / 2 == id % 32 && l0'[i] == Way(id, 128, c)
    && (forall q :: 0 <= q < |l0| && q != i ==> l0'[q] == l0[q])
  }

  ghost predicate UsesOneEntry(l1: seq<HotEntry>, l1': seq<HotEntry>, id: uint16, c: Conn) {
    exists p: nat :: OneUse(l1, l1', p, id, c)
  }

  ghost predicate UsesOneWay(l0: seq<Way>, l0': seq<Way>, id: uint16, c: Conn) {
    exists i: nat :: OneWay(l0, l0', i, id, c)
  }

  /** A registration uses one way of the id's set and one entry; the rest of the caches and the index is
      as it was. */
  lemma RegisterLeavesOthers(d: State, id: uint16, c: Conn)
    requires Shape(d) && id != NONE
    ensures var d' := Register(d, id, c);
            && UsesOneWay(d.l0, d'.l0, id, c) && UsesOneEntry(d.l1, d'.l1, id, c)
            && (forall q: uint16 :: q != id ==> L2Lookup(d'.l2, q) == L2Lookup(d.l2, q))
  {
    RegisterUsesOneWay(d.l0, id, c);
    InsertUsesOneEntry(d.l1, id, c);
    StoreLeavesOthers(d.l2, id, c);
  }

  lemma RegisterUsesOneWay(l0: seq<Way>, id: uint16, c: Conn)
    requires |l0| == 2 * SETS
    ensures UsesOneWay(l0, L0Register(l0, id, c), id, c)
  {
    var base := 2 * SetOf(id);
    assert OneWay(l0, L0Register(l0, id, c), base + RegisterWay(l0[base], l0[base + 1], id), id, c);
  }

  lemma InsertUsesOneEntry(l1: seq<HotEntry>, id: uint16, c: Conn)
    requires |l1| == HOT
    ensures UsesOneEntry(l1, L1Insert(l1, id, c), id, c)
  {
    assert OneUse(l1, L1Insert(l1, id, c), InsertAt(l1, id, 0, Hash(id), 0xFFFF), id, c);
  }

  lemma StoreLeavesOthers(l2: seq<seq<Conn>>, id: uint16, c: Conn)
    requires |l2| == 256 && forall b :: 0 <= b < 256 ==> |l2[b]| == 0 || |l2[b]| == 256
    ensures L2Lookup(L2Store(l2, id, c), id) == c
    ensures forall q: uint16 :: q != id ==> L2Lookup(L2Store(l2, id, c), q) == L2Lookup(l2, q)
  {
    forall q: uint16 | q != id
      ensures L2Lookup(L2Store(l2, id, c), q) == L2Lookup(l2, q)
    {
      assert q / 256 != id / 256 || q % 256 != id % 256;
    }
  }

  /** A newcomer to a full set, registered or promoted, takes the place of the less used way, the first of
      the two if they are used alike. */
  lemma LessUsedWayIsLost(l0: seq<Way>, id: uint16, c: Conn)
    requires |l0| == 64
    requires var w0, w1 := l0[2 * (id % 32)], l0[2 * (id % 32) + 1];
             w0.id != NONE && w1.id != NONE && w0.id != id && w1.id != id
    ensures var base := 2 * (id % 32);
            var lost := if l0[base].access <= l0[base + 1].access then base else base + 1;
            L0Register(l0, id, c) == L0Promote(l0, id, c) == l0[lost := Way(id, 128, c)]
  {
  }

  /** And of equally little used entries an insertion takes the one that is probed first; `best` and
      `least` are the minimum so far. */
  lemma {:induction false} InsertTakesFirstOfLeastUsed(l1: seq<HotEntry>, id: uint16, k: nat, best: nat, least: uint16)
    requires |l1| == HOT && k <= PROBES && best < HOT && Reaches(l1, id, PROBES)
    requires if k == 0 then best == Hash(id) && least == 0xFFFF else l1[best].access == least && Offset(id, best) < k
    requires forall j :: 0 <= j < k ==> if j < Offset(id, best) then least < l1[Probe(id, j)].access else least <= l1[Probe(id, j)].access
    ensures var at := InsertAt(l1, id, k, best, least);
            forall j :: 0 <= j < Offset(id, at) && j < PROBES ==> l1[at].access < l1[Probe(id, j)].access
    decreases PROBES - k
  {
    if k < PROBES {
      var p := Probe(id, k);
      ProbeOffset(id, p, k);
      assert k == 0 ==> p == best;
      if l1[p].access < least {
        InsertTakesFirstOfLeastUsed(l1, id, k + 1, p, l1[p].access);
      } else {
        InsertTakesFirstOfLeastUsed(l1, id, k + 1, best, least);
      }
    }
  }

  // ----- unregistration -----

  /** No cached copy of another id is lost, and no other id leaves the index. */
  lemma UnregisterLeavesOthers(d: State, id: uint16)
    requires Shape(d) && id != NONE
    ensures var d' := Unregister(d, id);
            && (forall i :: 0 <= i < 64 && d.l0[i].id != id ==> d'.l0[i] == d.l0[i])
            && (forall p :: 0 <= p < 64 && d.l1[p].id != id ==> d'.l1[p] == d.l1[p])
            && (forall i :: 0 <= i < 64 && d'.l0[i] != d.l0[i] ==> d'.l0[i] == Way(NONE, d.l0[i].access, NO_CONN))
            && (forall p :: 0 <= p < 64 && d'.l1[p] != d.l1[p] ==> d'.l1[p] == HotEntry(NONE, d.l1[p].access, NO_CONN))
            && (forall q: uint16 :: q != id ==> L2Lookup(d'.l2, q) == L2Lookup(d.l2, q))
            && L2Lookup(d'.l2, id) == NO_CONN
  {
    ClearFirstFacts(d.l1, id, 0);
    StoreLeavesOthers(d.l2, id, NO_CONN);
  }

  // ----- dispatching -----

  lemma {:induction false} HitIsFoundAgain(l1: seq<HotEntry>, l1': seq<HotEntry>, id: uint16, k: nat)
    requires |l1| == |l1'| == HOT && k <= PROBES && forall p :: 0 <= p < HOT ==> l1'[p].id == l1[p].id
    ensures Find(l1', id, k) == Find(l1, id, k)
    decreases PROBES - k
  {
    if k < PROBES {
      HitIsFoundAgain(l1, l1', id, k + 1);
    }
  }

  /** Each dispatch that invokes a handler brings its id one level up, with the same connection: after two
      of them every further one is a hit on the fast level. */
  lemma UseMovesUp(d: State, id: uint16)
    requires Shape(d) && id != NONE && Dispatch(d, id).1.Invoked?
    ensures var d' := Dispatch(d, id).0;
            && Level(d', id) == (if Level(d, id) == 2 then 1 else 0)
            && Dispatch(d', id).1 == Dispatch(d, id).1
  {
    if Level(d, id) == 2 {
      InsertedIsFound(d.l1, id, L2Lookup(d.l2, id));
    }
  }

  lemma TwoUsesAreEnough(d: State, id: uint16)
    requires Shape(d) && id != NONE && Dispatch(d, id).1.Invoked?
    ensures var d' := Dispatch(Dispatch(d, id).0, id).0;
            Level(d', id) == 0 && Dispatch(d', id).1 == Dispatch(d, id).1
  {
    UseMovesUp(d, id);
    UseMovesUp(Dispatch(d, id).0, id);
  }

  /** What a dispatch changes.  A hit on the fast level sets the count of its way to 255 and takes one
      from the other way of the set; a hit on the middle one counts one use and puts the id in its set; a
      miss in both puts it in the middle level; an unknown id changes nothing. */
  lemma DispatchLeavesOthers(d: State, id: uint16)
    requires Shape(d) && id != NONE
    ensures var r := Dispatch(d, id); var d', c := r.0, r.1;
            && d'.l2 == d.l2 && (c == Dropped ==> d' == d)
            && (Level(d, id) == 0 ==> d'.l1 == d.l1 && exists i: nat, j: nat :: HitIn(d.l0, d'.l0, i, j, id))
            && (Level(d, id) == 1 ==>
                  c.Invoked? && UsesOneWay(d.l0, d'.l0, id, c.conn)
                  && exists p: nat :: EntryHolds(d.l1, p, id) && OneUse(d.l1, d'.l1, p, id, c.conn))
            && (Level(d, id) == 2 && c.Invoked? ==>
                  d'.l0 == d.l0 && UsesOneEntry(d.l1, d'.l1, id, c.conn))
  {
    var base, d', c := 2 * SetOf(id), Dispatch(d, id).0, Dispatch(d, id).1;
    var w0, w1 := d.l0[base], d.l0[base + 1];
    if w0.id == id {
      assert HitIn(d.l0, d'.l0, base, base + 1, id);
    } else if w1.id == id {
      assert HitIn(d.l0, d'.l0, base + 1, base, id);
    } else if Find(d.l1, id, 0).Some? {
      var p := Find(d.l1, id, 0).value;
      assert EntryHolds(d.l1, p, id) && OneUse(d.l1, d'.l1, p, id, c.conn);
      var i := if w0.id == NONE then base else if w1.id == NONE then base + 1 else base + Lru(w0, w1);
      assert OneWay(d.l0, d'.l0, i, id, c.conn);
    } else if c.Invoked? {
      InsertUsesOneEntry(d.l1, id, c.conn);
    }
  }

  ghost predicate EntryHolds(l1: seq<HotEntry>, p: nat, id: uint16) {
    p < |l1| && l1[p].id == id
  }

  /** Way i was hit, and j is the other way of its set. */
  ghost predicate HitIn(l0: seq<Way>, l0': seq<Way>, i: nat, j: nat, id: uint16) {
    && i < |l0| == |l0'| && j < |l0| && i != j && i / 2 == j / 2 == id % 32 && l0[i].id == id
    && l0'[i] == l0[i].(access := 255)
    && l0'[j] == l0[j].(access := if l0[j].access == 0 then 0 else l0[j].access - 1)
    && (forall q :: 0 <= q < |l0| && q != i && q != j ==> l0'[q] == l0[q])
  }

  /** The state after n dispatches of the same id. */
  function Repeated(d: State, id: uint16, n: nat): (d': State)
    requires Shape(d)
    ensures Shape(d')
  {
    if n == 0 then d else Dispatch(Repeated(d, id, n - 1), id).0
  }

  /** One hit, on values of the two ways alone. */
  lemma HitAges(d: State, id: uint16, i: nat, j: nat)
    requires Shape(d) && i < 64 && j < 64 && i != j && i / 2 == j / 2 == id % 32
    requires d.l0[i].id == id && d.l0[j].id != id
    ensures var l0' := Dispatch(d, id).0.l0;
            && l0'[i] == d.l0[i].(access := 255)
            && l0'[j] == d.l0[j].(access := if d.l0[j].access == 0 then 0 else d.l0[j].access - 1)
  {
    var base := 2 * SetOf(id);
    assert (i == base && j == base + 1) || (i == base + 1 && j == base);
  }

  /** n hits in a row age the other way of the set by n, down to 0, and leave their own at 255. */
  lemma {:induction false} HitsAge(d: State, id: uint16, i: nat, j: nat, n: nat)
    requires Shape(d) && i < 64 && j < 64 && i != j && i / 2 == j / 2 == id % 32
    requires d.l0[i].id == id && d.l0[j].id != id
    ensures var l0' := Repeated(d, id, n).l0;
            && l0'[i] == (if n == 0 then d.l0[i] else d.l0[i].(access := 255))
            && l0'[j] == d.l0[j].(access := if d.l0[j].access > n then d.l0[j].access - n else 0)
  {
    if n > 0 {
      HitsAge(d, id, i, j, n - 1);
      HitAges(Repeated(d, id, n - 1), id, i, j);
    }
  }

  // ----- the hash -----

  /** The multiplicative hash keeps the low six bits of an id apart: nine times the constant is one
      more than a multiple of 64. */
  lemma HashIsInvertible(id: uint16)
    ensures Hash(id) * 9 % 64 == id % 64
  {
    var product := id * 0x9E37_79B9;
    var low := product % TWO32;
    assert product == product / TWO32 * TWO32 + low && low == low / 64 * 64 + Hash(id);
    var z := 373280030 * id - 9 * 0x400_0000 * (product / TWO32) - 9 * (low / 64);
    assert Hash(id) * 9 == (id / 64 + z) * 64 + id % 64;
    Digits(id / 64 + z, id % 64, 64);
  }

  lemma NineIsInvertible(x: nat)
    requires x < 64
    ensures x * 9 % 64 * 57 % 64 == x
  {
    var q, r := x * 9 / 64, x * 9 % 64;
    assert r * 57 == (8 * x - 57 * q) * 64 + x;
    Digits(8 * x - 57 * q, x, 64);
  }

  /** So two ids probe from the same entry exactly when they agree modulo 64. */
  lemma HashesCollideIff(a: uint16, b: uint16)
    ensures Hash(a) == Hash(b) <==> a % 64 == b % 64
  {
    HashIsInvertible(a);
    HashIsInvertible(b);
    NineIsInvertible(Hash(a));
    NineIsInvertible(Hash(b));
  }
}
