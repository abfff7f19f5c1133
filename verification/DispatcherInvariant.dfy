/** What has to be true of the caches for a dispatch to invoke what is registered, and which
    operations keep it true. */
module DispatcherInvariant {
  import opened Base
  import opened Dispatcher

  type Registry = map<uint16, Conn>

  /** What a dispatch of `id` should do when `m` is what is registered. */
  function Expected(m: Registry, id: uint16): Outcome {
    if id in m then Invoked(m[id]) else Dropped
  }

  // ----- what cached copies are allowed to be -----

  ghost predicate Registered(m: Registry) {
    NONE !in m && forall id <- m :: m[id].handler != 0
  }

  ghost predicate L2Agrees(l2: seq<seq<Conn>>, m: Registry) {
    && |l2| == 256 && (forall b :: 0 <= b < 256 ==> |l2[b]| == 0 || |l2[b]| == 256)
    && forall id: uint16 :: L2Lookup(l2, id) == if id in m then m[id] else NO_CONN
  }

  /** A way holds nothing, or the registered pair of an id of its set. */
  ghost predicate WayOk(w: Way, i: nat, m: Registry) {
    w.id != NONE ==> w.id in m && w.conn == m[w.id] && i / 2 == SetOf(w.id)
  }

  function Offset(id: uint16, p: nat): nat
    requires p < HOT
  {
    (p + HOT - Hash(id)) % HOT
  }

  /** An entry holds nothing, or the registered pair of an id whose probes reach it. */
  ghost predicate EntryOk(e: HotEntry, p: nat, m: Registry)
    requires p < HOT
  {
    e.id != NONE ==> e.id in m && e.conn == m[e.id] && Offset(e.id, p) < PROBES
  }

  ghost predicate WaysOk(l0: seq<Way>, m: Registry) {
    |l0| == 2 * SETS && forall i :: 0 <= i < 2 * SETS ==> WayOk(l0[i], i, m)
  }

  ghost predicate EntriesOk(l1: seq<HotEntry>, m: Registry) {
    |l1| == HOT && forall p :: 0 <= p < HOT ==> EntryOk(l1[p], p, m)
  }

  ghost predicate Coherent(d: State, m: Registry) {
    && Shape(d) && Registered(m) && L2Agrees(d.l2, m)
    && WaysOk(d.l0, m) && EntriesOk(d.l1, m)
  }

  lemma ProbeOffset(id: uint16, p: nat, k: nat)
    requires p < HOT && k < PROBES
    ensures Probe(id, Offset(id, p)) == p && Offset(id, Probe(id, k)) == k
  {
  }

  /** The probed slots before offset `k` are taken by other ids. */
  ghost predicate Reaches(l1: seq<HotEntry>, id: uint16, k: nat)
    requires |l1| == HOT
  {
    forall j :: 0 <= j < k ==> l1[Probe(id, j)].id != NONE && l1[Probe(id, j)].id != id
  }

  /** The probe loop of the lookup from the outside. */
  lemma {:induction false} FindFacts(l1: seq<HotEntry>, id: uint16, k: nat)
    requires |l1| == HOT && k <= PROBES && Reaches(l1, id, k)
    ensures match Find(l1, id, k)
            case Some(p) => Offset(id, p) < PROBES && Reaches(l1, id, Offset(id, p))
            case None => Reaches(l1, id, PROBES)
                         || exists j :: 0 <= j < PROBES && Reaches(l1, id, j) && l1[Probe(id, j)].id == NONE
    decreases PROBES - k
  {
    if k < PROBES {
      ProbeOffset(id, 0, k);
      if l1[Probe(id, k)].id != id && l1[Probe(id, k)].id != NONE {
        FindFacts(l1, id, k + 1);
      }
    }
  }

  /** The probe loop of the insertion from the outside: it stops at the first slot that holds the
      id or is empty, and when there is none it takes one of the probed slots. */
  lemma {:induction false} InsertAtFacts(l1: seq<HotEntry>, id: uint16, k: nat, best: nat, least: uint16)
    requires |l1| == HOT && k <= PROBES && best < HOT && Reaches(l1, id, k)
    requires k == 0 ==> best == Hash(id)
    requires k > 0 ==> Offset(id, best) < k
    ensures var p := InsertAt(l1, id, k, best, least);
            && Offset(id, p) < PROBES && Reaches(l1, id, Offset(id, p))
            && (l1[p].id == id || l1[p].id == NONE || Reaches(l1, id, PROBES))
    decreases PROBES - k
  {
    if k < PROBES {
      var p := Probe(id, k);
      ProbeOffset(id, best, k);
      assert k == 0 ==> p == best;
      if l1[p].id != id && l1[p].id != NONE {
        if l1[p].access < least {
          InsertAtFacts(l1, id, k + 1, p, l1[p].access);
        } else {
          InsertAtFacts(l1, id, k + 1, best, least);
        }
      }
    }
  }

  /** And the one it takes is the least used of them; `best` and `least` are the minimum so far. */
  lemma {:induction false} InsertTakesLeastUsed(l1: seq<HotEntry>, id: uint16, k: nat, best: nat, least: uint16)
    requires |l1| == HOT && k <= PROBES && best < HOT && Reaches(l1, id, PROBES)
    requires if k == 0 then best == Hash(id) && least == 0xFFFF else l1[best].access == least
    requires forall j :: 0 <= j < k ==> least <= l1[Probe(id, j)].access
    ensures forall j :: 0 <= j < PROBES ==> l1[InsertAt(l1, id, k, best, least)].access <= l1[Probe(id, j)].access
    decreases PROBES - k
  {
    if k < PROBES {
      var p := Probe(id, k);
      assert k == 0 ==> p == best;
      if l1[p].access < least {
        InsertTakesLeastUsed(l1, id, k + 1, p, l1[p].access);
      } else {
        InsertTakesLeastUsed(l1, id, k + 1, best, least);
      }
    }
  }

  /** The connection that was hit last in its set is not the one the next registration or promotion
      pushes out. */
  lemma LastHitIsKept(l0: seq<Way>, at: nat, other: nat, id: uint16, c: Conn)
    requires |l0| == 2 * SETS && at < 2 * SETS && other < 2 * SETS && at / 2 == other / 2 && at != other
    requires l0[at].id != NONE && l0[at].id != id
    ensures var hit := L0Touch(l0, at, other);
            L0Register(hit, id, c)[at] == hit[at] && L0Promote(hit, id, c)[at] == hit[at]
  {
  }

  lemma StoreAgrees(l2: seq<seq<Conn>>, m: Registry, id: uint16, c: Conn)
    requires L2Agrees(l2, m)
    ensures L2Agrees(L2Store(l2, id, c), m[id := c])
    ensures c == NO_CONN ==> L2Agrees(L2Store(l2, id, c), m - {id})
  {
    forall q: uint16
      ensures L2Lookup(L2Store(l2, id, c), q) == if q == id then c else L2Lookup(l2, q)
    {
      assert q / 256 == id / 256 && q % 256 == id % 256 ==> q == id;
    }
  }

  // ----- dispatching -----

  lemma InsertKeepsEntries(l1: seq<HotEntry>, m: Registry, id: uint16, c: Conn)
    requires EntriesOk(l1, m) && id != NONE
    requires id in m ==> m[id] == c
    ensures EntriesOk(L1Insert(l1, id, c), m[id := c])
  {
    InsertAtFacts(l1, id, 0, Hash(id), 0xFFFF);
  }

  /** However many copies the caches hold, as long as they are coherent a dispatch invokes exactly
      what is registered. */
  lemma DispatchAgrees(d: State, m: Registry, id: uint16)
    requires Coherent(d, m) && id != NONE
    ensures Dispatch(d, id).1 == Expected(m, id)
    ensures Coherent(Dispatch(d, id).0, m)
  {
    var base := 2 * SetOf(id);
    assert WayOk(d.l0[base], base, m) && WayOk(d.l0[base + 1], base + 1, m);
    if d.l0[base].id != id && d.l0[base + 1].id != id {
      var c := L2Lookup(d.l2, id);
      match Find(d.l1, id, 0)
      case Some(p) => assert EntryOk(d.l1[p], p, m);
      case None =>
        if c.handler != 0 {
          InsertKeepsEntries(d.l1, m, id, c);
          assert m[id := c] == m;
        }
    }
  }

  // ----- registration over a live registration -----

  /** What makes re-registration find every copy: in no set is way 0 empty and way 1 not, no set
      holds an id twice, and no hot entry lies beyond an empty slot or another copy of its id. */
  ghost predicate Compact(d: State)
    requires Shape(d)
  {
    && (forall s :: 0 <= s < SETS ==> SetCompact(d.l0[2 * s], d.l0[2 * s + 1]))
    && (forall p :: 0 <= p < HOT ==> EntryCompact(d.l1, p))
  }

  ghost predicate SetCompact(w0: Way, w1: Way) {
    w1.id != NONE ==> w0.id != NONE && w0.id != w1.id
  }

  ghost predicate EntryCompact(l1: seq<HotEntry>, p: nat)
    requires |l1| == HOT && p < HOT
  {
    l1[p].id != NONE ==> Reaches(l1, l1[p].id, Offset(l1[p].id, p))
  }

  /** Insertion keeps the probe windows compact, updates the only copy and leaves other ids alone. */
  lemma InsertIsCompact(l1: seq<HotEntry>, m: Registry, id: uint16, c: Conn)
    requires EntriesOk(l1, m) && id != NONE
    requires forall p :: 0 <= p < HOT ==> EntryCompact(l1, p)
    ensures EntriesOk(L1Insert(l1, id, c), m[id := c])
    ensures forall p :: 0 <= p < HOT ==> EntryCompact(L1Insert(l1, id, c), p)
  {
    var at := InsertAt(l1, id, 0, Hash(id), 0xFFFF);
    InsertAtFacts(l1, id, 0, Hash(id), 0xFFFF);
    forall p | 0 <= p < HOT
      ensures EntryOk(L1Insert(l1, id, c)[p], p, m[id := c]) && EntryCompact(L1Insert(l1, id, c), p)
    {
      InsertIsCompactAt(l1, m, id, c, at, p);
    }
  }

  lemma InsertIsCompactAt(l1: seq<HotEntry>, m: Registry, id: uint16, c: Conn, at: nat, p: nat)
    requires |l1| == HOT && id != NONE && p < HOT && EntryOk(l1[p], p, m) && EntryCompact(l1, p)
    requires at == InsertAt(l1, id, 0, Hash(id), 0xFFFF) && Offset(id, at) < PROBES && Reaches(l1, id, Offset(id, at))
    requires l1[at].id == id || l1[at].id == NONE || Reaches(l1, id, PROBES)
    ensures EntryOk(L1Insert(l1, id, c)[p], p, m[id := c]) && EntryCompact(L1Insert(l1, id, c), p)
  {
    if l1[p].id == id {
      OnlyCopy(l1, id, p, at);
    }
    if p == at {
      ProbeOffset(id, at, 0);
      forall j | 0 <= j < Offset(id, at)
        ensures Probe(id, j) != at
      {
        ProbeOffset(id, at, j);
      }
    }
  }

  /** A copy of the id that the lookup can reach is where the insertion goes. */
  lemma OnlyCopy(l1: seq<HotEntry>, id: uint16, p: nat, at: nat)
    requires |l1| == HOT && id != NONE && p < HOT && at < HOT
    requires l1[p].id == id && Offset(id, p) < PROBES && Reaches(l1, id, Offset(id, p))
    requires Offset(id, at) < PROBES && Reaches(l1, id, Offset(id, at))
    requires l1[at].id == id || l1[at].id == NONE || Reaches(l1, id, PROBES)
    ensures p == at
  {
    ProbeOffset(id, p, 0);
    ProbeOffset(id, at, 0);
  }

  lemma RegisterKeepsBoth(d: State, m: Registry, id: uint16, c: Conn)
    requires Coherent(d, m) && Compact(d) && id != NONE && c.handler != 0
    ensures Coherent(Register(d, id, c), m[id := c]) && Compact(Register(d, id, c))
  {
    StoreAgrees(d.l2, m, id, c);
    InsertIsCompact(d.l1, m, id, c);
    var base, l0' := 2 * SetOf(id), L0Register(d.l0, id, c);
    assert SetCompact(d.l0[base], d.l0[base + 1]);
    forall i | 0 <= i < 2 * SETS
      ensures WayOk(l0'[i], i, m[id := c])
    {
      assert WayOk(d.l0[i], i, m);
    }
    forall s | 0 <= s < SETS
      ensures SetCompact(l0'[2 * s], l0'[2 * s + 1])
    {
      assert SetCompact(d.l0[2 * s], d.l0[2 * s + 1]);
    }
  }

  lemma DispatchKeepsCompact(d: State, m: Registry, id: uint16)
    requires Coherent(d, m) && Compact(d) && id != NONE
    ensures Compact(Dispatch(d, id).0)
  {
    var d' := Dispatch(d, id).0;
    var base := 2 * SetOf(id);
    forall s | 0 <= s < SETS
      ensures SetCompact(d'.l0[2 * s], d'.l0[2 * s + 1])
    {
      assert SetCompact(d.l0[2 * s], d.l0[2 * s + 1]);
    }
    if d.l0[base].id != id && d.l0[base + 1].id != id && Find(d.l1, id, 0) == None && L2Lookup(d.l2, id).handler != 0 {
      InsertIsCompact(d.l1, m, id, L2Lookup(d.l2, id));
    } else {
      forall p | 0 <= p < HOT
        ensures EntryCompact(d'.l1, p)
      {
        assert EntryCompact(d.l1, p);
      }
    }
  }

  // ----- registration in general -----

  ghost predicate WayTarget(l0: seq<Way>, id: uint16)
    requires |l0| == 2 * SETS
  {
    var base := 2 * SetOf(id);
    forall i :: 0 <= i < 2 * SETS && l0[i].id == id ==> i == base + RegisterWay(l0[base], l0[base + 1], id)
  }

  ghost predicate EntryTarget(l1: seq<HotEntry>, id: uint16)
    requires |l1| == HOT
  {
    forall p :: 0 <= p < HOT && l1[p].id == id ==> p == InsertAt(l1, id, 0, Hash(id), 0xFFFF)
  }

  /** Every cached copy of the id is the one a registration would overwrite. */
  ghost predicate OneTarget(d: State, id: uint16)
    requires Shape(d)
  {
    WayTarget(d.l0, id) && EntryTarget(d.l1, id)
  }

  lemma RegisterLevel0(l0: seq<Way>, m: Registry, id: uint16, c: Conn)
    requires id != NONE && WaysOk(l0, m)
    ensures WaysOk(L0Register(l0, id, c), m[id := c]) <==> (id in m && m[id] != c ==> WayTarget(l0, id))
  {
    var base, l0' := 2 * SetOf(id), L0Register(l0, id, c);
    var at := base + RegisterWay(l0[base], l0[base + 1], id);
    if i :| 0 <= i < 2 * SETS && l0[i].id == id && i != at && m[id] != c {
      assert WayOk(l0[i], i, m) && l0'[i] == l0[i];
      assert !WayOk(l0'[i], i, m[id := c]);
    } else {
      forall i | 0 <= i < 2 * SETS
        ensures WayOk(l0'[i], i, m[id := c])
      {
        assert WayOk(l0[i], i, m);
      }
    }
  }

  lemma RegisterLevel1(l1: seq<HotEntry>, m: Registry, id: uint16, c: Conn)
    requires id != NONE && EntriesOk(l1, m)
    ensures EntriesOk(L1Insert(l1, id, c), m[id := c]) <==> (id in m && m[id] != c ==> EntryTarget(l1, id))
  {
    var at, l1' := InsertAt(l1, id, 0, Hash(id), 0xFFFF), L1Insert(l1, id, c);
    InsertAtFacts(l1, id, 0, Hash(id), 0xFFFF);
    if p :| 0 <= p < HOT && l1[p].id == id && p != at && m[id] != c {
      assert EntryOk(l1[p], p, m) && l1'[p] == l1[p];
      assert !EntryOk(l1'[p], p, m[id := c]);
    } else {
      forall p | 0 <= p < HOT
        ensures EntryOk(l1'[p], p, m[id := c])
      {
        assert EntryOk(l1[p], p, m);
      }
    }
  }

  /** A registration that changes what an id stands for leaves only right copies exactly when it
      overwrites every copy there is; any other registration always does. */
  lemma RegisterKeepsCoherentIff(d: State, m: Registry, id: uint16, c: Conn)
    requires Coherent(d, m) && id != NONE && c.handler != 0
    ensures Coherent(Register(d, id, c), m[id := c]) <==> (id in m && m[id] != c ==> OneTarget(d, id))
  {
    StoreAgrees(d.l2, m, id, c);
    RegisterLevel0(d.l0, m, id, c);
    RegisterLevel1(d.l1, m, id, c);
  }

  // ----- unregistration -----

  ghost predicate SingleWay(l0: seq<Way>, id: uint16) {
    forall i, j :: 0 <= i < j < |l0| ==> l0[i].id != id || l0[j].id != id
  }

  ghost predicate SingleEntry(l1: seq<HotEntry>, id: uint16) {
    forall p, q :: 0 <= p < q < |l1| ==> l1[p].id != id || l1[q].id != id
  }

  /** As written, an unregistration empties one way of the set and one probed slot. */
  ghost predicate SingleCopies(d: State, id: uint16)
    requires Shape(d)
  {
    SingleWay(d.l0, id) && SingleEntry(d.l1, id)
  }

  lemma {:induction false} ClearFirstFacts(l1: seq<HotEntry>, id: uint16, k: nat)
    requires |l1| == HOT && k <= PROBES && id != NONE
    requires forall j :: 0 <= j < k ==> l1[Probe(id, j)].id != id
    ensures var l1' := L1ClearFirst(l1, id, k);
            if forall j :: 0 <= j < PROBES ==> l1[Probe(id, j)].id != id then l1' == l1
            else exists j :: 0 <= j < PROBES && l1[Probe(id, j)].id == id
                             && l1' == l1[Probe(id, j) := l1[Probe(id, j)].(id := NONE, conn := NO_CONN)]
    decreases PROBES - k
  {
    if k < PROBES && l1[Probe(id, k)].id != id {
      ClearFirstFacts(l1, id, k + 1);
    }
  }

  lemma UnregisterLevel2(d: State, m: Registry, id: uint16)
    requires Coherent(d, m)
    ensures L2Agrees(Unregister(d, id).l2, m - {id}) && L2Agrees(UnregisterAll(d, id).l2, m - {id})
  {
    StoreAgrees(d.l2, m, id, NO_CONN);
    if d.l2[id / 256] == [] {
      assert L2Lookup(d.l2, id) == NO_CONN;
    }
  }

  /** Emptying every copy keeps the caches coherent, whatever copies there are. */
  lemma UnregisterAllKeepsCoherent(d: State, m: Registry, id: uint16)
    requires Coherent(d, m) && id != NONE
    ensures Coherent(UnregisterAll(d, id), m - {id})
  {
    UnregisterLevel2(d, m, id);
    forall i | 0 <= i < 2 * SETS
      ensures WayOk(UnregisterAll(d, id).l0[i], i, m - {id})
    {
      assert WayOk(d.l0[i], i, m);
    }
    forall p | 0 <= p < HOT
      ensures EntryOk(UnregisterAll(d, id).l1[p], p, m - {id})
    {
      assert EntryOk(d.l1[p], p, m);
    }
  }

  /** The form that is written does so exactly when no cache holds the id twice. */
  lemma UnregisterKeepsCoherentIff(d: State, m: Registry, id: uint16)
    requires Coherent(d, m) && id != NONE
    ensures Coherent(Unregister(d, id), m - {id}) <==> SingleCopies(d, id)
  {
    UnregisterLevel2(d, m, id);
    UnregisterLevel0(d.l0, m, id);
    UnregisterLevel1(d.l1, m, id);
  }

  lemma UnregisterLevel0(l0: seq<Way>, m: Registry, id: uint16)
    requires id != NONE && WaysOk(l0, m)
    ensures WaysOk(L0ClearFirst(l0, id), m - {id}) <==> SingleWay(l0, id)
  {
    var base, l0' := 2 * SetOf(id), L0ClearFirst(l0, id);
    assert forall i :: 0 <= i < 2 * SETS && l0[i].id == id ==> WayOk(l0[i], i, m) && (i == base || i == base + 1);
    if l0[base].id == id && l0[base + 1].id == id {
      assert !WayOk(l0'[base + 1], base + 1, m - {id});
    } else {
      forall i | 0 <= i < 2 * SETS
        ensures WayOk(l0'[i], i, m - {id})
      {
        assert WayOk(l0[i], i, m);
      }
    }
  }

  lemma UnregisterLevel1(l1: seq<HotEntry>, m: Registry, id: uint16)
    requires id != NONE && EntriesOk(l1, m)
    ensures EntriesOk(L1ClearFirst(l1, id, 0), m - {id}) <==> SingleEntry(l1, id)
  {
    var l1' := L1ClearFirst(l1, id, 0);
    ClearFirstFacts(l1, id, 0);
    forall p | 0 <= p < HOT
      ensures EntryOk(l1[p], p, m) && (l1[p].id == id ==> Probe(id, Offset(id, p)) == p && Offset(id, p) < PROBES)
    {
      ProbeOffset(id, p, 0);
    }
    if p, q :| 0 <= p < q < HOT && l1[p].id == id && l1[q].id == id {
      assert l1'[p].id == id || l1'[q].id == id;
      assert !EntryOk(l1'[p], p, m - {id}) || !EntryOk(l1'[q], q, m - {id});
    } else {
      forall p | 0 <= p < HOT
        ensures EntryOk(l1'[p], p, m - {id})
      {
        assert EntryOk(l1[p], p, m);
      }
    }
  }

  // ----- what a dispatch does after an unregistration as it is written -----

  /** The lookup does not get past the slot that was emptied. */
  lemma {:induction false} ClearedIsNotFound(l1: seq<HotEntry>, id: uint16, k: nat)
    requires |l1| == HOT && k <= PROBES && id != NONE
    requires forall j :: 0 <= j < k ==> l1[Probe(id, j)].id != id
    ensures Find(L1ClearFirst(l1, id, k), id, k) == None
    decreases PROBES - k
  {
    if k < PROBES && l1[Probe(id, k)].id != id {
      ClearedIsNotFound(l1, id, k + 1);
      ClearFirstFacts(l1, id, k + 1);
      assert L1ClearFirst(l1, id, k)[Probe(id, k)].id == l1[Probe(id, k)].id;
    }
  }

  /** The next dispatch of an id that was unregistered invokes the stale handler exactly when its set
      held the id twice; otherwise it is dropped, as it should be. */
  lemma NextDispatchIsStaleIff(d: State, m: Registry, id: uint16)
    requires Coherent(d, m) && id != NONE
    ensures Expected(m - {id}, id) == Dropped
    ensures if SingleWay(d.l0, id) then Dispatch(Unregister(d, id), id).1 == Dropped
            else id in m && Dispatch(Unregister(d, id), id).1 == Invoked(m[id])
  {
    var base := 2 * SetOf(id);
    assert forall i :: 0 <= i < 2 * SETS && d.l0[i].id == id ==> WayOk(d.l0[i], i, m) && (i == base || i == base + 1);
    ClearedIsNotFound(d.l1, id, 0);
    UnregisterLevel2(d, m, id);
    assert L2Lookup(Unregister(d, id).l2, id) == NO_CONN;
  }

  lemma {:induction false} CopyIsFound(l1: seq<HotEntry>, id: uint16, k: nat, j: nat)
    requires |l1| == HOT && k <= j < PROBES && l1[Probe(id, j)].id == id && id != NONE
    requires forall i :: k <= i < j ==> l1[Probe(id, i)].id != NONE
    ensures Find(l1, id, k).Some?
    decreases PROBES - k
  {
    if k < j && l1[Probe(id, k)].id != id {
      CopyIsFound(l1, id, k + 1, j);
    }
  }

  lemma {:induction false} HoleAt(l1: seq<HotEntry>, id: uint16, k: nat, j: nat)
    requires |l1| == HOT && k <= j < PROBES && l1[Probe(id, j)].id == id && Reaches(l1, id, j)
    ensures L1ClearFirst(l1, id, k) == l1[Probe(id, j) := l1[Probe(id, j)].(id := NONE, conn := NO_CONN)]
    decreases PROBES - k
  {
    if k < j {
      HoleAt(l1, id, k + 1, j);
    }
  }

  lemma HoleIsFilled(l1: seq<HotEntry>, id: uint16, j0: nat, q: uint16, c: Conn)
    requires |l1| == HOT && j0 < PROBES && l1[Probe(id, j0)].id == id && Reaches(l1, id, j0)
    requires q != NONE && Hash(q) == Probe(id, j0)
    ensures L1Insert(L1ClearFirst(l1, id, 0), q, c) == l1[Probe(id, j0) := HotEntry(q, 1, c)]
  {
    var hole, cleared := Probe(id, j0), L1ClearFirst(l1, id, 0);
    HoleAt(l1, id, 0, j0);
    assert Probe(q, 0) == hole && InsertAt(cleared, q, 0, Hash(q), 0xFFFF) == hole;
  }

  lemma FilledHole(l1: seq<HotEntry>, m: Registry, id: uint16, j0: nat, j1: nat, e: HotEntry)
    requires EntriesOk(l1, m) && id != NONE && j0 < j1 < PROBES && e.id != NONE && e.id != id
    requires l1[Probe(id, j0)].id == id && l1[Probe(id, j1)].id == id && Reaches(l1, id, j0)
    requires forall j :: j0 < j < j1 ==> l1[Probe(id, j)].id != NONE
    ensures var l1' := l1[Probe(id, j0) := e];
            match Find(l1', id, 0) case Some(p) => id in m && l1'[p].conn == m[id] case None => false
  {
    var l1' := l1[Probe(id, j0) := e];
    ProbeOffset(id, 0, j0);
    ProbeOffset(id, 0, j1);
    CopyIsFound(l1', id, 0, j1);
    var p := Find(l1', id, 0).value;
    assert l1'[p] == l1[p] && EntryOk(l1[p], p, m);
  }

  lemma NoWayLeft(l0: seq<Way>, m: Registry, id: uint16, q: uint16, c: Conn)
    requires WaysOk(l0, m) && SingleWay(l0, id) && id != NONE && q != id
    ensures var l0', base := L0Register(L0ClearFirst(l0, id), q, c), 2 * SetOf(id);
            l0'[base].id != id && l0'[base + 1].id != id
  {
  }

  /** A copy left behind in level 1 is out of reach at first.  It comes back when a new id is registered
      whose first probe is the slot that was emptied, if no other slot before the copy is empty. */
  lemma FilledHoleRevives(d: State, m: Registry, id: uint16, j0: nat, j1: nat, q: uint16, c: Conn)
    requires Coherent(d, m) && id != NONE && SingleWay(d.l0, id) && j0 < j1 < PROBES
    requires d.l1[Probe(id, j0)].id == id && d.l1[Probe(id, j1)].id == id && Reaches(d.l1, id, j0)
    requires forall j :: j0 < j < j1 ==> d.l1[Probe(id, j)].id != NONE
    requires q !in m && q != NONE && Hash(q) == Probe(id, j0)
    ensures id in m && Dispatch(Register(Unregister(d, id), q, c), id).1 == Invoked(m[id])
  {
    assert EntryOk(d.l1[Probe(id, j0)], Probe(id, j0), m);
    HoleIsFilled(d.l1, id, j0, q, c);
    FilledHole(d.l1, m, id, j0, j1, HotEntry(q, 1, c));
    NoWayLeft(d.l0, m, id, q, c);
  }
}
