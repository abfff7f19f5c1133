/** Runs in which an unregistered handler is invoked: why the unregistration that is written does
    not keep the caches right, and what the excluded arguments do. */
module DispatcherStale {
  import opened Base
  import opened Dispatcher
  import opened DispatcherInvariant
  import Runs = DispatcherRuns

  lemma OutcomesOfFirst(f: Runs.Form, d: State, m: Registry, op: Runs.Op, rest: seq<Runs.Op>)
    requires Shape(d)
    ensures Runs.Outcomes(f, d, [op] + rest)
            == Runs.StepOn(f, d, op).1 + Runs.Outcomes(f, Runs.StepOn(f, d, op).0, rest)
    ensures Runs.MapOutcomes(m, [op] + rest)
            == Runs.MapStep(m, op).1 + Runs.MapOutcomes(Runs.MapStep(m, op).0, rest)
  {
    assert ([op] + rest)[1..] == rest;
  }

  /** The cache slots the run below touches: the ways of set 1, and the probed slots of the ids
      that are 1 modulo 64 and of those that are 33 modulo 64. */
  ghost predicate Touched(d: State, w0: Way, w1: Way, p: HotEntry, q: HotEntry, r: HotEntry, s: HotEntry) {
    && Shape(d) && d.l0[2] == w0 && d.l0[3] == w1
    && d.l1[57] == p && d.l1[58] == q && d.l1[25] == r && d.l1[26] == s
  }

  lemma Positions()
    ensures Hash(1) == 57 && Hash(65) == 57 && Hash(33) == 25 && Hash(97) == 25
    ensures Probe(1, 0) == 57 && Probe(1, 1) == 58 && Probe(65, 0) == 57 && Probe(65, 1) == 58
    ensures Probe(33, 0) == 25 && Probe(97, 0) == 25 && Probe(97, 1) == 26
  {
  }

  /** Ids 1 and 65 share a set and a probe window; unregistering 1 leaves a hole before 65. */
  function Holed(d: State, a: Conn, b: Conn): (d': State)
    requires Shape(d)
    ensures Shape(d')
  {
    Unregister(Register(Register(d, 1, a), 65, b), 1)
  }

  /** Ids 33 and 97 then push 65 out of level 0, and dispatching 65 fills the hole with a second copy. */
  function PushedOut(d: State, a: Conn): (d': State)
    requires Shape(d)
    ensures Shape(d')
  {
    Register(Dispatch(Register(d, 33, a), 33).0, 97, a)
  }

  /** What the dispatches after the hole do, the last of them after 65 has been unregistered. */
  ghost predicate GoesStale(d: State, a: Conn, b: Conn, c: Conn)
    requires Shape(d)
  {
    && Dispatch(Register(d, 33, a), 33).1 == Invoked(a)
    && Dispatch(PushedOut(d, a), 65).1 == Invoked(b)
    && Dispatch(Register(Unregister(Dispatch(PushedOut(d, a), 65).0, 65), 1, c), 65).1 == Invoked(b)
  }

  lemma HoleFills(d: State, a: Conn, b: Conn)
    requires d == Holed(Initial(), a, b) && b.handler != 0
    ensures Dispatch(Register(d, 33, a), 33).1 == Invoked(a)
    ensures Dispatch(PushedOut(d, a), 65).1 == Invoked(b)
    ensures Touched(Dispatch(PushedOut(d, a), 65).0, Way(33, 255, a), Way(97, 128, a),
                    HotEntry(65, 1, b), HotEntry(65, 1, b), HotEntry(33, 1, a), HotEntry(97, 1, a))
  {
    Positions();
    var d0 := Register(Initial(), 1, a);
    assert Touched(d0, Way(1, 128, a), EMPTY_WAY, HotEntry(1, 1, a), EMPTY_HOT, EMPTY_HOT, EMPTY_HOT);
    var d1 := Register(d0, 65, b);
    assert Touched(d1, Way(1, 128, a), Way(65, 128, b), HotEntry(1, 1, a), HotEntry(65, 1, b), EMPTY_HOT, EMPTY_HOT);
    assert L2Lookup(d1.l2, 65) == b;
    assert Touched(d, Way(NONE, 128, NO_CONN), Way(65, 128, b),
                   HotEntry(NONE, 1, NO_CONN), HotEntry(65, 1, b), EMPTY_HOT, EMPTY_HOT);
    assert L2Lookup(d.l2, 65) == b;
    var d2 := Register(d, 33, a);
    assert Touched(d2, Way(33, 128, a), Way(65, 128, b),
                   HotEntry(NONE, 1, NO_CONN), HotEntry(65, 1, b), HotEntry(33, 1, a), EMPTY_HOT);
    assert L2Lookup(d2.l2, 65) == b;
    var d3 := PushedOut(d, a);
    assert Touched(d3, Way(33, 255, a), Way(97, 128, a),
                   HotEntry(NONE, 1, NO_CONN), HotEntry(65, 1, b), HotEntry(33, 1, a), HotEntry(97, 1, a));
    assert L2Lookup(d3.l2, 65) == b;
  }

  lemma StaleCopySurvives(d: State, a: Conn, b: Conn, c: Conn)
    requires Touched(d, Way(33, 255, a), Way(97, 128, a),
                     HotEntry(65, 1, b), HotEntry(65, 1, b), HotEntry(33, 1, a), HotEntry(97, 1, a))
    ensures Dispatch(Register(Unregister(d, 65), 1, c), 65).1 == Invoked(b)
  {
    Positions();
    var d1 := Unregister(d, 65);
    assert Touched(d1, Way(33, 255, a), Way(97, 128, a),
                   HotEntry(NONE, 1, NO_CONN), HotEntry(65, 1, b), HotEntry(33, 1, a), HotEntry(97, 1, a));
    var d2 := Register(d1, 1, c);
    assert Touched(d2, Way(33, 255, a), Way(1, 128, c),
                   HotEntry(1, 1, c), HotEntry(65, 1, b), HotEntry(33, 1, a), HotEntry(97, 1, a));
  }

  /** The run: 65 is unregistered while two copies of it are cached, and the hole is filled again. */
  function Tail(c: Conn): seq<Runs.Op> {
    [Runs.Op.Unregister(65)] + ([Runs.Op.Register(1, c)] + ([Runs.Op.Dispatch(65)] + []))
  }

  function Late(a: Conn, c: Conn): seq<Runs.Op> {
    [Runs.Op.Register(97, a)] + ([Runs.Op.Dispatch(65)] + Tail(c))
  }

  function Middle(a: Conn, c: Conn): seq<Runs.Op> {
    [Runs.Op.Register(33, a)] + ([Runs.Op.Dispatch(33)] + Late(a, c))
  }

  function StaleRun(a: Conn, b: Conn, c: Conn): seq<Runs.Op> {
    [Runs.Op.Register(1, a)] + ([Runs.Op.Register(65, b)] + ([Runs.Op.Unregister(1)] + Middle(a, c)))
  }

  lemma TailOutcomes(d: State, m: Registry, b: Conn, c: Conn)
    requires Shape(d) && Dispatch(Register(Unregister(d, 65), 1, c), 65).1 == Invoked(b)
    ensures Runs.Outcomes(Runs.AsWritten, d, Tail(c)) == [Invoked(b)]
    ensures Runs.MapOutcomes(m, Tail(c)) == [Dropped]
  {
    var d1, d2, m1 := Unregister(d, 65), Register(Unregister(d, 65), 1, c), m - {65};
    OutcomesOfFirst(Runs.AsWritten, d, m, Runs.Op.Unregister(65), [Runs.Op.Register(1, c)] + ([Runs.Op.Dispatch(65)] + []));
    OutcomesOfFirst(Runs.AsWritten, d1, m1, Runs.Op.Register(1, c), [Runs.Op.Dispatch(65)] + []);
    OutcomesOfFirst(Runs.AsWritten, d2, m1[1 := c], Runs.Op.Dispatch(65), []);
  }

  lemma LateOutcomes(d: State, m: Registry, a: Conn, b: Conn, c: Conn)
    requires Shape(d) && 65 in m && m[65] == b
    requires Dispatch(Register(d, 97, a), 65).1 == Invoked(b)
    requires Dispatch(Register(Unregister(Dispatch(Register(d, 97, a), 65).0, 65), 1, c), 65).1 == Invoked(b)
    ensures Runs.Outcomes(Runs.AsWritten, d, Late(a, c)) == [Invoked(b), Invoked(b)]
    ensures Runs.MapOutcomes(m, Late(a, c)) == [Invoked(b), Dropped]
  {
    var d1, m1 := Register(d, 97, a), m[97 := a];
    OutcomesOfFirst(Runs.AsWritten, d, m, Runs.Op.Register(97, a), [Runs.Op.Dispatch(65)] + Tail(c));
    OutcomesOfFirst(Runs.AsWritten, d1, m1, Runs.Op.Dispatch(65), Tail(c));
    TailOutcomes(Dispatch(d1, 65).0, m1, b, c);
  }

  lemma MiddleOutcomes(d: State, m: Registry, a: Conn, b: Conn, c: Conn)
    requires Shape(d) && 65 in m && m[65] == b && GoesStale(d, a, b, c)
    ensures Runs.Outcomes(Runs.AsWritten, d, Middle(a, c)) == [Invoked(a), Invoked(b), Invoked(b)]
    ensures Runs.MapOutcomes(m, Middle(a, c)) == [Invoked(a), Invoked(b), Dropped]
  {
    var d2, m2 := Register(d, 33, a), m[33 := a];
    OutcomesOfFirst(Runs.AsWritten, d, m, Runs.Op.Register(33, a), [Runs.Op.Dispatch(33)] + Late(a, c));
    OutcomesOfFirst(Runs.AsWritten, d2, m2, Runs.Op.Dispatch(33), Late(a, c));
    LateOutcomes(Dispatch(d2, 33).0, m2, a, b, c);
  }

  lemma StaleRunOutcomes(d: State, m: Registry, a: Conn, b: Conn, c: Conn)
    requires Shape(d)
    ensures Runs.Outcomes(Runs.AsWritten, d, StaleRun(a, b, c))
            == Runs.Outcomes(Runs.AsWritten, Holed(d, a, b), Middle(a, c))
    ensures Runs.MapOutcomes(m, StaleRun(a, b, c)) == Runs.MapOutcomes(m[1 := a][65 := b] - {1}, Middle(a, c))
  {
    var d1, m1 := Register(d, 1, a), m[1 := a];
    var r1 := [Runs.Op.Unregister(1)] + Middle(a, c);
    OutcomesOfFirst(Runs.AsWritten, d, m, Runs.Op.Register(1, a), [Runs.Op.Register(65, b)] + r1);
    OutcomesOfFirst(Runs.AsWritten, d1, m1, Runs.Op.Register(65, b), r1);
    OutcomesOfFirst(Runs.AsWritten, Register(d1, 65, b), m1[65 := b], Runs.Op.Unregister(1), Middle(a, c));
  }

  lemma FirstIsProper(m: Registry, op: Runs.Op, rest: seq<Runs.Op>)
    requires op.id != NONE && (op.Register? ==> op.conn.handler != 0) && Runs.Proper(rest)
    ensures Runs.Proper([op] + rest)
    ensures (op.Register? ==> op.id !in m) && Runs.FreshRegistrations(Runs.MapStep(m, op).0, rest)
            ==> Runs.FreshRegistrations(m, [op] + rest)
  {
    assert ([op] + rest)[1..] == rest;
  }

  lemma TailIsProper(m: Registry, c: Conn)
    requires c.handler != 0 && 1 !in m
    ensures Runs.Proper(Tail(c)) && Runs.FreshRegistrations(m, Tail(c))
  {
    var m1 := m - {65};
    FirstIsProper(m1[1 := c], Runs.Op.Dispatch(65), []);
    FirstIsProper(m1, Runs.Op.Register(1, c), [Runs.Op.Dispatch(65)] + []);
    FirstIsProper(m, Runs.Op.Unregister(65), [Runs.Op.Register(1, c)] + ([Runs.Op.Dispatch(65)] + []));
  }

  lemma MiddleIsProper(m: Registry, a: Conn, c: Conn)
    requires a.handler != 0 && c.handler != 0 && 1 !in m && 33 !in m && 97 !in m
    ensures Runs.Proper(Middle(a, c)) && Runs.FreshRegistrations(m, Middle(a, c))
  {
    var m1 := m[33 := a];
    var m2 := m1[97 := a];
    TailIsProper(m2, c);
    FirstIsProper(m2, Runs.Op.Dispatch(65), Tail(c));
    FirstIsProper(m1, Runs.Op.Register(97, a), [Runs.Op.Dispatch(65)] + Tail(c));
    FirstIsProper(m1, Runs.Op.Dispatch(33), Late(a, c));
    FirstIsProper(m, Runs.Op.Register(33, a), [Runs.Op.Dispatch(33)] + Late(a, c));
  }

  lemma StaleRunIsProper(a: Conn, b: Conn, c: Conn)
    requires a.handler != 0 && b.handler != 0 && c.handler != 0
    ensures Runs.Proper(StaleRun(a, b, c)) && Runs.FreshRegistrations(map[], StaleRun(a, b, c))
  {
    var m0: Registry := map[];
    var m1 := m0[1 := a];
    var m2 := m1[65 := b];
    MiddleIsProper(m2 - {1}, a, c);
    FirstIsProper(m2, Runs.Op.Unregister(1), Middle(a, c));
    FirstIsProper(m1, Runs.Op.Register(65, b), [Runs.Op.Unregister(1)] + Middle(a, c));
    FirstIsProper(m0, Runs.Op.Register(1, a), [Runs.Op.Register(65, b)] + ([Runs.Op.Unregister(1)] + Middle(a, c)));
  }

  /** From a new dispatcher, with ids that are registered only when they are not: the last dispatch
      of this run invokes the handler that was unregistered, where a map would find nothing. */
  lemma StaleHandlerIsInvoked(a: Conn, b: Conn, c: Conn)
    requires b.handler != 0
    ensures Runs.Outcomes(Runs.AsWritten, Initial(), StaleRun(a, b, c)) == [Invoked(a), Invoked(b), Invoked(b)]
    ensures Runs.MapOutcomes(map[], StaleRun(a, b, c)) == [Invoked(a), Invoked(b), Dropped]
    ensures a.handler != 0 && c.handler != 0 ==>
              Runs.Proper(StaleRun(a, b, c)) && Runs.FreshRegistrations(map[], StaleRun(a, b, c))
  {
    var d := Holed(Initial(), a, b);
    HoleFills(d, a, b);
    StaleCopySurvives(Dispatch(PushedOut(d, a), 65).0, a, b, c);
    StaleRunOutcomes(Initial(), map[], a, b, c);
    MiddleOutcomes(d, map[][1 := a][65 := b] - {1}, a, b, c);
    if a.handler != 0 && c.handler != 0 {
      StaleRunIsProper(a, b, c);
    }
  }

  // ----- registering a live id again -----

  /** 33 is registered behind 1 in their set, 1 is unregistered, 33 is registered again with another pair,
      and 65 pushes the new copy out. */
  function AgainTail(a: Conn, c: Conn): seq<Runs.Op> {
    [Runs.Op.Register(33, c)] + ([Runs.Op.Register(65, a)] + ([Runs.Op.Dispatch(33)] + []))
  }

  function AgainRun(a: Conn, b: Conn, c: Conn): seq<Runs.Op> {
    [Runs.Op.Register(1, a)] + ([Runs.Op.Register(33, b)] + ([Runs.Op.Unregister(1)] + AgainTail(a, c)))
  }

  lemma AgainTailOutcomes(f: Runs.Form, d: State, m: Registry, a: Conn, b: Conn, c: Conn)
    requires Shape(d) && d.l0[2].id == NONE && d.l0[3] == Way(33, 128, b)
    ensures Runs.Outcomes(f, d, AgainTail(a, c)) == [Invoked(b)]
    ensures Runs.MapOutcomes(m, AgainTail(a, c)) == [Invoked(c)]
  {
    var d1, m1 := Register(d, 33, c), m[33 := c];
    assert d1.l0[2] == Way(33, 128, c) && d1.l0[3] == Way(33, 128, b);
    var d2, m2 := Register(d1, 65, a), m1[65 := a];
    assert d2.l0[2] == Way(65, 128, a) && d2.l0[3] == Way(33, 128, b);
    OutcomesOfFirst(f, d, m, Runs.Op.Register(33, c), [Runs.Op.Register(65, a)] + ([Runs.Op.Dispatch(33)] + []));
    OutcomesOfFirst(f, d1, m1, Runs.Op.Register(65, a), [Runs.Op.Dispatch(33)] + []);
    OutcomesOfFirst(f, d2, m2, Runs.Op.Dispatch(33), []);
  }

  /** In this run the dispatch invokes the pair that was replaced, under either form of unregistration:
      the only one there is meets a single copy. */
  lemma ReplacedHandlerIsInvoked(f: Runs.Form, a: Conn, b: Conn, c: Conn)
    ensures Runs.Outcomes(f, Initial(), AgainRun(a, b, c)) == [Invoked(b)]
    ensures Runs.MapOutcomes(map[], AgainRun(a, b, c)) == [Invoked(c)]
  {
    var d1 := Register(Initial(), 1, a);
    assert d1.l0[2] == Way(1, 128, a) && d1.l0[3] == EMPTY_WAY;
    var d2 := Register(d1, 33, b);
    assert d2.l0[2] == Way(1, 128, a) && d2.l0[3] == Way(33, 128, b);
    var d3 := Runs.StepOn(f, d2, Runs.Op.Unregister(1)).0;
    assert d3.l0[2].id == NONE && d3.l0[3] == Way(33, 128, b);
    var m0: Registry := map[];
    var m1 := m0[1 := a];
    var m2 := m1[33 := b];
    AgainTailOutcomes(f, d3, m2 - {1}, a, b, c);
    OutcomesOfFirst(f, d2, m2, Runs.Op.Unregister(1), AgainTail(a, c));
    OutcomesOfFirst(f, d1, m1, Runs.Op.Register(33, b), [Runs.Op.Unregister(1)] + AgainTail(a, c));
    OutcomesOfFirst(f, Initial(), m0, Runs.Op.Register(1, a),
                    [Runs.Op.Register(33, b)] + ([Runs.Op.Unregister(1)] + AgainTail(a, c)));
  }

  /** Registering an id again after its set got a hole leaves its old pair in way 1, and the next
      unregistration of the id uncovers it. */
  lemma ReRegistrationUncoversOldHandler(a: Conn, b: Conn, c: Conn)
    ensures var d1 := Register(Register(Initial(), 1, a), 33, b);
            var d2 := Register(Unregister(d1, 1), 33, c);
            Dispatch(d2, 33).1 == Invoked(c) && Dispatch(Unregister(d2, 33), 33).1 == Invoked(b)
  {
    var d0 := Register(Initial(), 1, a);
    assert d0.l0[2] == Way(1, 128, a) && d0.l0[3] == EMPTY_WAY;
    var d1 := Register(d0, 33, b);
    assert d1.l0[2] == Way(1, 128, a) && d1.l0[3] == Way(33, 128, b);
    var u := Unregister(d1, 1);
    assert u.l0[2] == Way(NONE, 128, NO_CONN) && u.l0[3] == Way(33, 128, b);
    var d2 := Register(u, 33, c);
    assert d2.l0[2] == Way(33, 128, c) && d2.l0[3] == Way(33, 128, b);
  }

  /** The id 0xFFFF hits an empty way, and a null handler that is registered is invoked. */
  lemma ExcludedArgumentsCallNull(id: uint16, ctx: nat)
    ensures Dispatch(Initial(), NONE).1 == Invoked(NO_CONN)
    ensures Dispatch(Register(Initial(), id, Conn(ctx, 0)), id).1 == Invoked(Conn(ctx, 0))
  {
  }
}
