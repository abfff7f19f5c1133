/** Runs of registrations, dispatches and unregistrations against a plain map. */
module DispatcherRuns {
  import opened Base
  import opened Dispatcher
  import opened DispatcherInvariant

  datatype Op = Register(id: uint16, conn: Conn) | Dispatch(id: uint16) | Unregister(id: uint16)

  /** Whether an unregistration empties all copies or, as written, the first it meets. */
  datatype Form = AsWritten | ClearAll

  function StepOn(f: Form, d: State, op: Op): (r: (State, seq<Outcome>))
    requires Shape(d)
    ensures Shape(r.0)
  {
    match op
    case Register(id, c) => (Dispatcher.Register(d, id, c), [])
    case Dispatch(id) => var r := Dispatcher.Dispatch(d, id); (r.0, [r.1])
    case Unregister(id) => (if f == AsWritten then Dispatcher.Unregister(d, id) else UnregisterAll(d, id), [])
  }

  function MapStep(m: Registry, op: Op): (Registry, seq<Outcome>) {
    match op
    case Register(id, c) => (m[id := c], [])
    case Dispatch(id) => (m, [Expected(m, id)])
    case Unregister(id) => (m - {id}, [])
  }

  /** What the dispatches of a run do, in order. */
  function Outcomes(f: Form, d: State, ops: seq<Op>): seq<Outcome>
    requires Shape(d)
    decreases |ops|
  {
    if ops == [] then []
    else var r := StepOn(f, d, ops[0]); r.1 + Outcomes(f, r.0, ops[1..])
  }

  function MapOutcomes(m: Registry, ops: seq<Op>): seq<Outcome>
    decreases |ops|
  {
    if ops == [] then []
    else var r := MapStep(m, ops[0]); r.1 + MapOutcomes(r.0, ops[1..])
  }

  /** No operation names the id that marks empty entries, and no null handler is registered. */
  ghost predicate Proper(ops: seq<Op>) {
    forall i :: 0 <= i < |ops| ==> ops[i].id != NONE && (ops[i].Register? ==> ops[i].conn.handler != 0)
  }

  /** Only ids that are not registered are registered. */
  ghost predicate FreshRegistrations(m: Registry, ops: seq<Op>)
    decreases |ops|
  {
    ops == [] || ((ops[0].Register? ==> ops[0].id !in m) && FreshRegistrations(MapStep(m, ops[0]).0, ops[1..]))
  }

  /** A registration overwrites every copy it makes wrong, and an unregistration empties every copy. */
  ghost predicate Clean(f: Form, d: State, m: Registry, op: Op)
    requires Shape(d)
  {
    match op
    case Register(id, c) => id in m && m[id] != c ==> OneTarget(d, id)
    case Dispatch(_) => true
    case Unregister(id) => f == AsWritten ==> SingleCopies(d, id)
  }

  ghost predicate CleanRun(f: Form, d: State, m: Registry, ops: seq<Op>)
    requires Shape(d)
    decreases |ops|
  {
    ops == []
    || (Clean(f, d, m, ops[0]) && CleanRun(f, StepOn(f, d, ops[0]).0, MapStep(m, ops[0]).0, ops[1..]))
  }

  /** The caches are right in every state of a run. */
  ghost predicate CoherentRun(f: Form, d: State, m: Registry, ops: seq<Op>)
    requires Shape(d)
    decreases |ops|
  {
    Coherent(d, m) && (ops == [] || CoherentRun(f, StepOn(f, d, ops[0]).0, MapStep(m, ops[0]).0, ops[1..]))
  }

  lemma InitialIsCoherent()
    ensures Coherent(Initial(), map[]) && Compact(Initial())
  {
  }

  /** Without unregistrations, re-registrations included, the three levels refine a plain map. */
  lemma {:induction false} LookupRefinesMap(d: State, m: Registry, ops: seq<Op>)
    requires Coherent(d, m) && Compact(d) && Proper(ops)
    requires forall i :: 0 <= i < |ops| ==> !ops[i].Unregister?
    ensures Outcomes(AsWritten, d, ops) == MapOutcomes(m, ops)
    decreases |ops|
  {
    if ops != [] {
      match ops[0] {
        case Register(id, c) => RegisterKeepsBoth(d, m, id, c);
        case Dispatch(id) =>
          DispatchAgrees(d, m, id);
          DispatchKeepsCompact(d, m, id);
        case Unregister(_) =>
      }
      LookupRefinesMap(StepOn(AsWritten, d, ops[0]).0, MapStep(m, ops[0]).0, ops[1..]);
    }
  }

  lemma FreshRegistrationKeepsCoherent(d: State, m: Registry, id: uint16, c: Conn)
    requires Coherent(d, m) && id != NONE && c.handler != 0 && id !in m
    ensures Coherent(Dispatcher.Register(d, id, c), m[id := c])
  {
    RegisterKeepsCoherentIff(d, m, id, c);
  }

  lemma StepKeepsCoherentIff(f: Form, d: State, m: Registry, op: Op)
    requires Coherent(d, m) && Proper([op])
    ensures Coherent(StepOn(f, d, op).0, MapStep(m, op).0) <==> Clean(f, d, m, op)
    ensures StepOn(f, d, op).1 == MapStep(m, op).1
  {
    assert [op][0] == op;
    match op
    case Register(id, c) => RegisterKeepsCoherentIff(d, m, id, c);
    case Dispatch(id) => DispatchAgrees(d, m, id);
    case Unregister(id) =>
      UnregisterKeepsCoherentIff(d, m, id);
      UnregisterAllKeepsCoherent(d, m, id);
  }

  /** For both forms, and over all three operations: the caches are right in every state of a run exactly
      when each registration overwrites every copy it makes wrong and each unregistration empties all. */
  lemma {:induction false} RunStaysCoherentIff(f: Form, d: State, m: Registry, ops: seq<Op>)
    requires Coherent(d, m) && Proper(ops)
    ensures CoherentRun(f, d, m, ops) <==> CleanRun(f, d, m, ops)
    decreases |ops|
  {
    if ops != [] {
      assert Proper([ops[0]]);
      StepKeepsCoherentIff(f, d, m, ops[0]);
      if Clean(f, d, m, ops[0]) {
        RunStaysCoherentIff(f, StepOn(f, d, ops[0]).0, MapStep(m, ops[0]).0, ops[1..]);
      }
    }
  }

  /** And then the three levels refine a plain map. */
  lemma {:induction false} CleanRunsRefineMap(f: Form, d: State, m: Registry, ops: seq<Op>)
    requires Coherent(d, m) && Proper(ops) && CleanRun(f, d, m, ops)
    ensures Outcomes(f, d, ops) == MapOutcomes(m, ops)
    decreases |ops|
  {
    if ops != [] {
      assert Proper([ops[0]]);
      StepKeepsCoherentIff(f, d, m, ops[0]);
      CleanRunsRefineMap(f, StepOn(f, d, ops[0]).0, MapStep(m, ops[0]).0, ops[1..]);
    }
  }

  /** With unregistrations that empty every copy, only re-registrations with another pair can go wrong. */
  lemma ClearAllRefinesMap(d: State, m: Registry, ops: seq<Op>)
    requires Coherent(d, m) && Proper(ops) && CleanRun(ClearAll, d, m, ops)
    ensures Outcomes(ClearAll, d, ops) == MapOutcomes(m, ops)
  {
    CleanRunsRefineMap(ClearAll, d, m, ops);
  }

  /** The written form refines the map if also no cache holds an id twice when it is unregistered. */
  lemma WrittenFormRefinesMap(d: State, m: Registry, ops: seq<Op>)
    requires Coherent(d, m) && Proper(ops) && CleanRun(AsWritten, d, m, ops)
    ensures Outcomes(AsWritten, d, ops) == MapOutcomes(m, ops)
  {
    CleanRunsRefineMap(AsWritten, d, m, ops);
  }

  /** In particular every run with the clear-all form in which only unregistered ids are registered. */
  lemma {:induction false} FreshRunsAreClean(d: State, m: Registry, ops: seq<Op>)
    requires Shape(d) && FreshRegistrations(m, ops)
    ensures CleanRun(ClearAll, d, m, ops)
    decreases |ops|
  {
    if ops != [] {
      FreshRunsAreClean(StepOn(ClearAll, d, ops[0]).0, MapStep(m, ops[0]).0, ops[1..]);
    }
  }
}
