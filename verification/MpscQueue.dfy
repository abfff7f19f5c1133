/** The lock-free task queue as interleaved atomic steps: any number of producers, each loading the
    head, linking its node and trying a compare-and-swap that may fail for no reason, and one
    consumer that takes the whole list with an exchange and walks it.  A node may be pushed again
    once it has been run, also while a producer still holds it as the head it expects to see. */
module MpscQueue {
  import opened Base

  /** Idle producers are not recorded.  Loaded: the head has been read.  Linked: the node points to it. */
  datatype Producer = Loaded(node: nat, seen: Option<nat>) | Linked(node: nat, seen: Option<nat>)

  /** Walking: about to look at `cur`.  Fetched: the successor of `cur` has been read, its task has not run. */
  datatype Consumer = Resting | Walking(cur: Option<nat>) | Fetched(node: nat, succ: Option<nat>)

  /** pushed: nodes in the order their swaps succeeded.  cuts: how many there were at each exchange.
      ran: tasks in the order they were run. */
  datatype State = State(head: Option<nat>, next: map<nat, Option<nat>>, producers: map<nat, Producer>,
                         consumer: Consumer, pushed: seq<nat>, cuts: seq<nat>, ran: seq<nat>)

  datatype Event = Begin(p: nat, node: nat) | Link(p: nat) | SwapOk(p: nat) | SwapFail(p: nat)
                 | TakeAll | Fetch | RunTask | Finish

  function Initial(): State {
    State(None, map[], map[], Resting, [], [0], [])
  }

  // ----- what the history says should be where -----

  function Reversed(s: seq<nat>): (r: seq<nat>)
    ensures |r| == |s|
  {
    seq(|s|, i requires 0 <= i < |s| => s[|s| - 1 - i])
  }

  ghost predicate CutsOk(pushed: seq<nat>, cuts: seq<nat>) {
    cuts != [] && cuts[0] == 0 && cuts[|cuts| - 1] <= |pushed|
    && forall i :: 0 <= i < |cuts| - 1 ==> cuts[i] <= cuts[i + 1]
  }

  /** The tasks of all batches taken so far: batch after batch, each in reverse order of its swaps. */
  function Batches(pushed: seq<nat>, cuts: seq<nat>): seq<nat>
    requires CutsOk(pushed, cuts)
    decreases |cuts|
  {
    var k := |cuts| - 1;
    if k == 0 then [] else Batches(pushed, cuts[..k]) + Reversed(pushed[cuts[k - 1]..cuts[k]])
  }

  /** Pushed and not yet taken, oldest first. */
  function Stack(s: State): seq<nat>
    requires CutsOk(s.pushed, s.cuts)
  {
    s.pushed[s.cuts[|s.cuts| - 1]..]
  }

  /** Taken and not yet run, in the order they will be run. */
  function Rest(s: State): seq<nat>
    requires CutsOk(s.pushed, s.cuts) && s.ran <= Batches(s.pushed, s.cuts)
  {
    Batches(s.pushed, s.cuts)[|s.ran|..]
  }

  // ----- the steps -----

  /** A node that a push, the queue or the consumer owns; the caller must not push it. */
  ghost predicate Owned(s: State, n: nat)
    requires CutsOk(s.pushed, s.cuts) && s.ran <= Batches(s.pushed, s.cuts)
  {
    n in Stack(s) || n in Rest(s) || exists p :: p in s.producers && s.producers[p].node == n
  }

  ghost predicate Enabled(s: State, ev: Event)
    requires CutsOk(s.pushed, s.cuts) && s.ran <= Batches(s.pushed, s.cuts)
  {
    match ev
    case Begin(p, n) => p !in s.producers && !Owned(s, n)
    case Link(p) => p in s.producers && s.producers[p].Loaded?
    case SwapOk(p) => p in s.producers && s.producers[p].Linked? && s.head == s.producers[p].seen
    case SwapFail(p) => p in s.producers && s.producers[p].Linked?
    case TakeAll => s.consumer.Resting?
    case Fetch => s.consumer.Walking? && s.consumer.cur.Some? && s.consumer.cur.value in s.next
    case RunTask => s.consumer.Fetched?
    case Finish => s.consumer == Walking(None)
  }

  function Step(s: State, ev: Event): State
    requires CutsOk(s.pushed, s.cuts) && s.ran <= Batches(s.pushed, s.cuts)
    requires Enabled(s, ev)
  {
    match ev
    case Begin(p, n) => s.(producers := s.producers[p := Loaded(n, s.head)])
    case Link(p) =>
      var w := s.producers[p];
      s.(next := s.next[w.node := w.seen], producers := s.producers[p := Linked(w.node, w.seen)])
    case SwapOk(p) =>
      s.(head := Some(s.producers[p].node), pushed := s.pushed + [s.producers[p].node], producers := s.producers - {p})
    case SwapFail(p) => s.(producers := s.producers[p := Loaded(s.producers[p].node, s.head)])
    case TakeAll => s.(head := None, consumer := Walking(s.head), cuts := s.cuts + [|s.pushed|])
    case Fetch => s.(consumer := Fetched(s.consumer.cur.value, s.next[s.consumer.cur.value]))
    case RunTask => s.(ran := s.ran + [s.consumer.node], consumer := Walking(s.consumer.succ))
    case Finish => s.(consumer := Resting)
  }

  // ----- the invariant -----

  function Top(chain: seq<nat>): Option<nat> {
    if chain == [] then None else Some(chain[|chain| - 1])
  }

  function First(chain: seq<nat>): Option<nat> {
    if chain == [] then None else Some(chain[0])
  }

  ghost predicate Distinct(s: seq<nat>) {
    forall i, j :: 0 <= i < j < |s| ==> s[i] != s[j]
  }

  ghost predicate PointsDown(next: map<nat, Option<nat>>, stack: seq<nat>, i: nat)
    requires i < |stack|
  {
    stack[i] in next && next[stack[i]] == if i == 0 then None else Some(stack[i - 1])
  }

  /** From the head, `next` visits the untaken nodes, newest first. */
  ghost predicate StackLinked(next: map<nat, Option<nat>>, head: Option<nat>, stack: seq<nat>) {
    head == Top(stack) && forall i :: 0 <= i < |stack| ==> PointsDown(next, stack, i)
  }

  ghost predicate PointsOn(next: map<nat, Option<nat>>, rest: seq<nat>, i: nat)
    requires i < |rest|
  {
    rest[i] in next && next[rest[i]] == if i == |rest| - 1 then None else Some(rest[i + 1])
  }

  /** From its first node, `next` visits the taken nodes in the order they will be run. */
  ghost predicate RestLinked(next: map<nat, Option<nat>>, rest: seq<nat>) {
    forall i :: 0 <= i < |rest| ==> PointsOn(next, rest, i)
  }

  ghost predicate ConsumerOk(s: State, rest: seq<nat>) {
    match s.consumer
    case Resting => rest == []
    case Walking(cur) => cur == First(rest)
    case Fetched(n, succ) => rest != [] && n == rest[0] && n in s.next && succ == s.next[n]
  }

  /** A producer owns its node alone, and once linked the node points to the head it expects. */
  ghost predicate ProducerOk(s: State, p: nat, stack: seq<nat>, rest: seq<nat>)
    requires p in s.producers
  {
    var w := s.producers[p];
    && w.node !in stack && w.node !in rest
    && (w.Linked? ==> w.node in s.next && s.next[w.node] == w.seen)
    && forall q :: q in s.producers && q != p ==> s.producers[q].node != w.node
  }

  ghost predicate Inv(s: State) {
    && CutsOk(s.pushed, s.cuts) && s.ran <= Batches(s.pushed, s.cuts)
    && var stack, rest := Stack(s), Rest(s);
       && Distinct(stack) && Distinct(rest) && (forall n :: n in stack ==> n !in rest)
       && StackLinked(s.next, s.head, stack) && RestLinked(s.next, rest) && ConsumerOk(s, rest)
       && forall p <- s.producers :: ProducerOk(s, p, stack, rest)
  }

  lemma InitialInv()
    ensures Inv(Initial())
  {
  }

  /** Later pushes do not change the batches already taken. */
  lemma {:induction false} BatchesIgnoreLaterPushes(pushed: seq<nat>, more: seq<nat>, cuts: seq<nat>)
    requires CutsOk(pushed, cuts)
    ensures CutsOk(pushed + more, cuts) && Batches(pushed + more, cuts) == Batches(pushed, cuts)
    decreases |cuts|
  {
    var k := |cuts| - 1;
    if k > 0 {
      CutsAscend(pushed, cuts, k - 1);
      BatchesIgnoreLaterPushes(pushed, more, cuts[..k]);
      assert (pushed + more)[cuts[k - 1]..cuts[k]] == pushed[cuts[k - 1]..cuts[k]];
    }
  }

  lemma CutsAscend(pushed: seq<nat>, cuts: seq<nat>, k: nat)
    requires CutsOk(pushed, cuts) && k < |cuts|
    ensures cuts[k] <= |pushed| && CutsOk(pushed, cuts[..k + 1])
    decreases |cuts| - k
  {
    if k < |cuts| - 1 {
      CutsAscend(pushed, cuts, k + 1);
    }
  }

  /** An exchange moves the whole stack, newest first, behind what is still to be run. */
  lemma TakeAllMovesStack(s: State)
    requires CutsOk(s.pushed, s.cuts)
    ensures CutsOk(s.pushed, s.cuts + [|s.pushed|])
    ensures Batches(s.pushed, s.cuts + [|s.pushed|]) == Batches(s.pushed, s.cuts) + Reversed(Stack(s))
  {
    var cuts := s.cuts + [|s.pushed|];
    assert cuts[..|s.cuts|] == s.cuts;
    assert s.pushed[s.cuts[|s.cuts| - 1]..|s.pushed|] == Stack(s);
  }

  lemma ProducerStepKeepsInv(s: State, ev: Event)
    requires Inv(s) && Enabled(s, ev) && (ev.Begin? || ev.Link? || ev.SwapFail?)
    ensures Inv(Step(s, ev))
  {
    var s' := Step(s, ev);
    var stack, rest := Stack(s), Rest(s);
    assert forall i :: 0 <= i < |stack| ==> PointsDown(s.next, stack, i) ==> PointsDown(s'.next, stack, i);
    assert forall i :: 0 <= i < |rest| ==> PointsOn(s.next, rest, i) ==> PointsOn(s'.next, rest, i);
    assert ev.Begin? || ProducerOk(s, ev.p, Stack(s), Rest(s));
    forall p <- s'.producers
      ensures ProducerOk(s', p, Stack(s), Rest(s))
    {
      assert p != ev.p ==> ProducerOk(s, p, Stack(s), Rest(s));
    }
  }

  /** A swap that succeeds pushes onto the list it was linked to, whatever has happened to that list
      since the head was read: an equal head is enough. */
  lemma SwapKeepsInv(s: State, p: nat)
    requires Inv(s) && Enabled(s, SwapOk(p))
    ensures Inv(Step(s, SwapOk(p)))
    ensures Stack(Step(s, SwapOk(p))) == Stack(s) + [s.producers[p].node]
  {
    var s', n := Step(s, SwapOk(p)), s.producers[p].node;
    BatchesIgnoreLaterPushes(s.pushed, [n], s.cuts);
    assert Stack(s') == Stack(s) + [n] && Rest(s') == Rest(s);
    assert ProducerOk(s, p, Stack(s), Rest(s));
    forall i | 0 <= i < |Stack(s')|
      ensures PointsDown(s'.next, Stack(s'), i)
    {
      assert i < |Stack(s)| ==> PointsDown(s.next, Stack(s), i);
    }
    forall q <- s'.producers
      ensures ProducerOk(s', q, Stack(s'), Rest(s'))
    {
      assert ProducerOk(s, q, Stack(s), Rest(s));
    }
  }

  /** The list the exchange returns is the stack read from the top. */
  lemma TopFirstIsLinked(next: map<nat, Option<nat>>, head: Option<nat>, stack: seq<nat>)
    requires StackLinked(next, head, stack) && Distinct(stack)
    ensures RestLinked(next, Reversed(stack)) && First(Reversed(stack)) == head && Distinct(Reversed(stack))
    ensures forall n: nat :: n in Reversed(stack) <==> n in stack
  {
    var rest := Reversed(stack);
    forall i | 0 <= i < |rest|
      ensures PointsOn(next, rest, i)
    {
      assert PointsDown(next, stack, |stack| - 1 - i);
    }
    forall n: nat | n in stack
      ensures n in rest
    {
      var j :| 0 <= j < |stack| && stack[j] == n;
      assert rest[|stack| - 1 - j] == n;
    }
  }

  lemma TakeAllKeepsInv(s: State)
    requires Inv(s) && Enabled(s, TakeAll)
    ensures Inv(Step(s, TakeAll)) && Rest(Step(s, TakeAll)) == Reversed(Stack(s)) && Stack(Step(s, TakeAll)) == []
  {
    var s', stack := Step(s, TakeAll), Stack(s);
    TakeAllMovesStack(s);
    assert Batches(s.pushed, s.cuts) == s.ran;
    assert Rest(s') == Reversed(stack) && Stack(s') == [];
    TopFirstIsLinked(s.next, s.head, stack);
    forall q <- s'.producers
      ensures ProducerOk(s', q, [], Reversed(stack))
    {
      assert ProducerOk(s, q, stack, Rest(s));
    }
  }

  lemma TailIsLinked(next: map<nat, Option<nat>>, rest: seq<nat>)
    requires RestLinked(next, rest) && rest != []
    ensures RestLinked(next, rest[1..]) && rest[0] in next && next[rest[0]] == First(rest[1..])
  {
    assert PointsOn(next, rest, 0);
    forall i | 0 <= i < |rest| - 1
      ensures PointsOn(next, rest[1..], i)
    {
      assert PointsOn(next, rest, i + 1);
    }
  }

  lemma RunTaskKeepsInv(s: State)
    requires Inv(s) && Enabled(s, RunTask)
    ensures Inv(Step(s, RunTask)) && Rest(s) == [s.consumer.node] + Rest(Step(s, RunTask))
  {
    var s', rest := Step(s, RunTask), Rest(s);
    assert rest[0] == Batches(s.pushed, s.cuts)[|s.ran|];
    assert Rest(s') == rest[1..] && Stack(s') == Stack(s);
    TailIsLinked(s.next, rest);
    forall q <- s'.producers
      ensures ProducerOk(s', q, Stack(s), rest[1..])
    {
      assert ProducerOk(s, q, Stack(s), rest);
    }
  }

  lemma WalkKeepsInv(s: State, ev: Event)
    requires Inv(s) && Enabled(s, ev) && (ev.Fetch? || ev.Finish?)
    ensures Inv(Step(s, ev))
  {
    forall q <- s.producers
      ensures ProducerOk(Step(s, ev), q, Stack(s), Rest(s))
    {
      assert ProducerOk(s, q, Stack(s), Rest(s));
    }
  }

  lemma StepKeepsInv(s: State, ev: Event)
    requires Inv(s) && Enabled(s, ev)
    ensures Inv(Step(s, ev))
  {
    match ev
    case SwapOk(p) => SwapKeepsInv(s, p);
    case TakeAll => TakeAllKeepsInv(s);
    case Begin(_, _) => ProducerStepKeepsInv(s, ev);
    case Link(_) => ProducerStepKeepsInv(s, ev);
    case SwapFail(_) => ProducerStepKeepsInv(s, ev);
    case Fetch => WalkKeepsInv(s, ev);
    case RunTask => RunTaskKeepsInv(s);
    case Finish => WalkKeepsInv(s, ev);
  }

  // ----- runs -----

  /** States joined by enabled steps. */
  ghost predicate IsRun(states: seq<State>, evs: seq<Event>) {
    && |states| == |evs| + 1 && states[0] == Initial()
    && forall i :: 0 <= i < |evs| ==>
         Moves(states[i], evs[i], states[i + 1])
  }

  /** In every state of every interleaving the chain from the head is acyclic and holds exactly the
      nodes pushed and not yet taken, newest first. */
  lemma {:induction false} RunsKeepInv(states: seq<State>, evs: seq<Event>, k: nat)
    requires IsRun(states, evs) && k <= |evs|
    ensures Inv(states[k])
  {
    if k == 0 {
      InitialInv();
    } else {
      RunsKeepInv(states, evs, k - 1);
      assert Moves(states[k - 1], evs[k - 1], states[k]);
      StepKeepsInv(states[k - 1], evs[k - 1]);
    }
  }

  lemma {:induction false} ReversedKeepsElements(s: seq<nat>)
    ensures multiset(Reversed(s)) == multiset(s)
  {
    if s != [] {
      var rest := s[1..];
      ReversedKeepsElements(rest);
      assert Reversed(s) == Reversed(rest) + [s[0]];
      assert s == [s[0]] + rest;
    } else {
      assert Reversed(s) == [];
    }
  }

  lemma {:induction false} BatchesKeepElements(pushed: seq<nat>, cuts: seq<nat>)
    requires CutsOk(pushed, cuts)
    ensures multiset(Batches(pushed, cuts)) == multiset(pushed[..cuts[|cuts| - 1]])
    decreases |cuts|
  {
    var k := |cuts| - 1;
    if k > 0 {
      CutsAscend(pushed, cuts, k - 1);
      BatchesKeepElements(pushed, cuts[..k]);
      ReversedKeepsElements(pushed[cuts[k - 1]..cuts[k]]);
      assert pushed[..cuts[k]] == pushed[..cuts[k - 1]] + pushed[cuts[k - 1]..cuts[k]];
    }
  }

  /** Every push is run, waiting to be run, or in the queue, and exactly one of these as often as it
      was pushed; so when the queue is empty and the consumer rests, each push has run exactly once. */
  lemma PushesAreConserved(s: State)
    requires Inv(s)
    ensures multiset(s.pushed) == multiset(s.ran) + multiset(Rest(s)) + multiset(Stack(s))
    ensures s.consumer.Resting? && s.head == None ==> multiset(s.ran) == multiset(s.pushed)
  {
    BatchesKeepElements(s.pushed, s.cuts);
    var batches, cut := Batches(s.pushed, s.cuts), s.cuts[|s.cuts| - 1];
    assert s.pushed == s.pushed[..cut] + Stack(s);
    assert batches == s.ran + Rest(s);
    assert s.head == None ==> Stack(s) == [];
  }

  /** One enabled step. */
  ghost predicate Moves(s: State, ev: Event, s': State) {
    && CutsOk(s.pushed, s.cuts) && s.ran <= Batches(s.pushed, s.cuts)
    && Enabled(s, ev) && s' == Step(s, ev)
  }

  lemma OneBatch(pushed: seq<nat>, cuts: seq<nat>)
    requires |cuts| == 2 && cuts[0] == 0 && cuts[1] == 1 && pushed != []
    ensures CutsOk(pushed, cuts) && Batches(pushed, cuts) == [pushed[0]]
  {
    assert Batches(pushed, cuts[..1]) == [];
    assert Reversed(pushed[0..1]) == [pushed[0]];
  }

  // ----- the ABA case, as one run from an empty queue -----

  const LINKED8: Producer := Linked(8, Some(7))
  const NEXT7: map<nat, Option<nat>> := map[7 := None]
  const NEXT78: map<nat, Option<nat>> := map[7 := None, 8 := Some(7)]

  /** Node 7 is pushed; producer 1 reads it as the head and links node 8 to it; node 7 is taken, run and
      pushed again; then producer 1 swaps. */
  function AbaEvents(): seq<Event> {
    [Begin(0, 7), Link(0), SwapOk(0), Begin(1, 8), Link(1), TakeAll, Fetch, RunTask,
     Begin(0, 7), Link(0), SwapOk(0), SwapOk(1)]
  }

  function FirstBegun(): State { State(None, map[], map[0 := Loaded(7, None)], Resting, [], [0], []) }
  function FirstLinked(): State { State(None, NEXT7, map[0 := Linked(7, None)], Resting, [], [0], []) }
  function FirstPushed(): State { State(Some(7), NEXT7, map[], Resting, [7], [0], []) }
  function HeadRead(): State { State(Some(7), NEXT7, map[1 := Loaded(8, Some(7))], Resting, [7], [0], []) }

  /** Producer 1 has linked node 8 to node 7, the head it has read. */
  function BeforeAba(): State { State(Some(7), NEXT78, map[1 := LINKED8], Resting, [7], [0], []) }
  function Taken(): State { State(None, NEXT78, map[1 := LINKED8], Walking(Some(7)), [7], [0, 1], []) }
  function AfterRun(): State { State(None, NEXT78, map[1 := LINKED8], Walking(None), [7], [0, 1], [7]) }
  function BegunAgain(): State { AfterRun().(producers := map[1 := LINKED8, 0 := Loaded(7, None)]) }
  function LinkedAgain(): State { AfterRun().(producers := map[1 := LINKED8, 0 := Linked(7, None)]) }
  function PushedAgain(): State { AfterRun().(head := Some(7), pushed := [7, 7]) }
  function AfterAba(): State { State(Some(8), NEXT78, map[], Walking(None), [7, 7, 8], [0, 1], [7]) }

  lemma AbaFirstPush()
    ensures Moves(Initial(), Begin(0, 7), FirstBegun()) && Moves(FirstBegun(), Link(0), FirstLinked())
  {
  }

  lemma AbaFirstSwap()
    ensures Moves(FirstLinked(), SwapOk(0), FirstPushed())
  {
    assert FirstLinked().producers - {0} == map[];
  }

  lemma AbaLink()
    ensures Moves(FirstPushed(), Begin(1, 8), HeadRead()) && Moves(HeadRead(), Link(1), BeforeAba())
  {
  }

  /** Node 7 is taken and run. */
  lemma AbaTake()
    ensures Moves(BeforeAba(), TakeAll, Taken())
    ensures Moves(Taken(), Fetch, Taken().(consumer := Fetched(7, None)))
    ensures Moves(Taken().(consumer := Fetched(7, None)), RunTask, AfterRun())
  {
    OneBatch([7], [0, 1]);
  }

  /** Producer 0 pushes it again. */
  lemma AbaPushAgain()
    ensures Moves(AfterRun(), Begin(0, 7), BegunAgain()) && Moves(BegunAgain(), Link(0), LinkedAgain())
  {
    OneBatch([7], [0, 1]);
    assert Stack(AfterRun()) == [] && Rest(AfterRun()) == [];
    assert NEXT78[7 := None] == NEXT78;
  }

  lemma AbaSwapAgain()
    ensures Moves(LinkedAgain(), SwapOk(0), PushedAgain())
  {
    OneBatch([7], [0, 1]);
    assert LinkedAgain().producers - {0} == map[1 := LINKED8];
  }

  lemma AbaSwap()
    ensures Moves(PushedAgain(), SwapOk(1), AfterAba())
  {
    OneBatch([7, 7], [0, 1]);
    assert PushedAgain().producers - {1} == map[];
  }

  /** A run that ends in a given state, as a value. */
  datatype Trace = Trace(states: seq<State>, evs: seq<Event>)

  ghost predicate EndsIn(run: Trace, s: State) {
    IsRun(run.states, run.evs) && run.states[|run.evs|] == s
  }

  lemma Longer(run: Trace, s: State, ev: Event, s': State) returns (run': Trace)
    requires EndsIn(run, s) && Moves(s, ev, s')
    ensures EndsIn(run', s') && run'.evs == run.evs + [ev]
  {
    run' := Trace(run.states + [s'], run.evs + [ev]);
  }

  /** Between producer 1's read of the head and its swap, node 7 has been taken, run and pushed again.
      The head is equal, the swap succeeds, and the list is right: 8 before 7, each once. */
  lemma AbaIsHarmless()
    ensures exists run: Trace :: run.evs == AbaEvents() && EndsIn(run, AfterAba())
    ensures var s := AfterAba(); CutsOk(s.pushed, s.cuts) && Inv(s) && Stack(s) == [7, 8]
  {
    var run := AbaUpToTaken();
    AbaPushAgain();
    AbaSwapAgain();
    AbaSwap();
    run := Longer(run, AfterRun(), Begin(0, 7), BegunAgain());
    run := Longer(run, BegunAgain(), Link(0), LinkedAgain());
    run := Longer(run, LinkedAgain(), SwapOk(0), PushedAgain());
    run := Longer(run, PushedAgain(), SwapOk(1), AfterAba());
    assert run.evs == AbaEvents();
    RunsKeepInv(run.states, run.evs, |run.evs|);
  }

  lemma AbaUpToTaken() returns (run: Trace)
    ensures EndsIn(run, AfterRun()) && run.evs == AbaEvents()[..8]
  {
    AbaTake();
    run := AbaUpToLinked();
    run := Longer(run, BeforeAba(), TakeAll, Taken());
    run := Longer(run, Taken(), Fetch, Taken().(consumer := Fetched(7, None)));
    run := Longer(run, Taken().(consumer := Fetched(7, None)), RunTask, AfterRun());
  }

  lemma AbaUpToLinked() returns (run: Trace)
    ensures EndsIn(run, BeforeAba()) && run.evs == AbaEvents()[..5]
  {
    AbaFirstPush();
    AbaFirstSwap();
    AbaLink();
    run := Trace([Initial()], []);
    run := Longer(run, Initial(), Begin(0, 7), FirstBegun());
    run := Longer(run, FirstBegun(), Link(0), FirstLinked());
    run := Longer(run, FirstLinked(), SwapOk(0), FirstPushed());
    run := Longer(run, FirstPushed(), Begin(1, 8), HeadRead());
    run := Longer(run, HeadRead(), Link(1), BeforeAba());
  }
}
