/** What a thread of the lock-free task queue gets done when it runs alone: a producer finishes its push
    in at most four steps, the consumer runs all there is. */
module MpscProgress {
  import opened Base
  import opened MpscQueue

  /** Enabled steps that lead from one state to another. */
  ghost predicate Path(s: State, evs: seq<Event>, s': State)
    decreases |evs|
  {
    if evs == [] then s' == s
    else exists mid :: Moves(s, evs[0], mid) && Path(mid, evs[1..], s')
  }

  lemma Then(s: State, ev: Event, mid: State, evs: seq<Event>, s': State)
    requires Moves(s, ev, mid) && Path(mid, evs, s')
    ensures Path(s, [ev] + evs, s')
  {
    assert ([ev] + evs)[1..] == evs;
  }

  // ----- a producer -----

  ghost predicate OnlyBy(evs: seq<Event>, p: nat) {
    forall i :: 0 <= i < |evs| ==> evs[i] == Link(p) || evs[i] == SwapOk(p) || evs[i] == SwapFail(p)
  }

  /** Producer p's push has happened, and nothing else: its node is the new head, linked to the old one. */
  ghost predicate PushDone(s: State, p: nat, s': State)
    requires p in s.producers
  {
    var n := s.producers[p].node;
    && s'.head == Some(n) && s'.next == s.next[n := s.head] && s'.pushed == s.pushed + [n]
    && s'.producers == s.producers - {p} && s'.consumer == s.consumer && s'.cuts == s.cuts && s'.ran == s.ran
  }

  ghost predicate CanFinish(s: State, p: nat, steps: nat)
    requires p in s.producers
  {
    exists evs, s' :: Path(s, evs, s') && |evs| <= steps && OnlyBy(evs, p) && PushDone(s, p, s')
  }

  lemma SwapFinishes(s: State, p: nat)
    requires Inv(s) && p in s.producers && s.producers[p].Linked? && s.producers[p].seen == s.head
    ensures CanFinish(s, p, 1)
  {
    var s', n := Step(s, SwapOk(p)), s.producers[p].node;
    assert ProducerOk(s, p, Stack(s), Rest(s));
    assert s.next == s.next[n := s.head];
    assert Path(s', [], s');
    Then(s, SwapOk(p), s', [], s');
    assert [SwapOk(p)] + [] == [SwapOk(p)];
    assert PushDone(s, p, s');
  }

  lemma StepFirst(s: State, ev: Event, p: nat, steps: nat)
    requires Inv(s) && p in s.producers && Enabled(s, ev) && (ev == Link(p) || ev == SwapFail(p))
    requires p in Step(s, ev).producers && CanFinish(Step(s, ev), p, steps)
    requires Step(s, ev).producers == s.producers[p := Step(s, ev).producers[p]]
    requires Step(s, ev).producers[p].node == s.producers[p].node
    ensures CanFinish(s, p, steps + 1)
  {
    var mid := Step(s, ev);
    var evs, s' :| Path(mid, evs, s') && |evs| <= steps && OnlyBy(evs, p) && PushDone(mid, p, s');
    Then(s, ev, mid, evs, s');
    SamePush(s, ev, p, s');
    assert OnlyBy([ev] + evs, p);
  }

  lemma SamePush(s: State, ev: Event, p: nat, s': State)
    requires Inv(s) && p in s.producers && Enabled(s, ev) && (ev == Link(p) || ev == SwapFail(p))
    requires p in Step(s, ev).producers && PushDone(Step(s, ev), p, s')
    requires Step(s, ev).producers == s.producers[p := Step(s, ev).producers[p]]
    requires Step(s, ev).producers[p].node == s.producers[p].node
    ensures PushDone(s, p, s')
  {
    var mid, n := Step(s, ev), s.producers[p].node;
    assert mid.producers - {p} == s.producers - {p};
    assert mid.next[n := s.head] == s.next[n := s.head];
  }

  /** From any point of its push on, and whatever others have done before, a producer that is left alone
      finishes in at most four steps: the swap fails once at most. */
  lemma PushFinishesAlone(s: State, p: nat)
    requires Inv(s) && p in s.producers
    ensures CanFinish(s, p, 4)
  {
    if s.producers[p].Loaded? {
      StepKeepsInv(s, Link(p));
      LinkedFinishesAlone(Step(s, Link(p)), p);
      StepFirst(s, Link(p), p, 3);
    } else {
      LinkedFinishesAlone(s, p);
    }
  }

  lemma LinkedFinishesAlone(s: State, p: nat)
    requires Inv(s) && p in s.producers && s.producers[p].Linked?
    ensures CanFinish(s, p, 3)
  {
    if s.producers[p].seen == s.head {
      SwapFinishes(s, p);
    } else {
      var s1 := Step(s, SwapFail(p));
      StepKeepsInv(s, SwapFail(p));
      StepKeepsInv(s1, Link(p));
      SwapFinishes(Step(s1, Link(p)), p);
      StepFirst(s1, Link(p), p, 1);
      StepFirst(s, SwapFail(p), p, 2);
    }
  }

  /** And a node that nobody owns can always be pushed. */
  lemma PushCanBegin(s: State, p: nat, n: nat)
    requires Inv(s) && p !in s.producers && !Owned(s, n)
    ensures Enabled(s, Begin(p, n)) && Inv(Step(s, Begin(p, n)))
    ensures Step(s, Begin(p, n)) == s.(producers := s.producers[p := Loaded(n, s.head)])
    ensures CanFinish(Step(s, Begin(p, n)), p, 4)
  {
    StepKeepsInv(s, Begin(p, n));
    PushFinishesAlone(Step(s, Begin(p, n)), p);
  }

  // ----- the consumer -----

  /** Fetching and running, k times over. */
  function Rounds(k: nat): (evs: seq<Event>)
    ensures |evs| == 2 * k
  {
    if k == 0 then [] else [Fetch, RunTask] + Rounds(k - 1)
  }

  ghost predicate InTwoSteps(s: State, s': State) {
    exists mid :: Moves(s, Fetch, mid) && Moves(mid, RunTask, s')
  }

  /** The consumer is about to look at the first of the nodes that it has taken and not run. */
  ghost predicate Walks(s: State, rest: seq<nat>) {
    && CutsOk(s.pushed, s.cuts) && Batches(s.pushed, s.cuts) == s.ran + rest
    && RestLinked(s.next, rest) && s.consumer == Walking(First(rest))
  }

  lemma WalkerWalks(s: State)
    requires Inv(s) && s.consumer.Walking?
    ensures Walks(s, Rest(s))
  {
    assert Batches(s.pushed, s.cuts) == s.ran + Rest(s);
  }

  function Ran(s: State, rest: seq<nat>): State
    requires rest != []
  {
    s.(ran := s.ran + [rest[0]], consumer := Walking(First(rest[1..])))
  }

  /** One node is fetched and run. */
  lemma OneRound(s: State, rest: seq<nat>)
    requires Walks(s, rest) && rest != []
    ensures InTwoSteps(s, Ran(s, rest)) && Walks(Ran(s, rest), rest[1..])
  {
    TailIsLinked(s.next, rest);
    assert s.ran + rest == Ran(s, rest).ran + rest[1..];
    var mid := s.(consumer := Fetched(rest[0], First(rest[1..])));
    assert Moves(s, Fetch, mid) && Moves(mid, RunTask, Ran(s, rest));
  }

  lemma TwoMore(s: State, s': State, k: nat, done: State)
    requires InTwoSteps(s, s') && Path(s', Rounds(k) + [Finish], done)
    ensures Path(s, Rounds(k + 1) + [Finish], done)
  {
    var mid :| Moves(s, Fetch, mid) && Moves(mid, RunTask, s');
    var more := Rounds(k) + [Finish];
    Then(mid, RunTask, s', more, done);
    Then(s, Fetch, mid, [RunTask] + more, done);
    assert [Fetch] + ([RunTask] + more) == Rounds(k + 1) + [Finish];
  }

  lemma FinishAlone(s: State)
    requires Walks(s, [])
    ensures Path(s, Rounds(0) + [Finish], s.(consumer := Resting))
  {
    var done := s.(consumer := Resting);
    assert s.ran + [] == s.ran;
    assert Moves(s, Finish, done) && Path(done, [], done);
    Then(s, Finish, done, [], done);
    assert Rounds(0) + [Finish] == [Finish] + [];
  }

  /** A consumer that has begun to walk runs everything it has taken, in order, and is back at rest. */
  lemma {:induction false} WalkFinishesAlone(s: State, rest: seq<nat>, done: State)
    requires Walks(s, rest) && done == s.(consumer := Resting, ran := done.ran) && done.ran == s.ran + rest
    ensures Path(s, Rounds(|rest|) + [Finish], done)
    decreases |rest|
  {
    if rest == [] {
      assert done == s.(consumer := Resting);
      FinishAlone(s);
    } else {
      OneRound(s, rest);
      WalkFinishesAlone(Ran(s, rest), rest[1..], done);
      TwoMore(s, Ran(s, rest), |rest| - 1, done);
    }
  }

  /** A consumer that is left alone runs all that is queued, newest first, and leaves the queue empty. */
  lemma ConsumerDrainsAlone(s: State)
    requires Inv(s) && s.consumer.Resting?
    ensures exists evs, s' :: Path(s, evs, s') && |evs| == 2 * |Stack(s)| + 2
                              && s'.head == None && s'.consumer == Resting && s'.ran == s.ran + Reversed(Stack(s))
                              && s'.pushed == s.pushed && s'.producers == s.producers && s'.next == s.next
  {
    var s1 := Step(s, TakeAll);
    TakeAllKeepsInv(s);
    var s' := s1.(consumer := Resting, ran := s1.ran + Rest(s1));
    WalkerWalks(s1);
    WalkFinishesAlone(s1, Rest(s1), s');
    var walk := Rounds(|Rest(s1)|) + [Finish];
    Then(s, TakeAll, s1, walk, s');
    assert Path(s, [TakeAll] + walk, s');
  }
}
