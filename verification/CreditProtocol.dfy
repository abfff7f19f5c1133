/** Two peers that exchange data and credits: what a credit is at every moment, that no more is sent
    than the receiver granted, and exactly when lazy return of credits cannot deadlock. */
module CreditProtocol {
  import opened Base

  /** One end: credits left to send, credits to give back, and how many make giving back worthwhile. */
  datatype Peer = Peer(send: uint32, pending: uint32, threshold: nat)

  /** A message uses up `data` credits of its sender and returns `credits` to its receiver. */
  datatype Message = Message(data: nat, credits: nat)

  /** The two ends and what is in flight each way; each direction has the depth its sender started with. */
  datatype State = State(a: Peer, b: Peer, ab: seq<Message>, ba: seq<Message>)

  datatype Side = A | B

  /** Send: data, returning all pending credits if `piggyback`.  Update: a message that only returns
      credits, sent once they reach the threshold.  Receive: the oldest message arrives.  Retune: the
      threshold moves. */
  datatype Event = Send(side: Side, count: uint32, piggyback: bool) | Update(side: Side)
                 | Receive(side: Side) | Retune(side: Side, threshold: nat)

  predicate ShouldUpdateCredit(p: Peer) { p.pending >= p.threshold }

  /** TryConsume succeeds exactly when there are enough credits. */
  predicate CanConsume(p: Peer, count: uint32) { p.send >= count }

  function Consume(p: Peer, count: uint32): Peer
    requires CanConsume(p, count)
  {
    p.(send := p.send - count)
  }

  /** The counters are 32 bits wide and wrap. */
  function Take(p: Peer, m: Message): Peer {
    p.(pending := (p.pending + m.data) % TWO32, send := (p.send + m.credits) % TWO32)
  }

  function Swap(s: State): State {
    State(s.b, s.a, s.ba, s.ab)
  }

  ghost predicate Enabled(s: State, ev: Event) {
    if ev.side == B then EnabledA(Swap(s), ev) else EnabledA(s, ev)
  }

  ghost predicate EnabledA(s: State, ev: Event) {
    match ev
    case Send(_, count, _) => CanConsume(s.a, count)
    case Update(_) => ShouldUpdateCredit(s.a)
    case Receive(_) => s.ba != []
    case Retune(_, _) => true
  }

  function Step(s: State, ev: Event): State
    requires Enabled(s, ev)
  {
    if ev.side == B then Swap(StepA(Swap(s), ev)) else StepA(s, ev)
  }

  /** A step of the first end. */
  function StepA(s: State, ev: Event): State
    requires EnabledA(s, ev)
  {
    match ev
    case Send(_, count, piggyback) =>
      if piggyback then
        s.(a := Consume(s.a, count).(pending := 0), ab := s.ab + [Message(count, s.a.pending)])
      else
        s.(a := Consume(s.a, count), ab := s.ab + [Message(count, 0)])
    case Update(_) => s.(a := s.a.(pending := 0), ab := s.ab + [Message(0, s.a.pending)])
    case Receive(_) => s.(a := Take(s.a, s.ba[0]), ba := s.ba[1..])
    case Retune(_, t) => s.(a := s.a.(threshold := t))
  }

  function Data(msgs: seq<Message>): nat {
    if msgs == [] then 0 else msgs[0].data + Data(msgs[1..])
  }

  function Credits(msgs: seq<Message>): nat {
    if msgs == [] then 0 else msgs[0].credits + Credits(msgs[1..])
  }

  /** Every credit of the first end is in one of four places: unspent, spent on data in flight, waiting
      at the other end, or on its way back. */
  ghost predicate Conserved(s: State, depth: uint32) {
    s.a.send + Data(s.ab) + s.b.pending + Credits(s.ba) == depth
  }

  ghost predicate Inv(s: State, depthA: uint32, depthB: uint32) {
    Conserved(s, depthA) && Conserved(Swap(s), depthB)
  }

  lemma {:induction false} SumsOfAppend(msgs: seq<Message>, m: Message)
    ensures Data(msgs + [m]) == Data(msgs) + m.data && Credits(msgs + [m]) == Credits(msgs) + m.credits
  {
    if msgs == [] {
      assert [] + [m] == [m];
    } else {
      assert (msgs + [m])[1..] == msgs[1..] + [m];
      SumsOfAppend(msgs[1..], m);
    }
  }

  lemma StepAKeepsInv(s: State, ev: Event, depthA: uint32, depthB: uint32)
    requires Inv(s, depthA, depthB) && EnabledA(s, ev)
    ensures Inv(StepA(s, ev), depthA, depthB)
  {
    match ev
    case Send(_, count, piggyback) => SumsOfAppend(s.ab, Message(count, if piggyback then s.a.pending else 0));
    case Update(_) => SumsOfAppend(s.ab, Message(0, s.a.pending));
    case Receive(_) =>
    case Retune(_, _) =>
  }

  lemma StepKeepsInv(s: State, ev: Event, depthA: uint32, depthB: uint32)
    requires Inv(s, depthA, depthB) && Enabled(s, ev)
    ensures Inv(Step(s, ev), depthA, depthB)
  {
    if ev.side == B {
      StepAKeepsInv(Swap(s), ev, depthB, depthA);
    } else {
      StepAKeepsInv(s, ev, depthA, depthB);
    }
  }

  ghost predicate EnabledRun(s: State, evs: seq<Event>)
    decreases |evs|
  {
    evs == [] || (Enabled(s, evs[0]) && EnabledRun(Step(s, evs[0]), evs[1..]))
  }

  ghost function Run(s: State, evs: seq<Event>): State
    requires EnabledRun(s, evs)
    decreases |evs|
  {
    if evs == [] then s else Run(Step(s, evs[0]), evs[1..])
  }

  function Initial(depthA: uint32, thresholdA: nat, depthB: uint32, thresholdB: nat): State {
    State(Peer(depthA, 0, thresholdA), Peer(depthB, 0, thresholdB), [], [])
  }

  /** Conservation, and with it the promise to the receiver: never more data unreceived than the
      sender's depth. */
  lemma {:induction false} CreditsAreConserved(s: State, evs: seq<Event>, depthA: uint32, depthB: uint32)
    requires Inv(s, depthA, depthB) && EnabledRun(s, evs)
    ensures Inv(Run(s, evs), depthA, depthB)
    ensures Data(Run(s, evs).ab) <= depthA && Data(Run(s, evs).ba) <= depthB
    decreases |evs|
  {
    if evs != [] {
      StepKeepsInv(s, evs[0], depthA, depthB);
      CreditsAreConserved(Step(s, evs[0]), evs[1..], depthA, depthB);
    }
  }

  lemma InitialInv(depthA: uint32, thresholdA: nat, depthB: uint32, thresholdB: nat)
    ensures Inv(Initial(depthA, thresholdA, depthB, thresholdB), depthA, depthB)
  {
  }

  // ----- deadlock -----

  /** With no credits and nothing in flight the first end waits for an update, and the second end will
      send it exactly when its threshold is within the first end's depth. */
  lemma StarvedSenderIsServedIff(s: State, depthA: uint32, depthB: uint32)
    requires Inv(s, depthA, depthB) && s.a.send == 0 && s.ab == [] && s.ba == []
    ensures s.b.pending == depthA
    ensures ShouldUpdateCredit(s.b) <==> s.b.threshold <= depthA
  {
  }

  /** The events that let everything in flight arrive. */
  function Deliveries(s: State): seq<Event> {
    seq(|s.ab|, _ => Receive(B)) + seq(|s.ba|, _ => Receive(A))
  }

  lemma {:induction false} DeliveriesArrive(s: State)
    ensures EnabledRun(s, Deliveries(s))
    ensures var s' := Run(s, Deliveries(s));
            s'.ab == [] && s'.ba == [] && s'.b.threshold == s.b.threshold
    decreases |s.ab| + |s.ba|
  {
    var evs := Deliveries(s);
    if evs != [] {
      var next := Step(s, evs[0]);
      assert evs[1..] == Deliveries(next);
      DeliveriesArrive(next);
    }
  }

  function Other(side: Side): Side { if side == A then B else A }

  /** By deliveries and lazy updates of the other end alone, `side` gets credits to send. */
  ghost predicate Recovers(s: State, side: Side, rest: seq<Event>) {
    && EnabledRun(s, rest)
    && (if side == A then Run(s, rest).a else Run(s, rest).b).send > 0
    && forall i :: 0 <= i < |rest| ==> rest[i].Receive? || rest[i] == Update(Other(side))
  }

  /** When nothing is in flight, an update and its arrival give the first end credits. */
  lemma UpdateServes(s: State, depthA: uint32, depthB: uint32)
    requires Inv(s, depthA, depthB) && 0 < depthA && s.ab == [] && s.ba == [] && ShouldUpdateCredit(s.b)
    ensures EnabledRun(s, [Update(B), Receive(A)]) && Run(s, [Update(B), Receive(A)]).a.send == depthA
  {
    var updated := Step(s, Update(B));
    assert updated.ba == [Message(0, s.b.pending)];
    assert [Update(B), Receive(A)][1..] == [Receive(A)] && [Receive(A)][1..] == [];
  }

  /** From every reachable state, letting everything arrive, then one update if the second end wants to
      send it, and letting that arrive, leaves the first end with credits again. */
  lemma SenderRecovers(s: State, depthA: uint32, depthB: uint32)
    requires Inv(s, depthA, depthB) && 0 < depthA && s.b.threshold <= depthA
    ensures exists rest :: Recovers(s, A, rest)
  {
    var evs := Deliveries(s);
    DeliveriesArrive(s);
    CreditsAreConserved(s, evs, depthA, depthB);
    var quiet := Run(s, evs);
    if ShouldUpdateCredit(quiet.b) {
      UpdateServes(quiet, depthA, depthB);
      RunOfConcat(s, evs, [Update(B), Receive(A)]);
      evs := evs + [Update(B), Receive(A)];
    }
    assert Recovers(s, A, evs);
  }

  lemma {:induction false} RunOfConcat(s: State, evs: seq<Event>, more: seq<Event>)
    requires EnabledRun(s, evs) && EnabledRun(Run(s, evs), more)
    ensures EnabledRun(s, evs + more) && Run(s, evs + more) == Run(Run(s, evs), more)
    decreases |evs|
  {
    if evs == [] {
      assert [] + more == more;
    } else {
      assert (evs + more)[1..] == evs[1..] + more;
      RunOfConcat(Step(s, evs[0]), evs[1..], more);
    }
  }

  /** The thresholds the two ends move to stay within their bounds. */
  ghost predicate RetunedWithin(evs: seq<Event>, boundA: nat, boundB: nat) {
    forall i :: 0 <= i < |evs| && evs[i].Retune? ==> evs[i].threshold <= if evs[i].side == A then boundA else boundB
  }

  lemma {:induction false} ThresholdsStayWithin(s: State, evs: seq<Event>, boundA: nat, boundB: nat)
    requires EnabledRun(s, evs) && RetunedWithin(evs, boundA, boundB)
    requires s.a.threshold <= boundA && s.b.threshold <= boundB
    ensures Run(s, evs).a.threshold <= boundA && Run(s, evs).b.threshold <= boundB
    decreases |evs|
  {
    if evs != [] {
      ThresholdsStayWithin(Step(s, evs[0]), evs[1..], boundA, boundB);
    }
  }

  // ----- both ends alike -----

  function Flip(ev: Event): Event {
    match ev
    case Send(side, count, piggyback) => Event.Send(Other(side), count, piggyback)
    case Update(side) => Update(Other(side))
    case Receive(side) => Receive(Other(side))
    case Retune(side, threshold) => Retune(Other(side), threshold)
  }

  function Mirror(evs: seq<Event>): seq<Event> {
    seq(|evs|, i requires 0 <= i < |evs| => Flip(evs[i]))
  }

  /** The protocol does not tell its ends apart. */
  lemma {:induction false} MirroredRun(s: State, evs: seq<Event>)
    requires EnabledRun(s, evs)
    ensures EnabledRun(Swap(s), Mirror(evs)) && Run(Swap(s), Mirror(evs)) == Swap(Run(s, evs))
    decreases |evs|
  {
    if evs != [] {
      var s1 := Step(s, evs[0]);
      assert Enabled(Swap(s), Flip(evs[0])) && Step(Swap(s), Flip(evs[0])) == Swap(s1);
      assert Mirror(evs)[1..] == Mirror(evs[1..]) && Mirror(evs)[0] == Flip(evs[0]);
      MirroredRun(s1, evs[1..]);
    }
  }

  lemma EitherSideRecovers(s: State, depthA: uint32, depthB: uint32, side: Side)
    requires Inv(s, depthA, depthB)
    requires if side == A then s.b.threshold <= depthA && 0 < depthA else s.a.threshold <= depthB && 0 < depthB
    ensures exists rest :: Recovers(s, side, rest)
  {
    if side == A {
      SenderRecovers(s, depthA, depthB);
    } else {
      SenderRecovers(Swap(s), depthB, depthA);
      var rest :| Recovers(Swap(s), A, rest);
      MirroredRun(Swap(s), rest);
      assert Recovers(s, B, Mirror(rest));
    }
  }

  /** Peers never deadlock as long as each keeps its threshold within the depth of the other: after any
      run, whatever was sent and however credits were returned, either end can get credits again. */
  lemma PeersNeverDeadlock(depthA: uint32, thresholdA: nat, depthB: uint32, thresholdB: nat, evs: seq<Event>, side: Side)
    requires 0 < depthA && 0 < depthB && thresholdA <= depthB && thresholdB <= depthA
    requires EnabledRun(Initial(depthA, thresholdA, depthB, thresholdB), evs) && RetunedWithin(evs, depthB, depthA)
    ensures exists rest :: Recovers(Run(Initial(depthA, thresholdA, depthB, thresholdB), evs), side, rest)
  {
    var s0 := Initial(depthA, thresholdA, depthB, thresholdB);
    CreditsAreConserved(s0, evs, depthA, depthB);
    ThresholdsStayWithin(s0, evs, depthB, depthA);
    EitherSideRecovers(Run(s0, evs), depthA, depthB, side);
  }

  // ----- thresholds above the depth -----

  /** The first end has no credits, none are on their way, and the second end waits for more to be
      pending than there are. */
  ghost predicate Starved(s: State, depth: nat) {
    s.a.send == 0 && Credits(s.ba) == 0 && s.b.threshold > depth
  }

  /** The second end does not piggyback credits, nor does its threshold come down to the depth. */
  ghost predicate WithoutHelp(evs: seq<Event>, depth: nat) {
    forall i :: 0 <= i < |evs| ==> !Helps(evs[i], depth)
  }

  predicate Helps(ev: Event, depth: nat) {
    match ev
    case Send(side, _, piggyback) => side == B && piggyback
    case Retune(side, threshold) => side == B && threshold <= depth
    case _ => false
  }

  lemma StepKeepsStarved(s: State, ev: Event, depthA: uint32, depthB: uint32)
    requires Inv(s, depthA, depthB) && Starved(s, depthA) && Enabled(s, ev) && !Helps(ev, depthA)
    ensures Starved(Step(s, ev), depthA)
  {
    if ev.side == B && ev.Send? {
      SumsOfAppend(s.ba, Message(ev.count, 0));
    }
  }

  /** Then the first end never sends again, whatever else is sent, delivered or updated. */
  lemma {:induction false} StarvedForever(s: State, evs: seq<Event>, depthA: uint32, depthB: uint32)
    requires Inv(s, depthA, depthB) && Starved(s, depthA) && EnabledRun(s, evs) && WithoutHelp(evs, depthA)
    ensures Starved(Run(s, evs), depthA)
    decreases |evs|
  {
    if evs != [] {
      StepKeepsInv(s, evs[0], depthA, depthB);
      StepKeepsStarved(s, evs[0], depthA, depthB);
      StarvedForever(Step(s, evs[0]), evs[1..], depthA, depthB);
    }
  }

  /** A piggybacking message, even one without data, is help enough. */
  lemma PiggybackServes(s: State, depthA: uint32, depthB: uint32)
    requires Inv(s, depthA, depthB) && Starved(s, depthA) && s.ab == [] && s.ba == []
    ensures EnabledRun(s, [Event.Send(B, 0, true), Receive(A)])
    ensures Run(s, [Event.Send(B, 0, true), Receive(A)]).a.send == depthA
  {
    var evs := [Event.Send(B, 0, true), Receive(A)];
    var s1 := Step(s, evs[0]);
    assert s1.ba == [Message(0, s.b.pending)];
    assert evs[1..] == [Receive(A)] && [Receive(A)][1..] == [];
  }

  /** Peers of different depths can get there: once the first end has spent its credits and all has
      arrived, no run without such help lets it send again. */
  lemma DifferentDepthsCanStarve(depth: uint32, depthB: uint32, threshold: nat)
    requires 0 < depth < threshold
    ensures var s := Initial(depth, 0, depthB, threshold);
            var evs := [Event.Send(A, depth, false), Receive(B)];
            && EnabledRun(s, evs)
            && var s' := Run(s, evs);
               && Inv(s', depth, depthB) && Starved(s', depth) && s'.ab == [] && s'.ba == []
               && forall more :: EnabledRun(s', more) && WithoutHelp(more, depth) ==> Run(s', more).a.send == 0
  {
    var s := Initial(depth, 0, depthB, threshold);
    var s1 := Step(s, Event.Send(A, depth, false));
    assert s1.ab == [Message(depth, 0)];
    var evs := [Event.Send(A, depth, false), Receive(B)];
    var s2 := Step(s1, Receive(B));
    assert evs[1..] == [Receive(B)] && [Receive(B)][1..] == [];
    assert Run(s1, [Receive(B)]) == Run(s2, []) == s2;
    assert Run(s, evs) == s2;
    CreditsAreConserved(s, evs, depth, depthB);
    forall more | EnabledRun(s2, more) && WithoutHelp(more, depth)
      ensures Run(s2, more).a.send == 0
    {
      StarvedForever(s2, more, depth, depthB);
    }
  }
}
