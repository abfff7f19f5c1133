/** The meaning shared by both timing wheels: a clock that counts ticks and, for
    every pool entry in use, the absolute tick at which it is due.  The wheels in
    TimingWheel.dfy and HierarchicalWheel.dfy are proved to refine it. */
module Timer {

  datatype Pending = Pending(slot: nat, gen: nat, due: nat)

  datatype Timer = Timer(now: nat, pending: map<nat, Pending>)

  /** No entry is overdue. */
  ghost predicate Inv(t: Timer) {
    forall e <- t.pending :: t.now <= t.pending[e].due
  }

  function Add(t: Timer, e: nat, p: Pending): Timer {
    t.(pending := t.pending[e := p])
  }

  /** The entries the next tick reports. */
  function Due(t: Timer): set<nat> {
    set e | e in t.pending && t.pending[e].due == t.now
  }

  function Advance(t: Timer): Timer {
    Timer(t.now + 1, t.pending - Due(t))
  }

  /** One enumeration of the entries the next tick reports, each exactly once. */
  ghost predicate Enumerates(t: Timer, order: seq<nat>) {
    && (forall i, j :: 0 <= i < j < |order| ==> order[i] != order[j])
    && (forall e :: e in order <==> e in Due(t))
  }

  /** `expired` lists the tokens of the entries of `order`. */
  ghost predicate Reported(t: Timer, order: seq<nat>, expired: seq<(nat, nat)>) {
    && |expired| == |order|
    && forall i :: 0 <= i < |order| ==>
         order[i] in t.pending && expired[i] == (t.pending[order[i]].slot, t.pending[order[i]].gen)
  }

  // ----- runs -----

  datatype Event = Tick | Schedule(entry: nat, pending: Pending)

  function Step(t: Timer, ev: Event): Timer {
    match ev
    case Tick => Advance(t)
    case Schedule(e, p) => Add(t, e, p)
  }

  /** A wheel only hands out entries that are not in use, and never schedules into the past. */
  ghost predicate Enabled(t: Timer, ev: Event) {
    ev.Schedule? ==> ev.entry !in t.pending && t.now <= ev.pending.due
  }

  function Run(t: Timer, evs: seq<Event>): Timer
    decreases |evs|
  {
    if evs == [] then t else Run(Step(t, evs[0]), evs[1..])
  }

  ghost predicate EnabledRun(t: Timer, evs: seq<Event>)
    decreases |evs|
  {
    evs == [] || (Enabled(t, evs[0]) && EnabledRun(Step(t, evs[0]), evs[1..]))
  }

  /** What the successive ticks of a run report, one set of entries for each tick. */
  function Reports(t: Timer, evs: seq<Event>): seq<set<nat>>
    decreases |evs|
  {
    if evs == [] then []
    else (if evs[0].Tick? then [Due(t)] else []) + Reports(Step(t, evs[0]), evs[1..])
  }

  lemma {:induction false} RunKeepsInv(t: Timer, evs: seq<Event>)
    requires Inv(t) && EnabledRun(t, evs)
    ensures Inv(Run(t, evs))
    ensures Run(t, evs).now == t.now + |Reports(t, evs)|
    decreases |evs|
  {
    if evs != [] {
      RunKeepsInv(Step(t, evs[0]), evs[1..]);
    }
  }

  /** Of the ticks up to the one that starts when a pending entry is due, that one reports it
      and no earlier one does. */
  lemma {:induction false} FiresExactlyWhenDue(t: Timer, evs: seq<Event>, e: nat, k: nat)
    requires Inv(t) && EnabledRun(t, evs) && e in t.pending
    requires k < |Reports(t, evs)| && k <= t.pending[e].due - t.now
    ensures e in Reports(t, evs)[k] <==> k == t.pending[e].due - t.now
    decreases |evs|
  {
    var t1 := Step(t, evs[0]);
    if evs[0].Schedule? {
      FiresExactlyWhenDue(t1, evs[1..], e, k);
    } else if k > 0 {
      assert Reports(t, evs)[k] == Reports(t1, evs[1..])[k - 1];
      FiresExactlyWhenDue(t1, evs[1..], e, k - 1);
    }
  }

  /** Entry e is reported by tick k of a run, and by no earlier one. */
  ghost predicate FirstReport(reports: seq<set<nat>>, e: nat, k: nat) {
    k < |reports| && e in reports[k] && forall j :: 0 <= j < k ==> e !in reports[j]
  }

  /** So in a run that is long enough its first report is at the tick it is due. */
  lemma FirstReportIsWhenDue(t: Timer, evs: seq<Event>, e: nat)
    requires Inv(t) && EnabledRun(t, evs) && e in t.pending && |Reports(t, evs)| > t.pending[e].due - t.now
    ensures FirstReport(Reports(t, evs), e, t.pending[e].due - t.now)
  {
    var k := t.pending[e].due - t.now;
    FiresExactlyWhenDue(t, evs, e, k);
    forall j | 0 <= j < k
      ensures e !in Reports(t, evs)[j]
    {
      FiresExactlyWhenDue(t, evs, e, j);
    }
  }

  /** Until then it is pending, unchanged. */
  lemma {:induction false} StaysPendingUntilDue(t: Timer, evs: seq<Event>, e: nat)
    requires Inv(t) && EnabledRun(t, evs) && e in t.pending
    requires t.now + |Reports(t, evs)| <= t.pending[e].due
    ensures e in Run(t, evs).pending && Run(t, evs).pending[e] == t.pending[e]
    decreases |evs|
  {
    if evs != [] {
      StaysPendingUntilDue(Step(t, evs[0]), evs[1..], e);
    }
  }

  lemma TickSplitsPending(t: Timer)
    requires Inv(t)
    ensures Inv(Advance(t))
    ensures Advance(t).pending.Keys == t.pending.Keys - Due(t) && Due(t) <= t.pending.Keys
  {
  }

  lemma OrderIsDue(t: Timer, order: seq<nat>)
    requires Enumerates(t, order)
    ensures Elements(order) == Due(t) && |Elements(order)| == |order|
  {
    DistinctSeqSize(order);
  }

  lemma KeysAreEntries(m: map<nat, Pending>)
    ensures |m| == |m.Keys|
  {
  }

  /** The converse: a tick reports nothing that is not pending and due, and what it reports is gone. */
  lemma TickRemovesExactlyItsReport(t: Timer, order: seq<nat>)
    requires Inv(t) && Enumerates(t, order)
    ensures Inv(Advance(t))
    ensures Advance(t).pending.Keys !! Elements(order)
    ensures Advance(t).pending.Keys + Elements(order) == t.pending.Keys
    ensures |Advance(t).pending| + |order| == |t.pending|
  {
    TickSplitsPending(t);
    OrderIsDue(t, order);
    KeysAreEntries(t.pending);
    KeysAreEntries(Advance(t).pending);
    DisjointUnionSize(Advance(t).pending.Keys, Elements(order), t.pending.Keys);
  }

  lemma DisjointUnionSize(a: set<nat>, b: set<nat>, c: set<nat>)
    requires forall x: nat :: !(x in a && x in b)
    requires forall x: nat :: x in c <==> x in a || x in b
    ensures |a| + |b| == |c|
  {
    assert a !! b && a + b == c;
  }

  function Elements(s: seq<nat>): set<nat> {
    set x | x in s
  }

  lemma {:induction false} DistinctSeqSize(s: seq<nat>)
    requires forall i, j :: 0 <= i < j < |s| ==> s[i] != s[j]
    ensures |Elements(s)| == |s|
  {
    if s == [] {
      assert Elements(s) == {};
    } else {
      var last := |s| - 1;
      DistinctSeqSize(s[..last]);
      assert Elements(s) == Elements(s[..last]) + {s[last]};
    }
  }
}
