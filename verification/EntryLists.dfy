/** The storage both timing wheels are built from: a fixed pool of entries threaded
    onto intrusive singly linked lists, one for each bucket and one for the free entries.
    A pointer is an index into the pool, and NIL is the null pointer. */
module EntryLists {

  const NIL: int := -1

  datatype Entry = Entry(slot: nat, gen: nat, next: int)

  /** Which list an entry is on when it is on none. */
  const LOOSE: int := -1

  /** Ghost picture of the lists.  A chain is written bottom first, so its head pointer is its
      last element and a push leaves the positions of the others alone. */
  datatype View = View(chains: seq<seq<nat>>, owner: seq<int>, pos: seq<nat>)

  function Top(chain: seq<nat>): int {
    if chain == [] then NIL else chain[|chain| - 1]
  }

  /** Following `next` from `head` visits the chain, top first, and ends at NIL. */
  ghost predicate Linked(es: seq<Entry>, head: int, chain: seq<nat>) {
    && head == Top(chain)
    && (forall i :: 0 <= i < |chain| ==> chain[i] < |es|)
    && (forall i {:trigger es[chain[i]]} :: 0 <= i < |chain| ==>
          es[chain[i]].next == if i == 0 then NIL else chain[i - 1])
  }

  /** The entries of a chain are marked as being on list `b`, each at its own position. */
  ghost predicate Marked(owner: seq<int>, pos: seq<nat>, b: int, chain: seq<nat>) {
    && |owner| == |pos|
    && forall i :: 0 <= i < |chain| ==>
          chain[i] < |owner| && owner[chain[i]] == b && pos[chain[i]] == i
  }

  ghost predicate ListOk(es: seq<Entry>, v: View, head: int, b: nat)
    requires b < |v.chains|
  {
    Linked(es, head, v.chains[b]) && Marked(v.owner, v.pos, b, v.chains[b])
  }

  /** An entry is where its marks say it is. */
  ghost predicate Placed(v: View, e: nat)
    requires e < |v.owner| == |v.pos|
  {
    || v.owner[e] == LOOSE
    || (0 <= v.owner[e] < |v.chains| && v.pos[e] < |v.chains[v.owner[e]]|
        && v.chains[v.owner[e]][v.pos[e]] == e)
  }

  /** Every list is a chain (hence acyclic), no entry is on two lists or twice on one, and an
      entry on no list is marked loose. */
  ghost predicate Shape(es: seq<Entry>, heads: seq<int>, v: View) {
    && |v.chains| == |heads|
    && |v.owner| == |v.pos| == |es|
    && (forall b :: 0 <= b < |heads| ==> ListOk(es, v, heads[b], b))
    && (forall e :: 0 <= e < |es| ==> Placed(v, e))
  }

  /** The chain of a bucket that has been detached but whose links are still intact. */
  ghost predicate Detached(es: seq<Entry>, v: View, head: int, chain: seq<nat>) {
    Linked(es, head, chain) && Marked(v.owner, v.pos, LOOSE, chain)
  }

  ghost function Pushed(v: View, b: nat, e: nat): View
    requires b < |v.chains| && e < |v.owner| == |v.pos|
  {
    View(v.chains[b := v.chains[b] + [e]], v.owner[e := b], v.pos[e := |v.chains[b]|])
  }

  ghost function Popped(v: View, b: nat): View
    requires b < |v.chains| && v.chains[b] != []
    requires Top(v.chains[b]) < |v.owner|
  {
    var n := |v.chains[b]| - 1;
    v.(chains := v.chains[b := v.chains[b][..n]], owner := v.owner[v.chains[b][n] := LOOSE])
  }

  ghost function Cleared(v: View, b: nat): View
    requires b < |v.chains|
  {
    v.(chains := v.chains[b := []],
       owner := seq(|v.owner|, e requires 0 <= e < |v.owner| => if v.owner[e] == b then LOOSE else v.owner[e]))
  }

  lemma PushKeepsShape(es: seq<Entry>, heads: seq<int>, v: View, b: nat, e: nat)
    requires Shape(es, heads, v) && b < |heads| && e < |es| && v.owner[e] == LOOSE
    ensures Shape(es[e := es[e].(next := heads[b])], heads[b := e], Pushed(v, b, e))
  {
    var es', heads', v' := es[e := es[e].(next := heads[b])], heads[b := e], Pushed(v, b, e);
    forall c | 0 <= c < |heads|
      ensures ListOk(es', v', heads'[c], c)
    {
      assert ListOk(es, v, heads[c], c);
    }
    forall d | 0 <= d < |es|
      ensures Placed(v', d)
    {
      assert Placed(v, d);
    }
  }

  lemma PopKeepsShape(es: seq<Entry>, heads: seq<int>, v: View, b: nat)
    requires Shape(es, heads, v) && b < |heads| && v.chains[b] != []
    ensures heads[b] == Top(v.chains[b]) && 0 <= heads[b] < |es|
    ensures Shape(es, heads[b := es[heads[b]].next], Popped(v, b))
  {
    assert ListOk(es, v, heads[b], b);
    var heads', v' := heads[b := es[heads[b]].next], Popped(v, b);
    assert es[v.chains[b][|v.chains[b]| - 1]].next == Top(v'.chains[b]);
    forall c | 0 <= c < |heads|
      ensures ListOk(es, v', heads'[c], c)
    {
      assert ListOk(es, v, heads[c], c);
    }
    forall d | 0 <= d < |es|
      ensures Placed(v', d)
    {
      assert Placed(v, d);
    }
  }

  lemma ClearKeepsShape(es: seq<Entry>, heads: seq<int>, v: View, b: nat)
    requires Shape(es, heads, v) && b < |heads|
    ensures Shape(es, heads[b := NIL], Cleared(v, b))
    ensures Detached(es, Cleared(v, b), heads[b], v.chains[b])
  {
    var heads', v' := heads[b := NIL], Cleared(v, b);
    assert ListOk(es, v, heads[b], b);
    forall c | 0 <= c < |heads|
      ensures ListOk(es, v', heads'[c], c)
    {
      assert ListOk(es, v, heads[c], c);
    }
    forall d | 0 <= d < |es|
      ensures Placed(v', d)
    {
      assert Placed(v, d);
    }
  }

  /** Pushing the top of a detached chain onto a list leaves the rest detached. */
  lemma PushKeepsDetached(es: seq<Entry>, head: int, v: View, b: nat, chain: seq<nat>)
    requires b < |v.chains| && chain != [] && |es| == |v.owner|
    requires Detached(es, v, Top(chain), chain)
    ensures var e := Top(chain);
            Detached(es[e := es[e].(next := head)], Pushed(v, b, e), es[e].next, chain[..|chain| - 1])
  {
    assert es[chain[|chain| - 1]].next == Top(chain[..|chain| - 1]);
  }

  ghost predicate SameTokens(es: seq<Entry>, es': seq<Entry>) {
    |es'| == |es| && forall e :: 0 <= e < |es| ==> es'[e].slot == es[e].slot && es'[e].gen == es[e].gen
  }

  /** The lists while bucket `b` of `was` is being emptied: its entries at position `left` and
      above are on their target lists, the others still loose. */
  ghost predicate Moved(was: View, v: View, b: nat, left: nat, target: nat -> nat) {
    && |v.owner| == |was.owner| == |was.pos|
    && forall e :: 0 <= e < |was.owner| ==>
         v.owner[e] == if was.owner[e] != b then was.owner[e]
                       else if was.pos[e] < left then LOOSE else target(e)
  }

  /** Entry `e` has been moved to list `b` with a new token; everything else is as it was. */
  ghost predicate Inserted(es: seq<Entry>, v: View, es': seq<Entry>, v': View, e: nat, b: nat, slot: nat, gen: nat) {
    && |es'| == |es| == |v.owner| == |v'.owner| && e < |es|
    && es'[e].slot == slot && es'[e].gen == gen && v'.owner[e] == b
    && (forall d :: 0 <= d < |es| && d != e ==> es'[d] == es[d])
    && (forall d :: 0 <= d < |es| && d != e ==> v'.owner[d] == v.owner[d])
  }

  /** `held` lists what the entries of `order` hold. */
  ghost predicate Holding(es: seq<Entry>, order: seq<nat>, held: seq<(nat, nat)>) {
    && |held| == |order|
    && (forall i :: 0 <= i < |order| ==> order[i] < |es|)
    && (forall i :: 0 <= i < |order| ==> held[i] == (es[order[i]].slot, es[order[i]].gen))
  }

  lemma MoveOne(was: View, v: View, b: nat, rest: seq<nat>, target: nat -> nat)
    requires rest != [] && Moved(was, v, b, |rest|, target) && |v.pos| == |v.owner|
    requires b < |was.chains| && rest <= was.chains[b] && Marked(was.owner, was.pos, b, was.chains[b])
    requires target(Top(rest)) < |v.chains|
    requires forall e :: 0 <= e < |was.owner| ==> Placed(was, e)
    ensures Moved(was, Pushed(v, target(Top(rest)), Top(rest)), b, |rest| - 1, target)
  {
    forall e | 0 <= e < |was.owner| && was.owner[e] == b && was.pos[e] == |rest| - 1
      ensures e == Top(rest)
    {
      assert Placed(was, e);
    }
  }

  ghost function TopFirst(chain: seq<nat>): seq<nat> {
    seq(|chain|, i requires 0 <= i < |chain| => chain[|chain| - 1 - i])
  }

  /** `held` lists, top first, what the entries of a chain hold that are above `rest`. */
  ghost predicate HeldAbove(es: seq<Entry>, chain: seq<nat>, rest: seq<nat>, held: seq<(nat, nat)>) {
    && rest <= chain && |held| == |chain| - |rest|
    && Holding(es, TopFirst(chain)[..|held|], held)
  }

  lemma HoldOneMore(es: seq<Entry>, chain: seq<nat>, rest: seq<nat>, held: seq<(nat, nat)>, e: nat)
    requires HeldAbove(es, chain, rest, held) && rest != [] && e == Top(rest) < |es|
    ensures HeldAbove(es, chain, rest[..|rest| - 1], held + [(es[e].slot, es[e].gen)])
  {
    assert TopFirst(chain)[|held|] == chain[|rest| - 1] == e;
    assert TopFirst(chain)[..|held| + 1] == TopFirst(chain)[..|held|] + [e];
  }

  lemma AllHeld(es: seq<Entry>, chain: seq<nat>, held: seq<(nat, nat)>)
    requires HeldAbove(es, chain, [], held)
    ensures Holding(es, TopFirst(chain), held)
  {
    assert TopFirst(chain)[..|held|] == TopFirst(chain);
  }

  lemma ListIsDistinct(es: seq<Entry>, v: View, head: int, b: nat)
    requires b < |v.chains| && |v.owner| == |v.pos| && ListOk(es, v, head, b)
    ensures forall i, j :: 0 <= i < j < |v.chains[b]| ==> v.chains[b][i] != v.chains[b][j]
  {
    var chain := v.chains[b];
    forall i, j | 0 <= i < j < |chain|
      ensures chain[i] != chain[j]
    {
      assert v.pos[chain[i]] != v.pos[chain[j]];
    }
  }

  /** Walking a list from its head meets each of its entries exactly once. */
  lemma TopFirstEnumerates(es: seq<Entry>, v: View, head: int, b: nat)
    requires b < |v.chains| && |v.owner| == |v.pos| && ListOk(es, v, head, b)
    requires forall e :: 0 <= e < |v.owner| ==> Placed(v, e)
    ensures var order := TopFirst(v.chains[b]);
            && (forall i, j :: 0 <= i < j < |order| ==> order[i] != order[j])
            && (forall e: nat :: e in order <==> e < |v.owner| && v.owner[e] == b)
  {
    var chain, order := v.chains[b], TopFirst(v.chains[b]);
    ListIsDistinct(es, v, head, b);
    forall e: nat | e < |v.owner| && v.owner[e] == b
      ensures e in order
    {
      assert Placed(v, e) && order[|chain| - 1 - v.pos[e]] == e;
    }
  }

  /** Every entry is on the last list, index 0 on top. */
  ghost function Initial(size: nat, buckets: nat): View {
    var countdown := seq(size, i requires 0 <= i < size => size - 1 - i);
    View(seq(buckets + 1, b => if b == buckets then countdown else []), seq(size, _ => buckets), countdown)
  }

  class Lists {
    const entries: array<Entry>
    const heads: array<int>
    ghost var view: View

    ghost predicate Valid()
      reads this, entries, heads
    {
      Shape(entries[..], heads[..], view)
    }

    /** Nothing is on no list: buckets and free list together hold the whole pool. */
    ghost predicate AllListed()
      reads this
    {
      forall e :: 0 <= e < |view.owner| ==> view.owner[e] != LOOSE
    }

    ghost function FreeList(): nat
      requires heads.Length > 0
    {
      heads.Length - 1
    }

    /** All `size` entries start on the last list, the free list, lowest index on top. */
    constructor (size: nat, buckets: nat)
      requires size > 0
      ensures Valid() && AllListed() && fresh(entries) && fresh(heads)
      ensures entries.Length == size && heads.Length == buckets + 1
      ensures forall e :: 0 <= e < size ==> view.owner[e] == buckets
    {
      var es := new Entry[size](_ => Entry(0, 0, NIL));
      for i := 0 to size - 1
        invariant forall j :: 0 <= j < i ==> es[j].next == j + 1
        invariant es[size - 1].next == NIL
      {
        es[i] := es[i].(next := i + 1);
      }
      var hs := new int[buckets + 1](b => if b == buckets then 0 else NIL);
      entries, heads := es, hs;
      view := Initial(size, buckets);
      new;
      forall b | 0 <= b <= buckets
        ensures ListOk(entries[..], view, heads[..][b], b)
      {
      }
    }

    /** Takes the top entry off the free list, or returns NIL when there is none. */
    method AllocEntry() returns (e: int)
      requires Valid() && heads.Length > 0
      modifies this, heads
      ensures Valid()
      ensures old(view.chains[FreeList()]) == [] <==> e == NIL
      ensures e == NIL ==> view == old(view)
      ensures e != NIL ==>
                && 0 <= e < |old(view).owner| && e == Top(old(view.chains[FreeList()]))
                && old(view).owner[e] == FreeList() && view == Popped(old(view), FreeList())
    {
      ghost var f := FreeList();
      assert ListOk(entries[..], view, heads[f], f);
      e := heads[heads.Length - 1];
      if e != NIL {
        PopKeepsShape(entries[..], heads[..], view, f);
        heads[heads.Length - 1] := entries[e].next;
        view := Popped(view, f);
      }
    }

    /** Records a token in a loose entry. */
    method Fill(e: nat, slot: nat, gen: nat)
      requires Valid() && e < entries.Length
      modifies entries
      ensures Valid()
      ensures entries[..] == old(entries[..])[e := old(entries[e]).(slot := slot, gen := gen)]
    {
      ghost var es, es' := entries[..], entries[..][e := entries[e].(slot := slot, gen := gen)];
      forall b | 0 <= b < heads.Length
        ensures ListOk(es', view, heads[b], b)
      {
        assert ListOk(es, view, heads[..][b], b);
      }
      entries[e] := entries[e].(slot := slot, gen := gen);
    }

    /** Links a loose entry in front of a list. */
    method Push(b: nat, e: nat)
      requires Valid() && b < heads.Length && e < entries.Length && view.owner[e] == LOOSE
      modifies this, entries, heads
      ensures Valid()
      ensures view == Pushed(old(view), b, e)
      ensures entries[..] == old(entries[..])[e := old(entries[e]).(next := old(heads[b]))]
      ensures heads[..] == old(heads[..])[b := e]
    {
      PushKeepsShape(entries[..], heads[..], view, b, e);
      entries[e] := entries[e].(next := heads[b]);
      heads[b] := e;
      view := Pushed(view, b, e);
    }

    /** Takes a free entry, fills it and links it into bucket `b`; NIL when the pool is exhausted. */
    method Insert(b: nat, slot: nat, gen: nat) returns (e: int)
      requires Valid() && AllListed() && heads.Length > 0 && b < FreeList()
      modifies this, entries, heads
      ensures Valid() && AllListed()
      ensures e == NIL <==> old(view.chains[FreeList()]) == []
      ensures e == NIL ==> view == old(view) && entries[..] == old(entries[..])
      ensures e != NIL ==> e >= 0 && Inserted(old(entries[..]), old(view), entries[..], view, e, b, slot, gen)
      ensures e != NIL ==> old(view).owner[e] == FreeList()
    {
      e := AllocEntry();
      if e != NIL {
        Fill(e, slot, gen);
        Push(b, e);
      }
    }

    /** Empties a bucket and returns the head of the chain it held. */
    method PopAll(b: nat) returns (head: int)
      requires Valid() && b < heads.Length
      modifies this, heads
      ensures Valid() && view == Cleared(old(view), b)
      ensures Detached(entries[..], view, head, old(view.chains[b]))
    {
      ClearKeepsShape(entries[..], heads[..], view, b);
      head := heads[b];
      heads[b] := NIL;
      view := Cleared(view, b);
    }

    /** Moves the top of a detached chain onto the list `target` names for it. */
    method Relink(entry: nat, target: nat -> nat, ghost was: View, ghost b: nat, ghost rest: seq<nat>)
        returns (next: int)
      requires Valid() && Detached(entries[..], view, entry, rest)
      requires Moved(was, view, b, |rest|, target) && b < |was.chains| && rest <= was.chains[b]
      requires Marked(was.owner, was.pos, b, was.chains[b]) && forall e :: 0 <= e < |was.owner| ==> Placed(was, e)
      requires forall e :: 0 <= e < entries.Length ==> target(e) < heads.Length
      modifies this, entries, heads
      ensures rest != []
      ensures Valid() && Detached(entries[..], view, next, rest[..|rest| - 1])
      ensures Moved(was, view, b, |rest| - 1, target)
      ensures SameTokens(old(entries[..]), entries[..])
    {
      next := entries[entry].next;
      PushKeepsDetached(entries[..], heads[target(entry)], view, target(entry), rest);
      MoveOne(was, view, b, rest, target);
      Push(target(entry), entry);
    }

    /** The loop of both Tick functions: empties bucket `b` and pushes each of its entries, top
        first, onto the list `target` names for it.  Returns what the entries hold, in that order. */
    method Drain(b: nat, target: nat -> nat) returns (held: seq<(nat, nat)>)
      requires Valid() && AllListed() && b < heads.Length
      requires forall e :: 0 <= e < entries.Length ==> target(e) < heads.Length && target(e) != b
      modifies this, entries, heads
      ensures Valid() && AllListed() && b < |old(view.chains)|
      ensures Moved(old(view), view, b, 0, target) && SameTokens(old(entries[..]), entries[..])
      ensures Holding(old(entries[..]), TopFirst(old(view.chains)[b]), held)
    {
      ghost var was := view;
      ghost var es := entries[..];
      ghost var chain := view.chains[b];
      assert ListOk(es, was, heads[b], b);
      assert forall e :: 0 <= e < |es| && was.owner[e] == b ==> Placed(was, e);
      held := [];
      var entry := PopAll(b);
      ghost var rest := chain;
      while entry != NIL
        invariant Valid() && Detached(entries[..], view, entry, rest)
        invariant Moved(was, view, b, |rest|, target) && SameTokens(es, entries[..])
        invariant HeldAbove(es, chain, rest, held)
        decreases |rest|
      {
        HoldOneMore(es, chain, rest, held, entry);
        held := held + [(entries[entry].slot, entries[entry].gen)];
        entry := Relink(entry, target, was, b, rest);
        rest := rest[..|rest| - 1];
      }
      AllHeld(es, chain, held);
    }
  }
}
