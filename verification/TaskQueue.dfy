/** The task queue in place, used by one thread at a time: intrusive nodes, Push, PopAll, and the
    loop with which the reactor runs what it has taken. */
module TaskQueue {
  import opened Base
  import Q = MpscQueue

  class TaskQueue {
    const next: array<Option<nat>>
    var head: Option<nat>
    /** The queued nodes, oldest first. */
    ghost var stack: seq<nat>

    ghost predicate Linked(chain: seq<nat>)
      reads next
    {
      && (forall i :: 0 <= i < |chain| ==> chain[i] < next.Length)
      && (forall i {:trigger next[chain[i]]} :: 0 <= i < |chain| ==>
            next[chain[i]] == if i == 0 then None else Some(chain[i - 1]))
    }

    ghost predicate Valid()
      reads this, next
    {
      head == Q.Top(stack) && Linked(stack) && Q.Distinct(stack)
    }

    constructor (nodes: nat)
      ensures Valid() && fresh(next) && next.Length == nodes && stack == []
    {
      next := new Option<nat>[nodes](_ => None);
      head, stack := None, [];
    }

    method Push(node: nat)
      requires Valid() && node < next.Length && node !in stack
      modifies this, next
      ensures Valid() && stack == old(stack) + [node]
      ensures forall n :: 0 <= n < next.Length && n != node ==> next[n] == old(next[n])
    {
      next[node] := head;
      head := Some(node);
      stack := stack + [node];
    }

    method PopAll() returns (first: Option<nat>)
      requires Valid()
      modifies this
      ensures Valid() && stack == []
      ensures first == Q.Top(old(stack)) && Linked(old(stack))
    {
      first := head;
      head := None;
      stack := [];
    }

    /** Runs every queued task once, newest first, and counts them. */
    method ProcessTasks() returns (count: nat, ran: seq<nat>)
      requires Valid()
      modifies this
      ensures Valid() && stack == []
      ensures ran == Q.Reversed(old(stack)) && count == |old(stack)|
    {
      ghost var chain := stack;
      var cur := PopAll();
      count, ran := 0, [];
      while cur.Some?
        invariant Valid() && stack == [] && Linked(chain)
        invariant count == |ran| <= |chain| && cur == Q.Top(chain[..|chain| - count])
        invariant forall i :: 0 <= i < count ==> ran[i] == chain[|chain| - 1 - i]
        decreases |chain| - count
      {
        var succ := next[cur.value];
        ran := ran + [cur.value];
        cur := succ;
        count := count + 1;
      }
    }
  }
}
