/** The dispatcher in place: fixed arrays for the two caches and for the level-2 index. */
module CompletionDispatcher {
  import opened Base
  import D = Dispatcher

  class CompletionDispatcher {
    const l0: array<D.Way>
    const hotCache: array<D.HotEntry>
    const buckets: array<seq<D.Conn>>

    ghost predicate Valid()
      reads l0, hotCache, buckets
    {
      D.Shape(D.State(l0[..], hotCache[..], buckets[..]))
    }

    ghost function Model(): (d: D.State)
      reads l0, hotCache, buckets
      ensures Valid() ==> D.Shape(d)
    {
      D.State(l0[..], hotCache[..], buckets[..])
    }

    constructor ()
      ensures Valid() && Model() == D.Initial()
      ensures fresh(l0) && fresh(hotCache) && fresh(buckets)
    {
      l0 := new D.Way[2 * D.SETS](_ => D.EMPTY_WAY);
      hotCache := new D.HotEntry[D.HOT](_ => D.EMPTY_HOT);
      buckets := new seq<D.Conn>[256](_ => []);
    }

    /** Updates the entry of an id, or fills the first empty probed slot, or replaces the least used. */
    method InsertHotCache(id: uint16, c: D.Conn)
      requires Valid()
      modifies hotCache
      ensures Valid() && hotCache[..] == D.L1Insert(old(hotCache[..]), id, c)
    {
      ghost var l1 := hotCache[..];
      var best: nat, probe: nat := D.Hash(id), 0;
      var least: uint16 := 0xFFFF;
      while probe < D.PROBES
        invariant probe <= D.PROBES && best < D.HOT && hotCache[..] == l1
        invariant D.InsertAt(l1, id, 0, D.Hash(id), 0xFFFF) == D.InsertAt(l1, id, probe, best, least)
        invariant if probe == 0 then best == D.Hash(id) else l1[best].id != id
      {
        var pos := D.Probe(id, probe);
        assert hotCache[pos] == l1[pos];
        if hotCache[pos].id == id {
          hotCache[pos] := D.HotEntry(id, (hotCache[pos].access + 1) % 0x1_0000, c);
          return;
        }
        if hotCache[pos].id == D.NONE {
          best := pos;
          break;
        }
        if hotCache[pos].access < least {
          least := hotCache[pos].access;
          best := pos;
        }
        probe := probe + 1;
      }
      assert best == D.InsertAt(l1, id, 0, D.Hash(id), 0xFFFF) && l1[best].id != id;
      hotCache[best] := D.HotEntry(id, 1, c);
    }

    /** Looks a connection up in the probed slots, stopping at an empty one. */
    method FindInHotCache(id: uint16) returns (r: Option<nat>)
      requires Valid()
      ensures r == D.Find(hotCache[..], id, 0)
    {
      for probe := 0 to D.PROBES
        invariant D.Find(hotCache[..], id, 0) == D.Find(hotCache[..], id, probe)
      {
        var pos := D.Probe(id, probe);
        if hotCache[pos].id == id {
          return Some(pos);
        }
        if hotCache[pos].id == D.NONE {
          return None;
        }
      }
      r := None;
    }

    method RegisterConnection(id: uint16, ctx: nat, handler: nat)
      requires Valid()
      modifies l0, hotCache, buckets
      ensures Valid() && Model() == D.Register(old(Model()), id, D.Conn(ctx, handler))
    {
      var c := D.Conn(ctx, handler);
      if buckets[id / 256] == [] {
        buckets[id / 256] := seq(256, _ => D.NO_CONN);
      }
      buckets[id / 256] := buckets[id / 256][id % 256 := c];

      var base := 2 * D.SetOf(id);
      var targetWay, lruWay, minAccess := -1, 0, 255;
      var w := 0;
      while w < 2
        invariant w <= 2 && targetWay == -1
        invariant w > 0 ==> l0[base].id != id && l0[base].id != D.NONE
        invariant w > 1 ==> l0[base + 1].id != id && l0[base + 1].id != D.NONE
        invariant w == 0 ==> lruWay == 0 && minAccess == 255
        invariant w == 1 ==> lruWay == 0 && minAccess == l0[base].access
        invariant w == 2 ==> lruWay == D.Lru(l0[base], l0[base + 1])
      {
        if l0[base + w].id == id || l0[base + w].id == D.NONE {
          targetWay := w;
          break;
        }
        if l0[base + w].access < minAccess {
          minAccess := l0[base + w].access;
          lruWay := w;
        }
        w := w + 1;
      }
      if targetWay < 0 {
        targetWay := lruWay;
      }
      l0[base + targetWay] := D.Way(id, 128, c);
      InsertHotCache(id, c);
    }

    /** Empties the level-2 entry, and in each cache the first copy the loops meet. */
    method UnregisterConnection(id: uint16)
      requires Valid()
      modifies l0, hotCache, buckets
      ensures Valid() && Model() == D.Unregister(old(Model()), id)
    {
      if buckets[id / 256] != [] {
        buckets[id / 256] := buckets[id / 256][id % 256 := D.NO_CONN];
      }
      var base := 2 * D.SetOf(id);
      for w := 0 to 2
        invariant l0[..] == old(l0[..])
        invariant w > 0 ==> l0[base].id != id
        invariant w > 1 ==> l0[base + 1].id != id
      {
        if l0[base + w].id == id {
          l0[base + w] := l0[base + w].(id := D.NONE, conn := D.NO_CONN);
          break;
        }
      }
      for probe := 0 to D.PROBES
        invariant hotCache[..] == old(hotCache[..])
        invariant D.L1ClearFirst(hotCache[..], id, 0) == D.L1ClearFirst(hotCache[..], id, probe)
      {
        var pos := D.Probe(id, probe);
        if hotCache[pos].id == id {
          hotCache[pos] := hotCache[pos].(id := D.NONE, conn := D.NO_CONN);
          break;
        }
      }
    }

    /** Puts a connection that was found in level 1 into its set, unless it is there already. */
    method MaybePromoteToL0(id: uint16, c: D.Conn)
      requires Valid()
      modifies l0
      ensures Valid() && l0[..] == D.L0Promote(old(l0[..]), id, c)
    {
      var base := 2 * D.SetOf(id);
      var targetWay := -1;
      for w := 0 to 2
        invariant targetWay == -1
        invariant w > 0 ==> l0[base].id != id && l0[base].id != D.NONE
        invariant w > 1 ==> l0[base + 1].id != id && l0[base + 1].id != D.NONE
      {
        if l0[base + w].id == D.NONE {
          targetWay := w;
          break;
        }
        if l0[base + w].id == id {
          return;
        }
      }
      if targetWay < 0 {
        targetWay := if l0[base].access <= l0[base + 1].access then 0 else 1;
      }
      l0[base + targetWay] := D.Way(id, 128, c);
    }

    /** Invokes what level 2 holds, if anything, and copies it to level 1. */
    method DispatchFromL2(id: uint16) returns (r: D.Outcome)
      requires Valid()
      modifies hotCache
      ensures Valid()
      ensures var c := D.L2Lookup(buckets[..], id);
              if c.handler == 0 then r == D.Dropped && hotCache[..] == old(hotCache[..])
              else r == D.Invoked(c) && hotCache[..] == D.L1Insert(old(hotCache[..]), id, c)
    {
      r := D.Dropped;
      if buckets[id / 256] != [] {
        var c := buckets[id / 256][id % 256];
        if c.handler != 0 {
          InsertHotCache(id, c);
          r := D.Invoked(c);
        }
      }
    }

    /** A level-0 hit: saturates the count of the way and ages the other one. */
    method Touch(way: nat, other: nat)
      requires Valid() && way < 2 * D.SETS && other < 2 * D.SETS && way != other
      modifies l0
      ensures Valid() && l0[..] == D.L0Touch(old(l0[..]), way, other)
    {
      l0[way] := l0[way].(access := 255);
      if l0[other].access > 0 {
        l0[other] := l0[other].(access := l0[other].access - 1);
      }
    }

    /** The successful path of Dispatch; what it invokes is returned. */
    method Dispatch(id: uint16) returns (r: D.Outcome)
      requires Valid()
      modifies l0, hotCache
      ensures Valid() && Model() == D.Dispatch(old(Model()), id).0 && r == D.Dispatch(old(Model()), id).1
    {
      var base := 2 * D.SetOf(id);
      if l0[base].id == id {
        r := D.Invoked(l0[base].conn);
        Touch(base, base + 1);
        return;
      }
      if l0[base + 1].id == id {
        r := D.Invoked(l0[base + 1].conn);
        Touch(base + 1, base);
        return;
      }
      var entry := FindInHotCache(id);
      if entry.Some? {
        var e := hotCache[entry.value];
        hotCache[entry.value] := e.(access := (e.access + 1) % 0x1_0000);
        MaybePromoteToL0(id, e.conn);
        return D.Invoked(e.conn);
      }
      r := DispatchFromL2(id);
    }
  }
}
