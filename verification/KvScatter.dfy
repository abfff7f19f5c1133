/** Scatter-gather puts: segment by segment into the slot, with the effect of one put of the whole. */
module KvScatter {
  import opened Base
  import opened KvTable

  function TotalLength(segments: seq<Bytes>): nat {
    if segments == [] then 0
    else TotalLength(segments[..|segments| - 1]) + |segments[|segments| - 1]|
  }

  /** The sum the request is checked against is kept in 32 bits. */
  function WrappedTotal(segments: seq<Bytes>): uint32 {
    if segments == [] then 0
    else (WrappedTotal(segments[..|segments| - 1]) + |segments[|segments| - 1]|) % TWO32
  }

  function Concat(segments: seq<Bytes>): Bytes {
    if segments == [] then []
    else Concat(segments[..|segments| - 1]) + segments[|segments| - 1]
  }

  lemma {:induction false} ConcatLength(segments: seq<Bytes>)
    ensures |Concat(segments)| == TotalLength(segments)
  {
    if segments != [] {
      ConcatLength(segments[..|segments| - 1]);
    }
  }

  lemma {:induction false} WrappedIsRemainder(segments: seq<Bytes>)
    ensures WrappedTotal(segments) == TotalLength(segments) % TWO32
  {
    if segments != [] {
      var front, last := segments[..|segments| - 1], segments[|segments| - 1];
      WrappedIsRemainder(front);
      SumModulo(TotalLength(front), |last|, TWO32);
    }
  }

  /** Copies segment after segment. */
  function CopySegments(pool: Bytes, at: nat, segments: seq<Bytes>): (r: Bytes)
    requires at + TotalLength(segments) <= |pool|
    ensures |r| == |pool|
  {
    if segments == [] then pool
    else
      var front, last := segments[..|segments| - 1], segments[|segments| - 1];
      Write(CopySegments(pool, at, front), at + TotalLength(front), last)
  }

  lemma {:induction false} CopyIsOneWrite(pool: Bytes, at: nat, segments: seq<Bytes>)
    requires at + TotalLength(segments) <= |pool|
    ensures at + |Concat(segments)| <= |pool|
    ensures CopySegments(pool, at, segments) == Write(pool, at, Concat(segments))
  {
    ConcatLength(segments);
    if segments == [] {
      assert Write(pool, at, []) == pool;
    } else {
      var front, last := segments[..|segments| - 1], segments[|segments| - 1];
      ConcatLength(front);
      CopyIsOneWrite(pool, at, front);
      WriteTwice(pool, at, Concat(front), last);
    }
  }

  lemma WriteTwice(pool: Bytes, at: nat, a: Bytes, b: Bytes)
    requires at + |a| + |b| <= |pool|
    ensures Write(Write(pool, at, a), at + |a|, b) == Write(pool, at, a + b)
  {
    var mid := Write(pool, at, a);
    assert mid[..at + |a|] == pool[..at] + a;
    assert mid[at + |a| + |b|..] == pool[at + |a| + |b|..];
  }

  function OverwriteSGL(s: Store, at: nat, segments: seq<Bytes>, total: nat): (s': Store)
    requires Shape(s) && at < |s.table| && s.table[at].Live() && total <= TotalLength(segments)
    requires HasRoom(s, s.table[at].slot, TotalLength(segments))
    ensures Shape(s')
  {
    var e := s.table[at];
    s.(usedBytes := s.usedBytes - e.size + total, table := s.table[at := e.(size := total)],
       pool := CopySegments(s.pool, SlotBase(e.slot, s.slotSize), segments))
  }

  function InsertSGL(s: Store, at: nat, key: nat, segments: seq<Bytes>, total: nat): (s': Store)
    requires Shape(s) && at < |s.table| && s.free != [] && total <= TotalLength(segments)
    requires HasRoom(s, s.free[|s.free| - 1], TotalLength(segments))
    ensures Shape(s')
  {
    var slot := s.free[|s.free| - 1];
    s.(free := s.free[..|s.free| - 1], table := s.table[at := Entry(key, slot, total, true, false)],
       usedSlots := s.usedSlots + 1, usedBytes := s.usedBytes + total,
       pool := CopySegments(s.pool, SlotBase(slot, s.slotSize), segments))
  }

  /** The checks a request passes before anything is copied; the sum they compare is the wrapped one. */
  predicate Accepted(segments: seq<Bytes>, total: uint32) {
    IsValidValueSize(total) && WrappedTotal(segments) == total
  }

  /** Only a full table gives up after the space check. */
  function PutSGL(hash: nat -> nat, s: Store, key: nat, segments: seq<Bytes>, total: uint32): (r: (Store, Status))
    requires Shape(s) && (Accepted(segments, total) ==> InPool(hash, s, key, TotalLength(segments)))
    ensures Shape(r.0)
  {
    if !IsValidValueSize(total) || segments == [] then (s, InvalidRequest)
    else if WrappedTotal(segments) != total then (s, InvalidRequest)
    else if s.free == [] then (s, NoSpace)
    else
      WrappedIsRemainder(segments);
      var start := Start(hash, key, |s.table|);
      match Find(s.table, start, key, 0)
      case Some(at) => (OverwriteSGL(s, at, segments, total), OK)
      case None =>
        match FindRoom(s.table, start, 0)
        case Some(at) => (InsertSGL(s, at, key, segments, total), OK)
        case None => (s, NoSpace)
  }

  /** What a scatter-gather put should do: one put of the concatenation if the stated total is its
      length, and nothing otherwise. */
  function PutWhole(hash: nat -> nat, s: Store, key: nat, segments: seq<Bytes>, total: uint32): (r: (Store, Status))
    requires Shape(s) && (Accepted(segments, total) ==> InPool(hash, s, key, TotalLength(segments)))
  {
    ConcatLength(segments);
    WrappedIsRemainder(segments);
    if TotalLength(segments) == total then Put(hash, s, key, Concat(segments)) else (s, InvalidRequest)
  }

  /** With the true total every path leaves what one put leaves. */
  lemma TrueTotalIsPut(hash: nat -> nat, s: Store, key: nat, segments: seq<Bytes>)
    requires Shape(s) && InPool(hash, s, key, TotalLength(segments)) && IsValidValueSize(TotalLength(segments))
    ensures |Concat(segments)| == TotalLength(segments) == WrappedTotal(segments)
    ensures PutSGL(hash, s, key, segments, TotalLength(segments)) == Put(hash, s, key, Concat(segments))
  {
    ConcatLength(segments);
    WrappedIsRemainder(segments);
    if s.free != [] {
      var start := Start(hash, key, |s.table|);
      match Find(s.table, start, key, 0)
      case Some(at) =>
        CopyIsOneWrite(s.pool, SlotBase(s.table[at].slot, s.slotSize), segments);
      case None =>
        if FindRoom(s.table, start, 0).Some? {
          CopyIsOneWrite(s.pool, SlotBase(s.free[|s.free| - 1], s.slotSize), segments);
        }
    }
  }

  /** On every path it does so if and only if the 32-bit sum, where it is accepted, is the true one. */
  lemma PutSglIsPutIff(hash: nat -> nat, s: Store, key: nat, segments: seq<Bytes>, total: uint32)
    requires Shape(s) && (Accepted(segments, total) ==> InPool(hash, s, key, TotalLength(segments)))
    ensures PutSGL(hash, s, key, segments, total) == PutWhole(hash, s, key, segments, total)
            <==> (Accepted(segments, total) ==> TotalLength(segments) == total)
  {
    ConcatLength(segments);
    WrappedIsRemainder(segments);
    if TotalLength(segments) == total && IsValidValueSize(total) {
      TrueTotalIsPut(hash, s, key, segments);
    }
  }

  /** In particular for segments of less than 2^32 bytes in all. */
  lemma PutSglIsPut(hash: nat -> nat, s: Store, key: nat, segments: seq<Bytes>, total: uint32)
    requires Shape(s) && Fits(s, total) && TotalLength(segments) < TWO32
    ensures Accepted(segments, total) ==> InPool(hash, s, key, TotalLength(segments))
    ensures PutSGL(hash, s, key, segments, total) == PutWhole(hash, s, key, segments, total)
  {
    WrappedIsRemainder(segments);
    Digits(0, TotalLength(segments), TWO32);
    assert WrappedTotal(segments) == TotalLength(segments);
    if Accepted(segments, total) {
      FittingIsInPool(hash, s, key, total);
    }
    PutSglIsPutIff(hash, s, key, segments, total);
  }

  function Zeros(n: nat): (r: Bytes)
    ensures |r| == n
  {
    seq(n, _ => 0)
  }

  /** A request that is 2^32 bytes longer than it says passes every check, and is longer than any slot
      the pool could sensibly have. */
  lemma WrappedSumIsAccepted(total: uint32)
    requires IsValidValueSize(total)
    ensures var segments := [Zeros(TWO32), Zeros(total)];
            Accepted(segments, total) && TotalLength(segments) == TWO32 + total
  {
    var segments := [Zeros(TWO32), Zeros(total)];
    assert segments[..1] == [Zeros(TWO32)];
    assert TotalLength([Zeros(TWO32)]) == TWO32;
    WrappedIsRemainder(segments);
  }
}
