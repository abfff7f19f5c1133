/** The pool of equal-sized buffers in place; a buffer is named by its offset in the memory block. */
module LocalBufferPool {
  import opened Base
  import B = BufferRing

  datatype CreateError = ExceedsMax | InvalidConfiguration

  class LocalBufferPool {
    const offsetRing: array<nat>
    const bufferSize: nat
    const policy: B.Policy
    var head: nat
    var tail: nat
    var count: nat

    ghost predicate Valid()
      reads this, offsetRing
    {
      B.Shape(Model())
    }

    ghost function Model(): B.Ring
      reads this, offsetRing
    {
      B.Ring(offsetRing[..], head, tail, count, policy)
    }

    constructor (bufferSize: nat, bufferCount: nat, policy: B.Policy)
      requires 0 < bufferCount
      ensures Valid() && fresh(offsetRing) && Model() == B.Created(bufferCount, bufferSize, policy)
      ensures this.bufferSize == bufferSize
    {
      var ring := new nat[bufferCount](_ => 0);
      for i := 0 to bufferCount
        invariant forall j :: 0 <= j < i ==> ring[j] == j * bufferSize
      {
        ring[i] := i * bufferSize;
      }
      offsetRing := ring;
      this.bufferSize, this.policy := bufferSize, policy;
      head, tail, count := 0, bufferCount, bufferCount;
      new;
      assert offsetRing[..] == B.Created(bufferCount, bufferSize, policy).offsets;
    }

    static method Create(bufferSize: nat, bufferCount: nat, maxBufferCount: nat, policy: B.Policy)
        returns (pool: LocalBufferPool?, error: Option<CreateError>)
      ensures error == if bufferCount > maxBufferCount then Some(ExceedsMax)
                       else if bufferSize == 0 || bufferCount == 0 then Some(InvalidConfiguration) else None
      ensures pool == null <==> error.Some?
      ensures pool != null ==> fresh(pool) && fresh(pool.offsetRing) && pool.Valid()
                               && pool.Model() == B.Created(bufferCount, bufferSize, policy)
    {
      if bufferCount > maxBufferCount {
        return null, Some(ExceedsMax);
      }
      if bufferSize == 0 || bufferCount == 0 {
        return null, Some(InvalidConfiguration);
      }
      pool := new LocalBufferPool(bufferSize, bufferCount, policy);
      error := None;
    }

    method Allocate() returns (offset: Option<nat>)
      requires Valid()
      modifies this
      ensures Valid() && (Model(), offset) == B.Allocate(old(Model()))
    {
      if count == 0 {
        return None;
      }
      B.AllocateTakes(Model());
      if policy == B.Fifo {
        offset := Some(offsetRing[head]);
        head := (head + 1) % offsetRing.Length;
      } else {
        tail := (tail + offsetRing.Length - 1) % offsetRing.Length;
        offset := Some(offsetRing[tail]);
      }
      count := count - 1;
    }

    /** Needs the tail inside the ring: see BufferRing.FirstFreeInBoundsIff for when it is not. */
    method Free(offset: nat)
      requires Valid() && tail < offsetRing.Length && count < offsetRing.Length
      modifies this, offsetRing
      ensures Valid() && Model() == B.Free(old(Model()), offset)
    {
      B.FreeAppends(Model(), offset);
      offsetRing[tail] := offset;
      tail := (tail + 1) % offsetRing.Length;
      count := count + 1;
    }
  }
}
