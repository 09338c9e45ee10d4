/*
 * ReferenceCounter (ReferenceCounter.hpp): a handle to a shared, heap
 * allocated signed counter.  Creating or copying a handle counts one more
 * holder; destroying a handle counts one fewer and frees the counter once
 * the count drops to zero or below; moving hands the counter over without
 * counting.
 */
module ReferenceCounters {

  /** The heap cell the handles share (an iSys); `freed` records TU_DELETE. */
  class Counter {
    var value: int
    var freed: bool

    constructor (value: int)
      ensures this.value == value && !freed
    {
      this.value := value;
      freed := false;
    }
  }

  /** The count a holder of `c` reads: 0 for no counter. */
  function CountOf(c: Counter?): (r: int)
    reads c
    ensures c == null ==> r == 0
  {
    if c == null then 0 else c.value
  }

  /** The count after a holder lets go, and whether that frees the counter. */
  function Dropped(value: int): (r: (int, bool))
    ensures r.0 == value - 1 && r.1 == (value <= 1)
  {
    (value - 1, value - 1 <= 0)
  }

  /** The last of n holders to let go frees the counter, and none before it. */
  lemma LastHolderFrees(n: nat, k: nat)
    requires 1 <= k <= n
    ensures Dropped(n - k + 1).1 <==> k == n
  {
  }

  class ReferenceCounter {
    /** m_RefCount: the shared counter, or none. */
    var refCount: Counter?

    /** Default construction: a new counter holding 1. */
    constructor ()
      ensures refCount != null && fresh(refCount)
      ensures refCount.value == 1 && !refCount.freed
    {
      refCount := new Counter(1);
    }

    /** Wraps an existing counter and counts this holder. */
    constructor Wrap(c: Counter)
      modifies c
      ensures refCount == c && c.value == old(c.value) + 1 && c.freed == old(c.freed)
    {
      refCount := c;
      c.value := c.value + 1;
    }

    /** The handle holding no counter. */
    constructor Null()
      ensures refCount == null
    {
      refCount := null;
    }

    /** Copy construction: shares the counter and counts one more holder. */
    constructor Copy(other: ReferenceCounter)
      modifies other.refCount
      ensures refCount == other.refCount
      ensures refCount != null ==> refCount.value == old(other.refCount.value) + 1 && refCount.freed == old(other.refCount.freed)
    {
      refCount := other.refCount;
      new;
      OnCopy();
    }

    /** Move construction: takes the counter and leaves the source without one. */
    constructor Move(other: ReferenceCounter)
      modifies other
      ensures refCount == old(other.refCount) && other.refCount == null
    {
      refCount := other.refCount;
      new;
      other.refCount := null;
    }

    /** RefCount: the shared count, 0 without a counter. */
    function RefCount(): (r: int)
      reads this, refCount
      ensures refCount == null ==> r == 0
      ensures refCount != null ==> r == refCount.value
    {
      CountOf(refCount)
    }

    method OnCopy()
      modifies refCount
      ensures refCount != null ==> refCount.value == old(refCount.value) + 1 && refCount.freed == old(refCount.freed)
    {
      if refCount != null {
        refCount.value := refCount.value + 1;
      }
    }

    method OnDestroy()
      modifies refCount
      ensures refCount != null ==>
        (refCount.value, refCount.freed) == (Dropped(old(refCount.value)).0, old(refCount.freed) || Dropped(old(refCount.value)).1)
    {
      if refCount != null {
        refCount.value := refCount.value - 1;
        if refCount.value <= 0 {
          refCount.freed := true;
        }
      }
    }

    /** The destructor: one holder fewer; the counter is freed once the count drops to zero or below. */
    method Destroy()
      modifies refCount
      ensures refCount == old(refCount)
      ensures refCount != null ==>
        refCount.value == old(refCount.value) - 1 && refCount.freed == (old(refCount.freed) || old(refCount.value) <= 1)
    {
      OnDestroy();
    }

    /** Copy assignment: lets go of the held counter, then shares the other's; self-assignment changes nothing. */
    method CopyAssign(other: ReferenceCounter)
      modifies this, refCount, other.refCount
      ensures refCount == other.refCount
      ensures other == this ==> refCount == old(refCount) && (refCount != null ==> refCount.value == old(refCount.value) && refCount.freed == old(refCount.freed))
      ensures other != this && old(refCount) == other.refCount && refCount != null ==>
        refCount.value == old(refCount.value) && refCount.freed == (old(refCount.freed) || old(refCount.value) <= 1)
      ensures other != this && old(refCount) != other.refCount ==>
        (old(refCount) != null ==> old(refCount).value == old(refCount.value) - 1 && old(refCount).freed == (old(refCount.freed) || old(refCount.value) <= 1))
        && (refCount != null ==> refCount.value == old(other.refCount.value) + 1 && refCount.freed == old(other.refCount.freed))
    {
      if other == this {
        return;
      }
      OnDestroy();
      refCount := other.refCount;
      OnCopy();
    }

    /** Move assignment: lets go of the held counter and takes the other's; self-assignment changes nothing. */
    method MoveAssign(other: ReferenceCounter)
      modifies this, refCount, other
      ensures other == this ==> refCount == old(refCount) && (refCount != null ==> refCount.value == old(refCount.value))
      ensures other != this ==> refCount == old(other.refCount) && other.refCount == null
      ensures other != this && old(refCount) != null ==>
        old(refCount).value == old(refCount.value) - 1 && old(refCount).freed == (old(refCount.freed) || old(refCount.value) <= 1)
    {
      if other == this {
        return;
      }
      OnDestroy();
      refCount := other.refCount;
      other.refCount := null;
    }
  }

  /**
   * A handle created by default reads 1; a copy of it reads 2 on both
   * handles; after the copy is destroyed 1; after the original is
   * destroyed the counter is freed.
   */
  method CreateCopyDestroy() returns (postCreate: int, postCopy: int, copyCount: int, postCopyDestroy: int, freed: bool)
    ensures (postCreate, postCopy, copyCount, postCopyDestroy, freed) == (1, 2, 2, 1, true)
  {
    var original := new ReferenceCounter();
    postCreate := original.RefCount();
    var copy := new ReferenceCounter.Copy(original);
    postCopy, copyCount := original.RefCount(), copy.RefCount();
    copy.Destroy();
    postCopyDestroy := original.RefCount();
    original.Destroy();
    freed := original.refCount.freed;
  }

  /**
   * Moving a default handle leaves the source reading 0 and the new handle
   * reading 1; destroying the source then changes nothing and destroying
   * the new handle frees the counter.
   */
  method CreateMoveDestroy() returns (moved: int, source: int, afterSourceDestroy: int, freed: bool)
    ensures (moved, source, afterSourceDestroy, freed) == (1, 0, 1, true)
  {
    var original := new ReferenceCounter();
    var c := original.refCount;
    var target := new ReferenceCounter.Move(original);
    moved, source := target.RefCount(), original.RefCount();
    original.Destroy();
    afterSourceDestroy := target.RefCount();
    target.Destroy();
    freed := c.freed;
  }

  /**
   * Wrapping a counter created with count k reads k + 1; destroying the
   * handle frees the counter exactly when k is 0.
   */
  method WrapDestroy(k: int) returns (postCreate: int, postDestroy: int, freed: bool)
    ensures postCreate == k + 1 && postDestroy == k && freed == (k <= 0)
  {
    var cell := new Counter(k);
    var handle := new ReferenceCounter.Wrap(cell);
    postCreate := handle.RefCount();
    handle.Destroy();
    postDestroy, freed := cell.value, cell.freed;
  }
}
