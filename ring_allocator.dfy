/*
 * RingAllocator (RingAllocator.hpp): a pool of elementCount slots of
 * elementSize bytes each, handed out in turn; a slot is reused once the
 * write index has gone round the ring, and nothing is ever freed.
 *
 * Addresses are naturals: the pool's address is what the backing allocator
 * returned for poolByteCount bytes, passed to the constructor.
 */
module RingAllocators {

  import opened Wrappers
  import TUMaths

  /** The slot the next allocation uses, from write index k: index k, or 0 once k reached the count. */
  function SlotOf(k: nat, count: nat): (r: nat)
    ensures count >= 1 ==> r < count
    ensures r <= k
  {
    if k >= count then 0 else k
  }

  /** The write index after n successful allocations starting from write index k. */
  function Advance(k: nat, count: nat, n: nat): (r: nat)
    ensures n >= 1 ==> 1 <= r
    ensures count >= 1 && k <= count ==> r <= count
    decreases n
  {
    if n == 0 then k else Advance(SlotOf(k, count) + 1, count, n - 1)
  }

  class RingAllocator {
    var writeIndex: nat
    const poolElementCount: nat
    const elementSize: nat
    const poolByteCount: nat
    const pool: nat

    /** The write index never passes the element count (or 1, for an empty pool). */
    ghost predicate Valid()
      reads this
    {
      writeIndex <= if poolElementCount == 0 then 1 else poolElementCount
    }

    /** The slot the next allocation uses. */
    function NextSlot(): (r: nat)
      reads this
      ensures poolElementCount >= 1 ==> r < poolElementCount
    {
      SlotOf(writeIndex, poolElementCount)
    }

    /**
     * The element size is aligned up to the alignment, and the pool holds
     * elementCount of them (a 64-bit product); the pool comes from the
     * backing allocator.
     */
    constructor(elementSize: TUMaths.U64, elementCount: TUMaths.U64, alignment: TUMaths.U64, pool: nat)
      requires alignment != 0
      ensures Valid() && writeIndex == 0
      ensures poolElementCount == elementCount
      ensures this.elementSize == TUMaths.AlignToAny(elementSize, alignment)
      ensures poolByteCount == (this.elementSize * elementCount) % TUMaths.TwoTo64
      ensures this.pool == pool
    {
      writeIndex := 0;
      poolElementCount := elementCount;
      this.elementSize := TUMaths.AlignToAny(elementSize, alignment);
      poolByteCount := (TUMaths.AlignToAny(elementSize, alignment) * elementCount) % TUMaths.TwoTo64;
      this.pool := pool;
    }

    /**
     * Allocate: null for a request larger than an element, leaving the
     * ring as it is; otherwise the next slot's address, and the write index
     * moves past that slot.
     */
    method Allocate(size: nat) returns (r: Option<nat>)
      requires Valid()
      modifies this
      ensures Valid()
      ensures size > elementSize ==> r == None && writeIndex == old(writeIndex)
      ensures size <= elementSize ==> r == Some(pool + elementSize * old(NextSlot()))
      ensures size <= elementSize ==> writeIndex == Advance(old(writeIndex), poolElementCount, 1)
    {
      if size > elementSize {
        return None;
      }
      if writeIndex >= poolElementCount {
        writeIndex := 0;
      }
      var writeIndexTmp := writeIndex;
      writeIndex := writeIndex + 1;
      r := Some(pool + elementSize * writeIndexTmp);
    }

    /** Deallocate: nothing is freed. */
    method Deallocate(obj: nat)
      ensures writeIndex == old(writeIndex)
    {
    }
  }

  // ---------------------------------------------------------------------
  // The ring

  /** After n allocations the next slot is n places further round the ring. */
  lemma {:induction false} SlotAfter(k: nat, count: nat, n: nat)
    requires count >= 1 && k <= count
    ensures SlotOf(Advance(k, count, n), count) == (SlotOf(k, count) + n) % count
    decreases n
  {
    var s := SlotOf(k, count);
    if n == 0 {
      ModSmall(s, count);
    } else {
      SlotAfter(s + 1, count, n - 1);
      assert SlotOf(s + 1, count) == (s + 1) % count by { ModStep(s, count); }
      ModAddOne(s, n - 1, count);
    }
  }

  lemma ModSmall(x: nat, count: nat)
    requires x < count
    ensures x % count == x
  {
    TUMaths.DivModUnique(x, count, 0, x);
  }

  lemma ModStep(s: nat, count: nat)
    requires s < count
    ensures SlotOf(s + 1, count) == (s + 1) % count
  {
    if s + 1 == count {
      TUMaths.DivModUnique(s + 1, count, 1, 0);
    } else {
      ModSmall(s + 1, count);
    }
  }

  lemma ModAddOne(s: nat, m: nat, count: nat)
    requires count >= 1
    ensures ((s + 1) % count + m) % count == (s + m + 1) % count
  {
    var q, r := (s + 1) / count, (s + 1) % count;
    var q2, r2 := (r + m) / count, (r + m) % count;
    assert s + 1 == count * q + r;
    assert r + m == count * q2 + r2;
    assert s + m + 1 == count * (q + q2) + r2;
    TUMaths.DivModUnique(s + m + 1, count, q + q2, r2);
  }

  lemma ModPeriod(x: nat, count: nat)
    requires count >= 1
    ensures (x + count) % count == x % count
  {
    var q, r := x / count, x % count;
    assert x == count * q + r;
    assert x + count == count * (q + 1) + r;
    TUMaths.DivModUnique(x + count, count, q + 1, r);
  }

  lemma ModShift(x: nat, d: nat, count: nat)
    requires 0 < d < count
    ensures (x + d) % count != x % count
  {
    var q, r := x / count, x % count;
    assert x == count * q + r;
    if r + d < count {
      assert x + d == count * q + (r + d);
      TUMaths.DivModUnique(x + d, count, q, r + d);
    } else {
      assert x + d == count * (q + 1) + (r + d - count);
      TUMaths.DivModUnique(x + d, count, q + 1, r + d - count);
    }
  }

  /** The slots repeat with period elementCount. */
  lemma SlotsRepeat(k: nat, count: nat, n: nat)
    requires count >= 1 && k <= count
    ensures SlotOf(Advance(k, count, n + count), count) == SlotOf(Advance(k, count, n), count)
  {
    SlotAfter(k, count, n);
    SlotAfter(k, count, n + count);
    ModPeriod(SlotOf(k, count) + n, count);
  }

  /** Within one turn of the ring no slot is handed out twice. */
  lemma DistinctWithinTurn(k: nat, count: nat, m: nat, n: nat)
    requires count >= 1 && k <= count && m < n < count
    ensures SlotOf(Advance(k, count, m), count) != SlotOf(Advance(k, count, n), count)
  {
    SlotAfter(k, count, m);
    SlotAfter(k, count, n);
    var x := SlotOf(k, count) + m;
    assert SlotOf(k, count) + n == x + (n - m);
    ModShift(x, n - m, count);
  }

  /** Three slots of 12 bytes aligned to 8: 16-byte slots, handed out in turn and reused. */
  method RingScenario(pool: nat)
  {
    var ring := new RingAllocator(12, 3, 8, pool);
    assert ring.elementSize == 16 && ring.poolByteCount == 48;
    var a := ring.Allocate(16);
    var b := ring.Allocate(20);
    var c := ring.Allocate(1);
    var d := ring.Allocate(16);
    var e := ring.Allocate(16);
    assert a == Some(pool) && b == None && c == Some(pool + 16) && d == Some(pool + 32);
    assert e == Some(pool);
  }
}
