/*
 * ArrayList<T, MemCopy> (ArrayList.hpp): a list whose control block and
 * elements share one reservation of pages; pages are committed as the data
 * grows and released as it shrinks.
 *
 * The control block is the value Control: element count, bytes in use
 * (control block included), committed page count, and the set of page
 * indices the operating system has committed.  Page i of the reservation
 * starts i * pageSize bytes after the control block's address.
 */
module ArrayLists {

  import opened Wrappers

  const Word: nat := 0x1_0000_0000_0000_0000

  /** sizeof(ControlBlock): the control block is a 64-byte union. */
  const ControlBlockSize: nat := 64

  datatype Control = Control(count: nat, dataSize: nat, committedPages: nat, committed: set<nat>)

  /** The page indices lo .. hi - 1. */
  function Range(lo: nat, hi: nat): (r: set<nat>)
    ensures forall i: nat :: i in r <==> lo <= i < hi
    decreases hi - lo
  {
    if lo >= hi then {} else {lo} + Range(lo + 1, hi)
  }

  /** The page indices 0 .. n - 1. */
  function Pages(n: nat): (r: set<nat>)
    ensures forall i: nat :: i in r <==> i < n
  {
    Range(0, n)
  }

  /**
   * The intended bookkeeping: the bytes in use are the control block and
   * the elements, the pages 0 .. committedPages - 1 are exactly the
   * committed ones, and every byte in use lies in a committed page.
   */
  ghost predicate Sound(c: Control, size: nat, page: nat)
  {
    c.committedPages >= 1
    && c.dataSize == ControlBlockSize + c.count * size
    && c.committed == Pages(c.committedPages)
    && c.dataSize <= c.committedPages * page
  }

  /** The control block of a new list: page 0 committed, no elements. */
  function Fresh(): (r: Control)
    ensures r.count == 0 && r.committed == {0}
  {
    Control(0, ControlBlockSize, 1, {0})
  }

  /** assertSize followed by the counter updates of add, emplace and placement. */
  function Grow(c: Control, size: nat, page: nat): (r: Control)
    ensures r.count == c.count + 1 && r.dataSize == c.dataSize + size
  {
    var pageBytes := c.committedPages * page;
    var checked :=
      if c.dataSize + size >= pageBytes
      then c.(committedPages := c.committedPages + 1, committed := c.committed + {c.committedPages})
      else c;
    checked.(count := c.count + 1, dataSize := c.dataSize + size)
  }

  /**
   * attemptRelease: release the last committed page when the distance from
   * the end of the data to that page, computed in 64-bit unsigned
   * arithmetic, is at most one page.
   */
  function Release(c: Control, page: nat): (r: Control)
    requires c.committedPages >= 1
    ensures r.count == c.count && r.dataSize == c.dataSize
    ensures r == c || (r.committedPages == c.committedPages - 1 && r.committed == c.committed - {c.committedPages - 1})
  {
    var pageBytes := (c.committedPages - 1) * page;
    if (pageBytes - c.dataSize) % Word <= page
    then c.(committedPages := c.committedPages - 1, committed := c.committed - {c.committedPages - 1})
    else c
  }

  /** The counter updates of remove and removeFast for an index in range. */
  function Shrink(c: Control, size: nat, page: nat): (r: Control)
    requires c.count >= 1 && c.dataSize >= size && c.committedPages >= 1
    ensures r.count == c.count - 1 && r.dataSize == c.dataSize - size
  {
    Release(c.(count := c.count - 1, dataSize := c.dataSize - size), page)
  }

  /** The counter updates of remove and removeFast as the source writes them. */
  function ShrinkAsWritten(c: Control, index: nat, size: nat, page: nat): (r: Control)
    requires index < c.count && c.dataSize >= size && c.committedPages >= 1
    ensures r.count == c.count - 1
  {
    var counted := c.(count := c.count - 1);
    if index == counted.count then counted
    else Release(counted.(dataSize := c.dataSize - size), page)
  }

  /** clear: no elements; with releasePages, every page after the first is released. */
  function Cleared(c: Control, releasePages: bool): (r: Control)
    ensures r.count == 0 && r.dataSize == ControlBlockSize
  {
    if releasePages
    then Control(0, ControlBlockSize, 1, c.committed - Range(1, c.committedPages))
    else c.(count := 0, dataSize := ControlBlockSize)
  }

  /**
   * clear as the source writes it: the release starts at ControlBlock
   * pointer + pageSize, which is page 64 (ControlBlockSize pages in), and
   * committedPages is not reset.
   */
  function ClearAsWritten(c: Control, releasePages: bool): (r: Control)
    ensures r.count == 0 && r.dataSize == ControlBlockSize && r.committedPages == c.committedPages
  {
    var cleared := c.(count := 0, dataSize := ControlBlockSize);
    if releasePages
    then cleared.(committed := c.committed - Range(ControlBlockSize, ControlBlockSize + c.committedPages - 1))
    else cleared
  }

  /** The pages the constructor reserves as the source computes them. */
  function ReservedPagesAsWritten(maxElements: nat, size: nat, page: nat): nat
    requires page > 0
  {
    (maxElements * size) / page + 1
  }

  /** The pages needed for the control block and maxElements elements. */
  function ReservedPages(maxElements: nat, size: nat, page: nat): (r: nat)
    requires page > 0
    ensures r * page >= ControlBlockSize + maxElements * size
    ensures r * page < ControlBlockSize + maxElements * size + page
  {
    (ControlBlockSize + maxElements * size + page - 1) / page
  }

  /** The elements that fit in a reservation of `pages` pages after the control block. */
  function Capacity(pages: nat, size: nat, page: nat): nat
    requires size > 0
  {
    if pages * page < ControlBlockSize then 0 else (pages * page - ControlBlockSize) / size
  }

  // ---------------------------------------------------------------------
  // Element sequences

  /** remove(i): the elements after i move down by one. */
  function Removed<T>(s: seq<T>, i: nat): (r: seq<T>)
    requires i < |s|
    ensures |r| == |s| - 1
    ensures forall k :: 0 <= k < i ==> r[k] == s[k]
    ensures forall k :: i <= k < |r| ==> r[k] == s[k + 1]
  {
    s[..i] + s[i + 1..]
  }

  /** removeFast(i): the last element takes slot i. */
  function SwapRemoved<T>(s: seq<T>, i: nat): (r: seq<T>)
    requires i < |s|
    ensures |r| == |s| - 1
  {
    if i == |s| - 1 then s[..i] else s[..i] + [s[|s| - 1]] + s[i + 1..|s| - 1]
  }

  // ---------------------------------------------------------------------
  // Lemmas

  lemma FreshSound(size: nat, page: nat)
    requires page >= ControlBlockSize
    ensures Sound(Fresh(), size, page)
  {
  }

  lemma MulSucc(a: nat, b: nat)
    ensures (a + 1) * b == a * b + b
  {
  }

  /** add keeps the bookkeeping sound when an element fits in a page. */
  lemma GrowSound(c: Control, size: nat, page: nat)
    requires Sound(c, size, page) && size <= page
    ensures Sound(Grow(c, size, page), size, page)
  {
    MulSucc(c.count, size);
    MulSucc(c.committedPages, page);
  }

  /** An element larger than a page outgrows the single page assertSize commits. */
  lemma GrowLargeElement(page: nat)
    requires page >= ControlBlockSize
    ensures !Sound(Grow(Fresh(), 2 * page, page), 2 * page, page)
  {
  }

  lemma ReleaseSound(c: Control, size: nat, page: nat)
    requires Sound(c, size, page) && 0 < page < 0x1_0000_0000
    ensures Sound(Release(c, page), size, page)
  {
    var pageBytes := (c.committedPages - 1) * page;
    MulSucc(c.committedPages - 1, page);
    if (pageBytes - c.dataSize) % Word <= page {
      assert c.dataSize <= pageBytes;
      assert Pages(c.committedPages) - {c.committedPages - 1} == Pages(c.committedPages - 1);
    }
  }

  /** remove and removeFast keep the bookkeeping sound. */
  lemma ShrinkSound(c: Control, size: nat, page: nat)
    requires Sound(c, size, page) && c.count >= 1 && 0 < page < 0x1_0000_0000
    ensures c.dataSize >= size
    ensures Sound(Shrink(c, size, page), size, page)
  {
    MulSucc(c.count - 1, size);
    ReleaseSound(c.(count := c.count - 1, dataSize := c.dataSize - size), size, page);
  }

  /** Removing the last element as written leaves its bytes counted. */
  lemma ShrinkAsWrittenLast(c: Control, size: nat, page: nat)
    requires Sound(c, size, page) && c.count >= 1 && size > 0
    ensures c.dataSize >= size
    ensures !Sound(ShrinkAsWritten(c, c.count - 1, size, page), size, page)
  {
    MulSucc(c.count - 1, size);
  }

  lemma ClearSound(c: Control, releasePages: bool, size: nat, page: nat)
    requires Sound(c, size, page) && ControlBlockSize <= page
    ensures Sound(Cleared(c, releasePages), size, page)
  {
    if releasePages {
      assert c.committed - Range(1, c.committedPages) == Pages(1);
    }
  }

  /**
   * After clear(true) as written on a list of 66 committed pages, page 64 is
   * released while committedPages still counts it as committed.
   */
  lemma ClearAsWrittenReleasesLivePage(c: Control, size: nat, page: nat)
    requires Sound(c, size, page) && c.committedPages == 66
    ensures ClearAsWritten(c, true).committedPages == 66
    ensures ControlBlockSize !in ClearAsWritten(c, true).committed
  {
  }

  /** The source's reservation can be too small for maxElements elements. */
  lemma ReservationAsWrittenShort()
    ensures ReservedPagesAsWritten(1023, 8, 4096) == 2
    ensures Capacity(ReservedPagesAsWritten(1023, 8, 4096), 8, 4096) == 1016
  {
  }

  /** The corrected reservation holds maxElements elements. */
  lemma ReservationHolds(maxElements: nat, size: nat, page: nat)
    requires size > 0 && page > 0
    ensures Capacity(ReservedPages(maxElements, size, page), size, page) >= maxElements
  {
    var pages := ReservedPages(maxElements, size, page);
    assert pages * page - ControlBlockSize >= maxElements * size;
    DivAtLeast(pages * page - ControlBlockSize, maxElements, size);
  }

  lemma DivAtLeast(x: nat, n: nat, d: nat)
    requires d > 0 && x >= n * d
    ensures x / d >= n
  {
    var q := x / d;
    assert x == q * d + x % d;
    MulSucc(q, d);
    if q < n {
      MulMonotone(q + 1, n, d);
    }
  }

  lemma MulMonotone(a: nat, b: nat, c: nat)
    requires a <= b
    ensures a * c <= b * c
  {
    var d: nat := b - a;
    assert b * c == a * c + d * c;
  }

  /** The guard of remove and removeFast: index + 1 in 64-bit arithmetic. */
  predicate OutOfRangeAsWritten(index: nat, count: nat)
    requires index < Word
  {
    (index + 1) % Word > count
  }

  /** The largest 64-bit index passes the guard, whatever the count. */
  lemma GuardAsWrittenWraps(count: nat)
    ensures !OutOfRangeAsWritten(Word - 1, count)
  {
  }

  /** The intended guard rejects exactly the indices at or beyond the count. */
  lemma GuardRejectsBeyond(index: nat, count: nat)
    requires index < Word - 1
    ensures OutOfRangeAsWritten(index, count) <==> index >= count
  {
  }

  /** Appending and then removing the last element gives the elements back. */
  lemma RemoveUndoesAppend<T>(s: seq<T>, x: T)
    ensures Removed(s + [x], |s|) == s
    ensures SwapRemoved(s + [x], |s|) == s
  {
    assert (s + [x])[..|s|] == s;
  }

  /** Moving the last element y into the place of x loses exactly x. */
  lemma SwapOut<T>(front: seq<T>, middle: seq<T>, x: T, y: T)
    ensures multiset(front + [y] + middle) == multiset(front + [x] + middle + [y]) - multiset{x}
  {
  }

  lemma Decompose<T>(s: seq<T>, i: nat)
    requires i < |s| - 1
    ensures s == s[..i] + [s[i]] + s[i + 1..|s| - 1] + [s[|s| - 1]]
  {
  }

  /** removeFast loses exactly the removed element. */
  lemma SwapRemovedMultiset<T>(s: seq<T>, i: nat)
    requires i < |s|
    ensures multiset(SwapRemoved(s, i)) == multiset(s) - multiset{s[i]}
  {
    var n := |s| - 1;
    if i < n {
      Decompose(s, i);
      SwapOut(s[..i], s[i + 1..n], s[i], s[n]);
    } else {
      assert s == s[..i] + [s[i]];
    }
  }

  /** remove keeps the order of the remaining elements. */
  lemma RemovedMultiset<T>(s: seq<T>, i: nat)
    requires i < |s|
    ensures multiset(Removed(s, i)) == multiset(s) - multiset{s[i]}
  {
    assert s == s[..i] + [s[i]] + s[i + 1..];
  }

  // ---------------------------------------------------------------------
  // The list object

  class ArrayList<T> {
    /** sizeof(T). */
    const size: nat
    /** The operating system's page size, a 32-bit DWORD. */
    const page: nat
    /** The control block. */
    var ctrl: Control
    /** The element storage the reservation holds after the control block. */
    const arr: array<T>

    ghost predicate Valid()
      reads this
    {
      Sound(ctrl, size, page) && ctrl.count <= arr.Length
      && 0 < size <= page < 0x1_0000_0000 && ControlBlockSize <= page
    }

    ghost function Elements(): seq<T>
      reads this, arr
      requires ctrl.count <= arr.Length
    {
      arr[..ctrl.count]
    }

    /** Reserves room for maxElements elements and commits the control block's page. */
    constructor (maxElements: nat, size: nat, page: nat, blank: T)
      requires 0 < size <= page < 0x1_0000_0000 && ControlBlockSize <= page
      ensures Valid() && this.size == size && this.page == page
      ensures ctrl == Fresh() && Elements() == []
      ensures arr.Length >= maxElements
    {
      this.size := size;
      this.page := page;
      var pages := ReservedPages(maxElements, size, page);
      ReservationHolds(maxElements, size, page);
      arr := new T[Capacity(pages, size, page)](_ => blank);
      ctrl := Fresh();
      FreshSound(size, page);
    }

    /** Stores val at index count and counts it. */
    method Add(val: T)
      requires Valid() && ctrl.count < arr.Length
      modifies this, arr
      ensures Valid()
      ensures ctrl == Grow(old(ctrl), size, page)
      ensures Elements() == old(Elements()) + [val]
    {
      GrowSound(ctrl, size, page);
      arr[ctrl.count] := val;
      ctrl := Grow(ctrl, size, page);
    }

    /** Constructs val in the slot at index count; returns that index. */
    method Emplace(val: T) returns (index: nat)
      requires Valid() && ctrl.count < arr.Length
      modifies this, arr
      ensures Valid()
      ensures index == old(ctrl.count)
      ensures ctrl == Grow(old(ctrl), size, page)
      ensures Elements() == old(Elements()) + [val]
    {
      GrowSound(ctrl, size, page);
      index := ctrl.count;
      arr[index] := val;
      ctrl := Grow(ctrl, size, page);
    }

    /** Hands out the slot at index count, left as it was, and counts it. */
    method Placement() returns (index: nat)
      requires Valid() && ctrl.count < arr.Length
      modifies this
      ensures Valid()
      ensures index == old(ctrl.count)
      ensures ctrl == Grow(old(ctrl), size, page)
      ensures Elements() == old(Elements()) + [arr[index]]
    {
      GrowSound(ctrl, size, page);
      index := ctrl.count;
      ctrl := Grow(ctrl, size, page);
    }

    /** Moves the last element into slot index; an index at or beyond the count changes nothing. */
    method RemoveFast(index: nat)
      requires Valid()
      modifies this, arr
      ensures Valid()
      ensures index >= old(ctrl.count) ==> ctrl == old(ctrl) && Elements() == old(Elements())
      ensures index < old(ctrl.count) ==>
        ctrl == Shrink(old(ctrl), size, page) && Elements() == SwapRemoved(old(Elements()), index)
    {
      if index >= ctrl.count {
        return;
      }
      ShrinkSound(ctrl, size, page);
      ghost var before := Elements();
      var last := ctrl.count - 1;
      if index != last {
        arr[index] := arr[last];
      }
      ctrl := Shrink(ctrl, size, page);
      assert Elements() == SwapRemoved(before, index);
    }

    /** Moves the elements after index down by one; an index at or beyond the count changes nothing. */
    method Remove(index: nat)
      requires Valid()
      modifies this, arr
      ensures Valid()
      ensures index >= old(ctrl.count) ==> ctrl == old(ctrl) && Elements() == old(Elements())
      ensures index < old(ctrl.count) ==>
        ctrl == Shrink(old(ctrl), size, page) && Elements() == Removed(old(Elements()), index)
    {
      if index >= ctrl.count {
        return;
      }
      ShrinkSound(ctrl, size, page);
      ghost var before := Elements();
      var last := ctrl.count - 1;
      forall k | index <= k < last {
        arr[k] := arr[k + 1];
      }
      ctrl := Shrink(ctrl, size, page);
      assert Elements() == Removed(before, index);
    }

    /** Forgets every element; with releasePages, releases every page after the first. */
    method Clear(releasePages: bool)
      requires Valid()
      modifies this
      ensures Valid()
      ensures ctrl == Cleared(old(ctrl), releasePages)
      ensures Elements() == []
    {
      ClearSound(ctrl, releasePages, size, page);
      ctrl := Cleared(ctrl, releasePages);
    }

    /** The element at index, or None (the null pointer) at or beyond the count. */
    method At(index: nat) returns (r: Option<T>)
      requires Valid()
      ensures index < |Elements()| ==> r == Some(Elements()[index])
      ensures index >= |Elements()| ==> r == None
    {
      if index >= ctrl.count {
        return None;
      }
      return Some(arr[index]);
    }
  }
}
