/**
 * LockFreeFifo<T>: a fixed-size single-producer/single-consumer ring buffer.
 *
 * The buffer is a vector of `size` slots, indexed through a juce::AbstractFifo of the same
 * size. AbstractFifo keeps two cursors, validStart (next slot to read) and validEnd (next slot
 * to write), both below `size`, and always leaves one slot free so that a full buffer can be
 * told from an empty one: a LockFreeFifo(size) holds at most size - 1 items.
 * Every operation moves one item, so the two-region split of prepareToWrite/prepareToRead
 * always yields its first region, starting at the cursor.
 */
module LockFreeFifos {
  import opened Wrappers

  /** The contents after pushing `x`: appended when fewer than `capacity` items are stored. */
  function Pushed<T>(s: seq<T>, x: T, capacity: nat): seq<T> {
    if |s| < capacity then s + [x] else s
  }

  class LockFreeFifo<T(0)> {
    const size: nat
    const buffer: array<T>
    var validStart: nat
    var validEnd: nat
    ghost var Contents: seq<T>

    /** The slot holding the i-th stored item: i places after validStart, wrapping at `size`. */
    ghost function Slot(i: nat): int
      reads this
    {
      if validStart + i < size then validStart + i else validStart + i - size
    }

    /**
     * The cursors are slots of the buffer, fewer than `size` items are stored, validEnd is the
     * slot after the last item, and the i-th item sits in Slot(i).
     */
    ghost predicate Valid()
      reads this, buffer
    {
      && 0 < size == buffer.Length
      && validStart < size
      && validEnd < size
      && |Contents| < size
      && validEnd == Slot(|Contents|)
      && forall i :: 0 <= i < |Contents| ==> 0 <= Slot(i) < size && Contents[i] == buffer[Slot(i)]
    }

    /** The most items the FIFO can hold; fixed at construction. */
    function Capacity(): nat
      requires 0 < size
    {
      size - 1
    }

    constructor (size: nat)
      requires size > 0
      ensures Valid() && fresh(buffer)
      ensures this.size == size && Contents == []
    {
      this.size := size;
      buffer := new T[size];
      validStart, validEnd := 0, 0;
      Contents := [];
    }

    /** getNumItems (AbstractFifo::getNumReady): the number of stored items, never above Capacity(). */
    function GetNumItems(): (n: nat)
      reads this, buffer
      requires Valid()
      ensures n == |Contents|
      ensures n <= Capacity()
    {
      if validEnd >= validStart then validEnd - validStart else size - (validStart - validEnd)
    }

    /** push: false, and nothing stored, when full; otherwise the item goes to the back. */
    method Push(item: T) returns (ok: bool)
      requires Valid()
      modifies this, buffer
      ensures Valid()
      ensures ok <==> |old(Contents)| < Capacity()
      ensures Contents == Pushed(old(Contents), item, Capacity())
      ensures !ok ==> unchanged(this, buffer)
    {
      // one slot stays free, so at most freeSpace - 1 items fit, written at validEnd
      var freeSpace := if validEnd >= validStart then size - (validEnd - validStart) else validStart - validEnd;
      var numToWrite := if freeSpace - 1 < 1 then freeSpace - 1 else 1;
      if numToWrite <= 0 {
        return false;
      }
      buffer[validEnd] := item;
      // the write cursor moves on one slot
      validEnd := if validEnd + 1 >= size then validEnd + 1 - size else validEnd + 1;
      Contents := Contents + [item];
      ok := true;
    }

    /** pop: None when empty, otherwise the oldest item, which leaves the FIFO. */
    method Pop() returns (item: Option<T>)
      requires Valid()
      modifies this
      ensures Valid()
      ensures old(Contents) == [] ==> item == None && unchanged(this)
      ensures old(Contents) != [] ==> item == Some(old(Contents)[0]) && Contents == old(Contents)[1..]
    {
      // at most numReady items can be read, starting at validStart
      var numReady := GetNumItems();
      if numReady <= 0 {
        return None;
      }
      item := Some(buffer[validStart]);
      // the read cursor moves on one slot
      validStart := if validStart + 1 >= size then validStart + 1 - size else validStart + 1;
      Contents := Contents[1..];
    }

    /** clear (AbstractFifo::reset): both cursors back to 0, so nothing is stored. */
    method Clear()
      requires Valid()
      modifies this
      ensures Valid()
      ensures Contents == []
    {
      validStart, validEnd := 0, 0;
      Contents := [];
    }
  }

  /** Pushing items that fit appends them all, in order. */
  method PushAll<T(0)>(fifo: LockFreeFifo<T>, xs: seq<T>)
    requires fifo.Valid() && |fifo.Contents| + |xs| <= fifo.Capacity()
    modifies fifo, fifo.buffer
    ensures fifo.Valid() && fifo.Contents == old(fifo.Contents) + xs
  {
    var i := 0;
    while i < |xs|
      invariant 0 <= i <= |xs|
      invariant fifo.Valid() && fifo.Contents == old(fifo.Contents) + xs[..i]
    {
      var ok := fifo.Push(xs[i]);
      assert xs[..i + 1] == xs[..i] + [xs[i]];
      i := i + 1;
    }
    assert xs[..i] == xs;
  }

  /** Popping while getNumItems() > 0 yields every stored item, oldest first, and empties the FIFO. */
  method PopAll<T(0)>(fifo: LockFreeFifo<T>) returns (out: seq<T>)
    requires fifo.Valid()
    modifies fifo
    ensures fifo.Valid() && fifo.Contents == []
    ensures out == old(fifo.Contents)
  {
    out := [];
    while fifo.GetNumItems() > 0
      invariant fifo.Valid()
      invariant out + fifo.Contents == old(fifo.Contents)
      decreases |fifo.Contents|
    {
      var item := fifo.Pop();
      out := out + [item.value];
    }
  }

  /** Items pushed into an empty FIFO come out of it in the order they went in. */
  method PushAllThenPopAll<T(0)>(fifo: LockFreeFifo<T>, xs: seq<T>) returns (out: seq<T>)
    requires fifo.Valid() && fifo.Contents == [] && |xs| <= fifo.Capacity()
    modifies fifo, fifo.buffer
    ensures fifo.Valid() && fifo.Contents == []
    ensures out == xs
  {
    PushAll(fifo, xs);
    out := PopAll(fifo);
  }
}
