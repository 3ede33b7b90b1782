/**
  The byte ring of common/RingBuffer.cpp used from one thread, as the connection classes do:
  a first-in first-out queue of bytes over an array that is mapped twice.
 */
module RingBuffers {
  import opened Bytes
  import opened Circular

  class RingBuffer {
    const capacity: nat
    var cells: array<byte>
    var readIdx: nat
    var writeIdx: nat

    ghost predicate Valid()
      reads this
    {
      && 0 < capacity < TWO_31 && cells.Length == capacity
      && readIdx <= capacity && readIdx <= writeIdx <= readIdx + capacity
    }

    /** The bytes written and not yet released, oldest first. */
    ghost function Contents(): (s: seq<byte>)
      requires Valid()
      reads this, cells
      ensures |s| == writeIdx - readIdx
    {
      View(cells[..], readIdx, writeIdx - readIdx)
    }

    /** The bytes at mapped positions at .. at + len. */
    ghost function Mapped(at: nat, len: nat): seq<byte>
      requires Valid()
      reads this, cells
    {
      View(cells[..], at, len)
    }

    constructor (pages: nat)
      requires 0 < pages < TWO_31
      ensures Valid() && fresh(cells) && capacity == pages && Contents() == []
    {
      capacity := pages;
      cells := new byte[pages];
      readIdx, writeIdx := 0, 0;
    }

    method ReadBuffer() returns (at: nat, len: nat)
      requires Valid()
      ensures at + len <= 2 * capacity
      ensures Mapped(at, len) == Contents()
    {
      var r := readIdx;
      var w := writeIdx;
      at, len := r, U32(w - r);
    }

    /** All the free space, as one contiguous stretch of the mapping, and no unread byte in it. */
    method WriteBuffer() returns (at: nat, len: nat)
      requires Valid()
      ensures at == writeIdx && len == capacity - |Contents()|
      ensures at + len <= 2 * capacity
    {
      var r := readIdx;
      var w := writeIdx;
      assert U32(w - r) <= capacity;  // with one thread the spin test passes at once
      at, len := w, U32(capacity - U32(w - r));
    }

    /** The caller's copy of `data` into a window it got from WriteBuffer. */
    method Fill(at: nat, data: seq<byte>)
      requires Valid() && at == writeIdx && |data| <= capacity - |Contents()|
      modifies cells
      ensures Valid() && Contents() == old(Contents())
      ensures Mapped(at, |data|) == data
    {
      var i := 0;
      while i < |data|
        invariant 0 <= i <= |data|
        invariant Contents() == old(Contents())
        invariant Mapped(at, i) == data[..i]
      {
        StoreOutside(cells[..], readIdx, writeIdx - readIdx, at + i, data[i]);
        StoreOutside(cells[..], at, i, at + i, data[i]);
        ghost var after := cells[..][(at + i) % capacity := data[i]];
        ViewSplit(after, at, i, 1);
        cells[(at + i) % capacity] := data[i];
        assert cells[..] == after;
        i := i + 1;
      }
    }

    method AdvanceWrite(increment: nat)
      requires Valid() && increment <= capacity - |Contents()|
      modifies this`writeIdx
      ensures Valid()
      ensures Contents() == old(Contents()) + Mapped(old(writeIdx), increment)
    {
      ViewSplit(cells[..], readIdx, writeIdx - readIdx, increment);
      writeIdx := U32(writeIdx + increment);
    }

    method AdvanceRead(increment: nat)
      requires Valid() && increment <= |Contents()|
      modifies this`readIdx, this`writeIdx
      ensures Valid()
      ensures Contents() == old(Contents())[increment..]
    {
      ViewSplit(cells[..], readIdx, increment, writeIdx - readIdx - increment);
      var r := readIdx;
      r := U32(r + increment);
      if r > capacity {
        SameCellsNextLap(cells[..], r - capacity, writeIdx - r);
        readIdx := U32(readIdx - U32(capacity - increment));
        writeIdx := U32(writeIdx - capacity);
      } else {
        readIdx := U32(readIdx + increment);
      }
    }
  }
}
