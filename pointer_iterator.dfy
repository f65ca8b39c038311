/** The element pointer iterator of
    `ncstd_iterator/src/iterators/pointer_iterator.c`: a cursor that steps
    through `length` objects of `objectSize` bytes from `start` and returns
    the address of each. The ghost fields remember where the iteration
    started, how long it is and how many addresses it has returned. */
module PointerIterators {
  import opened Memory

  /** With objects of a positive size, the `calls`-th object starts before
      the end exactly while fewer than `length` have been returned. */
  lemma CursorBeforeEnd(start: nat, calls: nat, length: nat, objectSize: nat)
    requires objectSize > 0
    ensures start + calls * objectSize < start + length * objectSize <==> calls < length
  {
    if calls < length {
      assert (calls + 1) * objectSize <= length * objectSize by {
        MulMonotonic(calls + 1, length, objectSize);
      }
    } else {
      MulMonotonic(length, calls, objectSize);
    }
  }

  class PointerIterator {
    var current: Addr
    const end: Addr
    const objectSize: nat
    ghost const start: Addr
    ghost const length: nat
    ghost var calls: nat

    ghost predicate Valid()
      reads this
    {
      end == start + length * objectSize && current == start + calls * objectSize
    }

    /** `nc_pointer_iterator_init`: iterates over `length` objects of
        `objectSize` bytes from `start`. */
    constructor Init(start: Addr, length: nat, objectSize: nat)
      ensures Valid() && this.start == start && this.length == length && calls == 0
      ensures current == start && end == start + length * objectSize && this.objectSize == objectSize
    {
      current := start;
      end := start + length * objectSize;
      this.objectSize := objectSize;
      this.start := start;
      this.length := length;
      calls := 0;
    }

    /** A copy of the iterator's bytes, as `nc_iterator_create` makes of the
        iterator it wraps. */
    constructor Copy(other: PointerIterator)
      requires other.Valid()
      ensures Valid() && current == other.current && end == other.end && objectSize == other.objectSize
      ensures start == other.start && length == other.length && calls == other.calls
    {
      current := other.current;
      end := other.end;
      objectSize := other.objectSize;
      start := other.start;
      length := other.length;
      calls := other.calls;
    }

    /** `nc_pointer_iterator_next`: at the end, null and no move; otherwise
        the cursor, which then moves on by one object. With objects of a
        positive size, the call numbered `k` (from 0) returns
        `start + k * objectSize` while `k < length`, and null afterwards. */
    method Next() returns (r: Addr)
      requires Valid()
      modifies this
      ensures Valid()
      ensures old(current) >= end ==> r == NULL && current == old(current) && calls == old(calls)
      ensures old(current) < end ==> r == old(current) && current == old(current) + objectSize && calls == old(calls) + 1
      ensures objectSize > 0 && old(calls) < length ==> r == start + old(calls) * objectSize && calls == old(calls) + 1
      ensures objectSize > 0 && old(calls) >= length ==> r == NULL && calls == old(calls)
    {
      if objectSize > 0 {
        CursorBeforeEnd(start, calls, length, objectSize);
      }
      if current >= end {
        return NULL;
      }
      var next := current;
      current := current + objectSize;
      calls := calls + 1;
      return next;
    }
  }
}
