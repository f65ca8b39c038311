/** The unsafe raw buffer of `ncstd_core/src/containers/unsafe/raw_buffer.c`:
    a heap block of `capacity` objects of `objectSize` bytes each. The object
    size is passed again on every call and must be the one the buffer was
    created with; the model keeps it as a ghost constant and every operation
    requires the argument to match it. Pointers into the block are byte
    offsets into `data`; a null pointer is `None`. */
module RawBuffers {
  import opened Wrappers
  import opened Memory

  /** The bytes of object `index` in a block of objects of `size` bytes. */
  ghost function Element(s: seq<Byte>, index: nat, size: nat): seq<Byte>
    requires (index + 1) * size <= |s|
  {
    s[index * size..(index + 1) * size]
  }

  /** Writing object `index` with `set_unchecked` makes `get` read it back
      there and leaves every other object of the block as it was. */
  lemma ElementOverwrite(s: seq<Byte>, index: nat, size: nat, item: seq<Byte>, other: nat)
    requires |item| == size && (index + 1) * size <= |s| && (other + 1) * size <= |s|
    ensures Element(Overwrite(s, index * size, item), index, size) == item
    ensures other != index ==> Element(Overwrite(s, index * size, item), other, size) == Element(s, other, size)
  {
    NextObject(index, size);
    NextObject(other, size);
    if other != index {
      ObjectsDisjoint(index, other, size);
      OverwriteElsewhere(s, index * size, item, other * size, (other + 1) * size);
    }
  }

  /** Object `index + 1` starts where object `index` ends. */
  lemma NextObject(index: nat, size: nat)
    ensures (index + 1) * size == index * size + size
  {
  }

  /** Two different objects do not overlap. */
  lemma ObjectsDisjoint(index: nat, other: nat, size: nat)
    requires index != other
    ensures (other + 1) * size <= index * size || (index + 1) * size <= other * size
  {
    if other < index {
      MulMonotonic(other + 1, index, size);
    } else {
      MulMonotonic(index + 1, other, size);
    }
  }

  /** Overwriting bytes leaves a range outside them unchanged. */
  lemma OverwriteElsewhere(s: seq<Byte>, at: nat, src: seq<Byte>, lo: nat, hi: nat)
    requires at + |src| <= |s| && lo <= hi <= |s|
    requires hi <= at || at + |src| <= lo
    ensures Overwrite(s, at, src)[lo..hi] == s[lo..hi]
  {
    var r := Overwrite(s, at, src);
    assert forall k :: 0 <= k < hi - lo ==> r[lo..hi][k] == s[lo..hi][k];
  }

  class RawBuffer {
    /** The block: `capacity * objectSize` bytes. */
    var data: array<Byte>
    var capacity: nat
    ghost const objectSize: nat

    ghost predicate Valid()
      reads this
    {
      objectSize > 0 && data.Length == capacity * objectSize
    }

    /** `nc_raw_buffer_init`: an empty buffer that allocates nothing (the
        block is empty). */
    constructor Init(objectSize: nat)
      requires objectSize > 0
      ensures Valid() && this.objectSize == objectSize && capacity == 0
      ensures fresh(data)
    {
      this.objectSize := objectSize;
      capacity := 0;
      data := new Byte[0];
    }

    /** `nc_raw_buffer_init_with_capacity`: room for `capacity` objects whose
        bytes are unspecified. */
    constructor InitWithCapacity(capacity: nat, objectSize: nat)
      requires objectSize > 0
      ensures Valid() && this.objectSize == objectSize && this.capacity == capacity
      ensures fresh(data)
    {
      this.objectSize := objectSize;
      this.capacity := capacity;
      data := new Byte[capacity * objectSize];
    }

    /** `nc_raw_buffer_init_with_objects`: room for exactly `count` objects,
        holding a copy of `objects`. */
    constructor InitWithObjects(objects: seq<Byte>, count: nat, objectSize: nat)
      requires objectSize > 0 && |objects| == count * objectSize
      ensures Valid() && this.objectSize == objectSize && capacity == count
      ensures data[..] == objects && fresh(data)
    {
      this.objectSize := objectSize;
      capacity := count;
      data := new Byte[count * objectSize];
      new;
      SetMultipleUnchecked(objects, 0, count, objectSize);
    }

    predicate ContainsIndex(index: nat)
      reads this
    {
      index < capacity
    }

    predicate ContainsRange(index: nat, count: nat)
      reads this
    {
      index + count <= capacity
    }

    /** `nc_raw_buffer_get_multiple_unchecked`: the byte offset of object
        `index`; the `count` objects from there lie inside the block. */
    function GetMultipleUnchecked(index: nat, count: nat, objectSize: nat): (offset: nat)
      reads this
      requires Valid() && objectSize == this.objectSize && index + count <= capacity
      ensures offset == index * objectSize
      ensures offset + count * objectSize <= data.Length
    {
      MulMonotonic(index + count, capacity, objectSize);
      index * objectSize
    }

    /** `nc_raw_buffer_get_unchecked`: the byte offset of object `index`. */
    function GetUnchecked(index: nat, objectSize: nat): (offset: nat)
      reads this
      requires Valid() && objectSize == this.objectSize && index < capacity
      ensures offset == index * objectSize && offset + objectSize <= data.Length
    {
      GetMultipleUnchecked(index, 1, objectSize)
    }

    /** `nc_raw_buffer_get`: null exactly when `index` is out of bounds. */
    function Get(index: nat, objectSize: nat): (r: Option<nat>)
      reads this
      requires Valid() && objectSize == this.objectSize
      ensures r.None? <==> index >= capacity
      ensures r.Some? ==> r.value == index * objectSize && r.value + objectSize <= data.Length
    {
      if !ContainsIndex(index) then None else Some(GetUnchecked(index, objectSize))
    }

    /** `nc_raw_buffer_get_multiple`: null when no object is asked for or
        the range leaves the buffer. */
    function GetMultiple(index: nat, count: nat, objectSize: nat): (r: Option<nat>)
      reads this
      requires Valid() && objectSize == this.objectSize
      ensures r.None? <==> (count == 0 || index + count > capacity)
      ensures r.Some? ==> r.value == index * objectSize && r.value + count * objectSize <= data.Length
    {
      if count == 0 || !ContainsRange(index, count) then None
      else Some(GetMultipleUnchecked(index, count, objectSize))
    }

    /** `nc_raw_buffer_set_multiple_unchecked`: copies `count` objects to
        object `index` onwards. The source asks `get_unchecked` for the
        destination, which returns the same offset whatever the count. */
    method SetMultipleUnchecked(objects: seq<Byte>, index: nat, count: nat, objectSize: nat)
      requires Valid() && objectSize == this.objectSize && index + count <= capacity
      requires |objects| == count * objectSize
      modifies data
      ensures index * objectSize + count * objectSize <= data.Length
      ensures data[..] == Overwrite(old(data[..]), index * objectSize, objects)
    {
      var at := GetMultipleUnchecked(index, count, objectSize);
      MemCpy(data, at, objects);
    }

    /** `nc_raw_buffer_set_unchecked`: writes object `index`. */
    method SetUnchecked(item: seq<Byte>, index: nat, objectSize: nat)
      requires Valid() && objectSize == this.objectSize && index < capacity
      requires |item| == objectSize
      modifies data
      ensures index * objectSize + objectSize <= data.Length
      ensures data[..] == Overwrite(old(data[..]), index * objectSize, item)
    {
      MulMonotonic(index + 1, capacity, objectSize);
      SetMultipleUnchecked(item, index, 1, objectSize);
    }

    /** `nc_raw_buffer_set`: writes object `index`, or does nothing when it
        is out of bounds. */
    method Set(item: seq<Byte>, index: nat, objectSize: nat)
      requires Valid() && objectSize == this.objectSize && |item| == objectSize
      modifies data
      ensures index < capacity ==>
        index * objectSize + objectSize <= data.Length &&
        data[..] == Overwrite(old(data[..]), index * objectSize, item)
      ensures index >= capacity ==> data[..] == old(data[..])
    {
      if !ContainsIndex(index) {
        return;
      }
      SetUnchecked(item, index, objectSize);
    }

    /** `nc_raw_buffer_set_multiple`: writes `count` objects, or does nothing
        when there are none or the range leaves the buffer. */
    method SetMultiple(objects: seq<Byte>, index: nat, count: nat, objectSize: nat)
      requires Valid() && objectSize == this.objectSize && |objects| == count * objectSize
      modifies data
      ensures 0 < count && index + count <= capacity ==>
        index * objectSize + count * objectSize <= data.Length &&
        data[..] == Overwrite(old(data[..]), index * objectSize, objects)
      ensures count == 0 || index + count > capacity ==> data[..] == old(data[..])
    {
      if count == 0 || !ContainsRange(index, count) {
        return;
      }
      SetMultipleUnchecked(objects, index, count, objectSize);
    }

    /** `nc_raw_buffer_resize_unchecked`: reallocates the block for
        `newCapacity` objects, keeping the objects that still fit. */
    method ResizeUnchecked(newCapacity: nat, objectSize: nat)
      requires Valid() && objectSize == this.objectSize && newCapacity > 0
      modifies this
      ensures Valid() && capacity == newCapacity && fresh(data)
      ensures var keep := (if newCapacity < old(capacity) then newCapacity else old(capacity)) * objectSize;
        data[..keep] == old(data[..keep])
    {
      ghost var keep := (if newCapacity < capacity then newCapacity else capacity) * objectSize;
      MulMonotonic(if newCapacity < capacity then newCapacity else capacity, newCapacity, objectSize);
      MulMonotonic(if newCapacity < capacity then newCapacity else capacity, capacity, objectSize);
      data := Realloc(data, newCapacity * objectSize);
      capacity := newCapacity;
      assert keep <= old(data.Length) && keep <= data.Length;
    }

    /** `nc_raw_buffer_grow_amorthized`: nothing happens while `required`
        is below the capacity; otherwise the buffer is resized to the larger
        of `required` and `capacity * growthFactor`. Either way the capacity
        does not shrink, reaches `required`, and the objects are kept. */
    method GrowAmortized(required: nat, growthFactor: nat, objectSize: nat)
      requires Valid() && objectSize == this.objectSize && (required > 0 || capacity > 0)
      modifies this
      ensures Valid()
      ensures old(required < capacity) ==> capacity == old(capacity) && data == old(data)
      ensures old(required >= capacity) ==>
        capacity == (if required < old(capacity) * growthFactor then old(capacity) * growthFactor else required) &&
        fresh(data)
      ensures capacity >= required && capacity >= old(capacity)
      ensures |old(data[..])| <= data.Length && data[..|old(data[..])|] == old(data[..])
    {
      if required < capacity {
        return;
      }
      var grown := capacity * growthFactor;
      var newCapacity := if required < grown then grown else required;
      MulMonotonic(capacity, newCapacity, objectSize);
      ResizeUnchecked(newCapacity, objectSize);
    }
  }
}
