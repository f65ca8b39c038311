/** The type-erased iterator of `ncstd_iterator/src/iterator.c`: a vtable
    with one entry, `next_fn`, and a copy of a concrete iterator embedded
    after it. The two vtables of the library (those of the pointer and the
    code point iterators) are the two variants of `Vtable`; the embedded
    copy is a fresh object owned by the iterator. `next_fn` returns a
    pointer: an element address for the pointer iterator, the cached code
    point (or null) for the code point iterator. */
module Iterators {
  import opened Wrappers
  import opened Memory
  import opened Utf8
  import opened PointerIterators
  import opened CharsIterators

  datatype Vtable = PointerIteratorVtable | CharsIteratorVtable

  datatype Concrete = PointerConcrete(pointer: PointerIterator) | CharsConcrete(chars: CharsIterator)

  /** What `next_fn` returns. */
  datatype Item = Address(addr: Addr) | CharRef(ch: Option<Char32>)

  class Iterator {
    const vtable: Vtable
    const concrete: Concrete

    /** The embedded iterator is the one the vtable is for. */
    ghost predicate Valid()
      reads this, Payload()
    {
      match concrete
      case PointerConcrete(p) => vtable == PointerIteratorVtable && p.Valid()
      case CharsConcrete(_) => vtable == CharsIteratorVtable
    }

    /** The embedded iterator, as an object. */
    function Payload(): object
      reads this
    {
      match concrete
      case PointerConcrete(p) => p
      case CharsConcrete(c) => c
    }

    /** `nc_iterator_create`: keeps the vtable and a copy of the concrete
        iterator; the copy is a new object, so later changes to the
        original do not reach it. */
    constructor Create(vtable: Vtable, concrete: Concrete)
      requires concrete.PointerConcrete? ==> vtable == PointerIteratorVtable && concrete.pointer.Valid()
      requires concrete.CharsConcrete? ==> vtable == CharsIteratorVtable
      ensures Valid() && this.vtable == vtable && fresh(Payload())
      ensures concrete.PointerConcrete? ==> (
        this.concrete.PointerConcrete? &&
        var p, q := this.concrete.pointer, concrete.pointer;
        p.current == q.current && p.end == q.end && p.objectSize == q.objectSize &&
        p.start == q.start && p.length == q.length && p.calls == q.calls)
      ensures concrete.CharsConcrete? ==> (
        this.concrete.CharsConcrete? &&
        var c, d := this.concrete.chars, concrete.chars;
        c.current == d.current && c.end == d.end && c.currentChar == d.currentChar)
    {
      this.vtable := vtable;
      if concrete.PointerConcrete? {
        var copy := new PointerIterator.Copy(concrete.pointer);
        this.concrete := PointerConcrete(copy);
      } else {
        var copy := new CharsIterator.Copy(concrete.chars);
        this.concrete := CharsConcrete(copy);
      }
    }

    /** `nc_iterator_concrete`: the embedded iterator, of the kind the
        vtable is for. */
    function ConcreteOf(): (c: Concrete)
      reads this, Payload()
      requires Valid()
      ensures c.PointerConcrete? <==> vtable == PointerIteratorVtable
    {
      concrete
    }

    /** `nc_iterator_next`: calls the vtable's `next_fn` on the embedded
        iterator. The result and the change of the embedded iterator are
        those of calling that iterator's own `next` directly; nothing else
        changes. */
    method Next(mem: seq<Byte>) returns (r: Item)
      requires Valid()
      requires concrete.CharsConcrete? ==> concrete.chars.CanDecode(mem)
      modifies Payload()
      ensures Valid()
      ensures vtable == PointerIteratorVtable ==> (
        r.Address? &&
        var p := concrete.pointer;
        (old(p.current) >= p.end ==> r.addr == NULL && p.current == old(p.current) && p.calls == old(p.calls)) &&
        (old(p.current) < p.end ==>
           r.addr == old(p.current) && p.current == old(p.current) + p.objectSize && p.calls == old(p.calls) + 1))
      ensures vtable == CharsIteratorVtable ==> (
        r.CharRef? &&
        var c := concrete.chars;
        (old(c.current) >= c.end ==> r.ch == None && c.current == old(c.current) && c.currentChar == old(c.currentChar)) &&
        (old(c.current) < c.end ==>
           c.currentChar == Decode(mem[old(c.current)..]) && r.ch == Some(c.currentChar) &&
           c.current == old(c.current) + CharacterWidthUnchecked(mem[old(c.current)])))
    {
      match vtable
      case PointerIteratorVtable =>
        var a := concrete.pointer.Next();
        r := Address(a);
      case CharsIteratorVtable =>
        var ch := concrete.chars.Next(mem);
        r := CharRef(ch);
    }
  }

  /** `nc_pointer_iterator_into_dyn`: wraps a copy of the iterator with the
      pointer iterator's vtable. */
  method PointerIntoDyn(p: PointerIterator) returns (it: Iterator)
    requires p.Valid()
    ensures fresh(it) && it.Valid() && it.vtable == PointerIteratorVtable && fresh(it.Payload())
    ensures it.concrete.PointerConcrete? && it.concrete.pointer.current == p.current && it.concrete.pointer.end == p.end
    ensures it.concrete.pointer.objectSize == p.objectSize && it.concrete.pointer.calls == p.calls
  {
    it := new Iterator.Create(PointerIteratorVtable, PointerConcrete(p));
  }

  /** `nc_chars_iterator_into_dyn`: wraps a copy of the iterator with the
      code point iterator's vtable. */
  method CharsIntoDyn(c: CharsIterator) returns (it: Iterator)
    ensures fresh(it) && it.Valid() && it.vtable == CharsIteratorVtable && fresh(it.Payload())
    ensures it.concrete.CharsConcrete? && it.concrete.chars.current == c.current && it.concrete.chars.end == c.end
    ensures it.concrete.chars.currentChar == c.currentChar
  {
    it := new Iterator.Create(CharsIteratorVtable, CharsConcrete(c));
  }
}
