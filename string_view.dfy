/** The borrowed string view of `ncstd_string/src/string_view.c`: a pointer
    into memory and a size in bytes. The accessors `nc_string_view_bytes`
    and `nc_string_view_size` are the datatype's fields. */
module StringViews {
  import opened Memory
  import opened CharsIterators

  datatype StringView = StringView(cstr: Addr, size: nat)

  /** The optional view encodes "none" as a view with a null pointer. */
  datatype OptionStringView = OptionStringView(value: StringView)

  /** The view's bytes lie inside memory. */
  predicate InMemory(mem: seq<Byte>, v: StringView)
  {
    v.cstr + v.size <= |mem|
  }

  /** The bytes a view covers. */
  function Bytes(mem: seq<Byte>, v: StringView): seq<Byte>
    requires InMemory(mem, v)
  {
    mem[v.cstr..v.cstr + v.size]
  }

  /** `nc_string_view_init_unchecked`: a view of `size` bytes from `cstr`;
      the accessors give back exactly what was stored. */
  function InitUnchecked(cstr: Addr, size: nat): (v: StringView)
    ensures v.cstr == cstr && v.size == size
  {
    StringView(cstr, size)
  }

  /** `nc_string_view_from_cstr`: a view of the NUL-terminated string at
      `cstr`, without its terminator: none of its bytes is NUL and the byte
      after it is. */
  function FromCStr(mem: seq<Byte>, cstr: Addr): (v: StringView)
    requires cstr != NULL && cstr < |mem| && 0 in mem[cstr..]
    ensures v.cstr == cstr && cstr + v.size < |mem| && mem[cstr + v.size] == 0
    ensures forall k :: cstr <= k < cstr + v.size ==> mem[k] != 0
  {
    var n := StrLen(mem[cstr..]);
    assert forall k :: cstr <= k < cstr + n ==> mem[k] == mem[cstr..][k - cstr];
    InitUnchecked(cstr, n)
  }

  /** `nc_string_view_eq` as written: false for different sizes, otherwise
      the raw `strncmp` result read as a boolean, which is true when the
      bytes differ. */
  function Eq(mem: seq<Byte>, a: StringView, b: StringView): (r: bool)
    requires InMemory(mem, a) && InMemory(mem, b)
    ensures a.size != b.size ==> !r
  {
    if a.size != b.size then false
    else StrNCmp(Bytes(mem, a), Bytes(mem, b), a.size) != 0
  }

  /** `Eq` is symmetric. */
  lemma EqSymmetric(mem: seq<Byte>, a: StringView, b: StringView)
    requires InMemory(mem, a) && InMemory(mem, b)
    ensures Eq(mem, a, b) == Eq(mem, b, a)
  {
    if a.size == b.size {
      StrNCmpAntisymmetric(Bytes(mem, a), Bytes(mem, b), a.size);
    }
  }

  /** As written no view equals itself, the empty view included. */
  lemma EqIrreflexive(mem: seq<Byte>, v: StringView)
    requires InMemory(mem, v)
    ensures !Eq(mem, v, v)
  {
    StrNCmpReflexive(Bytes(mem, v), v.size);
  }

  /** On views of the same size without NUL bytes, `Eq` holds exactly when
      their bytes differ: the comparison is inverted. */
  lemma EqInverted(mem: seq<Byte>, a: StringView, b: StringView)
    requires InMemory(mem, a) && InMemory(mem, b) && a.size == b.size
    requires forall k :: 0 <= k < a.size ==> Bytes(mem, a)[k] != 0
    ensures Eq(mem, a, b) <==> Bytes(mem, a) != Bytes(mem, b)
  {
    var x, y := Bytes(mem, a), Bytes(mem, b);
    StrNCmpZeroIffEqual(x, y, a.size);
    assert x[..a.size] == x && y[..a.size] == y;
  }

  /** `strncmp` stops at a NUL byte: views of the same size whose bytes
      agree up to and including a shared NUL read as unequal, whatever
      bytes follow it. */
  lemma EqThroughNul(mem: seq<Byte>, a: StringView, b: StringView, k: nat)
    requires InMemory(mem, a) && InMemory(mem, b) && a.size == b.size && k < a.size
    requires Bytes(mem, a)[..k + 1] == Bytes(mem, b)[..k + 1] && Bytes(mem, a)[k] == 0
    ensures !Eq(mem, a, b)
  {
    StrNCmpStopsAtNul(Bytes(mem, a), Bytes(mem, b), a.size, k);
  }

  /** `nc_string_view_ptr_eq`: `Eq` on the views behind the two pointers;
      the extra argument plays no part. */
  function PtrEq(mem: seq<Byte>, a: StringView, b: StringView, data: Addr): (r: bool)
    requires InMemory(mem, a) && InMemory(mem, b)
    ensures r == Eq(mem, a, b)
  {
    Eq(mem, a, b)
  }

  /** `nc_option_string_view_init_some`: wraps the view; it reads as present
      exactly when its pointer is not null. */
  function InitSome(v: StringView): (o: OptionStringView)
    ensures o.value == v && (IsSome(o) <==> v.cstr != NULL)
  {
    OptionStringView(v)
  }

  /** `nc_option_string_view_init_none`: the null view, which reads as
      absent. */
  function InitNone(): (o: OptionStringView)
    ensures !IsSome(o)
  {
    OptionStringView(InitUnchecked(NULL, 0))
  }

  /** `nc_option_string_view_is_some`: the pointer is not null. */
  predicate IsSome(o: OptionStringView)
  {
    o.value.cstr != NULL
  }

  /** `nc_string_view_chars_iter`: an iterator over exactly the view's
      bytes. */
  method CharsIter(v: StringView) returns (it: CharsIterator)
    ensures fresh(it) && it.current == v.cstr && it.end == v.cstr + v.size && it.currentChar == 0
  {
    it := new CharsIterator.Init(v.cstr, v.size);
  }
}
