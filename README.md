# ncstd core in Dafny

A model of the foundation layer of the ncstd C toolkit: the type-erased raw
buffer, the UTF-8 codec, the owning string and the borrowed string view built
on them, and the two cursor iterators with their one-entry vtable. The model
follows the C code as written, including the places where it departs from
RFC 3629 or from what its own function names promise; those places are
pinned by lemmas (see "Divergences" below).

Modules, one per source file:

- `Wrappers` — `Option<T>`, standing for a NULL pointer and for `NC_OPTION(T)`.
- `Memory` — bytes (`Byte`, 0..255), addresses (`Addr`, 0 is NULL), and the
  C library routines the core calls: `memcpy` (`MemCpy`, specified by
  `Overwrite`), `realloc` (`Realloc`), `strlen` (`StrLen`) and `strncmp`
  (`StrNCmp`) as functions over byte sequences.
- `Utf8` — `utf8.c` as written: classification, scalar-value check, the
  encoder and decoder (methods with loops, specified by the functions
  `Encode` and `Decode`), and the validator (a method specified by the
  predicate `ValidFrom`).
- `Utf8WellFormed` — an independent reference: the UTF8-char syntax of
  section 4 of RFC 3629, with lemmas relating the codec to it.
- `RawBuffers` — `raw_buffer.c`: a class over an `array<Byte>` and a
  `capacity`; the object size is a ghost constant that every call's
  `objectSize` argument must equal. Pointers into the block are byte
  offsets.
- `StringViews` — `string_view.c`: a (pointer, size) value into a memory
  given as a byte sequence.
- `CharsIterators`, `PointerIterators` — the two concrete iterators, as
  classes whose `Next` moves the cursor.
- `Iterators` — `iterator.c`: the vtable is a two-variant datatype, the
  embedded payload a fresh copy of the concrete iterator.
- `Strings` — `string.c`: a class holding a raw buffer of one-byte objects
  and a size.

Bit operations are written as arithmetic (`x & 0x3F` is `x % 0x40`, setting
marker bits above a payload is an addition, `>> 6` is `/ 64`). The leading
byte marker `~(0xFF >> width)` is computed on an `int` and becomes the marker
only when truncated to `uint8_t` on return; the model takes the truncated
value. The decoder's shifts of a `char32_t` lose no bit, which the bound on
`DecodePrefix` states.

## Model

| member | source | states |
|---|---|---|
| `Utf8.LeadingPayload` | ncstd_string/src/utf8.c:8-10 | the leading-byte mask keeps `7 - width` payload bits, so the payload is below 0x20, 0x10, 0x08 for widths 2, 3, 4 |
| `Utf8.LeadingByteMarker` | ncstd_string/src/utf8.c:12-14 | the truncated marker is a multiple of the payload bound, so it shares no bit with the payload, and marker plus payload fits in one byte |
| `Utf8.ContinuationPayload` | ncstd_string/src/utf8.c:4-5 | the continuation mask keeps six bits |
| `Utf8.IsContinuationByte` | ncstd_string/src/utf8.c:22-24 | true exactly for 0x80..0xBF, that is the bytes whose top two bits are `10` |
| `Utf8.CharacterWidth` | ncstd_string/src/utf8.c:26-38 | at most 4; 0 exactly for bytes 0xF8 and up; 3 for every continuation byte; on all other bytes the length the RFC 3629 bit layout announces |
| `Utf8.CharacterWidthUnchecked` | ncstd_string/src/utf8.c:40-50 | between 1 and 4; equal to the checked width on 0x00..0x7F and 0xC0..0xF7; 4 for 0xF8 and up |
| `Utf8.IsValidCodepoint` | ncstd_string/src/utf8.c:52-60 | false exactly above U+10FFFF and on the surrogates U+D800..U+DFFF |
| `Utf8.EncodedWidth` | ncstd_string/src/utf8.c:114-130 | the encoder's width is at most 4 and 0 exactly above U+10FFFF |
| `Utf8.EncodeShape` | ncstd_string/src/utf8.c:114-144 | the first byte written announces the whole width to both width functions and every later byte is a continuation byte |
| `Utf8.EncodeCharUnchecked` | ncstd_string/src/utf8.c:114-144 | returns the width and overwrites exactly that many bytes at the target offset with the encoding; nothing else changes |
| `Utf8.EncodeChar` | ncstd_string/src/utf8.c:146-151 | for a non-scalar value returns 0 and writes nothing; otherwise returns a positive width and writes what the unchecked encoder writes |
| `Utf8.DecodeCharUnchecked` | ncstd_string/src/utf8.c:153-170 | consumes the unchecked width of the leading byte (1 to 4) and returns the value `Decode` folds from those bytes |
| `Utf8.DecodePrefix` | ncstd_string/src/utf8.c:162-167 | after folding `k` bytes the value stays below 2^(5 + 6(k-1)), so no shift loses a bit |
| `Utf8.DecodeEncode` | ncstd_string/src/utf8.c:114-170 | round trip: for every value up to U+10FFFF, decoding the encoding gives the value back and consumes exactly the bytes written |
| `Utf8.DecodePrefixOnly` | ncstd_string/src/utf8.c:153-170 | decoding reads only the bytes of one sequence |
| `Utf8.DecodeAllEncodeAll` | ncstd_string/src/utf8.c:114-170 | a concatenation of encodings of values up to U+10FFFF is walked sequence by sequence and decodes to those values |
| `Utf8.IsValid` | ncstd_string/src/utf8.c:62-112 | the loop's verdict is `ValidFrom(data, 0)` |
| `Utf8.ValidAscii` | ncstd_string/src/utf8.c:64-69 | the empty input and every all-ASCII input are accepted |
| `Utf8.ValidHasNoHighByte` | ncstd_string/src/utf8.c:67-107 | an accepted input holds no byte 0xF8..0xFF |
| `Utf8.ValidEndsInAscii` | ncstd_string/src/utf8.c:71-72 | a non-empty accepted input ends in an ASCII byte: a multi-byte sequence ending at the last byte is rejected |
| `Utf8.ValidReachesLead` | ncstd_string/src/utf8.c:62-112 | walking an accepted input, the validator stops at every byte that is not a continuation byte |
| `Utf8.ValidSequences` | ncstd_string/src/utf8.c:71-104 | in an accepted input, every sequence starting at a non-continuation byte is followed by another byte, its trailing bytes are continuation bytes, and its second byte is in A0..BF after E0, 80..9F after ED, 90..BF after F0, 80..8F after F3 |
| `Utf8.ValidSequenceAt` | ncstd_string/src/utf8.c:71-104 | at a position the validator stops at, the sequence is followed by another byte, its trailing bytes are continuation bytes, and its second byte is in A0..BF after E0, 80..9F after ED, 90..BF after F0, 80..8F after F3 |
| `Utf8WellFormed.CharacterWidthAgainstRfc` | ncstd_string/src/utf8.c:26-38 | the checked width differs from the RFC 3629 sequence length exactly on 0x80..0xC1 and 0xF5..0xF7 |
| `Utf8WellFormed.EncodeWellFormed` | ncstd_string/src/utf8.c:114-144 | the encoding of a value up to U+10FFFF is a well-formed UTF8-char exactly when the value is a scalar value |
| `Utf8WellFormed.WellFormedEncodeAll` | ncstd_string/src/utf8.c:114-144 | encoding a text of scalar values gives well-formed bytes |
| `Utf8WellFormed.DecodeCharAt` | ncstd_string/src/utf8.c:153-170 | a well-formed UTF8-char decodes to a scalar value whose encoding is that UTF8-char |
| `Utf8WellFormed.WellFormedRoundTrip` | ncstd_string/src/utf8.c:153-170 | well-formed text decodes to scalar values and encoding them gives the text back |
| `Utf8WellFormed.ValidAcceptsWellFormed` | ncstd_string/src/utf8.c:62-112 | the validator accepts well-formed text followed by an ASCII byte, provided every 0xF3 byte in it is followed by a byte up to 0x8F (the encodings of U+C0000..U+CFFFF) |
| `Utf8WellFormed.ValidRejectsFinalSequence` | ncstd_string/src/utf8.c:71-72 | the encoding of any scalar value from U+0080 on its own is well formed and rejected |
| `Utf8WellFormed.ValidRejectsPlanes13To15` | ncstd_string/src/utf8.c:93-97 | the encodings of U+D0000..U+FFFFF are well formed and rejected even with a byte after them |
| `Utf8WellFormed.ValidAcceptsIllFormed` | ncstd_string/src/utf8.c:26-112 | the validator accepts continuation bytes as a leading byte, the overlong C0 80, and F4 90 80 80, which decodes to U+110000 |
| `Memory.MemCpy` | ncstd_core/src/containers/unsafe/raw_buffer.c:71 | the destination becomes its old bytes overwritten by the source at the offset |
| `Memory.Realloc` | ncstd_core/src/containers/unsafe/raw_buffer.c:75 | a fresh block of the new size that starts with the old bytes that fit |
| `Memory.StrLen` | ncstd_string/src/string_view.c:56 | the index of the first NUL byte |
| `Memory.StrNCmpZeroIffEqual` | ncstd_string/src/string_view.c:32 | on NUL-free ranges `strncmp` is zero exactly when the bytes agree |
| `Memory.StrNCmpAntisymmetric` | ncstd_string/src/string_view.c:32 | swapping the operands negates the result |
| `RawBuffers.RawBuffer.Init` | ncstd_core/src/containers/unsafe/raw_buffer.c:96-105 | capacity 0 and an empty block |
| `RawBuffers.RawBuffer.InitWithCapacity` | ncstd_core/src/containers/unsafe/raw_buffer.c:107-114 | capacity as asked, block of capacity times object size bytes |
| `RawBuffers.RawBuffer.InitWithObjects` | ncstd_core/src/containers/unsafe/raw_buffer.c:116-121 | capacity `count` and the block equal to the source bytes |
| `RawBuffers.RawBuffer.GetMultipleUnchecked` | ncstd_core/src/containers/unsafe/raw_buffer.c:45-49 | the byte offset `index * objectSize`, with the `count` objects from it inside the block |
| `RawBuffers.RawBuffer.GetUnchecked` | ncstd_core/src/containers/unsafe/raw_buffer.c:34-36 | the byte offset of object `index`, inside the block |
| `RawBuffers.RawBuffer.Get` | ncstd_core/src/containers/unsafe/raw_buffer.c:27-32 | none exactly when `index >= capacity`, else the offset of object `index` |
| `RawBuffers.RawBuffer.GetMultiple` | ncstd_core/src/containers/unsafe/raw_buffer.c:38-43 | none exactly when `count == 0` or the range passes the capacity, else the offset of object `index` |
| `RawBuffers.RawBuffer.SetMultipleUnchecked` | ncstd_core/src/containers/unsafe/raw_buffer.c:69-72 | overwrites exactly the bytes of objects `index..index+count` with the source |
| `RawBuffers.RawBuffer.SetUnchecked` | ncstd_core/src/containers/unsafe/raw_buffer.c:58-60 | overwrites exactly the bytes of object `index` |
| `RawBuffers.RawBuffer.Set` | ncstd_core/src/containers/unsafe/raw_buffer.c:51-56 | writes object `index` when in bounds, otherwise leaves the block unchanged |
| `RawBuffers.RawBuffer.SetMultiple` | ncstd_core/src/containers/unsafe/raw_buffer.c:62-67 | writes the objects when `count > 0` and the range fits, otherwise leaves the block unchanged |
| `RawBuffers.ElementOverwrite` | ncstd_core/src/containers/unsafe/raw_buffer.c:45-72 | after `set_unchecked` of object `index` the object there reads back as written and every other object is unchanged |
| `RawBuffers.RawBuffer.ResizeUnchecked` | ncstd_core/src/containers/unsafe/raw_buffer.c:74-77 | capacity becomes the new capacity and the bytes of the objects that still fit are kept |
| `RawBuffers.RawBuffer.GrowAmortized` | ncstd_core/src/containers/unsafe/raw_buffer.c:79-93 | nothing changes while `required < capacity`; otherwise capacity becomes `max(required, capacity * factor)`; capacity never shrinks, reaches `required`, and the old bytes are kept |
| `StringViews.InitUnchecked` | ncstd_string/src/string_view.c:42-49 | the accessors `bytes` and `size` return exactly the pointer and size stored |
| `StringViews.FromCStr` | ncstd_string/src/string_view.c:52-59 | the size is the distance to the first NUL byte |
| `StringViews.Eq` | ncstd_string/src/string_view.c:28-33 | false whenever the sizes differ |
| `StringViews.EqSymmetric` | ncstd_string/src/string_view.c:28-33 | the comparison is symmetric |
| `StringViews.EqIrreflexive` | ncstd_string/src/string_view.c:31-32 | as written no view equals itself, the empty view included |
| `StringViews.EqInverted` | ncstd_string/src/string_view.c:31-32 | on NUL-free views of equal size the result is true exactly when the bytes differ |
| `StringViews.EqThroughNul` | ncstd_string/src/string_view.c:31-32 | views of equal size whose bytes agree up to and including a shared NUL compare unequal, whatever follows the NUL |
| `StringViews.PtrEq` | ncstd_string/src/string_view.c:35-39 | the comparison of the pointed-to views, ignoring the extra argument |
| `StringViews.InitSome` | ncstd_string/src/string_view.c:10-12 | wraps the view; present exactly when its pointer is not NULL |
| `StringViews.InitNone` | ncstd_string/src/string_view.c:14-16 | reads as absent |
| `StringViews.CharsIter` | ncstd_string/src/string_view.c:64-66 | an iterator over exactly the view's bytes, with cached code point 0 |
| `CharsIterators.CharsIterator.Init` | ncstd_string/src/chars_iterator.c:30-38 | cursor at the start, end `length` bytes on, cached code point 0 |
| `CharsIterators.CharsIterator.Next` | ncstd_string/src/chars_iterator.c:15-24 | at the end returns none and changes nothing; otherwise caches and returns the decoded code point and advances by its width (1 to 4); each call takes one step of `Yields` |
| `CharsIterators.NextOverEncoded` | ncstd_string/src/chars_iterator.c:15-24 | over an encoded text, the iterator is at its end exactly when no code point is left, and one call yields the first code point and leaves the encoding of the rest |
| `CharsIterators.YieldsBound` | ncstd_string/src/chars_iterator.c:19-23 | every successful call advances the cursor, so at most `end - current` calls succeed before the end |
| `CharsIterators.YieldsEncoded` | ncstd_string/src/chars_iterator.c:15-24 | over the concatenated encodings of c1..ck, successive calls yield exactly c1..ck and then none |
| `PointerIterators.PointerIterator.Init` | ncstd_iterator/src/iterators/pointer_iterator.c:29-37 | cursor at the start, end `length * objectSize` bytes on, object size stored |
| `PointerIterators.PointerIterator.Next` | ncstd_iterator/src/iterators/pointer_iterator.c:13-22 | at the end returns NULL and stays; otherwise returns the cursor and advances it by the object size; with a positive size call `k` returns `start + k * objectSize` for `k < length` and NULL afterwards |
| `PointerIterators.CursorBeforeEnd` | ncstd_iterator/src/iterators/pointer_iterator.c:13-15 | with a positive object size the cursor is before the end exactly while fewer than `length` objects were returned |
| `Iterators.Iterator.Create` | ncstd_iterator/src/iterator.c:15-22 | keeps the vtable and a fresh copy of the concrete iterator with the same fields, so later changes to the original do not reach it |
| `Iterators.Iterator.ConcreteOf` | ncstd_iterator/src/iterator.c:6-8 | the embedded iterator, of the kind its vtable is for |
| `Iterators.Iterator.Next` | ncstd_iterator/src/iterator.c:10-12 | the result and the change of the payload are those of the concrete iterator's own `next`; the vtable stays |
| `Iterators.PointerIntoDyn` | ncstd_iterator/src/iterators/pointer_iterator.c:24-26 | a fresh iterator with the pointer vtable and a copy of the pointer iterator |
| `Iterators.CharsIntoDyn` | ncstd_string/src/chars_iterator.c:26-28 | a fresh iterator with the code point vtable and a copy of the code point iterator |
| `CharsIterators.CharsIterator.Copy` | ncstd_iterator/src/iterator.c:15-22 | the copy has the same cursor, end and cached code point |
| `PointerIterators.PointerIterator.Copy` | ncstd_iterator/src/iterator.c:15-22 | the copy has the same cursor, end, object size and progress |
| `Strings.NcString.Empty` | ncstd_string/src/string.c:81-85 | size 0, capacity 1, terminated |
| `Strings.NcString.WithCapacity` | ncstd_string/src/string.c:88-94 | size 0, capacity as asked (at least 1), terminated |
| `Strings.NcString.FromCStrUnchecked` | ncstd_string/src/string.c:105-110 | size is the `strlen`, capacity one more, the bytes copied and NUL-free, terminated |
| `Strings.NcString.WithLengthUnchecked` | ncstd_string/src/string.c:116-122 | size `length`, capacity `length + 1`, the bytes copied, terminated |
| `Strings.FromStringView` | ncstd_string/src/string.c:112-114 | a string of the view's size holding its bytes, terminated |
| `Strings.FromCStr` | ncstd_string/src/string.c:96-103 | none exactly when the validator rejects the bytes before the first NUL; otherwise the string `from_c_str_unchecked` builds |
| `Strings.NcString.Size` | ncstd_string/src/string.c:18-20 | the size is below the capacity |
| `Strings.NcString.Capacity` | ncstd_string/src/string.c:22-24 | the buffer's capacity exceeds the size |
| `Strings.NcString.TerminateUnchecked` | ncstd_string/src/string.c:10-12 | writes NUL at byte `size` and nothing else |
| `Strings.NcString.Clear` | ncstd_string/src/string.c:27-33 | an empty string is unchanged; otherwise size 0 and NUL at byte 0; capacity and block unchanged |
| `Strings.NcString.Reserve` | ncstd_string/src/string.c:35-37 | capacity reaches `n + 1` by the growth rule with factor 2; size and every byte kept |
| `Strings.LastLead` | ncstd_string/src/string.c:43-47 | the index where the backward scan stops: a non-continuation byte with only continuation bytes after it |
| `Strings.NcString.Pop` | ncstd_string/src/string.c:39-61 | none and no change on an empty string; otherwise returns the code point decoded at the last non-continuation byte, lowers the size by its width and terminates |
| `Strings.PopEncoded` | ncstd_string/src/string.c:39-61 | on a text that encodes c1..ck, the scan stops where ck's encoding starts and `pop` returns ck and leaves exactly the encoding of c1..c(k-1) |
| `Strings.NcString.PushUnchecked` | ncstd_string/src/string.c:63-67 | capacity reaches old size + 5; size grows by the encoded width; as written the encoding lands at byte 0 and no terminator is written |
| `Strings.NcString.PushStringView` | ncstd_string/src/string.c:69-78 | size grows by the view's size; the old text is kept, the view's bytes follow it, and the result is terminated |
| `Strings.ValidAppend` | ncstd_string/src/string.c:69-78 | appending accepted bytes to an accepted text gives an accepted text |
| `Strings.PopBreaksValidity` | ncstd_string/src/string.c:39-61 | popping the last code point of an accepted text can leave a text the validator rejects |
| `Strings.PushPopFourByteChar` | ncstd_string/src/string.c:39-67 | pushing U+1F600 on an empty string gives size 4, and popping returns U+1F600 with size back to 0 |
| `Strings.PushOntoText` | ncstd_string/src/string.c:63-67 | pushing `B` onto the text `A` as written gives the text `B` NUL rather than `AB` |

The accessors `nc_raw_buffer_data` and `nc_raw_buffer_capacity` are the
fields `data` and `capacity` of `RawBuffer`; `nc_string_view_bytes` and
`nc_string_view_size` are the fields `cstr` and `size` of `StringView`;
`nc_option_string_view_is_some` is the predicate `StringViews.IsSome`, whose
meaning the `InitSome` and `InitNone` rows state; the range checks
`nc_p_raw_buffer_contains_index` and `nc_p_raw_buffer_contains_range` are
the predicates `ContainsIndex` and `ContainsRange` used by `Get`, `Set` and
their multiple forms; `nc_string_is_empty` is the predicate
`Strings.NcString.IsEmpty` (size 0), which `Pop` tests first.

## Divergences

Where the code departs from RFC 3629, or from what a function's name
promises (an equality test, a push that appends), the model follows the code
and a lemma exhibits the difference:

- `character_width` falls through to 3 for the continuation bytes 0x80..0xBF
  and returns 2 for 0xC0/0xC1 and 4 for 0xF5..0xF7
  (`Utf8.CharacterWidth`, `Utf8WellFormed.CharacterWidthAgainstRfc`); so the
  validator accepts `80 80 80 41` and `C0 80 41`
  (`Utf8WellFormed.ValidAcceptsIllFormed`).
- The validator's truncation check uses `>=` after moving past the leading
  byte, so a multi-byte sequence that ends exactly at the last byte is
  rejected (`Utf8.ValidEndsInAscii`, `Utf8WellFormed.ValidRejectsFinalSequence`).
- The four-byte second-byte check is keyed on 0xF3 where RFC 3629 has 0xF4:
  U+D0000..U+FFFFF are rejected (`Utf8WellFormed.ValidRejectsPlanes13To15`)
  and `F4 90 80 80`, which decodes to U+110000, is accepted
  (`Utf8WellFormed.ValidAcceptsIllFormed`).
- `nc_string_view_eq` passes the raw `strncmp` result through, which is
  nonzero on a mismatch: views with equal bytes compare unequal
  (`StringViews.EqIrreflexive`, `StringViews.EqInverted`).
- `nc_string_push_unchecked` encodes at byte 0 of the buffer instead of at
  the end of the text, and writes no terminator
  (`Strings.NcString.PushUnchecked`, `Strings.PushOntoText`). For this reason
  the string's invariant in the model is `size < capacity` only; the
  terminator is a separate predicate (`Terminated`) that every other
  operation establishes, and UTF-8 validity of the text is not part of it.
  `pop` does not keep the validator's verdict either: because of the `>=`
  above, `C3 A9 41` is accepted and, after its last code point is popped,
  `C3 A9` is rejected (`Strings.PopBreaksValidity`).
- `nc_string_with_capacity(n)` allocates exactly `n` bytes, so the text can
  hold at most `n - 1` bytes before `reserve` grows it
  (`Strings.NcString.WithCapacity` ensures a capacity of `n` and a size
  strictly below the capacity).
- `nc_raw_buffer_grow_amorthized` also grows when `required` equals the
  capacity (the test is `<`); the model follows the code.

## Left out

- Allocation (`ncstd_core/src/memory.c`, the out-of-memory handler of
  `ncstd_core/src/util/panic_handlers.c`): allocation always succeeds and
  yields a fresh array; out-of-memory is not modelled.
- `nc_raw_buffer_free` and `nc_string_destroy`: deallocation has no
  counterpart in a garbage-collected model.
- The flexible-tail heap construction of `create_util.h`: the iterator's
  payload is a fresh copied object instead.
- The option code-generation macros: `Wrappers.Option` and, for the view,
  a datatype whose "none" is a NULL pointer.
- Uninitialised memory: bytes of a block after `init_with_capacity`, growth
  or reallocation beyond the kept prefix are left unspecified by the
  contracts.
- `size_t` wrap-around: `index + count`, `capacity * growth_factor`,
  `length * object_size`, `new_capacity + 1` and pointer arithmetic are
  unbounded naturals.
- Pointer aliasing and lifetime: views and C strings point into a separate
  memory byte sequence, so a view into a string's own buffer, a dangling
  view, or a view invalidated by a reallocation cannot be expressed.
- The `NC_FEATURE_ITERATOR` conditional compilation, and the return type
  `NC_CharsIterator*` that `nc_chars_iterator_into_dyn` declares while
  returning an `NC_Iterator*`: C typing details.
- The commented-out `nc_utf8_is_leading_byte`: not compiled.
- `Utf8.IsValid`: for a byte 0xF8..0xFF at the last position, the C code
  reads one byte past the end before its `switch` rejects the width 0; the
  model returns false without that read.
- `Strings.NcString.Pop`: the loop condition `i >= 0` on an unsigned index
  never fails, so on a text with no non-continuation byte `i` wraps to
  `SIZE_MAX`, `nc_raw_buffer_get` returns NULL and the C code dereferences
  it; the model requires such a byte to exist. It also requires the width
  the decoder reads to be at most the size, so that `size -= char_width`
  cannot wrap, and the sequence to end inside the block, so that the
  decoder reads no byte beyond it.
- `Strings.NcString.WithCapacity`: requires a capacity of at least 1; with 0
  the terminator write lies outside the block (an open question in the
  source).
- `RawBuffers.RawBuffer.GrowAmortized`: requires `required > 0` or a
  positive capacity, since a resize to capacity 0 is undefined.
- `RawBuffers.RawBuffer.ResizeUnchecked`: requires a positive new capacity
  and object size, as its contract in the header demands.
- The mismatch of the element size across calls is ruled out by requiring
  every call's size to equal the ghost `objectSize` of the buffer.
- Address 0 stands for NULL but is also a byte of the memory sequence: the
  model does not separate NULL from a valid address, so
  `WithLengthUnchecked(mem, 0, n)` or a view `(0, n)` with `n > 0` reads
  bytes where the C code would dereference NULL, and a pointer iterator over
  a block at address 0 returns 0 from its first call, which cannot be told
  apart from the NULL that ends the iteration.
- `CharsIterators.CharsIterator.Next`: the pointer to the cached code point
  it returns is modelled as the code point itself.
- The string's codepoint iterator over its own text is not part of the
  source file (its `NC_FEATURE_ITERATOR` block is empty).
