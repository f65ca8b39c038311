/** The owning UTF-8 string of `ncstd_string/src/string.c`: a raw buffer of
    bytes (objects of size 1) and a size in bytes. The buffer always has room
    for one byte past the text; the constructors, `clear`, `pop` and
    `push_string_view` write a NUL terminator there, `push_unchecked` does
    not. Borrowed C strings and views point into a memory that is a separate
    byte sequence. */
module Strings {
  import opened Wrappers
  import opened Memory
  import opened Utf8
  import opened RawBuffers
  import opened StringViews

  const STRING_GROWTH_FACTOR: nat := 2
  const NULL_TERMINATOR: Byte := 0

  /** Some byte of `s[..n]` is not a continuation byte. */
  predicate HasLead(s: seq<Byte>, n: nat)
    requires n <= |s|
  {
    exists k :: 0 <= k < n && !IsContinuationByte(s[k])
  }

  /** The index where the backward scan of `nc_string_pop` stops: the last
      byte of `s[..n]` that is not a continuation byte. */
  function LastLead(s: seq<Byte>, n: nat): (i: nat)
    requires n <= |s| && HasLead(s, n)
    ensures i < n && !IsContinuationByte(s[i])
    ensures forall k :: i < k < n ==> IsContinuationByte(s[k])
    decreases n
  {
    if !IsContinuationByte(s[n - 1]) then n - 1
    else
      assert HasLead(s, n - 1) by {
        var k :| 0 <= k < n && !IsContinuationByte(s[k]);
        assert k < n - 1;
      }
      LastLead(s, n - 1)
  }

  class NcString {
    const buffer: RawBuffer
    var size: nat

    /** A byte buffer with room for the text and one more byte. */
    ghost predicate Valid()
      reads this, buffer
    {
      buffer.Valid() && buffer.objectSize == 1 && size < buffer.capacity
    }

    /** The byte after the text is the NUL terminator. */
    ghost predicate Terminated()
      reads this, buffer, buffer.data
      requires Valid()
    {
      buffer.data[size] == NULL_TERMINATOR
    }

    /** `nc_string_empty`: a one-byte buffer holding only the terminator. */
    constructor Empty()
      ensures Valid() && Terminated() && size == 0 && buffer.capacity == 1
      ensures fresh(buffer) && fresh(buffer.data)
    {
      buffer := new RawBuffer.InitWithObjects([NULL_TERMINATOR], 1, 1);
      size := 0;
    }

    /** `nc_string_with_capacity`: a buffer of `capacity` bytes whose first
        byte is the terminator. The source leaves a capacity of 0 open; the
        terminator write then lies outside the block. */
    constructor WithCapacity(capacity: nat)
      requires capacity >= 1
      ensures Valid() && Terminated() && size == 0 && buffer.capacity == capacity
      ensures fresh(buffer) && fresh(buffer.data)
    {
      var b := new RawBuffer.InitWithCapacity(capacity, 1);
      b.SetUnchecked([NULL_TERMINATOR], 0, 1);
      buffer := b;
      size := 0;
    }

    /** `nc_string_from_c_str_unchecked`: copies the C string at `cStr`
        together with its terminator; the size is its `strlen`. */
    constructor FromCStrUnchecked(mem: seq<Byte>, cStr: Addr)
      requires cStr != NULL && cStr < |mem| && 0 in mem[cStr..]
      ensures Valid() && Terminated()
      ensures size == StrLen(mem[cStr..]) && buffer.capacity == size + 1
      ensures buffer.data[..size] == mem[cStr..cStr + size]
      ensures forall k :: 0 <= k < size ==> buffer.data[k] != NULL_TERMINATOR
      ensures fresh(buffer) && fresh(buffer.data)
    {
      var length := StrLen(mem[cStr..]);
      assert mem[cStr..cStr + length + 1] == mem[cStr..][..length + 1];
      buffer := new RawBuffer.InitWithObjects(mem[cStr..cStr + length + 1], length + 1, 1);
      size := length;
    }

    /** `nc_string_with_length_unchecked`: copies `length` bytes from
        `chars` into a buffer of `length + 1` bytes and terminates them. */
    constructor WithLengthUnchecked(mem: seq<Byte>, chars: Addr, length: nat)
      requires chars + length <= |mem|
      ensures Valid() && Terminated() && size == length && buffer.capacity == length + 1
      ensures buffer.data[..length] == mem[chars..chars + length]
      ensures fresh(buffer) && fresh(buffer.data)
    {
      var b := new RawBuffer.InitWithCapacity(length + 1, 1);
      b.SetMultipleUnchecked(mem[chars..chars + length], 0, length, 1);
      b.SetUnchecked([NULL_TERMINATOR], length, 1);
      assert b.data[..length] == mem[chars..chars + length] by {
        assert forall k :: 0 <= k < length ==> b.data[k] == mem[chars + k];
      }
      buffer := b;
      size := length;
    }

    /** `nc_string_size`: the length of the text in bytes, which leaves
        room for the terminator in the buffer. */
    function Size(): (n: nat)
      reads this, buffer
      ensures Valid() ==> n < buffer.capacity
    {
      size
    }

    /** `nc_string_is_empty`. */
    predicate IsEmpty()
      reads this, buffer
    {
      Size() == 0
    }

    /** `nc_string_capacity`: the capacity of the buffer, in bytes, which
        exceeds the size. */
    function Capacity(): (c: nat)
      reads this, buffer
      ensures Valid() ==> c > size
    {
      buffer.capacity
    }

    /** `nc_p_string_terminate_unchecked`: writes the terminator at byte
        `size`; every other byte is kept. */
    method TerminateUnchecked()
      requires Valid()
      modifies buffer.data
      ensures Valid() && Terminated()
      ensures buffer.data[..] == old(buffer.data[..])[size := NULL_TERMINATOR]
    {
      buffer.SetUnchecked([NULL_TERMINATOR], size, 1);
      assert buffer.data[..] == old(buffer.data[..])[size := NULL_TERMINATOR] by {
        forall k | 0 <= k < buffer.data.Length
          ensures buffer.data[k] == old(buffer.data[..])[size := NULL_TERMINATOR][k]
        {
          if k == size {
            assert buffer.data[..][size..size + 1] == [NULL_TERMINATOR];
          }
        }
      }
    }

    /** `nc_string_clear`: an empty string is left alone; otherwise the size
        drops to 0 and byte 0 becomes the terminator. The capacity and the
        block stay. */
    method Clear()
      requires Valid()
      modifies this, buffer.data
      ensures Valid() && buffer.capacity == old(buffer.capacity) && buffer.data == old(buffer.data)
      ensures size == 0
      ensures old(size) == 0 ==> buffer.data[..] == old(buffer.data[..])
      ensures old(size) > 0 ==> Terminated() && buffer.data[..] == old(buffer.data[..])[0 := NULL_TERMINATOR]
    {
      if size == 0 {
        return;
      }
      size := 0;
      TerminateUnchecked();
    }

    /** `nc_string_reserve`: grows the buffer, amortised with factor 2, to
        hold `newCapacity` bytes and the terminator. The size and every byte
        the buffer held are kept. */
    method Reserve(newCapacity: nat)
      requires Valid()
      modifies buffer
      ensures Valid() && size == old(size)
      ensures old(newCapacity + 1 < buffer.capacity) ==>
        buffer.capacity == old(buffer.capacity) && buffer.data == old(buffer.data)
      ensures old(newCapacity + 1 >= buffer.capacity) ==> (
        fresh(buffer.data) &&
        buffer.capacity == (if newCapacity + 1 < old(buffer.capacity) * STRING_GROWTH_FACTOR
                            then old(buffer.capacity) * STRING_GROWTH_FACTOR else newCapacity + 1))
      ensures buffer.capacity >= newCapacity + 1 && buffer.capacity >= old(buffer.capacity)
      ensures old(buffer.data.Length) <= buffer.data.Length
      ensures buffer.data[..old(buffer.data.Length)] == old(buffer.data[..])
    {
      buffer.GrowAmortized(newCapacity + 1, STRING_GROWTH_FACTOR, 1);
    }

    /** `nc_string_pop`: nothing on an empty string. Otherwise it scans back
        from the last byte to the last byte that is not a continuation byte,
        decodes the code point there, lowers the size by that code point's
        width and terminates the text. The scan's `i >= 0` on an unsigned
        index never fails, so the source relies on the text holding such a
        byte; the decoder must stay inside the block and the width must not
        exceed the size. */
    method Pop() returns (r: Option<Char32>)
      requires Valid()
      requires size > 0 ==> (
        HasLead(buffer.data[..], size) &&
        var i := LastLead(buffer.data[..], size);
        var w := CharacterWidthUnchecked(buffer.data[i]);
        w <= size && i + w <= buffer.capacity)
      modifies this, buffer.data
      ensures Valid() && buffer.data == old(buffer.data) && buffer.capacity == old(buffer.capacity)
      ensures old(size) == 0 ==> r == None && size == 0 && buffer.data[..] == old(buffer.data[..])
      ensures old(size) > 0 ==> (
        Terminated() &&
        var i := LastLead(old(buffer.data[..]), old(size));
        r == Some(Decode(old(buffer.data[..])[i..])) &&
        size == old(size) - CharacterWidthUnchecked(old(buffer.data[i])) &&
        buffer.data[..] == old(buffer.data[..])[size := NULL_TERMINATOR])
    {
      if IsEmpty() {
        return None;
      }

      ghost var last := LastLead(buffer.data[..], size);
      var i := size - 1;
      // The source's loop condition `i >= 0` holds of every unsigned index.
      while true
        invariant last <= i < size
        invariant size == old(size) && buffer.data[..] == old(buffer.data[..])
        decreases i
      {
        var byte := buffer.Get(i, 1);
        if !IsContinuationByte(buffer.data[byte.value]) {
          var ch, charWidth := DecodeCharUnchecked(buffer.data[..], i);
          size := size - charWidth;
          TerminateUnchecked();
          return Some(ch);
        }
        i := i - 1;
      }
    }

    /** `nc_string_push_unchecked` as written: reserves room for four more
        bytes, then encodes `ch` at byte 0 of the buffer, not at the end of
        the text, and adds its width to the size without writing a
        terminator. The bytes after the encoding are those the buffer held. */
    method PushUnchecked(ch: Char32)
      requires Valid()
      modifies this, buffer, buffer.data
      ensures Valid() && (buffer.data == old(buffer.data) || fresh(buffer.data))
      ensures size == old(size) + EncodedWidth(ch)
      ensures buffer.capacity >= old(size) + 5 && buffer.capacity >= old(buffer.capacity)
      ensures buffer.data[..EncodedWidth(ch)] == Encode(ch)
      ensures forall k :: EncodedWidth(ch) <= k < old(buffer.data.Length) ==> buffer.data[k] == old(buffer.data[k])
    {
      ghost var before := buffer.data[..];
      Reserve(size + 4);
      ghost var grown := buffer.data[..];
      var width := EncodeCharUnchecked(buffer.data, 0, ch);
      size := size + width;
      WrittenOverGrown(before, grown, buffer.data[..], 0, Encode(ch));
    }

    /** `nc_string_push_string_view`: reserves room for the view, copies its
        bytes to the end of the text and terminates the longer text. */
    method PushStringView(mem: seq<Byte>, v: StringView)
      requires Valid() && InMemory(mem, v)
      modifies this, buffer, buffer.data
      ensures Valid() && Terminated() && (buffer.data == old(buffer.data) || fresh(buffer.data))
      ensures size == old(size) + v.size
      ensures buffer.capacity >= old(buffer.capacity)
      ensures buffer.data[..old(size)] == old(buffer.data[..size])
      ensures buffer.data[old(size)..size] == StringViews.Bytes(mem, v)
    {
      var bytes := v.cstr;
      var length := v.size;
      ghost var before := buffer.data[..];
      Reserve(size + length);
      ghost var grown := buffer.data[..];
      buffer.SetMultipleUnchecked(mem[bytes..bytes + length], size, length, 1);
      ghost var copied := buffer.data[..];
      WrittenOverGrown(before, grown, copied, size, mem[bytes..bytes + length]);
      size := size + length;
      TerminateUnchecked();
      TerminatedAfter(copied, buffer.data[..], old(size), size);
    }
  }

  /** Bytes `src` written at `at` over a grown copy of `before`: they read
      back there, and the bytes of `before` outside them are kept. */
  lemma WrittenOverGrown(before: seq<Byte>, grown: seq<Byte>, after: seq<Byte>, at: nat, src: seq<Byte>)
    requires |before| <= |grown| && grown[..|before|] == before
    requires at + |src| <= |grown| && after == Overwrite(grown, at, src)
    ensures after[at..at + |src|] == src
    ensures forall k :: 0 <= k < |before| && !(at <= k < at + |src|) ==> after[k] == before[k]
    ensures at <= |before| ==> after[..at] == before[..at]
  {
    assert forall k :: 0 <= k < |before| ==> grown[k] == before[k] by {
      forall k | 0 <= k < |before| ensures grown[k] == before[k] {
        assert grown[..|before|][k] == grown[k];
      }
    }
  }

  /** Writing the terminator past `end` keeps the bytes before it. */
  lemma TerminatedAfter(copied: seq<Byte>, after: seq<Byte>, start: nat, end: nat)
    requires start <= end < |copied| && after == copied[end := NULL_TERMINATOR]
    ensures after[..start] == copied[..start] && after[start..end] == copied[start..end]
  {
  }

  /** `nc_string_from_string_view`: a string holding a copy of the view's
      bytes. */
  method FromStringView(mem: seq<Byte>, v: StringView) returns (s: NcString)
    requires InMemory(mem, v)
    ensures fresh(s) && fresh(s.buffer) && s.Valid() && s.Terminated()
    ensures s.size == v.size && s.buffer.capacity == v.size + 1
    ensures s.buffer.data[..s.size] == StringViews.Bytes(mem, v)
  {
    s := new NcString.WithLengthUnchecked(mem, v.cstr, v.size);
  }

  /** `nc_string_from_c_str`: none exactly when the validator rejects the
      bytes before the first NUL; otherwise the string
      `nc_string_from_c_str_unchecked` builds. */
  method FromCStr(mem: seq<Byte>, cStr: Addr) returns (r: Option<NcString>)
    requires cStr != NULL && cStr < |mem| && 0 in mem[cStr..]
    ensures r.None? <==> !ValidFrom(mem[cStr..cStr + StrLen(mem[cStr..])], 0)
    ensures r.Some? ==> (
      fresh(r.value) && fresh(r.value.buffer) &&
      r.value.Valid() && r.value.Terminated() &&
      r.value.size == StrLen(mem[cStr..]) && r.value.buffer.capacity == r.value.size + 1 &&
      r.value.buffer.data[..r.value.size] == mem[cStr..cStr + r.value.size])
  {
    var length := StrLen(mem[cStr..]);
    var ok := IsValid(mem[cStr..cStr + length]);
    if !ok {
      return None;
    }
    var s := new NcString.FromCStrUnchecked(mem, cStr);
    return Some(s);
  }

  // ---------------------------------------------------------------------
  // The text of a string

  /** Texts the validator accepts stay accepted when concatenated, so
      `push_string_view` of accepted bytes onto an accepted text gives an
      accepted text. */
  lemma {:induction false} ValidAppend(a: seq<Byte>, b: seq<Byte>, i: nat)
    requires i <= |a| && ValidFrom(a, i) && ValidFrom(b, 0)
    ensures ValidFrom(a + b, i)
    decreases |a| - i
  {
    var t := a + b;
    if i == |a| {
      ValidShift(b, a, 0);
    } else {
      var w := CharacterWidth(a[i]);
      assert forall k :: i <= k < i + w ==> t[k] == a[k];
      if w > 1 {
        assert forall k :: i + 2 <= k < i + w ==> t[k] == a[k];
      }
      ValidAppend(a, b, i + w);
    }
  }

  /** Bytes in front of an accepted text do not change its verdict. */
  lemma {:induction false} ValidShift(b: seq<Byte>, a: seq<Byte>, i: nat)
    requires i <= |b| && ValidFrom(b, i)
    ensures ValidFrom(a + b, |a| + i)
    decreases |b| - i
  {
    if i < |b| {
      var t := a + b;
      var w := CharacterWidth(b[i]);
      assert forall k :: i <= k < |b| ==> t[|a| + k] == b[k];
      ValidShift(b, a, i + w);
    }
  }

  /** The first byte of an encoding is never a continuation byte. */
  lemma EncodeLeadNotContinuation(c: Char32)
    requires c <= MAX_CODEPOINT
    ensures !IsContinuationByte(Encode(c)[0])
  {
    var w := EncodedWidth(c);
    if w > 1 {
      assert Encode(c)[0] == LeadingByte(c, w);
    }
  }

  /** On a text that encodes the code points `cs`, the backward scan of
      `pop` stops at the first byte of the last code point's encoding, and
      the code point decoded there is that last code point: `pop` returns
      it and leaves exactly the encoding of the others. */
  lemma PopEncoded(s: seq<Byte>, n: nat, cs: seq<Char32>)
    requires n <= |s| && s[..n] == EncodeAll(cs) && |cs| > 0
    requires forall k :: 0 <= k < |cs| ==> cs[k] <= MAX_CODEPOINT
    ensures HasLead(s, n)
    ensures var i := LastLead(s, n);
      i == |EncodeAll(cs[..|cs| - 1])| && s[..i] == EncodeAll(cs[..|cs| - 1]) &&
      CharacterWidthUnchecked(s[i]) == n - i && Decode(s[i..]) == cs[|cs| - 1]
  {
    var init, c := cs[..|cs| - 1], cs[|cs| - 1];
    var e := Encode(c);
    var p := |EncodeAll(init)|;
    EncodeAllSnoc(cs);
    DecodeEncode(c);
    EncodeShape(c);
    EncodeLeadNotContinuation(c);
    PrefixOfPrefix(s, p, n);
    LastLeadOfSequence(s, n, p, e);
    DecodePrefixOnly(e, s[p..]);
  }

  /** The encoding of a text is that of all its code points but the last,
      followed by that of the last. */
  lemma EncodeAllSnoc(cs: seq<Char32>)
    requires |cs| > 0
    ensures EncodeAll(cs) == EncodeAll(cs[..|cs| - 1]) + Encode(cs[|cs| - 1])
  {
    var init, c := cs[..|cs| - 1], cs[|cs| - 1];
    assert cs == init + [c];
    EncodeAllAppend(init, [c]);
    EncodeAllSingle(c);
  }

  lemma EncodeAllSingle(c: Char32)
    ensures EncodeAll([c]) == Encode(c)
  {
    assert [c][1..] == [];
  }

  lemma PrefixOfPrefix(s: seq<Byte>, p: nat, n: nat)
    requires p <= n <= |s|
    ensures s[..p] == s[..n][..p] && s[p..n] == s[..n][p..]
  {
  }

  /** When `s[p..n]` is one sequence, a non-continuation byte followed by
      continuation bytes, the backward scan from `n` stops at `p`. */
  lemma LastLeadOfSequence(s: seq<Byte>, n: nat, p: nat, e: seq<Byte>)
    requires p + |e| == n <= |s| && 0 < |e| && s[p..n] == e
    requires !IsContinuationByte(e[0]) && forall k :: 1 <= k < |e| ==> IsContinuationByte(e[k])
    ensures HasLead(s, n) && LastLead(s, n) == p && s[p..][..|e|] == e
  {
    assert s[p] == e[0];
    assert forall k :: p < k < n ==> s[k] == e[k - p];
    assert HasLead(s, n);
  }

  // ---------------------------------------------------------------------
  // Scenarios

  /** The validator accepts `C3 A9 41` but rejects `C3 A9`, the text `pop`
      leaves after removing the `41`: popping does not keep a text
      accepted. */
  lemma PopBreaksValidity()
    ensures ValidFrom([0xC3, 0xA9, 0x41], 0) && !ValidFrom([0xC3, 0xA9], 0)
    ensures var s: seq<Byte> := [0xC3, 0xA9, 0x41];
      HasLead(s, 3) && LastLead(s, 3) == 2 && CharacterWidthUnchecked(s[2]) == 1
  {
    assert ValidFrom([0xC3, 0xA9, 0x41], 2);
  }

  /** Pushing U+1F600 onto an empty string gives a text of four bytes;
      popping it gives the code point back and an empty string. */
  method PushPopFourByteChar() returns (pushedSize: nat, popped: Option<Char32>, finalSize: nat)
    ensures pushedSize == 4 && popped == Some(0x1F600) && finalSize == 0
  {
    var s := new NcString.Empty();
    s.PushUnchecked(0x1F600);
    pushedSize := s.size;
    EncodeAllSingle(0x1F600);
    PopEncoded(s.buffer.data[..], s.size, [0x1F600]);
    popped := s.Pop();
    finalSize := s.size;
  }

  /** Pushing `B` onto the text `A` as written: the encoding of `B` lands on
      byte 0, over the `A`, and the old terminator becomes part of the
      text, which reads `B` NUL instead of `AB`. */
  method PushOntoText() returns (text: seq<Byte>)
    ensures text == [0x42, 0x00] && text != [0x41, 0x42]
  {
    var s := new NcString.WithLengthUnchecked([0x00, 0x41], 1, 1);
    s.PushUnchecked(0x42);
    text := s.buffer.data[..s.size];
  }
}
