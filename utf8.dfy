/** The UTF-8 codec of `ncstd_string/src/utf8.c`, as written: byte
    classification, the scalar-value check, the bit-packing encoder and
    decoder, and the whole-buffer validator. A `char32_t` is a `Char32`; a
    `uint8_t*` argument is a byte array or sequence with an offset. Bit
    operations are written as the arithmetic they amount to (see `Byte`). */
module Utf8 {
  import opened Memory

  /** A `char32_t`. */
  type Char32 = c: int | 0 <= c < 0x1_0000_0000

  const CONTINUATION_BYTE_MARKER: Byte := 0x80

  /** The largest Unicode code point. */
  const MAX_CODEPOINT: Char32 := 0x10FFFF

  // ---------------------------------------------------------------------
  // Byte classification

  /** `x & nc_p_leading_byte_mask(width)`: the mask `0xFF >> (width + 1)`
      keeps the low `7 - width` bits, the payload of a `width`-byte leading
      byte (for the widths 2 to 4 the codec uses). */
  function LeadingPayload(x: nat, width: nat): (r: nat)
    requires 2 <= width <= 4
    ensures r < [0, 0, 0x20, 0x10, 0x08][width]
  {
    if width == 2 then x % 0x20
    else if width == 3 then x % 0x10
    else x % 0x08
  }

  /** `x & CONTINUATION_BYTE_MASK`: the mask `0x3F` keeps the low six bits,
      the payload of a continuation byte. */
  function ContinuationPayload(x: nat): (r: nat)
    ensures r < 0x40
  {
    x % 0x40
  }

  /** `nc_p_leading_byte_marker(width)`, that is `~(0xFF >> width)` computed
      on an `int` and truncated to `uint8_t` on return: the high bits of a
      `width`-byte leading byte. They lie above the payload bits (the marker
      is a multiple of the payload's bound and their sum fits in a byte), so
      setting them on a payload is an addition. */
  function LeadingByteMarker(width: nat): (m: Byte)
    requires 2 <= width <= 4
    ensures m % [0, 0, 0x20, 0x10, 0x08][width] == 0
    ensures m + [0, 0, 0x20, 0x10, 0x08][width] <= 0x100
  {
    if width == 2 then 0xC0
    else if width == 3 then 0xE0
    else 0xF0
  }

  /** `nc_utf8_is_continuation_byte`: the byte has the bit layout `10xxxxxx`. */
  predicate IsContinuationByte(b: Byte)
    ensures IsContinuationByte(b) <==> b / 0x40 == 0x2
  {
    0x80 <= b <= 0xBF
  }

  /** Sequence length announced by a leading byte according to the bit layout
      of section 3 of RFC 3629 (`0xxxxxxx`, `110xxxxx`, `1110xxxx`,
      `11110xxx`), read off its high bits; 0 for any other byte. */
  function PatternWidth(b: Byte): nat
  {
    if b / 0x80 == 0x0 then 1
    else if b / 0x20 == 0x6 then 2
    else if b / 0x10 == 0xE then 3
    else if b / 0x08 == 0x1E then 4
    else 0
  }

  /** `nc_utf8_character_width`. It agrees with the bit layout of RFC 3629 on
      every byte except the continuation bytes, which it classes as leading
      bytes of three-byte sequences. */
  function CharacterWidth(b: Byte): (w: nat)
    ensures w <= 4
    ensures IsContinuationByte(b) ==> w == 3
    ensures !IsContinuationByte(b) ==> w == PatternWidth(b)
    ensures w == 0 <==> b >= 0xF8
  {
    if b < 0x80 then 1
    else if 0xC0 <= b <= 0xDF then 2
    else if b <= 0xEF then 3
    else if b <= 0xF7 then 4
    else 0
  }

  /** `nc_utf8_character_width_unchecked`: never 0, and equal to the checked
      width on every byte that the checked width classes correctly. */
  function CharacterWidthUnchecked(b: Byte): (w: nat)
    ensures 1 <= w <= 4
    ensures (b < 0x80 || 0xC0 <= b <= 0xF7) ==> w == CharacterWidth(b)
    ensures b >= 0xF8 ==> w == 4
  {
    if b < 0x80 then 1
    else if b <= 0xDF then 2
    else if b <= 0xEF then 3
    else 4
  }

  /** `nc_is_valid_unicode_codepoint`: a Unicode scalar value, that is a code
      point that is not a UTF-16 surrogate. */
  predicate IsValidCodepoint(c: Char32)
    ensures IsValidCodepoint(c) <==> c <= MAX_CODEPOINT && (c < 0xD800 || c > 0xDFFF)
  {
    if c > MAX_CODEPOINT then false
    else if 0xD800 <= c <= 0xDFFF then false
    else true
  }

  // ---------------------------------------------------------------------
  // Encoding

  /** Number of bytes `nc_utf8_encode_char_unchecked` writes for `c`; 0 above
      U+10FFFF. */
  function EncodedWidth(c: Char32): (w: nat)
    ensures w <= 4
    ensures w == 0 <==> c > MAX_CODEPOINT
  {
    if c < 0x80 then 1
    else if c <= 0x07FF then 2
    else if c <= 0xFFFF then 3
    else if c <= MAX_CODEPOINT then 4
    else 0
  }

  /** `c` after `groups` rounds of the encoder's `ch >>= 6`. */
  function ShiftedGroups(c: Char32, groups: nat): Char32
  {
    if groups == 0 then c else ShiftedGroups(c, groups - 1) / 64
  }

  /** Continuation byte carrying the six bits of `c` above its lowest `groups`
      groups of six bits: `CONTINUATION_BYTE_MARKER | (ch & 0x3F)`. */
  function ContinuationByte(c: Char32, groups: nat): (b: Byte)
    ensures IsContinuationByte(b)
  {
    CONTINUATION_BYTE_MARKER + ContinuationPayload(ShiftedGroups(c, groups))
  }

  /** Leading byte of the `width`-byte encoding of `c`:
      `marker | (ch & mask)` once `ch` has lost its lower groups. */
  function LeadingByte(c: Char32, width: nat): (b: Byte)
    requires 2 <= width <= 4
    ensures CharacterWidth(b) == width && CharacterWidthUnchecked(b) == width
  {
    LeadingByteMarker(width) + LeadingPayload(ShiftedGroups(c, width - 1), width)
  }

  /** The `count` continuation bytes that follow the leading byte, highest
      group of six bits first. */
  function ContinuationBytes(c: Char32, count: nat): (t: seq<Byte>)
    ensures |t| == count
    ensures forall k :: 0 <= k < count ==> t[k] == ContinuationByte(c, count - 1 - k)
  {
    seq(count, k requires 0 <= k < count => ContinuationByte(c, count - 1 - k))
  }

  /** The bytes `nc_utf8_encode_char_unchecked` writes for `c`: nothing above
      U+10FFFF, one byte for ASCII, otherwise the leading byte followed by the
      continuation bytes. */
  function Encode(c: Char32): (e: seq<Byte>)
    ensures |e| == EncodedWidth(c)
  {
    var w := EncodedWidth(c);
    if w == 0 then []
    else if w == 1 then [c % 0x80]
    else [LeadingByte(c, w)] + ContinuationBytes(c, w - 1)
  }

  /** The encoding is a well-shaped sequence: its first byte announces its
      length to both width functions and every later byte is a continuation
      byte. */
  lemma EncodeShape(c: Char32)
    ensures var e := Encode(c); |e| > 0 ==>
      CharacterWidth(e[0]) == |e| && CharacterWidthUnchecked(e[0]) == |e| &&
      forall k :: 1 <= k < |e| ==> IsContinuationByte(e[k])
  {
    var e := Encode(c);
    var w := EncodedWidth(c);
    if w >= 2 {
      assert forall k :: 1 <= k < w ==> e[k] == ContinuationBytes(c, w - 1)[k - 1];
    }
  }

  /** `nc_utf8_encode_char_unchecked`: writes the encoding of `ch` at
      `data[at..]` (nothing above U+10FFFF) and returns its width. */
  method EncodeCharUnchecked(data: array<Byte>, at: nat, ch: Char32) returns (width: nat)
    requires at + EncodedWidth(ch) <= data.Length
    modifies data
    ensures width == EncodedWidth(ch)
    ensures data[..] == Overwrite(old(data[..]), at, Encode(ch))
  {
    if ch < 0x80 {
      data[at] := ch % 0x80;
      return 1;
    }

    var w: nat;
    if ch <= 0x07FF {
      w := 2;
    } else if ch <= 0xFFFF {
      w := 3;
    } else if ch <= MAX_CODEPOINT {
      w := 4;
    } else {
      return 0;
    }

    ghost var tail := ContinuationBytes(ch, w - 1);
    var c := ch;
    var i := w - 1;
    while i >= 1
      invariant 0 <= i <= w - 1
      invariant c == ShiftedGroups(ch, w - 1 - i)
      invariant forall k :: at + i < k < at + w ==> data[k] == tail[k - at - 1]
      invariant forall k :: 0 <= k < data.Length && !(at + i < k < at + w) ==> data[k] == old(data[k])
    {
      data[at + i] := CONTINUATION_BYTE_MARKER + ContinuationPayload(c);
      ContinuationByteWritten(ch, w, i, c);
      c := c / 64;
      i := i - 1;
    }

    data[at] := LeadingByteMarker(w) + LeadingPayload(c, w);
    width := w;
    EncodeWritten(old(data[..]), data[..], at, ch, w, c);
  }

  /** The byte the encoder's loop writes at index `i`, once `ch` has been
      shifted for the bytes after it, is the continuation byte of the
      encoding at that index. */
  lemma ContinuationByteWritten(ch: Char32, w: nat, i: nat, c: Char32)
    requires 1 <= i < w && c == ShiftedGroups(ch, w - 1 - i)
    ensures CONTINUATION_BYTE_MARKER + ContinuationPayload(c) == ContinuationBytes(ch, w - 1)[i - 1]
  {
  }

  /** Bytes holding, at `at`, the leading byte built from `c` (the code point
      after the loop's shifts), the continuation bytes after it, and the old
      bytes elsewhere, are the old bytes overwritten with the encoding. */
  lemma EncodeWritten(before: seq<Byte>, after: seq<Byte>, at: nat, ch: Char32, w: nat, c: Char32)
    requires 2 <= w == EncodedWidth(ch) && at + w <= |before| == |after|
    requires c == ShiftedGroups(ch, w - 1) && after[at] == LeadingByteMarker(w) + LeadingPayload(c, w)
    requires forall k :: at < k < at + w ==> after[k] == ContinuationBytes(ch, w - 1)[k - at - 1]
    requires forall k :: 0 <= k < |before| && !(at < k < at + w) && k != at ==> after[k] == before[k]
    ensures after == Overwrite(before, at, Encode(ch))
  {
    var e := Encode(ch);
    var r := Overwrite(before, at, e);
    forall k | 0 <= k < |after|
      ensures after[k] == r[k]
    {
      if at <= k < at + |e| {
        assert r[k] == r[at..at + |e|][k - at] == e[k - at];
      }
    }
  }

  /** `nc_utf8_encode_char`: writes nothing and returns 0 for a value that is
      not a Unicode scalar value; otherwise behaves as the unchecked encoder. */
  method EncodeChar(data: array<Byte>, at: nat, ch: Char32) returns (width: nat)
    requires IsValidCodepoint(ch) ==> at + EncodedWidth(ch) <= data.Length
    modifies data
    ensures !IsValidCodepoint(ch) ==> width == 0 && data[..] == old(data[..])
    ensures IsValidCodepoint(ch) ==> width == EncodedWidth(ch) > 0
    ensures IsValidCodepoint(ch) ==> data[..] == Overwrite(old(data[..]), at, Encode(ch))
  {
    if !IsValidCodepoint(ch) {
      return 0;
    }
    width := EncodeCharUnchecked(data, at, ch);
  }

  // ---------------------------------------------------------------------
  // Decoding

  /** Value folded from the first `k` bytes of a `width`-byte sequence at the
      start of `s`: the leading byte's payload bits, then six bits from each
      continuation byte (`ch = (ch << 6) | (byte & 0x3F)`). No bit is shifted
      out of the 32-bit word: the result stays below 2^(5 + 6(k - 1)). */
  function DecodePrefix(s: seq<Byte>, width: nat, k: nat): (r: nat)
    requires 1 <= k <= width && 2 <= width <= 4 && width <= |s|
    ensures r < [0x20, 0x800, 0x2_0000, 0x80_0000][k - 1]
  {
    if k == 1 then LeadingPayload(s[0], width)
    else DecodePrefix(s, width, k - 1) * 64 + ContinuationPayload(s[k - 1])
  }

  /** The code point `nc_utf8_decode_char_unchecked` returns for the bytes at
      the start of `s`; it consumes `CharacterWidthUnchecked(s[0])` bytes. */
  function Decode(s: seq<Byte>): Char32
    requires 0 < |s| && CharacterWidthUnchecked(s[0]) <= |s|
  {
    var w := CharacterWidthUnchecked(s[0]);
    if w == 1 then s[0] else DecodePrefix(s, w, w)
  }

  /** `nc_utf8_decode_char_unchecked`: decodes the sequence at `data[at..]`
      and reports the number of bytes it consumed. */
  method DecodeCharUnchecked(data: seq<Byte>, at: nat) returns (ch: Char32, consumed: nat)
    requires at < |data| && at + CharacterWidthUnchecked(data[at]) <= |data|
    ensures consumed == CharacterWidthUnchecked(data[at])
    ensures 1 <= consumed <= 4
    ensures ch == Decode(data[at..])
  {
    var leading := data[at];
    ch := leading;

    var w := CharacterWidthUnchecked(leading);
    consumed := w;
    if w == 1 {
      return;
    }

    ch := LeadingPayload(ch, w);

    var i := 1;
    while i < w
      invariant 1 <= i <= w
      invariant ch == DecodePrefix(data[at..], w, i)
    {
      ch := ch * 64 + ContinuationPayload(data[at + i]);
      i := i + 1;
    }
  }

  /** Round trip: decoding the encoding of any code point up to U+10FFFF
      (surrogates included) gives back that code point, and the decoder
      consumes exactly the bytes the encoder wrote. */
  lemma DecodeEncode(c: Char32)
    requires c <= MAX_CODEPOINT
    ensures var e := Encode(c); 0 < |e| && CharacterWidthUnchecked(e[0]) == |e| && Decode(e) == c
  {
    EncodeShape(c);
    var w := EncodedWidth(c);
    if w == 2 {
      DecodeEncode2(c);
    } else if w == 3 {
      DecodeEncode3(c);
    } else if w == 4 {
      DecodeEncode4(c);
    }
  }

  lemma DecodeEncode2(c: Char32)
    requires EncodedWidth(c) == 2
    ensures Decode(Encode(c)) == c
  {
    EncodeShape(c);
    EncodedBytes(c);
    DecodedBytes2(Encode(c));
    Packing2(c);
  }

  lemma DecodeEncode3(c: Char32)
    requires EncodedWidth(c) == 3
    ensures Decode(Encode(c)) == c
  {
    EncodeShape(c);
    EncodedBytes(c);
    DecodedBytes3(Encode(c));
    Packing3(c);
  }

  lemma DecodeEncode4(c: Char32)
    requires EncodedWidth(c) == 4
    ensures Decode(Encode(c)) == c
  {
    EncodeShape(c);
    EncodedBytes(c);
    DecodedBytes4(Encode(c));
    Packing4(c);
  }

  /** The bytes of a multi-byte encoding as arithmetic on the code point. */
  lemma EncodedBytes(c: Char32)
    ensures var e := Encode(c); |e| >= 2 ==>
      e[|e| - 1] == 0x80 + c % 64 &&
      (|e| == 2 ==> e[0] == 0xC0 + c / 64 % 32) &&
      (|e| == 3 ==> e[0] == 0xE0 + c / 64 / 64 % 16 && e[1] == 0x80 + c / 64 % 64) &&
      (|e| == 4 ==> e[0] == 0xF0 + c / 64 / 64 / 64 % 8 && e[1] == 0x80 + c / 64 / 64 % 64 &&
                    e[2] == 0x80 + c / 64 % 64)
  {
    var e := Encode(c);
    var w := EncodedWidth(c);
    if w >= 2 {
      var t := ContinuationBytes(c, w - 1);
      assert e[1..] == t;
      assert ShiftedGroups(c, 1) == c / 64;
      assert ShiftedGroups(c, 2) == c / 64 / 64;
      assert ShiftedGroups(c, 3) == c / 64 / 64 / 64;
    }
  }

  /** What the decoder computes from the bytes of a two-, three- and
      four-byte sequence. */
  lemma DecodedBytes2(s: seq<Byte>)
    requires |s| >= 2 && CharacterWidthUnchecked(s[0]) == 2
    ensures Decode(s) == s[0] as int % 32 * 64 + s[1] % 64
  {
    assert DecodePrefix(s, 2, 1) == s[0] % 32;
  }

  lemma DecodedBytes3(s: seq<Byte>)
    requires |s| >= 3 && CharacterWidthUnchecked(s[0]) == 3
    ensures Decode(s) == (s[0] as int % 16 * 64 + s[1] % 64) * 64 + s[2] % 64
  {
    assert DecodePrefix(s, 3, 2) == s[0] as int % 16 * 64 + s[1] % 64;
  }

  lemma DecodedBytes4(s: seq<Byte>)
    requires |s| >= 4 && CharacterWidthUnchecked(s[0]) == 4
    ensures Decode(s) == ((s[0] as int % 8 * 64 + s[1] % 64) * 64 + s[2] % 64) * 64 + s[3] % 64
  {
    assert DecodePrefix(s, 4, 2) == s[0] as int % 8 * 64 + s[1] % 64;
    assert DecodePrefix(s, 4, 3) == (s[0] as int % 8 * 64 + s[1] % 64) * 64 + s[2] % 64;
  }

  /** Unpacking the six-bit groups of a code point and packing them again
      gives the code point back. */
  lemma Packing2(c: int)
    requires 0 <= c < 0x800
    ensures (0xC0 + c / 64 % 32) % 32 * 64 + (0x80 + c % 64) % 64 == c
  {
  }

  lemma Packing3(c: int)
    requires 0 <= c < 0x1_0000
    ensures ((0xE0 + c / 64 / 64 % 16) % 16 * 64 + (0x80 + c / 64 % 64) % 64) * 64 + (0x80 + c % 64) % 64 == c
  {
    var a := c / 64;
    Regroup(c);
    Regroup(a);
    assert a / 64 < 16;
  }

  lemma Packing4(c: int)
    requires 0 <= c < 0x20_0000
    ensures (((0xF0 + c / 64 / 64 / 64 % 8) % 8 * 64 + (0x80 + c / 64 / 64 % 64) % 64) * 64
      + (0x80 + c / 64 % 64) % 64) * 64 + (0x80 + c % 64) % 64 == c
  {
    var a := c / 64;
    var b := a / 64;
    Regroup(c);
    Regroup(a);
    Regroup(b);
    assert b / 64 < 8;
  }

  /** Splitting off the low six bits: `x == (x >> 6) << 6 | (x & 0x3F)`, and
      setting a marker at bit 6 or above leaves the low six bits alone. */
  lemma Regroup(x: int)
    requires 0 <= x
    ensures x == x / 64 * 64 + x % 64
    ensures (0x80 + x % 64) % 64 == x % 64
  {
  }

  /** Decoding reads only the bytes of one sequence. */
  lemma DecodePrefixOnly(s: seq<Byte>, t: seq<Byte>)
    requires 0 < |s| && CharacterWidthUnchecked(s[0]) <= |s|
    requires CharacterWidthUnchecked(s[0]) <= |t| && t[..CharacterWidthUnchecked(s[0])] == s[..CharacterWidthUnchecked(s[0])]
    ensures t[0] == s[0] && Decode(t) == Decode(s)
  {
    var w := CharacterWidthUnchecked(s[0]);
    assert t[0] == t[..w][0];
    if w > 1 {
      DecodePrefixAgree(s, t, w, w);
    }
  }

  lemma {:induction false} DecodePrefixAgree(s: seq<Byte>, t: seq<Byte>, w: nat, k: nat)
    requires 1 <= k <= w && 2 <= w <= 4 && w <= |s| && w <= |t| && s[..w] == t[..w]
    ensures DecodePrefix(s, w, k) == DecodePrefix(t, w, k)
  {
    assert s[k - 1] == s[..w][k - 1] && t[k - 1] == t[..w][k - 1];
    if k > 1 {
      DecodePrefixAgree(s, t, w, k - 1);
    }
  }
  // ---------------------------------------------------------------------
  // Validation

  /** The test `nc_utf8_is_valid` applies to the second byte of a
      `width`-byte sequence led by `lead`: a continuation byte, narrowed after
      the leading bytes 0xE0, 0xED, 0xF0 and 0xF3. */
  predicate SecondByteAccepted(lead: Byte, second: Byte, width: nat)
  {
    if width == 2 then IsContinuationByte(second)
    else if width == 3 then
      !((lead == 0xE0 && (second < 0xA0 || second > 0xBF)) ||
        (lead == 0xED && (second < 0x80 || second > 0x9F)) ||
        !IsContinuationByte(second))
    else if width == 4 then
      !((lead == 0xF0 && (second < 0x90 || second > 0xBF)) ||
        (lead == 0xF3 && (second < 0x80 || second > 0x8F)) ||
        !IsContinuationByte(second))
    else false
  }

  /** Every byte of `s[lo..hi]` is a continuation byte. */
  predicate AllContinuation(s: seq<Byte>, lo: nat, hi: nat)
    requires lo <= hi <= |s|
  {
    forall k :: lo <= k < hi ==> IsContinuationByte(s[k])
  }

  /** The verdict of `nc_utf8_is_valid` on `s` once its index stands at the
      leading byte `s[i]`. A multi-byte sequence is rejected unless at least
      one byte follows it (the check `i + char_width - 1 >= size` is made
      after `i` has moved past the leading byte). */
  predicate ValidFrom(s: seq<Byte>, i: nat)
    requires i <= |s|
    decreases |s| - i
  {
    if i == |s| then true
    else
      var w := CharacterWidth(s[i]);
      if w == 1 then ValidFrom(s, i + 1)
      else if i + w >= |s| then false
      else if w == 0 then false
      else if !SecondByteAccepted(s[i], s[i + 1], w) then false
      else if !AllContinuation(s, i + 2, i + w) then false
      else ValidFrom(s, i + w)
  }

  /** `nc_utf8_is_valid(data, size)`. */
  method IsValid(data: seq<Byte>) returns (ok: bool)
    ensures ok == ValidFrom(data, 0)
  {
    var i := 0;
    while i < |data|
      invariant i <= |data|
      invariant ValidFrom(data, i) == ValidFrom(data, 0)
      decreases |data| - i
    {
      ghost var start := i;
      var leading := data[i];
      i := i + 1;

      var width := CharacterWidth(leading);
      if width == 1 {
        continue;
      }

      if i + width - 1 >= |data| {
        return false;
      }

      // The source reads the second byte before its `switch` rejects a
      // width of 0; that read may lie one past the end, so it is not made here.
      if width == 0 {
        return false;
      }

      var byte2 := data[i];
      i := i + 1;
      if width == 2 {
        if !IsContinuationByte(byte2) {
          return false;
        }
      } else if width == 3 {
        if (leading == 0xE0 && (byte2 < 0xA0 || byte2 > 0xBF)) ||
           (leading == 0xED && (byte2 < 0x80 || byte2 > 0x9F)) ||
           !IsContinuationByte(byte2) {
          return false;
        }
        var byte3 := data[i];
        i := i + 1;
        if !IsContinuationByte(byte3) {
          return false;
        }
      } else {
        if (leading == 0xF0 && (byte2 < 0x90 || byte2 > 0xBF)) ||
           (leading == 0xF3 && (byte2 < 0x80 || byte2 > 0x8F)) ||
           !IsContinuationByte(byte2) {
          return false;
        }
        var byte3 := data[i];
        i := i + 1;
        if !IsContinuationByte(byte3) {
          return false;
        }
        var byte4 := data[i];
        i := i + 1;
        if !IsContinuationByte(byte4) {
          return false;
        }
      }
      assert AllContinuation(data, start + 2, start + width);
    }
    return true;
  }

  /** The validator accepts the empty input and every all-ASCII input. */
  lemma {:induction false} ValidAscii(s: seq<Byte>, i: nat)
    requires i <= |s|
    requires forall k :: i <= k < |s| ==> s[k] < 0x80
    ensures ValidFrom(s, i)
    decreases |s| - i
  {
    if i < |s| {
      ValidAscii(s, i + 1);
    }
  }

  /** An accepted input holds no byte 0xF8 to 0xFF. */
  lemma {:induction false} ValidHasNoHighByte(s: seq<Byte>, i: nat)
    requires i <= |s| && ValidFrom(s, i)
    ensures forall k :: i <= k < |s| ==> s[k] < 0xF8
    decreases |s| - i
  {
    if i < |s| {
      var w := CharacterWidth(s[i]);
      if w == 1 {
        ValidHasNoHighByte(s, i + 1);
      } else {
        ValidHasNoHighByte(s, i + w);
        assert forall k :: i + 2 <= k < i + w ==> IsContinuationByte(s[k]);
      }
    }
  }

  /** A non-empty accepted input ends in an ASCII byte: a multi-byte sequence
      that ends at the last byte is rejected. */
  lemma {:induction false} ValidEndsInAscii(s: seq<Byte>, i: nat)
    requires i < |s| && ValidFrom(s, i)
    ensures s[|s| - 1] < 0x80
    decreases |s| - i
  {
    var w := CharacterWidth(s[i]);
    if w == 1 {
      if i + 1 < |s| {
        ValidEndsInAscii(s, i + 1);
      }
    } else {
      ValidEndsInAscii(s, i + w);
    }
  }

  /** What an accepted input guarantees of a sequence that starts at `i`:
      another byte follows it, its second byte lies in the range its leading
      byte admits, and its other bytes are continuation bytes. */
  lemma ValidSequenceAt(s: seq<Byte>, i: nat)
    requires i < |s| && ValidFrom(s, i)
    ensures var w := CharacterWidth(s[i]);
      1 <= w <= 4 && i + w <= |s| &&
      (w >= 2 ==> i + w < |s| && AllContinuation(s, i + 1, i + w)) &&
      (s[i] == 0xE0 ==> 0xA0 <= s[i + 1] <= 0xBF) &&
      (s[i] == 0xED ==> 0x80 <= s[i + 1] <= 0x9F) &&
      (s[i] == 0xF0 ==> 0x90 <= s[i + 1] <= 0xBF) &&
      (s[i] == 0xF3 ==> 0x80 <= s[i + 1] <= 0x8F)
  {
  }

  /** Walking an accepted input from `i`, every byte at or after `i` that is
      not a continuation byte is a position the validator stops at: no
      sequence it checks swallows such a byte. */
  lemma {:induction false} ValidReachesLead(s: seq<Byte>, i: nat, j: nat)
    requires i <= j < |s| && ValidFrom(s, i) && !IsContinuationByte(s[j])
    ensures ValidFrom(s, j)
    decreases |s| - i
  {
    if j > i {
      var w := CharacterWidth(s[i]);
      if w == 1 {
        ValidReachesLead(s, i + 1, j);
      } else if j < i + w {
        assert false;
      } else {
        ValidReachesLead(s, i + w, j);
      }
    }
  }

  /** In an accepted input, every sequence that starts at a byte which is
      not a continuation byte is followed by another byte, has continuation
      bytes after its leading byte, and its second byte lies in A0..BF after
      E0, 80..9F after ED, 90..BF after F0 and 80..8F after F3. */
  lemma ValidSequences(s: seq<Byte>, j: nat)
    requires ValidFrom(s, 0) && j < |s| && !IsContinuationByte(s[j])
    ensures var w := CharacterWidth(s[j]);
      1 <= w <= 4 && j + w <= |s| &&
      (w >= 2 ==> j + w < |s| && AllContinuation(s, j + 1, j + w)) &&
      (s[j] == 0xE0 ==> 0xA0 <= s[j + 1] <= 0xBF) &&
      (s[j] == 0xED ==> 0x80 <= s[j + 1] <= 0x9F) &&
      (s[j] == 0xF0 ==> 0x90 <= s[j + 1] <= 0xBF) &&
      (s[j] == 0xF3 ==> 0x80 <= s[j + 1] <= 0x8F)
  {
    ValidReachesLead(s, 0, j);
    ValidSequenceAt(s, j);
  }

  // ---------------------------------------------------------------------
  // Whole texts

  /** The code points of `cs` encoded one after the other. */
  function EncodeAll(cs: seq<Char32>): seq<Byte>
  {
    if |cs| == 0 then [] else Encode(cs[0]) + EncodeAll(cs[1..])
  }

  /** `s` splits into whole sequences when each leading byte's unchecked
      width is taken as the length of its sequence. */
  predicate Walkable(s: seq<Byte>)
    decreases |s|
  {
    |s| == 0 || (CharacterWidthUnchecked(s[0]) <= |s| && Walkable(s[CharacterWidthUnchecked(s[0])..]))
  }

  /** The code points the unchecked decoder yields walking `s` from its first
      byte. */
  function DecodeAll(s: seq<Byte>): seq<Char32>
    requires Walkable(s)
    decreases |s|
  {
    if |s| == 0 then [] else [Decode(s)] + DecodeAll(s[CharacterWidthUnchecked(s[0])..])
  }

  /** Encoding distributes over concatenation. */
  lemma {:induction false} EncodeAllAppend(cs: seq<Char32>, ds: seq<Char32>)
    ensures EncodeAll(cs + ds) == EncodeAll(cs) + EncodeAll(ds)
    decreases |cs|
  {
    if |cs| == 0 {
      assert cs + ds == ds;
    } else {
      assert (cs + ds)[1..] == cs[1..] + ds;
      EncodeAllAppend(cs[1..], ds);
    }
  }

  /** Decoding the encoding of code points up to U+10FFFF gives them back, one
      sequence per code point. */
  lemma {:induction false} DecodeAllEncodeAll(cs: seq<Char32>)
    requires forall k :: 0 <= k < |cs| ==> cs[k] <= MAX_CODEPOINT
    ensures Walkable(EncodeAll(cs)) && DecodeAll(EncodeAll(cs)) == cs
    decreases |cs|
  {
    if |cs| > 0 {
      var e := Encode(cs[0]);
      var s := EncodeAll(cs);
      DecodeEncode(cs[0]);
      DecodeAllEncodeAll(cs[1..]);
      assert s == e + EncodeAll(cs[1..]);
      assert s[..|e|] == e[..|e|];
      DecodePrefixOnly(e, s);
      assert s[|e|..] == EncodeAll(cs[1..]);
    }
  }
}
