/** The UTF-8 syntax of section 4 of RFC 3629, as an independent reference
    for the codec of `ncstd_string/src/utf8.c`: the encoder produces exactly
    the well-formed sequences of the scalar values, decoding well-formed text
    and encoding it again gives it back, and the validator accepts
    well-formed text followed by one ASCII byte provided every 0xF3 leading
    byte in it starts a code point of plane 12. The lemmas at the end show
    where the validator and the width function of the source depart from
    the RFC. */
module Utf8WellFormed {
  import opened Memory
  import opened Utf8

  /** Length of the UTF8-char that `lead` starts (UTF8-1 to UTF8-4 of
      section 4 of RFC 3629); 0 when no UTF8-char starts with it. */
  function SequenceLength(lead: Byte): nat
  {
    if lead <= 0x7F then 1
    else if 0xC2 <= lead <= 0xDF then 2
    else if 0xE0 <= lead <= 0xEF then 3
    else if 0xF0 <= lead <= 0xF4 then 4
    else 0
  }

  /** Smallest second byte the RFC allows after `lead`. */
  function SecondLow(lead: Byte): Byte
  {
    if lead == 0xE0 then 0xA0 else if lead == 0xF0 then 0x90 else 0x80
  }

  /** Largest second byte the RFC allows after `lead`. */
  function SecondHigh(lead: Byte): Byte
  {
    if lead == 0xED then 0x9F else if lead == 0xF4 then 0x8F else 0xBF
  }

  /** One UTF8-char starts at `s[i]`. */
  predicate CharAt(s: seq<Byte>, i: nat)
  {
    i < |s| &&
    var n := SequenceLength(s[i]);
    n >= 1 && i + n <= |s| &&
    (n >= 2 ==> SecondLow(s[i]) <= s[i + 1] <= SecondHigh(s[i])) &&
    forall k :: i + 2 <= k < i + n ==> IsContinuationByte(s[k])
  }

  /** `s[i..]` is a sequence of UTF8-chars (UTF8-octets of the RFC). */
  predicate WellFormedFrom(s: seq<Byte>, i: nat)
    requires i <= |s|
    decreases |s| - i
  {
    i == |s| || (CharAt(s, i) && WellFormedFrom(s, i + SequenceLength(s[i])))
  }

  predicate WellFormed(s: seq<Byte>)
  {
    WellFormedFrom(s, 0)
  }

  /** Every code point of `cs` is a Unicode scalar value. */
  predicate ScalarValues(cs: seq<Char32>)
  {
    forall k :: 0 <= k < |cs| ==> IsValidCodepoint(cs[k])
  }

  // ---------------------------------------------------------------------
  // Byte classification against the RFC

  /** The checked width of the source and the RFC's sequence length differ
      exactly on the continuation bytes, on 0xC0 and 0xC1 (leading bytes of
      overlong forms only) and on 0xF5 to 0xF7 (leading bytes of values above
      U+10FFFF only). */
  lemma CharacterWidthAgainstRfc(b: Byte)
    ensures CharacterWidth(b) != SequenceLength(b) <==> (0x80 <= b <= 0xC1 || 0xF5 <= b <= 0xF7)
  {
  }

  // ---------------------------------------------------------------------
  // Encoding against the RFC

  /** The encoding of a code point up to U+10FFFF is well formed exactly when
      the code point is a scalar value. */
  lemma EncodeWellFormed(c: Char32)
    requires c <= MAX_CODEPOINT
    ensures WellFormed(Encode(c)) <==> IsValidCodepoint(c)
  {
    var w := EncodedWidth(c);
    if w == 2 {
      Encode2(c);
      Lead2(c);
    } else if w == 3 {
      Encode3(c);
      Lead3(c);
      EncodeWellFormed3(c);
    } else if w == 4 {
      Encode4(c);
      Lead4(c);
    }
    WellFormedSingle(Encode(c));
  }

  lemma EncodeWellFormed3(c: Char32)
    requires 0x800 <= c <= 0xFFFF
    ensures CharAt(Encode(c), 0) <==> IsValidCodepoint(c)
  {
    Encode3(c);
    Lead3(c);
    CharAt3(0xE0 + c / 64 / 64 % 16, 0x80 + c / 64 % 64, 0x80 + c % 64);
  }

  /** Three bytes led by 0xE0 to 0xEF form a UTF8-char exactly when the
      second byte lies in the range the leading byte admits. */
  lemma CharAt3(b0: Byte, b1: Byte, b2: Byte)
    requires 0xE0 <= b0 <= 0xEF && IsContinuationByte(b1) && IsContinuationByte(b2)
    ensures CharAt([b0, b1, b2], 0) <==> SecondLow(b0) <= b1 <= SecondHigh(b0)
  {
  }

  /** A byte sequence whose leading byte announces its whole length is well
      formed exactly when it is one UTF8-char. */
  lemma WellFormedSingle(e: seq<Byte>)
    requires |e| > 0 && SequenceLength(e[0]) == |e|
    ensures WellFormed(e) <==> CharAt(e, 0)
  {
    assert WellFormedFrom(e, |e|);
  }

  /** The leading and second bytes of two-, three- and four-byte encodings,
      and the ranges of code points they mark. */
  lemma Lead2(c: Char32)
    requires 0x80 <= c <= 0x7FF
    ensures 0xC2 <= 0xC0 + c / 64 % 32 <= 0xDF
  {
  }

  lemma Lead3(c: Char32)
    requires 0x800 <= c <= 0xFFFF
    ensures var lead, second := 0xE0 + c / 64 / 64 % 16, 0x80 + c / 64 % 64;
      0xE0 <= lead <= 0xEF && 0x80 <= second <= 0xBF &&
      (lead == 0xE0 ==> second >= 0xA0) &&
      (lead == 0xED <==> 0xD000 <= c <= 0xDFFF) &&
      (lead == 0xED ==> (second <= 0x9F <==> c < 0xD800))
  {
    var a := c / 64;
    var h := a / 64;
    assert 64 * a <= c < 64 * a + 64;
    assert 64 * h <= a < 64 * h + 64;
    assert 0 <= h < 16 && h % 16 == h && a % 64 == a - 64 * h;
  }

  lemma Lead4(c: Char32)
    requires 0x1_0000 <= c <= MAX_CODEPOINT
    ensures var lead, second := 0xF0 + c / 64 / 64 / 64 % 8, 0x80 + c / 64 / 64 % 64;
      0xF0 <= lead <= 0xF4 && 0x80 <= second <= 0xBF &&
      (lead == 0xF0 ==> second >= 0x90) &&
      (lead == 0xF4 ==> second <= 0x8F)
  {
  }

  /** Well-formed texts concatenate. */
  lemma {:induction false} WellFormedAppend(a: seq<Byte>, b: seq<Byte>, i: nat)
    requires i <= |a| && WellFormedFrom(a, i) && WellFormed(b)
    ensures WellFormedFrom(a + b, i)
    decreases |a| - i
  {
    var s := a + b;
    if i == |a| {
      WellFormedShift(b, a, 0);
    } else {
      var n := SequenceLength(a[i]);
      assert s[i] == a[i];
      assert forall k :: i <= k < i + n ==> s[k] == a[k];
      WellFormedAppend(a, b, i + n);
    }
  }

  /** Prefixing bytes moves well-formedness along. */
  lemma {:induction false} WellFormedShift(b: seq<Byte>, a: seq<Byte>, i: nat)
    requires i <= |b| && WellFormedFrom(b, i)
    ensures WellFormedFrom(a + b, |a| + i)
    decreases |b| - i
  {
    if i < |b| {
      var s := a + b;
      var n := SequenceLength(b[i]);
      assert forall k :: i <= k < i + n ==> s[|a| + k] == b[k];
      WellFormedShift(b, a, i + n);
    }
  }

  /** The encoder turns a text of scalar values into well-formed bytes. */
  lemma {:induction false} WellFormedEncodeAll(cs: seq<Char32>)
    requires ScalarValues(cs)
    ensures WellFormed(EncodeAll(cs))
    decreases |cs|
  {
    if |cs| > 0 {
      EncodeWellFormed(cs[0]);
      WellFormedEncodeAll(cs[1..]);
      WellFormedAppend(Encode(cs[0]), EncodeAll(cs[1..]), 0);
    }
  }

  // ---------------------------------------------------------------------
  // Decoding against the RFC

  /** A UTF8-char decodes to a scalar value whose encoding is that UTF8-char,
      and the unchecked width reads its length off its leading byte. */
  lemma DecodeCharAt(s: seq<Byte>)
    requires CharAt(s, 0)
    ensures CharacterWidthUnchecked(s[0]) == SequenceLength(s[0])
    ensures IsValidCodepoint(Decode(s)) && Encode(Decode(s)) == s[..SequenceLength(s[0])]
  {
    var n := SequenceLength(s[0]);
    if n == 1 {
      assert Encode(Decode(s)) == [s[0]];
    } else if n == 2 {
      DecodeChar2(s);
    } else if n == 3 {
      DecodeChar3(s);
    } else {
      DecodeChar4(s);
    }
  }

  lemma DecodeChar2(s: seq<Byte>)
    requires CharAt(s, 0) && SequenceLength(s[0]) == 2
    ensures CharacterWidthUnchecked(s[0]) == 2
    ensures IsValidCodepoint(Decode(s)) && Encode(Decode(s)) == s[..2]
  {
    var x0: int, x1: int := s[0] % 32, s[1] % 64;
    var c := Decode(s);
    DecodedBytes2(s);
    Unpack2(x0, x1);
    Encode2(c);
    assert s[..2] == [s[0], s[1]];
  }

  lemma DecodeChar3(s: seq<Byte>)
    requires CharAt(s, 0) && SequenceLength(s[0]) == 3
    ensures CharacterWidthUnchecked(s[0]) == 3
    ensures IsValidCodepoint(Decode(s)) && Encode(Decode(s)) == s[..3]
  {
    assert IsContinuationByte(s[2]);
    DecodedBytes3(s);
    Bytes3(s[0], s[1], s[2]);
    assert s[..3] == [s[0], s[1], s[2]];
  }

  lemma DecodeChar4(s: seq<Byte>)
    requires CharAt(s, 0) && SequenceLength(s[0]) == 4
    ensures CharacterWidthUnchecked(s[0]) == 4
    ensures IsValidCodepoint(Decode(s)) && Encode(Decode(s)) == s[..4]
  {
    assert IsContinuationByte(s[2]) && IsContinuationByte(s[3]);
    DecodedBytes4(s);
    Bytes4(s[0], s[1], s[2], s[3]);
    assert s[..4] == [s[0], s[1], s[2], s[3]];
  }

  /** The code point a three-byte UTF8-char packs is a scalar value whose
      encoding is those three bytes. */
  lemma Bytes3(b0: Byte, b1: Byte, b2: Byte)
    requires 0xE0 <= b0 <= 0xEF && SecondLow(b0) <= b1 <= SecondHigh(b0) && IsContinuationByte(b2)
    ensures var c := (b0 % 16 * 64 + b1 % 64) * 64 + b2 % 64;
      IsValidCodepoint(c) && Encode(c) == [b0, b1, b2]
  {
    var x0: int, x1: int, x2: int := b0 - 0xE0, b1 - 0x80, b2 - 0x80;
    var c := (x0 * 64 + x1) * 64 + x2;
    assert b2 % 64 == x2;
    Range3(b0, b1, x0, x1, x2);
    Unpack3(x0, x1, x2);
    Encode3(c);
  }

  /** A three-byte UTF8-char holds a scalar value from U+0800 to U+FFFF. */
  lemma Range3(b0: Byte, b1: Byte, x0: int, x1: int, x2: int)
    requires 0xE0 <= b0 <= 0xEF && SecondLow(b0) <= b1 <= SecondHigh(b0)
    requires x0 == b0 - 0xE0 && x1 == b1 - 0x80 && 0 <= x2 < 64
    ensures var c := (x0 * 64 + x1) * 64 + x2;
      0x800 <= c <= 0xFFFF && IsValidCodepoint(c) && c == (b0 % 16 * 64 + b1 % 64) * 64 + x2
  {
    assert b0 % 16 == x0 && b1 % 64 == x1;
  }

  /** The same for four-byte UTF8-chars. */
  lemma Bytes4(b0: Byte, b1: Byte, b2: Byte, b3: Byte)
    requires 0xF0 <= b0 <= 0xF4 && SecondLow(b0) <= b1 <= SecondHigh(b0)
    requires IsContinuationByte(b2) && IsContinuationByte(b3)
    ensures var c := ((b0 % 8 * 64 + b1 % 64) * 64 + b2 % 64) * 64 + b3 % 64;
      IsValidCodepoint(c) && Encode(c) == [b0, b1, b2, b3]
  {
    var x0: int, x1: int, x2: int, x3: int := b0 - 0xF0, b1 - 0x80, b2 - 0x80, b3 - 0x80;
    var c := ((x0 * 64 + x1) * 64 + x2) * 64 + x3;
    Range4(b0, b1, x0, x1, x2, x3);
    Unpack4(x0, x1, x2, x3);
    Encode4(c);
  }

  /** The bytes of two-, three- and four-byte encodings. */
  lemma Encode2(c: Char32)
    requires 0x80 <= c <= 0x7FF
    ensures Encode(c) == [0xC0 + c / 64 % 32, 0x80 + c % 64]
  {
    EncodedBytes(c);
  }

  lemma Encode3(c: Char32)
    requires 0x800 <= c <= 0xFFFF
    ensures Encode(c) == [0xE0 + c / 64 / 64 % 16, 0x80 + c / 64 % 64, 0x80 + c % 64]
  {
    EncodedBytes(c);
  }

  lemma Encode4(c: Char32)
    requires 0x1_0000 <= c <= MAX_CODEPOINT
    ensures Encode(c) == [0xF0 + c / 64 / 64 / 64 % 8, 0x80 + c / 64 / 64 % 64, 0x80 + c / 64 % 64, 0x80 + c % 64]
  {
    EncodedBytes(c);
  }

  /** A four-byte UTF8-char holds a code point from U+10000 to U+10FFFF. */
  lemma Range4(b0: Byte, b1: Byte, x0: int, x1: int, x2: int, x3: int)
    requires 0xF0 <= b0 <= 0xF4 && SecondLow(b0) <= b1 <= SecondHigh(b0)
    requires x0 == b0 - 0xF0 && x1 == b1 - 0x80 && 0 <= x2 < 64 && 0 <= x3 < 64
    ensures var c := ((x0 * 64 + x1) * 64 + x2) * 64 + x3;
      0x1_0000 <= c <= MAX_CODEPOINT && c == ((b0 % 8 * 64 + b1 % 64) * 64 + x2) * 64 + x3
  {
    assert b0 % 8 == x0 && b1 % 64 == x1;
    var y := x0 * 64 + x1;
    assert 0x10 <= y <= 0x10F;
  }

  /** Packing groups of bits and taking them apart again. */
  lemma Unpack2(x0: int, x1: int)
    requires 0 <= x0 < 32 && 0 <= x1 < 64
    ensures var c := x0 * 64 + x1; c / 64 % 32 == x0 && c % 64 == x1
  {
  }

  lemma Unpack3(x0: int, x1: int, x2: int)
    requires 0 <= x0 < 16 && 0 <= x1 < 64 && 0 <= x2 < 64
    ensures var c := (x0 * 64 + x1) * 64 + x2;
      c / 64 / 64 % 16 == x0 && c / 64 % 64 == x1 && c % 64 == x2
  {
    var c := (x0 * 64 + x1) * 64 + x2;
    assert c / 64 == x0 * 64 + x1;
  }

  lemma Unpack4(x0: int, x1: int, x2: int, x3: int)
    requires 0 <= x0 < 8 && 0 <= x1 < 64 && 0 <= x2 < 64 && 0 <= x3 < 64
    ensures var c := ((x0 * 64 + x1) * 64 + x2) * 64 + x3;
      c / 64 / 64 / 64 % 8 == x0 && c / 64 / 64 % 64 == x1 && c / 64 % 64 == x2 && c % 64 == x3
  {
    var c := ((x0 * 64 + x1) * 64 + x2) * 64 + x3;
    assert c / 64 == (x0 * 64 + x1) * 64 + x2;
    assert c / 64 / 64 == x0 * 64 + x1;
  }

  /** Well-formed text is walked sequence by sequence by the unchecked
      decoder, decodes to scalar values, and encoding those gives the text
      back. */
  lemma {:induction false} WellFormedRoundTrip(s: seq<Byte>)
    requires WellFormed(s)
    ensures Walkable(s)
    ensures ScalarValues(DecodeAll(s))
    ensures EncodeAll(DecodeAll(s)) == s
    decreases |s|
  {
    if |s| > 0 {
      var n := SequenceLength(s[0]);
      DecodeCharAt(s);
      WellFormedSuffix(s, n);
      WellFormedRoundTrip(s[n..]);
      RoundTripStep(s, n);
    }
  }

  /** One step of the round trip: the first UTF8-char, then the rest. */
  lemma RoundTripStep(s: seq<Byte>, n: nat)
    requires 0 < n <= |s| && CharacterWidthUnchecked(s[0]) == n
    requires IsValidCodepoint(Decode(s)) && Encode(Decode(s)) == s[..n]
    requires Walkable(s[n..]) && EncodeAll(DecodeAll(s[n..])) == s[n..]
    requires ScalarValues(DecodeAll(s[n..]))
    ensures Walkable(s)
    ensures ScalarValues(DecodeAll(s))
    ensures EncodeAll(DecodeAll(s)) == s
  {
    var c, rest := Decode(s), DecodeAll(s[n..]);
    DecodeAllStep(s);
    AllValidCons(c, rest);
    EncodeAllCons(c, rest);
    JoinSplit(s, n);
  }

  /** The unchecked decoder walks a text by its first sequence, then the
      rest. */
  lemma DecodeAllStep(s: seq<Byte>)
    requires 0 < |s| && CharacterWidthUnchecked(s[0]) <= |s| && Walkable(s[CharacterWidthUnchecked(s[0])..])
    ensures Walkable(s) && DecodeAll(s) == [Decode(s)] + DecodeAll(s[CharacterWidthUnchecked(s[0])..])
  {
  }

  lemma JoinSplit(s: seq<Byte>, n: nat)
    requires n <= |s|
    ensures s[..n] + s[n..] == s
  {
  }

  /** Encoding a text is encoding its first code point, then the rest. */
  lemma EncodeAllCons(c: Char32, cs: seq<Char32>)
    ensures EncodeAll([c] + cs) == Encode(c) + EncodeAll(cs)
  {
    assert ([c] + cs)[1..] == cs;
  }

  lemma AllValidCons(c: Char32, cs: seq<Char32>)
    requires IsValidCodepoint(c) && ScalarValues(cs)
    ensures ScalarValues([c] + cs)
  {
    assert forall k :: 1 <= k < |[c] + cs| ==> ([c] + cs)[k] == cs[k - 1];
  }

  /** A well-formed text stays well formed past its first sequences. */
  lemma {:induction false} WellFormedSuffix(s: seq<Byte>, i: nat)
    requires i <= |s| && WellFormedFrom(s, i)
    ensures WellFormed(s[i..])
    decreases |s| - i
  {
    var t := s[i..];
    if i < |s| {
      var n := SequenceLength(s[i]);
      assert forall k :: 0 <= k < n ==> t[k] == s[i + k];
      WellFormedSuffix(s, i + n);
      assert t[n..] == s[i + n..];
      WellFormedTail(t, n);
    }
  }

  /** If the first sequence of `t` is a UTF8-char and the rest is well
      formed, `t` is well formed. */
  lemma {:induction false} WellFormedTail(t: seq<Byte>, n: nat)
    requires 0 < n <= |t| && CharAt(t, 0) && n == SequenceLength(t[0]) && WellFormed(t[n..])
    ensures WellFormed(t)
  {
    WellFormedShift(t[n..], t[..n], 0);
    assert t[..n] + t[n..] == t;
  }

  // ---------------------------------------------------------------------
  // The validator against the RFC

  /** The validator accepts well-formed text followed by one ASCII byte,
      provided every 0xF3 byte in it is followed by a byte from 0x80 to 0x8F,
      the only second bytes the validator lets through after 0xF3; the
      encodings of U+C0000 to U+CFFFF qualify. */
  lemma {:induction false} ValidAcceptsWellFormed(s: seq<Byte>, b: Byte, i: nat)
    requires b < 0x80 && i <= |s| && WellFormedFrom(s, i)
    requires forall j, k :: 0 <= j < k < |s| && k == j + 1 && s[j] == 0xF3 ==> s[k] <= 0x8F
    ensures ValidFrom(s + [b], i)
    decreases |s| - i
  {
    var t := s + [b];
    if i == |s| {
      assert ValidFrom(t, i + 1);
    } else {
      var n := SequenceLength(s[i]);
      assert forall k :: i <= k < i + n ==> t[k] == s[k];
      ValidAcceptsWellFormed(s, b, i + n);
    }
  }

  /** On its own, the encoding of any scalar value from U+0080 up is well
      formed but rejected by the validator, which wants another byte after
      every multi-byte sequence. */
  lemma ValidRejectsFinalSequence(c: Char32)
    requires IsValidCodepoint(c) && c >= 0x80
    ensures WellFormed(Encode(c)) && !ValidFrom(Encode(c), 0)
  {
    EncodeWellFormed(c);
    EncodeShape(c);
  }

  /** The encodings of U+D0000 to U+FFFFF start with 0xF3 and a second byte
      from 0x90 up: well formed, and rejected by the validator even when an
      ASCII byte follows. */
  lemma ValidRejectsPlanes13To15(c: Char32, b: Byte)
    requires 0xD_0000 <= c <= 0xF_FFFF && b < 0x80
    ensures WellFormed(Encode(c)) && !ValidFrom(Encode(c) + [b], 0)
  {
    EncodeWellFormed(c);
    Encode4(c);
    Lead4Planes13To15(c);
    var t := Encode(c) + [b];
    assert t[0] == 0xF3 && t[1] >= 0x90;
    assert !SecondByteAccepted(t[0], t[1], 4);
  }

  /** The encodings of U+D0000 to U+FFFFF start with 0xF3 followed by a byte
      from 0x90 up. */
  lemma Lead4Planes13To15(c: Char32)
    requires 0xD_0000 <= c <= 0xF_FFFF
    ensures 0xF0 + c / 64 / 64 / 64 % 8 == 0xF3 && 0x80 + c / 64 / 64 % 64 >= 0x90
  {
    var a := c / 64 / 64;
    assert 0xD0 <= a <= 0xFF;
  }

  /** The validator accepts sequences the RFC rules out: continuation bytes
      read as the leading byte of a three-byte sequence, the overlong form
      0xC0 0x80, and 0xF4 0x90 0x80 0x80, which would encode U+110000. */
  lemma ValidAcceptsIllFormed()
    ensures ValidFrom([0x80, 0x80, 0x80, 0x41], 0) && !WellFormed([0x80, 0x80, 0x80, 0x41])
    ensures ValidFrom([0xC0, 0x80, 0x41], 0) && !WellFormed([0xC0, 0x80, 0x41])
    ensures ValidFrom([0xF4, 0x90, 0x80, 0x80, 0x41], 0) && !WellFormed([0xF4, 0x90, 0x80, 0x80, 0x41])
    ensures Decode([0xF4, 0x90, 0x80, 0x80]) == 0x11_0000
  {
    assert ValidFrom([0x80, 0x80, 0x80, 0x41], 3);
    assert ValidFrom([0xC0, 0x80, 0x41], 2);
    assert ValidFrom([0xF4, 0x90, 0x80, 0x80, 0x41], 4);
    DecodedBytes4([0xF4, 0x90, 0x80, 0x80]);
  }
}
