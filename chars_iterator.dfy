/** The code point iterator of `ncstd_string/src/chars_iterator.c`: a cursor
    over the bytes `[current, end)` of memory that decodes one UTF-8 sequence
    per call with the unchecked decoder. The pointer to the cached code point
    that `next` returns is modelled as the code point itself, and the null
    pointer as `None`. */
module CharsIterators {
  import opened Wrappers
  import opened Memory
  import opened Utf8

  class CharsIterator {
    var current: Addr
    const end: Addr
    var currentChar: Char32

    /** `nc_chars_iterator_init`: iterates over `length` bytes from `start`. */
    constructor Init(start: Addr, length: nat)
      ensures current == start && end == start + length && currentChar == 0
    {
      current := start;
      end := start + length;
      currentChar := 0;
    }

    /** A copy of the iterator's bytes, as `nc_iterator_create` makes of the
        iterator it wraps. */
    constructor Copy(other: CharsIterator)
      ensures current == other.current && end == other.end && currentChar == other.currentChar
    {
      current := other.current;
      end := other.end;
      currentChar := other.currentChar;
    }

    /** The decoder may read the sequence at the cursor. */
    predicate CanDecode(mem: seq<Byte>)
      reads this
    {
      current < end ==> current < |mem| && current + CharacterWidthUnchecked(mem[current]) <= |mem|
    }

    /** `nc_chars_iterator_next`: at the end, null and no change; otherwise
        the code point decoded at the cursor, which is cached, and the cursor
        moves past its sequence (one to four bytes). */
    method Next(mem: seq<Byte>) returns (r: Option<Char32>)
      requires CanDecode(mem)
      modifies this
      ensures old(current) >= end ==> r == None && current == old(current) && currentChar == old(currentChar)
      ensures old(current) < end ==>
        currentChar == Decode(mem[old(current)..]) && r == Some(currentChar) &&
        current == old(current) + CharacterWidthUnchecked(mem[old(current)])
      ensures old(current) < end ==> old(current) < current <= old(current) + 4
      ensures Decodable(mem, old(current), end) ==>
        Decodable(mem, current, end) &&
        Yields(mem, old(current), end) == (if r.Some? then [r.value] else []) + Yields(mem, current, end)
    {
      if current >= end {
        return None;
      }
      var ch, width := DecodeCharUnchecked(mem, current);
      currentChar := ch;
      current := current + width;
      r := Some(currentChar);
    }
  }

  /** Every call of `next` from a cursor at `current` until the cursor
      reaches `end` can decode the sequence under the cursor. */
  predicate Decodable(mem: seq<Byte>, current: nat, end: nat)
    decreases end - current
  {
    current >= end ||
    (current < |mem| && current + CharacterWidthUnchecked(mem[current]) <= |mem| &&
     Decodable(mem, current + CharacterWidthUnchecked(mem[current]), end))
  }

  /** The code points successive calls of `next` return, starting with the
      cursor at `current`, before the first null. Each step is the one
      `CharsIterator.Next` takes. */
  function Yields(mem: seq<Byte>, current: nat, end: nat): seq<Char32>
    requires Decodable(mem, current, end)
    decreases end - current
  {
    if current >= end then []
    else [Decode(mem[current..])] + Yields(mem, current + CharacterWidthUnchecked(mem[current]), end)
  }

  /** The bytes `[current, end)` of `mem` are the encoding of the code
      points `cs`, each up to U+10FFFF. */
  predicate EncodedRange(mem: seq<Byte>, current: nat, end: nat, cs: seq<Char32>)
  {
    current <= end <= |mem| && mem[current..end] == EncodeAll(cs) &&
    forall k :: 0 <= k < |cs| ==> cs[k] <= MAX_CODEPOINT
  }

  /** Over the bytes encoding the code points `cs` (each up to U+10FFFF), the
      iterator can decode at every step and yields exactly `cs`, then null. */
  lemma {:induction false} YieldsEncoded(mem: seq<Byte>, current: nat, end: nat, cs: seq<Char32>)
    requires current <= end <= |mem| && mem[current..end] == EncodeAll(cs)
    requires forall k :: 0 <= k < |cs| ==> cs[k] <= MAX_CODEPOINT
    ensures Decodable(mem, current, end) && Yields(mem, current, end) == cs
  {
    YieldsEncodedRange(mem, current, end, cs);
  }

  /** `YieldsEncoded`, by induction on `cs`. */
  lemma {:induction false} YieldsEncodedRange(mem: seq<Byte>, current: nat, end: nat, cs: seq<Char32>)
    requires EncodedRange(mem, current, end, cs)
    ensures Decodable(mem, current, end) && Yields(mem, current, end) == cs
    decreases |cs|
  {
    if |cs| == 0 {
      EncodeAllEmpty(cs);
      YieldsAtEnd(mem, current, end, cs);
    } else {
      var next := EncodedRangeTail(mem, current, end, cs);
      YieldsEncodedRange(mem, next, end, cs[1..]);
      YieldsStep(mem, current, end, cs);
    }
  }

  /** Past the first sequence of an encoded range lies the encoding of the
      remaining code points; `next` is where the cursor moves. */
  lemma EncodedRangeTail(mem: seq<Byte>, current: nat, end: nat, cs: seq<Char32>) returns (next: nat)
    requires EncodedRange(mem, current, end, cs) && |cs| > 0
    ensures current < end && next == current + CharacterWidthUnchecked(mem[current]) <= end
    ensures Decode(mem[current..]) == cs[0]
    ensures EncodedRange(mem, next, end, cs[1..])
  {
    NextOverEncodedFront(mem, current, end, cs);
    BoundedTail(cs);
    next := current + CharacterWidthUnchecked(mem[current]);
  }

  /** Every successful call of `next` moves the cursor on, so at most
      `end - current` calls return a code point before the end. */
  lemma {:induction false} YieldsBound(mem: seq<Byte>, current: nat, end: nat)
    requires Decodable(mem, current, end)
    ensures current <= end ==> |Yields(mem, current, end)| <= end - current
    decreases end - current
  {
    if current < end {
      YieldsBound(mem, current + CharacterWidthUnchecked(mem[current]), end);
    }
  }

  /** With the cursor at the end, `next` returns null at once. */
  lemma YieldsAtEnd(mem: seq<Byte>, current: nat, end: nat, cs: seq<Char32>)
    requires current >= end && cs == []
    ensures Decodable(mem, current, end) && Yields(mem, current, end) == cs
  {
  }

  /** The code points after the first stay up to U+10FFFF. */
  lemma BoundedTail(cs: seq<Char32>)
    requires |cs| > 0 && forall k :: 0 <= k < |cs| ==> cs[k] <= MAX_CODEPOINT
    ensures forall k :: 0 <= k < |cs[1..]| ==> cs[1..][k] <= MAX_CODEPOINT
  {
    assert forall k :: 0 <= k < |cs[1..]| ==> cs[1..][k] == cs[k + 1];
  }

  /** One step of `Yields`: the code point under the cursor, then those
      after it. */
  lemma YieldsStep(mem: seq<Byte>, current: nat, end: nat, cs: seq<Char32>)
    requires |cs| > 0 && current < end <= |mem| && current + CharacterWidthUnchecked(mem[current]) <= end
    requires Decode(mem[current..]) == cs[0]
    requires Decodable(mem, current + CharacterWidthUnchecked(mem[current]), end)
    requires Yields(mem, current + CharacterWidthUnchecked(mem[current]), end) == cs[1..]
    ensures Decodable(mem, current, end) && Yields(mem, current, end) == cs
  {
    assert cs == [cs[0]] + cs[1..];
  }

  /** Encoding never yields an empty sequence for a code point up to
      U+10FFFF, so an encoded text is empty exactly when it has no code
      points. */
  lemma {:induction false} EncodeAllEmpty(cs: seq<Char32>)
    requires forall k :: 0 <= k < |cs| ==> cs[k] <= MAX_CODEPOINT
    ensures |EncodeAll(cs)| == 0 <==> |cs| == 0
  {
    if |cs| > 0 {
      assert EncodedWidth(cs[0]) > 0;
    }
  }

  /** When the bytes `[current, end)` are the encoding of `cs`, the iterator
      is at its end exactly when `cs` is empty; otherwise `next` may decode,
      yields `cs[0]`, and leaves the encoding of the rest of `cs` before the
      end. */
  lemma NextOverEncoded(mem: seq<Byte>, current: nat, end: nat, cs: seq<Char32>)
    requires current <= end <= |mem| && mem[current..end] == EncodeAll(cs)
    requires forall k :: 0 <= k < |cs| ==> cs[k] <= MAX_CODEPOINT
    ensures current < end <==> |cs| > 0
    ensures |cs| > 0 ==> current + CharacterWidthUnchecked(mem[current]) <= end
    ensures |cs| > 0 ==> Decode(mem[current..]) == cs[0]
    ensures |cs| > 0 ==> mem[current + CharacterWidthUnchecked(mem[current])..end] == EncodeAll(cs[1..])
  {
    EncodeAllEmpty(cs);
    if |cs| > 0 {
      NextOverEncodedFront(mem, current, end, cs);
    }
  }

  /** The case of `NextOverEncoded` where code points are left. */
  lemma NextOverEncodedFront(mem: seq<Byte>, current: nat, end: nat, cs: seq<Char32>)
    requires current <= end <= |mem| && mem[current..end] == EncodeAll(cs)
    requires |cs| > 0 && cs[0] <= MAX_CODEPOINT
    ensures current < end && current + CharacterWidthUnchecked(mem[current]) <= end
    ensures Decode(mem[current..]) == cs[0]
    ensures mem[current + CharacterWidthUnchecked(mem[current])..end] == EncodeAll(cs[1..])
  {
    var s := mem[current..end];
    DecodeFront(s, cs);
    FrontOfSlice(mem, current, end, Decode(s), s[CharacterWidthUnchecked(s[0])..]);
  }

  /** What holds of the first sequence of the bytes `[current, end)` holds
      of the sequence at `current` in memory. */
  lemma FrontOfSlice(mem: seq<Byte>, current: nat, end: nat, c: Char32, rest: seq<Byte>)
    requires current < end <= |mem|
    requires var s := mem[current..end]; var w := CharacterWidthUnchecked(s[0]);
      w <= |s| && Decode(s) == c && s[w..] == rest
    ensures current + CharacterWidthUnchecked(mem[current]) <= end
    ensures Decode(mem[current..]) == c
    ensures mem[current + CharacterWidthUnchecked(mem[current])..end] == rest
  {
    var s := mem[current..end];
    var w := CharacterWidthUnchecked(s[0]);
    SliceOfSlice(mem, current, end, w);
    DecodePrefixOnly(s, mem[current..]);
    DropFront(mem, current, end, w, rest);
  }

  lemma DropFront(mem: seq<Byte>, from: nat, to: nat, w: nat, rest: seq<Byte>)
    requires from + w <= to <= |mem| && mem[from..to][w..] == rest
    ensures mem[from + w..to] == rest
  {
    assert mem[from..to][w..] == mem[from + w..to];
  }

  lemma SliceOfSlice(mem: seq<Byte>, from: nat, to: nat, w: nat)
    requires from + w <= to <= |mem| && from < to
    ensures mem[from..][..w] == mem[from..to][..w]
    ensures mem[from..to][0] == mem[from]
  {
    assert mem[from..][..w] == mem[from..from + w];
  }

  /** The first sequence of an encoded text decodes to its first code point
      and is followed by the encoding of the others. */
  lemma DecodeFront(s: seq<Byte>, cs: seq<Char32>)
    requires s == EncodeAll(cs) && |cs| > 0 && cs[0] <= MAX_CODEPOINT
    ensures var w := CharacterWidthUnchecked(s[0]);
      0 < w <= |s| && Decode(s) == cs[0] && s[w..] == EncodeAll(cs[1..])
  {
    var e, rest := Encode(cs[0]), EncodeAll(cs[1..]);
    DecodeEncode(cs[0]);
    assert s == e + rest;
    SplitAfter(e, rest);
    DecodePrefixOnly(e, s);
  }

  /** The parts of a concatenation. */
  lemma SplitAfter(e: seq<Byte>, rest: seq<Byte>)
    requires |e| > 0
    ensures (e + rest)[0] == e[0] && (e + rest)[..|e|] == e[..|e|] && (e + rest)[|e|..] == rest
  {
  }
}
