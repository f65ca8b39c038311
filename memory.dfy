/** The flat memory the borrowed pointers of the library look into, and the two
    C library routines the core calls on it (`strlen`, `strncmp`), written as
    functions over byte sequences. */
module Memory {
  /** A `uint8_t`. Bit operations on bytes are written as arithmetic: for a
      mask of the form 2^k - 1, `x & mask` is `x % (mask + 1)`; setting marker
      bits above such a field is `marker + field`; `x >> 6` is `x / 64` and
      `x << 6` is `x * 64` where no bit leaves the word. */
  type Byte = b: int | 0 <= b < 0x100

  /** A pointer is a byte address; address 0 is the null pointer. */
  type Addr = nat
  const NULL: Addr := 0

  /** Multiplying by a size is monotonic (used for byte offsets of objects). */
  lemma MulMonotonic(a: nat, b: nat, c: nat)
    requires a <= b
    ensures a * c <= b * c
  {
  }

  /** `s` with the bytes at `[at, at + |src|)` replaced by `src` (a `memcpy`). */
  function Overwrite(s: seq<Byte>, at: nat, src: seq<Byte>): (r: seq<Byte>)
    requires at + |src| <= |s|
    ensures |r| == |s|
    ensures r[at..at + |src|] == src
    ensures forall k :: 0 <= k < |s| && !(at <= k < at + |src|) ==> r[k] == s[k]
  {
    s[..at] + src + s[at + |src|..]
  }

  /** `memcpy(dst + at, src, |src|)`: copies `src` into `dst` byte by byte. */
  method MemCpy(dst: array<Byte>, at: nat, src: seq<Byte>)
    requires at + |src| <= dst.Length
    modifies dst
    ensures dst[..] == Overwrite(old(dst[..]), at, src)
  {
    var i := 0;
    while i < |src|
      invariant 0 <= i <= |src|
      invariant forall k :: 0 <= k < dst.Length && !(at <= k < at + i) ==> dst[k] == old(dst[k])
      invariant forall k :: at <= k < at + i ==> dst[k] == src[k - at]
    {
      dst[at + i] := src[i];
      i := i + 1;
    }
    assert dst[..] == Overwrite(old(dst[..]), at, src);
  }

  /** `realloc(block, size)` with an allocation that never fails: a fresh
      block of `size` bytes that starts with as many bytes of `block` as fit
      in it; the bytes past those are unspecified. */
  method Realloc(block: array<Byte>, size: nat) returns (r: array<Byte>)
    ensures fresh(r) && r.Length == size
    ensures var keep := if size < block.Length then size else block.Length;
      r[..keep] == block[..keep]
  {
    r := new Byte[size];
    var keep := if size < block.Length then size else block.Length;
    MemCpy(r, 0, block[..keep]);
  }

  /** `strlen`: the index of the first NUL byte of `s`. */
  function StrLen(s: seq<Byte>): (n: nat)
    requires 0 in s
    ensures n < |s| && s[n] == 0
    ensures forall k :: 0 <= k < n ==> s[k] != 0
  {
    if s[0] == 0 then 0 else StrLen(s[1..]) + 1
  }

  /** `strncmp(a, b, n)`: compares at most `n` bytes and stops after the first
      NUL; the sign of the result is the sign of the first difference. */
  function StrNCmp(a: seq<Byte>, b: seq<Byte>, n: nat): (r: int)
    requires n <= |a| && n <= |b|
    decreases n
  {
    if n == 0 then 0
    else if a[0] != b[0] then a[0] - b[0]
    else if a[0] == 0 then 0
    else StrNCmp(a[1..], b[1..], n - 1)
  }

  /** Swapping the operands of `strncmp` negates the result. */
  lemma {:induction false} StrNCmpAntisymmetric(a: seq<Byte>, b: seq<Byte>, n: nat)
    requires n <= |a| && n <= |b|
    ensures StrNCmp(a, b, n) == -StrNCmp(b, a, n)
    decreases n
  {
    if n > 0 && a[0] == b[0] && a[0] != 0 {
      StrNCmpAntisymmetric(a[1..], b[1..], n - 1);
    }
  }

  /** `strncmp` of a byte range with itself is zero. */
  lemma {:induction false} StrNCmpReflexive(a: seq<Byte>, n: nat)
    requires n <= |a|
    ensures StrNCmp(a, a, n) == 0
    decreases n
  {
    if n > 0 && a[0] != 0 {
      StrNCmpReflexive(a[1..], n - 1);
    }
  }

  /** On ranges free of NUL bytes, `strncmp` is zero exactly when the first `n`
      bytes agree. */
  lemma {:induction false} StrNCmpZeroIffEqual(a: seq<Byte>, b: seq<Byte>, n: nat)
    requires n <= |a| && n <= |b|
    requires forall k :: 0 <= k < n ==> a[k] != 0
    ensures StrNCmp(a, b, n) == 0 <==> a[..n] == b[..n]
    decreases n
  {
    if n > 0 {
      if a[0] == b[0] {
        StrNCmpZeroIffEqual(a[1..], b[1..], n - 1);
        assert a[..n] == [a[0]] + a[1..][..n - 1];
        assert b[..n] == [b[0]] + b[1..][..n - 1];
      } else {
        assert a[..n][0] != b[..n][0];
      }
    }
  }

  /** A NUL byte stops `strncmp`: ranges that agree up to and including a
      common NUL compare equal whatever follows. */
  lemma {:induction false} StrNCmpStopsAtNul(a: seq<Byte>, b: seq<Byte>, n: nat, k: nat)
    requires n <= |a| && n <= |b| && k < n
    requires a[..k + 1] == b[..k + 1] && a[k] == 0
    ensures StrNCmp(a, b, n) == 0
    decreases k
  {
    assert a[0] == a[..k + 1][0] && b[0] == b[..k + 1][0];
    if k > 0 && a[0] != 0 {
      assert a[1..][..k] == a[..k + 1][1..] && b[1..][..k] == b[..k + 1][1..];
      StrNCmpStopsAtNul(a[1..], b[1..], n - 1, k - 1);
    }
  }
}
