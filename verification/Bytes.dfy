/** Byte strings: overwriting a stretch of a buffer, and little-endian words. */
module Bytes {
  import opened Arithmetic

  type byte = x: int | 0 <= x < 256
  type bytes = seq<byte>
  type word32 = x: int | 0 <= x < 0x1_0000_0000
  type word64 = x: int | 0 <= x < TWO64

  /** CRC32 enters the model only as some function from byte strings to 32-bit words. */
  type Crc = bytes -> word32

  /** The buffer after memcpy(d + off, s, |s|). */
  function Put(d: bytes, off: nat, s: bytes): (r: bytes)
    requires off + |s| <= |d|
    ensures |r| == |d|
  {
    d[..off] + s + d[off + |s|..]
  }

  function Zeros(n: nat): (z: bytes)
    ensures |z| == n
    ensures forall i :: 0 <= i < n ==> z[i] == 0
  {
    seq(n, i => 0)
  }

  predicate AllZero(s: bytes) {
    forall i :: 0 <= i < |s| ==> s[i] == 0
  }

  lemma AllZeroIsZeros(s: bytes)
    ensures AllZero(s) <==> s == Zeros(|s|)
  {
  }

  lemma PutAt(d: bytes, off: nat, s: bytes, i: nat)
    requires off + |s| <= |d|
    requires i < |d|
    ensures Put(d, off, s)[i] == if off <= i < off + |s| then s[i - off] else d[i]
  {
  }

  lemma PutSame(d: bytes, off: nat, s: bytes)
    requires off + |s| <= |d|
    ensures Put(d, off, s)[off..off + |s|] == s
  {
  }

  lemma PutOutside(d: bytes, off: nat, s: bytes, a: nat, b: nat)
    requires off + |s| <= |d|
    requires a <= b <= |d|
    requires b <= off || off + |s| <= a
    ensures Put(d, off, s)[a..b] == d[a..b]
  {
  }

  lemma PutInside(d: bytes, off: nat, s: bytes, a: nat, b: nat)
    requires off + |s| <= |d|
    requires a <= off && off + |s| <= b <= |d|
    ensures Put(d, off, s)[a..b] == Put(d[a..b], off - a, s)
  {
  }

  lemma PutSelf(d: bytes, off: nat, n: nat)
    requires off + n <= |d|
    ensures Put(d, off, d[off..off + n]) == d
  {
  }

  lemma PutPut(d: bytes, off: nat, s: bytes, t: bytes)
    requires off + |s| <= |d| && |s| == |t|
    ensures Put(Put(d, off, s), off, t) == Put(d, off, t)
  {
  }

  /** A write inside a stretch just written is a write of the changed stretch. */
  lemma PutNest(d: bytes, off: nat, s: bytes, k: nat, t: bytes)
    requires off + |s| <= |d| && k + |t| <= |s|
    ensures Put(Put(d, off, s), off + k, t) == Put(d, off, Put(s, k, t))
  {
  }

  /** The number stored little-endian in s. */
  function LE(s: bytes): (n: nat) {
    if s == [] then 0 else s[0] + 256 * LE(s[1..])
  }

  /** The k low-order bytes of n, least significant first. */
  function ToLE(n: nat, k: nat): (s: bytes)
    ensures |s| == k
  {
    if k == 0 then [] else [n % 256] + ToLE(n / 256, k - 1)
  }

  function Pow256(k: nat): (p: nat)
    ensures p > 0
  {
    if k == 0 then 1 else 256 * Pow256(k - 1)
  }

  lemma Pow256Values()
    ensures Pow256(4) == 0x1_0000_0000
    ensures Pow256(8) == TWO64
  {
  }

  /** Reading a stored word back gives the word, truncated to the field's width. */
  lemma {:induction false} ReadBack(n: nat, k: nat)
    ensures LE(ToLE(n, k)) == n % Pow256(k)
  {
    if k == 0 {
    } else {
      ReadBack(n / 256, k - 1);
      assert ToLE(n, k)[1..] == ToLE(n / 256, k - 1);
      ModSplit(n, Pow256(k - 1));
    }
  }

  lemma ModSplit(n: nat, p: nat)
    requires p > 0
    ensures n % (256 * p) == n % 256 + 256 * ((n / 256) % p)
  {
    var q := n / 256;
    var d := q / p;
    var r := n % 256 + 256 * (q % p);
    assert q == d * p + q % p;
    assert n == 256 * q + n % 256;
    assert n == d * (256 * p) + r by {
      assert 256 * (d * p) == d * (256 * p);
    }
    assert 0 <= r < 256 * p by {
      assert q % p <= p - 1;
    }
    ModUnique(n, 256 * p, d, r);
  }

  /** Distinct byte strings of one length store distinct numbers. */
  lemma {:induction false} StoreRead(s: bytes)
    ensures ToLE(LE(s), |s|) == s
    ensures LE(s) < Pow256(|s|)
  {
    if s != [] {
      var n, r := LE(s), LE(s[1..]);
      StoreRead(s[1..]);
      LowestByte(s[0], r);
      assert n == s[0] + 256 * r;
      assert ToLE(n, |s|) == [n % 256] + ToLE(n / 256, |s| - 1);
      assert s == [s[0]] + s[1..];
    }
  }

  lemma LowestByte(b: byte, r: nat)
    ensures (b + 256 * r) % 256 == b && (b + 256 * r) / 256 == r
  {
  }

  lemma ReadBack32(n: word32)
    ensures LE(ToLE(n, 4)) == n
  {
    ReadBack(n, 4);
    Pow256Values();
  }

  lemma ReadBack64(n: nat)
    ensures LE(ToLE(n, 8)) == n % TWO64
  {
    ReadBack(n, 8);
    Pow256Values();
  }

  /** A uint64_t as stored in a packed struct. */
  function Word64(n: word64): (s: bytes)
    ensures |s| == 8
    ensures LE(s) == n
  {
    ReadBack64(n);
    ToLE(n, 8)
  }

  /** x |= m or x &= ~m on one byte. */
  function MaskByte(x: byte, m: byte, on: bool): byte {
    (if on then (x as bv8) | (m as bv8) else (x as bv8) & !(m as bv8)) as byte
  }

  /** The same on the byte's bits. */
  function MaskBits(x: bv8, m: bv8, on: bool): bv8 {
    if on then x | m else x & !m
  }

  lemma MaskByteIsBits(x: byte, m: byte, on: bool)
    ensures MaskByte(x, m, on) == MaskBits(x as bv8, m as bv8, on) as byte
    ensures MaskByte(x, m, on) as bv8 == MaskBits(x as bv8, m as bv8, on)
  {
  }

  /** The bits of the mask become as asked, all others stay. */
  lemma MaskedBits(x: bv8, m: bv8, on: bool)
    ensures MaskBits(x, m, on) & m == (if on then m else 0)
    ensures MaskBits(x, m, on) & !m == x & !m
  {
  }

  /** memcpy into a mapped buffer. */
  method Store(a: array<byte>, off: nat, s: bytes)
    requires off + |s| <= a.Length
    modifies a
    ensures a[..] == Put(old(a[..]), off, s)
  {
    forall i | off <= i < off + |s| {
      a[i] := s[i - off];
    }
  }

  /** A store into a record e that already sits at offset at of a buffer that was d elsewhere. */
  method StoreField(a: array<byte>, at: nat, k: nat, s: bytes, ghost d: bytes, ghost e: bytes)
    requires |d| == a.Length && at + |e| <= |d| && k + |s| <= |e|
    requires a[..] == Put(d, at, e)
    modifies a
    ensures a[..] == Put(d, at, Put(e, k, s))
  {
    Store(a, at + k, s);
    PutNest(d, at, e, k, s);
  }
}
