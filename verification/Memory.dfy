/** Bytes in memory: big-endian and little-endian numbers, block writes at pointer offsets, and a ring seen from
    one of its positions. */
module Memory {
  import opened Bits

  /** An address. */
  type Ptr = u64
  const NULL: Ptr := 0

  /** htobe16, htobe32, htobe64: the bytes in memory. */
  function Be16(v: u16): (s: seq<byte>)
    ensures |s| == 2
  {
    [v / 0x100, v % 0x100]
  }

  function Be32(v: u32): (s: seq<byte>)
    ensures |s| == 4
  {
    Be16(v / W16) + Be16(v % W16)
  }

  function Be64(v: u64): (s: seq<byte>)
    ensures |s| == 8
  {
    Be32(v / W32) + Be32(v % W32)
  }

  /** be16toh, be32toh, be64toh. */
  function UnBe16(s: seq<byte>): u16
    requires |s| == 2
  {
    var hi: int := s[0];
    hi * 0x100 + s[1]
  }

  function UnBe32(s: seq<byte>): u32
    requires |s| == 4
  {
    var hi: int := UnBe16(s[..2]);
    hi * W16 + UnBe16(s[2..])
  }

  function UnBe64(s: seq<byte>): u64
    requires |s| == 8
  {
    var hi: int := UnBe32(s[..4]);
    hi * W32 + UnBe32(s[4..])
  }

  /** Loads on a little-endian machine. */
  function Le16(b: seq<byte>): (v: u16)
    requires |b| == 2
  {
    var lo: int, hi: int := b[0], b[1];
    lo + 0x100 * hi
  }

  function Le32(b: seq<byte>): (v: u32)
    requires |b| == 4
  {
    Le16(b[..2]) + 0x1_0000 * Le16(b[2..])
  }

  function Le64(b: seq<byte>): (v: u64)
    requires |b| == 8
  {
    Le32(b[..4]) + 0x1_0000_0000 * Le32(b[4..])
  }

  /** The bytes that a little-endian machine stores, lowest first. */
  function Le16Bytes(v: u16): (s: seq<byte>)
    ensures |s| == 2
  {
    [v % 0x100, v / 0x100]
  }

  function Le32Bytes(v: u32): (s: seq<byte>)
    ensures |s| == 4
  {
    Le16Bytes(v % W16) + Le16Bytes(v / W16)
  }

  function Le64Bytes(v: u64): (s: seq<byte>)
    ensures |s| == 8
  {
    Le32Bytes(v % W32) + Le32Bytes(v / W32)
  }

  lemma Le32RoundTrip(v: u32)
    ensures Le32(Le32Bytes(v)) == v
  {
    assert Le32Bytes(v)[..2] == Le16Bytes(v % W16) && Le32Bytes(v)[2..] == Le16Bytes(v / W16);
  }

  lemma Le64RoundTrip(v: u64)
    ensures Le64(Le64Bytes(v)) == v
  {
    assert Le64Bytes(v)[..4] == Le32Bytes(v % W32) && Le64Bytes(v)[4..] == Le32Bytes(v / W32);
    Le32RoundTrip(v % W32);
    Le32RoundTrip(v / W32);
  }

  lemma Be16RoundTrip(v: u16)
    ensures UnBe16(Be16(v)) == v
  {
  }

  lemma Be32RoundTrip(v: u32)
    ensures UnBe32(Be32(v)) == v
  {
    assert Be32(v)[..2] == Be16(v / W16) && Be32(v)[2..] == Be16(v % W16);
  }

  lemma Be64RoundTrip(v: u64)
    ensures UnBe64(Be64(v)) == v
  {
    assert Be64(v)[..4] == Be32(v / W32) && Be64(v)[4..] == Be32(v % W32);
    Be32RoundTrip(v / W32);
    Be32RoundTrip(v % W32);
  }

  /** A store to pointer `p`: offsets are relative to the buffer, and a store outside it does not
      change it. */
  function PutByte<T>(m: seq<T>, p: int, b: T): (m': seq<T>)
    ensures |m'| == |m|
  {
    if 0 <= p < |m| then m[p := b] else m
  }

  /** memcpy of `d` to pointer `p`. */
  function Put<T>(m: seq<T>, p: int, d: seq<T>): (m': seq<T>)
    ensures |m'| == |m|
    decreases |d|
  {
    if d == [] then m else Put(PutByte(m, p, d[0]), p + 1, d[1..])
  }

  lemma {:induction false} PutAt<T>(m: seq<T>, p: int, d: seq<T>)
    ensures forall x :: 0 <= x < |m| ==> Put(m, p, d)[x] == if p <= x < p + |d| then d[x - p] else m[x]
    decreases |d|
  {
    if d != [] { PutAt(PutByte(m, p, d[0]), p + 1, d[1..]); }
  }

  lemma PutNothing<T>(m: seq<T>, p: int, d: seq<T>)
    requires d == []
    ensures Put(m, p, d) == m
  {
  }

  /** A write that misses the buffer altogether. */
  lemma PutOutside<T>(m: seq<T>, p: int, d: seq<T>)
    requires p + |d| <= 0 || |m| <= p
    ensures Put(m, p, d) == m
  {
    PutAt(m, p, d);
  }

  lemma {:induction false} PutPut<T>(m: seq<T>, p: int, d: seq<T>, e: seq<T>)
    ensures Put(Put(m, p, d), p + |d|, e) == Put(m, p, d + e)
    decreases |d|
  {
    if d == [] {
      assert d + e == e;
    } else {
      PutPut(PutByte(m, p, d[0]), p + 1, d[1..], e);
      assert (d + e)[1..] == d[1..] + e;
    }
  }

  /** A slice that a write does not touch, and a slice of what was written. */
  lemma PutMiss<T>(m: seq<T>, p: int, d: seq<T>, a: nat, b: nat)
    requires a <= b <= |m| && (b <= p || p + |d| <= a)
    ensures Put(m, p, d)[a..b] == m[a..b]
  {
    PutAt(m, p, d);
  }

  lemma PutMissTail<T>(m: seq<T>, p: nat, d: seq<T>, a: nat)
    requires p + |d| <= a <= |m|
    ensures Put(m, p, d)[a..] == m[a..]
  {
    PutAt(m, p, d);
  }

  /** Equal prefixes have equal slices. */
  lemma SliceOfPrefix<T>(v: seq<T>, w: seq<T>, m: nat, a: nat, b: nat)
    requires m <= |v| && m <= |w| && v[..m] == w[..m] && a <= b <= m
    ensures v[a..b] == w[a..b]
  {
    assert v[a..b] == v[..m][a..b] && w[a..b] == w[..m][a..b];
  }

  lemma SliceOfSlice<T>(u: seq<T>, a: nat, b: nat, i: nat, j: nat)
    requires a <= b <= |u| && i <= j <= b - a
    ensures u[a..b][i..j] == u[a + i..a + j]
  {
    assert |u[a..b][i..j]| == |u[a + i..a + j]|;
    forall x | 0 <= x < j - i ensures u[a..b][i..j][x] == u[a + i..a + j][x] {
    }
  }

  lemma PutHit<T>(m: seq<T>, p: nat, d: seq<T>, a: nat, b: nat)
    requires p <= a <= b <= p + |d| <= |m|
    ensures Put(m, p, d)[a..b] == d[a - p..b - p]
  {
    PutAt(m, p, d);
  }

  /** The ring read from position `base`, going once around. */
  function Rot<T>(m: seq<T>, base: nat): (v: seq<T>)
    requires base <= |m|
    ensures |v| == |m|
  {
    m[base..] + m[..base]
  }

  /** Position `a` of a ring, one lap at most past its end. */
  function Around(ringLen: nat, a: nat): nat { if a < ringLen then a else a - ringLen }

  lemma RotPutByte<T>(m: seq<T>, base: nat, off: nat, b: T)
    requires base <= |m| && off < |m|
    ensures Rot(PutByte(m, Around(|m|, base + off), b), base) == PutByte(Rot(m, base), off, b)
  {
  }

  /** A write that does not cross the end of the ring, seen from `base`. */
  lemma {:induction false} RotPut<T>(m: seq<T>, base: nat, off: nat, d: seq<T>)
    requires base <= |m| && off + |d| <= |m|
    requires base + off + |d| <= |m| || base + off >= |m|
    ensures Rot(Put(m, Around(|m|, base + off), d), base) == Put(Rot(m, base), off, d)
    decreases |d|
  {
    hide Rot, PutByte;
    if |d| == 1 {
      RotPutByte(m, base, off, d[0]);
    } else if d != [] {
      RotPutByte(m, base, off, d[0]);
      RotPut(PutByte(m, Around(|m|, base + off), d[0]), base, off + 1, d[1..]);
    }
  }

  /** memcpy in place, byte by byte. */
  method Memcpy(a: array<byte>, p: int, d: seq<byte>)
    modifies a
    ensures a[..] == Put(old(a[..]), p, d)
  {
    for i := 0 to |d|
      invariant Put(a[..], p + i, d[i..]) == Put(old(a[..]), p, d)
    {
      ghost var before := a[..];
      if 0 <= p + i < a.Length {
        a[p + i] := d[i];
      }
      assert a[..] == PutByte(before, p + i, d[i]);
      assert d[i..][1..] == d[i + 1..];
    }
  }
}
