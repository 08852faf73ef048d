/** rte_memcpy_func (inc/base/rte_memcpy.h): copying with blocks of 16 to 256 bytes, overlapping
    tails and switches that fall through, against a plain copy. */
module RteMemcpy {
  import opened Bits
  import opened Memory

  /** Source and destination: `n` bytes each, inside memory, without overlap. */
  predicate Windows(size: nat, dst: nat, src: nat, n: nat) {
    dst + n <= size && src + n <= size && (dst + n <= src || src + n <= dst)
  }

  /** Memory after the first `m` bytes have been copied. */
  function Prefix(m0: seq<byte>, dst: nat, src: nat, m: nat): (r: seq<byte>)
    requires src + m <= |m0|
    ensures |r| == |m0|
  {
    Put<byte>(m0, dst, m0[src..src + m])
  }

  /** A block that starts inside the copied part extends it: bytes copied twice get the same
      value again. */
  lemma Extend(m0: seq<byte>, dst: nat, src: nat, n: nat, m: nat, i: nat, k: nat)
    requires Windows(|m0|, dst, src, n) && i <= m <= i + k <= n
    ensures var now := Prefix(m0, dst, src, m);
            Put<byte>(now, dst + i, now[src + i..src + i + k]) == Prefix(m0, dst, src, i + k)
  {
    hide Put;
    var now := Prefix(m0, dst, src, m);
    var block := now[src + i..src + i + k];
    PutAt<byte>(m0, dst, m0[src..src + m]);
    PutAt<byte>(m0, dst, m0[src..src + i + k]);
    PutAt<byte>(now, dst + i, block);
    SameSource(m0, dst, src, n, m);
    var l, r := Put<byte>(now, dst + i, block), Prefix(m0, dst, src, i + k);
    forall x | 0 <= x < |m0| ensures l[x] == r[x] {
      if dst + i <= x < dst + i + k {
        assert block[x - dst - i] == now[src + (x - dst)] == m0[src + (x - dst)];
      }
    }
  }

  lemma Moved(m0: seq<byte>, dst: nat, src: nat, n: nat, m: nat, d: nat, s: nat, k: nat, now: seq<byte>, reg: seq<byte>)
    requires Windows(|m0|, dst, src, n) && dst <= d <= dst + m <= d + k <= dst + n && s - src == d - dst
    requires now == Prefix(m0, dst, src, m) && reg == now[s..s + k]
    ensures Put<byte>(now, d, reg) == Prefix(m0, dst, src, d + k - dst)
  {
    hide Put, Prefix;
    Extend(m0, dst, src, n, m, d - dst, k);
  }

  /** Copying does not touch the source. */
  lemma SameSource(m0: seq<byte>, dst: nat, src: nat, n: nat, m: nat)
    requires Windows(|m0|, dst, src, n) && m <= n
    ensures forall x :: src <= x < src + n ==> Prefix(m0, dst, src, m)[x] == m0[x]
  {
    hide Put;
    PutAt<byte>(m0, dst, m0[src..src + m]);
  }

  lemma NothingCopied(m0: seq<byte>, dst: nat, src: nat)
    requires src <= |m0|
    ensures Prefix(m0, dst, src, 0) == m0
  {
    assert m0[src..src] == [];
  }

  class Copy {
    const mem: array<byte>
    const dst0: nat
    const src0: nat
    const n0: nat
    ghost const m0: seq<byte>

    /** The first `m` bytes are copied, and nothing else has changed. */
    ghost predicate Done(m: nat)
      reads mem
    {
      && Windows(mem.Length, dst0, src0, n0) && |m0| == mem.Length && m <= n0
      && mem[..] == Prefix(m0, dst0, src0, m)
    }

    constructor (mem: array<byte>, dst: nat, src: nat, n: nat)
      requires Windows(mem.Length, dst, src, n)
      ensures this.mem == mem && dst0 == dst && src0 == src && n0 == n && m0 == mem[..] && Done(0)
    {
      this.mem, dst0, src0, n0, m0 := mem, dst, src, n, mem[..];
      new;
      NothingCopied(m0, dst0, src0);
    }

    /** rte_movN: the registers load `k` bytes, then all are stored. Every block the copy moves lies in the two
        windows: source bytes are read there only, destination bytes written there only. */
    method Move(d: nat, s: nat, k: nat, ghost m: nat)
      requires Done(m) && dst0 <= d <= dst0 + m <= d + k <= dst0 + n0 && s - src0 == d - dst0
      modifies mem
      ensures Done(d + k - dst0)
    {
      hide Put, Prefix;
      ghost var now := mem[..];
      var reg := mem[s..s + k];
      assert reg == now[s..s + k];
      Moved(m0, dst0, src0, n0, m, d, s, k, now, reg);
      Memcpy(mem, d, reg);
    }

    /** rte_mov256: two blocks of 128. */
    method Move256(d: nat, s: nat)
      requires dst0 <= d && Done(d - dst0) && d + 256 <= dst0 + n0 && s - src0 == d - dst0
      modifies mem
      ensures Done(d + 256 - dst0)
    {
      hide Done;
      Move(d, s, 128, d - dst0);
      Move(d + 128, s + 128, 128, d + 128 - dst0);
    }

    /** Fewer than 16 bytes: one block per bit of n. */
    method Small()
      requires Done(0) && n0 < 16
      modifies mem
      ensures Done(n0)
    {
      hide Done;
      var dst, src, n := dst0, src0, n0;
      Bits4(n);
      if n % 2 == 1 {
        Move(dst, src, 1, dst - dst0);
        dst, src := dst + 1, src + 1;
      }
      if n / 2 % 2 == 1 {
        Move(dst, src, 2, dst - dst0);
        dst, src := dst + 2, src + 2;
      }
      if n / 4 % 2 == 1 {
        Move(dst, src, 4, dst - dst0);
        dst, src := dst + 4, src + 4;
      }
      if n / 8 % 2 == 1 {
        Move(dst, src, 8, dst - dst0);
        dst, src := dst + 8, src + 8;
      }
      assert dst == dst0 + n;
    }

    static lemma Bits4(n: nat)
      requires n < 16
      ensures n == n % 2 + 2 * (n / 2 % 2) + 4 * (n / 4 % 2) + 8 * (n / 8 % 2)
    {
    }

    /** Two blocks of `k` bytes, the second ending at the end: they overlap in the middle. */
    method TwoBlocks(k: nat)
      requires Done(0) && k <= n0 <= 2 * k
      modifies mem
      ensures Done(n0)
    {
      hide Done;
      Move(dst0, src0, k, 0);
      Move(dst0 - k + n0, src0 - k + n0, k, k);
    }

    /** More than 128 bytes. */
    method Large()
      requires Done(0) && n0 > 128
      modifies mem
      ensures Done(n0)
    {
      hide Done;
      var dst, src, n := dst0, src0, n0;
      while n >= 256
        invariant 0 <= n <= n0 && dst == dst0 + (n0 - n) && src == src0 + (n0 - n) && Done(n0 - n)
      {
        Move256(dst, src);
        dst, src, n := dst + 256, src + 256, n - 256;
      }
      var c := 3 - n / 64;
      if c == 0 {
        Move(dst, src, 64, dst - dst0);
        n, dst, src := n - 64, dst + 64, src + 64;
      }
      if c <= 1 {
        Move(dst, src, 64, dst - dst0);
        n, dst, src := n - 64, dst + 64, src + 64;
      }
      if c <= 2 {
        Move(dst, src, 64, dst - dst0);
        n, dst, src := n - 64, dst + 64, src + 64;
      }
      Remaining(dst, src, n);
    }

    /** Fewer than 64 bytes are left: blocks of 16, then a last one that reaches back. */
    method Remaining(dst1: nat, src1: nat, n1: nat)
      requires n1 < 64 && n0 > 128 && dst1 == dst0 + (n0 - n1) && src1 == src0 + (n0 - n1) && Done(n0 - n1)
      modifies mem
      ensures Done(n0)
    {
      hide Done;
      var dst, src, n := dst1, src1, n1;
      var c := 3 - n / 16;
      if c == 0 {
        Move(dst, src, 16, dst - dst0);
        n, dst, src := n - 16, dst + 16, src + 16;
      }
      if c <= 1 {
        Move(dst, src, 16, dst - dst0);
        n, dst, src := n - 16, dst + 16, src + 16;
      }
      if c <= 2 {
        Move(dst, src, 16, dst - dst0);
        n, dst, src := n - 16, dst + 16, src + 16;
      }
      if n != 0 {
        Move(dst - 16 + n, src - 16 + n, 16, dst - dst0);
      }
    }

    /** Every case ends with exactly the `n` bytes copied. */
    method Dispatch()
      requires Done(0)
      modifies mem
      ensures Done(n0)
    {
      hide Done;
      if n0 < 16 {
        Small();
      } else if n0 <= 32 {
        TwoBlocks(16);
      } else if n0 <= 64 {
        TwoBlocks(32);
      } else if n0 <= 128 {
        TwoBlocks(64);
      } else {
        Large();
      }
    }
  }

  /** rte_memcpy_func: for every length and every pair of windows that do not overlap, memory
      changes in the destination window only, to the bytes of the source window. */
  method RteMemcpyFunc(mem: array<byte>, dst: nat, src: nat, n: nat)
    requires Windows(mem.Length, dst, src, n)
    modifies mem
    ensures forall x :: 0 <= x < mem.Length ==>
      mem[x] == if dst <= x < dst + n then old(mem[src + (x - dst)]) else old(mem[x])
  {
    var copy := new Copy(mem, dst, src, n);
    copy.Dispatch();
    PutAt<byte>(copy.m0, dst, copy.m0[src..src + n]);
    assert forall x :: 0 <= x < mem.Length ==> mem[x] == mem[..][x];
  }
}
