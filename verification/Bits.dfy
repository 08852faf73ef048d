/** Machine words as bounded integers: bitwise `and` on non-negative integers, masks that
    are powers of two, and wrap-around at 16, 32 and 64 bits. */
module Bits {

  const W16: int := 0x1_0000
  const W32: int := 0x1_0000_0000
  const W64: int := 0x1_0000_0000_0000_0000

  type byte = x: int | 0 <= x < 0x100
  type u16 = x: int | 0 <= x < 0x1_0000
  type u32 = x: int | 0 <= x < 0x1_0000_0000
  type u64 = x: int | 0 <= x < 0x1_0000_0000_0000_0000

  function Min(a: nat, b: nat): nat { if a < b then a else b }

  /** Unsigned 32-bit truncation. */
  function Wrap32(x: int): u32 { x % W32 }

  function Pow2(k: nat): (p: nat)
    ensures p > 0
  {
    if k == 0 then 1 else 2 * Pow2(k - 1)
  }

  /** The `&` operator, bit by bit. */
  function And(a: nat, b: nat): (r: nat)
    ensures r <= a && r <= b
  {
    if a == 0 || b == 0 then 0
    else 2 * And(a / 2, b / 2) + (if a % 2 == 1 && b % 2 == 1 then 1 else 0)
  }

  /** Bit `i` of `a`. */
  predicate Bit(a: nat, i: nat) { (a / Pow2(i)) % 2 == 1 }

  lemma PowConstants()
    ensures Pow2(6) == 64 && Pow2(8) == 0x100 && Pow2(15) == 0x8000 && Pow2(16) == W16
    ensures Pow2(31) == 0x8000_0000 && Pow2(32) == W32 && Pow2(64) == W64
  {
    PowFour();
    hide Pow2;
    PowAdd(4, 2);
    PowAdd(4, 4);
    PowAdd(8, 8);
    PowAdd(16, 16);
    PowAdd(32, 32);
    PowStep(16);
    PowStep(32);
  }

  lemma PowFour()
    ensures Pow2(2) == 4 && Pow2(4) == 16
  {
    assert Pow2(1) == 2 && Pow2(2) == 4;
    PowAdd(2, 2);
  }

  lemma {:induction false} PowAdd(a: nat, b: nat)
    ensures Pow2(a + b) == Pow2(a) * Pow2(b)
  {
    if a > 0 { PowAdd(a - 1, b); }
  }

  lemma {:induction false} PowMonotone(a: nat, b: nat)
    requires a <= b
    ensures Pow2(a) <= Pow2(b)
  {
    if a < b { PowMonotone(a, b - 1); }
  }

  /** Reducing modulo a multiple first changes nothing. */
  lemma ModOfMod(x: int, n: nat, m: nat)
    requires n > 0 && m > 0
    ensures (x % (n * m)) % n == x % n
  {
    var q, r := x / (n * m), x % (n * m);
    assert x == (n * m) * q + r;
    assert x == n * (m * q) + r by { assert (n * m) * q == n * (m * q); }
    ModAddMultiple(r, m * q, n);
  }

  lemma ModAddMultiple(r: int, q: int, n: nat)
    requires n > 0
    ensures (n * q + r) % n == r % n
  {
    var q', r' := r / n, r % n;
    assert n * q + r == n * (q + q') + r' by { assert n * (q + q') == n * q + n * q'; }
    DivModUnique(n * q + r, n, q + q', r');
  }

  lemma DivModUnique(x: int, n: nat, q: int, r: int)
    requires n > 0 && x == n * q + r && 0 <= r < n
    ensures x / n == q && x % n == r
  {
    var d := x / n - q;
    assert n * d == r - x % n by { assert n * d == n * (x / n) - n * q; }
    MulMagnitude(n, d);
  }

  lemma SmallMod(x: nat, n: nat)
    requires x < n
    ensures x % n == x && x / n == 0
  {
    DivModUnique(x, n, 0, x);
  }

  lemma MulMagnitude(n: nat, d: int)
    ensures d >= 1 ==> n * d >= n
    ensures d <= -1 ==> n * d <= 0 - n
  {
    if d >= 1 {
      assert n * d == n * (d - 1) + n;
    } else if d <= -1 {
      assert n * d == n * (d + 1) - n;
      assert n * (0 - d - 1) >= 0;
    }
  }

  /** A 32-bit counter keeps every residue modulo a power of two of at most 2^32. */
  lemma Wrap32Mod(x: int, k: nat)
    requires k <= 32
    ensures Wrap32(x) % Pow2(k) == x % Pow2(k)
  {
    PowAdd(k, 32 - k);
    PowConstants();
    ModOfMod(x, Pow2(k), Pow2(32 - k));
  }

  // ----- 32-bit counters that wrap ---------------------------------------------------------

  /** Differences of wrapped counters are differences of the real ones. */
  lemma WrapDifference(a: nat, b: nat)
    requires b <= a < b + W32
    ensures Wrap32(Wrap32(a) - Wrap32(b)) == a - b
  {
    var d := a - b;
    var q := a / W32 - b / W32;
    assert Wrap32(a) - Wrap32(b) == W32 * (0 - q) + d;
    DivModUnique(Wrap32(a) - Wrap32(b), W32, 0 - q, d);
  }

  /** Adding to a wrapped counter. */
  lemma WrapSum(a: nat, b: nat)
    ensures Wrap32(0) == 0 && Wrap32(Wrap32(a) + b) == Wrap32(a + b)
  {
    ModAddMultiple(a % W32 + b, a / W32, W32);
  }

  /** The ring index of a wrapped counter: x & (2^k - 1). */
  lemma CounterIndex(x: nat, k: nat)
    requires k <= 32
    ensures And(Wrap32(x), Pow2(k) - 1) == x % Pow2(k) < Pow2(k)
  {
    AndMask(Wrap32(x), k);
    Wrap32Mod(x, k);
  }

  /** The ring index of a counter that is reported in 16 bits. */
  lemma ReportedIndex(x: nat, k: nat)
    requires k <= 16
    ensures And(x % W16, Pow2(k) - 1) == x % Pow2(k)
  {
    hide And;
    AndMask(x % W16, k);
    PowAdd(k, 16 - k);
    PowConstants();
    ModOfMod(x, Pow2(k), Pow2(16 - k));
  }

  /** Halving the dividend and the divisor together. */
  lemma Halve(a: nat, p: nat)
    requires p > 0
    ensures a / (2 * p) == (a / 2) / p
    ensures a % (2 * p) == 2 * ((a / 2) % p) + a % 2
  {
    var h := a / 2;
    var q, r := h / p, h % p;
    assert a == (2 * p) * q + (2 * r + a % 2) by {
      assert h == p * q + r;
      assert (2 * p) * q == 2 * (p * q);
    }
    DivModUnique(a, 2 * p, q, 2 * r + a % 2);
  }

  /** `x & (2^k - 1)` is the remainder modulo 2^k. */
  lemma AndMask(a: nat, k: nat)
    ensures And(a, Pow2(k) - 1) == a % Pow2(k)
  {
    var q := AndMaskQuotient(a, k);
    DivModUnique(a, Pow2(k), q, And(a, Pow2(k) - 1));
  }

  lemma {:induction false} AndMaskQuotient(a: nat, k: nat) returns (q: nat)
    ensures a == Pow2(k) * q + And(a, Pow2(k) - 1)
    ensures And(a, Pow2(k) - 1) < Pow2(k)
    decreases k
  {
    hide And, Pow2;
    PowStep(k);
    AndZero(a);
    if k == 0 {
      q := a;
    } else if a == 0 {
      q := 0;
    } else {
      q := AndMaskQuotient(a / 2, k - 1);
      var p := Pow2(k - 1);
      AndOnes(a, p);
      DoubleQuotient(a, p, q, And(a / 2, p - 1));
    }
  }

  lemma PowStep(k: nat)
    ensures Pow2(0) == 1 && (k > 0 ==> Pow2(k) == 2 * Pow2(k - 1))
  {
  }

  lemma AndZero(a: nat)
    ensures And(a, 0) == 0 && And(0, a) == 0
  {
  }

  lemma AndOnes(a: nat, p: nat)
    requires a > 0 && p > 0
    ensures And(a, 2 * p - 1) == 2 * And(a / 2, p - 1) + a % 2
  {
    var m := 2 * p - 1;
    assert m / 2 == p - 1 && m % 2 == 1;
  }

  lemma DoubleQuotient(a: nat, p: nat, q: nat, r: nat)
    requires a / 2 == p * q + r
    ensures a == (2 * p) * q + (2 * r + a % 2)
  {
    assert (2 * p) * q == 2 * (p * q);
  }

  /** `x & 2^k` selects bit k. */
  lemma {:induction false} AndBit(a: nat, k: nat)
    ensures And(a, Pow2(k)) == if Bit(a, k) then Pow2(k) else 0
    decreases k
  {
    if k > 0 && a > 0 {
      AndBit(a / 2, k - 1);
      Halve(a, Pow2(k - 1));
      assert Pow2(k) / 2 == Pow2(k - 1) && Pow2(k) % 2 == 0;
    } else if k == 0 && a > 0 {
      assert And(a / 2, 0) == 0;
    } else {
      assert 0 / Pow2(k) == 0;
    }
  }

  /** Bit k of a counter survives truncation to 32 bits when k < 32. */
  lemma Wrap32Bit(x: nat, k: nat)
    requires k < 32
    ensures Bit(Wrap32(x), k) == Bit(x, k)
  {
    BitIsMod(Wrap32(x), k);
    BitIsMod(x, k);
    Wrap32Mod(x, k + 1);
  }

  lemma BitIsMod(x: nat, k: nat)
    ensures Bit(x, k) <==> x % Pow2(k + 1) >= Pow2(k)
  {
    var p := Pow2(k);
    var q, r := x / p, x % p;
    assert x == (2 * p) * (q / 2) + ((q % 2) * p + r) by {
      assert x == p * q + r && q == 2 * (q / 2) + q % 2;
      assert p * q == p * (2 * (q / 2)) + p * (q % 2);
      assert p * (2 * (q / 2)) == (2 * p) * (q / 2);
    }
    if q % 2 == 1 {
      DivModUnique(x, 2 * p, q / 2, p + r);
    } else {
      DivModUnique(x, 2 * p, q / 2, r);
    }
  }

  /** is_power_of_two: x != 0 && !(x & (x - 1)). */
  predicate IsPowerOfTwo(x: nat) { x != 0 && And(x, x - 1) == 0 }

  lemma {:induction false} PowerOfTwoExact(x: nat)
    ensures IsPowerOfTwo(x) <==> exists k: nat :: x == Pow2(k)
  {
    if exists k: nat :: x == Pow2(k) {
      var k: nat :| x == Pow2(k);
      AndMask(x, k);
      assert x % x == 0;
    }
    if IsPowerOfTwo(x) {
      var k := Log2(x);
    }
  }

  /** The exponent of a number that passes is_power_of_two. */
  lemma {:induction false} Log2(x: nat) returns (k: nat)
    requires IsPowerOfTwo(x)
    ensures x == Pow2(k)
  {
    if x == 1 {
      k := 0;
    } else if x % 2 == 1 {
      assert (x - 1) / 2 == x / 2;
      AndSelf(x / 2);
      assert false;
    } else {
      assert (x - 1) / 2 == x / 2 - 1;
      var j := Log2(x / 2);
      k := j + 1;
    }
  }

  lemma {:induction false} AndSelf(a: nat)
    ensures And(a, a) == a
  {
    if a > 0 { AndSelf(a / 2); }
  }
}
