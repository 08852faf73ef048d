/** Bitmaps (bitmap.c, inc/base/bitmap.h): words of 64 bits, searching them word by word, and
    parsing lists such as "0-6:2,9". */
module Bitmap {
  import opened Bits

  const WORD := 64
  const MAX_NBITS := 0x7fff_ffc0     // beyond it the int that counts positions overflows

  // ----- words -----------------------------------------------------------------------------

  /** ~v */
  function Not(v: u64): u64 { W64 - 1 - v }

  /** __builtin_ffsl: one more than the position of the lowest set bit, 0 for 0. */
  function Ffs(v: nat): (r: nat)
    ensures v > 0 ==> r > 0
  {
    if v == 0 then 0 else if v % 2 == 1 then 1 else 1 + Ffs(v / 2)
  }

  lemma BitHalf(v: nat, i: nat)
    ensures Bit(v, 0) <==> v % 2 == 1
    ensures i > 0 ==> (Bit(v, i) <==> Bit(v / 2, i - 1))
  {
    if i > 0 { Halve(v, Pow2(i - 1)); }
  }

  lemma {:induction false} BitOfZero(i: nat)
    ensures !Bit(0, i)
  {
    assert 0 / Pow2(i) == 0;
  }

  /** ffs finds the lowest set bit. */
  lemma {:induction false} FfsExact(v: nat)
    requires v > 0
    ensures Bit(v, Ffs(v) - 1) && forall i: nat :: i < Ffs(v) - 1 ==> !Bit(v, i)
  {
    hide Bit;
    BitHalf(v, 0);
    if v % 2 == 0 {
      FfsExact(v / 2);
      BitHalf(v, Ffs(v) - 1);
      forall i: nat | i < Ffs(v) - 1 ensures !Bit(v, i) { BitHalf(v, i); }
    }
  }

  lemma {:induction false} AndBits(a: nat, b: nat, i: nat)
    ensures Bit(And(a, b), i) <==> Bit(a, i) && Bit(b, i)
    decreases i
  {
    hide Bit;
    if a == 0 || b == 0 {
      BitOfZero(i);
    } else {
      BitHalf(a, i);
      BitHalf(b, i);
      BitHalf(And(a, b), i);
      assert And(a, b) / 2 == And(a / 2, b / 2);
      if i > 0 { AndBits(a / 2, b / 2, i - 1); }
    }
  }

  lemma {:induction false} ComplementBits(w: nat, v: nat, i: nat)
    requires v < Pow2(w)
    ensures Bit(Pow2(w) - 1 - v, i) <==> i < w && !Bit(v, i)
    decreases i
  {
    hide Bit;
    var c := Pow2(w) - 1 - v;
    if w == 0 {
      BitOfZero(i);
    } else {
      BitHalf(c, i);
      BitHalf(v, i);
      assert c / 2 == Pow2(w - 1) - 1 - v / 2;
      if i > 0 { ComplementBits(w - 1, v / 2, i - 1); }
    }
  }

  lemma NotBits(v: u64, i: nat)
    requires i < WORD
    ensures Bit(Not(v), i) <==> !Bit(v, i)
  {
    PowConstants();
    ComplementBits(64, v, i);
  }

  /** ~((1 << s) - 1): all bits from `s` up. */
  lemma MaskBits(s: nat, i: nat)
    requires s < WORD && i < WORD
    ensures Pow2(s) - 1 < W64 && (Bit(Not(Pow2(s) - 1), i) <==> s <= i)
  {
    hide Bit;
    PowConstants();
    PowMonotone(s, 64);
    NotBits(Pow2(s) - 1, i);
    ComplementBits(s, 0, i);
    BitOfZero(i);
  }

  lemma {:induction false} WordBits(v: u64, i: nat)
    requires i >= WORD
    ensures !Bit(v, i)
  {
    PowConstants();
    PowMonotone(WORD, i);
    assert v / Pow2(i) == 0 by { DivModUnique(v, Pow2(i), 0, v); }
  }

  /** v | (1 << i) */
  function SetBit(v: u64, i: nat): u64
    requires i < WORD
  {
    if Bit(v, i) then v else (v + Pow2(i)) % W64
  }

  lemma SetBitExact(v: u64, i: nat, j: nat)
    requires i < WORD && j < WORD
    ensures Bit(SetBit(v, i), j) <==> j == i || Bit(v, j)
  {
    hide Bit, Pow2;
    if !Bit(v, i) {
      PowConstants();
      AddPower(v, i, WORD);
      AddPowerBits(v, i, j);
    }
  }

  lemma {:induction false} AddPower(v: nat, i: nat, w: nat)
    requires i < w && v < Pow2(w) && !Bit(v, i)
    ensures v + Pow2(i) < Pow2(w)
    decreases w
  {
    hide Bit;
    BitHalf(v, i);
    if i > 0 { AddPower(v / 2, i - 1, w - 1); }
  }

  lemma {:induction false} AddPowerBits(v: nat, i: nat, j: nat)
    requires !Bit(v, i)
    ensures Bit(v + Pow2(i), j) <==> j == i || Bit(v, j)
    decreases i
  {
    hide Bit;
    var s := v + Pow2(i);
    BitHalf(v, i);
    BitHalf(v, j);
    BitHalf(s, j);
    if i > 0 {
      assert s / 2 == v / 2 + Pow2(i - 1) && s % 2 == v % 2;
      if j > 0 { AddPowerBits(v / 2, i - 1, j - 1); }
    } else {
      assert s / 2 == v / 2 && s % 2 == 1;
    }
  }

  // ----- bitmaps ---------------------------------------------------------------------------

  /** Words needed for `nbits` bits. */
  function LongSize(nbits: nat): nat { (nbits + WORD - 1) / WORD }

  /** No word too few and none too many. */
  lemma LongSizeExact(nbits: nat)
    ensures WORD * LongSize(nbits) - WORD < nbits <= WORD * LongSize(nbits)
  {
  }

  /** bitmap_test */
  predicate Test(bits: seq<u64>, pos: nat)
    requires pos < WORD * |bits|
  {
    Bit(bits[pos / WORD], pos % WORD)
  }

  /** bitmap_set */
  method Set(bits: array<u64>, pos: nat)
    requires pos < WORD * bits.Length
    modifies bits
    ensures forall i :: 0 <= i < WORD * bits.Length ==> (Test(bits[..], i) <==> i == pos || Test(old(bits[..]), i))
  {
    hide Bit, SetBit;
    ghost var b0 := bits[..];
    bits[pos / WORD] := SetBit(bits[pos / WORD], pos % WORD);
    forall i | 0 <= i < WORD * bits.Length ensures Test(bits[..], i) <==> i == pos || Test(b0, i) {
      SetBitExact(b0[pos / WORD], pos % WORD, i % WORD);
    }
  }

  /** The bits below nbits are exactly `members`. */
  ghost predicate Holds(bits: array<u64>, nbits: nat, members: set<nat>)
    reads bits
  {
    forall i :: 0 <= i < nbits ==> i < WORD * bits.Length && (Test(bits[..], i) <==> i in members)
  }

  /** bitmap_init with state false. */
  method Clear(bits: array<u64>, nbits: nat)
    requires LongSize(nbits) <= bits.Length
    modifies bits
    ensures Holds(bits, nbits, {})
  {
    for k := 0 to LongSize(nbits)
      invariant forall j :: 0 <= j < k ==> bits[j] == 0
    {
      bits[k] := 0;
    }
    forall i | 0 <= i < nbits ensures i < WORD * bits.Length && !Test(bits[..], i) {
      BitOfZero(i % WORD);
    }
  }

  // ----- searching -------------------------------------------------------------------------

  /** The bit searched for: set, or cleared when `invert`. */
  predicate Matches(bits: seq<u64>, pos: nat, invert: bool)
    requires pos < WORD * |bits|
  {
    Test(bits, pos) != invert
  }

  /** bitmap_find_next: the least matching position from `pos` on, or `nbits`. */
  method FindNext(bits: array<u64>, nbits: nat, pos: nat, invert: bool) returns (r: nat)
    requires LongSize(nbits) <= bits.Length && nbits <= MAX_NBITS
    ensures r <= nbits
    ensures r < nbits ==> pos <= r < WORD * bits.Length && Matches(bits[..], r, invert)
    ensures forall i :: pos <= i < r ==> i < WORD * bits.Length && !Matches(bits[..], i, invert)
  {
    hide Bit, And, Pow2;
    var mask: u64 := LowMask(pos);
    var idx := pos / WORD * WORD;
    while idx < nbits
      invariant idx % WORD == 0 && pos / WORD * WORD <= idx
      invariant idx < nbits ==> idx + WORD <= 0x7fff_ffff
      invariant forall i :: pos <= i < idx && i < nbits ==> i < WORD * bits.Length && !Matches(bits[..], i, invert)
      invariant forall j :: 0 <= j < WORD ==> (Bit(mask, j) <==> idx + j >= pos)
      decreases nbits - idx
    {
      Inside(idx, nbits, bits.Length);
      var val := bits[idx / WORD];
      ghost var word := val;
      if invert {
        val := Not(val);
      }
      val := And(val, mask);
      WordMatches(word, invert, mask, val);
      if val != 0 {
        FfsExact(val);
        if Ffs(val) - 1 >= WORD { WordBits(val, Ffs(val) - 1); }
        r := idx + Ffs(val) - 1;
        FoundHere(bits[..], nbits, pos, invert, idx, word, mask, val);
        if nbits < r {
          r := nbits;
        }
        return;
      }
      NothingHere(bits[..], nbits, pos, invert, idx, word, mask);
      mask := W64 - 1;
      AllOnes(mask);
      idx := idx + WORD;
    }
    r := nbits;
  }

  lemma Inside(idx: nat, nbits: nat, words: nat)
    requires idx % WORD == 0 && idx < nbits && LongSize(nbits) <= words
    ensures idx / WORD < words && idx + WORD <= WORD * words
  {
  }

  /** ~((1 << BITMAP_POS_SHIFT(pos)) - 1) */
  method LowMask(pos: nat) returns (mask: u64)
    ensures forall j :: 0 <= j < WORD ==> (Bit(mask, j) <==> pos % WORD <= j)
  {
    hide Bit, Pow2;
    MaskBits(pos % WORD, 0);
    mask := Not(Pow2(pos % WORD) - 1);
    forall j | 0 <= j < WORD ensures Bit(mask, j) <==> pos % WORD <= j { MaskBits(pos % WORD, j); }
  }

  lemma AllOnes(mask: u64)
    requires mask == W64 - 1
    ensures forall j :: 0 <= j < WORD ==> Bit(mask, j)
  {
    forall j | 0 <= j < WORD ensures Bit(mask, j) {
      NotBits(0, j);
      BitOfZero(j);
    }
  }

  /** The masked word has exactly the matching bits that the mask lets through. */
  lemma WordMatches(word: u64, invert: bool, mask: u64, val: u64)
    requires val == And(if invert then Not(word) else word, mask)
    ensures forall j :: 0 <= j < WORD ==> (Bit(val, j) <==> (Bit(word, j) != invert) && Bit(mask, j))
  {
    hide Bit, And;
    forall j | 0 <= j < WORD ensures Bit(val, j) <==> (Bit(word, j) != invert) && Bit(mask, j) {
      NotBits(word, j);
      AndBits(if invert then Not(word) else word, mask, j);
    }
  }

  lemma FoundHere(bits: seq<u64>, nbits: nat, pos: nat, invert: bool, idx: nat, word: u64, mask: u64, val: u64)
    requires idx % WORD == 0 && idx + WORD <= WORD * |bits| && bits[idx / WORD] == word
    requires forall j :: 0 <= j < WORD ==> (Bit(mask, j) <==> idx + j >= pos)
    requires forall j :: 0 <= j < WORD ==> (Bit(val, j) <==> (Bit(word, j) != invert) && Bit(mask, j))
    requires val != 0 && Ffs(val) - 1 < WORD && Bit(val, Ffs(val) - 1)
    requires forall i: nat :: i < Ffs(val) - 1 ==> !Bit(val, i)
    ensures pos <= idx + Ffs(val) - 1 && Matches(bits, idx + Ffs(val) - 1, invert)
    ensures forall i :: pos <= i < idx + Ffs(val) - 1 && idx <= i ==> !Matches(bits, i, invert)
  {
    hide Bit, Ffs;
    forall i | pos <= i < idx + Ffs(val) - 1 && idx <= i ensures !Matches(bits, i, invert) {
      assert !Bit(val, i - idx);
    }
  }

  lemma NothingHere(bits: seq<u64>, nbits: nat, pos: nat, invert: bool, idx: nat, word: u64, mask: u64)
    requires idx % WORD == 0 && idx + WORD <= WORD * |bits| && bits[idx / WORD] == word
    requires forall j :: 0 <= j < WORD ==> (Bit(mask, j) <==> idx + j >= pos)
    requires forall j :: 0 <= j < WORD ==> (Bit(0, j) <==> (Bit(word, j) != invert) && Bit(mask, j))
    ensures forall i :: pos <= i < idx + WORD && idx <= i ==> !Matches(bits, i, invert)
  {
    hide Bit;
    forall i | pos <= i < idx + WORD && idx <= i ensures !Matches(bits, i, invert) {
      BitOfZero(i - idx);
      assert Bit(mask, i - idx);
    }
  }

  /** The positions below `n` with their bit set, in increasing order. */
  function Positions(bits: seq<u64>, n: nat): (s: seq<nat>)
    requires n <= WORD * |bits|
  {
    if n == 0 then []
    else Positions(bits, n - 1) + if Test(bits, n - 1) then [n - 1] else []
  }

  lemma {:induction false} PositionsExact(bits: seq<u64>, n: nat)
    requires n <= WORD * |bits|
    ensures forall i :: i in Positions(bits, n) <==> 0 <= i < n && Test(bits, i)
    ensures forall k, l :: 0 <= k < l < |Positions(bits, n)| ==> Positions(bits, n)[k] < Positions(bits, n)[l]
  {
    hide Test;
    if n > 0 {
      PositionsExact(bits, n - 1);
      var p := Positions(bits, n - 1);
      forall k | 0 <= k < |p| ensures p[k] < n - 1 {
        assert p[k] in p;
      }
    }
  }

  /** Skipping positions that are not set. */
  lemma {:induction false} PositionsSkip(bits: seq<u64>, n: nat, m: nat)
    requires n <= m <= WORD * |bits| && forall i :: n <= i < m ==> !Test(bits, i)
    ensures Positions(bits, m) == Positions(bits, n)
  {
    hide Test;
    if n < m { PositionsSkip(bits, n, m - 1); }
  }

  /** bitmap_for_each_set visits exactly the set bits, each once, in increasing order. */
  method ForEachSet(bits: array<u64>, nbits: nat) returns (visited: seq<nat>)
    requires LongSize(nbits) <= bits.Length && nbits <= MAX_NBITS
    ensures nbits <= WORD * bits.Length && visited == Positions(bits[..], nbits)
  {
    hide Test;
    RoomFor(nbits, bits.Length);
    visited := [];
    var pos := FindNext(bits, nbits, 0, false);
    NotSet(bits[..], 0, pos);
    PositionsSkip(bits[..], 0, pos);
    while pos < nbits
      invariant pos <= nbits && visited == Positions(bits[..], pos)
      invariant pos < nbits ==> Test(bits[..], pos)
      decreases nbits - pos
    {
      visited := visited + [pos];
      var next := FindNext(bits, nbits, pos + 1, false);
      NotSet(bits[..], pos + 1, next);
      PositionsSkip(bits[..], pos + 1, next);
      pos := next;
    }
  }

  lemma NotSet(bits: seq<u64>, a: nat, b: nat)
    requires b <= WORD * |bits| && forall i :: a <= i < b ==> !Matches(bits, i, false)
    ensures forall i :: a <= i < b ==> !Test(bits, i)
  {
    hide Test;
    forall i | a <= i < b ensures !Test(bits, i) { assert !Matches(bits, i, false); }
  }

  lemma RoomFor(nbits: nat, words: nat)
    requires LongSize(nbits) <= words
    ensures nbits <= WORD * words
  {
  }
}
