/** Per-segment reference counts (server_change_refcnt, server_init_refcnt_array): several arrays
    of 16-bit counters, addressed by one virtual segment number. */
module RefCounting {
  import opened Bits

  /** Where virtual segment `index` is counted. */
  function Place(numTotal: nat, index: nat): (nat, nat)
    requires numTotal > 0
  {
    (index / numTotal, index % numTotal)
  }

  /** Two virtual segments never share a counter. */
  lemma PlaceInjective(numTotal: nat, i: nat, j: nat)
    requires numTotal > 0
    ensures Place(numTotal, i) == Place(numTotal, j) <==> i == j
  {
    assert i == numTotal * (i / numTotal) + i % numTotal;
    assert j == numTotal * (j / numTotal) + j % numTotal;
  }

  /** The counter lies inside the arrays if and only if the segment number is below their product. */
  lemma PlaceInside(numArrays: nat, numTotal: nat, index: nat)
    requires numTotal > 0
    ensures Place(numTotal, index).0 < numArrays && Place(numTotal, index).1 < numTotal <==> index < numArrays * numTotal
  {
    var q := index / numTotal;
    assert index == numTotal * q + index % numTotal;
    ProductOrder(q, numArrays, numTotal);
    ProductOrder(numArrays, q + 1, numTotal);
    assert (q + 1) * numTotal == numTotal * q + numTotal;
  }

  lemma ProductOrder(q: nat, m: nat, n: nat)
    ensures q >= m ==> q * n >= m * n
  {
    if q >= m { assert (q - m) * n >= 0; }
  }

  /** The 16-bit counter after adding `change`. */
  function Changed(count: u16, change: int): u16 { (count + change) % W16 }

  /** What server_change_refcnt returns: for a decrement, zero minus the new count. */
  function Returned(count: u16, change: int): u16 {
    if change > 0 then Changed(count, change) else (0 - Changed(count, change)) % W16
  }

  /** An increment returns the new count, a decrement what is missing from the new count to 2^16, as long as the count does not wrap. */
  lemma ReturnedExact(count: u16, change: int)
    requires 0 <= count + change < W16
    ensures change > 0 ==> Returned(count, change) == count + change
    ensures change <= 0 ==> Returned(count, change) == if count + change == 0 then 0 else 0x1_0000 - (count + change)
  {
  }

  /** zero_copy_tx_completion keeps 8 bits of the result and warns when they are zero. */
  predicate Warns(count: u16) { Returned(count, -1) % 256 == 0 }

  /** The warning appears exactly when the new count is a multiple of 256. */
  lemma WarnsExact(count: u16)
    requires count >= 1
    ensures Warns(count) <==> (count - 1) % 256 == 0
  {
    var n := count - 1;
    assert Changed(count, -1) == n;
    if n == 0 {
      assert Returned(count, -1) == 0;
    } else {
      assert Returned(count, -1) == W16 - n;
    }
  }

  /** "Decremented to 0" is told right for all counts up to `bound` exactly when bound <= 256. */
  lemma WarningRange(bound: u16)
    ensures (forall count: u16 :: 1 <= count <= bound ==> (Warns(count) <==> count == 1)) <==> bound <= 256
  {
    forall count: u16 | 1 <= count ensures Warns(count) <==> (count - 1) % 256 == 0 {
      WarnsExact(count);
    }
    if bound > 256 {
      WarnsExact(257);
      assert Warns(257);
    }
  }

  class RefCounts {
    const numArrays: nat
    const numTotal: nat
    const counts: array2<u16>

    ghost predicate Shape() { numTotal > 0 && counts.Length0 == numArrays && counts.Length1 == numTotal }

    /** The count of every virtual segment. */
    ghost function View(): (s: seq<nat>)
      requires Shape()
      reads counts
      ensures |s| == numArrays * numTotal
    {
      seq(numArrays * numTotal, i requires 0 <= i < numArrays * numTotal reads counts => Count(i))
    }

    ghost function Count(i: nat): nat
      requires Shape() && i < numArrays * numTotal
      reads counts
    {
      PlaceInside(numArrays, numTotal, i);
      counts[Place(numTotal, i).0, Place(numTotal, i).1]
    }

    /** server_init_refcnt_array: every count starts at one. */
    constructor (numArrays: nat, numTotal: nat)
      requires numTotal > 0
      ensures this.numArrays == numArrays && this.numTotal == numTotal && Shape() && fresh(counts)
      ensures forall i :: 0 <= i < |View()| ==> View()[i] == 1
    {
      this.numArrays, this.numTotal := numArrays, numTotal;
      counts := new u16[numArrays, numTotal]((_, _) => 0);
      new;
      for j := 0 to numArrays
        invariant forall a, b :: 0 <= a < j && 0 <= b < numTotal ==> counts[a, b] == 1
      {
        for i := 0 to numTotal
          invariant forall a, b :: 0 <= a < j && 0 <= b < numTotal ==> counts[a, b] == 1
          invariant forall b :: 0 <= b < i ==> counts[j, b] == 1
        {
          counts[j, i] := 1;
        }
      }
      forall i | 0 <= i < |View()| ensures View()[i] == 1 {
        PlaceInside(numArrays, numTotal, i);
      }
    }

    /** server_change_refcnt: only the counter of `index` changes. */
    method Change(index: nat, change: int) returns (cur: u16)
      requires Shape() && index < numArrays * numTotal && -0x8000 <= change < 0x8000
      modifies counts
      ensures View() == old(View())[index := Changed(old(Count(index)), change)]
      ensures cur == Returned(old(Count(index)), change)
    {
      hide Place;
      ghost var before := View();
      PlaceInside(numArrays, numTotal, index);
      var (refcntArray, physicalSegment) := Place(numTotal, index);
      var count := Changed(counts[refcntArray, physicalSegment], change);
      cur := Returned(counts[refcntArray, physicalSegment], change);
      counts[refcntArray, physicalSegment] := count;
      forall i | 0 <= i < numArrays * numTotal ensures View()[i] == before[index := count][i] {
        PlaceInside(numArrays, numTotal, i);
        PlaceInjective(numTotal, i, index);
      }
    }
  }
}
