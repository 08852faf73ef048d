/** Grouping round-trip times by request and collecting their distribution (latency.c). */
module Latency {
  import opened Bits

  const ENOMEM := 12
  const LONG_MAX: u64 := 0x7fff_ffff_ffff_ffff

  // ----- what is measured --------------------------------------------------------------------

  /** The nonzero round-trip times of request `id`, in the order they were recorded. */
  function Samples(ids: seq<nat>, rtts: seq<u64>, id: nat): (s: seq<u64>)
    requires |ids| == |rtts|
  {
    if ids == [] then []
    else
      var n := |ids| - 1;
      Samples(ids[..n], rtts[..n], id) + if ids[n] == id && rtts[n] != 0 then [rtts[n]] else []
  }

  /** The first `k` elements. */
  function Take(s: seq<u64>, k: nat): (r: seq<u64>)
    ensures |r| <= k
  {
    if |s| <= k then s else s[..k]
  }

  function Maximum(s: seq<u64>): (m: u64)
  {
    if s == [] then 0
    else var m := Maximum(s[..|s| - 1]); if s[|s| - 1] > m then s[|s| - 1] else m
  }

  /** The maximum is reached, and nothing exceeds it. */
  lemma {:induction false} MaximumExact(s: seq<u64>)
    ensures forall x :: x in s ==> x <= Maximum(s)
    ensures s != [] ==> Maximum(s) in s
    decreases |s|
  {
    if s != [] {
      var n := |s| - 1;
      MaximumExact(s[..n]);
      assert s == s[..n] + [s[n]];
      if s[n] <= Maximum(s[..n]) && n == 0 { assert s[n] == 0; }
    }
  }

  /** The latencies recorded for the requests below `n`: in id order, for each request with a
      nonzero time the maximum of its first `k` nonzero times. */
  function Recorded(ids: seq<nat>, rtts: seq<u64>, k: nat, n: nat): (l: seq<u64>)
    requires |ids| == |rtts|
    ensures |l| <= n
  {
    if n == 0 then []
    else
      var first := Take(Samples(ids, rtts, n - 1), k);
      Recorded(ids, rtts, k, n - 1) + if first == [] then [] else [Maximum(first)]
  }

  lemma {:induction false} SamplesPositive(ids: seq<nat>, rtts: seq<u64>, id: nat)
    requires |ids| == |rtts|
    ensures forall x :: x in Samples(ids, rtts, id) ==> x > 0
    decreases |ids|
  {
    if ids != [] { SamplesPositive(ids[..|ids| - 1], rtts[..|ids| - 1], id); }
  }

  // ----- the distribution --------------------------------------------------------------------

  function Sum(l: seq<u64>): nat { if l == [] then 0 else Sum(l[..|l| - 1]) + l[|l| - 1] }

  /** Every latency counts once, wherever it stands. */
  lemma {:induction false} SumExact(a: seq<u64>, b: seq<u64>)
    ensures Sum(a + b) == Sum(a) + Sum(b)
    ensures forall x :: Sum([x]) == x
    decreases |b|
  {
    forall x: u64 ensures Sum([x]) == x { assert [x][..0] == []; }
    if b == [] {
      assert a + b == a;
    } else {
      var n := |b| - 1;
      SumExact(a, b[..n]);
      assert (a + b)[..|a| + n] == a + b[..n];
    }
  }

  function Least(l: seq<u64>): (m: u64) {
    if l == [] then LONG_MAX
    else var m := Least(l[..|l| - 1]); if l[|l| - 1] < m then l[|l| - 1] else m
  }

  /** The initial minimum is LONG_MAX: with smaller latencies it is the true minimum. */
  lemma {:induction false} LeastExact(l: seq<u64>)
    ensures forall x :: x in l ==> Least(l) <= x
    ensures Least(l) <= LONG_MAX && (Least(l) in l || Least(l) == LONG_MAX)
    ensures (exists x :: x in l && x < LONG_MAX) ==> Least(l) in l
    decreases |l|
  {
    if l != [] {
      var n := |l| - 1;
      LeastExact(l[..n]);
      assert l == l[..n] + [l[n]];
    }
  }

  /** Latency_Dist_t */
  class Dist {
    var min: u64
    var max: u64
    var latencySum: u64
    var totalCount: nat
    var latencies: array<u64>

    /** alloc_latency_dist on a fresh distribution. */
    constructor (ct: nat)
      ensures Agrees([]) && latencies.Length == ct && fresh(latencies)
    {
      min, max, latencySum, totalCount := LONG_MAX, 0, 0, 0;
      latencies := new u64[ct](_ => 0);
    }

    /** The fields describe the list `l`. */
    ghost predicate Agrees(l: seq<u64>)
      reads this, latencies
    {
      && totalCount == |l| <= latencies.Length && latencies[..|l|] == l
      && latencySum == Sum(l) % W64 && min == Least(l) && max == Maximum(l)
    }

    /** add_latency, as long as there is room. */
    method AddLatency(latency: u64, ghost l: seq<u64>) returns (ret: int)
      requires Agrees(l) && totalCount < latencies.Length
      modifies this`min, this`max, this`latencySum, this`totalCount, latencies
      ensures ret == 0 && Agrees(l + [latency])
    {
      latencies[totalCount] := latency;
      totalCount := totalCount + 1;
      if totalCount > latencies.Length {
        return -ENOMEM;
      }
      ghost var l' := l + [latency];
      assert l'[..|l'| - 1] == l;
      SumNext(Sum(l), latency);
      latencySum := (latencySum + latency) % W64;
      if latency < min {
        min := latency;
      }
      if latency > max {
        max := latency;
      }
      ret := 0;
    }
  }

  lemma SumNext(s: nat, x: u64)
    ensures (s % W64 + x) % W64 == (s + x) % W64
  {
    ModAddMultiple(s % W64 + x, s / W64, W64);
  }

  // ----- calculate_latencies -----------------------------------------------------------------

  /** Row `id` of the table: the first `k` samples, then zeros. */
  ghost predicate Row(grouped: seq<u64>, k: nat, id: nat, samples: seq<u64>)
    requires (id + 1) * k <= |grouped|
  {
    forall c :: 0 <= c < k ==> Cell(grouped, k, id, c) == if c < |samples| then samples[c] else 0
  }

  function Cell(grouped: seq<u64>, k: nat, id: nat, c: nat): u64
    requires (id + 1) * k <= |grouped| && c < k
  {
    CellInside(k, id, c);
    grouped[id * k + c]
  }

  lemma CellInside(k: nat, id: nat, c: nat)
    requires c < k
    ensures 0 <= id * k + c < (id + 1) * k
  {
    assert (id + 1) * k == id * k + k;
  }

  lemma RowInside(k: nat, id: nat, n: nat)
    requires id < n
    ensures 0 <= (id + 1) * k <= n * k
  {
    assert (n - id - 1) * k >= 0;
    assert n * k == (id + 1) * k + (n - id - 1) * k;
  }

  /** Cells of different rows are different. */
  lemma RowsApart(k: nat, id: nat, c: nat, id2: nat, c2: nat)
    requires c < k && c2 < k && id * k + c == id2 * k + c2
    ensures id == id2 && c == c2
  {
    if id < id2 {
      RowInside(k, id, id2);
      CellInside(k, id, c);
    } else if id2 < id {
      RowInside(k, id2, id);
      CellInside(k, id2, c2);
    }
  }

  /** All rows hold the samples among the first `i` measurements. */
  ghost predicate Grouped(sentIds: seq<u32>, grouped: seq<u64>, n: nat, k: nat, ids: seq<nat>, rtts: seq<u64>)
    requires |ids| == |rtts|
  {
    && |sentIds| == n && |grouped| == n * k
    && forall id :: 0 <= id < n ==> RowOk(sentIds, grouped, n, k, ids, rtts, id)
  }

  ghost predicate RowOk(sentIds: seq<u32>, grouped: seq<u64>, n: nat, k: nat, ids: seq<nat>, rtts: seq<u64>, id: nat)
    requires |ids| == |rtts| && |sentIds| == n && |grouped| == n * k && id < n
  {
    RowInside(k, id, n);
    Row(grouped, k, id, Samples(ids, rtts, id)) && (sentIds[id] == 0 <==> id !in ids)
  }

  /** The grouping loops: one time goes into the first free cell of its row. */
  method Record(sentIds: array<u32>, grouped: array<u64>, n: nat, k: nat, id: nat, rtt: u64,
                ghost ids: seq<nat>, ghost rtts: seq<u64>)
    requires sentIds as object != grouped
    requires |ids| == |rtts| && id < n && Grouped(sentIds[..], grouped[..], n, k, ids, rtts)
    modifies sentIds, grouped
    ensures Grouped(sentIds[..], grouped[..], n, k, ids + [id], rtts + [rtt])
  {
    hide Samples;
    ghost var s0, g0 := sentIds[..], grouped[..];
    ghost var samples := Samples(ids, rtts, id);
    RowInside(k, id, n);
    assert RowOk(s0, g0, n, k, ids, rtts, id);
    sentIds[id] := 1;
    var c := 0;
    while c < k
      invariant c <= k && grouped[..] == g0 && c <= |samples| && sentIds[..] == s0[id := 1]
    {
      CellInside(k, id, c);
      CellValue(g0, k, id, c, ids, rtts);
      if grouped[id * k + c] == 0 {
        grouped[id * k + c] := rtt;
        break;
      }
      c := c + 1;
    }
    assert grouped[..] == if c < k then g0[id * k + c := rtt] else g0;
    assert sentIds[..] == s0[id := 1];
    forall r | 0 <= r < n ensures RowOk(sentIds[..], grouped[..], n, k, ids + [id], rtts + [rtt], r) {
      assert RowOk(s0, g0, n, k, ids, rtts, r);
      NewRow(s0, g0, n, k, ids, rtts, id, rtt, c, r);
    }
  }

  /** A cell is zero exactly when the row has fewer samples. */
  lemma CellValue(g: seq<u64>, k: nat, id: nat, c: nat, ids: seq<nat>, rtts: seq<u64>)
    requires |ids| == |rtts| && c < k && (id + 1) * k <= |g| && Row(g, k, id, Samples(ids, rtts, id))
    ensures Cell(g, k, id, c) == 0 <==> c >= |Samples(ids, rtts, id)|
  {
    hide Samples;
    SamplesPositive(ids, rtts, id);
    if c < |Samples(ids, rtts, id)| { assert Samples(ids, rtts, id)[c] in Samples(ids, rtts, id); }
  }

  lemma NewRow(s0: seq<u32>, g0: seq<u64>, n: nat, k: nat, ids: seq<nat>, rtts: seq<u64>, id: nat, rtt: u64, c: nat, r: nat)
    requires |ids| == |rtts| && |s0| == n && |g0| == n * k && id < n && r < n && c <= k
    requires RowOk(s0, g0, n, k, ids, rtts, id) && RowOk(s0, g0, n, k, ids, rtts, r)
    requires c <= |Samples(ids, rtts, id)| && (c < k ==> c == |Samples(ids, rtts, id)|)
    ensures c < k ==> 0 <= id * k + c < |g0|
    ensures RowOk(s0[id := 1], if c < k then g0[id * k + c := rtt] else g0, n, k, ids + [id], rtts + [rtt], r)
  {
    hide Samples;
    RowInside(k, id, n);
    RowInside(k, r, n);
    if c < k { CellInside(k, id, c); }
    SamplesNext(ids, rtts, id, rtt, r);
    var g := if c < k then g0[id * k + c := rtt] else g0;
    forall x | 0 <= x < k
      ensures Cell(g, k, r, x) == if x < |Samples(ids + [id], rtts + [rtt], r)| then Samples(ids + [id], rtts + [rtt], r)[x] else 0
    {
      CellInside(k, r, x);
      assert Cell(g0, k, r, x) == if x < |Samples(ids, rtts, r)| then Samples(ids, rtts, r)[x] else 0;
      if c < k && r * k + x == id * k + c { RowsApart(k, r, x, id, c); }
    }
  }

  lemma SamplesNext(ids: seq<nat>, rtts: seq<u64>, id: nat, rtt: u64, r: nat)
    requires |ids| == |rtts|
    ensures Samples(ids + [id], rtts + [rtt], r) == Samples(ids, rtts, r) + if id == r && rtt != 0 then [rtt] else []
  {
    assert (ids + [id])[..|ids|] == ids && (rtts + [rtt])[..|rtts|] == rtts;
  }

  /** The largest nonzero cell of a row. */
  method RowMaximum(grouped: array<u64>, n: nat, k: nat, r: nat, ghost samples: seq<u64>) returns (max: u64)
    requires r < n && grouped.Length == n * k && (r + 1) * k <= grouped.Length && Row(grouped[..], k, r, samples)
    requires forall x :: x in samples ==> x > 0
    ensures max == Maximum(Take(samples, k))
  {
    max := 0;
    for c := 0 to k
      invariant max == Maximum(Take(samples, c))
    {
      CellInside(k, r, c);
      assert Cell(grouped[..], k, r, c) == grouped[r * k + c];
      var rtt := grouped[r * k + c];
      TakeMaximum(samples, c);
      if rtt != 0 {
        if rtt > max {
          max := rtt;
        }
      }
    }
  }

  lemma TakeMaximum(s: seq<u64>, c: nat)
    ensures Maximum(Take(s, c + 1)) ==
      if c >= |s| then Maximum(Take(s, c)) else if s[c] > Maximum(Take(s, c)) then s[c] else Maximum(Take(s, c))
  {
    if c < |s| { assert s[..c + 1][..c] == s[..c]; }
  }

  /** The loops before the evaluation: the table is cleared, then every measurement recorded. */
  method Group(ids: seq<nat>, rtts: seq<u64>, n: nat, k: nat) returns (sentIds: array<u32>, grouped: array<u64>)
    requires |ids| == |rtts| && forall i :: 0 <= i < |ids| ==> ids[i] < n
    ensures fresh(sentIds) && fresh(grouped) && sentIds as object != grouped
    ensures Grouped(sentIds[..], grouped[..], n, k, ids, rtts)
  {
    hide Grouped;
    Product(n, k);
    sentIds, grouped := new u32[n](_ => 0), new u64[n * k](_ => 0);
    EmptyTable(sentIds[..], grouped[..], n, k);
    for i := 0 to |ids|
      invariant fresh(sentIds) && fresh(grouped) && sentIds as object != grouped
      invariant Grouped(sentIds[..], grouped[..], n, k, ids[..i], rtts[..i])
    {
      Record(sentIds, grouped, n, k, ids[i], rtts[i], ids[..i], rtts[..i]);
      assert ids[..i + 1] == ids[..i] + [ids[i]] && rtts[..i + 1] == rtts[..i] + [rtts[i]];
    }
    assert ids[..|ids|] == ids && rtts[..|ids|] == rtts;
  }

  lemma Product(n: nat, k: nat)
    ensures n * k >= 0
  {
  }

  lemma EmptyTable(sentIds: seq<u32>, grouped: seq<u64>, n: nat, k: nat)
    requires |sentIds| == n && |grouped| == n * k
    requires (forall i :: 0 <= i < n ==> sentIds[i] == 0) && forall i :: 0 <= i < |grouped| ==> grouped[i] == 0
    ensures Grouped(sentIds, grouped, n, k, [], [])
  {
    forall id | 0 <= id < n ensures RowOk(sentIds, grouped, n, k, [], [], id) {
      RowInside(k, id, n);
      forall c | 0 <= c < k ensures Cell(grouped, k, id, c) == 0 { CellInside(k, id, c); }
    }
  }

  /** calculate_latencies: with all ids below `numSent` the distribution describes exactly the
      recorded latencies, which never exceed the allocation. */
  method CalculateLatencies(ids: seq<nat>, rtts: seq<u64>, numSent: nat, numPerBucket: nat) returns (dist: Dist, numValid: nat)
    requires |ids| == |rtts| && forall i :: 0 <= i < |ids| ==> ids[i] < numSent
    ensures fresh(dist) && dist.latencies.Length == numSent
    ensures dist.Agrees(Recorded(ids, rtts, numPerBucket, numSent))
    ensures numValid == |Recorded(ids, rtts, numPerBucket, numSent)| <= numSent
  {
    hide Recorded, Samples, Grouped, Maximum;
    dist := new Dist(numSent);
    ghost var store := dist.latencies;
    var sentIds, grouped := Group(ids, rtts, numSent, numPerBucket);
    numValid := 0;
    NothingRecorded(ids, rtts, numPerBucket);
    for r := 0 to numSent
      invariant fresh(dist) && dist.latencies == store && fresh(store) && store.Length == numSent
      invariant store != grouped && store as object != sentIds
      invariant Grouped(sentIds[..], grouped[..], numSent, numPerBucket, ids, rtts)
      invariant dist.Agrees(Recorded(ids, rtts, numPerBucket, r)) && numValid == |Recorded(ids, rtts, numPerBucket, r)| <= r
    {
      RowOf(sentIds[..], grouped[..], numSent, numPerBucket, ids, rtts, r);
      RecordedNext(ids, rtts, numPerBucket, r);
      if sentIds[r] == 0 {
        continue;
      }
      var maxRtt := RowMaximum(grouped, numSent, numPerBucket, r, Samples(ids, rtts, r));
      if maxRtt > 0 {
        numValid := numValid + 1;
        var ret := dist.AddLatency(maxRtt, Recorded(ids, rtts, numPerBucket, r));
      }
    }
  }

  lemma NothingRecorded(ids: seq<nat>, rtts: seq<u64>, k: nat)
    requires |ids| == |rtts|
    ensures Recorded(ids, rtts, k, 0) == []
  {
  }

  lemma RowOf(sentIds: seq<u32>, grouped: seq<u64>, n: nat, k: nat, ids: seq<nat>, rtts: seq<u64>, r: nat)
    requires |ids| == |rtts| && Grouped(sentIds, grouped, n, k, ids, rtts) && r < n
    ensures |sentIds| == n && |grouped| == n * k && (r + 1) * k <= n * k
    ensures Row(grouped, k, r, Samples(ids, rtts, r)) && (sentIds[r] == 0 <==> r !in ids)
    ensures forall x :: x in Samples(ids, rtts, r) ==> x > 0
  {
    hide Samples, Row;
    RowInside(k, r, n);
    assert RowOk(sentIds, grouped, n, k, ids, rtts, r);
    SamplesPositive(ids, rtts, r);
  }

  /** One more request: nothing is recorded without a sample, the maximum otherwise. */
  lemma RecordedNext(ids: seq<nat>, rtts: seq<u64>, k: nat, r: nat)
    requires |ids| == |rtts|
    ensures var max := Maximum(Take(Samples(ids, rtts, r), k));
            Recorded(ids, rtts, k, r + 1) == if max > 0 then Recorded(ids, rtts, k, r) + [max] else Recorded(ids, rtts, k, r)
    ensures r !in ids ==> Maximum(Take(Samples(ids, rtts, r), k)) == 0
  {
    hide Samples, Maximum;
    var first := Take(Samples(ids, rtts, r), k);
    SamplesPositive(ids, rtts, r);
    MaximumExact(first);
    TakeMembers(Samples(ids, rtts, r), k);
    NoSamples(ids, rtts, r);
    MaximumOfNothing();
  }

  lemma TakeMembers(s: seq<u64>, k: nat)
    ensures forall x :: x in Take(s, k) ==> x in s
  {
  }

  lemma MaximumOfNothing()
    ensures Maximum([]) == 0
  {
  }

  lemma {:induction false} NoSamples(ids: seq<nat>, rtts: seq<u64>, r: nat)
    requires |ids| == |rtts|
    ensures r !in ids ==> Samples(ids, rtts, r) == []
    decreases |ids|
  {
    if ids != [] { NoSamples(ids[..|ids| - 1], rtts[..|ids| - 1], r); }
  }
}
