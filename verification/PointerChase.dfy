/** The client's pointer chase (requests.c): a shuffled table of segment numbers, and requests that
    follow it from segment 0. */
module PointerChase {
  import opened Bits

  const EINVAL := 22

  // ----- permutations ------------------------------------------------------------------------

  /** Every number below |s| exactly once. */
  ghost predicate Permutation(s: seq<nat>) {
    && (forall i :: 0 <= i < |s| ==> s[i] < |s|)
    && (forall i, j :: 0 <= i < j < |s| ==> s[i] != s[j])
    && (forall v: nat :: v < |s| ==> v in s)
  }

  /** What one step of the shuffle does: position `i` takes the value at `j`. */
  function Swap(s: seq<nat>, i: nat, j: nat): (r: seq<nat>)
    requires i < |s| && j < |s|
    ensures |r| == |s|
  {
    s[i := s[j]][j := s[i]]
  }

  lemma SwapKeeps(s: seq<nat>, i: nat, j: nat)
    requires Permutation(s) && i < |s| && j < |s|
    ensures Permutation(Swap(s, i, j))
  {
    var r := Swap(s, i, j);
    forall v: nat | v < |r| ensures v in r {
      assert v in s;
      var k :| 0 <= k < |s| && s[k] == v;
      assert r[if k == i then j else if k == j then i else k] == v;
    }
  }

  /** Rotating by one keeps a permutation. */
  function Rotated(s: seq<nat>): (r: seq<nat>)
    requires s != []
    ensures |r| == |s|
  {
    s[1..] + [s[0]]
  }

  lemma RotatedKeeps(s: seq<nat>)
    requires Permutation(s) && s != []
    ensures Permutation(Rotated(s))
  {
    var r := Rotated(s);
    forall v: nat | v < |r| ensures v in r {
      assert v in s;
      var k :| 0 <= k < |s| && s[k] == v;
      assert r[if k == 0 then |s| - 1 else k - 1] == v;
    }
  }

  // ----- the table -----------------------------------------------------------------------------

  /** initialize_pointer_chasing_at_client: for every sequence of random numbers the table is a
      permutation. */
  method BuildPointers(arraySize: nat, segmentSize: nat, rands: nat -> nat) returns (ret: int, pointers: array<nat>)
    requires segmentSize > 0 && arraySize > 0
    ensures fresh(pointers)
    ensures ret == if arraySize % segmentSize == 0 then 0 else -EINVAL
    ensures ret == 0 ==> pointers.Length == arraySize / segmentSize && Permutation(pointers[..])
    ensures ret == 0 ==> pointers.Length > 0 && pointers[..] == Table(pointers.Length, rands)
  {
    if arraySize < segmentSize { SmallMod(arraySize, segmentSize); }
    if arraySize % segmentSize != 0 {
      pointers := new nat[0];
      return -EINVAL, pointers;
    }
    hide Shuffled, Permutation;
    var len := arraySize / segmentSize;
    DivModUnique(arraySize, segmentSize, len, 0);
    var indices := ShuffleIndices(len, rands);
    TablePermutation(len, rands);
    pointers := CopyRotated(indices);
    ret := 0;
  }

  /** The table is the list of indices, shifted by one. */
  method CopyRotated(indices: array<nat>) returns (pointers: array<nat>)
    requires indices.Length > 0
    ensures fresh(pointers) && pointers[..] == Rotated(indices[..]) && indices[..] == old(indices[..])
  {
    var len := indices.Length;
    pointers := new nat[len](_ => 0);
    for i := 1 to len
      invariant indices[..] == old(indices[..])
      invariant forall k :: 0 <= k < i - 1 ==> pointers[k] == indices[k + 1]
    {
      pointers[i - 1] := indices[i];
    }
    pointers[len - 1] := indices[0];
  }

  /** The indices after the first `n` steps of the shuffle. */
  function Shuffled(len: nat, rands: nat -> nat, n: nat): (s: seq<nat>)
    requires n <= len
    ensures |s| == len
  {
    if n == 0 then seq(len, i requires 0 <= i => i)
    else Swap(Shuffled(len, rands, n - 1), n - 1, Choice(len, rands, n - 1))
  }

  /** i + rand() % (len - i) */
  function Choice(len: nat, rands: nat -> nat, i: nat): (j: nat)
    requires i < len
    ensures i <= j < len
  {
    i + rands(i) % (len - i)
  }

  /** The remainder of the random number chooses among the places from `i` on. */
  lemma ChoiceExact(len: nat, rands: nat -> nat, i: nat, q: nat, r: nat)
    requires i < len && r < len - i && rands(i) == (len - i) * q + r
    ensures Choice(len, rands, i) == i + r
  {
    DivModUnique(rands(i), len - i, q, r);
  }

  lemma {:induction false} ShuffledPermutation(len: nat, rands: nat -> nat, n: nat)
    requires n <= len
    ensures Permutation(Shuffled(len, rands, n))
  {
    if n == 0 {
      var s := Shuffled(len, rands, 0);
      forall v: nat | v < len ensures v in s { assert s[v] == v; }
    } else {
      ShuffledPermutation(len, rands, n - 1);
      SwapKeeps(Shuffled(len, rands, n - 1), n - 1, Choice(len, rands, n - 1));
    }
  }

  lemma ShuffledStep(len: nat, rands: nat -> nat, i: nat)
    requires i < len
    ensures |Shuffled(len, rands, 0)| == len && forall k :: 0 <= k < len ==> Shuffled(len, rands, 0)[k] == k
    ensures Shuffled(len, rands, i + 1) == Swap(Shuffled(len, rands, i), i, Choice(len, rands, i))
  {
  }

  /** The in-place shuffle. */
  method ShuffleIndices(len: nat, rands: nat -> nat) returns (indices: array<nat>)
    requires len > 0
    ensures fresh(indices) && indices[..] == Shuffled(len, rands, len - 1)
  {
    hide Shuffled, Choice;
    indices := new nat[len](i => i);
    ShuffledStep(len, rands, 0);
    assert indices[..] == Shuffled(len, rands, 0);
    for i := 0 to len - 1
      invariant indices[..] == Shuffled(len, rands, i)
    {
      ghost var s := indices[..];
      ShuffledStep(len, rands, i);
      var j := Choice(len, rands, i);
      if i != j {
        indices[i], indices[j] := indices[j], indices[i];
      }
      assert indices[..] == Swap(s, i, j);
    }
  }

  // ----- every shuffle -------------------------------------------------------------------------

  /** Later steps leave the first places alone. */
  lemma {:induction false} FrontKept(len: nat, rands: nat -> nat, n: nat, m: nat)
    requires n <= m <= len
    ensures Shuffled(len, rands, m)[..n] == Shuffled(len, rands, n)[..n]
  {
    hide Choice;
    if n < m { FrontKept(len, rands, n, m - 1); }
  }

  /** The steps before `n` depend on the random numbers before `n` only. */
  lemma {:induction false} ShuffledLocal(len: nat, rands: nat -> nat, rands': nat -> nat, n: nat)
    requires n <= len && forall i :: 0 <= i < n ==> rands(i) == rands'(i)
    ensures Shuffled(len, rands, n) == Shuffled(len, rands', n)
  {
    hide Swap;
    if n > 0 { ShuffledLocal(len, rands, rands', n - 1); }
  }

  ghost predicate Reduced(len: nat, rands: nat -> nat, n: nat) { n <= len && forall i :: 0 <= i < n ==> rands(i) < len - i }

  lemma FrontAt(s: seq<nat>, t: seq<nat>, n: nat, k: nat)
    requires k < n <= |s| && n <= |t| && s[..n] == t[..n]
    ensures s[k] == t[k]
  {
    assert s[k] == s[..n][k] && t[k] == t[..n][k];
  }

  /** The place from `i` on that holds the next number of `t`. */
  lemma NextChoice(s: seq<nat>, t: seq<nat>, i: nat) returns (j: nat)
    requires Permutation(s) && Permutation(t) && |s| == |t| && i < |t| && s[..i] == t[..i]
    ensures i <= j < |s| && Swap(s, i, j)[..i + 1] == t[..i + 1]
  {
    assert t[i] in s;
    j :| 0 <= j < |s| && s[j] == t[i];
    if j < i {
      FrontAt(s, t, i, j);
      assert false;
    }
    var r := Swap(s, i, j);
    assert r[..i] == s[..i] && r[i] == t[i];
    assert r[..i + 1] == r[..i] + [r[i]] && t[..i + 1] == t[..i] + [t[i]];
  }

  function Chosen(rands: nat -> nat, i: nat, r: nat): nat -> nat { k => if k == i then r else rands(k) }

  /** Some choices lead to the list `t` in its first `n` places. */
  lemma {:induction false} SomeChoices(t: seq<nat>, n: nat) returns (rands: nat -> nat)
    requires Permutation(t) && n <= |t|
    ensures Reduced(|t|, rands, n) && Shuffled(|t|, rands, n)[..n] == t[..n]
  {
    if n == 0 {
      rands := _ => 0;
    } else {
      hide Shuffled, Choice, Swap, Permutation;
      var i := n - 1;
      var before := SomeChoices(t, i);
      ShuffledPermutation(|t|, before, i);
      var j := NextChoice(Shuffled(|t|, before, i), t, i);
      rands := Chosen(before, i, j - i);
      ShuffledLocal(|t|, before, rands, i);
      ChoiceExact(|t|, rands, i, 0, j - i);
      ShuffledStep(|t|, rands, i);
    }
  }

  /** All places but one settle the last. */
  lemma LastPlace(s: seq<nat>, t: seq<nat>)
    requires Permutation(s) && Permutation(t) && |s| == |t| > 0 && s[..|s| - 1] == t[..|s| - 1]
    ensures s == t
  {
    var n := |s| - 1;
    var j := NextChoice(s, t, n);
    assert s == s[..n] + [s[n]] && t == t[..n] + [t[n]];
    assert s == Swap(s, n, j) && Swap(s, n, j)[..n + 1] == Swap(s, n, j);
  }

  lemma SameChoice(s: seq<nat>, i: nat, j: nat, k: nat)
    requires Permutation(s) && i <= j < |s| && i <= k < |s| && Swap(s, i, j)[..i + 1] == Swap(s, i, k)[..i + 1]
    ensures j == k
  {
    FrontAt(Swap(s, i, j), Swap(s, i, k), i + 1, i);
  }

  /** Equal lists come from equal numbers. */
  lemma {:induction false} ChoicesEqual(len: nat, rands: nat -> nat, rands': nat -> nat, n: nat)
    requires Reduced(len, rands, n) && Reduced(len, rands', n) && Shuffled(len, rands, n)[..n] == Shuffled(len, rands', n)[..n]
    ensures forall i :: 0 <= i < n ==> rands(i) == rands'(i)
  {
    if n > 0 {
      hide Shuffled, Choice, Swap, Permutation;
      var i := n - 1;
      EqualBefore(len, rands, rands', i);
      ChoicesEqual(len, rands, rands', i);
      ShuffledLocal(len, rands, rands', i);
      EqualNext(len, rands, rands', i);
    }
  }

  lemma EqualBefore(len: nat, rands: nat -> nat, rands': nat -> nat, i: nat)
    requires i < len && Shuffled(len, rands, i + 1)[..i + 1] == Shuffled(len, rands', i + 1)[..i + 1]
    ensures Shuffled(len, rands, i)[..i] == Shuffled(len, rands', i)[..i]
  {
    hide Shuffled;
    FrontKept(len, rands, i, i + 1);
    FrontKept(len, rands', i, i + 1);
    FrontOfFront(Shuffled(len, rands, i + 1), Shuffled(len, rands', i + 1), i, i + 1);
  }

  lemma EqualNext(len: nat, rands: nat -> nat, rands': nat -> nat, i: nat)
    requires i < len && rands(i) < len - i && rands'(i) < len - i && Shuffled(len, rands, i) == Shuffled(len, rands', i)
    requires Shuffled(len, rands, i + 1)[..i + 1] == Shuffled(len, rands', i + 1)[..i + 1]
    ensures rands(i) == rands'(i)
  {
    hide Shuffled, Choice, Swap, Permutation;
    ChoiceExact(len, rands, i, 0, rands(i));
    ChoiceExact(len, rands', i, 0, rands'(i));
    ShuffledStep(len, rands, i);
    ShuffledStep(len, rands', i);
    ShuffledPermutation(len, rands, i);
    SameChoice(Shuffled(len, rands, i), i, i + rands(i), i + rands'(i));
  }

  lemma FrontOfFront(a: seq<nat>, b: seq<nat>, i: nat, n: nat)
    requires i <= n <= |a| && n <= |b| && a[..n] == b[..n]
    ensures a[..i] == b[..i]
  {
    assert a[..i] == a[..n][..i] && b[..i] == b[..n][..i];
  }

  /** The random numbers, each below the number of places left, shuffle into `t`. */
  ghost predicate LeadsTo(rands: nat -> nat, t: seq<nat>)
    requires t != []
  {
    Reduced(|t|, rands, |t| - 1) && Shuffled(|t|, rands, |t| - 1) == t
  }

  /** Every permutation comes from exactly one sequence of such numbers. */
  lemma EveryShuffle(t: seq<nat>)
    requires Permutation(t) && t != []
    ensures exists rands: nat -> nat :: LeadsTo(rands, t)
    ensures forall rands: nat -> nat, rands': nat -> nat | LeadsTo(rands, t) && LeadsTo(rands', t) ::
      forall i :: 0 <= i < |t| - 1 ==> rands(i) == rands'(i)
  {
    hide Shuffled, Permutation;
    var rands := SomeChoices(t, |t| - 1);
    ShuffledPermutation(|t|, rands, |t| - 1);
    LastPlace(Shuffled(|t|, rands, |t| - 1), t);
    assert LeadsTo(rands, t);
    forall rands: nat -> nat, rands': nat -> nat | LeadsTo(rands, t) && LeadsTo(rands', t)
      ensures forall i :: 0 <= i < |t| - 1 ==> rands(i) == rands'(i)
    {
      ChoicesEqual(|t|, rands, rands', |t| - 1);
    }
  }

  // ----- the chase -----------------------------------------------------------------------------

  /** The segment reached from 0 after `k` steps. */
  function Orbit(next: seq<nat>, k: nat): (v: nat)
    requires next != [] && forall i :: 0 <= i < |next| ==> next[i] < |next|
    ensures v < |next|
  {
    if k == 0 then 0 else next[Orbit(next, k - 1)]
  }

  /** Equal positions have equal distances from the start: the chase never enters a loop it did
      not start in. */
  lemma {:induction false} PeelBack(next: seq<nat>, i: nat, j: nat)
    requires Permutation(next) && next != [] && i <= j && Orbit(next, i) == Orbit(next, j)
    ensures Orbit(next, j - i) == 0
    decreases i
  {
    if i > 0 {
      assert Orbit(next, i - 1) == Orbit(next, j - 1);
      PeelBack(next, i - 1, j - 1);
    }
  }

  /** Among more than `n` numbers below `n` two are equal. */
  lemma {:induction false} Pigeonhole(s: seq<nat>, n: nat) returns (i: nat, j: nat)
    requires |s| > n && forall k :: 0 <= k < |s| ==> s[k] < n
    ensures i < j < |s| && s[i] == s[j]
    decreases n
  {
    var first := s[0];
    if n == 0 {
      assert false;
    } else if k :| 0 <= k < |s| && s[k] == n - 1 {
      if l :| 0 <= l < |s| && l != k && s[l] == n - 1 {
        i, j := if k < l then k else l, if k < l then l else k;
      } else {
        var t := s[..k] + s[k + 1..];
        var a, b := Pigeonhole(t, n - 1);
        i, j := if a < k then a else a + 1, if b < k then b else b + 1;
      }
    } else {
      i, j := Pigeonhole(s, n - 1);
    }
  }

  /** `p` is the number of segments visited before the chase is back at 0. */
  ghost predicate Period(next: seq<nat>, p: nat)
    requires next != [] && forall i :: 0 <= i < |next| ==> next[i] < |next|
  {
    && 0 < p <= |next| && Orbit(next, p) == 0
    && forall q :: 0 < q < p ==> Orbit(next, q) != 0
  }

  /** The chase comes back to 0 after at most len steps. */
  lemma PeriodExists(next: seq<nat>) returns (p: nat)
    requires Permutation(next) && next != []
    ensures Period(next, p)
  {
    var s := seq(|next| + 1, k requires 0 <= k => Orbit(next, k));
    var i, j := Pigeonhole(s, |next|);
    PeelBack(next, i, j);
    p := FirstReturn(next, j - i);
  }

  lemma {:induction false} FirstReturn(next: seq<nat>, d: nat) returns (p: nat)
    requires Permutation(next) && next != [] && 0 < d <= |next| && Orbit(next, d) == 0
    ensures Period(next, p) && p <= d
    decreases d
  {
    if q :| 0 < q < d && Orbit(next, q) == 0 {
      p := FirstReturn(next, q);
    } else {
      p := d;
    }
  }

  /** The chase is purely periodic, and no segment repeats within a period. */
  lemma PeriodExact(next: seq<nat>, p: nat, i: nat, j: nat)
    requires Permutation(next) && next != [] && Period(next, p) && i <= j
    ensures Orbit(next, i + p) == Orbit(next, i)
    ensures j < i + p && i != j ==> Orbit(next, i) != Orbit(next, j)
  {
    Shift(next, p, i);
    if j < i + p && i != j && Orbit(next, i) == Orbit(next, j) {
      PeelBack(next, i, j);
      assert false;
    }
  }

  lemma {:induction false} Shift(next: seq<nat>, p: nat, i: nat)
    requires Permutation(next) && next != [] && Orbit(next, p) == 0
    ensures Orbit(next, i + p) == Orbit(next, i)
  {
    if i > 0 { Shift(next, p, i - 1); }
  }

  ghost predicate Visited(next: seq<nat>, v: nat)
    requires next != [] && forall i :: 0 <= i < |next| ==> next[i] < |next|
  {
    exists k: nat :: VisitedAt(next, k, v)
  }

  ghost predicate VisitedAt(next: seq<nat>, k: nat, v: nat)
    requires next != [] && forall i :: 0 <= i < |next| ==> next[i] < |next|
  {
    Orbit(next, k) == v
  }

  lemma {:induction false} WithinPeriod(next: seq<nat>, p: nat, k: nat)
    requires Permutation(next) && next != [] && Period(next, p)
    ensures exists r: nat :: r < p && VisitedAt(next, r, Orbit(next, k))
    decreases k
  {
    if k < p {
      assert VisitedAt(next, k, Orbit(next, k));
    } else {
      Shift(next, p, k - p);
      assert Orbit(next, k) == Orbit(next, k - p);
      WithinPeriod(next, p, k - p);
    }
  }

  /** The chase reaches every segment if and only if its period is the number of segments. */
  lemma VisitsAllIff(next: seq<nat>, p: nat)
    requires Permutation(next) && next != [] && Period(next, p)
    ensures (forall v: nat :: v < |next| ==> Visited(next, v)) <==> p == |next|
  {
    if p == |next| {
      forall v: nat | v < |next| ensures Visited(next, v) { FullPeriodVisits(next, v); }
    }
    if forall v: nat :: v < |next| ==> Visited(next, v) {
      LongEnough(next, p);
    }
  }

  lemma FullPeriodVisits(next: seq<nat>, v: nat)
    requires Permutation(next) && next != [] && Period(next, |next|) && v < |next|
    ensures Visited(next, v)
  {
    var n := |next|;
    var s := seq(n, k requires 0 <= k => Orbit(next, k)) + [v];
    var i, j := Pigeonhole(s, n);
    if j < n {
      PeriodExact(next, n, i, j);
    }
    assert VisitedAt(next, i, v);
  }

  ghost function IndexOf(next: seq<nat>, p: nat, v: nat): (k: nat)
    requires Permutation(next) && next != [] && Period(next, p) && Visited(next, v)
    ensures k < p && Orbit(next, k) == v
  {
    var k: nat :| VisitedAt(next, k, v);
    WithinPeriod(next, p, k);
    var i: nat :| i < p && VisitedAt(next, i, v);
    i
  }

  lemma DistinctBound(s: seq<nat>, n: nat)
    requires forall k :: 0 <= k < |s| ==> s[k] < n
    requires forall i, j :: 0 <= i < j < |s| ==> s[i] != s[j]
    ensures |s| <= n
  {
    if |s| > n {
      var i, j := Pigeonhole(s, n);
    }
  }

  /** Reaching every segment takes a period of that length. */
  lemma LongEnough(next: seq<nat>, p: nat)
    requires Permutation(next) && next != [] && Period(next, p)
    requires forall v: nat :: v < |next| ==> Visited(next, v)
    ensures |next| <= p
  {
    var s := seq(|next|, v requires 0 <= v < |next| => IndexOf(next, p, v));
    forall i, j | 0 <= i < j < |s| ensures s[i] != s[j] {
      assert Orbit(next, s[i]) == i && Orbit(next, s[j]) == j;
    }
    DistinctBound(s, p);
  }

  // ----- which choices make the chase visit everything -----------------------------------------

  /** The finished table for a sequence of random numbers. */
  function Table(len: nat, rands: nat -> nat): (next: seq<nat>)
    requires len > 0
    ensures |next| == len
  {
    Rotated(Shuffled(len, rands, len - 1))
  }

  /** The table entry that receives the segment chosen by step `i` of the shuffle. */
  function Slot(len: nat, i: nat): (q: nat)
    requires i < len
    ensures q < len
  {
    if i == 0 then len - 1 else i - 1
  }

  /** The segment that step `i` takes when it chooses position `j`. */
  function Picked(len: nat, rands: nat -> nat, i: nat, j: nat): nat
    requires i <= j < len
  {
    Shuffled(len, rands, i)[j]
  }

  function Find(s: seq<nat>, v: nat): (k: nat)
    requires v in s
    ensures k < |s| && s[k] == v
  {
    if s[0] == v then 0 else 1 + Find(s[1..], v)
  }

  /** The links made by the first `i` steps join segments into chains, each ending at an entry that
      is not filled yet. `Heads(..)[k]`, for k >= i, is the first segment of the chain that ends at the
      entry step `k` fills. A step puts the chain it completes in front of the chain it picks. */
  function Heads(len: nat, rands: nat -> nat, i: nat): (h: seq<nat>)
    requires i <= len
    ensures |h| == len
  {
    if i == 0 then seq(len, k requires 0 <= k < len => Slot(len, k))
    else
      var h, v := Heads(len, rands, i - 1), Picked(len, rands, i - 1, Choice(len, rands, i - 1));
      if v in h then Swap(h, i - 1, Find(h, v)) else h
  }

  /** The one position among i..len-1 that closes a loop when step `i` chooses it. */
  function Closing(len: nat, rands: nat -> nat, i: nat): (j: nat)
    requires i < len
  {
    var s, v := Shuffled(len, rands, i), Heads(len, rands, i)[i];
    if v in s then Find(s, v) else 0
  }

  /** The chase from 0 reaches every segment. */
  ghost predicate VisitsAll(next: seq<nat>)
    requires next != [] && forall i :: 0 <= i < |next| ==> next[i] < |next|
  {
    forall v: nat :: v < |next| ==> Visited(next, v)
  }

  lemma TablePermutation(len: nat, rands: nat -> nat)
    requires len > 0
    ensures Permutation(Table(len, rands))
  {
    hide Shuffled, Permutation;
    ShuffledPermutation(len, rands, len - 1);
    RotatedKeeps(Shuffled(len, rands, len - 1));
  }

  /** Step `k` decides entry `k` of the shuffle for good. */
  lemma {:induction false} Settled(len: nat, rands: nat -> nat, i: nat, k: nat)
    requires k < i <= len
    ensures Shuffled(len, rands, i)[k] == Picked(len, rands, k, Choice(len, rands, k))
  {
    if k < i - 1 { Settled(len, rands, i - 1, k); }
  }

  /** One step of both sequences. */
  lemma StepOfBoth(len: nat, rands: nat -> nat, i: nat)
    requires i < len
    ensures var h, s, j := Heads(len, rands, i), Shuffled(len, rands, i), Choice(len, rands, i);
      && Shuffled(len, rands, i + 1) == Swap(s, i, j)
      && (s[j] in h ==> Heads(len, rands, i + 1) == Swap(h, i, Find(h, s[j])))
  {
    hide Find, Choice;
  }

  lemma FirstHeads(len: nat, rands: nat -> nat)
    ensures Permutation(Heads(len, rands, 0))
  {
    var h := Heads(len, rands, 0);
    forall v: nat | v < len ensures v in h { assert h[if v == len - 1 then 0 else v + 1] == v; }
  }

  /** Used segments stand in the same places in both sequences, so the unused ones are the heads of
      the chains. */
  lemma {:induction false} HeadsUsed(len: nat, rands: nat -> nat, i: nat)
    requires i <= len
    ensures Permutation(Heads(len, rands, i))
    ensures Heads(len, rands, i)[..i] == Shuffled(len, rands, i)[..i]
  {
    hide Find, Permutation, Heads, Shuffled, Choice;
    if i == 0 {
      FirstHeads(len, rands);
    } else {
      StepOfBoth(len, rands, i - 1);
      HeadsUsed(len, rands, i - 1);
      ShuffledPermutation(len, rands, i - 1);
      var h, s, j := Heads(len, rands, i - 1), Shuffled(len, rands, i - 1), Choice(len, rands, i - 1);
      SwapBoth(h, s, i - 1, j);
    }
  }

  /** Both sequences take the value that was picked to place `i`. */
  lemma SwapBoth(h: seq<nat>, s: seq<nat>, i: nat, j: nat)
    requires Permutation(h) && Permutation(s) && |h| == |s| && i <= j < |s| && h[..i] == s[..i]
    ensures s[j] in h && i <= Find(h, s[j])
    ensures Permutation(Swap(h, i, Find(h, s[j])))
    ensures Swap(h, i, Find(h, s[j]))[..i + 1] == Swap(s, i, j)[..i + 1]
  {
    hide Find;
    assert s[j] < |h|;
    var t := Find(h, s[j]);
    SameRest(h, s, i, t, j);
    SwapKeeps(h, i, t);
    var x, y := Swap(h, i, t), Swap(s, i, j);
    forall k | 0 <= k < i + 1 ensures x[k] == y[k] {
      if k < i { assert h[..i][k] == s[..i][k]; }
    }
  }

  /** Two permutations that agree on the first `i` places have the same values behind. */
  lemma SameRest(h: seq<nat>, s: seq<nat>, i: nat, t: nat, j: nat)
    requires Permutation(h) && Permutation(s) && |h| == |s| && i <= |h| && h[..i] == s[..i]
    requires t < |h| && j < |s| && h[t] == s[j]
    ensures i <= t <==> i <= j
  {
    if t < i { assert h[..i][t] == s[..i][t]; }
    if j < i { assert h[..i][j] == s[..i][j]; }
  }

  /** At every step exactly one of the remaining choices closes a loop. */
  lemma ClosingExact(len: nat, rands: nat -> nat, i: nat, j: nat)
    requires i <= j < len
    ensures i <= Closing(len, rands, i) < len
    ensures Picked(len, rands, i, j) == Heads(len, rands, i)[i] <==> j == Closing(len, rands, i)
  {
    hide Heads, Shuffled;
    HeadsUsed(len, rands, i);
    ShuffledPermutation(len, rands, i);
    var h, s := Heads(len, rands, i), Shuffled(len, rands, i);
    assert h[i] < |s|;
    SameRest(h, s, i, i, Find(s, h[i]));
  }

  /** The closing position depends on the choices made before only. */
  lemma {:induction false} ClosingLocal(len: nat, rands: nat -> nat, other: nat -> nat, i: nat)
    requires i <= len && forall k :: 0 <= k < i ==> Choice(len, rands, k) == Choice(len, other, k)
    ensures Shuffled(len, rands, i) == Shuffled(len, other, i) && Heads(len, rands, i) == Heads(len, other, i)
    ensures i < len ==> Closing(len, rands, i) == Closing(len, other, i)
  {
    if i > 0 { ClosingLocal(len, rands, other, i - 1); }
  }

  // ----- chains --------------------------------------------------------------------------------

  /** A path through the table. */
  ghost predicate Path(next: seq<nat>, c: seq<nat>) {
    && c != [] && (forall m :: 0 <= m < |c| ==> c[m] < |next|)
    && forall m :: 0 <= m < |c| - 1 ==> next[c[m]] == c[m + 1]
  }

  /** The chain from `head` to `last`, through entries filled by the first `i` steps. */
  ghost predicate ChainOk(next: seq<nat>, c: seq<nat>, head: nat, last: nat, i: nat)
    requires i <= |next|
  {
    && Path(next, c) && c[0] == head && c[|c| - 1] == last
    && forall m :: 0 <= m < |c| - 1 ==> exists l :: 0 <= l < i && c[m] == Slot(|next|, l)
  }

  ghost predicate Covers(cs: seq<seq<nat>>, i: nat, v: nat) { exists k :: i <= k < |cs| && v in cs[k] }

  /** After `i` steps without a loop the chains contain every segment. */
  ghost predicate Woven(next: seq<nat>, heads: seq<nat>, cs: seq<seq<nat>>, i: nat)
    requires i <= |next| == |heads|
  {
    && |cs| == |next|
    && (forall k :: i <= k < |cs| ==> ChainOk(next, cs[k], heads[k], Slot(|next|, k), i))
    && forall v: nat :: v < |next| ==> Covers(cs, i, v)
  }

  /** The link that step `i` makes is in the finished table. */
  lemma LinkMade(len: nat, rands: nat -> nat, i: nat)
    requires i < len - 1
    ensures Table(len, rands)[Slot(len, i)] == Picked(len, rands, i, Choice(len, rands, i))
  {
    hide Shuffled;
    Settled(len, rands, len - 1, i);
  }

  lemma WovenAtFirst(len: nat, rands: nat -> nat) returns (cs: seq<seq<nat>>)
    requires len > 0
    ensures Woven(Table(len, rands), Heads(len, rands, 0), cs, 0)
  {
    hide Table;
    cs := seq(len, k requires 0 <= k < len => [Slot(len, k)]);
    forall v: nat | v < len ensures Covers(cs, 0, v) {
      assert v in cs[if v == len - 1 then 0 else v + 1];
    }
  }

  lemma {:induction false} Weave(len: nat, rands: nat -> nat, i: nat) returns (cs: seq<seq<nat>>)
    requires i < len && forall k :: 0 <= k < i ==> Choice(len, rands, k) != Closing(len, rands, k)
    ensures |cs| == len && Woven(Table(len, rands), Heads(len, rands, i), cs, i)
  {
    hide Heads, Table, Shuffled, Closing, Woven, Find, Picked, Slot;
    if i == 0 {
      cs := WovenAtFirst(len, rands);
      WovenSize(Table(len, rands), Heads(len, rands, 0), cs, 0);
    } else {
      var ds := Weave(len, rands, i - 1);
      var h, v := Heads(len, rands, i - 1), Picked(len, rands, i - 1, Choice(len, rands, i - 1));
      HeadsStep(len, rands, i - 1);
      ClosingExact(len, rands, i - 1, Choice(len, rands, i - 1));
      LinkMade(len, rands, i - 1);
      var t := Find(h, v);
      cs := ds[t := ds[i - 1] + ds[t]];
      WeaveStep(Table(len, rands), h, ds, i - 1, t);
    }
  }

  lemma WovenSize(next: seq<nat>, heads: seq<nat>, cs: seq<seq<nat>>, i: nat)
    requires i <= |next| == |heads| && Woven(next, heads, cs, i)
    ensures |cs| == |next|
  {
  }

  /** The step finds the chain it picks among those that are left. */
  lemma HeadsStep(len: nat, rands: nat -> nat, i: nat)
    requires i < len
    ensures var h, v := Heads(len, rands, i), Picked(len, rands, i, Choice(len, rands, i));
      v in h && i <= Find(h, v) && Heads(len, rands, i + 1) == Swap(h, i, Find(h, v))
  {
    hide Find, Permutation, Heads, Shuffled, Choice;
    HeadsUsed(len, rands, i);
    ShuffledPermutation(len, rands, i);
    StepOfBoth(len, rands, i);
    SwapBoth(Heads(len, rands, i), Shuffled(len, rands, i), i, Choice(len, rands, i));
  }

  /** Putting one chain in front of another. */
  lemma WeaveStep(next: seq<nat>, h: seq<nat>, ds: seq<seq<nat>>, i: nat, t: nat)
    requires i < t < |next| == |h| == |ds| && Woven(next, h, ds, i) && next[Slot(|next|, i)] == h[t]
    ensures Woven(next, Swap(h, i, t), ds[t := ds[i] + ds[t]], i + 1)
  {
    hide ChainOk, Slot;
    var n, cs := |next|, ds[t := ds[i] + ds[t]];
    JoinChains(next, ds[i], ds[t], h[i], h[t], i, t);
    forall k | i + 1 <= k < n && k != t ensures ChainOk(next, cs[k], h[k], Slot(n, k), i + 1) {
      ChainLater(next, ds[k], h[k], Slot(n, k), i);
    }
    CoversMore(ds, cs, n, i, i + 1, t);
  }

  lemma CoversMore(ds: seq<seq<nat>>, cs: seq<seq<nat>>, n: nat, i: nat, j: nat, t: nat)
    requires i < t < |ds| && j == i + 1 && cs == ds[t := ds[i] + ds[t]]
    requires forall v: nat :: v < n ==> Covers(ds, i, v)
    ensures forall v: nat :: v < n ==> Covers(cs, j, v)
  {
    forall v: nat | v < n ensures Covers(cs, j, v) {
      assert Covers(ds, i, v);
      var k :| i <= k < |ds| && v in ds[k];
      assert v in cs[if k == i then t else k];
    }
  }

  lemma ChainLater(next: seq<nat>, c: seq<nat>, head: nat, last: nat, i: nat)
    requires i < |next| && ChainOk(next, c, head, last, i)
    ensures ChainOk(next, c, head, last, i + 1)
  {
    forall m | 0 <= m < |c| - 1 ensures exists l :: 0 <= l < i + 1 && c[m] == Slot(|next|, l) {
      var l :| 0 <= l < i && c[m] == Slot(|next|, l);
    }
  }

  lemma JoinChains(next: seq<nat>, a: seq<nat>, b: seq<nat>, x: nat, y: nat, i: nat, t: nat)
    requires i < t < |next| && ChainOk(next, a, x, Slot(|next|, i), i) && ChainOk(next, b, y, Slot(|next|, t), i)
    requires next[Slot(|next|, i)] == y
    ensures ChainOk(next, a + b, x, Slot(|next|, t), i + 1)
  {
    var c := a + b;
    forall m | 0 <= m < |c| - 1
      ensures next[c[m]] == c[m + 1] && exists l :: 0 <= l < i + 1 && c[m] == Slot(|next|, l)
    {
      if m < |a| - 1 {
        var l :| 0 <= l < i && a[m] == Slot(|next|, l);
      } else if m >= |a| {
        assert c[m] == b[m - |a|] && c[m + 1] == b[m - |a| + 1];
        var l :| 0 <= l < i && b[m - |a|] == Slot(|next|, l);
      }
    }
  }

  // ----- both directions -----------------------------------------------------------------------

  lemma VisitsNext(next: seq<nat>, v: nat)
    requires Permutation(next) && next != [] && Visited(next, v)
    ensures v < |next| && Visited(next, next[v])
  {
    var k: nat :| VisitedAt(next, k, v);
    assert VisitedAt(next, k + 1, next[v]);
  }

  lemma {:induction false} VisitsOn(next: seq<nat>, c: seq<nat>, a: nat, m: nat)
    requires Permutation(next) && next != [] && Path(next, c) && a <= m < |c| && Visited(next, c[a])
    ensures Visited(next, c[m])
    decreases m - a
  {
    hide Visited;
    if a < m {
      VisitsOn(next, c, a, m - 1);
      VisitsNext(next, c[m - 1]);
    }
  }

  lemma StartVisited(next: seq<nat>)
    requires Permutation(next) && next != []
    ensures Visited(next, 0)
  {
    assert VisitedAt(next, 0, 0);
  }

  /** A path through 0 whose end leads back to its beginning is visited as a whole. */
  lemma RoundTrip(next: seq<nat>, c: seq<nat>, v: nat)
    requires Permutation(next) && next != [] && Path(next, c) && next[c[|c| - 1]] == c[0]
    requires 0 in c && v in c
    ensures Visited(next, v)
  {
    hide Visited;
    var a :| 0 <= a < |c| && c[a] == 0;
    var m :| 0 <= m < |c| && c[m] == v;
    StartVisited(next);
    VisitsOn(next, c, a, |c| - 1);
    VisitsNext(next, c[|c| - 1]);
    VisitsOn(next, c, 0, m);
  }

  /** The last entry takes the segment that is left: the head of the only chain. */
  lemma LastLink(len: nat, rands: nat -> nat)
    requires len > 0
    ensures Table(len, rands)[Slot(len, len - 1)] == Heads(len, rands, len - 1)[len - 1]
  {
    hide Heads, Shuffled;
    HeadsUsed(len, rands, len - 1);
    ShuffledPermutation(len, rands, len - 1);
    var h, s := Heads(len, rands, len - 1), Shuffled(len, rands, len - 1);
    assert s[len - 1] < |h|;
    SameRest(h, s, len - 1, Find(h, s[len - 1]), len - 1);
  }

  lemma NoLoopVisits(len: nat, rands: nat -> nat)
    requires len > 0 && forall i :: 0 <= i < len - 1 ==> Choice(len, rands, i) != Closing(len, rands, i)
    ensures Permutation(Table(len, rands)) && VisitsAll(Table(len, rands))
  {
    hide Table, Heads, Closing, Choice, Path, Visited;
    var next := Table(len, rands);
    TablePermutation(len, rands);
    var cs := Weave(len, rands, len - 1);
    LastLink(len, rands);
    assert Covers(cs, len - 1, 0);
    forall v: nat | v < len ensures Visited(next, v) {
      assert Covers(cs, len - 1, v);
      RoundTrip(next, cs[len - 1], v);
    }
  }

  /** A set of segments that the table does not lead out of. */
  ghost predicate Closed(next: seq<nat>, c: seq<nat>) {
    c != [] && forall v :: v in c ==> v < |next| && next[v] in c
  }

  lemma {:induction false} StaysInside(next: seq<nat>, c: seq<nat>, k: nat, d: nat)
    requires Permutation(next) && next != [] && Closed(next, c) && Orbit(next, k) in c
    ensures Orbit(next, k + d) in c
  {
    if d > 0 { StaysInside(next, c, k, d - 1); }
  }

  lemma {:induction false} ShiftMany(next: seq<nat>, p: nat, i: nat, m: nat)
    requires Permutation(next) && next != [] && Orbit(next, p) == 0
    ensures Orbit(next, i + m * p) == Orbit(next, i)
  {
    hide Orbit, Permutation;
    if m > 0 {
      var at := i + (m - 1) * p;
      ShiftMany(next, p, i, m - 1);
      assert i + m * p == at + p;
      Shift(next, p, at);
    }
  }

  /** Whoever is inside once is inside always. */
  lemma AlwaysInside(next: seq<nat>, c: seq<nat>, k: nat, l: nat)
    requires Permutation(next) && next != [] && Closed(next, c) && Orbit(next, k) in c
    ensures Orbit(next, l) in c
  {
    hide Closed, Orbit, Permutation;
    var p := PeriodExists(next);
    ProductAtLeast(k, p);
    ShiftMany(next, p, l, k);
    var later: nat := l + k * p;
    StaysInside(next, c, k, later - k);
  }

  lemma ProductAtLeast(k: nat, p: nat)
    requires p > 0
    ensures k * p >= k
  {
    assert k * p == k + k * (p - 1) && k * (p - 1) >= 0;
  }

  /** The chase cannot reach segments both inside and outside such a set. */
  lemma Trapped(next: seq<nat>, c: seq<nat>, w: nat)
    requires Permutation(next) && next != [] && Closed(next, c) && w < |next| && w !in c
    ensures !VisitsAll(next)
  {
    hide Orbit;
    assert c[0] in c;
    if Visited(next, c[0]) {
      var k: nat :| VisitedAt(next, k, c[0]);
      forall l: nat ensures !VisitedAt(next, l, w) { AlwaysInside(next, c, k, l); }
      assert !Visited(next, w);
    }
  }

  lemma SlotInjective(len: nat, i: nat, j: nat)
    requires i < j < len
    ensures Slot(len, i) != Slot(len, j)
  {
  }

  /** A closed loop leaves out the entry that is filled last. */
  lemma LoopLeavesOut(next: seq<nat>, c: seq<nat>, head: nat, i: nat)
    requires i < |next| - 1 && ChainOk(next, c, head, Slot(|next|, i), i) && next[Slot(|next|, i)] == head
    ensures Closed(next, c) && Slot(|next|, |next| - 1) !in c
  {
    var n := |next|;
    forall v | v in c ensures v < n && next[v] in c && v != Slot(n, n - 1) {
      var m :| 0 <= m < |c| && c[m] == v;
      if m < |c| - 1 {
        var l :| 0 <= l < i && c[m] == Slot(n, l);
        SlotInjective(n, l, n - 1);
        assert next[v] == c[m + 1];
      } else {
        SlotInjective(n, i, n - 1);
        assert next[v] == c[0];
      }
    }
  }

  lemma {:induction false} LoopTraps(len: nat, rands: nat -> nat, i: nat)
    requires i < len - 1 && Choice(len, rands, i) == Closing(len, rands, i)
    ensures Permutation(Table(len, rands)) && !VisitsAll(Table(len, rands))
  {
    hide Table, Heads, Closing, Choice, Path, Visited, Picked, VisitsAll;
    if k :| 0 <= k < i && Choice(len, rands, k) == Closing(len, rands, k) {
      LoopTraps(len, rands, k);
    } else {
      var next := Table(len, rands);
      TablePermutation(len, rands);
      var cs := Weave(len, rands, i);
      ClosingExact(len, rands, i, Choice(len, rands, i));
      LinkMade(len, rands, i);
      LoopLeavesOut(next, cs[i], Heads(len, rands, i)[i], i);
      Trapped(next, cs[i], Slot(len, len - 1));
    }
  }

  /** The chase visits every segment if and only if no step of the shuffle but the last makes the one
      choice that closes a loop. */
  lemma VisitsAllExact(len: nat, rands: nat -> nat)
    requires len > 0
    ensures Permutation(Table(len, rands))
    ensures VisitsAll(Table(len, rands)) <==>
      forall i :: 0 <= i < len - 1 ==> Choice(len, rands, i) != Closing(len, rands, i)
  {
    hide Table, Closing, Choice, VisitsAll;
    TablePermutation(len, rands);
    if i :| 0 <= i < len - 1 && Choice(len, rands, i) == Closing(len, rands, i) {
      LoopTraps(len, rands, i);
    } else {
      NoLoopVisits(len, rands);
    }
  }

  /** For every table of at least two segments, some choices leave the chase at segment 0 for ever. */
  lemma StaysAtZero(len: nat)
    requires len >= 2
    ensures exists rands: nat -> nat :: var next := Table(len, rands); Permutation(next) && Period(next, 1)
  {
    var rands: nat -> nat := i => if i == 0 then 1 else 0;
    var next := Table(len, rands);
    TablePermutation(len, rands);
    SmallMod(1, len);
    assert Choice(len, rands, 0) == 1;
    assert Shuffled(len, rands, 1) == Swap(Shuffled(len, rands, 0), 0, 1);
    if len > 2 {
      SmallMod(0, len - 1);
      Settled(len, rands, len - 1, 1);
    }
    assert next[0] == 0;
    assert Orbit(next, 1) == next[Orbit(next, 0)];
  }

  /** And some choices make it visit everything. */
  lemma SomeVisitAll(len: nat)
    requires len > 0
    ensures exists rands: nat -> nat :: Permutation(Table(len, rands)) && VisitsAll(Table(len, rands))
  {
    var rands: nat -> nat := _ => 0;
    var next := Table(len, rands);
    TablePermutation(len, rands);
    Unshuffled(len, rands, len - 1);
    forall v: nat | v < len ensures Visited(next, v) {
      StepsUp(next, v);
      assert VisitedAt(next, v, v);
    }
    assert VisitsAll(Table(len, rands));
  }

  lemma {:induction false} Unshuffled(len: nat, rands: nat -> nat, n: nat)
    requires n <= len && forall i :: rands(i) == 0
    ensures Shuffled(len, rands, n) == seq(len, i requires 0 <= i => i)
  {
    if n > 0 {
      Unshuffled(len, rands, n - 1);
      SmallMod(0, len - (n - 1));
    }
  }

  lemma {:induction false} StepsUp(next: seq<nat>, v: nat)
    requires Permutation(next) && v < |next| && forall i :: 0 <= i < |next| - 1 ==> next[i] == i + 1
    ensures Orbit(next, v) == v
  {
    if v > 0 { StepsUp(next, v - 1); }
  }

  // ----- client requests -------------------------------------------------------------------------

  datatype ClientRequest = ClientRequest(timestampOffset: nat, packetId: u32, idPadding: u32, segmentOffsets: seq<nat>)

  /** initialize_client_requests: the offsets of all requests, one after the other, are the chase. */
  method FillRequests(next: array<nat>, numRequests: nat, numSegments: nat, cyclesOffset: nat) returns (requests: array<ClientRequest>)
    requires next.Length > 0 && Permutation(next[..]) && numSegments <= 32
    ensures fresh(requests) && requests.Length == numRequests
    ensures forall r :: 0 <= r < numRequests ==> Filled(next[..], requests[r], r, numSegments)
  {
    hide Orbit, Filled;
    requests := new ClientRequest[numRequests](_ => ClientRequest(0, 0, 0, []));
    var cur := 0;
    Start(next[..], numSegments);
    for iter := 0 to numRequests
      invariant cur == Orbit(next[..], iter * numSegments)
      invariant forall r :: 0 <= r < iter ==> Filled(next[..], requests[r], r, numSegments)
    {
      var offsets;
      offsets, cur := FillOne(next, numSegments, cur, iter * numSegments);
      requests[iter] := ClientRequest(cyclesOffset, Wrap32(iter), 0, offsets);
      NowFilled(next[..], requests[iter], iter, numSegments);
      assert (iter + 1) * numSegments == iter * numSegments + numSegments;
    }
  }

  lemma Start(next: seq<nat>, numSegments: nat)
    requires next != [] && Permutation(next)
    ensures Orbit(next, 0 * numSegments) == 0
  {
  }

  lemma NowFilled(next: seq<nat>, q: ClientRequest, r: nat, numSegments: nat)
    requires next != [] && Permutation(next) && q.packetId == Wrap32(r) && |q.segmentOffsets| == numSegments
    requires forall i :: 0 <= i < numSegments ==> q.segmentOffsets[i] == Orbit(next, r * numSegments + i)
    ensures Filled(next, q, r, numSegments)
  {
  }

  /** Request `r` holds its part of the chase. */
  ghost predicate Filled(next: seq<nat>, q: ClientRequest, r: nat, numSegments: nat)
    requires next != [] && Permutation(next)
  {
    && q.packetId == Wrap32(r) && |q.segmentOffsets| == numSegments
    && forall i :: 0 <= i < numSegments ==> q.segmentOffsets[i] == Orbit(next, r * numSegments + i)
  }

  /** The segments of one request. */
  method FillOne(next: array<nat>, numSegments: nat, start: nat, ghost at: nat) returns (offsets: seq<nat>, cur: nat)
    requires next.Length > 0 && Permutation(next[..]) && start == Orbit(next[..], at)
    ensures |offsets| == numSegments && cur == Orbit(next[..], at + numSegments)
    ensures forall i :: 0 <= i < numSegments ==> offsets[i] == Orbit(next[..], at + i)
  {
    offsets, cur := [], start;
    for i := 0 to numSegments
      invariant |offsets| == i && cur == Orbit(next[..], at + i)
      invariant forall k :: 0 <= k < i ==> offsets[k] == Orbit(next[..], at + k)
    {
      offsets := offsets + [cur];
      cur := next[cur];
    }
  }
}
