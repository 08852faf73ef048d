/** The server's books tied to the transmit ring: which mbufs the messages in the ring hold, how
    many there can be, and why allocation never fails (main.c). */
module Service {
  import opened Bits
  import opened Memory
  import opened WorkRequest
  import opened PacketBuffers
  import opened TxRing
  import opened Accounts
  import opened RefCounting
  import RxQueue
  import Pools

  const BATCH_SIZE: nat := 32

  // ----- messages in memory ----------------------------------------------------------------

  function First(c: seq<Held>): Ptr { if c == [] then NULL else c[0].p }

  /** The release function and its data fit what is on the books. */
  ghost predicate HeldOk(mode: Mode, h: Heap, x: Held) {
    && x.p in h
    && match mode
       case ZeroCopy(counting) => h[x.p].release == ZeroCopyTx && x.buf == NULL && (counting ==> h[x.p].releaseData == x.seg)
       case Copy => h[x.p].release == CopyTx && h[x.p].head == h[x.p].data == x.buf
       case Echo => h[x.p].release == RxBuf && h[x.p].head == x.p && x.buf == NULL
  }

  /** A message is a chain that ends in NULL; one received packet is never chained. */
  ghost predicate MessageOk(mode: Mode, h: Heap, c: seq<Held>) {
    && Chain(h, First(c), Ps(c))
    && (mode.Echo? ==> |c| <= 1)
    && forall i :: 0 <= i < |c| ==> HeldOk(mode, h, c[i])
  }

  ghost predicate Sound(mode: Mode, h: Heap, ms: seq<seq<Held>>) {
    forall k :: 0 <= k < |ms| ==> MessageOk(mode, h, ms[k])
  }

  /** Ready to be posted: the length of the chain is recorded in the first mbuf. */
  ghost predicate Built(mode: Mode, h: Heap, c: seq<Held>) {
    && MessageOk(mode, h, c) && 0 < |c| <= MAX_SCATTERS
    && First(c) in h && h[First(c)].nbSegs == |c|
  }

  ghost predicate AllBuilt(mode: Mode, h: Heap, ms: seq<seq<Held>>) {
    forall k :: 0 <= k < |ms| ==> Built(mode, h, ms[k])
  }

  /** The message that a chain of mbufs posts. */
  ghost function ToPost(h: Heap, inl: Inline, c: seq<Held>): Msg {
    Msg(First(c), inl, if forall p :: p in Ps(c) ==> p in h then Segs(h, Ps(c)) else [])
  }

  /** Only the block counts of mbufs changed. */
  ghost predicate BlocksOnly(h: Heap, h': Heap) {
    h'.Keys == h.Keys && forall p :: p in h ==> h'[p].(numWqes := h[p].numWqes) == h[p]
  }

  lemma ReadyInHeap(mode: Mode, h: Heap, c: seq<Held>)
    requires MessageOk(mode, h, c)
    ensures forall p :: p in Ps(c) ==> p in h
  {
    ChainMembers(h, First(c), Ps(c));
  }

  /** Heaps that agree on `c` in everything the server and the release functions look at. */
  ghost predicate Agree(h: Heap, h': Heap, c: seq<Held>) {
    forall i :: 0 <= i < |c| && c[i].p in h ==> c[i].p in h' && h'[c[i].p].(numWqes := h[c[i].p].numWqes) == h[c[i].p]
  }

  lemma MessageFrame(mode: Mode, h: Heap, h': Heap, c: seq<Held>)
    requires MessageOk(mode, h, c) && Agree(h, h', c)
    ensures MessageOk(mode, h', c)
    ensures Built(mode, h, c) ==> Built(mode, h', c)
    ensures forall p :: p in Ps(c) ==> p in h && p in h'
    ensures Segs(h, Ps(c)) == Segs(h', Ps(c))
  {
    ChainMembers(h, First(c), Ps(c));
    forall p | p in Ps(c) ensures p in h' && h'[p].(numWqes := h[p].numWqes) == h[p] {
      var i :| 0 <= i < |c| && Ps(c)[i] == p;
      assert c[i].p == p;
    }
    ChainFrame(h, h', First(c), Ps(c));
    forall i | 0 <= i < |c| ensures HeldOk(mode, h', c[i]) {
      assert HeldOk(mode, h, c[i]);
    }
  }

  // ----- the books and the ring ------------------------------------------------------------

  /** The messages on the books are those posted and not yet gathered. */
  ghost predicate Link(s: Tx, flight: seq<seq<Held>>) {
    && |flight| + |s.reclaimed| == |s.log|
    && forall k :: 0 <= k < |flight| ==> Same(s.log[|s.reclaimed| + k], flight[k])
  }

  /** The same chain; a transmit buffer is sent from where it is. */
  ghost predicate Same(m: Msg, c: seq<Held>) {
    && c != [] && First(c) == m.mbuf && |c| == |m.segs|
    && forall i :: 0 <= i < |c| ==> c[i].buf != NULL ==> m.segs[i].addr == c[i].buf
  }

  ghost predicate Good(mode: Mode, st: Stock, b: Books, s: Tx, h: Heap) {
    && st.Valid() && Balanced(mode, st, b)
    && Link(s, b.flight)
    && Sound(mode, h, b.limbo) && Sound(mode, h, b.flight)
    && (forall p :: p in b.handed ==> HandedOk(h, p, st.rxLen))
    && (forall p :: p in b.posted ==> PostedOk(h, p, st.rxLen))
  }

  /** A received packet that the server holds. */
  ghost predicate HandedOk(h: Heap, p: Ptr, len: u32) { PostedOk(h, p, len) && h[p].release == RxBuf && h[p].head == p }

  /** A receive buffer in the ring: its mbuf records its size. */
  ghost predicate PostedOk(h: Heap, p: Ptr, len: u32) { p in h && h[p].headLen == len }

  /** A message has at most four segments per block. */
  lemma SegsPerBlock(m: Msg)
    ensures |m.segs| + 2 <= 4 * m.NumWqes()
  {
  }

  /** The mbufs in the ring: at most four per occupied block. */
  lemma {:induction false} FlightSize(s: Tx, flight: seq<seq<Held>>, k: nat)
    requires |flight| + |s.reclaimed| == |s.log| && k <= |flight|
    requires forall i :: 0 <= i < |flight| ==> Same(s.log[|s.reclaimed| + i], flight[i])
    ensures |Flat(flight[..k])| <= 4 * (At(s.log, |s.reclaimed| + k) - At(s.log, |s.reclaimed|))
  {
    hide At, Blocks;
    if k > 0 {
      FlightSize(s, flight, k - 1);
      assert flight[..k] == flight[..k - 1] + [flight[k - 1]];
      FlatAppend(flight[..k - 1], [flight[k - 1]]);
      FlatOne(flight[k - 1]);
      AtNext(s.log, |s.reclaimed| + k - 1);
      SegsPerBlock(s.log[|s.reclaimed| + k - 1]);
    }
  }

  /** The ring bounds the mbufs in flight by four per block of its capacity. */
  lemma FlightBound(c: Config, s: Tx, flight: seq<seq<Held>>)
    requires Counters(c, s) && Link(s, flight)
    ensures |Flat(flight)| <= 4 * c.WqeCnt()
  {
    hide At, Total, Pow2;
    FlightSize(s, flight, |flight|);
    assert flight[..|flight|] == flight;
  }

  lemma {:induction false} FlatSize<T>(ss: seq<seq<T>>, n: nat)
    requires forall i :: 0 <= i < |ss| ==> |ss[i]| <= n
    ensures |Flat(ss)| <= n * |ss|
    decreases |ss|
  {
    if ss != [] {
      FlatSize(ss[1..], n);
      assert n * |ss| == n + n * |ss[1..]|;
    }
  }

  /** Allocation never fails: with 4 * wqe_cnt + 1024 mbufs there is a free one at every moment of
      building a batch of at most 32 messages of at most 32 segments each. */
  lemma MbufAvailable(mode: Mode, st: Stock, b: Books, c: Config, s: Tx)
    requires Balanced(mode, st, b) && !mode.Echo? && Counters(c, s) && Link(s, b.flight)
    requires b.limbo == [] && |b.build| <= BATCH_SIZE
    requires forall k :: 0 <= k < |b.build| ==> |b.build[k]| <= MAX_SCATTERS
    requires b.build != [] && |b.build[|b.build| - 1]| < MAX_SCATTERS
    requires |st.mbufs| >= 4 * c.WqeCnt() + BATCH_SIZE * MAX_SCATTERS
    ensures b.mbufFree != []
    ensures |Out(b)| < 4 * c.WqeCnt() + BATCH_SIZE * MAX_SCATTERS
    ensures mode.Copy? && |st.txs| >= 4 * c.WqeCnt() + BATCH_SIZE * MAX_SCATTERS ==> b.txFree != []
  {
    hide Balanced, Counters, Link, Pow2;
    FlightBound(c, s, b.flight);
    BuildSize(b.build);
    FreeCounts(mode, st, b);
  }

  lemma BuildSize(build: seq<seq<Held>>)
    requires build != [] && |build| <= BATCH_SIZE && |build[|build| - 1]| < MAX_SCATTERS
    requires forall k :: 0 <= k < |build| ==> |build[k]| <= MAX_SCATTERS
    ensures |Flat(build)| < BATCH_SIZE * MAX_SCATTERS
  {
    var n := |build| - 1;
    FlatSize(build[..n], MAX_SCATTERS);
    assert build == build[..n] + [build[n]];
    FlatAppend(build[..n], [build[n]]);
    FlatOne(build[n]);
  }

  /** When reference counts are kept in 16 bits and 4 * wqe_cnt + 1024 < 65535, none overflows. */
  lemma CountFits(mode: Mode, st: Stock, b: Books, c: Config, seg: nat)
    requires mode == ZeroCopy(true) && Balanced(mode, st, b) && seg < |b.refs|
    requires |Out(b)| < 4 * c.WqeCnt() + BATCH_SIZE * MAX_SCATTERS < 0xffff
    ensures 1 <= b.refs[seg] < 0xffff
  {
    hide Out, Counted;
    CountBounds(b, seg);
  }

  /** In echo mode each message occupies one block, so at most wqe_cnt received buffers are in the
      ring. */
  lemma {:induction false} EchoFlight(s: Tx, flight: seq<seq<Held>>, k: nat)
    requires |flight| + |s.reclaimed| == |s.log| && k <= |flight|
    requires forall i :: 0 <= i < |flight| ==> Same(s.log[|s.reclaimed| + i], flight[i]) && |flight[i]| <= 1
    ensures |Flat(flight[..k])| <= At(s.log, |s.reclaimed| + k) - At(s.log, |s.reclaimed|)
  {
    hide At, Blocks;
    if k > 0 {
      EchoFlight(s, flight, k - 1);
      assert flight[..k] == flight[..k - 1] + [flight[k - 1]];
      FlatAppend(flight[..k - 1], [flight[k - 1]]);
      FlatOne(flight[k - 1]);
      AtNext(s.log, |s.reclaimed| + k - 1);
    }
  }

  /** Between bursts `n` receive buffers are free exactly when the pool covers them beside those in the receive ring,
      those the server holds and, when packets are sent back, those in the transmit ring. */
  lemma RefillExact(mode: Mode, st: Stock, b: Books, n: nat)
    requires Balanced(mode, st, b) && b.limbo == [] && b.build == []
    ensures |b.rxFree| >= n <==> |st.rxs| >= |b.posted| + |b.handed| + (if mode.Echo? then |Flat(b.flight)| else 0) + n
  {
    hide Out, Balanced;
    FreeCounts(mode, st, b);
    OutFlight(b);
  }

  lemma RxFreeReal(mode: Mode, st: Stock, b: Books)
    requires st.Valid() && Balanced(mode, st, b)
    ensures NULL !in b.rxFree
  {
    hide Out, Ps, Counted;
    assert NULL in b.rxFree ==> NULL in multiset(b.rxFree);
    assert multiset(b.rxFree)[NULL] <= st.rxs[NULL];
  }

  /** When packets are sent back, at most wqe_cnt of them are in the transmit ring. */
  lemma EchoBound(c: Config, s: Tx, h: Heap, flight: seq<seq<Held>>)
    requires Counters(c, s) && Link(s, flight) && Sound(Echo, h, flight)
    ensures |Flat(flight)| <= c.WqeCnt()
  {
    hide At, Pow2, Counters, HeldOk;
    forall i | 0 <= i < |flight| ensures |flight[i]| <= 1 { assert MessageOk(Echo, h, flight[i]); }
    EchoFlight(s, flight, |flight|);
    assert flight[..|flight|] == flight;
    FlightRoom(c, s);
  }

  lemma OutFlight(b: Books)
    requires b.limbo == [] && b.build == []
    ensures Out(b) == Flat(b.flight)
  {
  }

  lemma InvCounters(c: Config, s: Tx)
    requires Inv(c, s)
    ensures Counters(c, s)
  {
  }

  lemma FlightRoom(c: Config, s: Tx)
    requires Counters(c, s)
    ensures At(s.log, |s.log|) - At(s.log, |s.reclaimed|) <= c.WqeCnt()
  {
  }

  /** Nothing in use: everything is in the pools or in the receive ring. */
  lemma StartsGood(mode: Mode, st: Stock, b: Books, s: Tx, h: Heap)
    requires st.Valid() && b.limbo == [] && b.flight == [] && b.build == [] && b.handed == multiset{}
    requires s.log == [] && s.reclaimed == []
    requires multiset(b.mbufFree) == st.mbufs && multiset(b.txFree) == st.txs
    requires multiset(b.rxFree) + multiset(b.posted) == st.rxs
    requires forall i :: 0 <= i < |b.refs| ==> b.refs[i] == 1
    requires forall p :: p in b.posted ==> PostedOk(h, p, st.rxLen)
    ensures Good(mode, st, b, s, h)
  {
    assert Out(b) == [];
    assert Ps([]) == [] && Bufs([]) == [] && SegIds([]) == [];
  }

  // ----- steps -----------------------------------------------------------------------------

  /** Where the first mbuf of message `k` stands among all. */
  lemma {:induction false} FlatFind(ss: seq<seq<Held>>, k: nat) returns (i: nat)
    requires k < |ss| && ss[k] != []
    ensures i < |Flat(ss)| && Flat(ss)[i] == ss[k][0]
    decreases |ss|
  {
    if k == 0 {
      i := 0;
    } else {
      var j := FlatFind(ss[1..], k - 1);
      i := |ss[0]| + j;
    }
  }

  /** A message that is still being built shares no mbuf with the messages in the ring. */
  lemma BuiltIsFresh(mode: Mode, st: Stock, b: Books, s: Tx, h: Heap, m: Msg)
    requires Good(mode, st, b, s, h) && b.build != [] && b.build[0] != [] && m.mbuf == First(b.build[0])
    ensures Fresh(s, m)
  {
    hide Balanced, Sound, HeldOk, Out;
    if mode.Echo? { EchoNotOut(st, b); } else { FreeNotOut(mode, st, b); }
    forall i | |s.reclaimed| <= i < |s.log| ensures s.log[i].mbuf != m.mbuf {
      var k := i - |s.reclaimed|;
      assert Same(s.log[|s.reclaimed| + k], b.flight[k]);
      var x := FlatFind(b.flight, k);
      var y := FlatFind(b.build, 0);
      OutSplit(b, x, y);
    }
  }

  lemma OutSplit(b: Books, x: nat, y: nat)
    requires x < |Flat(b.flight)| && y < |Flat(b.build)|
    ensures |Out(b)| == |Flat(b.limbo)| + |Flat(b.flight)| + |Flat(b.build)|
    ensures Out(b)[|Flat(b.limbo)| + x] == Flat(b.flight)[x]
    ensures Out(b)[|Flat(b.limbo)| + |Flat(b.flight)| + y] == Flat(b.build)[y]
  {
  }

  /** Posting the first built message. */
  lemma PostGood(mode: Mode, st: Stock, b: Books, c: Config, s: Tx, h: Heap, h': Heap, m: Msg)
    requires Good(mode, st, b, s, h) && Sized(c, s) && b.build != [] && Same(m, b.build[0])
    requires |s.reclaimed| <= |s.log| && MessageOk(mode, h, b.build[0])
    requires BlocksOnly(h, h')
    ensures Good(mode, st, PostFirst(b), Post(c, s, m), h')
  {
    hide Balanced, MessageOk, Link, Same, Post, HandedOk, PostedOk, Sound, BlocksOnly;
    PostFields(c, s, m);
    PostFirstKeeps(mode, st, b);
    forall p | p in b.handed ensures HandedOk(h', p, st.rxLen) { HandedNumWqes(h, h', p, st.rxLen); }
    forall p | p in b.posted ensures PostedOk(h', p, st.rxLen) { PostedNumWqes(h, h', p, st.rxLen); }
    SoundFrame(mode, h, h', b.limbo);
    PostSound(mode, h, h', b.flight, b.build[0]);
    LinkPost(s, Post(c, s, m), b.flight, m, b.build[0]);
  }

  lemma PostSound(mode: Mode, h: Heap, h': Heap, flight: seq<seq<Held>>, c: seq<Held>)
    requires Sound(mode, h, flight) && MessageOk(mode, h, c)
    requires BlocksOnly(h, h')
    ensures Sound(mode, h', flight + [c])
  {
    hide MessageOk;
    SoundFrame(mode, h, h', flight);
    MessageFrame(mode, h, h', c);
  }

  lemma LinkPost(s: Tx, s': Tx, flight: seq<seq<Held>>, m: Msg, c: seq<Held>)
    requires Link(s, flight) && Same(m, c) && |s.reclaimed| <= |s.log|
    requires s'.log == s.log + [m] && s'.reclaimed == s.reclaimed
    ensures Link(s', flight + [c])
  {
    hide Same;
    forall k | 0 <= k < |flight| + 1 ensures Same(s'.log[|s'.reclaimed| + k], (flight + [c])[k]) {
      if k < |flight| { assert Same(s.log[|s.reclaimed| + k], flight[k]); }
    }
  }

  lemma LinkSize(s: Tx, flight: seq<seq<Held>>)
    requires Link(s, flight)
    ensures |flight| + |s.reclaimed| == |s.log|
  {
  }

  lemma LinkDrop(s: Tx, flight: seq<seq<Held>>, g: nat)
    requires Link(s, flight) && |s.reclaimed| <= g <= |s.log|
    ensures Link(Reclaimed(s, g), flight[g - |s.reclaimed|..])
  {
    hide Same, At;
    var k := g - |s.reclaimed|;
    forall i | 0 <= i < |flight[k..]| ensures Same(Reclaimed(s, g).log[g + i], flight[k..][i]) {
      assert Same(s.log[|s.reclaimed| + (k + i)], flight[k + i]);
    }
  }

  lemma HandedNumWqes(h: Heap, h': Heap, p: Ptr, len: u32)
    requires HandedOk(h, p, len) && BlocksOnly(h, h')
    ensures HandedOk(h', p, len)
  {
  }

  lemma PostedNumWqes(h: Heap, h': Heap, p: Ptr, len: u32)
    requires PostedOk(h, p, len) && BlocksOnly(h, h')
    ensures PostedOk(h', p, len)
  {
  }

  lemma SoundFrame(mode: Mode, h: Heap, h': Heap, ms: seq<seq<Held>>)
    requires Sound(mode, h, ms)
    requires BlocksOnly(h, h')
    ensures Sound(mode, h', ms)
    ensures AllBuilt(mode, h, ms) ==> AllBuilt(mode, h', ms)
  {
    hide MessageOk, Built;
    forall k | 0 <= k < |ms| ensures MessageOk(mode, h', ms[k]) && (Built(mode, h, ms[k]) ==> Built(mode, h', ms[k])) {
      MessageFrame(mode, h, h', ms[k]);
    }
  }

  /** Gathering `k` messages. */
  lemma GatherGood(mode: Mode, st: Stock, b: Books, s: Tx, h: Heap, g: nat)
    requires Good(mode, st, b, s, h) && b.limbo == [] && |s.reclaimed| <= g <= |s.log|
    ensures Good(mode, st, GatherFirst(b, g - |s.reclaimed|), Reclaimed(s, g), h)
  {
    hide Balanced, Sound, Link, Reclaimed, HandedOk;
    LinkSize(s, b.flight);
    var k := g - |s.reclaimed|;
    GatherFirstKeeps(mode, st, b, k);
    LinkDrop(s, b.flight, g);
    SoundSlices(mode, h, b.flight, k);
    assert [] + b.flight[..k] == b.flight[..k];
  }

  lemma SoundSlices(mode: Mode, h: Heap, ms: seq<seq<Held>>, k: nat)
    requires Sound(mode, h, ms) && k <= |ms|
    ensures Sound(mode, h, ms[..k]) && Sound(mode, h, ms[k..])
  {
    hide MessageOk;
  }

  /** The pointers that are gathered are the first mbufs of the messages. */
  lemma GatheredFirsts(s: Tx, flight: seq<seq<Held>>, g: nat)
    requires Link(s, flight) && |s.reclaimed| <= g <= |s.log|
    ensures forall i :: 0 <= i < g - |s.reclaimed| ==>
      flight[i] != [] && Mbufs(s.log)[..g][|s.reclaimed| + i] == First(flight[i])
  {
    forall i | 0 <= i < g - |s.reclaimed|
      ensures flight[i] != [] && Mbufs(s.log)[..g][|s.reclaimed| + i] == First(flight[i])
    {
      assert Same(s.log[|s.reclaimed| + i], flight[i]);
    }
  }

  /** Gathering moves the oldest messages from the ring to limbo. */
  lemma GatherMoves(mode: Mode, st: Stock, b: Books, c: Config, s: Tx, h: Heap, budget: nat, mbs: seq<Ptr>)
    requires Good(mode, st, b, s, h) && Inv(c, s) && b.limbo == []
    requires Gather(c, s, budget).reclaimed == s.reclaimed + mbs
    ensures |mbs| <= |b.flight| && Good(mode, st, GatherFirst(b, |mbs|), Gather(c, s, budget), h)
    ensures forall i :: 0 <= i < |mbs| ==> b.flight[i] != [] && mbs[i] == First(b.flight[i])
  {
    hide Good, Inv, Gather, Link, First;
    GatherExact(c, s, budget);
    var g := |s.reclaimed| + |mbs|;
    GoodLink(mode, st, b, s, h);
    InvSizes(c, s);
    assert Gather(c, s, budget).reclaimed == Mbufs(s.log)[..g];
    LinkSize(s, b.flight);
    GatherGood(mode, st, b, s, h, g);
    GatheredFirsts(s, b.flight, g);
  }

  lemma GoodLink(mode: Mode, st: Stock, b: Books, s: Tx, h: Heap)
    requires Good(mode, st, b, s, h)
    ensures Link(s, b.flight)
  {
  }

  lemma InvSizes(c: Config, s: Tx)
    requires Inv(c, s)
    ensures Sized(c, s) && |s.reclaimed| <= |s.reports| <= |s.log|
  {
  }

  /** Freeing the next mbuf of the first gathered message. */
  lemma FreeGood(mode: Mode, st: Stock, b: Books, s: Tx, h: Heap)
    requires Good(mode, st, b, s, h) && b.limbo != [] && b.limbo[0] != []
    ensures var x := b.limbo[0][0];
      && HeldOk(mode, h, x) && First(b.limbo[0]) == x.p && h[x.p].next == First(b.limbo[0][1..])
      && (mode == ZeroCopy(true) ==> x.seg < |b.refs| && 2 <= b.refs[x.seg] < W16)
    ensures Good(mode, st, FreeOne(mode, b), s, h)
  {
    hide Balanced, HeldOk, MessageOk, Link, First;
    FreeOneKeeps(mode, st, b);
    var c := b.limbo[0];
    assert MessageOk(mode, h, c);
    MessageTail(mode, h, c);
    var b' := FreeOne(mode, b);
    forall k | 0 <= k < |b'.limbo| ensures MessageOk(mode, h, b'.limbo[k]) {
      if k > 0 { assert b'.limbo[k] == b.limbo[k]; }
    }
    if mode == ZeroCopy(true) { RefsBelow(st, b, c[0].seg); }
  }

  lemma MessageTail(mode: Mode, h: Heap, c: seq<Held>)
    requires MessageOk(mode, h, c) && c != []
    ensures MessageOk(mode, h, c[1..]) && HeldOk(mode, h, c[0])
    ensures First(c) == c[0].p && c[0].p in h && h[c[0].p].next == First(c[1..])
  {
    assert HeldOk(mode, h, c[0]);
    assert Ps(c)[1..] == Ps(c[1..]);
    assert Chain(h, h[c[0].p].next, Ps(c[1..]));
    if c[1..] != [] { assert Ps(c[1..])[0] == First(c[1..]); }
    forall i | 0 <= i < |c[1..]| ensures HeldOk(mode, h, c[1..][i]) { assert HeldOk(mode, h, c[i + 1]); }
  }

  lemma FirstOf(c: seq<Held>)
    requires First(c) != NULL
    ensures c != [] && First(c) == c[0].p
  {
  }

  /** A gathered message whose first pointer is NULL has been freed completely. */
  lemma FirstNull(mode: Mode, st: Stock, b: Books, s: Tx, h: Heap)
    requires Good(mode, st, b, s, h) && b.limbo != [] && First(b.limbo[0]) == NULL
    ensures b.limbo[0] == []
  {
    hide Balanced, HeldOk;
    assert MessageOk(mode, h, b.limbo[0]);
  }

  /** One step of freeing a message. */
  lemma FreeRound(mode: Mode, b: Books)
    requires b.limbo != []
    ensures b.limbo[0] == [] ==> FreeMessage(mode, b) == DropEmpty(b)
    ensures b.limbo[0] != [] ==> FreeMessage(mode, b) == FreeMessage(mode, FreeOne(mode, b))
  {
  }

  /** What one round of zero_copy_tx_completion changes. */
  lemma SegmentFreed(counting: bool, b: Books, b': Books)
    requires b.limbo != [] && b.limbo[0] != []
    requires var x := b.limbo[0][0];
      && (counting ==> x.seg < |b.refs|)
      && b' == b.(mbufFree := [x.p] + b.mbufFree, limbo := [b.limbo[0][1..]] + b.limbo[1..],
                  refs := if counting then Bump(b.refs, x.seg, -1) else b.refs)
    ensures b' == FreeOne(ZeroCopy(counting), b)
  {
    hide Bump;
  }

  /** What one round of tx_completion changes. */
  lemma PacketFreed(b: Books, b': Books)
    requires b.limbo != [] && b.limbo[0] != []
    requires var x := b.limbo[0][0];
      b' == b.(mbufFree := [x.p] + b.mbufFree, txFree := [x.buf] + b.txFree, limbo := [b.limbo[0][1..]] + b.limbo[1..])
    ensures b' == FreeOne(Copy, b)
  {
  }

  /** What rx_completion changes. */
  lemma BufferFreed(b: Books, b': Books)
    requires b.limbo != [] && b.limbo[0] != []
    requires b' == b.(rxFree := [b.limbo[0][0].p] + b.rxFree, limbo := [b.limbo[0][1..]] + b.limbo[1..])
    ensures b' == FreeOne(Echo, b)
  {
  }

  /** The received packet in an echo message is its only mbuf. */
  lemma EchoSingle(st: Stock, b: Books, s: Tx, h: Heap)
    requires Good(Echo, st, b, s, h) && b.limbo != [] && b.limbo[0] != []
    ensures |b.limbo[0]| == 1
  {
    hide Balanced, HeldOk;
    assert MessageOk(Echo, h, b.limbo[0]);
  }

  /** The release function of the first mbuf fits the mode. */
  lemma FirstRelease(mode: Mode, st: Stock, b: Books, s: Tx, h: Heap)
    requires Good(mode, st, b, s, h) && b.limbo != [] && b.limbo[0] != []
    ensures First(b.limbo[0]) in h
    ensures h[First(b.limbo[0])].release == match mode case ZeroCopy(_) => ZeroCopyTx case Copy => CopyTx case Echo => RxBuf
  {
    hide Balanced;
    assert MessageOk(mode, h, b.limbo[0]);
    assert HeldOk(mode, h, b.limbo[0][0]);
  }

  /** Freeing a message takes it out of limbo and leaves the rest in place. */
  lemma FreeMessageFields(mode: Mode, st: Stock, b: Books, s: Tx, h: Heap)
    requires Good(mode, st, b, s, h) && b.limbo != []
    ensures var b' := FreeMessage(mode, b);
            b'.limbo == b.limbo[1..] && b'.flight == b.flight && b'.build == b.build && b'.handed == b.handed
  {
    hide Balanced;
    FreeMessageKeeps(mode, st, b);
  }

  lemma FreeMessagesRound(mode: Mode, b: Books, k: nat)
    ensures k == 0 ==> FreeMessages(mode, b, k) == b
    ensures k > 0 ==> FreeMessages(mode, b, k) == FreeMessages(mode, FreeMessage(mode, b), k - 1)
  {
    hide FreeMessage;
  }

  lemma ReclaimFields(mode: Mode, st: Stock, b: Books, s: Tx, h: Heap, k: nat)
    requires Good(mode, st, b, s, h) && b.limbo == [] && k <= |b.flight|
    ensures var b' := Reclaim(mode, b, k);
      && b'.limbo == [] && b'.flight == b.flight[k..] && b'.build == b.build
      && b'.posted == b.posted && b'.handed == b.handed
  {
    hide Balanced, Reclaim;
    ReclaimKeeps(mode, st, b, k);
  }

  /** What a ready message posts. */
  lemma ReadyPosts(mode: Mode, h: Heap, inl: Inline, c: seq<Held>)
    requires Built(mode, h, c)
    ensures Chain(h, First(c), Ps(c)) && 0 < |Ps(c)| <= MAX_SCATTERS && |Ps(c)| == h[First(c)].nbSegs && (forall p :: p in Ps(c) ==> p in h)
    ensures ToPost(h, inl, c) == Msg(First(c), inl, Segs(h, Ps(c))) && Same(ToPost(h, inl, c), c)
  {
    ReadyInHeap(mode, h, c);
  }

  /** Changing block counts keeps messages ready and what they post. */
  lemma ReadyFrame(mode: Mode, h: Heap, h': Heap, inl: Inline, c: seq<Held>)
    requires Built(mode, h, c) && BlocksOnly(h, h')
    ensures Built(mode, h', c) && ToPost(h', inl, c) == ToPost(h, inl, c)
  {
    hide Chain;
    MessageFrame(mode, h, h', c);
  }

  lemma BlocksSame(h: Heap)
    ensures BlocksOnly(h, h)
  {
  }

  lemma NewBlocks(h: Heap, m: Ptr, n: nat, h': Heap)
    requires m in h && h' == h[m := h[m].(numWqes := n)]
    ensures BlocksOnly(h, h')
  {
  }

  lemma ReadyMessage(mode: Mode, h: Heap, c: seq<Held>)
    requires Built(mode, h, c)
    ensures MessageOk(mode, h, c) && c != [] && First(c) in h
  {
  }

  lemma OutNonempty(b: Books)
    requires b.limbo != [] && b.limbo[0] != []
    ensures |Out(b)| > 0
  {
  }

  lemma RefsBelow(st: Stock, b: Books, seg: nat)
    requires Balanced(ZeroCopy(true), st, b) && seg < |b.refs|
    ensures b.refs[seg] < W16
  {
    hide Out, SegIds;
  }

  /** A freed message leaves the books. */
  lemma DropGood(mode: Mode, st: Stock, b: Books, s: Tx, h: Heap)
    requires Good(mode, st, b, s, h) && b.limbo != [] && b.limbo[0] == []
    ensures Good(mode, st, DropEmpty(b), s, h)
  {
    hide Balanced, MessageOk;
    DropEmptyKeeps(mode, st, b);
  }

  // ----- building --------------------------------------------------------------------------

  /** Heaps that differ only in the mbufs `ps`. */
  ghost predicate AgreeOutside(h: Heap, h': Heap, ps: seq<Ptr>) {
    forall p :: p in h && p !in ps ==> p in h' && h'[p] == h[p]
  }

  /** Where mbuf `j` of message `k` stands among all. */
  lemma {:induction false} FlatIndex(ss: seq<seq<Held>>, k: nat, j: nat) returns (i: nat)
    requires k < |ss| && j < |ss[k]|
    ensures i < |Flat(ss)| && Flat(ss)[i] == ss[k][j]
    decreases |ss|
  {
    if k == 0 {
      i := j;
    } else {
      var x := FlatIndex(ss[1..], k - 1, j);
      i := |ss[0]| + x;
    }
  }

  /** No message of `ms` uses an mbuf of `c`. */
  ghost predicate Disjoint(ms: seq<seq<Held>>, c: seq<Held>) {
    forall k, i :: 0 <= k < |ms| && 0 <= i < |ms[k]| ==> ms[k][i].p !in Ps(c)
  }

  lemma DisjointFlat(ms: seq<seq<Held>>, c: seq<Held>)
    requires forall x :: x in Flat(ms) ==> x.p !in Ps(c)
    ensures Disjoint(ms, c)
  {
    forall k, i | 0 <= k < |ms| && 0 <= i < |ms[k]| ensures ms[k][i].p !in Ps(c) {
      var x := FlatIndex(ms, k, i);
    }
  }

  /** The message under construction shares nothing with the others, nor with the packets held. */
  lemma LastApart(mode: Mode, st: Stock, b: Books)
    requires st.Valid() && Balanced(mode, st, b) && b.build != []
    ensures var n := |b.build| - 1;
      && Disjoint(b.limbo, b.build[n]) && Disjoint(b.flight, b.build[n]) && Disjoint(b.build[..n], b.build[n])
      && (forall p :: p in b.handed ==> p !in Ps(b.build[n]))
      && forall p :: p in b.posted ==> p !in Ps(b.build[n])
  {
    hide Balanced, Disjoint, Flat;
    var n := |b.build| - 1;
    var c := b.build[n];
    var front := Flat(b.limbo) + Flat(b.flight) + Flat(b.build[..n]);
    OutLast(b);
    OutDistinct(mode, st, b);
    forall x | x in front ensures x.p !in Ps(c) {
      var i :| 0 <= i < |front| && front[i] == x;
      assert Out(b)[i] == x;
      forall j | 0 <= j < |c| ensures Ps(c)[j] != x.p {
        assert Out(b)[|front| + j] == c[j];
      }
    }
    DisjointFlat(b.limbo, c);
    DisjointFlat(b.flight, c);
    DisjointFlat(b.build[..n], c);
    forall p | p in b.handed || p in b.posted ensures p !in Ps(c) {
      forall j | 0 <= j < |c| ensures Ps(c)[j] != p {
        assert Out(b)[|front| + j] == c[j];
        assert Ps(Out(b))[|front| + j] == c[j].p;
      }
    }
  }

  lemma OutLast(b: Books)
    requires b.build != []
    ensures var n := |b.build| - 1;
            Out(b) == Flat(b.limbo) + Flat(b.flight) + Flat(b.build[..n]) + b.build[n]
  {
    var n := |b.build| - 1;
    assert b.build == b.build[..n] + [b.build[n]];
    FlatAppend(b.build[..n], [b.build[n]]);
    FlatOne(b.build[n]);
  }

  lemma OutDistinct(mode: Mode, st: Stock, b: Books)
    requires st.Valid() && Balanced(mode, st, b)
    ensures forall i, j :: 0 <= i < j < |Out(b)| ==> Out(b)[i].p != Out(b)[j].p
    ensures forall p :: p in b.handed || p in b.posted ==> p !in Ps(Out(b))
  {
    hide Out, Flat, Counted;
    forall p | p in b.posted ensures p !in Ps(Out(b)) { PostedNotOut(mode, st, b, p); }
    if mode.Echo? {
      EchoNotOut(st, b);
    } else {
      FreeNotOut(mode, st, b);
      forall p | p in b.handed ensures p !in Ps(Out(b)) {
        assert p in multiset(b.rxFree) + multiset(b.posted) + b.handed;
        assert p in Ps(Out(b)) ==> p in multiset(Ps(Out(b)));
        assert p in Ps(Out(b)) ==> p in multiset(b.mbufFree) + multiset(Ps(Out(b)));
      }
    }
  }

  /** A posted receive buffer is neither in a message nor held. */
  lemma PostedNotOut(mode: Mode, st: Stock, b: Books, p: Ptr)
    requires st.Valid() && Balanced(mode, st, b) && p in b.posted
    ensures p !in Ps(Out(b)) && p !in b.handed
  {
    hide Out, Balanced;
    assert p in multiset(b.posted);
    RxOnce(mode, st, b, p);
    assert p in Ps(Out(b)) ==> p in multiset(Ps(Out(b)));
  }

  /** Writing to the message under construction leaves everything else as it was. */
  lemma OthersKept(mode: Mode, st: Stock, b: Books, s: Tx, h: Heap, h': Heap)
    requires Good(mode, st, b, s, h) && b.build != []
    requires AgreeOutside(h, h', Ps(b.build[|b.build| - 1]))
    requires AllBuilt(mode, h, b.build[..|b.build| - 1])
    ensures Good(mode, st, b, s, h') && AllBuilt(mode, h', b.build[..|b.build| - 1])
    ensures forall k :: 0 <= k < |b.build| - 1 ==>
      (forall p :: p in Ps(b.build[k]) ==> p in h && p in h') && Segs(h', Ps(b.build[k])) == Segs(h, Ps(b.build[k]))
    ensures forall i :: |s.reclaimed| <= i < |s.log| ==>
      s.log[i].mbuf in h && s.log[i].mbuf in h' && h'[s.log[i].mbuf] == h[s.log[i].mbuf]
  {
    hide Balanced, MessageOk, Built, HandedOk, PostedOk, AgreeOutside;
    var n := |b.build| - 1;
    var c := b.build[n];
    LastApart(mode, st, b);
    forall p | p in b.handed ensures HandedOk(h', p, st.rxLen) { HandedFrame(h, h', Ps(c), p, st.rxLen); }
    forall p | p in b.posted ensures PostedOk(h', p, st.rxLen) { PostedFrame(h, h', Ps(c), p, st.rxLen); }
    SoundApart(mode, h, h', b.limbo, c);
    SoundApart(mode, h, h', b.flight, c);
    ReadyApart(mode, h, h', b.build[..n], c);
    forall k | 0 <= k < n
      ensures (forall p :: p in Ps(b.build[k]) ==> p in h && p in h') && Segs(h', Ps(b.build[k])) == Segs(h, Ps(b.build[k]))
    {
      assert Built(mode, h, b.build[..n][k]);
      ReadyOk(mode, h, b.build[k]);
      ApartAgree(h, h', b.build[..n], k, c);
      MessageFrame(mode, h, h', b.build[k]);
    }
    FlightKept(mode, b, s, h, h', c);
  }

  lemma HandedFrame(h: Heap, h': Heap, ps: seq<Ptr>, p: Ptr, len: u32)
    requires HandedOk(h, p, len) && AgreeOutside(h, h', ps) && p !in ps
    ensures HandedOk(h', p, len)
  {
  }

  lemma PostedFrame(h: Heap, h': Heap, ps: seq<Ptr>, p: Ptr, len: u32)
    requires PostedOk(h, p, len) && AgreeOutside(h, h', ps) && p !in ps
    ensures PostedOk(h', p, len)
  {
  }

  lemma ReadyOk(mode: Mode, h: Heap, c: seq<Held>)
    requires Built(mode, h, c)
    ensures MessageOk(mode, h, c)
  {
  }

  lemma ApartAgree(h: Heap, h': Heap, ms: seq<seq<Held>>, k: nat, c: seq<Held>)
    requires k < |ms| && Disjoint(ms, c) && AgreeOutside(h, h', Ps(c))
    ensures Agree(h, h', ms[k])
  {
  }

  lemma SoundApart(mode: Mode, h: Heap, h': Heap, ms: seq<seq<Held>>, c: seq<Held>)
    requires Sound(mode, h, ms) && Disjoint(ms, c) && AgreeOutside(h, h', Ps(c))
    ensures Sound(mode, h', ms)
  {
    hide MessageOk, Disjoint;
    forall k | 0 <= k < |ms| ensures MessageOk(mode, h', ms[k]) {
      ApartAgree(h, h', ms, k, c);
      MessageFrame(mode, h, h', ms[k]);
    }
  }

  lemma ReadyApart(mode: Mode, h: Heap, h': Heap, ms: seq<seq<Held>>, c: seq<Held>)
    requires AllBuilt(mode, h, ms) && Disjoint(ms, c) && AgreeOutside(h, h', Ps(c))
    ensures AllBuilt(mode, h', ms)
  {
    hide Disjoint, MessageOk;
    forall k | 0 <= k < |ms| ensures Built(mode, h', ms[k]) {
      assert Built(mode, h, ms[k]);
      ApartAgree(h, h', ms, k, c);
      MessageFrame(mode, h, h', ms[k]);
    }
  }

  lemma FlightKept(mode: Mode, b: Books, s: Tx, h: Heap, h': Heap, c: seq<Held>)
    requires Link(s, b.flight) && Sound(mode, h, b.flight) && Disjoint(b.flight, c) && AgreeOutside(h, h', Ps(c))
    ensures forall i :: |s.reclaimed| <= i < |s.log| ==>
      s.log[i].mbuf in h && s.log[i].mbuf in h' && h'[s.log[i].mbuf] == h[s.log[i].mbuf]
  {
    forall i | |s.reclaimed| <= i < |s.log|
      ensures s.log[i].mbuf in h && s.log[i].mbuf in h' && h'[s.log[i].mbuf] == h[s.log[i].mbuf]
    {
      var k := i - |s.reclaimed|;
      assert Same(s.log[|s.reclaimed| + k], b.flight[k]);
      assert MessageOk(mode, h, b.flight[k]);
      assert HeldOk(mode, h, b.flight[k][0]);
    }
  }

  /** The mbuf after number `i`. */
  function After(c: seq<Held>, i: nat): Ptr { if i + 1 < |c| then c[i + 1].p else NULL }

  ghost predicate Linked(h: Heap, c: seq<Held>, i: nat)
    requires i < |c|
  {
    c[i].p in h && c[i].p != NULL && h[c[i].p].next == After(c, i)
  }

  /** Following recorded `next` pointers gives a chain. */
  lemma {:induction false} ChainOfLinks(h: Heap, c: seq<Held>)
    requires forall i :: 0 <= i < |c| ==> Linked(h, c, i)
    ensures Chain(h, First(c), Ps(c))
    decreases |c|
  {
    if c != [] {
      var d := c[1..];
      assert Ps(c)[1..] == Ps(d);
      forall i | 0 <= i < |d| ensures Linked(h, d, i) {
        assert Linked(h, c, i + 1);
      }
      ChainOfLinks(h, d);
      assert Linked(h, c, 0);
    }
  }

  // ----- receiving -------------------------------------------------------------------------

  /** Handing up received packets and posting fresh buffers. */
  lemma ReceiveGood(mode: Mode, st: Stock, b: Books, s: Tx, h: Heap, h': Heap, n: nat)
    requires Good(mode, st, b, s, h) && b.limbo == [] && n <= |b.posted| && n <= |b.rxFree|
    requires RxQueue.HeapAfter(h, h', b.posted[..n], b.rxFree[..n], st.rxLen)
    ensures Good(mode, st, HandUp(b, n), s, h')
    ensures forall i :: |s.reclaimed| <= i < |s.log| ==>
      s.log[i].mbuf in h && s.log[i].mbuf in h' && h'[s.log[i].mbuf] == h[s.log[i].mbuf]
  {
    hide Balanced, Link, HandedOk, PostedOk, MessageOk, RxQueue.HeapAfter;
    HandUpKeeps(mode, st, b, n);
    FlightApart(mode, st, b, n);
    ReceivedSound(mode, st, b, h, h', n);
    ReceivedHanded(mode, st, b, h, h', n);
    ReceivedPosted(mode, st, b, s, h, h', n);
    ReceivedMbufs(mode, st, b, s, h, h', n);
  }

  /** No mbuf of a message in the ring is handed up or posted. */
  ghost predicate Elsewhere(b: Books, n: nat)
    requires n <= |b.posted| && n <= |b.rxFree|
  {
    forall k, i :: 0 <= k < |b.flight| && 0 <= i < |b.flight[k]| ==>
      b.flight[k][i].p !in b.posted[..n] && b.flight[k][i].p !in b.rxFree[..n]
  }

  lemma FlightApart(mode: Mode, st: Stock, b: Books, n: nat)
    requires st.Valid() && Balanced(mode, st, b) && b.limbo == [] && n <= |b.posted| && n <= |b.rxFree|
    ensures Elsewhere(b, n)
  {
    hide Balanced;
    ReceivedApart(mode, st, b, n);
    forall k, i | 0 <= k < |b.flight| && 0 <= i < |b.flight[k]|
      ensures b.flight[k][i].p !in b.posted[..n] && b.flight[k][i].p !in b.rxFree[..n]
    {
      var x := FlatIndex(b.flight, k, i);
      InOut(b, x);
    }
  }

  lemma ReceivedSound(mode: Mode, st: Stock, b: Books, h: Heap, h': Heap, n: nat)
    requires n <= |b.posted| && n <= |b.rxFree| && Elsewhere(b, n) && Sound(mode, h, b.flight)
    requires RxQueue.HeapAfter(h, h', b.posted[..n], b.rxFree[..n], st.rxLen)
    ensures Sound(mode, h', b.flight)
  {
    hide MessageOk;
    forall k | 0 <= k < |b.flight| ensures MessageOk(mode, h', b.flight[k]) {
      MessageFrame(mode, h, h', b.flight[k]);
    }
  }

  lemma ReceivedHanded(mode: Mode, st: Stock, b: Books, h: Heap, h': Heap, n: nat)
    requires st.Valid() && Balanced(mode, st, b) && n <= |b.posted| && n <= |b.rxFree|
    requires RxQueue.HeapAfter(h, h', b.posted[..n], b.rxFree[..n], st.rxLen)
    requires forall p :: p in b.handed ==> HandedOk(h, p, st.rxLen)
    requires forall p :: p in b.posted ==> PostedOk(h, p, st.rxLen)
    ensures forall p :: p in HandUp(b, n).handed ==> HandedOk(h', p, st.rxLen)
  {
    hide Balanced;
    ReceivedApart(mode, st, b, n);
    forall p | p in HandUp(b, n).handed ensures HandedOk(h', p, st.rxLen) {
      if p in b.handed {
        assert HandedOk(h, p, st.rxLen);
      } else {
        assert p in b.posted[..n];
        assert PostedOk(h, p, st.rxLen);
      }
    }
  }

  /** What is posted afterwards was posted before, or is a fresh buffer with its size recorded. */
  lemma ReceivedPosted(mode: Mode, st: Stock, b: Books, s: Tx, h: Heap, h': Heap, n: nat)
    requires Good(mode, st, b, s, h) && n <= |b.posted| && n <= |b.rxFree|
    requires RxQueue.HeapAfter(h, h', b.posted[..n], b.rxFree[..n], st.rxLen)
    ensures forall p :: p in HandUp(b, n).posted ==> PostedOk(h', p, st.rxLen)
  {
    hide Balanced, Link, Sound, HandedOk;
    PostedOnce(mode, st, b, s, h);
    forall p | p in HandUp(b, n).posted ensures PostedOk(h', p, st.rxLen) {
      if p !in b.rxFree[..n] {
        var i :| n <= i < |b.posted| && b.posted[i] == p;
        assert PostedOk(h, p, st.rxLen);
        assert p !in b.posted[..n];
      }
    }
  }

  lemma ReceivedMbufs(mode: Mode, st: Stock, b: Books, s: Tx, h: Heap, h': Heap, n: nat)
    requires n <= |b.posted| && n <= |b.rxFree| && Elsewhere(b, n) && Sound(mode, h, b.flight) && Link(s, b.flight)
    requires RxQueue.HeapAfter(h, h', b.posted[..n], b.rxFree[..n], st.rxLen)
    ensures forall i :: |s.reclaimed| <= i < |s.log| ==>
      s.log[i].mbuf in h && s.log[i].mbuf in h' && h'[s.log[i].mbuf] == h[s.log[i].mbuf]
  {
    hide Link, Sound;
    forall i | |s.reclaimed| <= i < |s.log|
      ensures s.log[i].mbuf in h && s.log[i].mbuf in h' && h'[s.log[i].mbuf] == h[s.log[i].mbuf]
    {
      FlightMbuf(mode, b, s, h, i);
      assert b.flight[i - |s.reclaimed|][0].p == s.log[i].mbuf;
    }
  }

  lemma FlightMbuf(mode: Mode, b: Books, s: Tx, h: Heap, i: nat)
    requires Link(s, b.flight) && Sound(mode, h, b.flight) && |s.reclaimed| <= i < |s.log|
    ensures var k := i - |s.reclaimed|;
      k < |b.flight| && b.flight[k] != [] && b.flight[k][0].p == s.log[i].mbuf && s.log[i].mbuf in h
  {
    var k := i - |s.reclaimed|;
    assert Same(s.log[|s.reclaimed| + k], b.flight[k]);
    assert MessageOk(mode, h, b.flight[k]);
    assert HeldOk(mode, h, b.flight[k][0]);
  }

  lemma InOut(b: Books, x: nat)
    requires b.limbo == [] && x < |Flat(b.flight)|
    ensures x < |Out(b)| && Out(b)[x] == Flat(b.flight)[x] && Flat(b.flight)[x].p in Ps(Out(b))
  {
    assert Ps(Out(b))[x] == Out(b)[x].p;
  }

  /** Posted and free receive buffers are neither in a message nor held. */
  lemma ReceivedApart(mode: Mode, st: Stock, b: Books, n: nat)
    requires st.Valid() && Balanced(mode, st, b) && n <= |b.posted| && n <= |b.rxFree|
    ensures forall p :: p in b.posted[..n] || p in b.rxFree[..n] ==> p !in Ps(Out(b)) && p !in b.handed
  {
    hide Out, Flat, Counted, Ps;
    var o := multiset(Ps(Out(b)));
    forall p | p in b.posted[..n] || p in b.rxFree[..n] ensures p !in Ps(Out(b)) && p !in b.handed {
      assert p in multiset(b.posted) || p in multiset(b.rxFree);
      RxOnce(mode, st, b, p);
      assert p in Ps(Out(b)) ==> p in o;
    }
  }

  lemma RxOnce(mode: Mode, st: Stock, b: Books, p: Ptr)
    requires st.Valid() && Balanced(mode, st, b) && (p in multiset(b.posted) || p in multiset(b.rxFree))
    ensures p !in b.handed && p !in multiset(Ps(Out(b)))
  {
    hide Out, Flat, Counted, Ps;
    var o := multiset(Ps(Out(b)));
    var rx := multiset(b.rxFree) + multiset(b.posted) + b.handed;
    assert rx[p] == multiset(b.rxFree)[p] + multiset(b.posted)[p] + b.handed[p];
    if mode.Echo? {
      assert st.rxs[p] == rx[p] + o[p];
    } else {
      var free := multiset(b.mbufFree);
      assert p in st.rxs && (p in o ==> p in free + o);
    }
  }

  // ----- slices ----------------------------------------------------------------------------

  lemma TakeNext<T>(s: seq<T>, i: nat)
    requires i < |s|
    ensures s[..i + 1] == s[..i] + [s[i]] && s[..0] == []
  {
  }

  lemma TakeAll<T>(s: seq<T>)
    ensures s[..|s|] == s
  {
  }

  lemma DropNext<T>(s: seq<T>, i: nat)
    requires i < |s|
    ensures s[i..][1..] == s[i + 1..] && s[i..][0..] == s[i..] && s[i..][0] == s[i]
  {
  }

  lemma SliceNext<T>(s: seq<T>, a: nat, i: nat)
    requires a <= i < |s|
    ensures s[a..i + 1] == s[a..i] + [s[i]]
  {
  }

  lemma SliceJoin<T>(s: seq<T>, a: nat, b: nat)
    requires a <= b <= |s|
    ensures s[..b] == s[..a] + s[a..b]
  {
  }

  // ----- sending a batch -------------------------------------------------------------------

  /** What the device does concerns no message on the books. */
  lemma GoodDevice(mode: Mode, st: Stock, b: Books, s: Tx, s': Tx, h: Heap)
    requires Good(mode, st, b, s, h) && s'.log == s.log && s'.reclaimed == s.reclaimed
    ensures Good(mode, st, b, s', h)
  {
    hide Balanced, Sound;
    forall k | 0 <= k < |b.flight| ensures Same(s'.log[|s'.reclaimed| + k], b.flight[k]) {
      assert Same(s.log[|s.reclaimed| + k], b.flight[k]);
    }
  }

  /** Built messages waiting to be sent: first mbufs, headers to inline, and what they will post. */
  ghost predicate Queued(mode: Mode, c: Config, h: Heap, build: seq<seq<Held>>, firsts: seq<Ptr>, inls: seq<Inline>, msgs: seq<Msg>) {
    && |build| == |firsts| == |inls| == |msgs|
    && forall i :: 0 <= i < |build| ==> Waiting(mode, c, h, build[i], firsts[i], inls[i], msgs[i])
  }

  ghost predicate Waiting(mode: Mode, c: Config, h: Heap, m: seq<Held>, first: Ptr, inl: Inline, msg: Msg) {
    && Built(mode, h, m) && first == First(m) && inl.Valid()
    && msg == ToPost(h, inl, m) && msg.NumWqes() <= c.WqeCnt()
  }

  lemma QueuedNext(mode: Mode, c: Config, h: Heap, h': Heap, build: seq<seq<Held>>, firsts: seq<Ptr>, inls: seq<Inline>, msgs: seq<Msg>, n: nat)
    requires Queued(mode, c, h, build, firsts, inls, msgs) && BlocksOnly(h, h') && n <= |build|
    ensures Queued(mode, c, h', build[n..], firsts[n..], inls[n..], msgs[n..])
  {
    hide Built, ToPost, BlocksOnly, Blocks;
    forall i | 0 <= i < |build| - n
      ensures Waiting(mode, c, h', build[n..][i], firsts[n..][i], inls[n..][i], msgs[n..][i])
    {
      assert Waiting(mode, c, h, build[n + i], firsts[n + i], inls[n + i], msgs[n + i]);
      ReadyFrame(mode, h, h', inls[n + i], build[n + i]);
    }
  }

  lemma QueuedHead(mode: Mode, c: Config, h: Heap, build: seq<seq<Held>>, firsts: seq<Ptr>, inls: seq<Inline>, msgs: seq<Msg>)
    requires Queued(mode, c, h, build, firsts, inls, msgs) && build != []
    ensures Waiting(mode, c, h, build[0], firsts[0], inls[0], msgs[0])
  {
  }

  lemma QueuedSizes(mode: Mode, c: Config, h: Heap, build: seq<seq<Held>>, firsts: seq<Ptr>, inls: seq<Inline>, msgs: seq<Msg>)
    requires Queued(mode, c, h, build, firsts, inls, msgs)
    ensures |build| == |firsts| == |inls| == |msgs|
    ensures build[0..] == build && firsts[0..] == firsts && inls[0..] == inls && msgs[0..] == msgs
  {
  }

  /** The same messages posted, and none completed or reclaimed is lost. */
  ghost predicate Progress(s: Tx, s': Tx) {
    s'.log == s.log && |s'.reports| + |s'.reclaimed| >= |s.reports| + |s.reclaimed|
  }

  lemma ProgressSame(s: Tx)
    ensures Progress(s, s)
  {
  }

  ghost predicate Moved(s: Tx, s': Tx) { |s'.reports| + |s'.reclaimed| > |s.reports| + |s.reclaimed| }

  lemma ProgressBy(s0: Tx, s1: Tx, s2: Tx)
    requires s1.log == s0.log && s1.reclaimed == s0.reclaimed && |s1.reports| >= |s0.reports|
    requires s2.log == s1.log && s2.reports == s1.reports && |s2.reclaimed| >= |s1.reclaimed|
    ensures Progress(s0, s2)
    ensures |s1.reports| > |s0.reports| || |s2.reclaimed| > |s1.reclaimed| ==> Moved(s0, s2)
  {
  }

  /** Completions and reclamations still to come. */
  ghost function Backlog(s: Tx): int { 2 * |s.log| - |s.reports| - |s.reclaimed| }

  lemma Measure(c: Config, s: Tx, s': Tx)
    requires Inv(c, s) && Inv(c, s') && Progress(s, s')
    ensures Backlog(s') >= 0 && Backlog(s') <= Backlog(s)
    ensures Moved(s, s') ==> Backlog(s') < Backlog(s)
  {
  }

  /** What one attempt to send does to the log, and that a refused one makes progress. */
  lemma AttemptExact(mode: Mode, st: Stock, b: Books, c: Config, s: Tx, h: Heap, m: seq<Held>, first: Ptr, inl: Inline, msg: Msg)
    requires Good(mode, st, b, s, h) && Inv(c, s) && b.build != [] && b.build[0] == m
    requires Waiting(mode, c, h, m, first, inl, msg)
    ensures var s' := Transmit(c, s, msg);
      && s'.log == (if Sends(c, s, msg) then s.log + [msg] else s.log)
      && s'.reports == s.reports && |s.reclaimed| <= |s'.reclaimed|
      && (Sends(c, s, msg) || HasWork(c, s) || |s'.reclaimed| > |s.reclaimed|)
  {
    hide Good, Inv, Built, ToPost, Transmit, Sends, HasWork, First, Blocks;
    InvSizes(c, s);
    ReadyPosts(mode, h, inl, m);
    ReadyMessage(mode, h, m);
    BuiltIsFresh(mode, st, b, s, h, msg);
    TransmitExact(c, s, msg);
    if !Sends(c, s, msg) && !HasWork(c, s) { RefusedReclaims(c, s, msg); }
  }

  // ----- building a message ----------------------------------------------------------------

  /** Queued messages are untouched by writes to another message. */
  lemma QueuedApart(mode: Mode, cf: Config, h: Heap, h': Heap, ms: seq<seq<Held>>, c: seq<Held>,
                    firsts: seq<Ptr>, inls: seq<Inline>, msgs: seq<Msg>)
    requires Queued(mode, cf, h, ms, firsts, inls, msgs) && Disjoint(ms, c) && AgreeOutside(h, h', Ps(c))
    ensures Queued(mode, cf, h', ms, firsts, inls, msgs)
  {
    hide Built, Disjoint, AgreeOutside, Blocks;
    forall k | 0 <= k < |ms| ensures Waiting(mode, cf, h', ms[k], firsts[k], inls[k], msgs[k]) {
      assert Waiting(mode, cf, h, ms[k], firsts[k], inls[k], msgs[k]);
      ApartAgree(h, h', ms, k, c);
      ReadyMessage(mode, h, ms[k]);
      MessageFrame(mode, h, h', ms[k]);
    }
  }

  lemma QueuedBuilt(mode: Mode, cf: Config, h: Heap, ms: seq<seq<Held>>, firsts: seq<Ptr>, inls: seq<Inline>, msgs: seq<Msg>)
    requires Queued(mode, cf, h, ms, firsts, inls, msgs)
    ensures AllBuilt(mode, h, ms)
    ensures forall k :: 0 <= k < |ms| ==> |ms[k]| <= MAX_SCATTERS
  {
    hide Chain, HeldOk;
    forall k | 0 <= k < |ms| ensures Built(mode, h, ms[k]) {
      assert Waiting(mode, cf, h, ms[k], firsts[k], inls[k], msgs[k]);
    }
  }

  /** Writing to the message under construction keeps the books, the ring and the queue. */
  lemma BuildingKeeps(mode: Mode, st: Stock, b: Books, cf: Config, s: Tx, h: Heap, h': Heap,
                      firsts: seq<Ptr>, inls: seq<Inline>, msgs: seq<Msg>)
    requires Good(mode, st, b, s, h) && Inv(cf, s) && b.build != [] && s.numWqes == BlockCounts(h)
    requires AgreeOutside(h, h', Ps(b.build[|b.build| - 1]))
    requires Queued(mode, cf, h, b.build[..|b.build| - 1], firsts, inls, msgs)
    ensures var s' := s.(numWqes := BlockCounts(h')); Good(mode, st, b, s', h') && Inv(cf, s')
    ensures Queued(mode, cf, h', b.build[..|b.build| - 1], firsts, inls, msgs)
  {
    hide Inv, Queued, Disjoint, AgreeOutside, Good, BlockCounts, AllBuilt;
    var n := |b.build| - 1;
    QueuedBuilt(mode, cf, h, b.build[..n], firsts, inls, msgs);
    OthersKept(mode, st, b, s, h, h');
    ApartOfGood(mode, st, b, s, h);
    QueuedApart(mode, cf, h, h', b.build[..n], b.build[n], firsts, inls, msgs);
    NumWqesKept(cf, s, h, h');
    GoodDevice(mode, st, b, s, s.(numWqes := BlockCounts(h')), h');
  }

  lemma ApartOfGood(mode: Mode, st: Stock, b: Books, s: Tx, h: Heap)
    requires Good(mode, st, b, s, h) && b.build != []
    ensures Disjoint(b.build[..|b.build| - 1], b.build[|b.build| - 1])
  {
    hide Balanced, Disjoint;
    LastApart(mode, st, b);
  }

  lemma NumWqesKept(cf: Config, s: Tx, h: Heap, h': Heap)
    requires Inv(cf, s) && s.numWqes == BlockCounts(h)
    requires forall i :: |s.reclaimed| <= i < |s.log| ==>
      s.log[i].mbuf in h && s.log[i].mbuf in h' && h'[s.log[i].mbuf] == h[s.log[i].mbuf]
    ensures Inv(cf, s.(numWqes := BlockCounts(h')))
  {
    hide Inv;
    NumWqesFrame(cf, s, BlockCounts(h'));
  }

  /** The mbufs of a message under construction, linked so far; `prev` is the last one. */
  ghost predicate Partial(mode: Mode, h: Heap, c: seq<Held>, prev: Ptr) {
    && prev == (if c == [] then NULL else c[|c| - 1].p)
    && (forall i :: 0 <= i < |c| ==> HeldOk(mode, h, c[i]) && c[i].p != NULL)
    && (forall i :: 0 <= i < |c| - 1 ==> h[c[i].p].next == After(c, i))
    && (forall i, j :: 0 <= i < j < |c| ==> c[i].p != c[j].p)
  }

  /** The data segments described so far. */
  ghost predicate Describes(h: Heap, c: seq<Held>, segs: seq<Seg>) {
    && |c| == |segs|
    && forall i :: 0 <= i < |c| ==> c[i].p in h && Seg(h[c[i].p].len, h[c[i].p].lkey, h[c[i].p].data) == segs[i]
  }

  /** Linking a new mbuf behind `prev`. */
  lemma LinkMbuf(mode: Mode, h: Heap, h': Heap, c: seq<Held>, prev: Ptr, x: Held, segs: seq<Seg>, seg: Seg)
    requires Partial(mode, h, c, prev) && Describes(h, c, segs)
    requires x.p != NULL && x.p !in Ps(c)
    requires x.p in h' && HeldOk(mode, h', x) && Seg(h'[x.p].len, h'[x.p].lkey, h'[x.p].data) == seg
    requires forall p :: p in h && p != x.p && (prev == NULL || p != prev) ==> p in h' && h'[p] == h[p]
    requires prev != NULL ==> prev in h && prev in h' && h'[prev] == h[prev].(next := x.p)
    ensures Partial(mode, h', c + [x], x.p) && Describes(h', c + [x], segs + [seg])
    ensures AgreeOutside(h, h', Ps(c + [x]))
  {
    var d := c + [x];
    assert forall i :: 0 <= i < |c| ==> Ps(c)[i] == c[i].p;
    assert Ps(d) == Ps(c) + [x.p];
    if c != [] { assert Ps(c)[|c| - 1] == prev; }
    forall i | 0 <= i < |d| - 1 ensures h'[d[i].p].next == After(d, i) {
      if i < |c| - 1 { assert h[c[i].p].next == After(c, i); }
    }
  }

  /** The finishing touches: length of the chain in the first mbuf, NULL in the last. */
  lemma FinishMessage(mode: Mode, h: Heap, h': Heap, c: seq<Held>, prev: Ptr, segs: seq<Seg>, inl: Inline, pktLen: u32)
    requires Partial(mode, h, c, prev) && Describes(h, c, segs) && 0 < |c| <= MAX_SCATTERS && (mode.Echo? ==> |c| == 1)
    requires c[0].p in h && prev in h && h' == Finished(h, c[0].p, prev, |c|, pktLen)
    ensures Built(mode, h', c) && ToPost(h', inl, c) == Msg(First(c), inl, segs)
    ensures AgreeOutside(h, h', Ps(c))
  {
    hide Chain, Ps, Segs, HeldOk;
    PsAt(c);
    FinishedMbufs(mode, h, h', c, prev, segs, pktLen);
    ChainOfLinks(h', c);
    ChainMembers(h', First(c), Ps(c));
    FinishedSegs(h, h', c, prev, segs, pktLen);
  }

  lemma PsAt(c: seq<Held>)
    ensures forall i :: 0 <= i < |c| ==> Ps(c)[i] == c[i].p && c[i].p in Ps(c)
  {
    forall i | 0 <= i < |c| ensures Ps(c)[i] == c[i].p && c[i].p in Ps(c) {
      assert Ps(c)[i] == c[i].p;
    }
  }

  lemma FinishedMbufs(mode: Mode, h: Heap, h': Heap, c: seq<Held>, prev: Ptr, segs: seq<Seg>, pktLen: u32)
    requires Partial(mode, h, c, prev) && Describes(h, c, segs) && 0 < |c| <= MAX_SCATTERS
    requires c[0].p in h && prev in h && h' == Finished(h, c[0].p, prev, |c|, pktLen)
    ensures forall i :: 0 <= i < |c| ==> Linked(h', c, i) && HeldOk(mode, h', c[i])
  {
    forall i | 0 <= i < |c| ensures Linked(h', c, i) && HeldOk(mode, h', c[i]) {
      assert HeldOk(mode, h, c[i]);
      if i < |c| - 1 { assert h[c[i].p].next == After(c, i); }
    }
  }

  lemma FinishedSegs(h: Heap, h': Heap, c: seq<Held>, prev: Ptr, segs: seq<Seg>, pktLen: u32)
    requires Describes(h, c, segs) && c != [] && |c| < W32
    requires c[0].p in h && prev in h && h' == Finished(h, c[0].p, prev, |c|, pktLen)
    requires forall p :: p in Ps(c) ==> p in h'
    ensures Segs(h', Ps(c)) == segs
  {
    var s := Segs(h', Ps(c));
    forall i | 0 <= i < |c| ensures s[i] == segs[i] {
      assert Ps(c)[i] == c[i].p;
    }
  }

  /** Opening a message changes nothing that is in use. */
  lemma BeginGood(mode: Mode, st: Stock, b: Books, s: Tx, h: Heap)
    requires Good(mode, st, b, s, h)
    ensures Good(mode, st, Begin(b), s, h)
  {
    hide Balanced, Link, Sound, HandedOk;
    BeginKeeps(mode, st, b);
  }

  /** The record of an mbuf that refers to one segment. */
  function SegmentMbuf(m: Mbuf, counting: bool, seg: nat, addr: Ptr, size: u32, lkey: u32): Mbuf {
    var m' := m.(lkey := lkey, release := ZeroCopyTx, releaseData := if counting then seg else m.releaseData);
    Initialized(m', addr, size, 0).(len := size)
  }

  /** Memory after linking mbuf `p` behind `prev`. */
  function Linking(h: Heap, prev: Ptr, p: Ptr): Heap {
    if prev != NULL && prev in h then h[prev := h[prev].(next := p)] else h
  }

  /** Memory after filling mbuf `p` behind `prev`. */
  function WithSegment(h: Heap, prev: Ptr, p: Ptr, counting: bool, seg: nat, addr: Ptr, size: u32, lkey: u32): Heap {
    var h1 := Linking(h, prev, p);
    h1[p := SegmentMbuf(MbufAt(h1, p), counting, seg, addr, size, lkey)]
  }

  /** The books when an mbuf has been taken but is not yet in the message. */
  function SegmentTaken(counting: bool, b: Books, seg: nat): Books
    requires b.mbufFree != [] && (counting ==> seg < |b.refs|)
  {
    b.(mbufFree := b.mbufFree[1..], refs := if counting then Bump(b.refs, seg, 1) else b.refs)
  }

  /** A new segment of a zero-copy answer. */
  lemma SegmentGood(mode: Mode, st: Stock, b: Books, cf: Config, s: Tx, h: Heap, firsts: seq<Ptr>, inls: seq<Inline>, msgs: seq<Msg>,
                    prev: Ptr, seg: nat, segs: seq<Seg>, addr: Ptr, size: u32, lkey: u32, h': Heap)
    requires Good(mode, st, b, s, h) && Inv(cf, s) && s.numWqes == BlockCounts(h) && mode.ZeroCopy?
    requires b.build != [] && b.mbufFree != []
    requires mode.counting ==> seg < |b.refs| && b.refs[seg] < 0xffff
    requires Queued(mode, cf, h, b.build[..|b.build| - 1], firsts, inls, msgs)
    requires Partial(mode, h, b.build[|b.build| - 1], prev) && Describes(h, b.build[|b.build| - 1], segs)
    requires h' == WithSegment(h, prev, b.mbufFree[0], mode.counting, seg, addr, size, lkey)
    ensures var (b', s') := (AddSegment(mode, b, seg), s.(numWqes := BlockCounts(h')));
      && Good(mode, st, b', s', h') && Inv(cf, s')
      && b'.build[..|b'.build| - 1] == b.build[..|b.build| - 1] && |b'.build| == |b.build|
      && Queued(mode, cf, h', b'.build[..|b'.build| - 1], firsts, inls, msgs)
      && Partial(mode, h', b'.build[|b'.build| - 1], b.mbufFree[0])
      && Describes(h', b'.build[|b'.build| - 1], segs + [Seg(size, lkey, addr)])
  {
    hide Good, Inv, Queued, BlockCounts, Partial, Describes;
    var p, n := b.mbufFree[0], |b.build| - 1;
    var x := Held(p, NULL, seg);
    var b' := AddSegment(mode, b, seg);
    AddSegmentGood(mode, st, b, s, h, seg);
    NewMbufApart(mode, st, b, s, h, p);
    SegmentHeap(mode, h, b.build[n], prev, p, seg, segs, addr, size, lkey, h');
    assert b'.build[n] == b.build[n] + [x] && b'.build[..n] == b.build[..n];
    BuildingKeeps(mode, st, b', cf, s, h, h', firsts, inls, msgs);
  }

  lemma AddSegmentGood(mode: Mode, st: Stock, b: Books, s: Tx, h: Heap, seg: nat)
    requires Good(mode, st, b, s, h) && mode.ZeroCopy? && b.build != [] && b.mbufFree != []
    requires mode.counting ==> seg < |b.refs| && b.refs[seg] < 0xffff
    ensures Good(mode, st, AddSegment(mode, b, seg), s, h)
  {
    hide Balanced, Link, Sound, HandedOk;
    AddSegmentKeeps(mode, st, b, seg);
  }

  /** A free mbuf is in no message. */
  lemma NewMbufApart(mode: Mode, st: Stock, b: Books, s: Tx, h: Heap, p: Ptr)
    requires Good(mode, st, b, s, h) && !mode.Echo? && b.build != [] && p in b.mbufFree
    ensures p != NULL && p !in Ps(b.build[|b.build| - 1])
  {
    hide Balanced, Link, Sound, Out;
    FreeNotOut(mode, st, b);
    var c := b.build[|b.build| - 1];
    OutLast(b);
    forall j | 0 <= j < |c| ensures Ps(c)[j] != p {
      var o := Out(b);
      assert o[|o| - |c| + j] == c[j];
      assert Ps(o)[|o| - |c| + j] == c[j].p;
    }
  }

  lemma SegmentHeap(mode: Mode, h: Heap, c: seq<Held>, prev: Ptr, p: Ptr, seg: nat, segs: seq<Seg>,
                    addr: Ptr, size: u32, lkey: u32, h': Heap)
    requires mode.ZeroCopy? && Partial(mode, h, c, prev) && Describes(h, c, segs) && p != NULL && p !in Ps(c)
    requires h' == WithSegment(h, prev, p, mode.counting, seg, addr, size, lkey)
    ensures Partial(mode, h', c + [Held(p, NULL, seg)], p)
    ensures Describes(h', c + [Held(p, NULL, seg)], segs + [Seg(size, lkey, addr)])
    ensures AgreeOutside(h, h', Ps(c + [Held(p, NULL, seg)]))
  {
    PrevInMessage(mode, h, c, prev);
    LinkMbuf(mode, h, h', c, prev, Held(p, NULL, seg), segs, Seg(size, lkey, addr));
  }

  lemma PrevInMessage(mode: Mode, h: Heap, c: seq<Held>, prev: Ptr)
    requires Partial(mode, h, c, prev)
    ensures prev != NULL ==> prev in h && prev in Ps(c)
    ensures prev == NULL <==> c == []
  {
    if c != [] {
      assert HeldOk(mode, h, c[|c| - 1]);
      assert Ps(c)[|c| - 1] == prev;
    }
  }

  /** What one round of the loop over the segments changes on the books. */
  lemma SegmentAdded(counting: bool, b: Books, b': Books, seg: nat)
    requires b.build != [] && b.mbufFree != [] && (counting ==> seg < |b.refs|)
    requires b' == SegmentTaken(counting, b, seg)
    ensures var b2 := AddSegment(ZeroCopy(counting), b, seg);
            b2 == b'.(build := b2.build) && b2.limbo == b.limbo && |b2.build| == |b.build|
  {
  }

  /** An mbuf and room in the reference count while a batch is being built. */
  lemma RoomToBuild(mode: Mode, st: Stock, b: Books, cf: Config, s: Tx, h: Heap, firsts: seq<Ptr>, inls: seq<Inline>, msgs: seq<Msg>)
    requires Good(mode, st, b, s, h) && Inv(cf, s) && !mode.Echo? && b.limbo == []
    requires b.build != [] && |b.build| <= BATCH_SIZE && |b.build[|b.build| - 1]| < MAX_SCATTERS
    requires Queued(mode, cf, h, b.build[..|b.build| - 1], firsts, inls, msgs)
    requires |st.mbufs| >= 4 * cf.WqeCnt() + BATCH_SIZE * MAX_SCATTERS
    ensures b.mbufFree != []
    ensures mode.Copy? && |st.txs| >= 4 * cf.WqeCnt() + BATCH_SIZE * MAX_SCATTERS ==> b.txFree != []
    ensures mode == ZeroCopy(true) && 4 * cf.WqeCnt() + BATCH_SIZE * MAX_SCATTERS < 0xffff ==>
      forall i :: 0 <= i < |b.refs| ==> 1 <= b.refs[i] < 0xffff
  {
    hide Queued, Balanced, Link, Sound, HandedOk, Pow2, Posted, Done, At;
    var n := |b.build| - 1;
    QueuedBuilt(mode, cf, h, b.build[..n], firsts, inls, msgs);
    forall k | 0 <= k < |b.build| ensures |b.build[k]| <= MAX_SCATTERS {
      if k < n { assert b.build[k] == b.build[..n][k]; }
    }
    MbufAvailable(mode, st, b, cf, s);
    if mode == ZeroCopy(true) && 4 * cf.WqeCnt() + BATCH_SIZE * MAX_SCATTERS < 0xffff {
      forall i | 0 <= i < |b.refs| ensures 1 <= b.refs[i] < 0xffff { CountFits(mode, st, b, cf, i); }
    }
  }

  /** Completing the message: its length, its end, and what it will post. */
  lemma FinishGood(mode: Mode, st: Stock, b: Books, cf: Config, s: Tx, h: Heap, firsts: seq<Ptr>, inls: seq<Inline>, msgs: seq<Msg>,
                   prev: Ptr, segs: seq<Seg>, inl: Inline, pktLen: u32, h': Heap)
    requires Good(mode, st, b, s, h) && Inv(cf, s) && s.numWqes == BlockCounts(h) && b.build != []
    requires Queued(mode, cf, h, b.build[..|b.build| - 1], firsts, inls, msgs)
    requires Partial(mode, h, b.build[|b.build| - 1], prev) && Describes(h, b.build[|b.build| - 1], segs)
    requires 0 < |segs| <= MAX_SCATTERS && (mode.Echo? ==> |segs| == 1)
    requires inl.Valid() && Blocks(inl.Len(), |segs|) <= cf.WqeCnt()
    requires var c := b.build[|b.build| - 1];
      && |c| == |segs| && c[0].p in h && prev in h
      && h' == Finished(h, c[0].p, prev, |c|, pktLen)
    ensures var (s', first) := (s.(numWqes := BlockCounts(h')), First(b.build[|b.build| - 1]));
      && Good(mode, st, b, s', h') && Inv(cf, s')
      && Queued(mode, cf, h', b.build, firsts + [first], inls + [inl], msgs + [Msg(first, inl, segs)])
  {
    hide Good, Inv, Queued, BlockCounts, Partial, Describes, Built, ToPost, Blocks, AgreeOutside;
    var n := |b.build| - 1;
    var c := b.build[n];
    FinishMessage(mode, h, h', c, prev, segs, inl, pktLen);
    BuildingKeeps(mode, st, b, cf, s, h, h', firsts, inls, msgs);
    QueuedAppend(mode, cf, h', b.build[..n], firsts, inls, msgs, c, inl, segs);
    assert b.build[..n] + [c] == b.build;
  }

  /** The three writes that complete a message. */
  function Finished(h: Heap, first: Ptr, last: Ptr, n: u32, pktLen: u32): Heap
    requires first in h && last in h
  {
    var h1 := h[first := h[first].(nbSegs := n)];
    var h2 := h1[last := h1[last].(next := NULL)];
    h2[first := h2[first].(pktLen := pktLen)]
  }

  lemma FinishedLength(h: Heap, first: Ptr, last: Ptr, n: u32, pktLen: u32)
    requires first in h && last in h
    ensures MbufAt(Finished(h, first, last, n, pktLen), first).pktLen == pktLen
  {
  }

  lemma QueuedAppend(mode: Mode, cf: Config, h: Heap, ms: seq<seq<Held>>, firsts: seq<Ptr>, inls: seq<Inline>, msgs: seq<Msg>,
                     c: seq<Held>, inl: Inline, segs: seq<Seg>)
    requires Queued(mode, cf, h, ms, firsts, inls, msgs)
    requires Built(mode, h, c) && ToPost(h, inl, c) == Msg(First(c), inl, segs)
    requires inl.Valid() && Blocks(inl.Len(), |segs|) <= cf.WqeCnt()
    ensures Queued(mode, cf, h, ms + [c], firsts + [First(c)], inls + [inl], msgs + [Msg(First(c), inl, segs)])
  {
    hide Built, ToPost, Blocks;
    assert Waiting(mode, cf, h, c, First(c), inl, Msg(First(c), inl, segs));
    forall i | 0 <= i < |ms|
      ensures Waiting(mode, cf, h, (ms + [c])[i], (firsts + [First(c)])[i], (inls + [inl])[i], (msgs + [Msg(First(c), inl, segs)])[i])
    {
      assert Waiting(mode, cf, h, ms[i], firsts[i], inls[i], msgs[i]);
    }
  }

  lemma PartialEnds(mode: Mode, h: Heap, c: seq<Held>, prev: Ptr, segs: seq<Seg>)
    requires Partial(mode, h, c, prev) && Describes(h, c, segs) && segs != []
    ensures |c| == |segs| && c[0].p in h && prev in h && First(c) == c[0].p
  {
    assert HeldOk(mode, h, c[0]) && HeldOk(mode, h, c[|c| - 1]);
  }

  lemma FirstGrows(mode: Mode, b: Books, h: Heap, seg: nat, segs: seq<Seg>)
    requires b.build != [] && b.mbufFree != [] && (mode == ZeroCopy(true) ==> seg < |b.refs|)
    requires Describes(h, b.build[|b.build| - 1], segs)
    ensures var b' := AddSegment(mode, b, seg);
      && |b'.build| == |b.build| && b'.build[..|b.build| - 1] == b.build[..|b.build| - 1]
      && First(b'.build[|b.build| - 1]) == if segs == [] then b.mbufFree[0] else First(b.build[|b.build| - 1])
  {
  }

  /** The record of an mbuf that owns a buffer with a whole packet. */
  function PacketMbuf(m: Mbuf, buf: Ptr, headLen: u32, len: u32, lkey: u32): Mbuf {
    Initialized(m.(lkey := lkey), buf, headLen, 0).(release := CopyTx, next := NULL, nbSegs := 1, pktLen := len, len := len)
  }

  function WithPacket(h: Heap, p: Ptr, buf: Ptr, headLen: u32, len: u32, lkey: u32): Heap {
    h[p := PacketMbuf(MbufAt(h, p), buf, headLen, len, lkey)]
  }

  lemma PacketLength(h: Heap, p: Ptr, buf: Ptr, headLen: u32, len: u32, lkey: u32)
    ensures MbufAt(WithPacket(h, p, buf, headLen, len, lkey), p).pktLen == len
  {
  }

  /** A copied answer: one mbuf, one buffer. */
  lemma PacketGood(st: Stock, b: Books, cf: Config, s: Tx, h: Heap, firsts: seq<Ptr>, inls: seq<Inline>, msgs: seq<Msg>,
                   headLen: u32, len: u32, lkey: u32, h': Heap)
    requires Good(Copy, st, b, s, h) && Inv(cf, s) && s.numWqes == BlockCounts(h)
    requires b.build != [] && b.build[|b.build| - 1] == [] && b.mbufFree != [] && b.txFree != []
    requires Queued(Copy, cf, h, b.build[..|b.build| - 1], firsts, inls, msgs)
    requires h' == WithPacket(h, b.mbufFree[0], b.txFree[0], headLen, len, lkey)
    ensures var (b', s', p) := (AddPacket(b), s.(numWqes := BlockCounts(h')), b.mbufFree[0]);
      && Good(Copy, st, b', s', h') && Inv(cf, s')
      && Queued(Copy, cf, h', b'.build, firsts + [p], inls + [NoHeader], msgs + [Msg(p, NoHeader, [Seg(len, lkey, b.txFree[0])])])
  {
    hide Good, Inv, Queued, BlockCounts, Built, ToPost, HeldOk, WithPacket;
    var p, n := b.mbufFree[0], |b.build| - 1;
    var x := Held(p, b.txFree[0], 0);
    var b' := AddPacket(b);
    AddPacketGood(st, b, s, h);
    NewMbufApart(Copy, st, b, s, h, p);
    assert [] + [x] == [x];
    assert b'.build == b.build[..n] + [[x]];
    PacketBuilt(h, p, x, headLen, len, lkey, h');
    BuildingKeeps(Copy, st, b', cf, s, h, h', firsts, inls, msgs);
    QueuedAppend(Copy, cf, h', b.build[..n], firsts, inls, msgs, [x], NoHeader, [Seg(len, lkey, x.buf)]);
  }

  lemma AddPacketGood(st: Stock, b: Books, s: Tx, h: Heap)
    requires Good(Copy, st, b, s, h) && b.build != [] && b.mbufFree != [] && b.txFree != []
    ensures Good(Copy, st, AddPacket(b), s, h)
  {
    hide Balanced, Link, Sound, HandedOk;
    AddPacketKeeps(st, b);
  }

  lemma PacketBuilt(h: Heap, p: Ptr, x: Held, headLen: u32, len: u32, lkey: u32, h': Heap)
    requires p != NULL && x.p == p && h' == WithPacket(h, p, x.buf, headLen, len, lkey)
    ensures Built(Copy, h', [x]) && ToPost(h', NoHeader, [x]) == Msg(p, NoHeader, [Seg(len, lkey, x.buf)])
    ensures AgreeOutside(h, h', Ps([x]))
  {
    assert Ps([x]) == [p];
    assert Chain(h', NULL, Ps([x])[1..]);
    assert Segs(h', Ps([x])) == [Seg(len, lkey, x.buf)];
  }

  lemma FreeBuffer(mode: Mode, st: Stock, b: Books, s: Tx, h: Heap)
    requires Good(mode, st, b, s, h) && mode.Copy? && b.txFree != []
    ensures b.txFree[0] != NULL
  {
    hide Link, Sound, Out, Flat;
    var free := multiset(b.txFree);
    assert b.txFree[0] in free;
    assert b.txFree[0] in free + multiset(Bufs(Out(b)));
  }

  lemma PacketAdded(b: Books, b': Books)
    requires b.build != [] && b.mbufFree != [] && b.txFree != []
    requires b' == b.(mbufFree := b.mbufFree[1..], txFree := b.txFree[1..])
    ensures AddPacket(b) == b'.(build := AddPacket(b).build) && |AddPacket(b).build| == |b.build|
  {
  }

  // ----- echo ------------------------------------------------------------------------------

  /** The record of a received packet that is sent back with `len` bytes. */
  function EchoMbuf(m: Mbuf, len: u32, lkey: u32): Mbuf { m.(nbSegs := 1, next := NULL, lkey := lkey, len := len) }

  /** Writing to a received packet that the server holds disturbs no message. */
  lemma HeldWrites(st: Stock, b: Books, cf: Config, s: Tx, h: Heap, h': Heap, p: Ptr)
    requires Good(Echo, st, b, s, h) && Inv(cf, s) && s.numWqes == BlockCounts(h) && p in b.handed && b.limbo == []
    requires p in h && p in h' && h'[p].release == h[p].release && h'[p].head == h[p].head && h'[p].headLen == h[p].headLen
    requires AgreeOutside(h, h', [p])
    ensures Good(Echo, st, b, s.(numWqes := BlockCounts(h')), h') && Inv(cf, s.(numWqes := BlockCounts(h')))
  {
    hide Inv, BlockCounts, Balanced, MessageOk, Link, HandedOk, PostedOk;
    var c := [Held(p, NULL, 0)];
    assert Ps(c) == [p];
    EchoApart(st, b, p);
    SoundApart(Echo, h, h', b.flight, c);
    FlightKept(Echo, b, s, h, h', c);
    NumWqesKept(cf, s, h, h');
    forall q | q in b.handed ensures HandedOk(h', q, st.rxLen) { HandedRewritten(h, h', p, q, st.rxLen); }
    forall q | q in b.posted ensures PostedOk(h', q, st.rxLen) {
      PostedNotOut(Echo, st, b, q);
      PostedFrame(h, h', [p], q, st.rxLen);
    }
    LinkSame(s, s.(numWqes := BlockCounts(h')), b.flight);
  }

  lemma HandedRewritten(h: Heap, h': Heap, p: Ptr, q: Ptr, len: u32)
    requires p in h && p in h' && h'[p].release == h[p].release && h'[p].head == h[p].head && h'[p].headLen == h[p].headLen
    requires AgreeOutside(h, h', [p]) && HandedOk(h, q, len)
    ensures HandedOk(h', q, len)
  {
    if q != p { assert q !in [p]; }
  }

  lemma LinkSame(s: Tx, s': Tx, flight: seq<seq<Held>>)
    requires Link(s, flight) && s'.log == s.log && s'.reclaimed == s.reclaimed
    ensures Link(s', flight)
  {
    hide Same;
  }

  lemma EchoApart(st: Stock, b: Books, p: Ptr)
    requires st.Valid() && Balanced(Echo, st, b) && p in b.handed && b.limbo == []
    ensures Disjoint(b.flight, [Held(p, NULL, 0)])
  {
    hide Balanced, Flat;
    EchoNotOut(st, b);
    forall k, i | 0 <= k < |b.flight| && 0 <= i < |b.flight[k]| ensures b.flight[k][i].p !in Ps([Held(p, NULL, 0)]) {
      var x := FlatIndex(b.flight, k, i);
      InOut(b, x);
    }
  }

  /** A prepared packet becomes a message. */
  lemma EchoGood(st: Stock, b: Books, cf: Config, s: Tx, h: Heap, p: Ptr, firsts: seq<Ptr>, inls: seq<Inline>, msgs: seq<Msg>)
    requires Good(Echo, st, b, s, h) && p in b.handed && p in h && p != NULL
    requires h[p].nbSegs == 1 && h[p].next == NULL
    requires Queued(Echo, cf, h, b.build, firsts, inls, msgs)
    ensures Good(Echo, st, AddRequest(b, p), s, h)
    ensures Queued(Echo, cf, h, AddRequest(b, p).build, firsts + [p], inls + [NoHeader],
                   msgs + [Msg(p, NoHeader, [Seg(h[p].len, h[p].lkey, h[p].data)])])
  {
    hide Balanced, Queued, Link, Sound, Built, ToPost;
    AddRequestKeeps(st, b, p);
    EchoBuilt(h, p);
    QueuedAppend(Echo, cf, h, b.build, firsts, inls, msgs, [Held(p, NULL, 0)], NoHeader, [Seg(h[p].len, h[p].lkey, h[p].data)]);
  }

  lemma EchoBuilt(h: Heap, p: Ptr)
    requires p in h && h[p].release == RxBuf && h[p].head == p && p != NULL && h[p].nbSegs == 1 && h[p].next == NULL
    ensures Built(Echo, h, [Held(p, NULL, 0)])
    ensures ToPost(h, NoHeader, [Held(p, NULL, 0)]) == Msg(p, NoHeader, [Seg(h[p].len, h[p].lkey, h[p].data)])
  {
    var c := [Held(p, NULL, 0)];
    assert Ps(c) == [p];
    assert Chain(h, NULL, Ps(c)[1..]);
    assert Segs(h, Ps(c)) == [Seg(h[p].len, h[p].lkey, h[p].data)];
  }

  /** Each packet is held once. */
  lemma HeldOnce(mode: Mode, st: Stock, b: Books, s: Tx, h: Heap, p: Ptr)
    requires Good(mode, st, b, s, h) && p in b.handed
    ensures b.handed[p] == 1 && p != NULL && p in h && HandedOk(h, p, st.rxLen)
  {
    hide Out, Link, Sound, Flat, Counted;
    var rx := multiset(b.rxFree) + multiset(b.posted) + b.handed;
    assert rx[p] == multiset(b.rxFree)[p] + multiset(b.posted)[p] + b.handed[p];
    if mode.Echo? {
      var o := multiset(Ps(Out(b)));
      assert (rx + o)[p] == rx[p] + o[p];
      assert p in st.rxs;
    } else {
      assert p in st.rxs;
    }
  }

  // ----- transmit buffers ------------------------------------------------------------------

  /** No message in the ring is sent from a free transmit buffer. */
  lemma FlightBuffers(st: Stock, b: Books, s: Tx, h: Heap)
    requires Good(Copy, st, b, s, h) && b.limbo == []
    ensures forall i :: |s.reclaimed| <= i < |s.log| ==> |s.log[i].segs| > 0 && s.log[i].segs[0].addr !in b.txFree
  {
    hide Sound, HandedOk, Out;
    forall i | |s.reclaimed| <= i < |s.log| ensures |s.log[i].segs| > 0 && s.log[i].segs[0].addr !in b.txFree {
      var k := i - |s.reclaimed|;
      assert Same(s.log[|s.reclaimed| + k], b.flight[k]);
      var x := FlatFind(b.flight, k);
      InOut(b, x);
      OwnedBuffer(st, b, x);
    }
  }

  lemma OwnedBuffer(st: Stock, b: Books, x: nat)
    requires st.Valid() && Balanced(Copy, st, b) && x < |Out(b)|
    ensures Out(b)[x].buf != NULL && Out(b)[x].buf !in b.txFree
  {
    hide Out;
    var buf, o, free := Out(b)[x].buf, multiset(Bufs(Out(b))), multiset(b.txFree);
    assert Bufs(Out(b))[x] == buf;
    assert buf in o;
    assert st.txs[buf] == free[buf] + o[buf];
    assert buf in b.txFree ==> buf in free;
  }

  /** Each free transmit buffer is listed once. */
  lemma TxFreeOnce(st: Stock, b: Books, s: Tx, h: Heap)
    requires Good(Copy, st, b, s, h)
    ensures forall i, j :: 0 <= i < j < |b.txFree| ==> b.txFree[i] != b.txFree[j]
    ensures forall p :: p in b.txFree ==> p in st.txs && p != NULL
  {
    hide Out, Link, Sound, HandedOk;
    var o, free := multiset(Bufs(Out(b))), multiset(b.txFree);
    forall p ensures free[p] <= 1 && (p in b.txFree ==> p in st.txs && p != NULL) {
      assert st.txs[p] == free[p] + o[p];
      assert p in b.txFree ==> p in free;
    }
    ListedOnce(b.txFree);
  }

  lemma ListedOnce(s: seq<Ptr>)
    requires forall p :: multiset(s)[p] <= 1
    ensures forall i, j :: 0 <= i < j < |s| ==> s[i] != s[j]
  {
    forall i, j | 0 <= i < j < |s| ensures s[i] != s[j] {
      assert s == s[..j] + s[j..] && s[..j][i] == s[i] && s[j..][0] == s[j];
      var a, b := multiset(s[..j]), multiset(s[j..]);
      assert multiset(s) == a + b && s[i] in a && s[j] in b;
      assert multiset(s)[s[i]] == a[s[i]] + b[s[i]];
    }
  }

  /** Each posted receive buffer is listed once. */
  lemma PostedOnce(mode: Mode, st: Stock, b: Books, s: Tx, h: Heap)
    requires Good(mode, st, b, s, h)
    ensures forall i, j :: 0 <= i < j < |b.posted| ==> b.posted[i] != b.posted[j]
  {
    hide Out, Link, Sound, HandedOk, Counted;
    var free, posted, o := multiset(b.rxFree), multiset(b.posted), multiset(Ps(Out(b)));
    forall p ensures posted[p] <= 1 {
      var all := free + posted + b.handed;
      assert all[p] == free[p] + posted[p] + b.handed[p];
      if mode.Echo? { assert (all + o)[p] == all[p] + o[p]; }
    }
    ListedOnce(b.posted);
  }

  lemma PostedSized(mode: Mode, st: Stock, b: Books, s: Tx, h: Heap)
    requires Good(mode, st, b, s, h)
    ensures forall p :: p in b.posted ==> PostedOk(h, p, st.rxLen)
  {
  }

  // ----- the loop over a burst -------------------------------------------------------------

  const BURST_SIZE: nat := 32

  /** Packets left in mbufs_to_process at the end of a burst whose remaining packets have the
      validity `v`, when `n` are pending. */
  function Pending(v: seq<bool>, n: nat): nat {
    if v == [] then n
    else if !v[0] then Pending(v[1..], n)
    else if n + 1 == BATCH_SIZE || |v| == 1 then Pending(v[1..], 0)
    else Pending(v[1..], n + 1)
  }

  /** Number of valid packets. */
  function CountValid(v: seq<bool>): nat {
    if v == [] then 0 else (if v[0] then 1 else 0) + CountValid(v[1..])
  }

  lemma {:induction false} PendingExact(v: seq<bool>, n: nat)
    requires |v| + n <= BATCH_SIZE
    ensures Pending(v, n) == if v == [] then n else if v[|v| - 1] then 0 else n + CountValid(v)
    decreases |v|
  {
    if v != [] {
      var w := v[1..];
      if !v[0] {
        PendingExact(w, n);
      } else if n + 1 == BATCH_SIZE || |v| == 1 {
        assert w == [];
      } else {
        PendingExact(w, n + 1);
      }
    }
  }

  lemma {:induction false} CountValidPositive(v: seq<bool>)
    ensures CountValid(v) > 0 <==> true in v
    decreases |v|
  {
    if v != [] {
      CountValidPositive(v[1..]);
      assert v == [v[0]] + v[1..];
    }
  }

  /** A burst loses packets exactly when its last packet is invalid and an earlier one is not:
      all the valid ones. */
  lemma LeakExact(v: seq<bool>)
    requires |v| <= BURST_SIZE
    ensures Pending(v, 0) > 0 <==> v != [] && !v[|v| - 1] && true in v
    ensures Pending(v, 0) > 0 ==> Pending(v, 0) == CountValid(v)
  {
    PendingExact(v, 0);
    CountValidPositive(v);
  }

  /** Those of `xs` whose packet is valid, in order. */
  function Kept<T>(v: seq<bool>, xs: seq<T>): (r: seq<T>)
    requires |v| == |xs|
    ensures |r| <= |v|
  {
    if v == [] then []
    else
      var n := |v| - 1;
      Kept(v[..n], xs[..n]) + if v[n] then [xs[n]] else []
  }

  /** The burst ends with an invalid packet: the pending batch is never processed. */
  predicate Leaks(v: seq<bool>) { v != [] && !v[|v| - 1] }

  /** What is answered and what is lost of a burst. */
  function Answered<T>(v: seq<bool>, xs: seq<T>): (r: seq<T>)
    requires |v| == |xs|
  {
    if Leaks(v) then [] else Kept(v, xs)
  }

  function Lost<T>(v: seq<bool>, xs: seq<T>): (r: seq<T>)
    requires |v| == |xs|
  {
    if Leaks(v) then Kept(v, xs) else []
  }

  lemma KeptNext<T>(v: seq<bool>, xs: seq<T>, i: nat)
    requires |v| == |xs| && i < |v|
    ensures Kept(v[..i + 1], xs[..i + 1]) == Kept(v[..i], xs[..i]) + if v[i] then [xs[i]] else []
    ensures Kept(v[..0], xs[..0]) == [] && |Kept(v[..i], xs[..i])| <= i
  {
    assert v[..i + 1][..i] == v[..i] && xs[..i + 1][..i] == xs[..i];
  }

  lemma {:induction false} CountValidAppend(v: seq<bool>, x: bool)
    ensures CountValid(v + [x]) == CountValid(v) + if x then 1 else 0
    decreases |v|
  {
    if v == [] {
      assert v + [x] == [x] && [x][1..] == [];
    } else {
      assert (v + [x])[1..] == v[1..] + [x];
      CountValidAppend(v[1..], x);
    }
  }

  lemma {:induction false} KeptSize<T>(v: seq<bool>, xs: seq<T>)
    requires |v| == |xs|
    ensures |Kept(v, xs)| == CountValid(v)
    decreases |v|
  {
    if v != [] {
      var n := |v| - 1;
      KeptSize(v[..n], xs[..n]);
      CountValidAppend(v[..n], v[n]);
      assert v == v[..n] + [v[n]];
    }
  }

  /** The loop over a burst, packet by packet, loses exactly these. */
  lemma LostIsPending<T>(v: seq<bool>, xs: seq<T>)
    requires |v| == |xs| <= BURST_SIZE
    ensures |Lost(v, xs)| == Pending(v, 0)
  {
    PendingExact(v, 0);
    KeptSize(v, xs);
  }

  // ----- losses of many bursts -------------------------------------------------------------

  /** Packets lost over a sequence of bursts, given by the validity of their packets. */
  function TotalLost(vs: seq<seq<bool>>): nat {
    if vs == [] then 0 else TotalLost(vs[..|vs| - 1]) + Pending(vs[|vs| - 1], 0)
  }

  /** Bursts that lose something. */
  function Leaky(vs: seq<seq<bool>>): nat {
    if vs == [] then 0
    else Leaky(vs[..|vs| - 1]) + if Leaks(vs[|vs| - 1]) && true in vs[|vs| - 1] then 1 else 0
  }

  lemma TotalLostNext(vs: seq<seq<bool>>, i: nat)
    requires i < |vs|
    ensures TotalLost(vs[..i + 1]) == TotalLost(vs[..i]) + Pending(vs[i], 0) && TotalLost(vs[..0]) == 0
  {
    assert vs[..i + 1][..i] == vs[..i];
  }

  lemma {:induction false} TotalLostGrows(vs: seq<seq<bool>>, i: nat, j: nat)
    requires i <= j <= |vs|
    ensures TotalLost(vs[..i]) <= TotalLost(vs[..j])
    decreases j
  {
    if i < j {
      TotalLostGrows(vs, i, j - 1);
      TotalLostNext(vs, j - 1);
    }
  }

  /** Losses are never made good: every burst that ends with an invalid packet after a valid one costs
      at least one buffer and at most 31, and no other burst costs any. */
  lemma {:induction false} LossesAddUp(vs: seq<seq<bool>>)
    requires forall i :: 0 <= i < |vs| ==> |vs[i]| <= BURST_SIZE
    ensures Leaky(vs) <= TotalLost(vs) <= (BURST_SIZE - 1) * Leaky(vs)
    decreases |vs|
  {
    if vs != [] {
      var n := |vs| - 1;
      LossesAddUp(vs[..n]);
      LeakExact(vs[n]);
      PendingExact(vs[n], 0);
      AllButLast(vs[n]);
    }
  }

  lemma AllButLast(v: seq<bool>)
    requires Leaks(v) ==> |v| <= BURST_SIZE
    ensures Leaks(v) ==> CountValid(v) <= BURST_SIZE - 1
  {
    if Leaks(v) {
      var n := |v| - 1;
      assert v == v[..n] + [v[n]];
      CountValidAppend(v[..n], v[n]);
      CountBound(v[..n]);
    }
  }

  lemma {:induction false} CountBound(v: seq<bool>)
    ensures CountValid(v) <= |v|
    decreases |v|
  {
    if v != [] { CountBound(v[1..]); }
  }

  // ----- received packets ------------------------------------------------------------------

  /** A received packet goes back to its pool. */
  lemma DropRequestGood(mode: Mode, st: Stock, b: Books, s: Tx, h: Heap, p: Ptr)
    requires Good(mode, st, b, s, h) && p in b.handed
    ensures Good(mode, st, DropRequest(b, p), s, h)
  {
    hide Balanced, Link, Sound;
    DropRequestKeeps(mode, st, b, p);
  }

  lemma HeldInUse(mode: Mode, st: Stock, b: Books, s: Tx, h: Heap, p: Ptr)
    requires Good(mode, st, b, s, h) && p in b.handed
    ensures |b.rxFree| < |st.rxs|
  {
    hide Link, Sound, Balanced;
    FreeCounts(mode, st, b);
    var m := b.handed;
    assert m == m - multiset{p} + multiset{p};
  }

  /** The receive ring after `n` packets were handed up and replaced. */
  lemma PostedAfter(posts: seq<Ptr>, delivered: seq<Ptr>, ms: seq<Ptr>, bufs: seq<Ptr>)
    requires delivered + ms <= posts
    ensures posts[|delivered|..][..|ms|] == ms
    ensures (posts + bufs)[|delivered + ms|..] == posts[|delivered|..][|ms|..] + bufs
  {
  }

  /** Taking one request out of those held. */
  lemma HoldStep(was: multiset<Ptr>, batch: seq<Ptr>, i: nat)
    requires i < |batch|
    ensures batch[i] in was + multiset(batch[i..])
    ensures was + multiset(batch[i..]) - multiset{batch[i]} == was + multiset(batch[i + 1..])
  {
    assert batch[i..] == [batch[i]] + batch[i + 1..];
  }

  /** The packets held in the middle of a burst: those from before, the pending ones, and those
      not looked at yet. */
  ghost function Hands(was: multiset<Ptr>, batch: seq<Ptr>, ms: seq<Ptr>, i: nat): multiset<Ptr>
    requires i <= |ms|
  {
    was + multiset(batch) + multiset(ms[i..])
  }

  /** The next packet is dropped, or joins the batch. */
  lemma HandsStep(was: multiset<Ptr>, batch: seq<Ptr>, ms: seq<Ptr>, i: nat)
    requires i < |ms|
    ensures ms[i] in Hands(was, batch, ms, i)
    ensures Hands(was, batch, ms, i) - multiset{ms[i]} == Hands(was, batch, ms, i + 1)
    ensures Hands(was, batch, ms, i) == Hands(was, batch + [ms[i]], ms, i + 1)
  {
    assert ms[i..] == [ms[i]] + ms[i + 1..];
  }

  lemma HandsBatch(was: multiset<Ptr>, batch: seq<Ptr>, ms: seq<Ptr>, i: nat)
    requires i <= |ms|
    ensures Hands(was, batch, ms, i) == Hands(was, [], ms, i) + multiset(batch)
  {
  }

  lemma HandsEnds(was: multiset<Ptr>, batch: seq<Ptr>, ms: seq<Ptr>)
    ensures was + multiset(ms) == Hands(was, [], ms, 0)
    ensures Hands(was, batch, ms, |ms|) == was + multiset(batch)
  {
    assert ms[0..] == ms && ms[|ms|..] == [];
  }

  lemma InMultiset(s: seq<Ptr>, m: multiset<Ptr>)
    requires multiset(s) <= m
    ensures forall p :: p in s ==> p in m
  {
    forall p | p in s ensures p in m {
      assert p in multiset(s);
    }
  }

  // ----- pools made by mempool_create --------------------------------------------------------

  /** The arguments of mempool_create. */
  datatype Region = Region(buf: nat, len: nat, pgsize: nat, item: nat) {
    predicate Valid() { buf > 0 && item > 0 && pgsize > 0 && len % pgsize == 0 }
  }

  lemma {:induction false} SortedOnce(s: seq<Ptr>)
    requires forall k, l :: 0 <= k < l < |s| ==> s[k] < s[l]
    ensures forall p :: multiset(s)[p] <= 1
    decreases |s|
  {
    if s != [] {
      var n := |s| - 1;
      SortedOnce(s[..n]);
      assert s == s[..n] + [s[n]];
      forall p ensures multiset(s)[p] <= 1 {
        if p == s[n] { assert p !in s[..n]; }
      }
    }
  }

  lemma RegionItems(r: Region, s: seq<Ptr>)
    requires r.Valid() && s == Pools.AllItems(r.buf, r.len, r.pgsize, r.item)
    ensures forall p :: multiset(s)[p] <= 1
    ensures forall p :: p in s ==> r.buf <= p < r.buf + r.len
  {
    hide Pools.Items;
    Pools.PerPage(r.pgsize, r.item);
    Pools.ItemsLayout(r.buf, r.pgsize, r.item, r.pgsize / r.item, r.len / r.pgsize);
    SortedOnce(s);
    forall k | 0 <= k < |s| ensures r.buf <= s[k] < r.buf + r.len {
      Pools.ItemsInRegion(r.buf, r.len, r.pgsize, r.item, k);
    }
  }

  /** Three pools over separate regions are what the server needs: every item exists once, and no
      mbuf structure is a receive buffer. */
  lemma StockOfPools(mr: Region, tr: Region, rr: Region, mbufs: seq<Ptr>, txs: seq<Ptr>, rxs: seq<Ptr>)
    requires mr.Valid() && tr.Valid() && rr.Valid() && (mr.buf + mr.len <= rr.buf || rr.buf + rr.len <= mr.buf)
    requires mbufs == Pools.AllItems(mr.buf, mr.len, mr.pgsize, mr.item)
    requires txs == Pools.AllItems(tr.buf, tr.len, tr.pgsize, tr.item)
    requires rxs == Pools.AllItems(rr.buf, rr.len, rr.pgsize, rr.item)
    ensures rr.item < W32 ==> Stock(multiset(mbufs), multiset(txs), multiset(rxs), rr.item).Valid()
  {
    hide Pools.AllItems;
    RegionItems(mr, mbufs);
    RegionItems(tr, txs);
    RegionItems(rr, rxs);
    var m, x := multiset(mbufs), multiset(rxs);
    forall p ensures m[p] == 0 || x[p] == 0 {
      assert p in m ==> p in mbufs;
      assert p in x ==> p in rxs;
    }
    NotNull(mbufs);
    NotNull(txs);
    NotNull(rxs);
  }

  lemma NotNull(s: seq<Ptr>)
    requires forall p :: p in s ==> p > 0
    ensures NULL !in multiset(s)
  {
    assert NULL in multiset(s) ==> NULL in s;
  }
}
