/** The transmit side as a state machine (mlx5_rxtx.c): posting descriptors, the device fetching
    and completing them, and gathering completions, with 32-bit counters that wrap. */
module TxRing {
  import opened Bits
  import opened Memory
  import opened WorkRequest
  import opened Completion

  const SQ_CLEAN_MAX: nat := 32
  const SQ_CLEAN_THRESH: nat := 32

  /** wqe_cnt = 2^wqeLog blocks, cqe_cnt = 2^cqeLog completion entries. Completions carry a
      16-bit descriptor counter, and cqe_status keeps the parity in 16 bits. */
  datatype Config = Config(wqeLog: nat, cqeLog: nat, qpn: nat) {
    predicate Valid() { wqeLog <= 16 && cqeLog <= 15 }
    function WqeCnt(): (n: nat) ensures n > 0 { Pow2(wqeLog) }
    function CqeCnt(): (n: nat) ensures n > 0 { Pow2(cqeLog) }
  }

  /** One transmission: the first mbuf of the chain, the header to inline, the data segments. */
  datatype Msg = Msg(mbuf: Ptr, inl: Inline, segs: seq<Seg>) {
    predicate Valid() { inl.Valid() && 0 < |segs| <= MAX_SCATTERS }
    function NumWqes(): (b: nat)
      ensures segs != [] ==> b >= 1
    {
      Blocks(inl.Len(), |segs|)
    }
  }

  datatype Tx = Tx(
    // driver: counters, buffers[], the num_wqes field of mbufs
    sqHead: u32, cqHead: u32, trueCqHead: u32, buffers: seq<Ptr>, numWqes: map<Ptr, nat>,
    // memory shared with the device: send queue and completion queue
    ring: seq<byte>, cq: seq<Cqe>,
    // device: the block it fetches next, what it reported, what it put on the wire
    devBlock: nat, reports: seq<Report>, wire: seq<Wqe>,
    // history: every message posted, every mbuf handed back
    log: seq<Msg>, reclaimed: seq<Ptr>)

  // ----- driver operations -----------------------------------------------------------------

  /** nr_inflight_tx */
  function Inflight(s: Tx): u32 { Wrap32(s.sqHead - s.trueCqHead) }

  /** wqe_cnt - nr_inflight_tx(v) in unsigned arithmetic. */
  function Room(c: Config, s: Tx): u32 { Wrap32(c.WqeCnt() - Inflight(s)) }

  predicate Sized(c: Config, s: Tx) {
    |s.buffers| == c.WqeCnt() && |s.ring| == BLOCK * c.WqeCnt() && |s.cq| == c.CqeCnt()
  }

  /** One round of the loop in mlx5_gather_completions; false when the entry is invalid. */
  predicate Ready(c: Config, s: Tx)
    requires Sized(c, s)
  {
    var slot := Slot(c.CqeCnt(), s.cqHead);
    Status(s.cq[slot], c.CqeCnt(), s.cqHead) != CQE_INVALID
  }

  function TakeCompletion(c: Config, s: Tx): (s': Tx)
    requires Sized(c, s)
    ensures Sized(c, s')
  {
    var cqe := s.cq[Slot(c.CqeCnt(), s.cqHead)];
    var m := s.buffers[And(cqe.wqeCounter, c.WqeCnt() - 1)];
    var blocks := if m in s.numWqes then s.numWqes[m] else 0;
    s.(trueCqHead := Wrap32(s.trueCqHead + blocks), cqHead := Wrap32(s.cqHead + 1), reclaimed := s.reclaimed + [m])
  }

  /** mlx5_gather_completions */
  function Gather(c: Config, s: Tx, budget: nat): (s': Tx)
    requires Sized(c, s)
    ensures Sized(c, s')
    decreases budget
  {
    if budget == 0 || !Ready(c, s) then s else Gather(c, TakeCompletion(c, s), budget - 1)
  }

  /** The part of mlx5_fill_tx_segment that writes the descriptor. */
  function Post(c: Config, s: Tx, m: Msg): (s': Tx)
    requires Sized(c, s)
    ensures Sized(c, s')
  {
    var idx := And(s.sqHead, c.WqeCnt() - 1);
    s.(ring := Fill(s.ring, idx, c.qpn, s.sqHead, m.inl, m.segs),
       numWqes := s.numWqes[m.mbuf := m.NumWqes()],
       buffers := s.buffers[idx := m.mbuf],
       sqHead := Wrap32(s.sqHead + m.NumWqes()),
       log := s.log + [m])
  }

  /** Clean up if the ring looks too full. */
  function MakeRoom(c: Config, s: Tx, m: Msg): (s': Tx)
    requires Sized(c, s)
    ensures Sized(c, s')
  {
    if Room(c, s) < m.NumWqes() then Gather(c, s, SQ_CLEAN_MAX) else s
  }

  /** mlx5_transmit_one returns 1 when the descriptor was posted. */
  predicate Sends(c: Config, s: Tx, m: Msg)
    requires Sized(c, s)
  {
    Room(c, MakeRoom(c, s, m)) >= m.NumWqes()
  }

  function CleanAfter(c: Config, s: Tx): (s': Tx)
    requires Sized(c, s)
    ensures Sized(c, s')
  {
    if Inflight(s) >= SQ_CLEAN_THRESH then Gather(c, s, SQ_CLEAN_MAX) else s
  }

  /** mlx5_transmit_one */
  function Transmit(c: Config, s: Tx, m: Msg): (s': Tx)
    requires Sized(c, s)
    ensures Sized(c, s')
  {
    var s1 := MakeRoom(c, s, m);
    if Room(c, s1) < m.NumWqes() then s1 else CleanAfter(c, Post(c, s1, m))
  }

  // ----- device ----------------------------------------------------------------------------

  /** The device fetches the descriptor at its own position. It sends it when it is a send request of this queue, and
      reports completion, or an error, when the descriptor asks for that. */
  function DeviceCompletes(c: Config, s: Tx): (s': Tx)
    requires Sized(c, s)
    ensures Sized(c, s')
  {
    ModBelow(s.devBlock, c.WqeCnt());
    var w := Decode(From(s.ring, s.devBlock % c.WqeCnt()));
    var s1 := s.(wire := if IsSend(w, c.qpn) then s.wire + [w] else s.wire, devBlock := s.devBlock + (w.ds + 3) / 4);
    if AsksCompletion(w) then
      var r := Report(if IsSend(w, c.qpn) then CQE_REQ else CQE_REQ_ERR, w.index, 0);
      s1.(cq := Produce(c.cqeLog, s.cq, |s.reports|, r), reports := s.reports + [r])
    else s1
  }

  /** The device does only what it is told. */
  lemma DeviceObeys(c: Config, s: Tx)
    requires Sized(c, s)
    ensures BLOCK * (s.devBlock % c.WqeCnt()) <= |s.ring|
    ensures var w := Decode(From(s.ring, s.devBlock % c.WqeCnt()));
      && (DeviceCompletes(c, s).wire != s.wire <==> IsSend(w, c.qpn))
      && (DeviceCompletes(c, s).reports != s.reports <==> AsksCompletion(w))
  {
    hide Decode, From, Produce, IsSend, AsksCompletion;
    ModBelow(s.devBlock, c.WqeCnt());
  }

  lemma ModBelow(x: nat, n: nat)
    requires n > 0
    ensures BLOCK * (x % n) <= BLOCK * n
  {
  }

  lemma PostFields(c: Config, s: Tx, m: Msg)
    requires Sized(c, s)
    ensures var s' := Post(c, s, m);
            s'.log == s.log + [m] && s'.reclaimed == s.reclaimed && s'.reports == s.reports && s'.wire == s.wire
  {
    hide Fill, And, Blocks, Wrap32;
  }

  // ----- history ---------------------------------------------------------------------------

  /** Blocks taken by the first messages of a log. */
  function Total(log: seq<Msg>): nat {
    if log == [] then 0 else Total(log[..|log| - 1]) + log[|log| - 1].NumWqes()
  }

  /** The block, counted from the beginning of time, at which message `i` starts. */
  function At(log: seq<Msg>, i: nat): nat
    requires i <= |log|
  {
    Total(log[..i])
  }

  lemma AtNext(log: seq<Msg>, i: nat)
    requires i < |log|
    ensures At(log, i + 1) == At(log, i) + log[i].NumWqes()
  {
    assert log[..i + 1][..i] == log[..i];
  }

  lemma AtAppend(log: seq<Msg>, m: Msg, i: nat)
    requires i <= |log|
    ensures At(log + [m], i) == At(log, i)
    ensures At(log + [m], |log| + 1) == At(log, |log|) + m.NumWqes()
  {
    assert (log + [m])[..i] == log[..i];
    assert (log + [m])[..|log|] == log[..|log|];
    AtNext(log + [m], |log|);
  }

  lemma {:induction false} AtMonotone(log: seq<Msg>, i: nat, j: nat)
    requires i <= j <= |log|
    ensures At(log, i) <= At(log, j)
    ensures i < j ==> At(log, i) + log[i].NumWqes() <= At(log, j)
  {
    if i < j {
      AtMonotone(log, i, j - 1);
      AtNext(log, j - 1);
    }
  }

  // ----- the invariant ---------------------------------------------------------------------

  /** The device reads message `m`; in the last block the inlined header is not guaranteed. */
  ghost predicate Carries(w: Wqe, m: Msg, start: nat, n: nat)
    requires n > 0
  {
    && w.index == start % W16
    && w.ds == HdrSegs(m.inl.Len()) + |m.segs|
    && w.segs == m.segs
    && |w.inlined| == m.inl.Len()
    && (start % n + 1 != n || m.inl.NoHeader? ==> w.inlined == m.inl.Bytes())
  }

  /** Message `i` is intact in the ring and its mbuf is on record. */
  ghost predicate Posted(c: Config, s: Tx, i: nat)
    requires Sized(c, s) && i < |s.log|
  {
    var n, m, start := c.WqeCnt(), s.log[i], At(s.log, i);
    ModBelow(start, n);
    var v := From(s.ring, start % n);
    && s.buffers[start % n] == m.mbuf
    && m.mbuf in s.numWqes && s.numWqes[m.mbuf] == m.NumWqes()
    && Fits(v, m.NumWqes()) && Carries(Decode(v), m, start, n) && Commands(Decode(v), c.qpn)
  }

  ghost predicate Counters(c: Config, s: Tx) {
    && |s.reclaimed| <= |s.reports| <= |s.log|
    && |s.reports| <= |s.reclaimed| + c.CqeCnt()
    && s.sqHead == Wrap32(At(s.log, |s.log|))
    && s.trueCqHead == Wrap32(At(s.log, |s.reclaimed|))
    && s.cqHead == Wrap32(|s.reclaimed|)
    && s.devBlock == At(s.log, |s.reports|)
    && At(s.log, |s.log|) <= At(s.log, |s.reclaimed|) + c.WqeCnt()
  }

  /** What the device has done so far: everything it took, in order. */
  ghost predicate Done(c: Config, s: Tx)
    requires |s.reports| <= |s.log|
  {
    && |s.wire| == |s.reports|
    && (forall p :: 0 <= p < |s.reports| ==> s.reports[p] == Report(CQE_REQ, At(s.log, p) % W16, 0))
    && (forall p :: 0 <= p < |s.wire| ==> Carries(s.wire[p], s.log[p], At(s.log, p), c.WqeCnt()))
    && (forall p :: 0 <= p < |s.wire| ==> Commands(s.wire[p], c.qpn))
  }

  ghost predicate Inv(c: Config, s: Tx) {
    && c.Valid() && Sized(c, s)
    && Counters(c, s)
    && (forall i :: 0 <= i < |s.log| ==> s.log[i].Valid())
    && (forall i :: |s.reclaimed| <= i < |s.log| ==> Posted(c, s, i))
    && (forall i, j :: |s.reclaimed| <= i < j < |s.log| ==> s.log[i].mbuf != s.log[j].mbuf)
    && Ring(c.cqeLog, s.cq, s.reports)
    && Done(c, s)
    && (forall i :: 0 <= i < |s.reclaimed| ==> s.reclaimed[i] == s.log[i].mbuf)
  }

  /** Freshly created queues: zeroed counters, completion entries owned by the hardware. */
  ghost predicate Init(c: Config, s: Tx) {
    && c.Valid() && Sized(c, s)
    && s.sqHead == s.cqHead == s.trueCqHead == 0
    && (forall i :: 0 <= i < |s.cq| ==> s.cq[i].opOwn % 2 == 1)
    && s.devBlock == 0 && s.reports == [] && s.wire == [] && s.log == [] && s.reclaimed == []
  }

  lemma InitInv(c: Config, s: Tx)
    requires Init(c, s)
    ensures Inv(c, s)
  {
    Initially(c.cqeLog, s.cq);
  }

  // ----- consequences of the invariant -----------------------------------------------------

  /** nr_inflight_tx counts exactly the blocks of messages posted but not gathered, and never
      more than the ring holds. */
  lemma InflightExact(c: Config, s: Tx)
    requires c.Valid() && Counters(c, s)
    ensures Inflight(s) == At(s.log, |s.log|) - At(s.log, |s.reclaimed|) <= c.WqeCnt()
    ensures Room(c, s) == c.WqeCnt() - Inflight(s)
  {
    hide At, Total, Pow2;
    AtMonotone(s.log, |s.reclaimed|, |s.log|);
    PowMonotone(c.wqeLog, 16);
    PowConstants();
    WrapDifference(At(s.log, |s.log|), At(s.log, |s.reclaimed|));
    SmallMod(c.WqeCnt() - Inflight(s), W32);
  }

  /** The block windows of two messages in flight share no block of the ring. */
  lemma WindowsDisjoint(c: Config, s: Tx, i: nat, j: nat, a: nat, b: nat)
    requires Inv(c, s)
    requires |s.reclaimed| <= i < j < |s.log|
    requires a < s.log[i].NumWqes() && b < s.log[j].NumWqes()
    ensures (At(s.log, i) + a) % c.WqeCnt() != (At(s.log, j) + b) % c.WqeCnt()
  {
    hide Posted, Done, Ring, At, Total, Pow2, Blocks;
    AtMonotone(s.log, |s.reclaimed|, i);
    AtMonotone(s.log, i, j);
    AtMonotone(s.log, j, |s.log|);
    DistinctSlots(At(s.log, i) + a, At(s.log, j) + b, c.WqeCnt());
  }

  // ----- posting ---------------------------------------------------------------------------

  lemma ModShift(x: nat, d: nat, n: nat)
    requires 0 < n && d <= n
    ensures (x + d) % n == x % n + d || (x + d) % n + n == x % n + d
  {
    var r := x % n + d;
    if r < n {
      DivModUnique(x + d, n, x / n, r);
    } else if r < 2 * n {
      assert x + d == n * (x / n + 1) + (r - n);
      DivModUnique(x + d, n, x / n + 1, r - n);
    }
  }

  /** The index of the next descriptor: sq_head & (wqe_cnt - 1). */
  lemma NextIndex(c: Config, x: nat)
    requires c.Valid()
    ensures And(Wrap32(x), c.WqeCnt() - 1) == x % c.WqeCnt()
    ensures x % c.WqeCnt() < c.WqeCnt()
  {
    CounterIndex(x, c.wqeLog);
  }

  /** Wrapping at 32 bits first does not change the low 16 bits. */
  lemma Low16(x: nat)
    ensures Wrap32(x) % W16 == x % W16
  {
    ModOfMod(x, W16, W16);
  }

  /** The new descriptor is readable as posted. */
  lemma PostedNew(c: Config, s: Tx, m: Msg)
    requires c.Valid() && Sized(c, s) && Counters(c, s) && m.Valid()
    requires m.NumWqes() <= c.WqeCnt()
    ensures Posted(c, Post(c, s, m), |s.log|)
  {
    hide Fill, Decode, Fits, From, Total, Pow2, HdrSegs, Picture;
    var n, start := c.WqeCnt(), At(s.log, |s.log|);
    var idx := start % n;
    NextIndex(c, start);
    AtAppend(s.log, m, |s.log|);
    Low16(start);
    ModBelow(start, n);
    FillLayout(s.ring, n, idx, c.qpn, s.sqHead, m.inl, m.segs);
    PictureDecodes(From(s.ring, idx), idx + 1 == n, c.qpn, s.sqHead, m.inl, m.segs);
    FillStaysInside(s.ring, n, idx, c.qpn, s.sqHead, m.inl, m.segs);
  }

  /** An older message stays intact. */
  lemma PostedOld(c: Config, s: Tx, m: Msg, i: nat)
    requires c.Valid() && Sized(c, s) && Counters(c, s) && m.Valid()
    requires |s.reclaimed| <= i < |s.log| && s.log[i].Valid() && s.log[i].mbuf != m.mbuf
    requires Posted(c, s, i)
    requires At(s.log, |s.log|) + m.NumWqes() <= At(s.log, |s.reclaimed|) + c.WqeCnt()
    ensures Posted(c, Post(c, s, m), i)
  {
    hide Fill, Decode, Fits, From, Total, Pow2, HdrSegs, Blocks;
    var n, start, older := c.WqeCnt(), At(s.log, |s.log|), At(s.log, i);
    var s' := Post(c, s, m);
    AtMonotone(s.log, |s.reclaimed|, i);
    AtMonotone(s.log, i, |s.log|);
    var delta := start - older;
    NextIndex(c, start);
    AtAppend(s.log, m, i);
    DistinctSlots(older, start, n);
    ModShift(older, delta, n);
    ModBelow(start, n);
    ModBelow(older, n);
    FillStaysInside(s.ring, n, start % n, c.qpn, s.sqHead, m.inl, m.segs);
    WindowKept(s.ring, s'.ring, n, older % n, start % n, delta, s.log[i].NumWqes(), m.NumWqes());
    DecodeLocal(From(s.ring, older % n), From(s'.ring, older % n), s.log[i].NumWqes());
  }

  lemma PostKeepsCounters(c: Config, s: Tx, m: Msg)
    requires c.Valid() && Sized(c, s) && Counters(c, s)
    requires At(s.log, |s.log|) + m.NumWqes() <= At(s.log, |s.reclaimed|) + c.WqeCnt()
    ensures Counters(c, Post(c, s, m))
  {
    hide Fill, Total, Pow2, Blocks, At;
    AtAppend(s.log, m, |s.log|);
    AtAppend(s.log, m, |s.reclaimed|);
    AtAppend(s.log, m, |s.reports|);
    WrapSum(At(s.log, |s.log|), m.NumWqes());
  }

  lemma PostKeepsDone(c: Config, s: Tx, m: Msg)
    requires Sized(c, s) && |s.reports| <= |s.log| && Done(c, s)
    ensures Done(c, Post(c, s, m))
  {
    hide Fill, Total, Pow2, Blocks, At, Carries;
    var s' := Post(c, s, m);
    forall p | 0 <= p < |s.reports| ensures At(s'.log, p) == At(s.log, p) { AtAppend(s.log, m, p); }
  }

  /** A message may be posted when its mbuf is not already in flight. */
  ghost predicate Fresh(s: Tx, m: Msg) {
    |s.reclaimed| <= |s.log| && forall i :: |s.reclaimed| <= i < |s.log| ==> s.log[i].mbuf != m.mbuf
  }

  lemma PostKeepsInv(c: Config, s: Tx, m: Msg)
    requires Inv(c, s) && m.Valid() && Fresh(s, m)
    requires m.NumWqes() <= Room(c, s)
    ensures Inv(c, Post(c, s, m))
  {
    hide Fill, Total, Pow2, Blocks, At, Carries, Posted, Done, Ring, Room, Inflight;
    var s' := Post(c, s, m);
    InflightExact(c, s);
    PostKeepsCounters(c, s, m);
    PostKeepsDone(c, s, m);
    PostedNew(c, s, m);
    forall i | |s'.reclaimed| <= i < |s'.log| ensures Posted(c, s', i) {
      if i < |s.log| { PostedOld(c, s, m, i); }
    }
  }

  // ----- the device ------------------------------------------------------------------------

  lemma DeviceReads(c: Config, s: Tx)
    requires Inv(c, s) && |s.reports| < |s.log|
    ensures DeviceCompletes(c, s).wire == s.wire + [Decode(From(s.ring, At(s.log, |s.reports|) % c.WqeCnt()))]
    ensures Carries(DeviceCompletes(c, s).wire[|s.reports|], s.log[|s.reports|], At(s.log, |s.reports|), c.WqeCnt())
    ensures Commands(Decode(From(s.ring, At(s.log, |s.reports|) % c.WqeCnt())), c.qpn)
  {
    hide Decode, From, Fits, Total, Pow2, Blocks, At, Carries, Ring;
    assert Posted(c, s, |s.reports|);
    ModBelow(s.devBlock, c.WqeCnt());
  }

  lemma DeviceKeepsInv(c: Config, s: Tx)
    requires Inv(c, s) && |s.reports| < |s.log| && |s.reports| < |s.reclaimed| + c.CqeCnt()
    ensures Inv(c, DeviceCompletes(c, s))
  {
    hide Decode, From, Fits, Total, Pow2, At, Ring, HdrSegs, Produce;
    var s', p := DeviceCompletes(c, s), |s.reports|;
    DeviceReads(c, s);
    AtNext(s.log, p);
    assert s.log[p].Valid();
    ProduceKeepsRing(c.cqeLog, s.cq, s.reports, Report(CQE_REQ, At(s.log, p) % W16, 0));
    forall i | |s'.reclaimed| <= i < |s'.log| ensures Posted(c, s', i) {
      assert Posted(c, s, i);
    }
  }

  // ----- gathering -------------------------------------------------------------------------

  function Mbufs(log: seq<Msg>): (p: seq<Ptr>)
    ensures |p| == |log|
  {
    seq(|log|, i requires 0 <= i < |log| => log[i].mbuf)
  }

  /** The state after the first `g` messages have been handed back. */
  function Reclaimed(s: Tx, g: nat): Tx
    requires g <= |s.log|
  {
    s.(trueCqHead := Wrap32(At(s.log, g)), cqHead := Wrap32(g), reclaimed := Mbufs(s.log)[..g])
  }

  /** Polling finds a completion exactly when one is unread, and takes the oldest message. */
  lemma TakeExact(c: Config, s: Tx)
    requires Inv(c, s)
    ensures Ready(c, s) <==> |s.reclaimed| < |s.reports|
    ensures Ready(c, s) ==> TakeCompletion(c, s) == Reclaimed(s, |s.reclaimed| + 1)
  {
    hide Decode, From, Fits, Total, Pow2, At, Ring, HdrSegs, Carries, Blocks, Status, Slot, And;
    var g := |s.reclaimed|;
    PollExact(c.cqeLog, s.cq, s.reports, g);
    if g < |s.reports| {
      var start := At(s.log, g);
      assert Posted(c, s, g);
      assert s.reports[g] == Report(CQE_REQ, start % W16, 0);
      ReportedIndex(start, c.wqeLog);
      AtNext(s.log, g);
      WrapSum(start, s.log[g].NumWqes());
      WrapSum(g, 1);
      assert Mbufs(s.log)[..g + 1] == Mbufs(s.log)[..g] + [s.log[g].mbuf];
      assert Mbufs(s.log)[..g] == s.reclaimed;
    }
  }

  lemma ReclaimKeepsInv(c: Config, s: Tx, g: nat)
    requires Inv(c, s) && |s.reclaimed| <= g <= |s.reports|
    ensures Inv(c, Reclaimed(s, g))
  {
    hide Decode, From, Fits, Total, Pow2, At, Ring, HdrSegs, Carries, Blocks;
    var s' := Reclaimed(s, g);
    AtMonotone(s.log, |s.reclaimed|, g);
    AtMonotone(s.log, g, |s.log|);
    forall i | g <= i < |s.log| ensures Posted(c, s', i) {
      assert Posted(c, s, i);
    }
  }

  /** mlx5_gather_completions hands back exactly the completed messages it has budget for, oldest
      first, each one once, and changes nothing else. */
  lemma {:induction false} GatherExact(c: Config, s: Tx, budget: nat)
    requires Inv(c, s)
    ensures var g := |s.reclaimed| + Min(budget, |s.reports| - |s.reclaimed|);
            Gather(c, s, budget) == Reclaimed(s, g) && Inv(c, Reclaimed(s, g))
    decreases budget
  {
    hide Posted, Done, Ring, Ready, TakeCompletion, At, Pow2;
    TakeExact(c, s);
    var g := |s.reclaimed| + Min(budget, |s.reports| - |s.reclaimed|);
    ReclaimKeepsInv(c, s, g);
    if budget == 0 || !Ready(c, s) {
      ReclaimNothing(c, s);
    } else {
      ReclaimKeepsInv(c, s, |s.reclaimed| + 1);
      GatherExact(c, Reclaimed(s, |s.reclaimed| + 1), budget - 1);
    }
  }

  /** One round of gathering. */
  lemma GatherRound(c: Config, s: Tx, budget: nat)
    requires Inv(c, s)
    ensures budget == 0 || !Ready(c, s) ==> Gather(c, s, budget) == s
    ensures budget > 0 && Ready(c, s) ==>
      Gather(c, s, budget) == Gather(c, TakeCompletion(c, s), budget - 1) && Inv(c, TakeCompletion(c, s))
  {
    hide Posted, Done, Ring, Ready, TakeCompletion, At, Pow2;
    TakeExact(c, s);
    if Ready(c, s) { ReclaimKeepsInv(c, s, |s.reclaimed| + 1); }
  }

  lemma ReclaimNothing(c: Config, s: Tx)
    requires Inv(c, s)
    ensures Reclaimed(s, |s.reclaimed|) == s
  {
    hide Posted, Done, Ring, At, Pow2;
    assert Mbufs(s.log)[..|s.reclaimed|] == s.reclaimed;
  }

  // ----- mlx5_transmit_one -----------------------------------------------------------------

  /** Messages handed back once up to `budget` finished ones have been gathered. */
  function Gathered(s: Tx, budget: nat): (g: nat)
    ensures g <= |s.log|
  {
    var finished := if |s.reports| > |s.reclaimed| then |s.reports| - |s.reclaimed| else 0;
    Min(|s.log|, |s.reclaimed| + Min(budget, finished))
  }

  /** The messages handed back before `m` is posted: none if its blocks fit beside those in flight, otherwise up to 32. */
  function MadeRoom(c: Config, s: Tx, m: Msg): (g: nat)
    requires |s.reclaimed| <= |s.log|
    ensures g <= |s.log|
  {
    if At(s.log, |s.log|) + m.NumWqes() <= At(s.log, |s.reclaimed|) + c.WqeCnt() then |s.reclaimed| else Gathered(s, 32)
  }

  lemma MakeRoomExact(c: Config, s: Tx, m: Msg)
    requires Inv(c, s)
    ensures var s1 := MakeRoom(c, s, m);
      && Inv(c, s1) && |s.reclaimed| <= |s1.reclaimed| <= |s.reports|
      && |s1.reclaimed| == MadeRoom(c, s, m) && s1 == Reclaimed(s, |s1.reclaimed|)
  {
    hide Posted, Done, Ring, At, Pow2, Gather, Room, Blocks;
    GatherExact(c, s, SQ_CLEAN_MAX);
    ReclaimNothing(c, s);
    InflightExact(c, s);
  }

  lemma CleanAfterExact(c: Config, s: Tx)
    requires Inv(c, s)
    ensures var s1 := CleanAfter(c, s);
      && Inv(c, s1) && |s.reclaimed| <= |s1.reclaimed| <= |s.reports| && s1 == Reclaimed(s, |s1.reclaimed|)
      && |s1.reclaimed| == if At(s.log, |s.log|) - At(s.log, |s.reclaimed|) >= 32 then Gathered(s, 32) else |s.reclaimed|
  {
    hide Posted, Done, Ring, At, Pow2, Gather, Inflight;
    GatherExact(c, s, SQ_CLEAN_MAX);
    ReclaimNothing(c, s);
    InflightExact(c, s);
  }

  /** A transmission is accepted exactly when its blocks fit next to those in flight, at once or
      after reclaiming up to 32 finished messages. */
  lemma SendsExact(c: Config, s: Tx, m: Msg)
    requires Inv(c, s)
    ensures Sends(c, s, m) <==>
      || At(s.log, |s.log|) + m.NumWqes() <= At(s.log, Gathered(s, 0)) + c.WqeCnt()
      || At(s.log, |s.log|) + m.NumWqes() <= At(s.log, Gathered(s, SQ_CLEAN_MAX)) + c.WqeCnt()
  {
    hide Posted, Done, Ring, At, Pow2, Gather, Total, Blocks;
    var g := Gathered(s, SQ_CLEAN_MAX);
    GatherExact(c, s, SQ_CLEAN_MAX);
    InflightExact(c, s);
    InflightExact(c, Reclaimed(s, g));
    AtMonotone(s.log, |s.reclaimed|, g);
  }

  /** Messages handed back when `m` has been posted or refused. */
  ghost function HandedBack(c: Config, s: Tx, m: Msg): nat
    requires Sized(c, s) && |s.reclaimed| <= |s.log|
  {
    var g := MadeRoom(c, s, m);
    if Sends(c, s, m) && At(s.log, |s.log|) + m.NumWqes() - At(s.log, g) >= 32
    then if |s.reports| < g + 32 then |s.reports| else g + 32
    else g
  }

  /** A refused transmission posts nothing; an accepted one appends its message to the log. Finished messages are
      handed back, up to 32 to make room and up to 32 when 32 blocks or more are in flight afterwards. */
  lemma TransmitExact(c: Config, s: Tx, m: Msg)
    requires Inv(c, s) && m.Valid() && Fresh(s, m)
    ensures var s' := Transmit(c, s, m);
      && Inv(c, s')
      && s'.log == (if Sends(c, s, m) then s.log + [m] else s.log)
      && |s.reclaimed| <= |s'.reclaimed| && s'.reports == s.reports && s'.wire == s.wire
      && |s'.reclaimed| == HandedBack(c, s, m)
  {
    hide Posted, Done, Ring, At, Pow2, MakeRoom, CleanAfter, Fill, Room, MadeRoom, Blocks;
    MakeRoomExact(c, s, m);
    var s1 := MakeRoom(c, s, m);
    if Room(c, s1) >= m.NumWqes() {
      PostKeepsInv(c, s1, m);
      CleanAfterExact(c, Post(c, s1, m));
      PostFields(c, s1, m);
      AtAppend(s.log, m, |s.log|);
      AtAppend(s.log, m, |s1.reclaimed|);
    }
  }

  // ----- runs ------------------------------------------------------------------------------

  datatype Step = TransmitOne(m: Msg) | GatherUpTo(budget: nat) | DeviceStep

  /** The caller hands over an mbuf that is not in flight; the device has something to do and
      room in the completion queue. */
  ghost predicate Enabled(c: Config, s: Tx, step: Step) {
    match step
    case TransmitOne(m) => m.Valid() && Fresh(s, m)
    case GatherUpTo(_) => true
    case DeviceStep => |s.reports| < |s.log| && |s.reports| < |s.reclaimed| + c.CqeCnt()
  }

  function Next(c: Config, s: Tx, step: Step): (s': Tx)
    requires Sized(c, s)
    ensures Sized(c, s')
  {
    match step
    case TransmitOne(m) => Transmit(c, s, m)
    case GatherUpTo(budget) => Gather(c, s, budget)
    case DeviceStep => DeviceCompletes(c, s)
  }

  function Run(c: Config, s: Tx, steps: seq<Step>): (s': Tx)
    requires Sized(c, s)
    ensures Sized(c, s')
  {
    if steps == [] then s else Next(c, Run(c, s, steps[..|steps| - 1]), steps[|steps| - 1])
  }

  ghost predicate Legal(c: Config, s: Tx, steps: seq<Step>)
    requires Sized(c, s)
  {
    steps != [] ==>
      Legal(c, s, steps[..|steps| - 1]) && Enabled(c, Run(c, s, steps[..|steps| - 1]), steps[|steps| - 1])
  }

  lemma NextKeepsInv(c: Config, s: Tx, step: Step)
    requires Inv(c, s) && Enabled(c, s, step)
    ensures Inv(c, Next(c, s, step))
    ensures s.log <= Next(c, s, step).log
  {
    hide Posted, Done, Ring, At, Pow2, Gather, Transmit, Decode, Produce, From;
    match step
    case TransmitOne(m) => TransmitExact(c, s, m);
    case GatherUpTo(budget) => GatherExact(c, s, budget);
    case DeviceStep => DeviceKeepsInv(c, s);
  }

  /** Every run from fresh queues, across any number of counter wrap-arounds: the invariant holds,
      the mbufs handed back are the posted ones in posting order, each exactly once, and the wire
      carries the posted messages in order. */
  lemma {:induction false} EveryRun(c: Config, s: Tx, steps: seq<Step>)
    requires Init(c, s) && Legal(c, s, steps)
    ensures var t := Run(c, s, steps);
      && Inv(c, t)
      && t.reclaimed <= Mbufs(t.log)
      && forall p :: 0 <= p < |t.wire| ==> t.wire[p].segs == t.log[p].segs && Commands(t.wire[p], c.qpn)
    decreases |steps|
  {
    hide Posted, Ring, At, Pow2, Next, Enabled;
    if steps == [] {
      InitInv(c, s);
    } else {
      EveryRun(c, s, steps[..|steps| - 1]);
      NextKeepsInv(c, Run(c, s, steps[..|steps| - 1]), steps[|steps| - 1]);
    }
  }

  /** Only the block counts of mbufs in flight matter. */
  lemma NumWqesFrame(c: Config, s: Tx, nw: map<Ptr, nat>)
    requires Inv(c, s)
    requires forall i :: |s.reclaimed| <= i < |s.log| ==>
      s.log[i].mbuf in nw && (s.log[i].mbuf in s.numWqes ==> nw[s.log[i].mbuf] == s.numWqes[s.log[i].mbuf])
    ensures Inv(c, s.(numWqes := nw))
  {
    hide Decode, From, Fits, Total, Pow2, At, Ring, Carries, Blocks;
    var s' := s.(numWqes := nw);
    forall i | |s.reclaimed| <= i < |s.log| ensures Posted(c, s', i) {
      assert Posted(c, s, i);
    }
  }

  // ----- the device always eventually works ------------------------------------------------

  /** What the device can see: blocks it has been told about and not fetched, and a completion
      entry it may overwrite. */
  predicate HasWork(c: Config, s: Tx) {
    Wrap32(s.sqHead - Wrap32(s.devBlock)) != 0 && Wrap32(Wrap32(|s.reports|) - s.cqHead) < c.CqeCnt()
  }

  lemma HasWorkExact(c: Config, s: Tx)
    requires Inv(c, s)
    ensures HasWork(c, s) <==> |s.reports| < |s.log| && |s.reports| < |s.reclaimed| + c.CqeCnt()
  {
    hide Posted, Done, Ring, At, Pow2, Total;
    AtMonotone(s.log, |s.reclaimed|, |s.reports|);
    AtMonotone(s.log, |s.reports|, |s.log|);
    if |s.reports| < |s.log| { assert s.log[|s.reports|].Valid(); }
    PowMonotone(c.wqeLog, 16);
    PowMonotone(c.cqeLog, 15);
    PowConstants();
    WrapDifference(At(s.log, |s.log|), At(s.log, |s.reports|));
    WrapDifference(|s.reports|, |s.reclaimed|);
  }

  /** A refused transmission reclaims something, unless the device still has work to do. */
  lemma RefusedReclaims(c: Config, s: Tx, m: Msg)
    requires Inv(c, s) && m.Valid() && m.NumWqes() <= c.WqeCnt()
    requires !Sends(c, s, m) && !HasWork(c, s)
    ensures |Transmit(c, s, m).reclaimed| > |s.reclaimed|
  {
    hide Posted, Done, Ring, At, Pow2, Gather, Total, Blocks, HasWork;
    HasWorkExact(c, s);
    GatherExact(c, s, SQ_CLEAN_MAX);
    InflightExact(c, s);
  }

  /** The pace of the device: how many steps it tries at each moment. */
  ghost predicate WillWork(pace: nat -> nat, t: nat) { exists u: nat :: t <= u && pace(u) > 0 }

  ghost predicate Fair(pace: nat -> nat) { forall t: nat :: WillWork(pace, t) }

  /** Moments until the device works next. */
  ghost function Wait(pace: nat -> nat, t: nat): (w: nat)
    requires Fair(pace)
  {
    assert WillWork(pace, t);
    var u: nat :| t <= u && pace(u) > 0;
    Idle(pace, t, u)
  }

  ghost function Idle(pace: nat -> nat, t: nat, u: nat): nat
    requires t <= u && pace(u) > 0
    decreases u - t
  {
    if pace(t) > 0 then 0 else 1 + Idle(pace, t + 1, u)
  }

  lemma {:induction false} IdleUnique(pace: nat -> nat, t: nat, u: nat, v: nat)
    requires t <= u && t <= v && pace(u) > 0 && pace(v) > 0
    ensures Idle(pace, t, u) == Idle(pace, t, v)
    decreases u - t
  {
    if pace(t) == 0 { IdleUnique(pace, t + 1, u, v); }
  }

  lemma WaitIs(pace: nat -> nat, t: nat, u: nat)
    requires Fair(pace) && t <= u && pace(u) > 0
    ensures Wait(pace, t) == Idle(pace, t, u)
  {
    assert WillWork(pace, t);
    forall v: nat | t <= v && pace(v) > 0 ensures Idle(pace, t, v) == Idle(pace, t, u) {
      IdleUnique(pace, t, v, u);
    }
  }

  lemma WaitShrinks(pace: nat -> nat, t: nat)
    requires Fair(pace) && pace(t) == 0
    ensures Wait(pace, t + 1) < Wait(pace, t)
  {
    assert WillWork(pace, t);
    var u: nat :| t <= u && pace(u) > 0;
    WaitIs(pace, t, u);
    WaitIs(pace, t + 1, u);
  }

  // ----- which runs keep the inlined header exact ------------------------------------------

  lemma {:induction false} EqualBlocks(log: seq<Msg>, b: nat, i: nat)
    requires i <= |log| && forall j :: 0 <= j < |log| ==> log[j].NumWqes() == b
    ensures At(log, i) == i * b
  {
    if i > 0 {
      EqualBlocks(log, b, i - 1);
      AtNext(log, i - 1);
    }
  }

  /** With an even number of blocks per message no descriptor ever starts in the last block, so
      the device puts exactly the intended header on the wire, for the whole run. */
  lemma EvenBlocksExact(c: Config, s: Tx, b: nat)
    requires Inv(c, s) && c.wqeLog >= 1 && b % 2 == 0
    requires forall j :: 0 <= j < |s.log| ==> s.log[j].NumWqes() == b
    ensures forall p :: 0 <= p < |s.wire| ==> s.wire[p].inlined == s.log[p].inl.Bytes()
  {
    hide Posted, Ring, At, Pow2, Blocks, Carries;
    forall p | 0 <= p < |s.wire| ensures s.wire[p].inlined == s.log[p].inl.Bytes() {
      EqualBlocks(s.log, b, p);
      assert Carries(s.wire[p], s.log[p], At(s.log, p), c.WqeCnt());
      EvenHeader(c.wqeLog, b, p, s.wire[p], s.log[p]);
    }
  }

  lemma EvenHeader(k: nat, b: nat, p: nat, w: Wqe, m: Msg)
    requires k >= 1 && b % 2 == 0 && Carries(w, m, p * b, Pow2(k))
    ensures w.inlined == m.inl.Bytes()
  {
    hide Pow2, HdrSegs;
    EvenStart(k, b, p);
  }

  /** Message `i` of a run with `b` blocks each starts in the last of 2^k blocks. */
  predicate StartsInLast(k: nat, b: nat, i: nat) { (i * b) % Pow2(k) + 1 == Pow2(k) }

  // ----- runs of equal messages ------------------------------------------------------------

  /** A run from fresh queues that posts only messages of `b` blocks. */
  ghost predicate RunOf(c: Config, s: Tx, steps: seq<Step>, b: nat) {
    && Init(c, s) && Legal(c, s, steps)
    && forall j :: 0 <= j < |Run(c, s, steps).log| ==> Run(c, s, steps).log[j].NumWqes() == b
  }

  /** Some descriptor of the run was written at the last block. */
  ghost predicate ReachesLast(c: Config, s: Tx, steps: seq<Step>) {
    && Sized(c, s)
    && exists i :: 0 <= i < |Run(c, s, steps).log| && At(Run(c, s, steps).log, i) % c.WqeCnt() + 1 == c.WqeCnt()
  }

  /** Take any message that fits the ring. Some run of messages of its size writes a descriptor at
      the last block if and only if that size is odd. */
  lemma LastBlockIff(c: Config, m: Msg)
    requires c.Valid() && c.wqeLog >= 1 && m.Valid() && m.NumWqes() <= c.WqeCnt()
    ensures (exists s, steps :: RunOf(c, s, steps, m.NumWqes()) && ReachesLast(c, s, steps)) <==> m.NumWqes() % 2 == 1
  {
    hide Init, Legal, Run, At, Pow2, Blocks;
    var b := m.NumWqes();
    if b % 2 == 0 {
      forall s, steps | RunOf(c, s, steps, b) ensures !ReachesLast(c, s, steps) { EvenAvoids(c, s, steps, b); }
    } else {
      var i := OddRun(c, m);
      var s := FreshQueues(c);
      var steps := Rounds(m, i + 1);
      RoundsRun(c, s, m, i + 1);
      EqualBlocks(Run(c, s, steps).log, b, i);
      assert RunOf(c, s, steps, b) && ReachesLast(c, s, steps);
    }
  }

  lemma EvenAvoids(c: Config, s: Tx, steps: seq<Step>, b: nat)
    requires RunOf(c, s, steps, b) && c.wqeLog >= 1 && b % 2 == 0
    ensures !ReachesLast(c, s, steps)
  {
    hide Legal, Run, At, Pow2, Blocks;
    var log := Run(c, s, steps).log;
    forall i | 0 <= i < |log| ensures At(log, i) % c.WqeCnt() + 1 != c.WqeCnt() {
      EqualBlocks(log, b, i);
      EvenStart(c.wqeLog, b, i);
    }
  }

  /** How many messages of odd size bring the ring to its last block. */
  lemma OddRun(c: Config, m: Msg) returns (i: nat)
    requires m.NumWqes() % 2 == 1
    ensures (i * m.NumWqes()) % c.WqeCnt() + 1 == c.WqeCnt()
  {
    hide Pow2, Blocks;
    var q;
    i, q := OddReachesLast(c.wqeLog, m.NumWqes());
    DivModUnique(i * m.NumWqes(), c.WqeCnt(), q, c.WqeCnt() - 1);
  }

  function FreshQueues(c: Config): (s: Tx)
    ensures c.Valid() ==> Init(c, s)
  {
    Tx(0, 0, 0, seq(c.WqeCnt(), _ => NULL), map[], seq(BLOCK * c.WqeCnt(), _ => 0), seq(c.CqeCnt(), _ => Cqe(0xf1, 0, 0)),
       0, [], [], [], [])
  }

  /** One message sent, completed and gathered at a time. */
  function Rounds(m: Msg, k: nat): seq<Step> {
    if k == 0 then [] else Rounds(m, k - 1) + [TransmitOne(m)] + [DeviceStep] + [GatherUpTo(1)]
  }

  /** Everything posted has been handed back. */
  ghost predicate Quiet(c: Config, s: Tx, m: Msg, k: nat) {
    && Inv(c, s) && |s.log| == |s.reports| == |s.reclaimed| == k
    && forall j :: 0 <= j < k ==> s.log[j] == m
  }

  lemma RunNext(c: Config, s: Tx, steps: seq<Step>, step: Step)
    requires Sized(c, s)
    ensures Run(c, s, steps + [step]) == Next(c, Run(c, s, steps), step)
    ensures Legal(c, s, steps + [step]) <==> Legal(c, s, steps) && Enabled(c, Run(c, s, steps), step)
  {
    hide Next, Enabled;
    assert (steps + [step])[..|steps|] == steps;
  }

  lemma {:induction false} RoundsRun(c: Config, s: Tx, m: Msg, k: nat)
    requires Init(c, s) && m.Valid() && m.NumWqes() <= c.WqeCnt()
    ensures Legal(c, s, Rounds(m, k)) && Quiet(c, Run(c, s, Rounds(m, k)), m, k)
  {
    if k == 0 {
      InitInv(c, s);
    } else {
      hide Next, Enabled, Quiet, Legal, Run, Init, Blocks, Pow2;
      InitSized(c, s);
      RoundsRun(c, s, m, k - 1);
      var steps := Rounds(m, k - 1);
      var t := Run(c, s, steps);
      OneRound(c, t, m, k - 1);
      RunNext(c, s, steps, TransmitOne(m));
      RunNext(c, s, steps + [TransmitOne(m)], DeviceStep);
      RunNext(c, s, steps + [TransmitOne(m)] + [DeviceStep], GatherUpTo(1));
    }
  }

  lemma InitSized(c: Config, s: Tx)
    requires Init(c, s)
    ensures Sized(c, s)
  {
  }

  /** With everything handed back a message is accepted. */
  lemma QuietSends(c: Config, t: Tx, m: Msg, k: nat, m': Msg)
    requires Quiet(c, t, m, k) && m'.Valid() && m'.NumWqes() <= c.WqeCnt()
    ensures Enabled(c, t, TransmitOne(m')) && Sends(c, t, m')
    ensures var u := Transmit(c, t, m');
      && Inv(c, u) && u.log == t.log + [m'] && u.wire == t.wire && |u.reports| == |u.reclaimed| == k < |u.log|
      && Enabled(c, u, DeviceStep)
  {
    hide Posted, Done, Ring, At, Pow2, Transmit, Sends, Blocks;
    SendsExact(c, t, m');
    TransmitExact(c, t, m');
  }

  lemma OneRound(c: Config, t: Tx, m: Msg, k: nat)
    requires Quiet(c, t, m, k) && m.Valid() && m.NumWqes() <= c.WqeCnt()
    ensures Enabled(c, t, TransmitOne(m))
    ensures var u := Next(c, t, TransmitOne(m));
      && Enabled(c, u, DeviceStep) && Enabled(c, Next(c, u, DeviceStep), GatherUpTo(1))
      && Quiet(c, Next(c, Next(c, u, DeviceStep), GatherUpTo(1)), m, k + 1)
  {
    hide Posted, Done, Ring, At, Pow2, Transmit, Gather, DeviceCompletes, Blocks;
    QuietSends(c, t, m, k, m);
    var u := Transmit(c, t, m);
    DeviceKeepsInv(c, u);
    DeviceFields(c, u);
    GatherExact(c, DeviceCompletes(c, u), 1);
  }

  lemma DeviceFields(c: Config, s: Tx)
    requires Inv(c, s) && |s.reports| < |s.log|
    ensures var s' := DeviceCompletes(c, s);
      && s'.log == s.log && s'.reclaimed == s.reclaimed && |s'.reports| == |s.reports| + 1
      && |s'.wire| == |s.wire| + 1 && s'.wire == s.wire + [s'.wire[|s.wire|]]
  {
    hide Decode, From, Produce, At, Ring, Carries, Fits, Pow2;
    DeviceReads(c, s);
    ModBelow(s.devBlock, c.WqeCnt());
  }

  /** `k` copies of a message in different mbufs. */
  function Fillers(m: Msg, k: nat): seq<Step> {
    if k == 0 then [] else Fillers(m, k - 1) + [TransmitOne(m.(mbuf := k % W64))]
  }

  /** Nothing is completed, and messages of one block fill the ring. */
  ghost predicate Piled(c: Config, t: Tx, m: Msg, k: nat) {
    && Inv(c, t) && t.reports == [] && t.reclaimed == [] && |t.log| == k
    && forall i :: 0 <= i < k ==> t.log[i] == m.(mbuf := (i + 1) % W64)
  }

  /** The ring takes up to wqe_cnt messages of one block, if the device does not work. */
  lemma {:induction false} RingFills(c: Config, s: Tx, m: Msg, k: nat)
    requires Init(c, s) && m.Valid() && m.NumWqes() == 1 && k <= c.WqeCnt()
    ensures Legal(c, s, Fillers(m, k)) && Piled(c, Run(c, s, Fillers(m, k)), m, k)
  {
    hide Next, Enabled, Piled, Legal, Run, Init, Blocks, Pow2, Msg.Valid;
    InitSized(c, s);
    if k == 0 {
      PiledNone(c, s, m);
    } else {
      RingFills(c, s, m, k - 1);
      RunNext(c, s, Fillers(m, k - 1), TransmitOne(m.(mbuf := k % W64)));
      PileUp(c, Run(c, s, Fillers(m, k - 1)), m, k);
    }
  }

  lemma PiledNone(c: Config, s: Tx, m: Msg)
    requires Init(c, s)
    ensures Sized(c, s) && Legal(c, s, []) && Piled(c, Run(c, s, []), m, 0)
  {
    hide Posted, Done, Ring, Counters, Pow2;
    InitInv(c, s);
  }

  lemma PileUp(c: Config, t: Tx, m: Msg, k: nat)
    requires 0 < k <= c.WqeCnt() && Piled(c, t, m, k - 1) && m.Valid() && m.NumWqes() == 1
    ensures Enabled(c, t, TransmitOne(m.(mbuf := k % W64))) && Piled(c, Next(c, t, TransmitOne(m.(mbuf := k % W64))), m, k)
  {
    hide Posted, Done, Ring, At, Pow2, Transmit, Sends, Blocks;
    var m' := m.(mbuf := k % W64);
    PowMonotone(c.wqeLog, 16);
    PowConstants();
    EqualBlocks(t.log, 1, k - 1);
    EqualBlocks(t.log, 1, 0);
    SendsExact(c, t, m');
    TransmitExact(c, t, m');
  }

  // ----- when the headers of answers are read as intended ----------------------------------

  /** A run that posts only answers with an inlined header and `n` segments. */
  ghost predicate RunOfAnswers(c: Config, s: Tx, steps: seq<Step>, n: nat) {
    && Init(c, s) && Legal(c, s, steps)
    && forall m :: m in Run(c, s, steps).log ==> m.inl.Header? && |m.segs| == n
  }

  /** The device puts every header on the wire that was to be inlined. */
  ghost predicate HeadersRead(t: Tx) {
    |t.wire| <= |t.log| && forall p :: 0 <= p < |t.wire| ==> t.wire[p].inlined == t.log[p].inl.Bytes()
  }

  /** Answers with `n` segments have their headers read as intended, whatever happens. */
  ghost predicate AlwaysRead(c: Config, n: nat) {
    forall s, steps | RunOfAnswers(c, s, steps, n) :: HeadersRead(Run(c, s, steps))
  }

  /** Answers with an inlined header and `n` segments have their headers read as intended on all
      runs if and only if (n + 1) / 4 is even: n = 1, 2, 7, 8, 9, 10, 15, and so on. */
  lemma SafeSegmentCounts(c: Config, n: nat)
    requires c.Valid() && c.wqeLog >= 1 && 0 < n <= MAX_SCATTERS && Blocks(HEADER_LEN, n) <= c.WqeCnt()
    ensures AlwaysRead(c, n) <==> (n + 1) / 4 % 2 == 0
  {
    hide Init, Legal, HeadersRead, Run, Pow2;
    assert Blocks(HEADER_LEN, n) == 2 + (n + 1) / 4;
    if (n + 1) / 4 % 2 == 0 {
      forall s, steps | RunOfAnswers(c, s, steps, n) ensures Sized(c, s) && HeadersRead(Run(c, s, steps)) {
        EvenAnswers(c, s, steps, n);
      }
    } else {
      var s, steps := OddAnswers(c, n);
    }
  }

  lemma EvenAnswers(c: Config, s: Tx, steps: seq<Step>, n: nat)
    requires RunOfAnswers(c, s, steps, n) && c.wqeLog >= 1 && Blocks(HEADER_LEN, n) % 2 == 0
    ensures Sized(c, s) && HeadersRead(Run(c, s, steps))
  {
    hide Legal, Run, Posted, Ring, At, Pow2;
    EveryRun(c, s, steps);
    var t := Run(c, s, steps);
    forall j | 0 <= j < |t.log| ensures t.log[j].NumWqes() == Blocks(HEADER_LEN, n) {
      assert t.log[j] in t.log;
    }
    EvenBlocksExact(c, t, Blocks(HEADER_LEN, n));
  }

  /** Equal answers up to the last block; the one that starts there has a header byte that differs
      from what is in the first block. */
  lemma OddAnswers(c: Config, n: nat) returns (s: Tx, steps: seq<Step>)
    requires c.Valid() && c.wqeLog >= 1 && 0 < n <= MAX_SCATTERS
    requires Blocks(HEADER_LEN, n) <= c.WqeCnt() && Blocks(HEADER_LEN, n) % 2 == 1
    ensures RunOfAnswers(c, s, steps, n) && !HeadersRead(Run(c, s, steps))
  {
    hide Run, Legal, Init, Quiet, At, Pow2, Transmit, DeviceCompletes, Blocks, Answer, HeadersRead, Rounds, Msg.Valid;
    var m := Answer(n, 0);
    var k := OddRun(c, m);
    s := FreshQueues(c);
    RoundsRun(c, s, m, k);
    InitSized(c, s);
    var t := Run(c, s, Rounds(m, k));
    QuietRing(c, t, m, k);
    var m' := Answer(n, if t.ring[0] == 0 then 1 else 0);
    AnswerByte(n, if t.ring[0] == 0 then 1 else 0);
    steps := Rounds(m, k) + [TransmitOne(m')] + [DeviceStep];
    OneMore(c, s, m, k, m');
    WrongHeader(c, t, m, k, m');
  }

  /** One more message behind `k` equal ones. */
  lemma OneMore(c: Config, s: Tx, m: Msg, k: nat, m': Msg)
    requires Init(c, s) && m.Valid() && m.NumWqes() <= c.WqeCnt() && m'.Valid() && m'.NumWqes() <= c.WqeCnt()
    ensures var steps := Rounds(m, k) + [TransmitOne(m')] + [DeviceStep];
      && Sized(c, s) && Legal(c, s, steps)
      && Run(c, s, steps) == DeviceCompletes(c, Transmit(c, Run(c, s, Rounds(m, k)), m'))
      && forall x :: x in Run(c, s, steps).log ==> x == m || x == m'
  {
    hide Run, Legal, Init, Quiet, At, Pow2, Enabled, Transmit, DeviceCompletes, Blocks, Rounds, Sends, Msg.Valid;
    InitSized(c, s);
    RoundsRun(c, s, m, k);
    var t := Run(c, s, Rounds(m, k));
    QuietSends(c, t, m, k, m');
    DeviceFields(c, Transmit(c, t, m'));
    RunNext(c, s, Rounds(m, k), TransmitOne(m'));
    RunNext(c, s, Rounds(m, k) + [TransmitOne(m')], DeviceStep);
    QuietLog(c, t, m, k);
  }

  /** An answer whose UDP source port starts with the byte `x`. */
  function Answer(n: nat, x: byte): (m: Msg)
    ensures 0 < n <= MAX_SCATTERS ==> m.Valid() && m.inl.Header? && |m.segs| == n && m.NumWqes() == Blocks(HEADER_LEN, n)
  {
    Msg(1, Header(RequestHeader(seq(14, _ => 0), seq(20, _ => 0), [x, 0, 0, 0, 0, 0, 0, 0], seq(8, _ => 0), seq(8, _ => 0))),
        seq(n, _ => Seg(0, 0, 0)))
  }

  lemma QuietRing(c: Config, t: Tx, m: Msg, k: nat)
    requires Quiet(c, t, m, k)
    ensures |t.ring| == BLOCK * c.WqeCnt() && |t.ring| > 0
  {
    hide Posted, Done, Ring, At, Pow2;
  }

  lemma QuietLog(c: Config, t: Tx, m: Msg, k: nat)
    requires Quiet(c, t, m, k)
    ensures forall x :: x in t.log ==> x == m
  {
    hide Inv;
  }

  lemma AnswerByte(n: nat, x: byte)
    requires 0 < n <= MAX_SCATTERS
    ensures Answer(n, x).inl.h.udp[0] == x
  {
  }

  /** The device reads the first block of the ring instead of the header's last pieces. */
  lemma WrongHeader(c: Config, t: Tx, m: Msg, k: nat, m': Msg)
    requires Quiet(c, t, m, k) && m'.Valid() && m'.NumWqes() <= c.WqeCnt() && m'.inl.Header?
    requires c.wqeLog >= 1 && (k * m.NumWqes()) % c.WqeCnt() + 1 == c.WqeCnt()
    requires |t.ring| > 0 && t.ring[0] != m'.inl.h.udp[0]
    ensures !HeadersRead(DeviceCompletes(c, Transmit(c, t, m')))
  {
    hide Posted, Done, Ring, At, Pow2, Transmit, Sends, Decode, From, Fill, Blocks, DeviceCompletes, Enabled;
    QuietSends(c, t, m, k, m');
    EqualBlocks(t.log, m.NumWqes(), k);
    AtAppend(t.log, m', k);
    AcceptedRing(c, t, m');
    LastBlockRead(c, t.ring, m', t.sqHead);
    var u := Transmit(c, t, m');
    DeviceReads(c, u);
    WireSize(c, u);
    DeviceFields(c, u);
    HeaderByte(m'.inl.h);
    assert DeviceCompletes(c, u).wire[k].inlined[34] == t.ring[0];
  }

  lemma WireSize(c: Config, s: Tx)
    requires Inv(c, s)
    ensures |s.wire| == |s.reports| <= |s.log|
  {
    hide Posted, Ring, At, Pow2;
  }

  lemma HeaderByte(h: RequestHeader)
    requires h.Valid()
    ensures h.Bytes()[34] == h.udp[0]
  {
    assert h.Bytes() == h.eth + h.ipv4 + h.udp + (h.packetId + h.checksum);
  }

  /** The ring after an accepted transmission holds the descriptor. */
  lemma AcceptedRing(c: Config, s: Tx, m: Msg)
    requires Inv(c, s) && m.Valid() && Fresh(s, m) && Sends(c, s, m)
    ensures Transmit(c, s, m).ring == Fill(s.ring, At(s.log, |s.log|) % c.WqeCnt(), c.qpn, s.sqHead, m.inl, m.segs)
  {
    hide Posted, Done, Ring, At, Pow2, MakeRoom, CleanAfter, Fill, Room, Blocks;
    MakeRoomExact(c, s, m);
    var s1 := MakeRoom(c, s, m);
    PostKeepsInv(c, s1, m);
    CleanAfterExact(c, Post(c, s1, m));
    NextIndex(c, At(s.log, |s.log|));
  }

  lemma LastBlockRead(c: Config, ring: seq<byte>, m: Msg, sqHead: u32)
    requires c.wqeLog >= 1 && |ring| == BLOCK * c.WqeCnt() && m.Valid() && m.inl.Header? && m.NumWqes() <= c.WqeCnt()
    ensures ReadAtEnd(ring, Fill(ring, c.WqeCnt() - 1, c.qpn, sqHead, m.inl, m.segs), c.WqeCnt())
  {
    hide Picture, Decode, Fill, Blocks, Pow2;
    var n := c.WqeCnt();
    PowMonotone(1, c.wqeLog);
    PowStep(1);
    var v := From(ring, n - 1);
    FillLayout(ring, n, n - 1, c.qpn, sqHead, m.inl, m.segs);
    PictureDecodes(v, true, c.qpn, sqHead, m.inl, m.segs);
    assert v[64..88] == ring[..24];
  }

  /** The first byte of the old ring stands in the header read from the last block of the new one. */
  ghost predicate ReadAtEnd(ring: seq<byte>, ring': seq<byte>, n: nat)
    requires 0 < n && |ring| == |ring'| == BLOCK * n
  {
    var w := Decode(From(ring', n - 1));
    |w.inlined| == HEADER_LEN && w.inlined[34] == ring[0]
  }

  lemma EvenStart(k: nat, b: nat, i: nat)
    requires k >= 1 && b % 2 == 0
    ensures !StartsInLast(k, b, i)
  {
    var h := Pow2(k - 1);
    var x := i * (b / 2);
    assert i * b == 2 * x by { assert b == 2 * (b / 2); }
    Halve(2 * x, h);
  }

  /** An odd block count is invertible modulo the ring size: some early message hits the last
      block. */
  lemma {:induction false} OddReachesLast(k: nat, b: nat) returns (i: nat, q: nat)
    requires b % 2 == 1
    ensures i < Pow2(k) && i * b == Pow2(k) * q + (Pow2(k) - 1)
  {
    if k == 0 {
      i, q := 0, 0;
    } else {
      var j, r := OddReachesLast(k - 1, b);
      i, q := LiftLast(Pow2(k - 1), b, j, r);
    }
  }

  /** From the last block modulo p to the last block modulo 2p. */
  lemma LiftLast(p: nat, b: nat, j: nat, r: nat) returns (i: nat, q: nat)
    requires b % 2 == 1 && j < p && j * b == p * r + (p - 1)
    ensures i < 2 * p && i * b == (2 * p) * q + (2 * p - 1)
  {
    var r' := r;
    i := j;
    if r % 2 == 0 {
      r', i := r + b, j + p;
      AddModulus(p, r, j, b);
    }
    q := r' / 2;
    DoubleModulus(p, r', q, i * b);
  }

  lemma AddModulus(p: nat, r: nat, j: nat, b: nat)
    requires p > 0 && j * b == p * r + (p - 1)
    ensures (j + p) * b == p * (r + b) + (p - 1)
  {
    assert (j + p) * b == j * b + p * b;
    assert p * (r + b) == p * r + p * b;
  }

  lemma DoubleModulus(p: nat, r: nat, q: nat, x: nat)
    requires p > 0 && r == 2 * q + 1 && x == p * r + (p - 1)
    ensures x == (2 * p) * q + (2 * p - 1)
  {
    assert p * r == p * (2 * q) + p;
    assert (2 * p) * q == p * (2 * q);
  }
}
