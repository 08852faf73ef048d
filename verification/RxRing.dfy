/** The receive side (mlx5_rxtx.c, inc/mlx5_rxtx.h): posted buffers, completions taken in order,
    and refilling the slots that were handed up. */
module RxRing {
  import opened Bits
  import opened Memory
  import opened Completion
  import opened PacketBuffers

  datatype Config = Config(wqeLog: nat, cqeLog: nat) {
    predicate Valid() { wqeLog <= 16 && cqeLog <= 15 }
    function WqeCnt(): (n: nat) ensures n > 0 { Pow2(wqeLog) }
    function CqeCnt(): (n: nat) ensures n > 0 { Pow2(cqeLog) }
  }

  datatype Rx = Rx(
    // driver
    consumerIdx: u32, wqHead: u32, buffers: seq<Ptr>,
    // memory shared with the device: descriptor addresses and completion queue
    addrs: seq<Ptr>, cq: seq<Cqe>,
    // device: what it reported, and where it stored each packet
    reports: seq<Report>, dma: seq<Ptr>,
    // history: buffers posted and buffers handed up
    posts: seq<Ptr>, delivered: seq<Ptr>)

  /** wraps_lte: (int32_t)(a - b) <= 0. */
  predicate WrapsLte(a: u32, b: u32) {
    var d := Wrap32(a - b);
    d == 0 || d >= 0x8000_0000
  }

  /** The comparison orders any two counters less than 2^31 apart, whatever their wrap-around. */
  lemma WrapsLteExact(a: nat, b: nat)
    requires a < b + 0x8000_0000 && b <= a + 0x8000_0000
    ensures WrapsLte(Wrap32(a), Wrap32(b)) <==> a <= b
  {
    var q := a / W32 - b / W32;
    if a >= b {
      DivModUnique(Wrap32(a) - Wrap32(b), W32, 0 - q, a - b);
    } else {
      DivModUnique(Wrap32(a) - Wrap32(b), W32, 0 - q - 1, a - b + W32);
    }
  }

  predicate Sized(c: Config, s: Rx) {
    |s.buffers| == |s.addrs| == c.WqeCnt() && |s.cq| == c.CqeCnt()
  }

  predicate Ready(c: Config, s: Rx)
    requires Sized(c, s)
  {
    Status(s.cq[Slot(c.CqeCnt(), s.consumerIdx)], c.CqeCnt(), s.consumerIdx) != CQE_INVALID
  }

  /** One round of the loop in mlx5_gather_rx. */
  function TakePacket(c: Config, s: Rx): (s': Rx)
    requires Sized(c, s)
    ensures Sized(c, s')
  {
    var cqe := s.cq[Slot(c.CqeCnt(), s.consumerIdx)];
    var m := s.buffers[And(cqe.wqeCounter, c.WqeCnt() - 1)];
    s.(consumerIdx := Wrap32(s.consumerIdx + 1), delivered := s.delivered + [m])
  }

  function Collect(c: Config, s: Rx, budget: nat): (s': Rx)
    requires Sized(c, s)
    ensures Sized(c, s')
    decreases budget
  {
    if budget == 0 || !Ready(c, s) then s else Collect(c, TakePacket(c, s), budget - 1)
  }

  /** One round of the loop in mlx5_refill_rxqueue. */
  function RefillOne(c: Config, s: Rx, buf: Ptr): (s': Rx)
    requires Sized(c, s)
    ensures Sized(c, s')
  {
    var index := And(s.wqHead, c.WqeCnt() - 1);
    s.(wqHead := Wrap32(s.wqHead + 1), buffers := s.buffers[index := buf],
       addrs := s.addrs[index := DataAddress(buf)], posts := s.posts + [buf])
  }

  /** Where packet data starts in a receive buffer. */
  function DataAddress(buf: Ptr): Ptr { (buf + RX_BUF_HEAD) % W64 }

  /** Data lie behind the head room of their own buffer. */
  lemma DataBehindHead(buf: Ptr)
    requires buf + 128 < W64
    ensures DataAddress(buf) == buf + 128
  {
    SmallMod(buf + 128, W64);
  }

  function Refill(c: Config, s: Rx, bufs: seq<Ptr>): (s': Rx)
    requires Sized(c, s)
    ensures Sized(c, s')
    decreases |bufs|
  {
    if bufs == [] then s else Refill(c, RefillOne(c, s, bufs[0]), bufs[1..])
  }

  /** The device stores a packet of `len` bytes in the next posted buffer and reports it. */
  function DeviceReceives(c: Config, s: Rx, len: u32): (s': Rx)
    requires Sized(c, s)
    ensures Sized(c, s')
  {
    var p := |s.reports|;
    SlotBelow(p, c.WqeCnt());
    var r := Report(CQE_RESP_SEND, p % W16, len);
    s.(cq := Produce(c.cqeLog, s.cq, p, r), reports := s.reports + [r], dma := s.dma + [s.addrs[p % c.WqeCnt()]])
  }

  lemma SlotBelow(x: nat, n: nat)
    requires n > 0
    ensures 0 <= x % n < n
  {
  }

  // ----- the invariant ---------------------------------------------------------------------

  /** Post number `p` is still in its slot. */
  ghost predicate InSlot(c: Config, s: Rx, p: nat)
    requires Sized(c, s) && p < |s.posts|
  {
    SlotBelow(p, c.WqeCnt());
    s.buffers[p % c.WqeCnt()] == s.posts[p] && s.addrs[p % c.WqeCnt()] == DataAddress(s.posts[p])
  }

  ghost predicate Counters(c: Config, s: Rx) {
    && |s.delivered| <= |s.reports| <= |s.posts| <= |s.delivered| + c.WqeCnt()
    && |s.reports| <= |s.delivered| + c.CqeCnt()
    && s.consumerIdx == Wrap32(|s.delivered|)
    && s.wqHead == Wrap32(|s.posts|)
  }

  ghost predicate Inv(c: Config, s: Rx) {
    && c.Valid() && Sized(c, s) && Counters(c, s)
    && s.delivered == s.posts[..|s.delivered|]
    && (forall p :: |s.delivered| <= p < |s.posts| ==> InSlot(c, s, p))
    && Ring(c.cqeLog, s.cq, s.reports)
    && (forall p :: 0 <= p < |s.reports| ==> s.reports[p].opcode == CQE_RESP_SEND && s.reports[p].wqeCounter == p % W16)
    && |s.dma| == |s.reports|
    && (forall p :: 0 <= p < |s.dma| ==> s.dma[p] == DataAddress(s.posts[p]))
  }

  /** Between calls every slot holds a posted buffer: wq_head - consumer_idx == wqe_cnt. */
  ghost predicate Full(c: Config, s: Rx) { |s.posts| == |s.delivered| + c.WqeCnt() }

  /** mlx5_init_rxq: every descriptor gets a buffer, every completion entry goes to the hardware. */
  ghost predicate Init(c: Config, s: Rx) {
    && c.Valid() && Sized(c, s)
    && s.consumerIdx == 0 && s.wqHead == Wrap32(c.WqeCnt())
    && s.posts == s.buffers
    && (forall i :: 0 <= i < c.WqeCnt() ==> s.addrs[i] == DataAddress(s.buffers[i]))
    && (forall i :: 0 <= i < |s.cq| ==> s.cq[i].opOwn % 2 == 1)
    && s.reports == [] && s.dma == [] && s.delivered == []
  }

  lemma InitInv(c: Config, s: Rx)
    requires Init(c, s)
    ensures Inv(c, s) && Full(c, s)
  {
    hide Pow2;
    Initially(c.cqeLog, s.cq);
    forall p | 0 <= p < |s.posts| ensures InSlot(c, s, p) {
      SmallMod(p, c.WqeCnt());
    }
  }

  /** The difference of the two wrapped counters is the ring size, modulo 2^32. */
  lemma FullDifference(c: Config, s: Rx)
    requires c.Valid() && Counters(c, s) && Full(c, s)
    ensures Wrap32(s.wqHead - s.consumerIdx) == c.WqeCnt()
  {
    hide Pow2;
    PowMonotone(c.wqeLog, 16);
    PowConstants();
    WrapDifference(|s.posts|, |s.delivered|);
  }

  // ----- taking packets --------------------------------------------------------------------

  /** The state after the first `g` posts have been handed up. */
  function HandedUp(s: Rx, g: nat): Rx
    requires g <= |s.posts|
  {
    s.(consumerIdx := Wrap32(g), delivered := s.posts[..g])
  }

  /** A packet is found exactly when one is unread; it is the oldest, and its data is where the
      device stored it. */
  lemma TakeExact(c: Config, s: Rx)
    requires Inv(c, s)
    ensures Ready(c, s) <==> |s.delivered| < |s.reports|
    ensures Ready(c, s) ==>
      && TakePacket(c, s) == HandedUp(s, |s.delivered| + 1)
      && s.cq[Slot(c.CqeCnt(), s.consumerIdx)].byteCnt == s.reports[|s.delivered|].byteCnt
      && s.dma[|s.delivered|] == DataAddress(s.posts[|s.delivered|])
  {
    hide Pow2, Ring, Status, Slot, And, Wrap32, DataAddress;
    var g := |s.delivered|;
    PollExact(c.cqeLog, s.cq, s.reports, g);
    if g < |s.reports| {
      assert InSlot(c, s, g);
      ReportedIndex(g, c.wqeLog);
      WrapSum(g, 1);
    }
  }

  lemma HandedUpKeepsInv(c: Config, s: Rx, g: nat)
    requires Inv(c, s) && |s.delivered| <= g <= |s.reports|
    ensures Inv(c, HandedUp(s, g))
  {
    hide Pow2, Ring;
    forall p | g <= p < |s.posts| ensures InSlot(c, HandedUp(s, g), p) {
      assert InSlot(c, s, p);
    }
  }

  /** mlx5_gather_rx hands up exactly the unread packets it has budget for, in arrival order. */
  lemma {:induction false} CollectExact(c: Config, s: Rx, budget: nat)
    requires Inv(c, s)
    ensures var g := |s.delivered| + Min(budget, |s.reports| - |s.delivered|);
            Collect(c, s, budget) == HandedUp(s, g) && Inv(c, HandedUp(s, g))
    decreases budget
  {
    hide Pow2, Ring, Ready, TakePacket, InSlot;
    TakeExact(c, s);
    HandedUpKeepsInv(c, s, |s.delivered| + Min(budget, |s.reports| - |s.delivered|));
    if budget > 0 && Ready(c, s) {
      HandedUpKeepsInv(c, s, |s.delivered| + 1);
      CollectExact(c, HandedUp(s, |s.delivered| + 1), budget - 1);
    }
  }

  /** One round of taking packets. */
  lemma CollectRound(c: Config, s: Rx, budget: nat)
    requires Inv(c, s)
    ensures Sized(c, s)
    ensures Ready(c, s) <==> |s.delivered| < |s.reports|
    ensures budget == 0 || !Ready(c, s) ==> Collect(c, s, budget) == s
    ensures budget > 0 && Ready(c, s) ==>
      Collect(c, s, budget) == Collect(c, TakePacket(c, s), budget - 1) && Inv(c, TakePacket(c, s))
  {
    hide InSlot, Ring, Ready, TakePacket, Pow2;
    TakeExact(c, s);
    if Ready(c, s) { HandedUpKeepsInv(c, s, |s.delivered| + 1); }
  }

  // ----- refilling -------------------------------------------------------------------------

  /** A refill writes only a slot whose buffer was handed up: never one the device still owns. */
  lemma RefillSparesPosted(c: Config, s: Rx, p: nat)
    requires c.Valid() && Counters(c, s) && |s.posts| < |s.delivered| + c.WqeCnt()
    requires |s.delivered| <= p < |s.posts|
    ensures p % c.WqeCnt() != And(s.wqHead, c.WqeCnt() - 1)
  {
    hide Pow2;
    CounterIndex(|s.posts|, c.wqeLog);
    DistinctSlots(p, |s.posts|, c.WqeCnt());
  }

  lemma RefillOneKeepsInv(c: Config, s: Rx, buf: Ptr)
    requires Inv(c, s) && |s.posts| < |s.delivered| + c.WqeCnt()
    ensures Inv(c, RefillOne(c, s, buf))
  {
    hide Pow2, Ring, And, Wrap32, DataAddress;
    var s' := RefillOne(c, s, buf);
    CounterIndex(|s.posts|, c.wqeLog);
    WrapSum(|s.posts|, 1);
    forall p | |s'.delivered| <= p < |s'.posts| ensures InSlot(c, s', p) {
      SlotBelow(p, c.WqeCnt());
      if p < |s.posts| {
        assert InSlot(c, s, p);
        RefillSparesPosted(c, s, p);
      }
    }
  }

  lemma {:induction false} RefillKeepsInv(c: Config, s: Rx, bufs: seq<Ptr>)
    requires Inv(c, s) && |s.posts| + |bufs| <= |s.delivered| + c.WqeCnt()
    ensures Inv(c, Refill(c, s, bufs))
    ensures Refill(c, s, bufs).posts == s.posts + bufs
    ensures Refill(c, s, bufs).delivered == s.delivered && Refill(c, s, bufs).reports == s.reports
    decreases |bufs|
  {
    hide Pow2, Ring, InSlot, And;
    if bufs != [] {
      RefillOneKeepsInv(c, s, bufs[0]);
      RefillKeepsInv(c, RefillOne(c, s, bufs[0]), bufs[1..]);
      assert s.posts + [bufs[0]] + bufs[1..] == s.posts + bufs;
    } else {
      assert s.posts + bufs == s.posts;
    }
  }

  lemma RefillNothing(c: Config, s: Rx)
    requires Sized(c, s)
    ensures Refill(c, s, []) == s
  {
  }

  lemma {:induction false} RefillAppend(c: Config, s: Rx, bufs: seq<Ptr>, b: Ptr)
    requires Sized(c, s)
    ensures Refill(c, s, bufs + [b]) == RefillOne(c, Refill(c, s, bufs), b)
    decreases |bufs|
  {
    hide RefillOne;
    if bufs != [] {
      RefillAppend(c, RefillOne(c, s, bufs[0]), bufs[1..], b);
      assert (bufs + [b])[1..] == bufs[1..] + [b];
    }
  }

  // ----- mlx5_gather_rx --------------------------------------------------------------------

  /** Number of packets one call hands up. */
  function Count(s: Rx, budget: nat): nat {
    if |s.reports| > |s.delivered| then Min(budget, |s.reports| - |s.delivered|) else 0
  }

  function GatherRx(c: Config, s: Rx, budget: nat, bufs: seq<Ptr>): (s': Rx)
    requires Sized(c, s)
    ensures Sized(c, s')
  {
    Refill(c, Collect(c, s, budget), bufs)
  }

  /** One call with as many fresh buffers as packets: the ring is full again, and the packets are
      the next ones in arrival order. */
  lemma GatherRxExact(c: Config, s: Rx, budget: nat, bufs: seq<Ptr>)
    requires Inv(c, s) && Full(c, s) && |bufs| == Count(s, budget)
    ensures var s' := GatherRx(c, s, budget, bufs);
      && Inv(c, s') && Full(c, s')
      && s'.delivered == s.posts[..|s.delivered| + |bufs|]
      && s'.posts == s.posts + bufs
  {
    hide Pow2, Ring, InSlot, Collect, Refill, Wrap32;
    CollectExact(c, s, budget);
    RefillKeepsInv(c, HandedUp(s, |s.delivered| + |bufs|), bufs);
  }

  /** The assertion in mlx5_refill_rxqueue holds on every call of mlx5_gather_rx. */
  lemma RefillAssertionHolds(c: Config, s: Rx, budget: nat)
    requires Inv(c, s) && Full(c, s)
    ensures var t := Collect(c, s, budget);
            WrapsLte(Wrap32(Count(s, budget) + t.wqHead), Wrap32(t.consumerIdx + c.WqeCnt()))
  {
    hide Pow2, Ring, InSlot, Collect, Wrap32, WrapsLte;
    CollectExact(c, s, budget);
    var n := Count(s, budget);
    var g := |s.delivered| + n;
    assert n + |s.posts| == g + c.WqeCnt();
    WrapSum(|s.posts|, n);
    WrapSum(g, c.WqeCnt());
    WrapsLteExact(n + |s.posts|, g + c.WqeCnt());
  }

  // ----- runs ------------------------------------------------------------------------------

  datatype Step = Poll(budget: nat, bufs: seq<Ptr>) | Packet(len: u32)

  ghost predicate Enabled(c: Config, s: Rx, step: Step) {
    match step
    case Poll(budget, bufs) => |bufs| == Count(s, budget)
    case Packet(_) => |s.reports| < |s.posts| && |s.reports| < |s.delivered| + c.CqeCnt()
  }

  function Next(c: Config, s: Rx, step: Step): (s': Rx)
    requires Sized(c, s)
    ensures Sized(c, s')
  {
    match step
    case Poll(budget, bufs) => GatherRx(c, s, budget, bufs)
    case Packet(len) => DeviceReceives(c, s, len)
  }

  lemma DeviceKeepsInv(c: Config, s: Rx, len: u32)
    requires Inv(c, s) && Full(c, s) && Enabled(c, s, Packet(len))
    ensures Inv(c, DeviceReceives(c, s, len)) && Full(c, DeviceReceives(c, s, len))
  {
    hide Pow2, Ring, Produce;
    var s', p := DeviceReceives(c, s, len), |s.reports|;
    ProduceKeepsRing(c.cqeLog, s.cq, s.reports, Report(CQE_RESP_SEND, p % W16, len));
    assert InSlot(c, s, p);
    forall p | |s'.delivered| <= p < |s'.posts| ensures InSlot(c, s', p) {
      assert InSlot(c, s, p);
    }
  }

  function Run(c: Config, s: Rx, steps: seq<Step>): (s': Rx)
    requires Sized(c, s)
    ensures Sized(c, s')
  {
    if steps == [] then s else Next(c, Run(c, s, steps[..|steps| - 1]), steps[|steps| - 1])
  }

  ghost predicate Legal(c: Config, s: Rx, steps: seq<Step>)
    requires Sized(c, s)
  {
    steps != [] ==>
      Legal(c, s, steps[..|steps| - 1]) && Enabled(c, Run(c, s, steps[..|steps| - 1]), steps[|steps| - 1])
  }

  /** A run is its steps one after the other. */
  lemma RunSteps(c: Config, s: Rx, steps: seq<Step>, step: Step)
    requires Sized(c, s)
    ensures Run(c, s, []) == s && Run(c, s, steps + [step]) == Next(c, Run(c, s, steps), step)
    ensures Legal(c, s, []) && (Legal(c, s, steps + [step]) <==> Legal(c, s, steps) && Enabled(c, Run(c, s, steps), step))
  {
    hide Next, Enabled;
    assert (steps + [step])[..|steps|] == steps;
  }

  /** On every run the ring is full between calls, and the buffers handed up are the posted ones in
      order, each exactly once. */
  lemma {:induction false} EveryRun(c: Config, s: Rx, steps: seq<Step>)
    requires Init(c, s) && Legal(c, s, steps)
    ensures var t := Run(c, s, steps);
      Inv(c, t) && Full(c, t) && t.delivered <= t.posts && Wrap32(t.wqHead - t.consumerIdx) == c.WqeCnt()
    decreases |steps|
  {
    hide Pow2, Ring, InSlot, Next;
    if steps == [] {
      InitInv(c, s);
    } else {
      var t := Run(c, s, steps[..|steps| - 1]);
      EveryRun(c, s, steps[..|steps| - 1]);
      StepKeepsInv(c, t, steps[|steps| - 1]);
    }
    FullDifference(c, Run(c, s, steps));
  }

  lemma StepKeepsInv(c: Config, t: Rx, step: Step)
    requires Inv(c, t) && Full(c, t) && Enabled(c, t, step)
    ensures Inv(c, Next(c, t, step)) && Full(c, Next(c, t, step))
  {
    hide Pow2, Ring, InSlot, GatherRx, DeviceReceives;
    match step
    case Poll(budget, bufs) => GatherRxExact(c, t, budget, bufs);
    case Packet(len) => DeviceKeepsInv(c, t, len);
  }
}
