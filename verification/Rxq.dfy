/** The receive queue object (struct mlx5_rxq) and its operations in place, each tied to the state
    machine of RxRing. */
module RxQueue {
  import opened Bits
  import opened Memory
  import opened Completion
  import opened PacketBuffers
  import opened Pools
  import R = RxRing

  const ENOMEM := 12

  /** mbuf_fill_cqe: the mbuf sits at the start of its own buffer. */
  function FillCqe(m: Mbuf, p: Ptr, byteCnt: u32): Mbuf {
    m.(head := p, data := R.DataAddress(p), len := byteCnt, release := RxBuf)
  }

  /** What handing up `ms` and posting `bufs` of `len` bytes does to the mbuf structures. */
  ghost predicate HeapAfter(h: Heap, h': Heap, ms: seq<Ptr>, bufs: seq<Ptr>, len: u32) {
    && (forall p :: p in h' <==> p in h || p in ms || p in bufs)
    && (forall p :: p in ms ==> h'[p].head == p && h'[p].data == R.DataAddress(p) && h'[p].release == RxBuf)
    && (forall p :: p in ms && p !in bufs && p in h ==> h'[p].headLen == h[p].headLen)
    && (forall p :: p in bufs ==> h'[p].headLen == len)
    && (forall p :: p in h && p !in ms ==> h'[p].(headLen := h[p].headLen) == h[p])
    && (forall p :: p in h && p !in ms && p !in bufs ==> h'[p] == h[p])
  }

  /** Each packet's mbuf records the length that its completion reports, `ms[0]` being number `first`. An
      mbuf that comes up twice records the later one. */
  ghost predicate LengthsRead(h: Heap, ms: seq<Ptr>, reports: seq<Report>, first: nat) {
    && first + |ms| <= |reports|
    && forall i :: 0 <= i < |ms| && Last(ms, i) ==> ms[i] in h && h[ms[i]].len == reports[first + i].byteCnt
  }

  ghost predicate Last(ms: seq<Ptr>, i: nat)
    requires i < |ms|
  {
    forall j :: i < j < |ms| ==> ms[j] != ms[i]
  }

  class Rxq {
    const cfg: R.Config
    const buffers: array<Ptr>
    const addrs: array<Ptr>
    const cq: array<Cqe>
    var consumerIdx: u32
    var wqHead: u32
    // the device behind the queue
    var reports: seq<Report>
    var dma: seq<Ptr>
    // history
    ghost var posts: seq<Ptr>
    ghost var delivered: seq<Ptr>

    ghost function View(): R.Rx
      reads this, buffers, addrs, cq
    {
      R.Rx(consumerIdx, wqHead, buffers[..], addrs[..], cq[..], reports, dma, posts, delivered)
    }

    ghost predicate Separate()
      reads this
    {
      && buffers != addrs && buffers as object != cq && addrs as object != cq
      && cfg.Valid() && buffers.Length == addrs.Length == cfg.WqeCnt() && cq.Length == cfg.CqeCnt()
    }

    ghost predicate Valid()
      reads this, buffers, addrs, cq
    {
      Separate() && R.Inv(cfg, View())
    }

    /** The rings before initialisation. */
    constructor (cfg: R.Config)
      requires cfg.Valid()
      ensures this.cfg == cfg && Separate() && consumerIdx == 0 && wqHead == 0
      ensures reports == [] && dma == [] && posts == [] && delivered == []
      ensures fresh(buffers) && fresh(addrs) && fresh(cq)
    {
      this.cfg := cfg;
      buffers := new Ptr[cfg.WqeCnt()](_ => NULL);
      addrs := new Ptr[cfg.WqeCnt()](_ => 0);
      cq := new Cqe[cfg.CqeCnt()](_ => Cqe(0xf0, 0, 0));
      consumerIdx, wqHead := 0, 0;
      reports, dma := [], [];
      posts, delivered := [], [];
    }

    ghost predicate Apart(pool: Mempool)
      reads this, pool
    {
      pool.freeItems != buffers && pool.freeItems != addrs && pool.freeItems as object != cq
    }

    /** mlx5_init_rxq: one buffer per descriptor, and all completion entries to the hardware. */
    method InitRings(pool: Mempool, mem: MbufStore) returns (ret: int)
      requires Separate() && consumerIdx == 0 && wqHead == 0 && reports == [] && dma == [] && posts == [] && delivered == []
      requires pool.Valid() && Apart(pool) && pool.itemLen < W32 && NULL !in pool.Free()
      modifies this`wqHead, this`posts, buffers, addrs, cq, pool`used, mem
      ensures pool.Valid() && (ret == 0 || ret == -ENOMEM)
      ensures ret == 0 <==> |old(pool.Free())| >= cfg.WqeCnt()
      ensures ret == 0 ==>
        && Valid() && R.Full(cfg, View())
        && posts == old(pool.Free())[..cfg.WqeCnt()] && pool.Free() == old(pool.Free())[cfg.WqeCnt()..]
        && HeapAfter(old(mem.m), mem.m, [], posts, pool.itemLen)
    {
      hide HeapAfter;
      ret := FillSlots(pool, mem);
      if ret == 0 {
        HandToHardware();
        R.InitInv(cfg, View());
      }
    }

    method FillSlots(pool: Mempool, mem: MbufStore) returns (ret: int)
      requires Separate() && wqHead == 0 && posts == []
      requires pool.Valid() && Apart(pool) && pool.itemLen < W32 && NULL !in pool.Free()
      modifies this`wqHead, this`posts, buffers, addrs, pool`used, mem
      ensures pool.Valid() && (ret == 0 || ret == -ENOMEM)
      ensures ret == 0 <==> |old(pool.Free())| >= cfg.WqeCnt()
      ensures ret == 0 ==>
        && posts == old(pool.Free())[..cfg.WqeCnt()] && pool.Free() == old(pool.Free())[cfg.WqeCnt()..]
        && wqHead == Wrap32(cfg.WqeCnt()) && buffers[..] == posts && HeapAfter(old(mem.m), mem.m, [], posts, pool.itemLen)
        && forall k :: 0 <= k < addrs.Length ==> addrs[k] == R.DataAddress(buffers[k])
    {
      hide Pow2, Wrap32, R.DataAddress, MbufAt, HeapAfter;
      ghost var free, h := pool.Free(), mem.m;
      WrapSum(0, 0);
      HeapSame(h, pool.itemLen);
      for i := 0 to buffers.Length
        invariant pool.Valid() && |posts| == i && free == posts + pool.Free()
        invariant wqHead == Wrap32(i)
        invariant buffers[..i] == posts && HeapAfter(h, mem.m, [], posts, pool.itemLen)
        invariant forall k :: 0 <= k < i ==> addrs[k] == R.DataAddress(buffers[k])
      {
        ghost var left, h1 := pool.Free(), mem.m;
        var buf := FillSlot(i, pool, mem);
        if buf == NULL {
          return -ENOMEM;
        }
        HeapPost(h, h1, mem.m, posts, buf, pool.itemLen);
        Shift(free, posts, left, buf, pool.Free());
        WrapSum(i, 1);
        posts := posts + [buf];
      }
      ret := 0;
    }

    /** One round of the loop that fills the ring. */
    method FillSlot(i: nat, pool: Mempool, mem: MbufStore) returns (buf: Ptr)
      requires Separate() && i < buffers.Length
      requires pool.Valid() && Apart(pool) && pool.itemLen < W32 && NULL !in pool.Free()
      modifies this`wqHead, buffers, addrs, pool`used, mem
      ensures pool.Valid() && (buf == NULL <==> old(pool.Free()) == [])
      ensures buf != NULL ==>
        && old(pool.Free()) == [buf] + pool.Free() && wqHead == Wrap32(old(wqHead) + 1)
        && mem.m == old(mem.m)[buf := old(MbufAt(mem.m, buf)).(headLen := pool.itemLen)]
        && buffers[..] == old(buffers[..])[i := buf] && addrs[..] == old(addrs[..])[i := R.DataAddress(buf)]
    {
      hide Pow2, Wrap32, R.DataAddress, MbufAt;
      buf := pool.Alloc();
      if buf == NULL {
        return;
      }
      mem.m := mem.m[buf := MbufAt(mem.m, buf).(headLen := pool.itemLen)];
      addrs[i] := R.DataAddress(buf);
      buffers[i] := buf;
      wqHead := Wrap32(wqHead + 1);
    }

    method HandToHardware()
      requires Separate()
      modifies cq
      ensures forall k :: 0 <= k < cq.Length ==> cq[k].opOwn % 2 == 1
    {
      for i := 0 to cq.Length
        invariant forall k :: 0 <= k < i ==> cq[k].opOwn % 2 == 1
      {
        cq[i] := cq[i].(opOwn := cq[i].opOwn / 2 * 2 + 1);
      }
    }

    /** mlx5_refill_rxqueue: runs out exactly when the pool holds fewer buffers than descriptors are asked for. Those
        it has are posted before. (The driver sets head_len before it looks whether there was a buffer.) */
    method Refill(nrdesc: nat, pool: Mempool, mem: MbufStore) returns (ret: int)
      requires Valid() && pool.Valid() && Apart(pool) && pool.itemLen < W32 && NULL !in pool.Free()
      requires |posts| + nrdesc <= |delivered| + cfg.WqeCnt()
      modifies this`wqHead, this`posts, buffers, addrs, pool`used, mem
      ensures Valid() && pool.Valid() && ret == if nrdesc <= |old(pool.Free())| then 0 else -ENOMEM
      ensures var n := Min(nrdesc, |old(pool.Free())|);
        && View() == R.Refill(cfg, old(View()), old(pool.Free())[..n])
        && pool.Free() == old(pool.Free())[n..]
        && HeapAfter(old(mem.m), mem.m, [], old(pool.Free())[..n], pool.itemLen)
    {
      hide Pow2, R.Inv, R.RefillOne, HeapAfter, R.Refill, Wrap32;
      R.RefillNothing(cfg, View());
      ghost var s0, free, h := View(), pool.Free(), mem.m;
      ghost var bufs: seq<Ptr> := [];
      HeapSame(h, pool.itemLen);
      Lengths();
      for i := 0 to nrdesc
        invariant Valid() && pool.Valid() && |bufs| == i <= |free| && free == bufs + pool.Free()
        invariant |posts| == |s0.posts| + i && delivered == s0.delivered
        invariant View() == R.Refill(cfg, s0, bufs)
        invariant HeapAfter(h, mem.m, [], bufs, pool.itemLen)
      {
        ghost var left, h1 := pool.Free(), mem.m;
        var buf := RefillSlot(pool, mem);
        if buf == NULL {
          assert bufs == free[..i] && pool.Free() == free[i..];
          return -ENOMEM;
        }
        Shift(free, bufs, left, buf, pool.Free());
        HeapPost(h, h1, mem.m, bufs, buf, pool.itemLen);
        R.RefillAppend(cfg, s0, bufs, buf);
        bufs := bufs + [buf];
      }
      assert bufs == free[..nrdesc];
      ret := 0;
    }

    lemma Lengths()
      requires Valid()
      ensures R.Sized(cfg, View())
    {
    }

    /** One round of the loop in mlx5_refill_rxqueue. Without a free buffer nothing is posted. */
    method RefillSlot(pool: Mempool, mem: MbufStore) returns (buf: Ptr)
      requires Valid() && pool.Valid() && Apart(pool) && pool.itemLen < W32 && NULL !in pool.Free()
      requires |posts| < |delivered| + cfg.WqeCnt()
      modifies this`wqHead, this`posts, buffers, addrs, pool`used, mem
      ensures Valid() && pool.Valid() && (buf == NULL <==> old(pool.Free()) == [])
      ensures buf == NULL ==> View() == old(View()) && pool.Free() == [] && mem.m == old(mem.m)
      ensures buf != NULL ==>
        && |posts| == |old(posts)| + 1 && View() == R.RefillOne(cfg, old(View()), buf)
        && old(pool.Free()) == [buf] + pool.Free()
        && mem.m == old(mem.m)[buf := old(MbufAt(mem.m, buf)).(headLen := pool.itemLen)]
    {
      hide Pow2, R.Inv, R.RefillOne, MbufAt;
      buf := pool.Alloc();
      if buf == NULL {
        return;
      }
      mem.m := mem.m[buf := MbufAt(mem.m, buf).(headLen := pool.itemLen)];
      PostBuffer(buf);
    }

    /** Writing one descriptor. */
    method PostBuffer(buf: Ptr)
      requires Valid() && |posts| < |delivered| + cfg.WqeCnt()
      modifies this`wqHead, this`posts, buffers, addrs
      ensures Valid() && |posts| == |old(posts)| + 1
      ensures View() == R.RefillOne(cfg, old(View()), buf)
    {
      hide Pow2, R.Inv, Wrap32, And;
      ghost var s := View();
      R.RefillOneKeepsInv(cfg, s, buf);
      var index := And(wqHead, buffers.Length - 1);
      wqHead := Wrap32(wqHead + 1);
      addrs[index] := R.DataAddress(buf);
      buffers[index] := buf;
      posts := posts + [buf];
      assert View() == R.RefillOne(cfg, s, buf);
    }

    /** mlx5_gather_rx: take what has arrived, then post as many fresh buffers. It panics exactly when the pool
        holds fewer. */
    method GatherRx(budget: nat, pool: Mempool, mem: MbufStore) returns (ok: bool, ms: seq<Ptr>)
      requires Valid() && R.Full(cfg, View())
      requires pool.Valid() && Apart(pool) && pool.itemLen < W32 && NULL !in pool.Free()
      modifies this`consumerIdx, this`delivered, this`wqHead, this`posts, buffers, addrs, pool`used, mem
      ensures Valid() && pool.Valid() && (ok <==> R.Count(old(View()), budget) <= |old(pool.Free())|)
      ensures |ms| == R.Count(old(View()), budget) && delivered == old(delivered) + ms && delivered <= old(posts)
      ensures reports == old(reports) && LengthsRead(mem.m, ms, reports, |old(delivered)|)
      ensures ok ==>
        && R.Full(cfg, View())
        && View() == R.GatherRx(cfg, old(View()), budget, old(pool.Free())[..|ms|])
        && pool.Free() == old(pool.Free())[|ms|..]
        && posts == old(posts) + old(pool.Free())[..|ms|]
        && HeapAfter(old(mem.m), mem.m, ms, old(pool.Free())[..|ms|], pool.itemLen)
    {
      hide Pow2, R.Inv, R.Collect, R.Refill, HeapAfter, LengthsRead;
      ghost var s0, h, free := View(), mem.m, pool.Free();
      R.CollectExact(cfg, s0, budget);
      CountFits();
      ms := Take(budget, mem);
      ok := true;
      ghost var h1 := mem.m;
      if |ms| == 0 {
        R.GatherRxExact(cfg, s0, budget, []);
        assert free[..0] == [] && free[0..] == free;
        HeapSame(h1, pool.itemLen);
        HeapBoth(h, h1, h1, ms, [], pool.itemLen);
        EmptyRefill(budget, s0);
        return;
      }
      var ret := Refill(|ms|, pool, mem);
      ok := ret == 0;
      CountFits();
      ghost var bufs := free[..Min(|ms|, |free|)];
      LengthsKept(h1, mem.m, ms, bufs, reports, |s0.delivered|, pool.itemLen);
      if ok {
        R.GatherRxExact(cfg, s0, budget, free[..|ms|]);
        HeapBoth(h, h1, mem.m, ms, free[..|ms|], pool.itemLen);
      } else {
        R.RefillKeepsInv(cfg, R.Collect(cfg, s0, budget), bufs);
      }
    }

    lemma CountFits()
      requires Valid()
      ensures |delivered| <= |reports| <= |posts| && delivered == posts[..|delivered|]
    {
    }

    lemma EmptyRefill(budget: nat, s: R.Rx)
      requires R.Sized(cfg, s)
      ensures R.GatherRx(cfg, s, budget, []) == R.Collect(cfg, s, budget)
    {
    }

    /** The loop of mlx5_gather_rx. */
    method Take(budget: nat, mem: MbufStore) returns (ms: seq<Ptr>)
      requires Valid()
      modifies this`consumerIdx, this`delivered, mem
      ensures Valid() && |ms| == R.Count(old(View()), budget)
      ensures View() == R.Collect(cfg, old(View()), budget)
      ensures delivered == old(delivered) + ms
      ensures HeapAfter(old(mem.m), mem.m, ms, [], 0)
      ensures LengthsRead(mem.m, ms, reports, |old(delivered)|)
    {
      hide Pow2, R.Inv, R.Collect, Status, Slot, And, Wrap32, HeapAfter, LengthsRead, FillCqe, MbufAt;
      HeapSame(mem.m, 0);
      NoLengths(mem.m, reports, |delivered|);
      ghost var s0, h := View(), mem.m;
      R.CollectExact(cfg, s0, budget);
      CountFits();
      ms := [];
      var rxCnt := 0;
      while rxCnt < budget
        invariant rxCnt <= budget && Valid() && |ms| == rxCnt
        invariant R.Collect(cfg, View(), budget - rxCnt) == R.Collect(cfg, s0, budget)
        invariant delivered == s0.delivered + ms && posts == s0.posts && reports == s0.reports
        invariant HeapAfter(h, mem.m, ms, [], 0) && LengthsRead(mem.m, ms, reports, |s0.delivered|)
        decreases budget - rxCnt
      {
        ghost var s := View();
        R.TakeExact(cfg, s);
        R.CollectRound(cfg, s, budget - rxCnt);
        var cqe := cq[Slot(cq.Length, consumerIdx)];
        var opcode := Status(cqe, cq.Length, consumerIdx);
        if opcode == CQE_INVALID {
          CountFits();
          return;
        }
        var wqeIdx := And(cqe.wqeCounter, buffers.Length - 1);
        var m := buffers[wqeIdx];
        ghost var h1 := mem.m;
        mem.m := mem.m[m := FillCqe(MbufAt(mem.m, m), m, cqe.byteCnt)];
        PacketTaken(h, h1, mem.m, ms, m, reports, |s0.delivered|);
        ms := ms + [m];
        consumerIdx := Wrap32(consumerIdx + 1);
        delivered := delivered + [m];
        rxCnt := rxCnt + 1;
        assert View() == R.TakePacket(cfg, s);
      }
      R.CollectRound(cfg, View(), 0);
      CountFits();
    }

    /** The device stores a packet and reports it. */
    method DeviceReceive(len: u32)
      requires Valid() && R.Full(cfg, View()) && R.Enabled(cfg, View(), R.Packet(len))
      modifies this`reports, this`dma, cq
      ensures Valid() && R.Full(cfg, View())
      ensures View() == R.DeviceReceives(cfg, old(View()), len)
    {
      hide Pow2, R.Inv;
      ghost var s := View();
      var p := |reports|;
      R.SlotBelow(p, buffers.Length);
      R.SlotBelow(p, cq.Length);
      var r := Report(CQE_RESP_SEND, p % W16, len);
      cq[p % cq.Length] := Entry(cfg.cqeLog, p, r);
      reports := reports + [r];
      dma := dma + [addrs[p % buffers.Length]];
      assert View() == R.DeviceReceives(cfg, s, len);
      R.DeviceKeepsInv(cfg, s, len);
    }
  }

  /** The next free item moves to the ones taken. */
  lemma Shift(all: seq<Ptr>, taken: seq<Ptr>, left: seq<Ptr>, x: Ptr, rest: seq<Ptr>)
    requires all == taken + left && left == [x] + rest
    ensures all == taken + [x] + rest
  {
  }

  lemma HeapSame(h: Heap, len: u32)
    ensures HeapAfter(h, h, [], [], len)
  {
  }

  lemma HeapPost(h: Heap, h1: Heap, h2: Heap, bufs: seq<Ptr>, buf: Ptr, len: u32)
    requires HeapAfter(h, h1, [], bufs, len) && h2 == h1[buf := MbufAt(h1, buf).(headLen := len)]
    ensures HeapAfter(h, h2, [], bufs + [buf], len)
  {
  }

  lemma HeapTake(h: Heap, h1: Heap, h2: Heap, ms: seq<Ptr>, m: Ptr)
    requires HeapAfter(h, h1, ms, [], 0)
    requires h2.Keys == h1.Keys + {m} && forall p :: p in h1 && p != m ==> h2[p] == h1[p]
    requires h2[m].head == m && h2[m].data == R.DataAddress(m) && h2[m].release == RxBuf
    requires m in h1 ==> h2[m].headLen == h1[m].headLen
    ensures HeapAfter(h, h2, ms + [m], [], 0)
  {
  }

  /** One more packet is taken, with the length its completion reports. */
  lemma PacketTaken(h: Heap, h1: Heap, h2: Heap, ms: seq<Ptr>, m: Ptr, reports: seq<Report>, first: nat)
    requires HeapAfter(h, h1, ms, [], 0) && LengthsRead(h1, ms, reports, first) && first + |ms| < |reports|
    requires h2 == h1[m := FillCqe(MbufAt(h1, m), m, reports[first + |ms|].byteCnt)]
    ensures HeapAfter(h, h2, ms + [m], [], 0) && LengthsRead(h2, ms + [m], reports, first)
  {
    hide HeapAfter, LengthsRead, R.DataAddress;
    HeapTake(h, h1, h2, ms, m);
    LengthsNext(h1, h2, ms, m, reports, first);
  }

  lemma NoLengths(h: Heap, reports: seq<Report>, first: nat)
    ensures LengthsRead(h, [], reports, first) <==> first <= |reports|
  {
  }

  lemma LengthsNext(h: Heap, h': Heap, ms: seq<Ptr>, m: Ptr, reports: seq<Report>, first: nat)
    requires LengthsRead(h, ms, reports, first) && first + |ms| < |reports|
    requires m in h' && h'[m].len == reports[first + |ms|].byteCnt
    requires forall p :: p in h && p != m ==> p in h' && h'[p] == h[p]
    ensures LengthsRead(h', ms + [m], reports, first)
  {
    var ns := ms + [m];
    forall i | 0 <= i < |ns| && Last(ns, i) ensures ns[i] in h' && h'[ns[i]].len == reports[first + i].byteCnt {
      if i < |ms| {
        assert ns[|ms|] == m && ns[i] == ms[i];
        forall j | i < j < |ms| ensures ms[j] != ms[i] { assert ns[j] == ms[j]; }
        assert Last(ms, i);
      }
    }
  }

  lemma LengthsKept(h: Heap, h': Heap, ms: seq<Ptr>, bufs: seq<Ptr>, reports: seq<Report>, first: nat, len: u32)
    requires LengthsRead(h, ms, reports, first) && HeapAfter(h, h', [], bufs, len)
    ensures LengthsRead(h', ms, reports, first)
  {
    forall i | 0 <= i < |ms| && Last(ms, i) ensures ms[i] in h' && h'[ms[i]].len == reports[first + i].byteCnt {
      assert h'[ms[i]].(headLen := h[ms[i]].headLen) == h[ms[i]];
    }
  }

  lemma HeapBoth(h: Heap, h1: Heap, h2: Heap, ms: seq<Ptr>, bufs: seq<Ptr>, len: u32)
    requires HeapAfter(h, h1, ms, [], 0) && HeapAfter(h1, h2, [], bufs, len)
    ensures HeapAfter(h, h2, ms, bufs, len)
  {
  }
}
