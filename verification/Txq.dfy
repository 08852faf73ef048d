/** The transmit queue object (struct mlx5_txq) and its operations in place, each tied to the
    state machine of TxRing. */
module TxQueue {
  import opened Bits
  import opened Memory
  import opened WorkRequest
  import opened Completion
  import opened PacketBuffers
  import opened TxRing

  class Txq {
    const cfg: Config
    const ring: array<byte>
    const buffers: array<Ptr>
    const cq: array<Cqe>
    var sqHead: u32
    var cqHead: u32
    var trueCqHead: u32
    // the device behind the queue
    var devBlock: nat
    var reports: seq<Report>
    var wire: seq<Wqe>
    // history
    ghost var log: seq<Msg>
    ghost var reclaimed: seq<Ptr>

    ghost function View(mem: MbufStore): Tx
      reads this, ring, buffers, cq, mem
    {
      Tx(sqHead, cqHead, trueCqHead, buffers[..], BlockCounts(mem.m), ring[..], cq[..],
         devBlock, reports, wire, log, reclaimed)
    }

    ghost predicate Valid(mem: MbufStore)
      reads this, ring, buffers, cq, mem
    {
      && ring as object != buffers && ring as object != cq && buffers as object != cq
      && Inv(cfg, View(mem))
    }

    /** Queues as the device hands them out: zeroed counters, entries owned by the hardware. */
    constructor (cfg: Config, mem: MbufStore)
      requires cfg.Valid()
      ensures this.cfg == cfg && Valid(mem) && fresh(ring) && fresh(buffers) && fresh(cq)
      ensures log == [] && reclaimed == [] && reports == []
    {
      this.cfg := cfg;
      ring := new byte[BLOCK * cfg.WqeCnt()](_ => 0);
      buffers := new Ptr[cfg.WqeCnt()](_ => NULL);
      cq := new Cqe[cfg.CqeCnt()](_ => Cqe(0xf1, 0, 0));
      sqHead, cqHead, trueCqHead := 0, 0, 0;
      devBlock, reports, wire := 0, [], [];
      log, reclaimed := [], [];
      new;
      InitInv(cfg, View(mem));
    }

    /** nr_inflight_tx */
    function NrInflight(): u32
      reads this
    {
      Wrap32(sqHead - trueCqHead)
    }

    /** mlx5_gather_completions */
    method GatherCompletions(mem: MbufStore, budget: nat) returns (mbufs: seq<Ptr>)
      requires Valid(mem)
      modifies this`cqHead, this`trueCqHead, this`reclaimed
      ensures Valid(mem)
      ensures View(mem) == Gather(cfg, old(View(mem)), budget)
      ensures reclaimed == old(reclaimed) + mbufs
    {
      hide Inv, Pow2, Status, Slot, And, Gather, Wrap32;
      mbufs := [];
      var cnt := 0;
      ghost var s0 := View(mem);
      Lengths(mem);
      while cnt < budget
        invariant cnt <= budget && Valid(mem) && Sized(cfg, s0) && Sized(cfg, View(mem))
        invariant Gather(cfg, View(mem), budget - cnt) == Gather(cfg, s0, budget)
        invariant reclaimed == s0.reclaimed + mbufs
        decreases budget - cnt
      {
        ghost var s := View(mem);
        Lengths(mem);
        GatherRound(cfg, s, budget - cnt);
        var cqe := cq[Slot(cq.Length, cqHead)];
        var opcode := Status(cqe, cq.Length, cqHead);
        if opcode == CQE_INVALID {
          return;
        }
        OldestInHeap(mem);
        var wqeIdx := And(cqe.wqeCounter, buffers.Length - 1);
        var m := buffers[wqeIdx];
        assert m == s.buffers[wqeIdx] && s.numWqes[m] == mem.m[m].numWqes;
        mbufs := mbufs + [m];
        trueCqHead := Wrap32(trueCqHead + mem.m[m].numWqes);
        cqHead := Wrap32(cqHead + 1);
        reclaimed := reclaimed + [m];
        cnt := cnt + 1;
        assert View(mem) == TakeCompletion(cfg, s);
      }
      GatherRound(cfg, View(mem), 0);
    }

    lemma Lengths(mem: MbufStore)
      requires Valid(mem)
      ensures cfg.Valid() && Sized(cfg, View(mem))
      ensures buffers.Length == cfg.WqeCnt() && cq.Length == cfg.CqeCnt() && ring.Length == BLOCK * buffers.Length
    {
    }

    /** The mbuf found in the slot of the oldest completion is a real one. */
    lemma OldestInHeap(mem: MbufStore)
      requires Valid(mem) && Ready(cfg, View(mem))
      ensures var cqe := cq[Slot(cq.Length, cqHead)];
              And(cqe.wqeCounter, buffers.Length - 1) < buffers.Length
              && buffers[And(cqe.wqeCounter, buffers.Length - 1)] in mem.m
    {
      hide Done, Ring, Pow2, Status, Decode, Fits, Carries;
      var s := View(mem);
      TakeExact(cfg, s);
      var g := |s.reclaimed|;
      assert Posted(cfg, s, g);
      assert TakeCompletion(cfg, s).reclaimed[g] == s.log[g].mbuf;
    }

    /** mlx5_inline_data */
    method InlineDataAt(offset: nat, data: seq<byte>)
      requires buffers.Length > 0
      modifies ring
      ensures ring[..] == InlineData(old(ring[..]), And(sqHead, buffers.Length - 1), offset, data)
    {
      var currentIdx := And(sqHead, buffers.Length - 1);
      var inlineStart := BLOCK * currentIdx + INLINE_START;
      var end := ring.Length;
      var inlineOffStart: int := inlineStart + offset;
      if inlineOffStart >= end {
        var endChunk := |data| - (end - inlineStart);
        inlineOffStart := endChunk;
      }
      if 0 <= end - inlineOffStart < |data| {
        var firstChunk := end - inlineOffStart;
        Memcpy(ring, inlineOffStart, data[..firstChunk]);
        Memcpy(ring, 0, data[firstChunk..]);
      } else {
        Memcpy(ring, inlineOffStart, data);
      }
    }

    /** Control segment, Ethernet segment and inlined header. */
    method WriteHeaderPart(inl: Inline, ds: nat)
      requires buffers.Length > 0
      modifies ring
      ensures ring[..] == FillPrefix(old(ring[..]), And(sqHead, buffers.Length - 1), cfg.qpn, sqHead, inl, ds)
    {
      hide Put, InlineData, CtrlBytes, EthBytes;
      var idx := And(sqHead, buffers.Length - 1);
      Memcpy(ring, BLOCK * idx, CtrlBytes(ds, cfg.qpn, sqHead));
      Memcpy(ring, BLOCK * idx + 16, EthBytes(inl.Len()));
      match inl {
        case NoHeader =>
        case Header(h) =>
          var offset := 0;
          InlineDataAt(offset, h.eth);
          offset := offset + |h.eth|;
          InlineDataAt(offset, h.ipv4);
          offset := offset + |h.ipv4|;
          InlineDataAt(offset, h.udp);
          offset := offset + |h.udp|;
          InlineDataAt(offset, h.packetId);
          offset := offset + |h.packetId|;
          InlineDataAt(offset, h.checksum);
      }
    }

    /** The loop that walks the chain and writes one data segment per mbuf. */
    method WriteSegs(mem: MbufStore, m: Ptr, p: nat, ghost chain: seq<Ptr>)
      requires Chain(mem.m, m, chain)
      requires forall q :: q in chain ==> q in mem.m
      modifies ring
      ensures ring[..] == PutSegs(old(ring[..]), p, Segs(mem.m, chain))
    {
      hide Put, EncodeSeg;
      var curr, at := m, p;
      ghost var k := 0;
      while curr != NULL
        invariant k <= |chain| && Chain(mem.m, curr, chain[k..])
        invariant forall q :: q in chain[k..] ==> q in mem.m
        invariant PutSegs(ring[..], at, Segs(mem.m, chain[k..])) == PutSegs(old(ring[..]), p, Segs(mem.m, chain))
        decreases |chain| - k
      {
        ghost var rest := chain[k..];
        assert rest[0] == curr && curr in mem.m;
        ghost var before := ring[..];
        var mb := mem.m[curr];
        Memcpy(ring, at, EncodeSeg(Seg(mb.len, mb.lkey, mb.data)));
        assert Segs(mem.m, rest)[1..] == Segs(mem.m, rest[1..]);
        assert chain[k + 1..] == rest[1..];
        curr := mb.next;
        at := at + 16;
        if at == ring.Length {
          at := 0;
        }
        k := k + 1;
      }
      assert chain[k..] == [];
      assert Segs(mem.m, chain[k..]) == [];
    }

    /** The part of mlx5_fill_tx_segment after the space check. */
    method PostDescriptor(mem: MbufStore, m: Ptr, inl: Inline, ghost chain: seq<Ptr>)
      requires Valid(mem) && inl.Valid() && m in mem.m
      requires Chain(mem.m, m, chain) && |chain| == mem.m[m].nbSegs && 0 < |chain| <= MAX_SCATTERS
      requires forall q :: q in chain ==> q in mem.m
      requires Fresh(View(mem), Msg(m, inl, Segs(mem.m, chain)))
      requires Blocks(inl.Len(), |chain|) <= Room(cfg, View(mem))
      modifies this`sqHead, this`log, ring, buffers, mem
      ensures Valid(mem)
      ensures View(mem) == Post(cfg, old(View(mem)), Msg(m, inl, old(Segs(mem.m, chain))))
      ensures mem.m == old(mem.m[m := mem.m[m].(numWqes := Blocks(inl.Len(), |chain|))])
    {
      hide Inv, Pow2, FillPrefix, PutSegs, Blocks, HdrSegs, FirstSeg, Room, And, Wrap32;
      Lengths(mem);
      ghost var s := View(mem);
      ghost var msg := Msg(m, inl, Segs(mem.m, chain));
      var nbSegs := mem.m[m].nbSegs;
      var numHdrSegs := HdrSegs(inl.Len());
      var numWqes := Blocks(inl.Len(), nbSegs);
      var currentIdx := And(sqHead, buffers.Length - 1);
      WriteHeaderPart(inl, numHdrSegs + nbSegs);
      WriteSegs(mem, m, FirstSeg(ring.Length, currentIdx, inl.Len()), chain);
      mem.m := mem.m[m := mem.m[m].(numWqes := numWqes)];
      buffers[currentIdx] := m;
      sqHead := Wrap32(sqHead + numWqes);
      log := log + [msg];
      assert BlockCounts(mem.m) == s.numWqes[m := msg.NumWqes()];
      assert View(mem) == Post(cfg, s, msg);
      PostKeepsInv(cfg, s, msg);
    }

    /** The device completes the oldest descriptor it has not completed. */
    method DeviceStep(mem: MbufStore)
      requires Valid(mem) && |reports| < |log| && |reports| < |reclaimed| + cfg.CqeCnt()
      modifies this`devBlock, this`reports, this`wire, cq
      ensures Valid(mem)
      ensures View(mem) == DeviceCompletes(cfg, old(View(mem)))
    {
      hide Inv, Pow2, Decode, From, IsSend, AsksCompletion;
      Lengths(mem);
      ghost var s := View(mem);
      ModBelow(devBlock, buffers.Length);
      DivModUnique(|reports|, cq.Length, |reports| / cq.Length, |reports| % cq.Length);
      var w := Decode(From(ring[..], devBlock % buffers.Length));
      if IsSend(w, cfg.qpn) {
        wire := wire + [w];
      }
      if AsksCompletion(w) {
        var r := Report(if IsSend(w, cfg.qpn) then CQE_REQ else CQE_REQ_ERR, w.index, 0);
        cq[|reports| % cq.Length] := Entry(cfg.cqeLog, |reports|, r);
        reports := reports + [r];
      }
      devBlock := devBlock + (w.ds + 3) / 4;
      assert View(mem) == DeviceCompletes(cfg, s);
      DeviceKeepsInv(cfg, s);
    }
  }
}
