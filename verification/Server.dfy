/** The server (main.c) over its rings, pools and reference counts: completions, sending with
    retries, and the loop over received packets. */
module Serving {
  import opened Bits
  import opened Memory
  import opened WorkRequest
  import opened Completion
  import opened PacketBuffers
  import opened TxRing
  import opened TxQueue
  import opened RxQueue
  import opened Pools
  import opened RefCounting
  import opened Accounts
  import opened Service
  import opened Frames
  import R = RxRing

  /** A received packet: does it pass check_valid_packet, and what does it ask for. */
  datatype Packet = Packet(valid: bool, request: Request)

  /** One turn of the server loop: lengths of the packets that arrive before it, and the burst it takes. */
  datatype Turn = Turn(lens: seq<u32>, pkts: seq<Packet>)

  class Server {
    const mode: Mode
    const numSegments: nat
    const segmentSize: u32
    const region: Ptr
    const working: seq<byte>
    const txLkey: u32
    const rxLkey: u32
    const dataMbufsSize: u32
    const requestHeaderSize: nat
    const pace: nat -> nat
    const txq: Txq
    const rxq: Rxq
    const mem: MbufStore
    const mbufPool: Mempool
    const txPool: Mempool
    const rxPool: Mempool
    const mbufItems: array<Ptr>
    const txItems: array<Ptr>
    const rxItems: array<Ptr>
    const refs: RefCounts
    const store: AnswerStore
    var clock: nat
    // where every buffer is
    ghost const stock: Stock
    ghost var limbo: seq<seq<Held>>
    ghost var flight: seq<seq<Held>>
    ghost var build: seq<seq<Held>>
    ghost var handed: multiset<Ptr>

    /** What sending and freeing write. */
    ghost function Frame(): set<object> {
      {txq, txq.ring, txq.buffers, txq.cq, mem, mbufPool, mbufItems, txPool, txItems, rxPool, rxItems, refs.counts}
    }

    /** What receiving writes besides. */
    ghost function RxFrame(): set<object> {
      {rxq, rxq.buffers, rxq.addrs, rxq.cq}
    }

    /** No two objects share memory. */
    ghost predicate Separate() {
      Apart(txq, rxq, mbufPool, txPool, rxPool, mbufItems, txItems, rxItems, refs)
    }

    static ghost predicate Apart(txq: Txq, rxq: Rxq, mbufPool: Mempool, txPool: Mempool, rxPool: Mempool,
                                 mbufItems: array<Ptr>, txItems: array<Ptr>, rxItems: array<Ptr>, refs: RefCounts) {
      && mbufPool != txPool && mbufPool != rxPool && txPool != rxPool
      && mbufItems != txItems && mbufItems != rxItems && txItems != rxItems
      && txq.ring as object != txq.buffers && txq.ring as object != txq.cq && txq.buffers as object != txq.cq
      && {txq.buffers, rxq.buffers, rxq.addrs} !! {mbufItems, txItems, rxItems}
      && txq.buffers != rxq.buffers && txq.buffers != rxq.addrs && rxq.buffers != rxq.addrs
      && {txq.ring as object, txq.cq, rxq.cq, refs.counts} !!
         {mbufItems as object, txItems, rxItems, txq.buffers, rxq.buffers, rxq.addrs}
      && txq.ring as object != rxq.cq && txq.cq != rxq.cq
      && refs.counts as object != txq.ring && refs.counts as object != txq.cq && refs.counts as object != rxq.cq
    }

    /** The sizes the server relies on. */
    ghost predicate Dimensioned() {
      Sizes(mode, numSegments, dataMbufsSize, WorkingData(), txq, rxq, refs, stock) && Fair(pace)
    }

    /** The data segments, where they are and how they are registered. */
    function WorkingData(): WorkingSet { WorkingSet(working, refs.numTotal, segmentSize, region, txLkey) }

    static ghost predicate Sizes(mode: Mode, numSegments: nat, dataMbufsSize: u32, d: WorkingSet, txq: Txq, rxq: Rxq,
                                 refs: RefCounts, stock: Stock) {
      && txq.cfg.Valid() && rxq.cfg.Valid()
      && (!mode.Echo? ==> d.Valid() && numSegments <= MAX_SCATTERS && numSegments * d.size + HEADER_LEN < W32)
      && (mode.Copy? ==> HEADER_LEN + numSegments * d.size <= dataMbufsSize)
      && (mode.ZeroCopy? ==> numSegments > 0 && d.size > 0 && Blocks(HEADER_LEN, numSegments) <= txq.cfg.WqeCnt())
      && (!mode.Echo? ==> |stock.mbufs| >= 4 * txq.cfg.WqeCnt() + BATCH_SIZE * MAX_SCATTERS)
      && (mode.Copy? ==> |stock.txs| >= 4 * txq.cfg.WqeCnt() + BATCH_SIZE * MAX_SCATTERS)
      && (mode == ZeroCopy(true) ==> 4 * txq.cfg.WqeCnt() + BATCH_SIZE * MAX_SCATTERS < 0xffff)
      && refs.Shape()
    }

    ghost predicate PoolsOk()
      reads mbufPool, txPool, rxPool
    {
      && mbufPool.Valid() && txPool.Valid() && rxPool.Valid()
      && mbufPool.freeItems == mbufItems && txPool.freeItems == txItems && rxPool.freeItems == rxItems
      && mbufPool.capacity == |stock.mbufs| && txPool.capacity == |stock.txs| && rxPool.capacity == |stock.rxs|
      && rxPool.itemLen == stock.rxLen
    }

    ghost function View(): Books
      requires PoolsOk() && refs.Shape() && |rxq.delivered| <= |rxq.posts|
      reads this, mbufPool, txPool, rxPool, mbufItems, txItems, rxItems, refs.counts, rxq
    {
      Books(mbufPool.Free(), txPool.Free(), rxPool.Free(), refs.View(), limbo, flight, build,
            rxq.posts[|rxq.delivered|..], handed)
    }

    ghost predicate Valid()
      reads this, Frame(), RxFrame()
    {
      && Separate() && Dimensioned() && PoolsOk() && refs.Shape()
      && |rxq.delivered| <= |rxq.posts|
      && txq.Valid(mem)
      && Good(mode, stock, View(), txq.View(mem), mem.m)
    }

    /** The array of headers is ready, and the store is right about everything posted and sent. */
    ghost predicate Content()
      reads store, txq
    {
      store.HeadersOk(BATCH_SIZE) && Filed([])
    }

    /** The same while the messages `pending` are still to be posted. */
    ghost predicate Filed(pending: seq<Msg>)
      reads store, txq
    {
      && (mode.Copy? ==> BufsOk())
      && FiledAs(store.bufs, store.packets, store.frames, txq.log + pending, txq.wire, |txq.reclaimed|)
    }

    /** What the device read of each message when it sent it: the descriptor's header and segments, or the packet
        of the copied answer. The packet of every copied answer that is not gathered is intact in its buffer. */
    ghost predicate FiledAs(bufs: map<Ptr, seq<byte>>, packets: seq<seq<byte>>, frames: seq<seq<byte>>, log: seq<Msg>,
                            wire: seq<Wqe>, done: nat) {
      && |frames| == |wire|
      && match mode
         case ZeroCopy(_) =>
           forall q :: 0 <= q < |wire| ==> frames[q] == Frames.Frame(SegmentMemory(region, working), wire[q])
         case Copy => Intact(bufs, packets, log, done) && frames <= packets
         case Echo => true
    }

    /** Memory that the descriptors refer to, as the device reads it now. The bytes of received packets are not modelled. */
    ghost function Host(): HostMemory
      reads store`bufs
    {
      match mode
      case ZeroCopy(_) => SegmentMemory(region, working)
      case Copy => BufMemory(store.bufs)
      case Echo => BufMemory(map[])
    }

    /** One buffer per item of the transmit pool. */
    ghost predicate BufsOk()
      reads store`bufs
    {
      && (forall p :: p in stock.txs ==> p in store.bufs && |store.bufs[p]| == dataMbufsSize)
      && BuffersApart(store.bufs)
    }

    static ghost predicate Intact(bufs: map<Ptr, seq<byte>>, packets: seq<seq<byte>>, log: seq<Msg>, done: nat) {
      |packets| == |log| && forall i :: done <= i < |log| ==> Carried(bufs, log[i], packets[i])
    }

    /** The buffer of message `m` holds the packet `b`. */
    static ghost predicate Carried(bufs: map<Ptr, seq<byte>>, m: Msg, b: seq<byte>) {
      && m.inl == NoHeader && |m.segs| == 1 && m.segs[0].byteCount == |b|
      && m.segs[0].addr in bufs && |b| <= |bufs[m.segs[0].addr]| && bufs[m.segs[0].addr][..|b|] == b
    }

    /** A server over initialised queues and full pools. */
    constructor (mode: Mode, numSegments: nat, segmentSize: u32, region: Ptr, working: seq<byte>, txLkey: u32, rxLkey: u32,
                 dataMbufsSize: u32, requestHeaderSize: nat, pace: nat -> nat,
                 txq: Txq, rxq: Rxq, mem: MbufStore, mbufPool: Mempool, txPool: Mempool, rxPool: Mempool, refs: RefCounts,
                 store: AnswerStore, ghost stock: Stock)
      requires Apart(txq, rxq, mbufPool, txPool, rxPool, mbufPool.freeItems, txPool.freeItems, rxPool.freeItems, refs)
      requires Sizes(mode, numSegments, dataMbufsSize, WorkingSet(working, refs.numTotal, segmentSize, region, txLkey), txq, rxq,
                     refs, stock) && Fair(pace)
      requires txq.Valid(mem) && txq.log == [] && txq.reclaimed == []
      requires rxq.Valid() && R.Full(rxq.cfg, rxq.View()) && rxq.delivered == []
      requires mbufPool.Valid() && txPool.Valid() && rxPool.Valid() && rxPool.itemLen == stock.rxLen
      requires forall p :: p in rxq.posts ==> PostedOk(mem.m, p, stock.rxLen)
      requires mbufPool.capacity == |stock.mbufs| && txPool.capacity == |stock.txs| && rxPool.capacity == |stock.rxs|
      requires stock.Valid() && multiset(mbufPool.Free()) == stock.mbufs && multiset(txPool.Free()) == stock.txs
      requires multiset(rxPool.Free()) + multiset(rxq.posts) == stock.rxs
      requires forall i :: 0 <= i < |refs.View()| ==> refs.View()[i] == 1
      requires store.HeadersOk(BATCH_SIZE) && store.packets == [] && store.frames == []
      requires mode.Copy? ==> forall p :: p in stock.txs ==> p in store.bufs && |store.bufs[p]| == dataMbufsSize
      requires mode.Copy? ==> BuffersApart(store.bufs)
      ensures Valid() && Content() && limbo == [] && flight == [] && build == [] && handed == multiset{}
      ensures this.txq == txq && this.rxq == rxq && this.mem == mem && this.mode == mode && this.store == store
    {
      hide Good, Inv, R.Inv, Pow2, Blocks, FiledAs, BuffersApart, AnswerStore.HeadersOk;
      this.mode, this.numSegments, this.segmentSize, this.region, this.working := mode, numSegments, segmentSize, region, working;
      this.txLkey, this.rxLkey, this.dataMbufsSize := txLkey, rxLkey, dataMbufsSize;
      this.requestHeaderSize, this.pace := requestHeaderSize, pace;
      this.txq, this.rxq, this.mem, this.refs, this.store := txq, rxq, mem, refs, store;
      this.mbufPool, this.txPool, this.rxPool := mbufPool, txPool, rxPool;
      mbufItems, txItems, rxItems := mbufPool.freeItems, txPool.freeItems, rxPool.freeItems;
      clock := 0;
      this.stock, limbo, flight, build, handed := stock, [], [], [], multiset{};
      new;
      assert rxq.posts[|rxq.delivered|..] == rxq.posts;
      StartsGood(mode, stock, View(), txq.View(mem), mem.m);
      WireSize(txq.cfg, txq.View(mem));
      NothingFiled(store.bufs);
    }

    lemma NothingFiled(bufs: map<Ptr, seq<byte>>)
      ensures FiledAs(bufs, [], [], [] + [], [], 0)
    {
    }

    /** The pools, counts and receive ring alone. */
    ghost predicate Open()
      reads mbufPool, txPool, rxPool, rxq
    {
      PoolsOk() && refs.Shape() && |rxq.delivered| <= |rxq.posts| && Separate()
    }

    lemma Opened()
      requires Valid()
      ensures PoolsOk() && refs.Shape() && |rxq.delivered| <= |rxq.posts| && Separate() && Dimensioned()
      ensures Good(mode, stock, View(), txq.View(mem), mem.m) && Inv(txq.cfg, txq.View(mem))
      ensures {refs.counts as object} !! {mbufItems as object, txItems, rxItems, txq.ring, txq.buffers, txq.cq}
      ensures mbufPool != txPool && mbufPool != rxPool && txPool != rxPool
      ensures {refs.counts as object} !! {rxq.buffers as object, rxq.addrs, rxq.cq}
      ensures {mbufItems as object, txItems, rxItems} !! {txq.ring as object, txq.buffers, txq.cq}
    {
      hide Good, Inv;
    }

    // ----- giving buffers back ---------------------------------------------------------------

    /** Something is in use, so the pools it came from are not full. */
    lemma InUse()
      requires Valid() && limbo != [] && limbo[0] != []
      ensures !mode.Echo? ==> mbufPool.used > 0
      ensures mode.Copy? ==> txPool.used > 0
      ensures mode.Echo? ==> rxPool.used > 0
    {
      hide Out, Inv, Flat, Link, Sound, Balanced, Blocks, Pow2;
      FreeCounts(mode, stock, View());
      OutNonempty(View());
    }

    /** Counting down and returning the mbuf to its pool. */
    method ReturnSegment(cur: Ptr)
      requires Open() && mode.ZeroCopy? && mbufPool.used > 0 && cur in mem.m
      requires mode.counting ==> mem.m[cur].releaseData < |View().refs|
      modifies mbufPool`used, mbufItems, refs.counts
      ensures Open()
      ensures View() == old(View()).(
        mbufFree := [cur] + old(View()).mbufFree,
        refs := if mode.counting then Bump(old(View()).refs, mem.m[cur].releaseData, -1) else old(View()).refs)
    {
      hide Bump;
      if mode.counting {
        var index := mem.m[cur].releaseData;
        CountReference(index, -1);
      }
      mbufPool.Release(cur);
    }

    /** One round of zero_copy_tx_completion. */
    method FreeSegment(cur: Ptr) returns (next: Ptr)
      requires Valid() && mode.ZeroCopy? && limbo != [] && limbo[0] != [] && cur == First(limbo[0])
      modifies this`limbo, mbufPool`used, mbufItems, refs.counts
      ensures Valid() && View() == FreeOne(mode, old(View()))
      ensures limbo != [] && next == First(limbo[0]) && |limbo[0]| < |old(limbo[0])|
    {
      hide Good, Inv, FreeOne, First, Blocks, Pow2, Bump, PoolsOk, Separate, Dimensioned;
      ghost var b := View();
      InUse();
      FreeGood(mode, stock, b, txq.View(mem), mem.m);
      next := mem.m[cur].next;
      Opened();
      ReturnSegment(cur);
      limbo := [limbo[0][1..]] + limbo[1..];
      SegmentFreed(mode.counting, b, View());
    }

    /** zero_copy_tx_completion */
    method ZeroCopyTxCompletion(m: Ptr)
      requires Valid() && mode.ZeroCopy? && limbo != [] && m == First(limbo[0])
      modifies this`limbo, mbufPool`used, mbufItems, refs.counts
      ensures Valid() && View() == FreeMessage(mode, old(View()))
    {
      hide Good, Inv, FreeMessage, FreeOne, First, Blocks, Pow2;
      ghost var target := FreeMessage(mode, View());
      var cur := m;
      while cur != NULL
        invariant Valid() && limbo != [] && cur == First(limbo[0])
        invariant FreeMessage(mode, View()) == target
        decreases |limbo[0]|
      {
        FirstOf(limbo[0]);
        FreeRound(mode, View());
        cur := FreeSegment(cur);
      }
      Freed();
    }

    lemma FirstEmpty()
      ensures First([]) == NULL
    {
    }

    /** A gathered message without mbufs leaves the books. */
    ghost method Freed()
      requires Valid() && limbo != [] && First(limbo[0]) == NULL
      modifies this`limbo
      ensures Valid() && View() == FreeMessage(mode, old(View()))
    {
      hide Good, Inv, FreeMessage, First, Blocks, Pow2;
      FirstNull(mode, stock, View(), txq.View(mem), mem.m);
      DropGood(mode, stock, View(), txq.View(mem), mem.m);
      FreeRound(mode, View());
      limbo := limbo[1..];
    }

    /** Returning the buffer and the mbuf to their pools. */
    method ReturnPacket(cur: Ptr)
      requires Open() && mbufPool.used > 0 && txPool.used > 0 && cur in mem.m
      modifies mbufPool`used, mbufItems, txPool`used, txItems
      ensures Open()
      ensures View() == old(View()).(mbufFree := [cur] + old(View()).mbufFree, txFree := [mem.m[cur].head] + old(View()).txFree)
    {
      txPool.Release(mem.m[cur].head);
      mbufPool.Release(cur);
    }

    /** One round of tx_completion. */
    method FreePacket(cur: Ptr) returns (next: Ptr)
      requires Valid() && mode.Copy? && limbo != [] && limbo[0] != [] && cur == First(limbo[0])
      modifies this`limbo, mbufPool`used, mbufItems, txPool`used, txItems
      ensures Valid() && View() == FreeOne(mode, old(View()))
      ensures limbo != [] && next == First(limbo[0]) && |limbo[0]| < |old(limbo[0])|
    {
      hide Good, Inv, FreeOne, First, Blocks, Pow2, PoolsOk, Separate, Dimensioned;
      ghost var b := View();
      InUse();
      FreeGood(mode, stock, b, txq.View(mem), mem.m);
      next := mem.m[cur].next;
      Opened();
      ReturnPacket(cur);
      limbo := [limbo[0][1..]] + limbo[1..];
      PacketFreed(b, View());
    }

    /** tx_completion */
    method TxCompletion(m: Ptr)
      requires Valid() && mode.Copy? && limbo != [] && m == First(limbo[0])
      modifies this`limbo, mbufPool`used, mbufItems, txPool`used, txItems
      ensures Valid() && View() == FreeMessage(mode, old(View()))
    {
      hide Good, Inv, FreeMessage, FreeOne, First, Blocks, Pow2;
      ghost var target := FreeMessage(mode, View());
      var cur := m;
      while cur != NULL
        invariant Valid() && limbo != [] && cur == First(limbo[0])
        invariant FreeMessage(mode, View()) == target
        decreases |limbo[0]|
      {
        FirstOf(limbo[0]);
        FreeRound(mode, View());
        cur := FreePacket(cur);
      }
      Freed();
    }

    /** rx_completion, for a packet that was sent back. */
    method RxCompletion(m: Ptr)
      requires Valid() && mode.Echo? && limbo != [] && limbo[0] != [] && m == First(limbo[0])
      modifies this`limbo, rxPool`used, rxItems
      ensures Valid() && View() == FreeMessage(mode, old(View()))
    {
      hide Good, Inv, FreeMessage, FreeOne, First, Blocks, Pow2;
      ghost var b := View();
      InUse();
      FreeGood(mode, stock, b, txq.View(mem), mem.m);
      EchoSingle(stock, b, txq.View(mem), mem.m);
      FreeRound(mode, b);
      rxPool.Release(mem.m[m].head);
      limbo := [limbo[0][1..]] + limbo[1..];
      BufferFreed(b, View());
      assert limbo[0] == [];
      FirstEmpty();
      Freed();
    }

    /** mbuf_free: the mbuf's own release function. */
    method MbufFree(m: Ptr)
      requires Valid() && limbo != [] && limbo[0] != [] && m == First(limbo[0])
      modifies this`limbo, mbufPool`used, mbufItems, txPool`used, txItems, rxPool`used, rxItems, refs.counts
      ensures Valid() && View() == FreeMessage(mode, old(View()))
    {
      hide Good, Inv, FreeMessage, First, Blocks, Pow2;
      FirstRelease(mode, stock, View(), txq.View(mem), mem.m);
      match mem.m[m].release {
        case NoRelease => assert false;
        case ZeroCopyTx => ZeroCopyTxCompletion(m);
        case CopyTx => TxCompletion(m);
        case RxBuf => RxCompletion(m);
      }
    }

    /** mlx5_gather_completions with a budget of SQ_CLEAN_MAX. */
    method GatherStep() returns (mbs: seq<Ptr>)
      requires Valid() && limbo == []
      modifies this`limbo, this`flight, txq`cqHead, txq`trueCqHead, txq`reclaimed
      ensures Valid() && |mbs| <= |old(flight)| && View() == GatherFirst(old(View()), |mbs|)
      ensures |limbo| == |mbs| && forall i :: 0 <= i < |mbs| ==> limbo[i] != [] && mbs[i] == First(limbo[i])
      ensures txq.View(mem) == Gather(txq.cfg, old(txq.View(mem)), SQ_CLEAN_MAX)
      ensures txq.reclaimed == old(txq.reclaimed) + mbs
    {
      hide Good, Inv, First, Blocks, Pow2, Gather;
      ghost var s, b := txq.View(mem), View();
      mbs := txq.GatherCompletions(mem, SQ_CLEAN_MAX);
      GatherMoves(mode, stock, b, txq.cfg, s, mem.m, SQ_CLEAN_MAX, mbs);
      limbo, flight := flight[..|mbs|], flight[|mbs|..];
      assert View() == GatherFirst(b, |mbs|);
    }

    /** Freeing `n` more messages leads to `target`. */
    ghost predicate Frees(target: Books, n: nat)
      reads this, Frame(), RxFrame()
    {
      Valid() && FreeMessages(mode, View(), n) == target
    }

    /** One round of freeing gathered messages. */
    method FreeNext(m: Ptr, ghost target: Books, ghost k: nat)
      requires 0 < k && Frees(target, k) && limbo != [] && limbo[0] != [] && m == First(limbo[0])
      modifies this`limbo, mbufPool`used, mbufItems, txPool`used, txItems, rxPool`used, rxItems, refs.counts
      ensures Frees(target, k - 1) && limbo == old(limbo)[1..]
    {
      hide Good, Inv, FreeMessage, First, Blocks, Pow2, FreeMessages;
      FreeMessageFields(mode, stock, View(), txq.View(mem), mem.m);
      FreeMessagesRound(mode, View(), k);
      MbufFree(m);
    }

    lemma FreesNone(target: Books)
      requires Frees(target, 0)
      ensures Valid() && View() == target
    {
      hide Good, Inv;
    }

    /** Frees every message in limbo. */
    method FreeAll(mbs: seq<Ptr>)
      requires Valid() && |limbo| == |mbs|
      requires forall i :: 0 <= i < |mbs| ==> limbo[i] != [] && mbs[i] == First(limbo[i])
      modifies this`limbo, mbufPool`used, mbufItems, txPool`used, txItems, rxPool`used, rxItems, refs.counts
      ensures Valid() && limbo == []
      ensures View() == FreeMessages(mode, old(View()), |mbs|)
    {
      hide First, FreeMessages, PoolsOk, Separate, Dimensioned, Good, Inv;
      FreeEach(mbs, FreeMessages(mode, View(), |mbs|));
    }

    method FreeEach(mbs: seq<Ptr>, ghost target: Books)
      requires Frees(target, |mbs|) && |limbo| == |mbs|
      requires forall i :: 0 <= i < |mbs| ==> limbo[i] != [] && mbs[i] == First(limbo[i])
      modifies this`limbo, mbufPool`used, mbufItems, txPool`used, txItems, rxPool`used, rxItems, refs.counts
      ensures Valid() && limbo == [] && View() == target
    {
      hide Frees, Valid, First, PoolsOk, Separate, Dimensioned, Good, Inv;
      ghost var l0 := limbo;
      for i := 0 to |mbs|
        invariant Frees(target, |mbs| - i) && limbo == l0[i..]
      {
        DropNext(l0, i);
        FreeNext(mbs[i], target, |mbs| - i);
      }
      FreesNone(target);
    }

    /** Gathers up to SQ_CLEAN_MAX completions and frees what they carried. */
    method Clean()
      requires Valid() && limbo == []
      modifies this`limbo, this`flight, txq`cqHead, txq`trueCqHead, txq`reclaimed
      modifies mbufPool`used, mbufItems, txPool`used, txItems, rxPool`used, rxItems, refs.counts
      ensures Valid() && limbo == [] && build == old(build) && handed == old(handed)
      ensures txq.View(mem) == Gather(txq.cfg, old(txq.View(mem)), SQ_CLEAN_MAX)
      ensures |old(txq.reclaimed)| <= |txq.reclaimed| <= |old(txq.reclaimed)| + |old(flight)|
      ensures View() == Reclaim(mode, old(View()), |txq.reclaimed| - |old(txq.reclaimed)|)
    {
      hide PoolsOk, Dimensioned, Good, Inv, First, Blocks, Pow2, Gather, FreeMessages, GatherFirst;
      Opened();
      ghost var b, s := View(), txq.View(mem);
      var mbs := GatherStep();
      FreeAll(mbs);
      ReclaimFields(mode, stock, b, s, mem.m, |mbs|);
    }

    // ----- sending ---------------------------------------------------------------------------

    /** mlx5_fill_tx_segment once there is room. */
    method PostOne(m: Ptr, inl: Inline)
      requires Valid() && limbo == [] && build != [] && m == First(build[0])
      requires Built(mode, mem.m, build[0]) && inl.Valid()
      requires ToPost(mem.m, inl, build[0]).NumWqes() <= Room(txq.cfg, txq.View(mem))
      modifies this`flight, this`build, txq`sqHead, txq`log, txq.ring, txq.buffers, mem
      ensures Valid() && View() == PostFirst(old(View()))
      ensures txq.View(mem) == Post(txq.cfg, old(txq.View(mem)), ToPost(old(mem.m), inl, old(build[0])))
      ensures BlocksOnly(old(mem.m), mem.m)
    {
      hide Good, Inv, Built, First, Blocks, Pow2, Post, Room, Same, BlocksOnly, ToPost, PostFirst, Fresh, Chain;
      ghost var s, b, h := txq.View(mem), View(), mem.m;
      ghost var msg := ToPost(h, inl, build[0]);
      ReadyPosts(mode, h, inl, build[0]);
      BuiltIsFresh(mode, stock, b, s, h, msg);
      txq.PostDescriptor(mem, m, inl, Ps(build[0]));
      NewBlocks(h, m, mem.m[m].numWqes, mem.m);
      ReadyMessage(mode, h, build[0]);
      InvSizes(txq.cfg, s);
      txq.Lengths(mem);
      PostGood(mode, stock, b, txq.cfg, s, h, mem.m, msg);
      EnterRing();
    }

    /** The first built message joins those in the ring. */
    ghost method EnterRing()
      requires Separate() && Dimensioned() && PoolsOk() && |rxq.delivered| <= |rxq.posts| && txq.Valid(mem) && build != []
      requires Good(mode, stock, PostFirst(View()), txq.View(mem), mem.m)
      modifies this`flight, this`build
      ensures Valid() && View() == PostFirst(old(View()))
    {
      hide Good, Inv, Pow2, Blocks;
      ghost var b := View();
      flight, build := flight + [build[0]], build[1..];
      assert View() == PostFirst(b);
    }

    lemma RoomNow()
      ensures Room(txq.cfg, txq.View(mem)) == Wrap32(txq.cfg.WqeCnt() - txq.NrInflight())
      ensures Inflight(txq.View(mem)) == txq.NrInflight()
    {
    }

    /** The space check of mlx5_fill_tx_segment. */
    method MakeSpace(numWqes: nat, ghost msg: Msg) returns (ok: bool)
      requires Valid() && limbo == [] && msg.NumWqes() == numWqes
      modifies this`limbo, this`flight, txq`cqHead, txq`trueCqHead, txq`reclaimed
      modifies mbufPool`used, mbufItems, txPool`used, txItems, rxPool`used, rxItems, refs.counts
      ensures Valid() && limbo == [] && build == old(build) && handed == old(handed)
      ensures TxRing.Sized(txq.cfg, old(txq.View(mem))) && txq.View(mem) == MakeRoom(txq.cfg, old(txq.View(mem)), msg)
      ensures ok <==> numWqes <= Room(txq.cfg, txq.View(mem))
    {
      hide Good, Inv, Blocks, Pow2, Gather, Inflight, Reclaim, Wrap32, Txq.NrInflight, Room;
      txq.Lengths(mem);
      RoomNow();
      ok := true;
      if Wrap32(txq.cfg.WqeCnt() - txq.NrInflight()) < numWqes {
        Clean();
        RoomNow();
        ok := Wrap32(txq.cfg.WqeCnt() - txq.NrInflight()) >= numWqes;
      }
    }

    /** The clean-up at the end of mlx5_transmit_one. */
    method CleanIfFull()
      requires Valid() && limbo == []
      modifies this`limbo, this`flight, txq`cqHead, txq`trueCqHead, txq`reclaimed
      modifies mbufPool`used, mbufItems, txPool`used, txItems, rxPool`used, rxItems, refs.counts
      ensures Valid() && limbo == [] && build == old(build) && handed == old(handed)
      ensures TxRing.Sized(txq.cfg, old(txq.View(mem))) && txq.View(mem) == CleanAfter(txq.cfg, old(txq.View(mem)))
    {
      hide Good, Inv, Blocks, Pow2, Gather, Inflight, Reclaim, Wrap32, Txq.NrInflight;
      txq.Lengths(mem);
      RoomNow();
      if txq.NrInflight() >= SQ_CLEAN_THRESH {
        Clean();
      }
    }

    /** mlx5_transmit_one */
    method TransmitOne(m: Ptr, inl: Inline) returns (sent: nat)
      requires Valid() && limbo == [] && build != [] && m == First(build[0])
      requires Built(mode, mem.m, build[0]) && inl.Valid()
      modifies this`limbo, this`flight, this`build
      modifies txq`cqHead, txq`trueCqHead, txq`reclaimed, txq`sqHead, txq`log, txq.ring, txq.buffers, mem
      modifies mbufPool`used, mbufItems, txPool`used, txItems, rxPool`used, rxItems, refs.counts
      ensures Valid() && limbo == [] && handed == old(handed)
      ensures var (c, s, msg) := (txq.cfg, old(txq.View(mem)), ToPost(old(mem.m), inl, old(build[0])));
        TxRing.Sized(c, s) && txq.View(mem) == Transmit(c, s, msg) && sent == if Sends(c, s, msg) then 1 else 0
      ensures build == old(build)[sent..]
      ensures BlocksOnly(old(mem.m), mem.m)
    {
      hide Good, Inv, Built, First, Blocks, Pow2, Post, Gather, Inflight, Room, BlocksOnly, ToPost, MakeRoom, CleanAfter;
      ghost var s, h := txq.View(mem), mem.m;
      ghost var msg := ToPost(h, inl, build[0]);
      txq.Lengths(mem);
      ReadyPosts(mode, h, inl, build[0]);
      var numWqes := Blocks(inl.Len(), mem.m[m].nbSegs);
      var ok := MakeSpace(numWqes, msg);
      if !ok {
        BlocksSame(h);
        return 0;
      }
      PostOne(m, inl);
      CleanIfFull();
      sent := 1;
    }

    /** The device tries `n` steps; it stops short only when it has nothing to do. */
    method DeviceRuns(n: nat, ghost pending: seq<Msg>)
      requires Valid() && Filed(pending)
      modifies txq`devBlock, txq`reports, txq`wire, txq.cq, store`frames
      ensures Valid() && Filed(pending) && |txq.reports| >= |old(txq.reports)|
      ensures n > 0 ==> |txq.reports| > |old(txq.reports)| || !HasWork(txq.cfg, txq.View(mem))
    {
      hide Valid, Filed, HasWork;
      for i := 0 to n
        invariant Valid() && Filed(pending) && |txq.reports| >= |old(txq.reports)|
        invariant i > 0 ==> |txq.reports| > |old(txq.reports)| || !HasWork(txq.cfg, txq.View(mem))
      {
        DeviceTries(pending);
      }
    }

    /** One step of the device, if it has work: it reads the next descriptor, and what the descriptor refers to. */
    method DeviceTries(ghost pending: seq<Msg>)
      requires Valid() && Filed(pending)
      modifies txq`devBlock, txq`reports, txq`wire, txq.cq, store`frames
      ensures Valid() && Filed(pending)
      ensures if old(HasWork(txq.cfg, txq.View(mem))) then |txq.reports| == |old(txq.reports)| + 1
              else txq.View(mem) == old(txq.View(mem))
    {
      hide Good, Inv, DeviceCompletes, Wrap32, Pow2, FiledAs, BufsOk;
      ghost var s := txq.View(mem);
      HasWorkExact(txq.cfg, s);
      InvSizes(txq.cfg, s);
      WireSize(txq.cfg, s);
      if Wrap32(txq.sqHead - Wrap32(txq.devBlock)) != 0 && Wrap32(Wrap32(|txq.reports|) - txq.cqHead) < txq.cfg.CqeCnt() {
        txq.DeviceStep(mem);
        txq.Lengths(mem);
        DeviceFields(txq.cfg, s);
        GoodDevice(mode, stock, View(), s, txq.View(mem), mem.m);
        RecordFrame(pending, s.wire);
      }
    }

    /** The frame just sent goes into the history. */
    ghost method RecordFrame(pending: seq<Msg>, wire: seq<Wqe>)
      requires Valid() && (mode.Copy? ==> BufsOk())
      requires |txq.reclaimed| <= |wire| < |txq.wire| && txq.wire == wire + [txq.wire[|wire|]]
      requires FiledAs(store.bufs, store.packets, store.frames, txq.log + pending, wire, |txq.reclaimed|)
      modifies store`frames
      ensures Valid() && Filed(pending)
    {
      hide Valid, BufsOk, Intact;
      StoreApart();
      if mode.Copy? { CopyOnWire(|wire|, pending); }
      store.frames := store.frames + [Frames.Frame(Host(), txq.wire[|wire|])];
    }

    /** At whatever moment the device reads a copied answer, between calls or in the middle of posting a batch, it
        finds the packet in the buffer. */
    lemma CopyOnWire(q: nat, pending: seq<Msg>)
      requires Valid() && mode.Copy? && BufsOk()
      requires Intact(store.bufs, store.packets, txq.log + pending, |txq.reclaimed|) && |txq.reclaimed| <= q < |txq.wire|
      ensures q < |store.packets| && Frames.Frame(Host(), txq.wire[q]) == store.packets[q]
    {
      hide Valid, Inv, BuffersApart, Holds, Frames.Frame, BufMemory;
      RingInv();
      WireSize(txq.cfg, txq.View(mem));
      var m, b := txq.log[q], store.packets[q];
      assert (txq.log + pending)[q] == m;
      assert Carried(store.bufs, m, b);
      assert m.segs == [m.segs[0]];
      BufMemoryHolds(store.bufs, m.segs[0].addr);
      HoldsPrefix(Host(), m.segs[0].addr, store.bufs[m.segs[0].addr], |b|);
      CopiedFrame(txq.cfg, txq.View(mem), q, m.segs[0], b, Host());
    }

    static lemma HoldsPrefix(memory: HostMemory, addr: nat, b: seq<byte>, n: nat)
      requires Holds(memory, addr, b) && n <= |b|
      ensures Holds(memory, addr, b[..n])
    {
    }

    /** Messages that were pending have been posted, and others gathered. */
    lemma FiledNext(bufs: map<Ptr, seq<byte>>, packets: seq<seq<byte>>, frames: seq<seq<byte>>, log: seq<Msg>, wire: seq<Wqe>,
                    done: nat, msgs: seq<Msg>, sent: nat, done': nat)
      requires FiledAs(bufs, packets, frames, log + msgs, wire, done) && done <= done' && sent <= |msgs|
      ensures FiledAs(bufs, packets, frames, log + msgs[..sent] + msgs[sent..], wire, done')
    {
      hide Carried;
      assert log + msgs[..sent] + msgs[sent..] == log + msgs;
    }

    /** mlx5_transmit_batch: sends in order until one is refused. */
    method TransmitBatch(firsts: seq<Ptr>, start: nat, ct: nat, inls: seq<Inline>, ghost msgs: seq<Msg>) returns (sent: nat)
      requires Valid() && limbo == [] && start <= ct == |firsts| == |inls| == |msgs|
      requires Queued(mode, txq.cfg, mem.m, build, firsts[start..], inls[start..], msgs[start..]) && Filed(msgs[start..])
      modifies this`clock, this`limbo, this`flight, this`build, txq, txq.ring, txq.buffers, txq.cq, mem, store`frames
      modifies mbufPool`used, mbufItems, txPool`used, txItems, rxPool`used, rxItems, refs.counts
      ensures Valid() && limbo == [] && handed == old(handed)
      ensures start + sent <= ct && txq.log == old(txq.log) + msgs[start..start + sent]
      ensures build == old(build)[sent..] && |txq.reclaimed| >= |old(txq.reclaimed)|
      ensures Queued(mode, txq.cfg, mem.m, build, firsts[start + sent..], inls[start + sent..], msgs[start + sent..])
      ensures Filed(msgs[start + sent..])
      ensures sent == 0 ==> Progress(old(txq.View(mem)), txq.View(mem))
      ensures sent == 0 && start < ct ==>
        clock == old(clock) + 1 && (pace(old(clock)) > 0 ==> Moved(old(txq.View(mem)), txq.View(mem)))
    {
      hide Valid, Filed, Queued, Waiting, Transmit, Sends, HasWork, Pow2, Progress, Moved;
      ghost var s0 := txq.View(mem);
      ProgressSame(s0);
      QueuedSizes(mode, txq.cfg, mem.m, build, firsts[start..], inls[start..], msgs[start..]);
      for i := start to ct
        invariant Valid() && limbo == [] && handed == old(handed) && |build| == ct - i <= |old(build)|
        invariant txq.log == s0.log + msgs[start..i] && build == old(build)[i - start..]
        invariant |txq.reclaimed| >= |s0.reclaimed|
        invariant Queued(mode, txq.cfg, mem.m, build, firsts[i..], inls[i..], msgs[i..]) && Filed(msgs[i..])
        invariant i == start ==> clock == old(clock) && txq.View(mem) == s0
      {
        QueuedSizes(mode, txq.cfg, mem.m, build, firsts[i..], inls[i..], msgs[i..]);
        var ret := Attempt(firsts[i], inls[i], firsts[i..], inls[i..], msgs[i..]);
        if ret != 1 {
          DropNext(firsts, i);
          DropNext(inls, i);
          DropNext(msgs, i);
          return i - start;
        }
        DropNext(firsts, i);
        DropNext(inls, i);
        DropNext(msgs, i);
        SliceNext(msgs, start, i);
      }
      sent := ct - start;
    }

    /** The device runs at its pace for one moment. */
    method LetDeviceRun(ghost pending: seq<Msg>)
      requires Valid() && Filed(pending)
      modifies this`clock, txq`devBlock, txq`reports, txq`wire, txq.cq, store`frames
      ensures Valid() && Filed(pending) && clock == old(clock) + 1 && |txq.reports| >= |old(txq.reports)|
      ensures pace(old(clock)) > 0 ==> |txq.reports| > |old(txq.reports)| || !HasWork(txq.cfg, txq.View(mem))
    {
      hide Good, Inv, HasWork, Filed;
      StoreApart();
      DeviceRuns(pace(clock), pending);
      clock := clock + 1;
    }

    /** mlx5_transmit_one on the next queued message. */
    method TransmitNext(m: Ptr, inl: Inline, ghost firsts: seq<Ptr>, ghost inls: seq<Inline>, ghost msgs: seq<Msg>)
      returns (sent: nat)
      requires Valid() && limbo == [] && build != [] && Queued(mode, txq.cfg, mem.m, build, firsts, inls, msgs)
      requires |firsts| > 0 && |inls| > 0 && m == firsts[0] && inl == inls[0]
      modifies this`limbo, this`flight, this`build
      modifies txq`cqHead, txq`trueCqHead, txq`reclaimed, txq`sqHead, txq`log, txq.ring, txq.buffers, mem
      modifies mbufPool`used, mbufItems, txPool`used, txItems, rxPool`used, rxItems, refs.counts
      ensures Valid() && limbo == [] && handed == old(handed) && sent <= 1
      ensures build == old(build)[sent..] && sent <= |msgs| && txq.log == old(txq.log) + msgs[..sent]
      ensures sent <= |firsts| && sent <= |inls|
      ensures Queued(mode, txq.cfg, mem.m, build, firsts[sent..], inls[sent..], msgs[sent..])
      ensures |txq.reclaimed| >= |old(txq.reclaimed)|
      ensures sent == 0 ==> old(HasWork(txq.cfg, txq.View(mem))) || |txq.reclaimed| > |old(txq.reclaimed)|
    {
      hide Valid, Separate, PoolsOk, Dimensioned, Good, Inv, Queued, Built, Transmit, Sends, HasWork, Pow2, First, Blocks;
      hide BlocksOnly, ToPost;
      ghost var h := mem.m;
      QueuedHead(mode, txq.cfg, h, build, firsts, inls, msgs);
      QueuedSizes(mode, txq.cfg, h, build, firsts, inls, msgs);
      Opened();
      AttemptExact(mode, stock, View(), txq.cfg, txq.View(mem), h, build[0], m, inl, msgs[0]);
      sent := TransmitOne(m, inl);
      QueuedNext(mode, txq.cfg, h, mem.m, old(build), firsts, inls, msgs, sent);
      TakeNext(msgs, 0);
    }

    /** One transmission, the device having run at its pace before. */
    method Attempt(m: Ptr, inl: Inline, ghost firsts: seq<Ptr>, ghost inls: seq<Inline>, ghost msgs: seq<Msg>) returns (sent: nat)
      requires Valid() && limbo == [] && build != [] && Queued(mode, txq.cfg, mem.m, build, firsts, inls, msgs) && Filed(msgs)
      requires |firsts| > 0 && |inls| > 0 && m == firsts[0] && inl == inls[0]
      modifies this`clock, this`limbo, this`flight, this`build, txq, txq.ring, txq.buffers, txq.cq, mem, store`frames
      modifies mbufPool`used, mbufItems, txPool`used, txItems, rxPool`used, rxItems, refs.counts
      ensures Valid() && limbo == [] && handed == old(handed) && clock == old(clock) + 1 && sent <= 1
      ensures build == old(build)[sent..] && sent <= |msgs| && txq.log == old(txq.log) + msgs[..sent]
      ensures sent <= |firsts| && sent <= |inls| && |txq.reclaimed| >= |old(txq.reclaimed)|
      ensures Queued(mode, txq.cfg, mem.m, build, firsts[sent..], inls[sent..], msgs[sent..]) && Filed(msgs[sent..])
      ensures sent == 0 ==> Progress(old(txq.View(mem)), txq.View(mem))
      ensures sent == 0 && pace(old(clock)) > 0 ==> Moved(old(txq.View(mem)), txq.View(mem))
    {
      hide Valid, Queued, HasWork, Progress, Moved, FiledAs, BufsOk;
      StoreApart();
      ghost var s0 := txq.View(mem);
      LetDeviceRun(msgs);
      ghost var s1 := txq.View(mem);
      sent := TransmitNext(m, inl, firsts, inls, msgs);
      FiledNext(store.bufs, store.packets, store.frames, s1.log, s1.wire, |s1.reclaimed|, msgs, sent, |txq.reclaimed|);
      if sent == 0 { ProgressBy(s0, s1, txq.View(mem)); }
    }

    lemma RingInv()
      requires Valid()
      ensures Inv(txq.cfg, txq.View(mem)) && Fair(pace)
    {
    }

    /** post_mbufs: with a device that always eventually works, exactly the messages of the batch
        are posted, each once and in order, and the loop ends. Whatever the device reads meanwhile is filed. */
    method PostMbufs(firsts: seq<Ptr>, inls: seq<Inline>, ghost msgs: seq<Msg>)
      requires Valid() && limbo == [] && Queued(mode, txq.cfg, mem.m, build, firsts, inls, msgs) && Filed(msgs)
      modifies this`clock, this`limbo, this`flight, this`build, txq, txq.ring, txq.buffers, txq.cq, mem, store`frames
      modifies mbufPool`used, mbufItems, txPool`used, txItems, rxPool`used, rxItems, refs.counts
      ensures Valid() && Filed([]) && limbo == [] && build == [] && handed == old(handed)
      ensures txq.log == old(txq.log) + msgs && |txq.reclaimed| >= |old(txq.reclaimed)|
    {
      hide Valid, Filed, Inv, Queued, HasWork, Pow2, Wait, Progress, Moved, Fair, Backlog;
      var ct := |firsts|;
      QueuedSizes(mode, txq.cfg, mem.m, build, firsts, inls, msgs);
      RingInv();
      var totalSent := 0;
      while totalSent < ct
        invariant Valid() && limbo == [] && handed == old(handed)
        invariant totalSent <= ct == |inls| == |msgs| && build == old(build)[totalSent..]
        invariant txq.log == old(txq.log) + msgs[..totalSent] && |txq.reclaimed| >= |old(txq.reclaimed)|
        invariant Queued(mode, txq.cfg, mem.m, build, firsts[totalSent..], inls[totalSent..], msgs[totalSent..])
        invariant Filed(msgs[totalSent..])
        decreases ct - totalSent, Backlog(txq.View(mem)), Wait(pace, clock)
      {
        ghost var s, t := txq.View(mem), clock;
        RingInv();
        var sent := TransmitBatch(firsts, totalSent, ct, inls, msgs);
        RingInv();
        if sent == 0 { Measure(txq.cfg, s, txq.View(mem)); }
        if pace(t) == 0 { WaitShrinks(pace, t); }
        SliceJoin(msgs, totalSent, totalSent + sent);
        totalSent := totalSent + sent;
      }
      TakeAll(msgs);
      assert msgs[ct..] == [];
    }

    // ----- building answers ------------------------------------------------------------------

    /** get_server_region for the physical segment of a virtual one. */
    function Address(seg: nat): Ptr
      requires refs.numTotal > 0
    {
      (region + (seg % refs.numTotal) * segmentSize) % W64
    }

    /** The data segments of a zero-copy answer. */
    function Payload(segments: seq<nat>): seq<Seg>
      requires refs.numTotal > 0
    {
      SegmentList(region, segments, refs.numTotal, segmentSize, txLkey)
    }

    /** Between two messages of a batch: what is built so far waits in the queue. */
    ghost predicate Batching(firsts: seq<Ptr>, inls: seq<Inline>, msgs: seq<Msg>)
      reads this, Frame(), RxFrame()
    {
      Valid() && limbo == [] && Queued(mode, txq.cfg, mem.m, build, firsts, inls, msgs)
    }

    /** Inside a message: the last one is linked up to `prev`. */
    ghost predicate Building(firsts: seq<Ptr>, inls: seq<Inline>, msgs: seq<Msg>, prev: Ptr, segs: seq<Seg>)
      reads this, Frame(), RxFrame()
    {
      && Valid() && limbo == [] && build != [] && |build| <= BATCH_SIZE
      && Queued(mode, txq.cfg, mem.m, build[..|build| - 1], firsts, inls, msgs)
      && Partial(mode, mem.m, build[|build| - 1], prev)
      && Describes(mem.m, build[|build| - 1], segs)
    }

    /** Opening a new message. */
    ghost method BeginMessage(firsts: seq<Ptr>, inls: seq<Inline>, msgs: seq<Msg>)
      requires Batching(firsts, inls, msgs) && |build| < BATCH_SIZE
      modifies this`build
      ensures Building(firsts, inls, msgs, NULL, []) && build == old(build) + [[]]
    {
      hide Good, Inv, Queued;
      BeginGood(mode, stock, View(), txq.View(mem), mem.m);
      build := build + [[]];
      assert build[..|build| - 1] == old(build);
    }

    /** mempool_alloc cannot fail here, and a reference count has room. */
    lemma Available(firsts: seq<Ptr>, inls: seq<Inline>, msgs: seq<Msg>, prev: Ptr, segs: seq<Seg>)
      requires Building(firsts, inls, msgs, prev, segs) && !mode.Echo? && |segs| < MAX_SCATTERS
      ensures mbufPool.Free() != [] && (mode.Copy? ==> txPool.Free() != [])
      ensures mode == ZeroCopy(true) ==> forall i :: 0 <= i < |refs.View()| ==> 1 <= refs.View()[i] < 0xffff
    {
      hide Good, Inv, Queued, Partial, Pow2, Blocks, Separate;
      RoomToBuild(mode, stock, View(), txq.cfg, txq.View(mem), mem.m, firsts, inls, msgs);
    }

    /** What the loop body writes into memory. */
    method FillSegmentMbuf(prev: Ptr, p: Ptr, seg: nat)
      requires mode.ZeroCopy? && refs.numTotal > 0 && (prev != NULL ==> prev in mem.m)
      modifies mem
      ensures mem.m == WithSegment(old(mem.m), prev, p, mode.counting, seg, Address(seg), segmentSize, txLkey)
    {
      if prev != NULL {
        mem.m := mem.m[prev := mem.m[prev].(next := p)];
      }
      mem.m := mem.m[p := MbufAt(mem.m, p).(lkey := txLkey, release := ZeroCopyTx)];
      if mode.counting {
        mem.m := mem.m[p := mem.m[p].(releaseData := seg)];
      }
      mem.m := mem.m[p := Initialized(mem.m[p], Address(seg), segmentSize, 0).(len := segmentSize)];
    }

    /** server_change_refcnt on behalf of one mbuf. */
    method CountReference(seg: nat, change: int)
      requires refs.Shape() && seg < refs.numArrays * refs.numTotal && -0x8000 <= change < 0x8000
      modifies refs.counts
      ensures refs.View() == Bump(old(refs.View()), seg, change)
    {
      hide Changed, Place;
      CountNow(seg);
      var currefcnt := refs.Change(seg, change);
    }

    lemma CountNow(seg: nat)
      requires refs.Shape() && seg < refs.numArrays * refs.numTotal
      ensures refs.View()[seg] == refs.Count(seg) == refs.Count(seg) % W16
    {
    }

    /** Allocating, counting and filling one mbuf. */
    method TakeSegment(prev: Ptr, seg: nat) returns (p: Ptr)
      requires Open() && mode.ZeroCopy? && (prev != NULL ==> prev in mem.m)
      requires mbufPool.Free() != [] && mbufPool.Free()[0] != NULL
      requires mode.counting ==> seg < refs.numArrays * refs.numTotal
      modifies mbufPool`used, mem, refs.counts
      ensures PoolsOk() && p == old(mbufPool.Free())[0]
      ensures View() == SegmentTaken(mode.counting, old(View()), seg)
      ensures mem.m == WithSegment(old(mem.m), prev, p, mode.counting, seg, Address(seg), segmentSize, txLkey)
      ensures txq.View(mem) == old(txq.View(mem)).(numWqes := BlockCounts(mem.m))
    {
      hide WithSegment, Address, BlockCounts, Bump;
      p := mbufPool.Alloc();
      if p == NULL {
        assert false;
      }
      if mode.counting {
        CountReference(seg, 1);
      }
      FillSegmentMbuf(prev, p, seg);
    }

    /** The message under construction has grown. */
    ghost method Record(b: Books, firsts: seq<Ptr>, inls: seq<Inline>, msgs: seq<Msg>, prev: Ptr, segs: seq<Seg>)
      requires Separate() && Dimensioned() && PoolsOk() && refs.Shape() && |rxq.delivered| <= |rxq.posts| && txq.Valid(mem)
      requires b == View().(build := b.build) && limbo == [] && 0 < |b.build| <= BATCH_SIZE
      requires Good(mode, stock, b, txq.View(mem), mem.m)
      requires Queued(mode, txq.cfg, mem.m, b.build[..|b.build| - 1], firsts, inls, msgs)
      requires Partial(mode, mem.m, b.build[|b.build| - 1], prev) && Describes(mem.m, b.build[|b.build| - 1], segs)
      modifies this`build
      ensures Building(firsts, inls, msgs, prev, segs) && build == b.build && View() == b
    {
      hide Good, Inv, Queued, Partial, Describes, Pow2, Blocks;
      build := b.build;
      assert View() == b;
    }

    /** Memory, ring and pools were in the state given by `b`, `s` and `h` before one mbuf was
        taken for segment `seg`. */
    ghost method RecordSegment(b: Books, s: Tx, h: Heap, prev: Ptr, seg: nat, firsts: seq<Ptr>, inls: seq<Inline>, msgs: seq<Msg>,
                               segs: seq<Seg>)
      requires mode.ZeroCopy? && Good(mode, stock, b, s, h) && Inv(txq.cfg, s) && s.numWqes == BlockCounts(h)
      requires b.build != [] && |b.build| <= BATCH_SIZE && b.mbufFree != [] && b.limbo == []
      requires mode.counting ==> seg < |b.refs| && b.refs[seg] < 0xffff
      requires Queued(mode, txq.cfg, h, b.build[..|b.build| - 1], firsts, inls, msgs)
      requires Partial(mode, h, b.build[|b.build| - 1], prev) && Describes(h, b.build[|b.build| - 1], segs)
      requires Separate() && Dimensioned() && PoolsOk() && refs.Shape() && |rxq.delivered| <= |rxq.posts|
      requires View() == SegmentTaken(mode.counting, b, seg)
      requires txq.View(mem) == s.(numWqes := BlockCounts(mem.m))
      requires mem.m == WithSegment(h, prev, b.mbufFree[0], mode.counting, seg, Address(seg), segmentSize, txLkey)
      modifies this`build
      ensures Building(firsts, inls, msgs, b.mbufFree[0], segs + [Seg(segmentSize, txLkey, Address(seg))])
      ensures |build| == |b.build| && build[..|build| - 1] == b.build[..|b.build| - 1]
      ensures First(build[|build| - 1]) == if segs == [] then b.mbufFree[0] else First(b.build[|b.build| - 1])
    {
      hide Good, Inv, Queued, Partial, Describes, WithSegment, SegmentTaken, AddSegment, Address, Dimensioned, Separate, PoolsOk;
      hide BlockCounts, First;
      SegmentAdded(mode.counting, b, View(), seg);
      SegmentGood(mode, stock, b, txq.cfg, s, h, firsts, inls, msgs, prev, seg, segs, Address(seg), segmentSize, txLkey, mem.m);
      FirstGrows(mode, b, h, seg, segs);
      Record(AddSegment(mode, b, seg), firsts, inls, msgs, b.mbufFree[0], segs + [Seg(segmentSize, txLkey, Address(seg))]);
    }

    /** One round of the loop over the segments of an answer. The allocation succeeds. */
    method AddOne(prev: Ptr, seg: nat, ghost firsts: seq<Ptr>, ghost inls: seq<Inline>, ghost msgs: seq<Msg>, ghost segs: seq<Seg>)
      returns (p: Ptr)
      requires Building(firsts, inls, msgs, prev, segs) && mode.ZeroCopy? && |segs| < MAX_SCATTERS
      requires mode.counting ==> seg < refs.numArrays * refs.numTotal
      modifies this`build, mbufPool`used, mem, refs.counts
      ensures Building(firsts, inls, msgs, p, segs + [Seg(segmentSize, txLkey, Address(seg))])
      ensures |build| == |old(build)| && build[..|build| - 1] == old(build)[..|build| - 1]
      ensures First(build[|build| - 1]) == if segs == [] then p else First(old(build)[|build| - 1])
    {
      hide Valid, Separate, Good, Inv, Queued, Partial, Describes, WithSegment, SegmentTaken, Address, Dimensioned, PoolsOk;
      hide BlockCounts, First;
      Opened();
      ghost var b, s, h := View(), txq.View(mem), mem.m;
      Available(firsts, inls, msgs, prev, segs);
      PrevInMessage(mode, h, build[|build| - 1], prev);
      NewMbufApart(mode, stock, b, s, h, b.mbufFree[0]);
      p := TakeSegment(prev, seg);
      RecordSegment(b, s, h, prev, seg, firsts, inls, msgs, segs);
    }

    /** The zero-copy answer to one request. */
    method BuildZeroCopy(segments: seq<nat>, header: RequestHeader, ghost firsts: seq<Ptr>, ghost inls: seq<Inline>, ghost msgs: seq<Msg>)
      returns (first: Ptr)
      requires Batching(firsts, inls, msgs) && |build| < BATCH_SIZE && mode.ZeroCopy?
      requires |segments| == numSegments && Header(header).Valid()
      requires mode.counting ==> forall i :: 0 <= i < |segments| ==> segments[i] < refs.numArrays * refs.numTotal
      modifies this`build, mbufPool`used, mem, refs.counts
      ensures Batching(firsts + [first], inls + [Header(header)], msgs + [Msg(first, Header(header), Payload(segments))])
      ensures |build| == |old(build)| + 1 && MbufAt(mem.m, first).pktLen == segmentSize * numSegments
    {
      hide Valid, Good, Inv, Queued, Partial, Describes, Pow2, Blocks, Building, Batching;
      Sizing(firsts, inls, msgs);
      BeginMessage(firsts, inls, msgs);
      var prev := NULL;
      first := NULL;
      for seg := 0 to numSegments
        invariant Building(firsts, inls, msgs, prev, Payload(segments)[..seg]) && |build| == |old(build)| + 1
        invariant seg > 0 ==> first == First(build[|build| - 1])
      {
        prev := AddOne(prev, segments[seg], firsts, inls, msgs, Payload(segments)[..seg]);
        TakeNext(Payload(segments), seg);
        if seg == 0 {
          first := prev;
        }
      }
      TakeAll(Payload(segments));
      Finish(first, prev, numSegments, segmentSize * numSegments, Header(header), firsts, inls, msgs, Payload(segments));
    }

    lemma Sizing(firsts: seq<Ptr>, inls: seq<Inline>, msgs: seq<Msg>)
      requires Batching(firsts, inls, msgs) && !mode.Echo?
      ensures numSegments <= MAX_SCATTERS && refs.numTotal > 0 && numSegments * segmentSize + HEADER_LEN < W32
      ensures WorkingData().Valid() && (mode.Copy? ==> HEADER_LEN + numSegments * segmentSize <= dataMbufsSize)
      ensures mode.ZeroCopy? ==> numSegments > 0 && Blocks(HEADER_LEN, numSegments) <= txq.cfg.WqeCnt()
    {
      hide Good, Inv, Pow2, Blocks;
    }

    /** Completing the message under construction. */
    method Finish(first: Ptr, last: Ptr, n: u32, pktLen: u32, ghost inl: Inline, ghost firsts: seq<Ptr>, ghost inls: seq<Inline>,
                  ghost msgs: seq<Msg>, ghost segs: seq<Seg>)
      requires Building(firsts, inls, msgs, last, segs) && first == First(build[|build| - 1])
      requires 0 < |segs| == n <= MAX_SCATTERS && (mode.Echo? ==> |segs| == 1)
      requires inl.Valid() && Blocks(inl.Len(), |segs|) <= txq.cfg.WqeCnt()
      modifies mem
      ensures Batching(firsts + [first], inls + [inl], msgs + [Msg(first, inl, segs)])
      ensures MbufAt(mem.m, first).pktLen == pktLen
    {
      hide Good, Inv, Queued, Partial, Describes, Pow2, Blocks, Finished;
      ghost var b, s, h := View(), txq.View(mem), mem.m;
      PartialEnds(mode, h, build[|build| - 1], last, segs);
      FinishWrites(first, last, n, pktLen);
      FinishedLength(h, first, last, n, pktLen);
      FinishGood(mode, stock, b, txq.cfg, s, h, firsts, inls, msgs, last, segs, inl, pktLen, mem.m);
      assert txq.View(mem) == s.(numWqes := BlockCounts(mem.m));
    }

    method FinishWrites(first: Ptr, last: Ptr, n: u32, pktLen: u32)
      requires first in mem.m && last in mem.m
      modifies mem
      ensures mem.m == Finished(old(mem.m), first, last, n, pktLen)
    {
      mem.m := mem.m[first := mem.m[first].(nbSegs := n)];
      mem.m := mem.m[last := mem.m[last].(next := NULL)];
      mem.m := mem.m[first := mem.m[first].(pktLen := pktLen)];
    }

    /** Allocating and filling the mbuf and the buffer of a copied answer. */
    method TakePacket(len: u32) returns (p: Ptr, buf: Ptr)
      requires Open() && mbufPool.Free() != [] && mbufPool.Free()[0] != NULL && txPool.Free() != [] && txPool.Free()[0] != NULL
      modifies mbufPool`used, txPool`used, mem
      ensures PoolsOk() && p == old(mbufPool.Free())[0] && buf == old(txPool.Free())[0]
      ensures old(TxFree()) == [buf] + TxFree()
      ensures View() == old(View()).(mbufFree := old(mbufPool.Free())[1..], txFree := old(txPool.Free())[1..])
      ensures mem.m == WithPacket(old(mem.m), p, buf, dataMbufsSize, len, txLkey)
      ensures txq.View(mem) == old(txq.View(mem)).(numWqes := BlockCounts(mem.m))
    {
      hide BlockCounts;
      p := mbufPool.Alloc();
      if p == NULL {
        assert false;
      }
      buf := txPool.Alloc();
      if buf == NULL {
        assert false;
      }
      FillPacketMbuf(p, buf, len);
    }

    method FillPacketMbuf(p: Ptr, buf: Ptr, len: u32)
      modifies mem
      ensures mem.m == WithPacket(old(mem.m), p, buf, dataMbufsSize, len, txLkey)
    {
      mem.m := mem.m[p := MbufAt(mem.m, p).(lkey := txLkey)];
      mem.m := mem.m[p := Initialized(mem.m[p], buf, dataMbufsSize, 0)];
      mem.m := mem.m[p := mem.m[p].(release := CopyTx, next := NULL)];
      mem.m := mem.m[p := mem.m[p].(nbSegs := 1, pktLen := len, len := len)];
    }

    /** The books after a copied answer has been built. */
    ghost method RecordPacket(b: Books, s: Tx, h: Heap, firsts: seq<Ptr>, inls: seq<Inline>, msgs: seq<Msg>, len: u32)
      requires mode.Copy? && Good(mode, stock, b, s, h) && Inv(txq.cfg, s) && s.numWqes == BlockCounts(h) && b.limbo == []
      requires b.build != [] && b.build[|b.build| - 1] == [] && b.mbufFree != [] && b.txFree != []
      requires Queued(mode, txq.cfg, h, b.build[..|b.build| - 1], firsts, inls, msgs)
      requires Separate() && Dimensioned() && PoolsOk() && refs.Shape() && |rxq.delivered| <= |rxq.posts|
      requires View() == b.(mbufFree := b.mbufFree[1..], txFree := b.txFree[1..])
      requires txq.View(mem) == s.(numWqes := BlockCounts(mem.m))
      requires mem.m == WithPacket(h, b.mbufFree[0], b.txFree[0], dataMbufsSize, len, txLkey)
      modifies this`build
      ensures Batching(firsts + [b.mbufFree[0]], inls + [NoHeader],
                       msgs + [Msg(b.mbufFree[0], NoHeader, [Seg(len, txLkey, b.txFree[0])])])
      ensures |build| == |b.build|
    {
      hide Good, Inv, Queued, WithPacket, AddPacket, BlockCounts, Pow2, Blocks;
      PacketAdded(b, View());
      PacketGood(stock, b, txq.cfg, s, h, firsts, inls, msgs, dataMbufsSize, len, txLkey, mem.m);
      build := AddPacket(b).build;
      assert View() == AddPacket(b);
    }

    /** Free transmit buffers, next one first. */
    ghost function TxFree(): seq<Ptr>
      reads txPool, txPool.freeItems
    {
      if txPool.Valid() then txPool.Free() else []
    }

    /** The mbuf and the buffer of a copied answer. */
    method BuildBuffer(ghost firsts: seq<Ptr>, ghost inls: seq<Inline>, ghost msgs: seq<Msg>) returns (first: Ptr, buf: Ptr)
      requires Batching(firsts, inls, msgs) && |build| < BATCH_SIZE && mode.Copy?
      modifies this`build, mbufPool`used, txPool`used, mem
      ensures Batching(firsts + [first], inls + [NoHeader], msgs + [Msg(first, NoHeader, [Seg(PacketLen(), txLkey, buf)])])
      ensures |build| == |old(build)| + 1
      ensures old(TxFree()) == [buf] + TxFree() && buf in stock.txs && MbufAt(mem.m, first).pktLen == PacketLen()
    {
      hide Valid, Separate, Good, Inv, Queued, Building, Batching, WithPacket, Dimensioned, PoolsOk, BlockCounts, TxFree;
      Sizing(firsts, inls, msgs);
      BeginMessage(firsts, inls, msgs);
      CopyRoom(firsts, inls, msgs);
      ghost var b, s, h := View(), txq.View(mem), mem.m;
      first, buf := TakePacket(HEADER_LEN + numSegments * segmentSize);
      RecordPacket(b, s, h, firsts, inls, msgs, HEADER_LEN + numSegments * segmentSize);
      PacketLength(h, first, buf, dataMbufsSize, HEADER_LEN + numSegments * segmentSize, txLkey);
    }

    /** There are an mbuf and a buffer for a copied answer. */
    lemma CopyRoom(firsts: seq<Ptr>, inls: seq<Inline>, msgs: seq<Msg>)
      requires Building(firsts, inls, msgs, NULL, []) && mode.Copy?
      ensures Open() && Dimensioned() && Good(mode, stock, View(), txq.View(mem), mem.m) && Inv(txq.cfg, txq.View(mem))
      ensures limbo == [] && build != [] && build[|build| - 1] == [] && Queued(mode, txq.cfg, mem.m, build[..|build| - 1], firsts, inls, msgs)
      ensures mbufPool.Free() != [] && mbufPool.Free()[0] != NULL && txPool.Free() != [] && txPool.Free()[0] != NULL
      ensures txPool.Free()[0] in stock.txs
    {
      hide Separate, Good, Inv, Queued, PoolsOk, Dimensioned, Describes, Partial;
      Opened();
      var b, s, h := View(), txq.View(mem), mem.m;
      Available(firsts, inls, msgs, NULL, []);
      PrevInMessage(mode, h, build[|build| - 1], NULL);
      NewMbufApart(mode, stock, b, s, h, b.mbufFree[0]);
      FreeBuffer(mode, stock, b, s, h);
      TxFreeOnce(stock, b, s, h);
    }

    /** Nothing that the rings and pools depend on is in the store of answers. */
    lemma StoreApart()
      ensures store !in Frame() && store !in RxFrame() && (store as object) != this
    {
    }

    /** The buffer holds the answer to `info`, up to the two fields that are not written. */
    ghost predicate Packed(bufs: map<Ptr, seq<byte>>, info: Request, buf: Ptr) {
      && buf in bufs && PacketLen() <= |bufs[buf]| && WorkingData().Valid() && Readable(info, numSegments)
      && SameFrame(Wanted(WorkingData(), info, numSegments), bufs[buf][..PacketLen()])
    }

    static ghost predicate SameBut(bufs: map<Ptr, seq<byte>>, bufs': map<Ptr, seq<byte>>, buf: Ptr) {
      forall p :: p in bufs && p != buf ==> p in bufs' && bufs'[p] == bufs[p]
    }

    /** Header and segments are copied into the buffer, which has room for them. */
    method WriteAnswer(buf: Ptr, info: Request)
      requires buf in stock.txs && BufsOk() && WorkingData().Valid() && Readable(info, numSegments)
      requires HEADER_LEN + numSegments * segmentSize <= dataMbufsSize
      modifies store`bufs
      ensures BufsOk() && Packed(store.bufs, info, buf) && SameBut(old(store.bufs), store.bufs, buf)
    {
      hide Wanted, SameFrame;
      store.WritePacket(buf, WorkingData(), info, numSegments);
    }

    /** The copied answer to one request. */
    method BuildCopy(info: Request, ghost firsts: seq<Ptr>, ghost inls: seq<Inline>, ghost msgs: seq<Msg>)
      returns (first: Ptr, ghost buf: Ptr)
      requires Batching(firsts, inls, msgs) && |build| < BATCH_SIZE && mode.Copy? && BufsOk() && Readable(info, numSegments)
      modifies this`build, mbufPool`used, txPool`used, mem, store`bufs
      ensures Batching(firsts + [first], inls + [NoHeader], msgs + [Msg(first, NoHeader, [Seg(PacketLen(), txLkey, buf)])])
      ensures |build| == |old(build)| + 1 && MbufAt(mem.m, first).pktLen == PacketLen()
      ensures old(TxFree()) == [buf] + TxFree() && buf in stock.txs
      ensures BufsOk() && Packed(store.bufs, info, buf) && SameBut(old(store.bufs), store.bufs, buf)
    {
      hide Batching, PacketLen, Packed, BufsOk, SameBut, TxFree;
      StoreApart();
      Sizing(firsts, inls, msgs);
      var buffer;
      first, buffer := BuildBuffer(firsts, inls, msgs);
      WriteAnswer(buffer, info);
      buf := buffer;
    }

    ghost function PacketLen(): u32 {
      if HEADER_LEN + numSegments * segmentSize < W32 then HEADER_LEN + numSegments * segmentSize else 0
    }

    // ----- echoing requests ------------------------------------------------------------------

    /** flip_headers refuses a packet whose buffer is too small for the answer. */
    function EchoLen(): nat { numSegments * segmentSize + requestHeaderSize }

    /** The mbuf of the packet describes the answer. */
    ghost predicate Echoed(h: Heap, h': Heap, request: Ptr) {
      EchoLen() < W32 && request in h && h' == h[request := EchoMbuf(h[request], EchoLen(), rxLkey)]
    }

    /** Preparing one received packet to be sent back. */
    method PrepareEcho(request: Ptr) returns (ret: int)
      requires Valid() && mode.Echo? && limbo == [] && request in handed && request in mem.m
      modifies mem
      ensures Valid() && ret == if MbufAt(old(mem.m), request).headLen < EchoLen() then -EINVAL else 0
      ensures ret == 0 ==> Echoed(old(mem.m), mem.m, request)
      ensures AgreeOutside(old(mem.m), mem.m, [request])
    {
      hide Good, Inv, BlockCounts, Pow2, Blocks;
      ghost var b, s, h := View(), txq.View(mem), mem.m;
      mem.m := mem.m[request := mem.m[request].(nbSegs := 1, next := NULL, lkey := rxLkey)];
      ret := if mem.m[request].headLen < EchoLen() then -EINVAL else 0;
      if ret == 0 {
        mem.m := mem.m[request := mem.m[request].(len := EchoLen())];
      }
      HeldWrites(stock, b, txq.cfg, s, h, mem.m, request);
      assert txq.View(mem) == s.(numWqes := BlockCounts(mem.m));
    }

    /** Nothing is inlined when packets are echoed. */
    static function NoHeaders(n: nat): seq<Inline> { if n == 0 then [] else NoHeaders(n - 1) + [NoHeader] }

    static lemma NoHeadersNext(n: nat)
      ensures NoHeaders(0) == [] && NoHeaders(n + 1) == NoHeaders(n) + [NoHeader]
    {
    }

    /** What echoing `requests` posts. */
    ghost function Echoes(h: Heap, requests: seq<Ptr>): seq<Msg>
      requires forall p :: p in requests ==> p in h
    {
      seq(|requests|, i requires 0 <= i < |requests| =>
        Msg(requests[i], NoHeader, [Seg(h[requests[i]].len, h[requests[i]].lkey, h[requests[i]].data)]))
    }

    /** Prepared packets become messages to send. */
    ghost method SendBack(requests: seq<Ptr>)
      requires Valid() && mode.Echo? && limbo == [] && build == [] && multiset(requests) <= handed
      requires forall p :: p in requests ==> p in mem.m && mem.m[p].nbSegs == 1 && mem.m[p].next == NULL
      modifies this`build, this`handed
      ensures Batching(requests, NoHeaders(|requests|), Echoes(mem.m, requests))
      ensures handed == old(handed) - multiset(requests)
    {
      hide Valid, Batching, Echoes, NoHeaders;
      NoHeadersNext(0);
      StartBatch();
      ghost var i, ms, was := 0, Echoes(mem.m, requests), handed;
      EchoesAt(requests);
      while i < |requests|
        invariant i <= |requests| && Batching(requests[..i], NoHeaders(i), ms[..i])
        invariant handed == was - multiset(requests[..i])
      {
        SendNextBack(requests, i, ms, was);
        i := i + 1;
      }
      TakeAll(ms);
      TakeAll(requests);
    }

    /** One more prepared packet becomes a message. */
    ghost method SendNextBack(requests: seq<Ptr>, i: nat, ms: seq<Msg>, was: multiset<Ptr>)
      requires i < |requests| == |ms| && Batching(requests[..i], NoHeaders(i), ms[..i]) && mode.Echo?
      requires multiset(requests) <= was && handed == was - multiset(requests[..i])
      requires var p := requests[i];
        && p in mem.m && mem.m[p].nbSegs == 1 && mem.m[p].next == NULL
        && ms[i] == Msg(p, NoHeader, [Seg(mem.m[p].len, mem.m[p].lkey, mem.m[p].data)])
      modifies this`build, this`handed
      ensures Batching(requests[..i + 1], NoHeaders(i + 1), ms[..i + 1]) && handed == was - multiset(requests[..i + 1])
    {
      hide Batching, NoHeaders;
      NextRequest(was, requests, i);
      SendOneBack(requests[i], requests[..i], NoHeaders(i), ms[..i]);
      NoHeadersNext(i);
      TakeNext(ms, i);
      TakeNext(requests, i);
    }

    lemma EchoesAt(requests: seq<Ptr>)
      requires forall p :: p in requests ==> p in mem.m
      ensures forall i :: 0 <= i < |requests| ==>
        Echoes(mem.m, requests)[i] ==
          Msg(requests[i], NoHeader, [Seg(mem.m[requests[i]].len, mem.m[requests[i]].lkey, mem.m[requests[i]].data)])
      ensures |Echoes(mem.m, requests)| == |requests|
    {
    }

    lemma StartBatch()
      requires Valid() && limbo == [] && build == []
      ensures Batching([], [], [])
    {
      hide Good, Inv, Pow2, Blocks;
    }

    ghost method SendOneBack(p: Ptr, firsts: seq<Ptr>, inls: seq<Inline>, msgs: seq<Msg>)
      requires Batching(firsts, inls, msgs) && mode.Echo? && p in handed
      requires p in mem.m && mem.m[p].nbSegs == 1 && mem.m[p].next == NULL
      modifies this`build, this`handed
      ensures Batching(firsts + [p], inls + [NoHeader],
                       msgs + [Msg(p, NoHeader, [Seg(mem.m[p].len, mem.m[p].lkey, mem.m[p].data)])])
      ensures handed == old(handed) - multiset{p}
    {
      hide Good, Inv, Queued, Pow2, Blocks;
      ghost var b := View();
      HeldOnce(mode, stock, b, txq.View(mem), mem.m, p);
      EchoGood(stock, b, txq.cfg, txq.View(mem), mem.m, p, firsts, inls, msgs);
      build, handed := build + [[Held(p, NULL, 0)]], handed - multiset{p};
      assert View() == AddRequest(b, p);
    }

    static lemma NextRequest(was: multiset<Ptr>, requests: seq<Ptr>, i: nat)
      requires i < |requests| && multiset(requests) <= was
      ensures requests[i] in was - multiset(requests[..i])
      ensures was - multiset(requests[..i]) - multiset{requests[i]} == was - multiset(requests[..i + 1])
    {
      assert requests == requests[..i] + requests[i..];
      assert requests[i..] == [requests[i]] + requests[i + 1..];
      assert requests[..i + 1] == requests[..i] + [requests[i]];
    }

    /** A request whose buffer is too small for the answer. */
    ghost predicate TooSmall(h: Heap, requests: seq<Ptr>) {
      exists i :: 0 <= i < |requests| && requests[i] in h && h[requests[i]].headLen < EchoLen()
    }

    /** The answers: each request itself, `EchoLen` bytes from its data. */
    ghost function EchoAnswers(h: Heap, requests: seq<Ptr>): seq<Msg>
      requires EchoLen() < W32 && forall p :: p in requests ==> p in h
    {
      seq(|requests|, i requires 0 <= i < |requests| =>
        Msg(requests[i], NoHeader, [Seg(EchoLen(), rxLkey, h[requests[i]].data)]))
    }

    /** Each packet comes back from where its data start: header and as many bytes as the segments asked for would have. */
    lemma EchoedWhole(h: Heap, requests: seq<Ptr>, i: nat)
      requires EchoLen() < W32 && (forall p :: p in requests ==> p in h) && i < |requests|
      ensures var m := EchoAnswers(h, requests)[i];
        && m.mbuf == requests[i] && m.inl == NoHeader && |m.segs| == 1 && m.segs[0].addr == h[requests[i]].data
        && m.segs[0].byteCount == requestHeaderSize + segmentSize * numSegments
    {
    }

    /** process_echo_requests: all packets are sent back, or, when one buffer is too small, none. */
    method ProcessEchoRequests(requests: seq<Ptr>) returns (ret: int)
      requires Valid() && Filed([]) && mode.Echo? && limbo == [] && build == [] && multiset(requests) <= handed
      requires forall p :: p in requests ==> p in mem.m
      modifies this`clock, this`limbo, this`flight, this`build, this`handed, txq, txq.ring, txq.buffers, txq.cq, mem
      modifies mbufPool`used, mbufItems, txPool`used, txItems, rxPool`used, rxItems, refs.counts, store`frames
      ensures Valid() && Filed([]) && limbo == [] && build == []
      ensures ret == if requests != [] && stock.rxLen < EchoLen() then -EINVAL else 0
      ensures ret == 0 && requests != [] ==>
        EchoLen() < W32 && txq.log == old(txq.log) + EchoAnswers(old(mem.m), requests)
      ensures requests == [] ==> txq.log == old(txq.log)
      ensures ret == 0 ==> handed == old(handed) - multiset(requests)
      ensures ret != 0 ==> handed == old(handed) && txq.log == old(txq.log)
    {
      hide Valid, Batching, Echoes, EchoMbuf, EchoAnswers, Intact;
      StoreApart();
      ghost var h := mem.m;
      RefusedExact(requests);
      ret := PrepareAll(requests);
      if ret != 0 {
        return;
      }
      PreparedAnswers(h, mem.m, requests);
      EchoesAt(requests);
      SendBack(requests);
      BatchQueued(requests, NoHeaders(|requests|), Echoes(mem.m, requests));
      PostMbufs(requests, NoHeaders(|requests|), Echoes(mem.m, requests));
    }

    /** All receive buffers have the same size: either every packet can hold the answer or none can. */
    lemma RefusedExact(requests: seq<Ptr>)
      requires Valid() && multiset(requests) <= handed
      ensures TooSmall(mem.m, requests) <==> requests != [] && stock.rxLen < EchoLen()
    {
      hide Inv, Balanced, Link, Sound, Pow2, Blocks, EchoLen;
      InMultiset(requests, handed);
      forall i | 0 <= i < |requests| ensures requests[i] in mem.m && mem.m[requests[i]].headLen == stock.rxLen {
        assert requests[i] in requests;
        assert HandedOk(mem.m, requests[i], stock.rxLen);
      }
      if requests != [] && stock.rxLen < EchoLen() { assert requests[0] in mem.m; }
    }

    lemma BatchQueued(firsts: seq<Ptr>, inls: seq<Inline>, msgs: seq<Msg>)
      requires Batching(firsts, inls, msgs)
      ensures Valid() && limbo == [] && Queued(mode, txq.cfg, mem.m, build, firsts, inls, msgs)
    {
      hide Valid, Queued;
    }

    /** The first `i` packets are prepared, the rest untouched. */
    ghost predicate Prepared(h0: Heap, h: Heap, requests: seq<Ptr>, i: nat)
      requires i <= |requests| && forall p :: p in requests ==> p in h0
    {
      && (forall p :: p in h0 ==> p in h && h[p].headLen == h0[p].headLen && (p !in requests[..i] ==> h[p] == h0[p]))
      && (forall p :: p in requests[..i] ==> EchoLen() < W32 && p in h && h[p] == EchoMbuf(h0[p], EchoLen(), rxLkey))
    }

    /** The loop of process_echo_requests. */
    method PrepareAll(requests: seq<Ptr>) returns (ret: int)
      requires Valid() && mode.Echo? && limbo == [] && multiset(requests) <= handed
      requires forall p :: p in requests ==> p in mem.m
      modifies mem
      ensures Valid() && ret == if TooSmall(old(mem.m), requests) then -EINVAL else 0
      ensures ret == 0 ==> Prepared(old(mem.m), mem.m, requests, |requests|)
    {
      hide Valid, Prepared, EchoMbuf;
      ghost var h := mem.m;
      PreparedNone(h, requests);
      for i := 0 to |requests|
        invariant Valid() && Prepared(h, mem.m, requests, i)
        invariant forall k :: 0 <= k < i ==> h[requests[k]].headLen >= EchoLen()
      {
        NextRequest(handed, requests, i);
        ghost var h1 := mem.m;
        PreparedHas(h, h1, requests, i);
        assert requests[i] in requests;
        ret := PrepareEcho(requests[i]);
        if ret != 0 {
          return;
        }
        PreparedNext(h, h1, mem.m, requests, i);
      }
      ret := 0;
    }

    lemma PreparedNone(h: Heap, requests: seq<Ptr>)
      requires forall p :: p in requests ==> p in h
      ensures Prepared(h, h, requests, 0)
    {
    }

    lemma PreparedHas(h0: Heap, h: Heap, requests: seq<Ptr>, i: nat)
      requires i < |requests| && (forall p :: p in requests ==> p in h0) && Prepared(h0, h, requests, i)
      ensures requests[i] in h && h[requests[i]].headLen == h0[requests[i]].headLen
    {
      assert requests[i] in requests;
    }

    lemma PreparedNext(h0: Heap, h: Heap, h': Heap, requests: seq<Ptr>, i: nat)
      requires i < |requests| && (forall p :: p in requests ==> p in h0) && Prepared(h0, h, requests, i)
      requires requests[i] in h && EchoLen() < W32 && h' == h[requests[i] := EchoMbuf(h[requests[i]], EchoLen(), rxLkey)]
      ensures Prepared(h0, h', requests, i + 1)
    {
      TakeNext(requests, i);
      assert requests[i] in requests;
    }

    /** What prepared packets post. */
    lemma PreparedAnswers(h0: Heap, h: Heap, requests: seq<Ptr>)
      requires (forall p :: p in requests ==> p in h0) && Prepared(h0, h, requests, |requests|)
      ensures forall p :: p in requests ==> p in h && h[p].nbSegs == 1 && h[p].next == NULL
      ensures requests != [] ==> EchoLen() < W32 && Echoes(h, requests) == EchoAnswers(h0, requests)
    {
      TakeAll(requests);
      if requests != [] {
        assert requests[0] in requests;
        forall i | 0 <= i < |requests| ensures Echoes(h, requests)[i] == EchoAnswers(h0, requests)[i] {
          assert requests[i] in requests;
        }
      }
    }

    // ----- processing requests ---------------------------------------------------------------

    /** The requests name as many segments as configured, all of them counted. */
    ghost predicate WellFormed(infos: seq<Request>) {
      forall i :: 0 <= i < |infos| ==> RequestOk(infos[i])
    }

    ghost predicate RequestOk(r: Request) {
      && Readable(r, numSegments)
      && (mode == ZeroCopy(true) ==>
            forall k :: 0 <= k < numSegments ==> SegmentIds(r.pkt, numSegments)[k] < refs.numArrays * refs.numTotal)
    }

    /** `m` answers `r`: the reversed header inlined before the segments asked for, or one transmit buffer as
        long as the packet. */
    ghost predicate Answers(r: Request, m: Msg) {
      match mode
      case ZeroCopy(_) =>
        WorkingData().Valid() && Readable(r, numSegments) && m == ZeroCopyMsg(WorkingData(), r, numSegments, m.mbuf)
      case Copy => m.inl == NoHeader && |m.segs| == 1 && m.segs[0] == Seg(PacketLen(), txLkey, m.segs[0].addr) && m.segs[0].addr in stock.txs
      case Echo => true
    }

    ghost predicate AllAnswer(infos: seq<Request>, msgs: seq<Msg>) {
      |infos| == |msgs| && forall i :: 0 <= i < |infos| ==> Answers(infos[i], msgs[i])
    }

    /** Packets that are the answers asked for, up to the two fields that are not written. */
    ghost predicate AllWanted(infos: seq<Request>, bs: seq<seq<byte>>) {
      |infos| == |bs| && forall i :: 0 <= i < |infos| ==> IsWanted(infos[i], bs[i])
    }

    ghost predicate IsWanted(r: Request, b: seq<byte>) {
      WorkingData().Valid() && Readable(r, numSegments) && SameFrame(Wanted(WorkingData(), r, numSegments), b)
    }

    /** The answer to one request, zero-copy or copied. */
    method BuildAnswer(info: Request, i: nat, ghost firsts: seq<Ptr>, ghost inls: seq<Inline>, ghost msgs: seq<Msg>)
      returns (first: Ptr, inl: Inline, ghost msg: Msg)
      requires Batching(firsts, inls, msgs) && |build| < BATCH_SIZE && !mode.Echo? && RequestOk(info)
      requires i < BATCH_SIZE && store.HeadersOk(BATCH_SIZE) && (mode.Copy? ==> BufsOk())
      modifies this`build, mbufPool`used, txPool`used, mem, refs.counts, store`headers, store`bufs
      ensures Batching(firsts + [first], inls + [inl], msgs + [msg]) && |build| == |old(build)| + 1
      ensures Answers(info, msg) && store.HeadersOk(BATCH_SIZE) && (mode.Copy? ==> BufsOk())
      ensures mode.Copy? ==> |msg.segs| == 1 && old(TxFree()) == [msg.segs[0].addr] + TxFree()
      ensures mode.Copy? ==> Packed(store.bufs, info, msg.segs[0].addr) && SameBut(old(store.bufs), store.bufs, msg.segs[0].addr)
    {
      hide Valid, Batching, PacketLen, AnswerHeader, SegmentIds, SegmentList, TxFree, BufsOk, Packed, SameBut;
      StoreApart();
      Sizing(firsts, inls, msgs);
      if mode.ZeroCopy? {
        store.WriteSlot(i, BATCH_SIZE, info, numSegments * segmentSize + 16);
        var h := store.headers[i];
        first := BuildZeroCopy(SegmentIds(info.pkt, numSegments), h, firsts, inls, msgs);
        inl, msg := Header(h), Msg(first, Header(h), Payload(SegmentIds(info.pkt, numSegments)));
      } else {
        ghost var buf;
        first, buf := BuildCopy(info, firsts, inls, msgs);
        inl, msg := NoHeader, Msg(first, NoHeader, [Seg(PacketLen(), txLkey, buf)]);
      }
    }

    /** The messages are sent from the first buffers of `free`, one each. */
    static ghost predicate FromFree(free: seq<Ptr>, msgs: seq<Msg>) {
      |msgs| <= |free| && forall k :: 0 <= k < |msgs| ==> |msgs[k].segs| == 1 && msgs[k].segs[0].addr == free[k]
    }

    /** Buffers that are not in `free` are as before. */
    static ghost predicate Spared(bufs: map<Ptr, seq<byte>>, bufs': map<Ptr, seq<byte>>, free: seq<Ptr>) {
      forall p :: p in bufs && p !in free ==> p in bufs' && bufs'[p] == bufs[p]
    }

    ghost predicate AllPacked(bufs: map<Ptr, seq<byte>>, infos: seq<Request>, msgs: seq<Msg>) {
      |infos| == |msgs| && forall k :: 0 <= k < |msgs| ==> |msgs[k].segs| == 1 && Packed(bufs, infos[k], msgs[k].segs[0].addr)
    }

    /** What copying the answers of a batch has done to the buffers so far. */
    ghost predicate Copying(bufs0: map<Ptr, seq<byte>>, bufs: map<Ptr, seq<byte>>, free0: seq<Ptr>, free: seq<Ptr>,
                            infos: seq<Request>, msgs: seq<Msg>) {
      && FromFree(free0, msgs) && free == free0[|msgs|..] && AllPacked(bufs, infos, msgs) && Spared(bufs0, bufs, free0)
    }

    lemma CopyingNone(bufs: map<Ptr, seq<byte>>, free: seq<Ptr>)
      ensures Copying(bufs, bufs, free, free, [], [])
    {
    }

    lemma CopyingNext(bufs0: map<Ptr, seq<byte>>, bufs: map<Ptr, seq<byte>>, bufs': map<Ptr, seq<byte>>, free0: seq<Ptr>,
                      free: seq<Ptr>, free': seq<Ptr>, infos: seq<Request>, msgs: seq<Msg>, info: Request, msg: Msg)
      requires Copying(bufs0, bufs, free0, free, infos, msgs)
      requires forall i, j :: 0 <= i < j < |free0| ==> free0[i] != free0[j]
      requires |msg.segs| == 1 && free == [msg.segs[0].addr] + free'
      requires Packed(bufs', info, msg.segs[0].addr) && SameBut(bufs, bufs', msg.segs[0].addr)
      ensures Copying(bufs0, bufs', free0, free', infos + [info], msgs + [msg])
    {
      hide SameFrame, Wanted, Readable, PacketLen;
      var n, a := |msgs|, msg.segs[0].addr;
      assert free0[n] == free[0] == a;
      assert free0[n + 1..] == free';
      assert a in free0;
      forall k | 0 <= k < n + 1 ensures Packed(bufs', (infos + [info])[k], (msgs + [msg])[k].segs[0].addr) {
        if k < n { assert Packed(bufs, infos[k], msgs[k].segs[0].addr) && msgs[k].segs[0].addr == free0[k] != a; }
      }
    }

    /** The device runs at its pace while answers are built. */
    method Meanwhile(ghost firsts: seq<Ptr>, ghost inls: seq<Inline>, ghost msgs: seq<Msg>)
      requires Batching(firsts, inls, msgs) && Filed([])
      modifies this`clock, txq`devBlock, txq`reports, txq`wire, txq.cq, store`frames
      ensures Batching(firsts, inls, msgs) && Filed([]) && TxFree() == old(TxFree())
    {
      hide Valid, Filed, Queued, TxFree, Separate, Dimensioned, PoolsOk, Good, Inv;
      BatchQueued(firsts, inls, msgs);
      TxApart();
      LetDeviceRun([]);
    }

    lemma TxApart()
      requires Valid()
      ensures txPool.freeItems as object != txq.cq && store !in Frame() && (store as object) != this
    {
      hide Dimensioned, Good, Inv;
    }

    /** What was sent and posted before is not affected by the buffers that are filled. */
    lemma StillFiled(bufs0: map<Ptr, seq<byte>>, bufs1: map<Ptr, seq<byte>>, bufs: map<Ptr, seq<byte>>, free0: seq<Ptr>, free: seq<Ptr>,
                     infos: seq<Request>, msgs: seq<Msg>, packets: seq<seq<byte>>, frames: seq<seq<byte>>, log: seq<Msg>,
                     wire: seq<Wqe>, done: nat)
      requires FiledAs(bufs1, packets, frames, log, wire, done)
      requires mode.Copy? ==> Intact(bufs0, packets, log, done) && Copying(bufs0, bufs, free0, free, infos, msgs)
      requires mode.Copy? ==> FreeApart(free0, log, done)
      ensures FiledAs(bufs, packets, frames, log, wire, done)
    {
      hide FromFree, AllPacked;
      if mode.Copy? {
        forall i | done <= i < |log| ensures Carried(bufs, log[i], packets[i]) { assert Carried(bufs0, log[i], packets[i]); }
      }
    }

    /** The answers to `infos` are built and wait in the queue. `bufs0` and `free0` are from before the batch. */
    ghost predicate Underway(infos: seq<Request>, firsts: seq<Ptr>, inls: seq<Inline>, msgs: seq<Msg>, bufs0: map<Ptr, seq<byte>>,
                             free0: seq<Ptr>)
      reads this, Frame(), RxFrame(), store
    {
      && Batching(firsts, inls, msgs) && |build| == |infos| && AllAnswer(infos, msgs)
      && store.HeadersOk(BATCH_SIZE) && Filed([])
      && (mode.Copy? ==> Copying(bufs0, store.bufs, free0, TxFree(), infos, msgs))
    }

    /** One round of the loop in process_server_requests. */
    method NextAnswer(infos: seq<Request>, i: nat, firsts: seq<Ptr>, inls: seq<Inline>, ghost msgs: seq<Msg>,
                      ghost bufs0: map<Ptr, seq<byte>>, ghost free0: seq<Ptr>)
      returns (firsts': seq<Ptr>, inls': seq<Inline>, ghost msgs': seq<Msg>)
      requires i < |infos| && i < BATCH_SIZE && RequestOk(infos[i]) && !mode.Echo?
      requires Underway(infos[..i], firsts, inls, msgs, bufs0, free0)
      requires mode.Copy? ==> Intact(bufs0, store.packets, txq.log, |txq.reclaimed|)
      requires mode.Copy? ==> FreeApart(free0, txq.log, |txq.reclaimed|)
      modifies this`clock, txq`devBlock, txq`reports, txq`wire, txq.cq, store`frames
      modifies this`build, mbufPool`used, txPool`used, mem, refs.counts, store`headers, store`bufs
      ensures Underway(infos[..i + 1], firsts', inls', msgs', bufs0, free0)
    {
      hide Valid, Batching, RequestOk, Answers, TxFree, BufsOk, Copying, Packed, SameBut, AnswerStore.HeadersOk, FiledAs, Intact, FreeApart;
      Meanwhile(firsts, inls, msgs);
      FiledIntact();
      ghost var bufs, free := store.bufs, TxFree();
      ghost var msg;
      var first, inl;
      first, inl, msg := BuildAnswer(infos[i], i, firsts, inls, msgs);
      TakeNext(infos, i);
      firsts', inls', msgs' := firsts + [first], inls + [inl], msgs + [msg];
      if mode.Copy? {
        FreeOnceApart(free0, txq.log, |txq.reclaimed|);
        CopyingNext(bufs0, bufs, store.bufs, free0, free, TxFree(), infos[..i], msgs, infos[i], msg);
      }
      StillFiled(bufs0, bufs, store.bufs, free0, TxFree(), infos[..i + 1], msgs', store.packets, store.frames, txq.log + [],
                 txq.wire, |txq.reclaimed|);
    }

    /** The loop of process_server_requests. No allocation in it can fail, and what the device sends meanwhile is right. */
    method BuildAnswers(infos: seq<Request>) returns (firsts: seq<Ptr>, inls: seq<Inline>, ghost msgs: seq<Msg>)
      requires Valid() && !mode.Echo? && limbo == [] && build == [] && |infos| <= BATCH_SIZE && WellFormed(infos)
      requires store.HeadersOk(BATCH_SIZE) && Filed([])
      modifies this`clock, txq`devBlock, txq`reports, txq`wire, txq.cq, store`frames
      modifies this`build, mbufPool`used, txPool`used, mem, refs.counts, store`headers, store`bufs
      ensures Batching(firsts, inls, msgs) && AllAnswer(infos, msgs)
      ensures store.HeadersOk(BATCH_SIZE) && Filed([])
      ensures mode.Copy? ==> Copying(old(store.bufs), store.bufs, old(TxFree()), TxFree(), infos, msgs)
    {
      hide Valid, Batching, RequestOk, Answers, TxFree, BufsOk, Copying, AnswerStore.HeadersOk, FiledAs, Intact, FreeApart;
      ghost var free0, bufs0 := TxFree(), store.bufs;
      StoreApart();
      FreeOnce();
      StartBatch();
      firsts, inls, msgs := [], [], [];
      CopyingNone(store.bufs, TxFree());
      FiledIntact();
      assert infos[..0] == [];
      for i := 0 to |infos|
        invariant Underway(infos[..i], firsts, inls, msgs, bufs0, free0)
      {
        firsts, inls, msgs := NextAnswer(infos, i, firsts, inls, msgs, bufs0, free0);
      }
      TakeAll(infos);
    }

    lemma FiledIntact()
      requires Filed([])
      ensures txq.log + [] == txq.log && (mode.Copy? ==> Intact(store.bufs, store.packets, txq.log, |txq.reclaimed|))
    {
      hide BufsOk, Carried;
      assert txq.log + [] == txq.log;
    }

    /** Free transmit buffers are listed once, and no message that is not gathered is sent from one. */
    static ghost predicate FreeApart(free: seq<Ptr>, log: seq<Msg>, done: nat) {
      && (forall i, j :: 0 <= i < j < |free| ==> free[i] != free[j])
      && forall i :: done <= i < |log| ==> |log[i].segs| > 0 && log[i].segs[0].addr !in free
    }

    static lemma FreeOnceApart(free: seq<Ptr>, log: seq<Msg>, done: nat)
      requires FreeApart(free, log, done)
      ensures forall i, j :: 0 <= i < j < |free| ==> free[i] != free[j]
    {
    }

    /** Free transmit buffers are listed once, and no message in the ring is sent from one. */
    lemma FreeOnce()
      requires Valid() && limbo == []
      ensures mode.Copy? ==> FreeApart(TxFree(), txq.log, |txq.reclaimed|)
    {
      hide Good, Inv, Dimensioned, Separate;
      if mode.Copy? {
        TxFreeOnce(stock, View(), txq.View(mem), mem.m);
        FlightBuffers(stock, View(), txq.View(mem), mem.m);
      }
    }

    /** What the buffers of copied answers hold. */
    ghost function Packets(bufs: map<Ptr, seq<byte>>, msgs: seq<Msg>): (bs: seq<seq<byte>>)
      ensures |bs| == |msgs|
    {
      seq(|msgs|, k requires 0 <= k < |msgs| => PacketIn(bufs, msgs[k]))
    }

    ghost function PacketIn(bufs: map<Ptr, seq<byte>>, m: Msg): seq<byte> {
      if |m.segs| == 1 && m.segs[0].addr in bufs && PacketLen() <= |bufs[m.segs[0].addr]| then bufs[m.segs[0].addr][..PacketLen()]
      else []
    }

    /** The batch is in its buffers, and the packets of older messages are untouched. */
    lemma CopiedBatch(bufs0: map<Ptr, seq<byte>>, bufs: map<Ptr, seq<byte>>, free0: seq<Ptr>, free: seq<Ptr>, infos: seq<Request>,
                      msgs: seq<Msg>, packets: seq<seq<byte>>, log: seq<Msg>, done: nat)
      requires mode.Copy? && Copying(bufs0, bufs, free0, free, infos, msgs) && AllAnswer(infos, msgs)
      requires Intact(bufs0, packets, log, done)
      requires FreeApart(free0, log, done)
      ensures Intact(bufs, packets + Packets(bufs, msgs), log + msgs, done) && AllWanted(infos, Packets(bufs, msgs))
    {
      hide SameFrame, Wanted, Readable, PacketLen;
      var bs := Packets(bufs, msgs);
      forall k | 0 <= k < |msgs| ensures Carried(bufs, msgs[k], bs[k]) && IsWanted(infos[k], bs[k]) {
        assert Packed(bufs, infos[k], msgs[k].segs[0].addr) && Answers(infos[k], msgs[k]);
      }
      forall i | done <= i < |log + msgs| ensures Carried(bufs, (log + msgs)[i], (packets + bs)[i]) {
        if i < |log| { assert Carried(bufs0, log[i], packets[i]); }
      }
    }

    /** What process_echo_requests posts. */
    ghost function EchoReply(h: Heap, requests: seq<Ptr>): seq<Msg> {
      if requests != [] && EchoLen() <= stock.rxLen && forall p :: p in requests ==> p in h
      then EchoAnswers(h, requests) else []
    }

    /** All answers of a batch are built. In copy mode `bs` are the packets in the buffers. */
    method BuildBatch(infos: seq<Request>) returns (firsts: seq<Ptr>, inls: seq<Inline>, ghost msgs: seq<Msg>, ghost bs: seq<seq<byte>>)
      requires Valid() && Content() && !mode.Echo? && limbo == [] && build == [] && |infos| <= BATCH_SIZE && WellFormed(infos)
      modifies this`clock, txq`devBlock, txq`reports, txq`wire, txq.cq, store`frames
      modifies this`build, mbufPool`used, txPool`used, mem, refs.counts, store`headers, store`bufs
      ensures Batching(firsts, inls, msgs) && AllAnswer(infos, msgs)
      ensures store.HeadersOk(BATCH_SIZE) && (mode.Copy? ==> BufsOk())
      ensures FiledAs(store.bufs, store.packets + bs, store.frames, txq.log + msgs, txq.wire, |txq.reclaimed|)
      ensures if mode.Copy? then AllWanted(infos, bs) else bs == []
    {
      hide Valid, Batching, AllAnswer, AllWanted, WellFormed, Copying, Packets, FiledAs, Intact, BufsOk, TxFree, AnswerStore.HeadersOk, FreeApart;
      StoreApart();
      ghost var bufs0, free0 := store.bufs, TxFree();
      FreeOnce();
      FiledIntact();
      firsts, inls, msgs := BuildAnswers(infos);
      bs := [];
      if mode.Copy? {
        bs := Packets(store.bufs, msgs);
        CopiedBatch(bufs0, store.bufs, free0, TxFree(), infos, msgs, store.packets, txq.log, |txq.reclaimed|);
      }
      FiledBatch(store.bufs, store.packets, bs, store.frames, txq.log, msgs, txq.wire, |txq.reclaimed|);
    }

    /** The packets of a batch are on file before it is posted. */
    lemma FiledBatch(bufs: map<Ptr, seq<byte>>, packets: seq<seq<byte>>, bs: seq<seq<byte>>, frames: seq<seq<byte>>, log: seq<Msg>,
                     msgs: seq<Msg>, wire: seq<Wqe>, done: nat)
      requires FiledAs(bufs, packets, frames, log + [], wire, done)
      requires if mode.Copy? then Intact(bufs, packets + bs, log + msgs, done) else bs == []
      ensures FiledAs(bufs, packets + bs, frames, log + msgs, wire, done)
    {
      hide Carried;
    }

    /** process_server_requests without echo: build all answers, then post them. */
    method AnswerRequests(infos: seq<Request>) returns (ghost msgs: seq<Msg>, ghost bs: seq<seq<byte>>)
      requires Valid() && Content() && !mode.Echo? && limbo == [] && build == [] && |infos| <= BATCH_SIZE && WellFormed(infos)
      modifies this`clock, this`limbo, this`flight, this`build, txq, txq.ring, txq.buffers, txq.cq, mem
      modifies mbufPool`used, mbufItems, txPool`used, txItems, rxPool`used, rxItems, refs.counts, store
      ensures Valid() && Content() && limbo == [] && build == [] && handed == old(handed)
      ensures txq.log == old(txq.log) + msgs && store.packets == old(store.packets) + bs
      ensures AllAnswer(infos, msgs) && if mode.Copy? then AllWanted(infos, bs) else bs == []
    {
      hide Valid, Batching, AllAnswer, AllWanted, WellFormed, FiledAs, BufsOk, AnswerStore.HeadersOk;
      StoreApart();
      var firsts, inls;
      firsts, inls, msgs, bs := BuildBatch(infos);
      BatchQueued(firsts, inls, msgs);
      store.packets := store.packets + bs;
      PostMbufs(firsts, inls, msgs);
    }

    /** process_server_requests. In copy mode `bs` are the packets in the buffers. */
    method ProcessServerRequests(requests: seq<Ptr>, infos: seq<Request>) returns (ret: int, ghost msgs: seq<Msg>, ghost bs: seq<seq<byte>>)
      requires Valid() && Content() && limbo == [] && build == [] && |requests| == |infos| <= BATCH_SIZE
      requires multiset(requests) <= handed && (!mode.Echo? ==> WellFormed(infos))
      modifies this`clock, this`limbo, this`flight, this`build, this`handed, txq, txq.ring, txq.buffers, txq.cq, mem
      modifies mbufPool`used, mbufItems, txPool`used, txItems, rxPool`used, rxItems, refs.counts, store
      ensures Valid() && Content() && limbo == [] && build == [] && txq.log == old(txq.log) + msgs
      ensures store.packets == old(store.packets) + bs
      ensures !mode.Echo? ==> ret == 0 && handed == old(handed) && AllAnswer(infos, msgs)
      ensures if mode.Copy? then AllWanted(infos, bs) else bs == []
      ensures mode.Echo? ==> msgs == EchoReply(old(mem.m), requests) && (ret != 0 <==> requests != [] && stock.rxLen < EchoLen())
      ensures mode.Echo? ==> handed == if ret == 0 then old(handed) - multiset(requests) else old(handed)
    {
      hide Valid, AllAnswer, AllWanted, WellFormed, EchoAnswers, Intact, BufsOk, AnswerStore.HeadersOk;
      if mode.Echo? {
        RequestsHeld(requests);
        msgs, bs := EchoReply(mem.m, requests), [];
        ret := ProcessEchoRequests(requests);
        return;
      }
      msgs, bs := AnswerRequests(infos);
      ret := 0;
    }

    lemma RequestsHeld(requests: seq<Ptr>)
      requires Valid() && multiset(requests) <= handed
      ensures forall p :: p in requests ==> p in mem.m
    {
      hide Inv, Balanced, Link, Sound, Pow2, Blocks;
      InMultiset(requests, handed);
      forall p | p in requests ensures p in mem.m {
        assert HandedOk(mem.m, p, stock.rxLen);
      }
    }

    // ----- receiving -------------------------------------------------------------------------

    /** Between calls the receive ring is full of posted buffers. */
    ghost predicate RxOk()
      reads RxFrame()
    {
      rxq.Valid() && R.Full(rxq.cfg, rxq.View())
    }

    /** Received packets that are in the transmit ring, on their way back. */
    ghost function Ringed(): nat
      reads this
    {
      if mode.Echo? then |Flat(flight)| else 0
    }

    /** The receive pool covers `n` more buffers. */
    ghost predicate RxCovers(n: nat)
      reads this
    {
      |stock.rxs| >= rxq.cfg.WqeCnt() + |handed| + Ringed() + n
    }

    /** The books are `b` after `n` packets were handed up and as many fresh buffers posted. */
    ghost predicate HandedUp(b: Books, n: nat)
      reads this, Frame(), RxFrame()
    {
      Valid() && n <= |b.posted| && n <= |b.rxFree| && View() == HandUp(b, n)
    }

    /** mlx5_gather_rx. It panics, and the program ends, exactly when the receive pool does not cover as many buffers
        as packets are handed up. */
    method Receive() returns (ok: bool, ms: seq<Ptr>)
      requires Valid() && limbo == [] && build == [] && RxOk()
      modifies this`handed, rxq`consumerIdx, rxq`delivered, rxq`wqHead, rxq`posts, rxq.buffers, rxq.addrs, rxPool`used, mem
      ensures |ms| == R.Count(old(rxq.View()), BURST_SIZE) <= BURST_SIZE && (ok <==> old(RxCovers(|ms|)))
      ensures !ok ==> handed == old(handed)
      ensures ok ==> HandedUp(old(View()), |ms|) && RxOk() && handed == old(handed) + multiset(ms)
      ensures ok ==> rxq.delivered == old(rxq.delivered) + ms && Arrived(mem.m, ms, stock.rxLen, rxq.reports, |old(rxq.delivered)|)
    {
      hide Valid, Separate, Dimensioned, PoolsOk, Good, Inv, R.Inv, BlockCounts, HandUp, HeapAfter, Arrived, LengthsRead, Ringed, RxOk, R.Count;
      Opened();
      RxApart();
      ghost var b, s, h, first := View(), txq.View(mem), mem.m, |rxq.delivered|;
      PostedOnce(mode, stock, b, s, h);
      ok, ms := GatherPackets();
      if ok {
        PostedSized(mode, stock, b, s, h);
        ArrivedOnce(h, mem.m, b.posted, ms, b.rxFree[..|ms|], stock.rxLen, rxq.reports, first);
        HoldReceived(b, s, h, ms);
      }
    }

    /** The packets of a burst: different buffers of `len` bytes, each mbuf at the start of its buffer, with the address
        of the data and the length that the device reported. */
    static ghost predicate Arrived(h: Heap, ms: seq<Ptr>, len: u32, reports: seq<Report>, first: nat) {
      && first + |ms| <= |reports|
      && (forall i, j :: 0 <= i < j < |ms| ==> ms[i] != ms[j])
      && forall i :: 0 <= i < |ms| ==>
        && ms[i] in h && h[ms[i]].head == ms[i] && h[ms[i]].data == R.DataAddress(ms[i])
        && h[ms[i]].len == reports[first + i].byteCnt && h[ms[i]].headLen == len
    }

    static lemma ArrivedOnce(h: Heap, h': Heap, posted: seq<Ptr>, ms: seq<Ptr>, bufs: seq<Ptr>, len: u32, reports: seq<Report>, first: nat)
      requires forall i, j :: 0 <= i < j < |posted| ==> posted[i] != posted[j]
      requires forall p :: p in posted ==> PostedOk(h, p, len)
      requires |ms| <= |posted| && ms == posted[..|ms|] && HeapAfter(h, h', ms, bufs, len) && LengthsRead(h', ms, reports, first)
      ensures Arrived(h', ms, len, reports, first)
    {
      forall i, j | 0 <= i < j < |ms| ensures ms[i] != ms[j] { assert ms[i] == posted[i] && ms[j] == posted[j]; }
      forall i | 0 <= i < |ms|
        ensures ms[i] in h' && h'[ms[i]].head == ms[i] && h'[ms[i]].data == R.DataAddress(ms[i])
        ensures h'[ms[i]].len == reports[first + i].byteCnt && h'[ms[i]].headLen == len
      {
        assert ms[i] == posted[i] && PostedOk(h, posted[i], len);
        assert Last(ms, i) && ms[i] in ms;
      }
    }

    /** The receive ring and its pool, before the packets are on the books. */
    method GatherPackets() returns (ok: bool, ms: seq<Ptr>)
      requires Valid() && limbo == [] && build == [] && RxOk()
      modifies rxq`consumerIdx, rxq`delivered, rxq`wqHead, rxq`posts, rxq.buffers, rxq.addrs, rxPool`used, mem
      ensures |ms| == R.Count(old(rxq.View()), BURST_SIZE) <= BURST_SIZE && (ok <==> RxCovers(|ms|))
      ensures ok ==> PoolsOk() && RxOk() && |rxq.delivered| <= |rxq.posts|
      ensures ok ==> |ms| <= |old(View()).posted| && |ms| <= |old(View()).rxFree| && ms == old(View()).posted[..|ms|]
      ensures ok ==> View() == HandUp(old(View()), |ms|).(handed := handed)
      ensures ok ==> HeapAfter(old(mem.m), mem.m, ms, old(View()).rxFree[..|ms|], stock.rxLen)
      ensures ok ==> rxq.delivered == old(rxq.delivered) + ms && LengthsRead(mem.m, ms, rxq.reports, |old(rxq.delivered)|)
      ensures txq.View(mem) == old(txq.View(mem)).(numWqes := BlockCounts(mem.m))
    {
      hide Valid, Separate, Good, Inv, R.Inv, R.GatherRx, Pow2, Blocks, BlockCounts, HeapAfter, Dimensioned, LengthsRead;
      Opened();
      RxApart();
      ghost var b, posts, delivered := View(), rxq.posts, rxq.delivered;
      RxRoom(R.Count(rxq.View(), BURST_SIZE));
      ok, ms := rxq.GatherRx(BURST_SIZE, rxPool, mem);
      if ok { PostedAfter(posts, delivered, ms, b.rxFree[..|ms|]); }
    }

    /** The packets handed up are on the books. */
    ghost method HoldReceived(b: Books, s: Tx, h: Heap, ms: seq<Ptr>)
      requires Good(mode, stock, b, s, h) && Inv(txq.cfg, s) && s.numWqes == BlockCounts(h) && b.limbo == []
      requires |ms| <= |b.posted| && |ms| <= |b.rxFree| && ms == b.posted[..|ms|]
      requires Separate() && Dimensioned() && PoolsOk() && refs.Shape() && |rxq.delivered| <= |rxq.posts| && handed == b.handed
      requires View() == HandUp(b, |ms|).(handed := handed)
      requires txq.View(mem) == s.(numWqes := BlockCounts(mem.m)) && HeapAfter(h, mem.m, ms, b.rxFree[..|ms|], stock.rxLen)
      modifies this`handed
      ensures Valid() && View() == HandUp(b, |ms|) && handed == b.handed + multiset(ms)
    {
      hide Good, Inv, Pow2, Blocks, BlockCounts, HeapAfter;
      ReceiveGood(mode, stock, b, s, h, mem.m, |ms|);
      NumWqesKept(txq.cfg, s, h, mem.m);
      GoodDevice(mode, stock, HandUp(b, |ms|), s, s.(numWqes := BlockCounts(mem.m)), mem.m);
      handed := handed + multiset(ms);
      assert View() == HandUp(b, |ms|);
    }

    lemma RxRoom(n: nat)
      requires Valid() && limbo == [] && build == [] && RxOk()
      ensures rxq.Apart(rxPool) && NULL !in View().rxFree && (n <= |View().rxFree| <==> RxCovers(n))
      ensures R.Count(rxq.View(), BURST_SIZE) <= BURST_SIZE && R.Count(rxq.View(), BURST_SIZE) <= |View().posted|
    {
      hide Inv, Balanced, Link, Sound, Pow2, Blocks;
      RefillExact(mode, stock, View(), n);
      RxFreeReal(mode, stock, View());
    }

    /** Outside echo mode no received packet is in the transmit ring, in echo mode at most one per block. */
    lemma RingedBound()
      requires Valid()
      ensures Ringed() <= MaxRinged()
    {
      hide Inv, Balanced, Link, Sound, Pow2, TxRing.Counters, HandedOk, Dimensioned, Separate, PoolsOk;
      if mode.Echo? {
        InvCounters(txq.cfg, txq.View(mem));
        EchoBound(txq.cfg, txq.View(mem), mem.m, flight);
      }
    }

    /** The most there can be; messages of one block can fill the ring (TxRing.RingFills). */
    ghost function MaxRinged(): nat { if mode.Echo? then txq.cfg.WqeCnt() else 0 }

    /** rx_completion for a packet the server has finished with. */
    method FreeRequest(p: Ptr)
      requires Valid() && p in handed
      modifies this`handed, rxPool`used, rxItems
      ensures Valid() && handed == old(handed) - multiset{p} && View() == DropRequest(old(View()), p)
    {
      hide Good, Inv, Pow2, Blocks;
      ghost var b := View();
      HeldOnce(mode, stock, b, txq.View(mem), mem.m, p);
      HeldInUse(mode, stock, b, txq.View(mem), mem.m, p);
      DropRequestGood(mode, stock, b, txq.View(mem), mem.m, p);
      match mem.m[p].release {
        case RxBuf => rxPool.Release(mem.m[p].head);
      }
      handed := handed - multiset{p};
      assert View() == DropRequest(b, p);
    }

    /** Freeing the packets of a batch. */
    method FreeRequests(batch: seq<Ptr>, ghost was: multiset<Ptr>)
      requires Valid() && handed == was + multiset(batch)
      modifies this`handed, rxPool`used, rxItems
      ensures Valid() && handed == was
    {
      hide Valid;
      assert batch[0..] == batch;
      for pktIdx := 0 to |batch|
        invariant Valid() && handed == was + multiset(batch[pktIdx..])
      {
        HoldStep(was, batch, pktIdx);
        FreeRequest(batch[pktIdx]);
      }
      assert batch[|batch|..] == [];
    }

    // ----- the server loop -------------------------------------------------------------------

    /** What a batch of packets posts: an answer to each request, or the packets themselves. */
    ghost predicate Replied(h: Heap, batch: seq<Ptr>, infos: seq<Request>, msgs: seq<Msg>, bs: seq<seq<byte>>) {
      && (if mode.Echo? then msgs == EchoReply(h, batch) else AllAnswer(infos, msgs))
      && (if mode.Copy? then AllWanted(infos, bs) else bs == [])
    }

    /** One batch: answer it, and free the requests that were not sent back themselves. */
    method ProcessBatch(batch: seq<Ptr>, infos: seq<Request>, ghost was: multiset<Ptr>) returns (ghost msgs: seq<Msg>, ghost bs: seq<seq<byte>>)
      requires Valid() && Content() && limbo == [] && build == [] && |batch| == |infos| <= BATCH_SIZE
      requires handed == was + multiset(batch) && (!mode.Echo? ==> WellFormed(infos))
      modifies this`clock, this`limbo, this`flight, this`build, this`handed, txq, txq.ring, txq.buffers, txq.cq, mem
      modifies mbufPool`used, mbufItems, txPool`used, txItems, rxPool`used, rxItems, refs.counts, store
      ensures Valid() && Content() && limbo == [] && build == [] && handed == was
      ensures txq.log == old(txq.log) + msgs && store.packets == old(store.packets) + bs
      ensures Replied(old(mem.m), batch, infos, msgs, bs)
    {
      hide Valid, Content, AllAnswer, AllWanted, WellFormed, EchoReply;
      SumLess(was, multiset(batch));
      var ret;
      ret, msgs, bs := ProcessServerRequests(batch, infos);
      if ret != 0 {
        FreeRequests(batch, was);
      }
      if !mode.Echo? {
        FreeRequests(batch, was);
      }
    }

    static lemma SumLess(was: multiset<Ptr>, m: multiset<Ptr>)
      ensures m <= was + m && was + m - m == was
    {
    }

    static function Validity(pkts: seq<Packet>): (v: seq<bool>)
      ensures |v| == |pkts|
    {
      seq(|pkts|, i requires 0 <= i < |pkts| => pkts[i].valid)
    }

    static function Requests(pkts: seq<Packet>): (r: seq<Request>)
      ensures |r| == |pkts|
    {
      seq(|pkts|, i requires 0 <= i < |pkts| => pkts[i].request)
    }

    /** An invalid packet is freed. */
    method DropPacket(ms: seq<Ptr>, rxIdx: nat, ghost batch: seq<Ptr>, ghost was: multiset<Ptr>)
      requires Valid() && RxOk() && rxIdx < |ms| && handed == Hands(was, batch, ms, rxIdx)
      modifies this`handed, rxPool`used, rxItems
      ensures Valid() && RxOk() && handed == Hands(was, batch, ms, rxIdx + 1)
    {
      hide Valid, RxOk, Hands;
      RxApart();
      HandsStep(was, batch, ms, rxIdx);
      FreeRequest(ms[rxIdx]);
    }

    /** The pending packets are processed. */
    method FlushBatch(batch: seq<Ptr>, infos: seq<Request>, ghost ms: seq<Ptr>, ghost rxIdx: nat, ghost was: multiset<Ptr>)
      returns (ghost msgs: seq<Msg>, ghost bs: seq<seq<byte>>)
      requires Valid() && RxOk() && Content() && limbo == [] && build == [] && rxIdx <= |ms| && |batch| == |infos| <= BATCH_SIZE
      requires handed == Hands(was, batch, ms, rxIdx) && (!mode.Echo? ==> WellFormed(infos))
      modifies this`clock, this`limbo, this`flight, this`build, this`handed, txq, txq.ring, txq.buffers, txq.cq, mem
      modifies mbufPool`used, mbufItems, txPool`used, txItems, rxPool`used, rxItems, refs.counts, store
      ensures Valid() && RxOk() && Content() && limbo == [] && build == [] && handed == Hands(was, [], ms, rxIdx)
      ensures txq.log == old(txq.log) + msgs && store.packets == old(store.packets) + bs
      ensures Replied(old(mem.m), batch, infos, msgs, bs)
    {
      hide Valid, RxOk, Content, WellFormed, Hands, Replied;
      RxApart();
      HandsBatch(was, batch, ms, rxIdx);
      msgs, bs := ProcessBatch(batch, infos, Hands(was, [], ms, rxIdx));
    }

    /** One packet of a burst: dropped, made part of the batch, or completing the batch. */
    method OnePacket(packet: Packet, ms: seq<Ptr>, rxIdx: nat, batch: seq<Ptr>, infos: seq<Request>, ghost was: multiset<Ptr>)
      returns (batch': seq<Ptr>, infos': seq<Request>, ghost msgs: seq<Msg>, ghost bs: seq<seq<byte>>)
      requires Valid() && RxOk() && Content() && limbo == [] && build == [] && rxIdx < |ms| && |batch| == |infos| < BATCH_SIZE
      requires handed == Hands(was, batch, ms, rxIdx)
      requires !mode.Echo? ==> WellFormed(infos) && (packet.valid ==> RequestOk(packet.request))
      modifies this`clock, this`limbo, this`flight, this`build, this`handed, txq, txq.ring, txq.buffers, txq.cq, mem
      modifies mbufPool`used, mbufItems, txPool`used, txItems, rxPool`used, rxItems, refs.counts, store
      ensures Valid() && RxOk() && Content() && limbo == [] && build == [] && handed == Hands(was, batch', ms, rxIdx + 1)
      ensures !mode.Echo? ==> WellFormed(infos')
      ensures txq.log == old(txq.log) + msgs && store.packets == old(store.packets) + bs
      ensures if packet.valid && (|batch| + 1 == BATCH_SIZE || rxIdx + 1 == |ms|)
        then batch' == [] && infos' == [] && Replied(old(mem.m), batch + [ms[rxIdx]], infos + [packet.request], msgs, bs)
        else
          && msgs == [] && bs == [] && mem.m == old(mem.m)
          && batch' == batch + (if packet.valid then [ms[rxIdx]] else [])
          && infos' == infos + (if packet.valid then [packet.request] else [])
    {
      hide Valid, RxOk, Content, RequestOk, Hands, Replied;
      batch', infos', msgs, bs := batch, infos, [], [];
      if !packet.valid {
        DropPacket(ms, rxIdx, batch, was);
        return;
      }
      HandsStep(was, batch, ms, rxIdx);
      batch', infos' := batch + [ms[rxIdx]], infos + [packet.request];
      if |batch'| == BATCH_SIZE || rxIdx + 1 == |ms| {
        msgs, bs := FlushBatch(batch', infos', ms, rxIdx + 1, was);
        batch', infos' := [], [];
        NoRequests();
      }
    }

    /** One turn of the server loop: receive a burst, drop invalid packets, answer the others in
        batches. The valid packets `ms` are answered, each once and in order, unless the last packet of the burst is
        invalid: then they are all lost. `h` is memory when the burst has arrived. The turn comes to its end exactly
        when the receive pool covers the burst. */
    method Burst(pkts: seq<Packet>)
      returns (ok: bool, ms: seq<Ptr>, ghost h: Heap, ghost lost: seq<Ptr>, ghost msgs: seq<Msg>, ghost bs: seq<seq<byte>>)
      requires Valid() && Content() && limbo == [] && build == [] && RxOk()
      requires |pkts| == R.Count(rxq.View(), BURST_SIZE)
      requires !mode.Echo? ==> forall i :: 0 <= i < |pkts| && pkts[i].valid ==> RequestOk(pkts[i].request)
      modifies this`clock, this`limbo, this`flight, this`build, this`handed, txq, txq.ring, txq.buffers, txq.cq, mem
      modifies rxq`consumerIdx, rxq`delivered, rxq`wqHead, rxq`posts, rxq.buffers, rxq.addrs
      modifies mbufPool`used, mbufItems, txPool`used, txItems, rxPool`used, rxItems, refs.counts, store
      ensures |ms| == |pkts| && (ok <==> old(RxCovers(|pkts|)))
      ensures Content() && txq.log == old(txq.log) + msgs && store.packets == old(store.packets) + bs
      ensures handed == old(handed) + multiset(lost)
      ensures !ok ==> lost == [] && msgs == [] && bs == [] && store.frames == old(store.frames)
      ensures ok ==> Valid() && limbo == [] && build == [] && RxOk()
      ensures ok ==> rxq.delivered == old(rxq.delivered) + ms && Arrived(h, ms, stock.rxLen, rxq.reports, |old(rxq.delivered)|)
      ensures ok ==> lost == Lost(Validity(pkts), ms)
      ensures ok ==> Replied(h, Answered(Validity(pkts), ms), Answered(Validity(pkts), Requests(pkts)), msgs, bs)
    {
      hide Valid, RxOk, Content, RequestOk, Replied, Validity, Requests, Answered, Lost, Arrived, RxCovers;
      PacketsAt(pkts);
      StoreApart();
      ghost var was := handed;
      ok, ms := Receive();
      h, lost, msgs, bs := mem.m, [], [], [];
      if ok {
        lost, msgs, bs := ProcessBurst(pkts, ms, was);
      }
    }

    /** The loop over the packets of a burst. */
    method ProcessBurst(pkts: seq<Packet>, ms: seq<Ptr>, ghost was: multiset<Ptr>)
      returns (ghost lost: seq<Ptr>, ghost msgs: seq<Msg>, ghost bs: seq<seq<byte>>)
      requires Valid() && RxOk() && Content() && limbo == [] && build == [] && |pkts| == |ms| <= BURST_SIZE
      requires handed == was + multiset(ms)
      requires !mode.Echo? ==> forall i :: 0 <= i < |pkts| && pkts[i].valid ==> RequestOk(pkts[i].request)
      modifies this`clock, this`limbo, this`flight, this`build, this`handed, txq, txq.ring, txq.buffers, txq.cq, mem
      modifies mbufPool`used, mbufItems, txPool`used, txItems, rxPool`used, rxItems, refs.counts, store
      ensures Valid() && RxOk() && Content() && limbo == [] && build == []
      ensures lost == Lost(Validity(pkts), ms) && handed == was + multiset(lost)
      ensures txq.log == old(txq.log) + msgs && store.packets == old(store.packets) + bs
      ensures Replied(old(mem.m), Answered(Validity(pkts), ms), Answered(Validity(pkts), Requests(pkts)), msgs, bs)
    {
      hide Valid, RxOk, Content, RequestOk, WellFormed, Hands, Replied, Validity, Requests, Answered, Lost, Halfway;
      ghost var h, v, reqs := mem.m, Validity(pkts), Requests(pkts);
      PacketsAt(pkts);
      NoRequests();
      msgs, bs := [], [];
      var rxIdx := 0;
      var batch: seq<Ptr>, infos: seq<Request> := [], [];
      HandsEnds(was, [], ms);
      HalfwayStart(h, v, ms, reqs);
      while rxIdx < |ms|
        invariant rxIdx <= |ms| && |batch| == |infos|
        invariant Valid() && RxOk() && Content() && limbo == [] && build == []
        invariant handed == Hands(was, batch, ms, rxIdx) && (!mode.Echo? ==> WellFormed(infos))
        invariant txq.log == old(txq.log) + msgs && store.packets == old(store.packets) + bs
        invariant rxIdx < |ms| ==> mem.m == h && |batch| < BATCH_SIZE && msgs == [] && bs == []
        invariant Halfway(h, v, ms, reqs, rxIdx, batch, infos, msgs, bs)
      {
        ghost var batch0, infos0 := batch, infos;
        batch, infos, msgs, bs := OnePacket(pkts[rxIdx], ms, rxIdx, batch, infos, was);
        HalfwayNext(h, v, ms, reqs, rxIdx, batch0, infos0, batch, infos, msgs, bs);
        rxIdx := rxIdx + 1;
      }
      lost := batch;
      HandsEnds(was, batch, ms);
      HalfwayEnd(h, v, ms, reqs, batch, infos, msgs, bs);
    }

    /** After `i` packets of a burst: the valid ones are pending, until the last packet, if valid, completes the
        batch. */
    ghost predicate Halfway(h: Heap, v: seq<bool>, ms: seq<Ptr>, reqs: seq<Request>, i: nat, batch: seq<Ptr>, infos: seq<Request>,
                            msgs: seq<Msg>, bs: seq<seq<byte>>)
      requires |v| == |ms| == |reqs| && i <= |v|
    {
      if 0 < i == |v| && v[i - 1] then batch == [] && infos == [] && Replied(h, Kept(v, ms), Kept(v, reqs), msgs, bs)
      else msgs == [] && bs == [] && batch == Kept(v[..i], ms[..i]) && infos == Kept(v[..i], reqs[..i])
    }

    lemma HalfwayStart(h: Heap, v: seq<bool>, ms: seq<Ptr>, reqs: seq<Request>)
      requires |v| == |ms| == |reqs|
      ensures Halfway(h, v, ms, reqs, 0, [], [], [], [])
    {
    }

    lemma HalfwayNext(h: Heap, v: seq<bool>, ms: seq<Ptr>, reqs: seq<Request>, i: nat, batch: seq<Ptr>, infos: seq<Request>,
                      batch': seq<Ptr>, infos': seq<Request>, msgs: seq<Msg>, bs: seq<seq<byte>>)
      requires |v| == |ms| == |reqs| <= BURST_SIZE && i < |v| && Halfway(h, v, ms, reqs, i, batch, infos, [], [])
      requires if v[i] && (|batch| + 1 == BATCH_SIZE || i + 1 == |ms|)
        then batch' == [] && infos' == [] && Replied(h, batch + [ms[i]], infos + [reqs[i]], msgs, bs)
        else
          && msgs == [] && bs == []
          && batch' == batch + (if v[i] then [ms[i]] else [])
          && infos' == infos + (if v[i] then [reqs[i]] else [])
      ensures Halfway(h, v, ms, reqs, i + 1, batch', infos', msgs, bs)
      ensures i + 1 < |v| ==> |batch| + 1 < BATCH_SIZE && |batch'| < BATCH_SIZE && msgs == [] && bs == []
    {
      hide Replied, Kept;
      KeptNext(v, ms, i);
      KeptNext(v, reqs, i);
      TakeAll(v);
      TakeAll(ms);
      TakeAll(reqs);
    }

    lemma HalfwayEnd(h: Heap, v: seq<bool>, ms: seq<Ptr>, reqs: seq<Request>, batch: seq<Ptr>, infos: seq<Request>,
                     msgs: seq<Msg>, bs: seq<seq<byte>>)
      requires |v| == |ms| == |reqs| && Halfway(h, v, ms, reqs, |v|, batch, infos, msgs, bs)
      ensures batch == Lost(v, ms) && Replied(h, Answered(v, ms), Answered(v, reqs), msgs, bs)
    {
      hide Kept;
      TakeAll(v);
      TakeAll(ms);
      TakeAll(reqs);
      KeptNone(v, ms);
      KeptNone(v, reqs);
    }

    static lemma KeptNone<T>(v: seq<bool>, xs: seq<T>)
      requires |v| == |xs|
      ensures v == [] ==> Kept(v, xs) == []
    {
    }

    /** Sending and freeing do not touch the receive ring. */
    lemma RxApart()
      requires Valid()
      ensures RxFrame() !! Frame() && rxItems in Frame() && this !in RxFrame()
    {
      hide Good, Inv, Dimensioned, PoolsOk;
    }

    lemma NoRequests()
      ensures WellFormed([])
    {
    }

    static lemma PacketsAt(pkts: seq<Packet>)
      ensures forall i :: 0 <= i < |pkts| ==> Validity(pkts)[i] == pkts[i].valid && Requests(pkts)[i] == pkts[i].request
    {
    }

    // ----- many turns ------------------------------------------------------------------------

    /** Packets that the device has stored and the server has not taken. */
    ghost function Unread(): int
      reads rxq
    {
      |rxq.reports| - |rxq.delivered|
    }

    /** How many there can be: one buffer and one completion entry each. */
    ghost function RxSpace(): nat { Min(rxq.cfg.WqeCnt(), rxq.cfg.CqeCnt()) }

    /** The device stores one packet. */
    method ArriveOne(len: u32)
      requires Valid() && RxOk() && Unread() < RxSpace()
      modifies rxq`reports, rxq`dma, rxq.cq
      ensures Valid() && RxOk() && |rxq.reports| == |old(rxq.reports)| + 1 && rxq.reports[..|old(rxq.reports)|] == old(rxq.reports)
      ensures rxq.reports[|old(rxq.reports)|].byteCnt == len
    {
      hide Good, Inv, R.Inv, PoolsOk, Separate, Dimensioned, Pow2, Produce;
      Opened();
      RxApart();
      rxq.DeviceReceive(len);
    }

    /** The device stores packets of the given lengths. */
    method Arrive(lens: seq<u32>)
      requires Valid() && RxOk() && Unread() + |lens| <= RxSpace()
      modifies rxq`reports, rxq`dma, rxq.cq
      ensures Valid() && RxOk() && |rxq.reports| == |old(rxq.reports)| + |lens|
      ensures forall i :: 0 <= i < |lens| ==> rxq.reports[|old(rxq.reports)| + i].byteCnt == lens[i]
    {
      hide Valid, RxOk;
      for k := 0 to |lens|
        invariant Valid() && RxOk() && |rxq.reports| == |old(rxq.reports)| + k
        invariant forall i :: 0 <= i < k ==> rxq.reports[|old(rxq.reports)| + i].byteCnt == lens[i]
      {
        ghost var before := rxq.reports;
        ArriveOne(lens[k]);
        forall i | 0 <= i < k + 1 ensures rxq.reports[|old(rxq.reports)| + i].byteCnt == lens[i] {
          if i < k { assert rxq.reports[..|before|][|old(rxq.reports)| + i] == before[|old(rxq.reports)| + i]; }
        }
      }
    }

    static ghost function UnreadAfter(start: int, turns: seq<Turn>): int {
      if turns == [] then start
      else
        var t := turns[|turns| - 1];
        UnreadAfter(start, turns[..|turns| - 1]) + |t.lens| - |t.pkts|
    }

    /** Each turn takes what is there, up to a burst; the device never stores more than there is space for. */
    static ghost predicate Schedule(start: int, space: nat, turns: seq<Turn>) {
      turns != [] ==>
        var n := |turns| - 1;
        var w := UnreadAfter(start, turns[..n]) + |turns[n].lens|;
        Schedule(start, space, turns[..n]) && 0 <= w <= space && |turns[n].pkts| == Min(BURST_SIZE, w)
    }

    static function Bursts(turns: seq<Turn>): (vs: seq<seq<bool>>)
      ensures |vs| == |turns|
    {
      seq(|turns|, i requires 0 <= i < |turns| => Validity(turns[i].pkts))
    }

    /** The requests that are answered, in order. */
    static ghost function AnsweredIn(turns: seq<Turn>): seq<Request> {
      if turns == [] then []
      else
        var t := turns[|turns| - 1];
        AnsweredIn(turns[..|turns| - 1]) + Answered(Validity(t.pkts), Requests(t.pkts))
    }

    ghost predicate PacketsOk(pkts: seq<Packet>) { forall i :: 0 <= i < |pkts| && pkts[i].valid ==> RequestOk(pkts[i].request) }

    ghost predicate TurnsOk(turns: seq<Turn>) { forall k :: 0 <= k < |turns| ==> PacketsOk(turns[k].pkts) }

    static lemma TurnNext(start: int, space: nat, turns: seq<Turn>, i: nat)
      requires i < |turns|
      ensures UnreadAfter(start, turns[..i + 1]) == UnreadAfter(start, turns[..i]) + |turns[i].lens| - |turns[i].pkts|
      ensures AnsweredIn(turns[..i + 1]) == AnsweredIn(turns[..i]) + Answered(Validity(turns[i].pkts), Requests(turns[i].pkts))
      ensures TotalLost(Bursts(turns)[..i + 1]) == TotalLost(Bursts(turns)[..i]) + Pending(Validity(turns[i].pkts), 0)
      ensures TotalLost(Bursts(turns)[..i]) <= TotalLost(Bursts(turns)[..|turns| - 1])
      ensures Schedule(start, space, turns) ==>
        var w := UnreadAfter(start, turns[..i]) + |turns[i].lens|; 0 <= w <= space && |turns[i].pkts| == Min(BURST_SIZE, w)
    {
      hide Validity, Answered, Requests, TotalLost, Pending;
      assert turns[..i + 1][..i] == turns[..i];
      TotalLostNext(Bursts(turns), i);
      TotalLostGrows(Bursts(turns), i, |turns| - 1);
      if Schedule(start, space, turns) { ScheduleAt(start, space, turns, i); }
    }

    static lemma {:induction false} ScheduleAt(start: int, space: nat, turns: seq<Turn>, i: nat)
      requires i < |turns| && Schedule(start, space, turns)
      ensures var w := UnreadAfter(start, turns[..i]) + |turns[i].lens|; 0 <= w <= space && |turns[i].pkts| == Min(BURST_SIZE, w)
      decreases |turns|
    {
      var n := |turns| - 1;
      if i < n {
        assert turns[..n][..i] == turns[..i];
        ScheduleAt(start, space, turns[..n], i);
      }
    }

    static lemma TurnNone(start: int, turns: seq<Turn>)
      ensures UnreadAfter(start, turns[..0]) == start && AnsweredIn(turns[..0]) == [] && TotalLost(Bursts(turns)[..0]) == 0
    {
    }

    lemma AnswersAppend(a: seq<Request>, b: seq<Request>, x: seq<Msg>, y: seq<Msg>, ax: seq<seq<byte>>, bx: seq<seq<byte>>)
      ensures AllAnswer(a, x) && AllAnswer(b, y) ==> AllAnswer(a + b, x + y)
      ensures AllWanted(a, ax) && AllWanted(b, bx) ==> AllWanted(a + b, ax + bx)
    {
      hide Answers, IsWanted;
    }

    /** One turn: packets arrive, then a burst is processed. */
    method OneTurn(t: Turn) returns (ok: bool, ghost lost: seq<Ptr>, ghost msgs: seq<Msg>, ghost bs: seq<seq<byte>>)
      requires Valid() && Content() && limbo == [] && build == [] && RxOk()
      requires 0 <= Unread() + |t.lens| <= RxSpace() && |t.pkts| == Min(BURST_SIZE, Unread() + |t.lens|)
      requires !mode.Echo? ==> PacketsOk(t.pkts)
      modifies this`clock, this`limbo, this`flight, this`build, this`handed, txq, txq.ring, txq.buffers, txq.cq, mem
      modifies rxq, rxq.buffers, rxq.addrs, rxq.cq
      modifies mbufPool`used, mbufItems, txPool`used, txItems, rxPool`used, rxItems, refs.counts, store
      ensures ok <==> old(RxCovers(|t.pkts|))
      ensures Content() && txq.log == old(txq.log) + msgs && store.packets == old(store.packets) + bs
      ensures handed == old(handed) + multiset(lost)
      ensures !ok ==> lost == [] && msgs == [] && bs == [] && store.frames == old(store.frames)
      ensures ok ==> Valid() && limbo == [] && build == [] && RxOk() && Unread() == old(Unread()) + |t.lens| - |t.pkts|
      ensures ok ==> |lost| == Pending(Validity(t.pkts), 0)
      ensures ok && !mode.Echo? ==> AllAnswer(Answered(Validity(t.pkts), Requests(t.pkts)), msgs)
      ensures ok ==> if mode.Copy? then AllWanted(Answered(Validity(t.pkts), Requests(t.pkts)), bs) else bs == []
    {
      hide Valid, Content, RxOk, RequestOk, Validity, Requests, Answered, AllAnswer, AllWanted, Arrived, Lost, Pending, RxCovers;
      Arrive(t.lens);
      var ms;
      ghost var h;
      ok, ms, h, lost, msgs, bs := Burst(t.pkts);
      if ok { LostIsPending(Validity(t.pkts), ms); }
    }

    /** The receive pool covers turn `i`: `held` packets were held at first, and `ringed` are on their way back. */
    ghost predicate Covered(held: nat, ringed: nat, turns: seq<Turn>, i: nat)
      requires i < |turns|
    {
      |stock.rxs| >= rxq.cfg.WqeCnt() + held + ringed + TotalLost(Bursts(turns)[..i]) + |turns[i].pkts|
    }

    /** It covers every turn, however many packets are on their way back. */
    ghost predicate AllCovered(held: nat, turns: seq<Turn>) {
      forall i :: 0 <= i < |turns| ==> Covered(held, MaxRinged(), turns, i)
    }

    lemma ServedExact(held: nat, ringed: seq<nat>, turns: seq<Turn>, served: nat)
      requires served <= |turns| && |ringed| == Min(served + 1, |turns|)
      requires forall i :: 0 <= i < |ringed| ==> ringed[i] <= MaxRinged()
      requires forall i :: 0 <= i < served ==> Covered(held, ringed[i], turns, i)
      requires served < |turns| ==> !Covered(held, ringed[served], turns, served)
      ensures AllCovered(held, turns) ==> served == |turns|
      ensures !mode.Echo? ==> (served == |turns| <==> AllCovered(held, turns))
    {
      hide TotalLost, Bursts;
      assert AllCovered(held, turns) && served < |turns| ==> Covered(held, MaxRinged(), turns, served);
      if served == |turns| && !mode.Echo? {
        forall i | 0 <= i < |turns| ensures Covered(held, MaxRinged(), turns, i) {
          assert Covered(held, ringed[i], turns, i);
        }
      }
    }

    /** Of the answers to `infos`, which are the messages from number `from` on, those that were sent: a zero-copy answer
        exactly as it was asked for unless its descriptor starts in the last block, a copied one up to the two
        fields that are not written. */
    ghost predicate Delivered(infos: seq<Request>, from: nat, frames: seq<seq<byte>>, log: seq<Msg>) {
      && |frames| <= |log| == from + |infos|
      && forall q :: from <= q < |frames| ==>
           match mode
           case ZeroCopy(_) =>
             TxRing.At(log, q) % txq.cfg.WqeCnt() + 1 != txq.cfg.WqeCnt() ==> Delivers(infos[q - from], frames[q])
           case Copy => IsWanted(infos[q - from], frames[q])
           case Echo => true
    }

    /** Between turns. */
    ghost predicate Idle()
      reads this, Frame(), RxFrame()
    {
      Valid() && limbo == [] && build == [] && RxOk()
    }

    /** Since the log was `log0` and the packets on file were `packets0`, exactly `infos` have been answered. */
    ghost predicate Replies(infos: seq<Request>, log0: seq<Msg>, packets0: seq<seq<byte>>, msgs: seq<Msg>, bs: seq<seq<byte>>)
      reads store, txq
    {
      && Content() && txq.log == log0 + msgs && store.packets == packets0 + bs
      && (!mode.Echo? ==> AllAnswer(infos, msgs) && Delivered(infos, |log0|, store.frames, txq.log))
      && (if mode.Copy? then AllWanted(infos, bs) else bs == [])
    }

    /** One round of the server loop. */
    method ServeTurn(turns: seq<Turn>, i: nat, ghost log0: seq<Msg>, ghost packets0: seq<seq<byte>>, ghost msgs: seq<Msg>,
                     ghost bs: seq<seq<byte>>)
      returns (ok: bool, ghost lost: seq<Ptr>, ghost msgs': seq<Msg>, ghost bs': seq<seq<byte>>)
      requires i < |turns| && Idle() && Replies(AnsweredIn(turns[..i]), log0, packets0, msgs, bs)
      requires 0 <= Unread() + |turns[i].lens| <= RxSpace() && |turns[i].pkts| == Min(BURST_SIZE, Unread() + |turns[i].lens|)
      requires !mode.Echo? ==> PacketsOk(turns[i].pkts)
      requires AnsweredIn(turns[..i + 1]) == AnsweredIn(turns[..i]) + Answered(Validity(turns[i].pkts), Requests(turns[i].pkts))
      modifies this`clock, this`limbo, this`flight, this`build, this`handed, txq, txq.ring, txq.buffers, txq.cq, mem
      modifies rxq, rxq.buffers, rxq.addrs, rxq.cq
      modifies mbufPool`used, mbufItems, txPool`used, txItems, rxPool`used, rxItems, refs.counts, store
      ensures ok <==> old(RxCovers(|turns[i].pkts|))
      ensures handed == old(handed) + multiset(lost) && |lost| == if ok then Pending(Validity(turns[i].pkts), 0) else 0
      ensures ok ==> Idle() && Unread() == old(Unread()) + |turns[i].lens| - |turns[i].pkts|
      ensures Replies(AnsweredIn(turns[..if ok then i + 1 else i]), log0, packets0, msgs', bs')
    {
      hide Valid, Content, RxOk, PacketsOk, Validity, Requests, Answered, AllAnswer, AllWanted, Pending, AnsweredIn, Delivered, RxCovers;
      var t := turns[i];
      ok, lost, msgs', bs' := OneTurn(t);
      if !ok {
        assert old(txq.log) + [] == old(txq.log) && old(store.packets) + [] == old(store.packets);
        msgs', bs' := msgs, bs;
        return;
      }
      AnswersAppend(AnsweredIn(turns[..i]), Answered(Validity(t.pkts), Requests(t.pkts)), msgs, msgs', bs, bs');
      msgs', bs' := msgs + msgs', bs + bs';
      if !mode.Echo? { SentRight(AnsweredIn(turns[..i + 1]), log0, msgs', packets0, bs'); }
    }

    /** The server loop, over any number of turns and any pattern of arrivals. It gets through a turn exactly when the
        receive pool covers the packets lost before, the burst, and the `ringed` packets on their way back. Exactly
        the requests of bursts that do not leak are answered, each once and in order, and what the device sends are
        these answers. */
    method Serve(turns: seq<Turn>)
      returns (served: nat, ghost ringed: seq<nat>, ghost lost: seq<Ptr>, ghost msgs: seq<Msg>, ghost bs: seq<seq<byte>>)
      requires Idle() && Content()
      requires Schedule(Unread(), RxSpace(), turns) && (!mode.Echo? ==> TurnsOk(turns))
      modifies this`clock, this`limbo, this`flight, this`build, this`handed, txq, txq.ring, txq.buffers, txq.cq, mem
      modifies rxq, rxq.buffers, rxq.addrs, rxq.cq
      modifies mbufPool`used, mbufItems, txPool`used, txItems, rxPool`used, rxItems, refs.counts, store
      ensures served <= |turns| && |ringed| == Min(served + 1, |turns|)
      ensures forall i :: 0 <= i < |ringed| ==> ringed[i] <= MaxRinged()
      ensures forall i :: 0 <= i < served ==> Covered(|old(handed)|, ringed[i], turns, i)
      ensures served < |turns| ==> !Covered(|old(handed)|, ringed[served], turns, served)
      ensures AllCovered(|old(handed)|, turns) ==> served == |turns|
      ensures !mode.Echo? ==> (served == |turns| <==> AllCovered(|old(handed)|, turns))
      ensures served == |turns| ==> Idle()
      ensures handed == old(handed) + multiset(lost) && |lost| == TotalLost(Bursts(turns)[..served])
      ensures Replies(AnsweredIn(turns[..served]), old(txq.log), old(store.packets), msgs, bs)
    {
      hide Valid, RxOk, PacketsOk, Validity, Requests, Answered, TotalLost, Pending, Bursts, Replies, AnsweredIn, UnreadAfter, Schedule;
      hide Ringed, MaxRinged, AllCovered;
      ghost var start, space, log0, packets0 := Unread(), RxSpace(), txq.log, store.packets;
      ringed, lost, msgs, bs := [], [], [], [];
      TurnNone(start, turns);
      NothingDelivered();
      served := 0;
      while served < |turns|
        invariant served <= |turns| && |ringed| == served && Idle()
        invariant Unread() == UnreadAfter(start, turns[..served])
        invariant forall i :: 0 <= i < served ==> ringed[i] <= MaxRinged() && Covered(|old(handed)|, ringed[i], turns, i)
        invariant handed == old(handed) + multiset(lost) && |lost| == TotalLost(Bursts(turns)[..served])
        invariant Replies(AnsweredIn(turns[..served]), log0, packets0, msgs, bs)
      {
        TurnNext(start, space, turns, served);
        RingedBound();
        ringed := ringed + [Ringed()];
        ghost var lost';
        var ok;
        ok, lost', msgs, bs := ServeTurn(turns, served, log0, packets0, msgs, bs);
        lost := lost + lost';
        if !ok {
          ServedExact(|old(handed)|, ringed, turns, served);
          return;
        }
        served := served + 1;
      }
      ServedExact(|old(handed)|, ringed, turns, served);
    }

    /** What the device has sent of the answers in a run. */
    lemma SentRight(infos: seq<Request>, log0: seq<Msg>, msgs: seq<Msg>, packets0: seq<seq<byte>>, bs: seq<seq<byte>>)
      requires Valid() && Content() && !mode.Echo? && txq.log == log0 + msgs && AllAnswer(infos, msgs)
      requires mode.Copy? ==> store.packets == packets0 + bs && AllWanted(infos, bs)
      ensures Delivered(infos, |log0|, store.frames, txq.log)
    {
      hide Valid, Inv, Answers, Delivers, IsWanted, Carried, TxRing.At, BufsOk, Frames.Frame;
      RingInv();
      WireSize(txq.cfg, txq.View(mem));
      assert txq.log + [] == txq.log;
      forall q | |log0| <= q < |store.frames|
        ensures mode.Copy? ==> IsWanted(infos[q - |log0|], store.frames[q])
        ensures mode.ZeroCopy? && TxRing.At(txq.log, q) % txq.cfg.WqeCnt() + 1 != txq.cfg.WqeCnt() ==>
          Delivers(infos[q - |log0|], store.frames[q])
      {
        assert Answers(infos[q - |log0|], txq.log[q]);
        if mode.ZeroCopy? && TxRing.At(txq.log, q) % txq.cfg.WqeCnt() + 1 != txq.cfg.WqeCnt() {
          ZeroCopyOnWire(infos[q - |log0|], q);
        }
      }
    }

    lemma NothingDelivered()
      requires Idle() && Content()
      ensures Replies([], txq.log, store.packets, [], [])
    {
      hide Valid, Content, Delivered;
      assert txq.log + [] == txq.log && store.packets + [] == store.packets;
      NothingAnswered();
      if !mode.Echo? { SentRight([], txq.log, [], store.packets, []); }
    }

    lemma NothingAnswered()
      ensures AllAnswer([], []) && AllWanted([], [])
    {
    }

    // ----- which schedules are served ----------------------------------------------------------

    /** A schedule from now on that the server may meet, in which at most `lost` packets are lost before the last turn. */
    ghost predicate Possible(turns: seq<Turn>, lost: nat)
      reads rxq
    {
      && Schedule(Unread(), RxSpace(), turns) && (!mode.Echo? ==> TurnsOk(turns))
      && (turns != [] ==> TotalLost(Bursts(turns)[..|turns| - 1]) <= lost)
    }

    /** All schedules that lose at most `lost` packets before their last turn are covered if and only if the pool covers
        these losses and the largest burst. The request `r` is one that may be answered. */
    lemma SchedulesCovered(lost: nat, r: Request)
      requires Valid() && RxOk() && (lost > 0 ==> RxSpace() >= 2 && (!mode.Echo? ==> RequestOk(r)))
      ensures (forall turns :: Possible(turns, lost) ==> AllCovered(|handed|, turns)) <==>
        |stock.rxs| >= rxq.cfg.WqeCnt() + |handed| + MaxRinged() + lost + Min(BURST_SIZE, RxSpace())
    {
      hide Valid, RxOk, Possible, AllCovered, MaxRinged, RequestOk;
      if |stock.rxs| >= rxq.cfg.WqeCnt() + |handed| + MaxRinged() + lost + Min(BURST_SIZE, RxSpace()) {
        forall turns | Possible(turns, lost) ensures AllCovered(|handed|, turns) { PoolCovers(turns, lost); }
      } else {
        var turns := WorstSchedule(lost, r);
        NotCovered(turns, lost);
      }
    }

    lemma PoolCovers(turns: seq<Turn>, lost: nat)
      requires Possible(turns, lost)
      requires |stock.rxs| >= rxq.cfg.WqeCnt() + |handed| + MaxRinged() + lost + Min(BURST_SIZE, RxSpace())
      ensures AllCovered(|handed|, turns)
    {
      hide Schedule, TurnsOk, TotalLost, Bursts, MaxRinged, RxSpace, Pending, Validity, Answered, Requests, AnsweredIn, UnreadAfter;
      forall i | 0 <= i < |turns| ensures Covered(|handed|, MaxRinged(), turns, i) {
        TurnNext(Unread(), RxSpace(), turns, i);
      }
    }

    lemma NotCovered(turns: seq<Turn>, lost: nat)
      requires |turns| == lost + 1 && TotalLost(Bursts(turns)[..lost]) == lost && |turns[lost].pkts| == Min(BURST_SIZE, RxSpace())
      requires |stock.rxs| < rxq.cfg.WqeCnt() + |handed| + MaxRinged() + lost + Min(BURST_SIZE, RxSpace())
      ensures !AllCovered(|handed|, turns)
    {
      hide TotalLost, Bursts, MaxRinged, RxSpace;
      assert !Covered(|handed|, MaxRinged(), turns, lost);
    }

    /** Leaks use up every pool: some schedule has a turn that is not covered, even if no packet is on its way back. */
    lemma LeaksExhaust(r: Request)
      requires Valid() && RxOk() && RxSpace() >= 2 && (!mode.Echo? ==> RequestOk(r))
      ensures exists turns :: Possible(turns, |stock.rxs|) && turns != [] && !Covered(|handed|, 0, turns, |turns| - 1)
    {
      hide Valid, RxOk, Possible, RequestOk, TotalLost, Bursts;
      var turns := WorstSchedule(|stock.rxs|, r);
    }

    lemma UnreadBound()
      requires RxOk()
      ensures 0 <= Unread() <= RxSpace()
    {
      hide R.InSlot, Ring, Pow2;
    }

    /** `lost` turns that lose one packet each, and then as many packets as there can be. */
    lemma WorstSchedule(lost: nat, r: Request) returns (turns: seq<Turn>)
      requires RxOk() && (lost > 0 ==> RxSpace() >= 2 && (!mode.Echo? ==> RequestOk(r)))
      ensures Possible(turns, lost) && |turns| == lost + 1
      ensures TotalLost(Bursts(turns)[..lost]) == lost && |turns[lost].pkts| == Min(BURST_SIZE, RxSpace())
    {
      hide RxOk, Schedule, UnreadAfter, TotalLost, Bursts, RequestOk;
      UnreadBound();
      var leaks := LeakSchedule(Unread(), RxSpace(), r, lost);
      var u := UnreadAfter(Unread(), leaks);
      var last := Turn(seq(RxSpace() - u, _ => 0), seq(Min(BURST_SIZE, RxSpace()), _ => Packet.Packet(false, r)));
      turns := leaks + [last];
      ScheduleNext(Unread(), RxSpace(), leaks, last);
      BurstsNext(leaks, last);
    }

    static lemma ScheduleNext(start: int, space: nat, turns: seq<Turn>, t: Turn)
      ensures Schedule(start, space, turns + [t]) <==>
        && Schedule(start, space, turns) && 0 <= UnreadAfter(start, turns) + |t.lens| <= space
        && |t.pkts| == Min(BURST_SIZE, UnreadAfter(start, turns) + |t.lens|)
      ensures UnreadAfter(start, turns + [t]) == UnreadAfter(start, turns) + |t.lens| - |t.pkts|
    {
      assert (turns + [t])[..|turns|] == turns;
    }

    static lemma BurstsNext(turns: seq<Turn>, t: Turn)
      ensures Bursts(turns + [t])[..|turns|] == Bursts(turns) && Bursts(turns + [t])[|turns|] == Validity(t.pkts)
      ensures TotalLost(Bursts(turns + [t])) == TotalLost(Bursts(turns)) + Pending(Validity(t.pkts), 0)
    {
      hide Validity, Pending;
      assert Bursts(turns + [t])[..|turns|] == Bursts(turns);
    }

    /** A turn that loses one packet. */
    static function LeakTurn(unread: nat, r: Request): Turn {
      Turn(seq(if unread < 2 then 2 - unread else 0, _ => 0),
           seq(Min(BURST_SIZE, if unread < 2 then 2 else unread), i => Packet.Packet(i == 0, r)))
    }

    static lemma LeakTurnLoses(unread: nat, r: Request)
      ensures Pending(Validity(LeakTurn(unread, r).pkts), 0) == 1
    {
      var v := Validity(LeakTurn(unread, r).pkts);
      LeakExact(v);
      CountValidPositive(v[1..]);
      assert v[0] && true in v;
    }

    lemma {:induction false} LeakSchedule(start: nat, space: nat, r: Request, n: nat) returns (turns: seq<Turn>)
      requires start <= space && (n > 0 ==> space >= 2 && (!mode.Echo? ==> RequestOk(r)))
      ensures |turns| == n && Schedule(start, space, turns) && 0 <= UnreadAfter(start, turns) <= space
      ensures TotalLost(Bursts(turns)) == n && (!mode.Echo? ==> TurnsOk(turns))
    {
      if n == 0 {
        turns := [];
      } else {
        hide Schedule, UnreadAfter, TotalLost, Bursts, RequestOk;
        turns := LeakSchedule(start, space, r, n - 1);
        var t := LeakTurn(UnreadAfter(start, turns), r);
        LeakTurnLoses(UnreadAfter(start, turns), r);
        ScheduleNext(start, space, turns, t);
        BurstsNext(turns, t);
        turns := turns + [t];
      }
    }

    // ----- what the device sends ---------------------------------------------------------------

    /** A zero-copy answer is sent as it was asked for, unless its descriptor starts in the last block. */
    lemma ZeroCopyOnWire(r: Request, p: nat)
      requires Valid() && Content() && mode.ZeroCopy? && p < |store.frames| && p < |txq.log| && Answers(r, txq.log[p])
      requires TxRing.At(txq.log, p) % txq.cfg.WqeCnt() + 1 != txq.cfg.WqeCnt()
      ensures store.frames[p] == Wanted(WorkingData(), r, numSegments) && Delivers(r, store.frames[p])
    {
      hide Good, Inv, TxRing.At, Wanted, ZeroCopyMsg, Pow2, Frames.Frame, AnswerStore.HeadersOk;
      ZeroCopyServes(txq.cfg, txq.View(mem), p, WorkingData(), r, numSegments, SegmentMemory(region, working));
    }

    /** The frame is exactly the answer asked for. */
    ghost predicate Delivers(r: Request, f: seq<byte>) {
      WorkingData().Valid() && Readable(r, numSegments) && f == Wanted(WorkingData(), r, numSegments)
    }

    /** With a safe number of segments every frame that a zero-copy server has ever sent is the answer asked for. */
    lemma EveryFrameWanted(infos: seq<Request>)
      requires Valid() && Content() && mode.ZeroCopy? && AllAnswer(infos, txq.log)
      requires (numSegments + 1) / 4 % 2 == 0 && txq.cfg.wqeLog >= 1
      ensures |store.frames| <= |infos|
      ensures forall p :: 0 <= p < |store.frames| ==> Delivers(infos[p], store.frames[p])
    {
      hide Valid, Inv, Answers, Delivers, Delivered, TxRing.At, Pow2;
      AnswerBlocks(infos);
      assert [] + txq.log == txq.log;
      SentRight(infos, [], txq.log, [], []);
      SentAtMost();
      var b := Blocks(HEADER_LEN, numSegments);
      assert b == 2 + (numSegments + 1) / 4;
      hide Blocks;
      forall p | 0 <= p < |store.frames| ensures Delivers(infos[p], store.frames[p]) {
        EqualBlocks(txq.log, b, p);
        EvenStart(txq.cfg.wqeLog, b, p);
        DeliveredAt(infos, p);
      }
    }

    lemma SentAtMost()
      requires Valid() && Content()
      ensures |store.frames| == |txq.wire| <= |txq.log|
    {
      hide Inv, Good, BufsOk, AnswerStore.HeadersOk;
      WireSize(txq.cfg, txq.View(mem));
    }

    lemma DeliveredAt(infos: seq<Request>, p: nat)
      requires mode.ZeroCopy? && Delivered(infos, 0, store.frames, txq.log) && p < |store.frames|
      requires TxRing.At(txq.log, p) % txq.cfg.WqeCnt() + 1 != txq.cfg.WqeCnt()
      ensures Delivers(infos[p], store.frames[p])
    {
      hide Delivers, TxRing.At, Pow2;
    }

    lemma AnswerBlocks(infos: seq<Request>)
      requires mode.ZeroCopy? && AllAnswer(infos, txq.log)
      ensures forall j :: 0 <= j < |txq.log| ==> txq.log[j].NumWqes() == Blocks(HEADER_LEN, numSegments)
    {
      hide AnswerHeader, SegmentIds, SegmentList, Blocks;
      forall j | 0 <= j < |txq.log| ensures txq.log[j].NumWqes() == Blocks(HEADER_LEN, numSegments) {
        assert Answers(infos[j], txq.log[j]);
      }
    }

    /** Every frame that a copying server has ever sent is the answer asked for, up to the two fields that are not
        written, whenever the device sent it. */
    lemma EveryCopyWanted(infos: seq<Request>)
      requires Valid() && Content() && mode.Copy? && AllWanted(infos, store.packets)
      ensures |store.frames| <= |infos| && forall q :: 0 <= q < |store.frames| ==> IsWanted(infos[q], store.frames[q])
    {
      hide Valid, IsWanted, Carried, BufsOk, AnswerStore.HeadersOk;
      SentAtMost();
    }

    /** Whatever this zero-copy server and a copying server `y` have sent for requests with the same bytes from the same
        data, at any moment, is the same frame, up to the UDP checksum and the checksum field, unless the zero-copy
        descriptor starts in the last block. */
    lemma AgreesWith(y: Server, infos: seq<Request>, infos': seq<Request>, p: nat, q: nat)
      requires Valid() && Content() && mode.ZeroCopy? && AllAnswer(infos, txq.log) && p < |store.frames|
      requires y.Valid() && y.Content() && y.mode.Copy? && y.AllWanted(infos', y.store.packets) && q < |y.store.frames|
      requires working == y.working && refs.numTotal == y.refs.numTotal && segmentSize == y.segmentSize
      requires numSegments == y.numSegments && |txq.log| == |infos| && p < |infos| && q < |infos'| && infos[p].pkt == infos'[q].pkt
      requires TxRing.At(txq.log, p) % txq.cfg.WqeCnt() + 1 != txq.cfg.WqeCnt()
      ensures SameFrame(store.frames[p], y.store.frames[q])
    {
      hide Valid, Content, TxRing.At, Wanted, SameFrame, Pow2, Answers;
      var r, r' := infos[p], infos'[q];
      assert Answers(r, txq.log[p]);
      ZeroCopyOnWire(r, p);
      y.EveryCopyWanted(infos');
      assert y.IsWanted(r', y.store.frames[q]);
      WantedSame(WorkingData(), y.WorkingData(), r, r', numSegments);
      SameFrames(Wanted(WorkingData(), r, numSegments), Wanted(y.WorkingData(), r', numSegments), y.store.frames[q]);
    }
  }

  /** Buffers that are the items of a pool do not overlap. */
  lemma PoolBuffersApart(r: Region, bufs: map<Ptr, seq<byte>>)
    requires r.Valid() && forall p :: p in bufs ==> p in AllItems(r.buf, r.len, r.pgsize, r.item) && |bufs[p]| <= r.item
    ensures BuffersApart(bufs)
  {
    hide Items;
    PerPage(r.pgsize, r.item);
    ItemsLayout(r.buf, r.pgsize, r.item, r.pgsize / r.item, r.len / r.pgsize);
    var s := AllItems(r.buf, r.len, r.pgsize, r.item);
    forall p, q | p in bufs && q in bufs && p < q ensures p + |bufs[p]| <= q {
      var k :| 0 <= k < |s| && s[k] == p;
      var l :| 0 <= l < |s| && s[l] == q;
      assert l < k ==> s[l] + r.item <= s[k];
    }
  }
}
