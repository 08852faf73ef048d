/** Packet buffer descriptors (inc/base/mbuf.h): records addressed by pointers, linked into
    chains by their `next` field. */
module PacketBuffers {
  import opened Bits
  import opened Memory
  import opened WorkRequest

  /** The release function an mbuf carries. */
  datatype Release = NoRelease | ZeroCopyTx | CopyTx | RxBuf

  datatype Mbuf = Mbuf(next: Ptr, head: Ptr, data: Ptr, headLen: u32, len: u32, nbSegs: u32, pktLen: u32,
                       release: Release, releaseData: nat, numWqes: nat, lkey: u32)

  const BLANK := Mbuf(NULL, NULL, NULL, 0, 0, 0, 0, NoRelease, 0, 0, 0)

  type Heap = map<Ptr, Mbuf>

  function MbufAt(h: Heap, p: Ptr): Mbuf { if p in h then h[p] else BLANK }

  /** The num_wqes field of every mbuf. */
  function BlockCounts(h: Heap): map<Ptr, nat> { map p | p in h :: h[p].numWqes }

  /** Space for the mbuf structure in front of received data. */
  const RX_BUF_HEAD: Ptr := 128

  /** mbuf_init */
  function Initialized(m: Mbuf, head: Ptr, headLen: u32, reserve: u32): Mbuf
    requires head + reserve < W64
  {
    m.(head := head, headLen := headLen, data := head + reserve, len := 0)
  }

  /** `chain` lists the mbufs reached from `m` by following `next` to NULL. */
  ghost predicate Chain(h: Heap, m: Ptr, chain: seq<Ptr>)
    decreases |chain|
  {
    if chain == [] then m == NULL
    else m == chain[0] && m != NULL && m in h && Chain(h, h[m].next, chain[1..])
  }

  /** The data segments of a chain. */
  function Segs(h: Heap, chain: seq<Ptr>): (s: seq<Seg>)
    requires forall p :: p in chain ==> p in h
    ensures |s| == |chain|
  {
    seq(|chain|, k requires 0 <= k < |chain| => Seg(h[chain[k]].len, h[chain[k]].lkey, h[chain[k]].data))
  }

  lemma {:induction false} ChainMembers(h: Heap, m: Ptr, chain: seq<Ptr>)
    requires Chain(h, m, chain)
    ensures forall p :: p in chain ==> p in h
    decreases |chain|
  {
    if chain != [] { ChainMembers(h, h[m].next, chain[1..]); }
  }

  /** Changing fields other than `next` keeps a chain. */
  lemma {:induction false} ChainFrame(h: Heap, h': Heap, m: Ptr, chain: seq<Ptr>)
    requires Chain(h, m, chain)
    requires forall p :: p in chain && p in h ==> p in h' && h'[p].next == h[p].next
    ensures Chain(h', m, chain)
    decreases |chain|
  {
    if chain != [] { ChainFrame(h, h', h[m].next, chain[1..]); }
  }

  /** Host memory that holds mbuf structures. */
  class MbufStore {
    var m: Heap

    constructor ()
      ensures m == map[]
    {
      m := map[];
    }
  }
}
