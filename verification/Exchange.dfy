/** One exchange: a request as the client writes it (requests.c, main.c), and the answer that the server sends. */
module Exchange {
  import opened Bits
  import opened Memory
  import opened WorkRequest
  import opened Frames
  import C = PointerChase

  /** What the client copies behind the packet headers: the request from its id on, with `n` segments. */
  function RequestBytes(q: C.ClientRequest, n: nat): seq<byte>
    requires n <= |q.segmentOffsets| && forall i :: 0 <= i < n ==> q.segmentOffsets[i] < W64
  {
    Le32Bytes(q.packetId) + Le32Bytes(q.idPadding) + ListBytes(q.segmentOffsets[..n])
  }

  /** read_u64(payload, ID_OFF) in the answer. */
  function IdRead(f: seq<byte>): nat
    requires |f| >= 50
  {
    Le64(f[42..50])
  }

  /** The frame `f` answers the request, up to the two fields that a copied answer leaves as they were. */
  ghost predicate Answered(d: WorkingSet, info: Request, n: nat, f: seq<byte>)
    requires d.Valid() && Readable(info, n)
  {
    SameFrame(Wanted(d, info, n), f)
  }

  /** Request number `r` of a client whose table is `next` is answered with its own number and, one after the other,
      with the segments of its part of the chase. */
  lemma ChaseAnswered(d: WorkingSet, next: seq<nat>, q: C.ClientRequest, r: nat, n: nat, head: seq<byte>, rest: seq<byte>,
                      info: Request, f: seq<byte>)
    requires next != [] && |next| < W64 && C.Permutation(next) && C.Filled(next, q, r, n) && q.idPadding == 0
    requires d.Valid() && |head| == 42 && |info.checksum| == 8
    requires forall i :: 0 <= i < n ==> q.segmentOffsets[i] < W64
    requires info.pkt == head + RequestBytes(q, n) + rest && Readable(info, n) && Answered(d, info, n, f)
    ensures |f| >= 58 && ValidPacket(f, head[6..12]) && IdRead(f) == r % W32
    ensures forall i :: 0 <= i < n ==>
      SegmentFollows(d, f, i, q.segmentOffsets[i]) && q.segmentOffsets[i] == C.Orbit(next, r * n + i)
  {
    hide SameFrame, ValidPacket, AnswerHead, SegmentFollows, C.Orbit, C.Permutation, ListBytes, Le32Bytes;
    var ids := q.segmentOffsets;
    assert ids[..n] == ids;
    var front := head + Le32Bytes(q.packetId) + Le32Bytes(q.idPadding);
    assert info.pkt == front + ListBytes(ids) + rest;
    AnswerBytes(d, info, front, ids, rest);
    AnswerAccepted(d, info, n, f);
    assert info.pkt[6..12] == head[6..12];
    hide Wanted;
    SameSize(Wanted(d, info, n), f);
    IdReturned(d, info, n, f, front, head, q.packetId);
    forall i | 0 <= i < n ensures SegmentFollows(d, f, i, ids[i]) {
      SameSegment(d, Wanted(d, info, n), f, i, ids[i]);
    }
  }

  lemma IdReturned(d: WorkingSet, info: Request, n: nat, f: seq<byte>, front: seq<byte>, head: seq<byte>, id: u32)
    requires d.Valid() && Readable(info, n) && SameFrame(Wanted(d, info, n), f) && |head| == 42
    requires front == head + Le32Bytes(id) + Le32Bytes(0) && AnswerHead(Wanted(d, info, n), front, n * d.size + 16, info.checksum)
    ensures IdRead(f) == id
  {
    hide EthBack, IpBack, UdpBack, Le32Bytes, Le64, Wanted;
    var w := Wanted(d, info, n);
    Zeros();
    assert w[42..46] == Le32Bytes(id) by { assert front[42..46] == Le32Bytes(id); }
    assert f[42..50] == w[42..46] + w[46..50];
    Le64RoundTrip(id);
    assert Le64Bytes(id) == Le32Bytes(id) + Le32Bytes(0);
  }

  lemma SameSize(w: seq<byte>, f: seq<byte>)
    requires SameFrame(w, f)
    ensures |w| == |f|
  {
  }

  lemma Zeros()
    ensures Le32Bytes(0) == [0, 0, 0, 0]
  {
  }

  /** The two fields that a copied answer may differ in are in the header. */
  lemma SameSegment(d: WorkingSet, w: seq<byte>, f: seq<byte>, k: nat, id: nat)
    requires d.Valid() && SameFrame(w, f) && SegmentFollows(d, w, k, id)
    ensures SegmentFollows(d, f, k, id)
  {
    var a := 58 + k * d.size;
    SameBehind(w, f, a, a + d.size);
  }

  lemma SameBehind(w: seq<byte>, f: seq<byte>, a: nat, b: nat)
    requires SameFrame(w, f) && 58 <= a <= b <= |w|
    ensures w[a..b] == f[a..b]
  {
  }
}
