/** The bytes of an answer (main.c, requests.c): a header written into a structure and inlined
    before the segments, against one packet copied together in a buffer. */
module Frames {
  import opened Bits
  import opened Memory
  import opened WorkRequest
  import opened Completion
  import opened TxRing

  const ETHTYPE_IP: u16 := 0x0800
  const VERSION_IHL: byte := 0x45
  const IPPROTO_UDP: byte := 17
  const IP_UDP_LEN: nat := 28
  const UDP_LEN: nat := 8
  const REQUEST_MIN: nat := 46     // headers and packet id of a request
  const SEGMENTS_AT: nat := 50     // the segment list: behind headers, id and padding

  /** What the server has of a request: the bytes of the receive buffer from the packet on, and what
      it puts into the checksum field of the answer. */
  datatype Request = Request(pkt: seq<byte>, checksum: seq<byte>)

  /** read_u64(payload, seg + SEGLIST_OFFSET) for each segment. */
  function SegmentIds(pkt: seq<byte>, n: nat): (s: seq<nat>)
    requires |pkt| >= SEGMENTS_AT + 8 * n
    ensures |s| == n
  {
    seq(n, k requires 0 <= k < n => Le64(pkt[SEGMENTS_AT + 8 * k..SEGMENTS_AT + 8 * k + 8]))
  }

  /** A list of numbers as a little-endian client writes it. */
  function ListBytes(ids: seq<u64>): (b: seq<byte>)
    ensures |b| == 8 * |ids|
  {
    if ids == [] then [] else Le64Bytes(ids[0]) + ListBytes(ids[1..])
  }

  lemma {:induction false} ListAt(ids: seq<u64>, k: nat)
    requires k < |ids|
    ensures ListBytes(ids)[8 * k..8 * k + 8] == Le64Bytes(ids[k])
    decreases k
  {
    hide Le64Bytes;
    if k > 0 {
      ListAt(ids[1..], k - 1);
      assert ListBytes(ids)[8 * k..8 * k + 8] == ListBytes(ids[1..])[8 * (k - 1)..8 * (k - 1) + 8];
    }
  }

  /** The list written behind the headers, the id and its padding is read as it was written, in order. */
  lemma SegmentsRead(front: seq<byte>, ids: seq<u64>, rest: seq<byte>)
    requires |front| == 50
    ensures |front + ListBytes(ids) + rest| >= SEGMENTS_AT + 8 * |ids|
    ensures SegmentIds(front + ListBytes(ids) + rest, |ids|) == ids
  {
    hide Le64Bytes, Le64, ListBytes;
    var pkt := front + ListBytes(ids) + rest;
    forall k | 0 <= k < |ids| ensures SegmentIds(pkt, |ids|)[k] == ids[k] {
      assert pkt[SEGMENTS_AT + 8 * k..SEGMENTS_AT + 8 * k + 8] == ListBytes(ids)[8 * k..8 * k + 8];
      ListAt(ids, k);
      Le64RoundTrip(ids[k]);
    }
  }

  /** htons of a size that is first cut to 16 bits. */
  function Htons(x: nat): (s: seq<byte>)
    ensures |s| == 2
  {
    Be16(x % W16)
  }

  // ----- the answer's header, field by field -----------------------------------------------

  /** Ethernet: the sender of the request receives the answer. */
  function ReverseEth(pkt: seq<byte>): (s: seq<byte>)
    requires |pkt| >= REQUEST_MIN
    ensures |s| == 14
  {
    pkt[6..12] + pkt[0..6] + Be16(ETHTYPE_IP)
  }

  function ReverseIp(pkt: seq<byte>, payload: nat): (s: seq<byte>)
    requires |pkt| >= REQUEST_MIN
    ensures |s| == 20
  {
    [VERSION_IHL, 0] + Htons(IP_UDP_LEN + payload) + Htons(1) + [0, 0, 64, IPPROTO_UDP, 0, 0] + pkt[30..34] + pkt[26..30]
  }

  /** Ports and length; the checksum field is not written. */
  function ReverseUdp(pkt: seq<byte>, payload: nat): (s: seq<byte>)
    requires |pkt| >= REQUEST_MIN
    ensures |s| == 6
  {
    pkt[36..38] + pkt[34..36] + Htons(UDP_LEN + payload)
  }

  /** The packet id of the request, and zero padding. */
  function EchoId(pkt: seq<byte>): (s: seq<byte>)
    requires |pkt| >= REQUEST_MIN
    ensures |s| == 8
  {
    pkt[42..46] + [0, 0, 0, 0]
  }

  /** The header structure after initialize_reverse_request_header: what is not written keeps its
      old value. */
  function Reversed(h: RequestHeader, pkt: seq<byte>, payload: nat): (r: RequestHeader)
    requires h.Valid() && |pkt| >= REQUEST_MIN
    ensures r.Valid()
  {
    RequestHeader(ReverseEth(pkt), ReverseIp(pkt, payload), ReverseUdp(pkt, payload) + h.udp[6..], EchoId(pkt), h.checksum)
  }

  /** The header of the answer to `r`. The UDP checksum stays zero, as in the static array of headers. */
  function AnswerHeader(r: Request, payload: nat): (h: RequestHeader)
    requires |r.pkt| >= REQUEST_MIN && |r.checksum| == 8
    ensures h.Valid()
  {
    RequestHeader(ReverseEth(r.pkt), ReverseIp(r.pkt, payload), ReverseUdp(r.pkt, payload) + [0, 0], EchoId(r.pkt), r.checksum)
  }

  /** struct RequestHeader */
  class HeaderSlot {
    var eth: seq<byte>
    var ipv4: seq<byte>
    var udp: seq<byte>
    var packetId: seq<byte>
    var checksum: seq<byte>

    ghost function View(): RequestHeader
      reads this
    {
      RequestHeader(eth, ipv4, udp, packetId, checksum)
    }

    constructor (h: RequestHeader)
      ensures View() == h
    {
      eth, ipv4, udp, packetId, checksum := h.eth, h.ipv4, h.udp, h.packetId, h.checksum;
    }

    /** initialize_reverse_request_header, called by parse_outgoing_request_header. */
    method InitializeReverse(pkt: seq<byte>, payloadSize: nat)
      requires View().Valid() && |pkt| >= REQUEST_MIN
      modifies this
      ensures View() == Reversed(old(View()), pkt, payloadSize)
    {
      hide Store, ReverseEth, ReverseIp, ReverseUdp, Htons, Be16;
      EthStores(eth, pkt);
      eth := Store(eth, 6, pkt[0..6]);
      eth := Store(eth, 0, pkt[6..12]);
      eth := Store(eth, 12, Be16(ETHTYPE_IP));
      IpStores(ipv4, pkt, payloadSize);
      ipv4 := Store(ipv4, 0, [VERSION_IHL, 0]);
      ipv4 := Store(ipv4, 2, Htons(IP_UDP_LEN + payloadSize));
      ipv4 := Store(ipv4, 4, Htons(1));
      ipv4 := Store(ipv4, 6, [0, 0]);
      ipv4 := Store(ipv4, 8, [64, IPPROTO_UDP]);
      ipv4 := Store(ipv4, 10, [0, 0]);
      ipv4 := Store(ipv4, 12, pkt[30..34]);
      ipv4 := Store(ipv4, 16, pkt[26..30]);
      UdpStores(udp, pkt, payloadSize);
      udp := Store(udp, 0, pkt[36..38]);
      udp := Store(udp, 2, pkt[34..36]);
      udp := Store(udp, 4, Htons(UDP_LEN + payloadSize));
      packetId := pkt[42..46] + [0, 0, 0, 0];
    }
  }

  lemma EthStores(f: seq<byte>, pkt: seq<byte>)
    requires |f| == 14 && |pkt| >= REQUEST_MIN
    ensures Store(Store(Store(f, 6, pkt[0..6]), 0, pkt[6..12]), 12, Be16(ETHTYPE_IP)) == ReverseEth(pkt)
  {
  }

  lemma IpStores(f: seq<byte>, pkt: seq<byte>, payload: nat)
    requires |f| == 20 && |pkt| >= REQUEST_MIN
    ensures
      var f1 := Store(Store(Store(f, 0, [VERSION_IHL, 0]), 2, Htons(IP_UDP_LEN + payload)), 4, Htons(1));
      var f2 := Store(Store(Store(f1, 6, [0, 0]), 8, [64, IPPROTO_UDP]), 10, [0, 0]);
      Store(Store(f2, 12, pkt[30..34]), 16, pkt[26..30]) == ReverseIp(pkt, payload)
  {
    hide Store, Htons, Be16;
    var l, i := Htons(IP_UDP_LEN + payload), Htons(1);
    assert [] + f[0..] == f && [] + [VERSION_IHL, 0] == [VERSION_IHL, 0];
    StoreNext([], f, [VERSION_IHL, 0]);
    StoreNext([VERSION_IHL, 0], f, l);
    StoreNext([VERSION_IHL, 0] + l, f, i);
    StoreNext([VERSION_IHL, 0] + l + i, f, [0, 0]);
    StoreNext([VERSION_IHL, 0] + l + i + [0, 0], f, [64, IPPROTO_UDP]);
    StoreNext([VERSION_IHL, 0] + l + i + [0, 0] + [64, IPPROTO_UDP], f, [0, 0]);
    var front := [VERSION_IHL, 0] + l + i + [0, 0] + [64, IPPROTO_UDP] + [0, 0];
    StoreNext(front, f, pkt[30..34]);
    StoreNext(front + pkt[30..34], f, pkt[26..30]);
    assert front + pkt[30..34] + pkt[26..30] + f[20..] == ReverseIp(pkt, payload);
  }

  /** Fields assigned from front to back. */
  lemma StoreNext(done: seq<byte>, f: seq<byte>, v: seq<byte>)
    requires |done| + |v| <= |f|
    ensures Store(done + f[|done|..], |done|, v) == done + v + f[|done + v|..]
  {
    var g := done + f[|done|..];
    assert g[..|done|] == done && g[|done| + |v|..] == f[|done + v|..];
  }

  lemma UdpStores(f: seq<byte>, pkt: seq<byte>, payload: nat)
    requires |f| == 8 && |pkt| >= REQUEST_MIN
    ensures Store(Store(Store(f, 0, pkt[36..38]), 2, pkt[34..36]), 4, Htons(UDP_LEN + payload)) == ReverseUdp(pkt, payload) + f[6..]
  {
    hide Store, Htons;
    assert [] + f[0..] == f;
    StoreNext([], f, pkt[36..38]);
    StoreNext([] + pkt[36..38], f, pkt[34..36]);
    StoreNext([] + pkt[36..38] + pkt[34..36], f, Htons(UDP_LEN + payload));
  }

  /** A field of a structure is assigned. */
  function Store(s: seq<byte>, at: nat, v: seq<byte>): (r: seq<byte>)
    requires at + |v| <= |s|
    ensures |r| == |s|
  {
    s[..at] + v + s[at + |v|..]
  }

  // ----- the copied packet -----------------------------------------------------------------

  /** The segments asked for, one after the other. */
  function Data(region: seq<byte>, segments: seq<nat>, total: nat, size: nat): (d: seq<byte>)
    requires total > 0 && |region| == total * size
    ensures |d| == |segments| * size
  {
    if segments == [] then []
    else
      var last := segments[|segments| - 1] % total;
      SegmentInside(last, total, size);
      assert |segments| * size == (|segments| - 1) * size + size;
      Data(region, segments[..|segments| - 1], total, size) + region[last * size..last * size + size]
  }

  lemma SegmentInside(i: nat, total: nat, size: nat)
    requires i < total
    ensures 0 <= i * size && i * size + size <= total * size
  {
    assert (total - i - 1) * size >= 0;
    assert total * size == i * size + size + (total - i - 1) * size;
  }

  /** The buffer after the copying path: header and data; two fields keep what was there. */
  function Copied(buf: seq<byte>, pkt: seq<byte>, payload: nat, data: seq<byte>): (r: seq<byte>)
    requires |pkt| >= REQUEST_MIN && |buf| >= HEADER_LEN + |data|
    ensures |r| == |buf|
  {
    CopiedHeader(buf, pkt, payload) + data + buf[HEADER_LEN + |data|..]
  }

  function CopiedHeader(buf: seq<byte>, pkt: seq<byte>, payload: nat): (r: seq<byte>)
    requires |pkt| >= REQUEST_MIN && |buf| >= HEADER_LEN
    ensures |r| == HEADER_LEN
  {
    ReverseEth(pkt) + ReverseIp(pkt, payload) + ReverseUdp(pkt, payload) + buf[40..42] + EchoId(pkt) + buf[50..58]
  }

  /** parse_outgoing_request_header_into_mbuf */
  method WriteHeader(buf: array<byte>, pkt: seq<byte>, payloadSize: nat)
    requires |pkt| >= REQUEST_MIN && buf.Length >= HEADER_LEN
    modifies buf
    ensures buf[..] == Copied(old(buf[..]), pkt, payloadSize, [])
  {
    hide Put, Be16, Htons;
    ghost var b0 := buf[..];
    Memcpy(buf, 42, pkt[42..46]);
    Memcpy(buf, 46, [0, 0, 0, 0]);
    Memcpy(buf, 6, pkt[0..6]);
    Memcpy(buf, 0, pkt[6..12]);
    Memcpy(buf, 12, Be16(ETHTYPE_IP));
    Memcpy(buf, 14, [VERSION_IHL, 0]);
    Memcpy(buf, 16, Htons(IP_UDP_LEN + payloadSize));
    Memcpy(buf, 18, Htons(1));
    Memcpy(buf, 20, [0, 0]);
    Memcpy(buf, 22, [64, IPPROTO_UDP]);
    Memcpy(buf, 24, [0, 0]);
    Memcpy(buf, 30, pkt[26..30]);
    Memcpy(buf, 26, pkt[30..34]);
    Memcpy(buf, 34, pkt[36..38]);
    Memcpy(buf, 36, pkt[34..36]);
    Memcpy(buf, 38, Htons(UDP_LEN + payloadSize));
    HeaderWrites(b0, pkt, payloadSize);
  }

  /** The stores of WriteHeader, in its order. */
  function Writes(b: seq<byte>, pkt: seq<byte>, payload: nat): seq<byte>
    requires |pkt| >= REQUEST_MIN
  {
    var b1 := Put(Put(b, 42, pkt[42..46]), 46, [0, 0, 0, 0]);
    var b2 := Put(Put(Put(b1, 6, pkt[0..6]), 0, pkt[6..12]), 12, Be16(ETHTYPE_IP));
    var b3 := Put(Put(Put(b2, 14, [VERSION_IHL, 0]), 16, Htons(IP_UDP_LEN + payload)), 18, Htons(1));
    var b4 := Put(Put(Put(b3, 20, [0, 0]), 22, [64, IPPROTO_UDP]), 24, [0, 0]);
    var b5 := Put(Put(b4, 30, pkt[26..30]), 26, pkt[30..34]);
    Put(Put(Put(b5, 34, pkt[36..38]), 36, pkt[34..36]), 38, Htons(UDP_LEN + payload))
  }

  /** Two writes to different places can be swapped. */
  lemma PutSwap(m: seq<byte>, p: nat, d: seq<byte>, q: nat, e: seq<byte>)
    requires p + |d| <= q || q + |e| <= p
    ensures Put(Put(m, p, d), q, e) == Put(Put(m, q, e), p, d)
  {
    PutAt(m, p, d);
    PutAt(m, q, e);
    PutAt(Put(m, p, d), q, e);
    PutAt(Put(m, q, e), p, d);
  }

  /** Writing the second of two neighbours first. */
  lemma PutBehind(m: seq<byte>, p: nat, d: seq<byte>, e: seq<byte>)
    ensures Put(Put(m, p + |d|, e), p, d) == Put(m, p, d + e)
  {
    PutSwap(m, p, d, p + |d|, e);
    PutPut(m, p, d, e);
  }

  lemma PutInside(m: seq<byte>, d: seq<byte>)
    requires |d| <= |m|
    ensures Put(m, 0, d) == d + m[|d|..]
  {
    PutAt(m, 0, d);
  }

  lemma EthWrites(b: seq<byte>, pkt: seq<byte>)
    requires |pkt| >= REQUEST_MIN
    ensures Put(Put(Put(b, 6, pkt[0..6]), 0, pkt[6..12]), 12, Be16(ETHTYPE_IP)) == Put(b, 0, ReverseEth(pkt))
  {
    hide Put, Be16;
    PutBehind(b, 0, pkt[6..12], pkt[0..6]);
    PutPut(b, 0, pkt[6..12] + pkt[0..6], Be16(ETHTYPE_IP));
  }

  lemma IpWrites(b: seq<byte>, pkt: seq<byte>, payload: nat)
    requires |pkt| >= REQUEST_MIN
    ensures
      var b1 := Put(Put(Put(b, 14, [VERSION_IHL, 0]), 16, Htons(IP_UDP_LEN + payload)), 18, Htons(1));
      var b2 := Put(Put(Put(b1, 20, [0, 0]), 22, [64, IPPROTO_UDP]), 24, [0, 0]);
      Put(Put(b2, 30, pkt[26..30]), 26, pkt[30..34]) == Put(b, 14, ReverseIp(pkt, payload))
  {
    hide Put, Be16, Htons;
    var l, i := Htons(IP_UDP_LEN + payload), Htons(1);
    PutPut(b, 14, [VERSION_IHL, 0], l);
    PutPut(b, 14, [VERSION_IHL, 0] + l, i);
    PutPut(b, 14, [VERSION_IHL, 0] + l + i, [0, 0]);
    PutPut(b, 14, [VERSION_IHL, 0] + l + i + [0, 0], [64, IPPROTO_UDP]);
    PutPut(b, 14, [VERSION_IHL, 0] + l + i + [0, 0] + [64, IPPROTO_UDP], [0, 0]);
    var front := [VERSION_IHL, 0] + l + i + [0, 0] + [64, IPPROTO_UDP] + [0, 0];
    PutBehind(Put(b, 14, front), 26, pkt[30..34], pkt[26..30]);
    PutPut(b, 14, front, pkt[30..34] + pkt[26..30]);
    assert front + (pkt[30..34] + pkt[26..30]) == ReverseIp(pkt, payload);
  }

  lemma UdpWrites(b: seq<byte>, pkt: seq<byte>, payload: nat)
    requires |pkt| >= REQUEST_MIN
    ensures Put(Put(Put(b, 34, pkt[36..38]), 36, pkt[34..36]), 38, Htons(UDP_LEN + payload)) == Put(b, 34, ReverseUdp(pkt, payload))
  {
    hide Put, Be16, Htons;
    PutPut(b, 34, pkt[36..38], pkt[34..36]);
    PutPut(b, 34, pkt[36..38] + pkt[34..36], Htons(UDP_LEN + payload));
  }

  lemma HeaderWrites(b: seq<byte>, pkt: seq<byte>, payload: nat)
    requires |pkt| >= REQUEST_MIN && |b| >= HEADER_LEN
    ensures Writes(b, pkt, payload) == Copied(b, pkt, payload, [])
  {
    hide Put, ReverseEth, ReverseIp, ReverseUdp, Be16, Htons;
    var e, i, u := ReverseEth(pkt), ReverseIp(pkt, payload), ReverseUdp(pkt, payload);
    PutPut(b, 42, pkt[42..46], [0, 0, 0, 0]);
    var b1 := Put(b, 42, EchoId(pkt));
    EthWrites(b1, pkt);
    IpWrites(Put(b1, 0, e), pkt, payload);
    UdpWrites(Put(Put(b1, 0, e), 14, i), pkt, payload);
    PutPut(b1, 0, e, i);
    PutPut(b1, 0, e + i, u);
    PutAt(b, 42, EchoId(pkt));
    PutInside(b1, e + i + u);
    assert b1[40..] == b[40..42] + EchoId(pkt) + b[50..58] + b[58..];
  }

  /** mbuf_copy of each segment behind the header. */
  method CopySegments(buf: array<byte>, region: seq<byte>, segments: seq<nat>, total: nat, size: nat, ghost pkt: seq<byte>, ghost payload: nat)
    requires total > 0 && |region| == total * size
    requires |pkt| >= REQUEST_MIN && buf.Length >= HEADER_LEN + |segments| * size
    requires buf[..] == Copied(buf[..], pkt, payload, [])
    modifies buf
    ensures buf[..] == Copied(old(buf[..]), pkt, payload, Data(region, segments, total, size))
  {
    hide Put, ReverseEth, ReverseIp, ReverseUdp, Copied, Data;
    ghost var b0 := buf[..];
    DataNone(region, total, size);
    for seg := 0 to |segments|
      invariant buf[..] == Copied(b0, pkt, payload, Data(region, segments[..seg], total, size))
      invariant seg * size <= |segments| * size
    {
      var physicalSeg := segments[seg] % total;
      SegmentInside(physicalSeg, total, size);
      SegmentInside(seg, |segments|, size);
      DataNext(region, segments, seg, total, size);
      CopyNext(b0, pkt, payload, Data(region, segments[..seg], total, size), region[physicalSeg * size..physicalSeg * size + size]);
      Memcpy(buf, HEADER_LEN + seg * size, region[physicalSeg * size..physicalSeg * size + size]);
    }
    assert segments[..|segments|] == segments;
  }

  lemma DataNone(region: seq<byte>, total: nat, size: nat)
    requires total > 0 && |region| == total * size
    ensures Data(region, [], total, size) == []
  {
  }

  lemma DataNext(region: seq<byte>, segments: seq<nat>, k: nat, total: nat, size: nat)
    requires total > 0 && |region| == total * size && k < |segments|
    ensures var i := segments[k] % total;
      && 0 <= i * size && i * size + size <= |region|
      && Data(region, segments[..k + 1], total, size) == Data(region, segments[..k], total, size) + region[i * size..i * size + size]
  {
    assert segments[..k + 1][..k] == segments[..k];
    SegmentInside(segments[k] % total, total, size);
  }

  /** Appending a segment to the packet in the buffer. */
  lemma CopyNext(b: seq<byte>, pkt: seq<byte>, payload: nat, data: seq<byte>, d: seq<byte>)
    requires |pkt| >= REQUEST_MIN && |b| >= HEADER_LEN + |data| + |d|
    ensures Put(Copied(b, pkt, payload, data), HEADER_LEN + |data|, d) == Copied(b, pkt, payload, data + d)
  {
    hide Put, CopiedHeader, Copied;
    var n := HEADER_LEN + |data|;
    CopiedPieces(b, pkt, payload, data, |d|);
    PutMiddle(Copied(b, pkt, payload, data), n, d, CopiedHeader(b, pkt, payload) + data, b[n + |d|..]);
    CopiedGrown(b, pkt, payload, data, d);
  }

  lemma CopiedPieces(b: seq<byte>, pkt: seq<byte>, payload: nat, data: seq<byte>, k: nat)
    requires |pkt| >= REQUEST_MIN && |b| >= HEADER_LEN + |data| + k
    ensures Copied(b, pkt, payload, data)[..HEADER_LEN + |data|] == CopiedHeader(b, pkt, payload) + data
    ensures Copied(b, pkt, payload, data)[HEADER_LEN + |data| + k..] == b[HEADER_LEN + |data| + k..]
  {
    hide CopiedHeader;
  }

  lemma CopiedGrown(b: seq<byte>, pkt: seq<byte>, payload: nat, data: seq<byte>, d: seq<byte>)
    requires |pkt| >= REQUEST_MIN && |b| >= HEADER_LEN + |data| + |d|
    ensures CopiedHeader(b, pkt, payload) + data + d + b[HEADER_LEN + |data| + |d|..] == Copied(b, pkt, payload, data + d)
  {
    hide CopiedHeader;
    assert CopiedHeader(b, pkt, payload) + data + d == CopiedHeader(b, pkt, payload) + (data + d);
  }

  lemma PutMiddle(m: seq<byte>, p: nat, d: seq<byte>, x: seq<byte>, w: seq<byte>)
    requires p + |d| <= |m| && m[..p] == x && m[p + |d|..] == w
    ensures Put(m, p, d) == x + d + w
  {
    PutAt(m, p, d);
  }

  /** The copying path of process_server_requests: header, then every segment. `buf` is memory from the
      start of the transmit buffer on. */
  method CopyPacket(buf: array<byte>, pkt: seq<byte>, region: seq<byte>, segments: seq<nat>, total: nat, size: nat)
    requires total > 0 && |region| == total * size
    requires |pkt| >= REQUEST_MIN && buf.Length >= HEADER_LEN + |segments| * size
    modifies buf
    ensures buf[..] == Copied(old(buf[..]), pkt, |segments| * size + 16, Data(region, segments, total, size))
  {
    hide ReverseEth, ReverseIp, ReverseUdp, Data, Copied;
    ghost var b0 := buf[..];
    HeaderRoom(|segments|, size, buf.Length);
    WriteHeader(buf, pkt, |segments| * size + 16);
    CopiedTwice(b0, pkt, |segments| * size + 16, []);
    CopySegments(buf, region, segments, total, size, pkt, |segments| * size + 16);
    CopiedTwice(b0, pkt, |segments| * size + 16, Data(region, segments, total, size));
  }

  lemma HeaderRoom(n: nat, size: nat, room: nat)
    requires room >= HEADER_LEN + n * size
    ensures n * size >= 0 && room >= HEADER_LEN
  {
  }

  lemma CopiedTwice(b: seq<byte>, pkt: seq<byte>, payload: nat, data: seq<byte>)
    requires |pkt| >= REQUEST_MIN && |b| >= HEADER_LEN + |data|
    ensures Copied(Copied(b, pkt, payload, []), pkt, payload, data) == Copied(b, pkt, payload, data)
  {
    hide ReverseEth, ReverseIp, ReverseUdp, EchoId;
    var c := Copied(b, pkt, payload, []);
    assert c[40..42] == b[40..42] && c[50..58] == b[50..58] && c[HEADER_LEN + |data|..] == b[HEADER_LEN + |data|..];
  }

  // ----- the frames on the wire ------------------------------------------------------------

  /** Host memory as the device reads it. */
  type HostMemory = nat -> byte

  /** The data segments gathered by the device. */
  function Gathered(memory: HostMemory, segs: seq<Seg>): (d: seq<byte>)
  {
    if segs == [] then []
    else
      var s := segs[|segs| - 1];
      Gathered(memory, segs[..|segs| - 1]) + ReadAt(memory, s.addr, s.byteCount)
  }

  /** The frame of a descriptor: the inlined bytes, then the gathered ones. */
  function Frame(memory: HostMemory, w: Wqe): seq<byte> { w.inlined + Gathered(memory, w.segs) }

  /** The UDP checksum and the 8-byte checksum field. */
  predicate Unwritten(i: nat) { 40 <= i < 42 || 50 <= i < 58 }

  /** Both paths produce the same bytes, and exactly the two unwritten fields can differ: the whole
      frames are equal if and only if the stale bytes are. */
  lemma SameBytes(h: RequestHeader, buf: seq<byte>, pkt: seq<byte>, payload: nat, data: seq<byte>)
    requires h.Valid() && |pkt| >= REQUEST_MIN && |buf| >= HEADER_LEN + |data|
    ensures var (z, c) := (Reversed(h, pkt, payload).Bytes() + data, Copied(buf, pkt, payload, data)[..HEADER_LEN + |data|]);
      && |z| == |c| == HEADER_LEN + |data|
      && (forall i :: 0 <= i < |z| && !Unwritten(i) ==> z[i] == c[i])
      && (z == c <==> h.udp[6..] == buf[40..42] && h.checksum == buf[50..58])
  {
    hide ReverseEth, ReverseIp, ReverseUdp, EchoId;
    var e, i, u, id := ReverseEth(pkt), ReverseIp(pkt, payload), ReverseUdp(pkt, payload), EchoId(pkt);
    var z, c := Reversed(h, pkt, payload).Bytes() + data, Copied(buf, pkt, payload, data)[..HEADER_LEN + |data|];
    var head := e + i + u;
    assert z == head + h.udp[6..] + id + h.checksum + data;
    assert c == head + buf[40..42] + id + buf[50..58] + data;
    assert z[40..42] == h.udp[6..] && z[50..58] == h.checksum;
    assert c[40..42] == buf[40..42] && c[50..58] == buf[50..58];
  }

  /** What the answer's header says: it goes back where the request came from, and its length
      fields describe the frame when they fit in 16 bits. */
  lemma AnswerAddressed(h: RequestHeader, pkt: seq<byte>, payload: nat)
    requires h.Valid() && |pkt| >= REQUEST_MIN && IP_UDP_LEN + payload < W16
    ensures var b := Reversed(h, pkt, payload).Bytes();
      && b[0..6] == pkt[6..12] && b[6..12] == pkt[0..6]
      && b[26..30] == pkt[30..34] && b[30..34] == pkt[26..30]
      && b[34..36] == pkt[36..38] && b[36..38] == pkt[34..36]
      && b[16..18] == Be16(IP_UDP_LEN + payload) && b[38..40] == Be16(UDP_LEN + payload)
      && b[42..46] == pkt[42..46]
  {
    hide ReverseEth, ReverseIp, ReverseUdp, EchoId, Reversed, Be16, RequestHeader.Bytes;
    ReversedParts(h, pkt, payload);
    var b := Reversed(h, pkt, payload).Bytes();
    ReversedEthFields(b, pkt);
    ReversedIpFields(b, pkt, payload);
    ReversedUdpFields(b, pkt, payload, h.udp[6..]);
    SliceOfSlice(b, 42, 50, 0, 4);
    EchoIdFields(pkt);
  }

  lemma ReversedParts(h: RequestHeader, pkt: seq<byte>, payload: nat)
    requires h.Valid() && |pkt| >= REQUEST_MIN
    ensures var b := Reversed(h, pkt, payload).Bytes();
      && |b| == HEADER_LEN && b[0..14] == ReverseEth(pkt) && b[14..34] == ReverseIp(pkt, payload)
      && b[34..42] == ReverseUdp(pkt, payload) + h.udp[6..] && b[42..50] == EchoId(pkt)
  {
    hide ReverseEth, ReverseIp, ReverseUdp, EchoId;
    HeaderParts(Reversed(h, pkt, payload));
  }

  lemma EchoIdFields(pkt: seq<byte>)
    requires |pkt| >= REQUEST_MIN
    ensures EchoId(pkt)[0..4] == pkt[42..46]
  {
  }

  lemma HeaderParts(r: RequestHeader)
    requires r.Valid()
    ensures var b := r.Bytes(); b[0..14] == r.eth && b[14..34] == r.ipv4 && b[34..42] == r.udp && b[42..50] == r.packetId
  {
  }

  lemma ReversedEthFields(b: seq<byte>, pkt: seq<byte>)
    requires |b| == HEADER_LEN && |pkt| >= REQUEST_MIN && b[0..14] == ReverseEth(pkt)
    ensures b[0..6] == pkt[6..12] && b[6..12] == pkt[0..6]
  {
    SliceOfSlice(b, 0, 14, 0, 6);
    SliceOfSlice(b, 0, 14, 6, 12);
  }

  lemma ReversedIpFields(b: seq<byte>, pkt: seq<byte>, payload: nat)
    requires |b| == HEADER_LEN && |pkt| >= REQUEST_MIN && b[14..34] == ReverseIp(pkt, payload)
    ensures b[26..30] == pkt[30..34] && b[30..34] == pkt[26..30] && b[16..18] == Htons(IP_UDP_LEN + payload)
  {
    hide Htons;
    SliceOfSlice(b, 14, 34, 12, 16);
    SliceOfSlice(b, 14, 34, 16, 20);
    SliceOfSlice(b, 14, 34, 2, 4);
  }

  lemma ReversedUdpFields(b: seq<byte>, pkt: seq<byte>, payload: nat, chksum: seq<byte>)
    requires |b| == HEADER_LEN && |pkt| >= REQUEST_MIN && b[34..42] == ReverseUdp(pkt, payload) + chksum
    ensures b[34..36] == pkt[36..38] && b[36..38] == pkt[34..36] && b[38..40] == Htons(UDP_LEN + payload)
  {
    hide Htons;
    SliceOfSlice(b, 34, 42, 0, 2);
    SliceOfSlice(b, 34, 42, 2, 4);
    SliceOfSlice(b, 34, 42, 4, 6);
    UdpPieces(pkt, payload, chksum);
  }

  lemma UdpPieces(pkt: seq<byte>, payload: nat, chksum: seq<byte>)
    requires |pkt| >= REQUEST_MIN
    ensures var u := ReverseUdp(pkt, payload) + chksum;
            u[0..2] == pkt[36..38] && u[2..4] == pkt[34..36] && u[4..6] == Htons(UDP_LEN + payload)
  {
    hide Htons;
  }

  /** The addresses of a zero-copy answer. */
  function SegmentList(region: nat, segments: seq<nat>, total: nat, size: u32, lkey: u32): (s: seq<Seg>)
    requires total > 0
    ensures |s| == |segments|
  {
    seq(|segments|, k requires 0 <= k < |segments| => Seg(size, lkey, (region + (segments[k] % total) * size) % W64))
  }

  /** The bytes at an address. */
  ghost predicate Holds(memory: HostMemory, addr: nat, b: seq<byte>) {
    forall i :: 0 <= i < |b| ==> b[i] == memory(addr + i)
  }

  /** The device gathers exactly the segments asked for. */
  lemma {:induction false} GatheredIsData(memory: HostMemory, region: nat, bytes: seq<byte>, segments: seq<nat>, total: nat, size: u32, lkey: u32)
    requires total > 0 && |bytes| == total * size && region + total * size <= W64 && Holds(memory, region, bytes)
    ensures Gathered(memory, SegmentList(region, segments, total, size, lkey)) == Data(bytes, segments, total, size)
    decreases |segments|
  {
    hide Holds, ReadAt, SegmentList;
    if segments == [] {
      NoList(region, total, size, lkey);
    } else {
      var n := |segments| - 1;
      ListNext(region, segments, total, size, lkey);
      GatheredIsData(memory, region, bytes, segments[..n], total, size, lkey);
      LastSegment(memory, region, bytes, segments[n] % total, total, size);
    }
  }

  lemma NoList(region: nat, total: nat, size: u32, lkey: u32)
    requires total > 0
    ensures SegmentList(region, [], total, size, lkey) == []
  {
  }

  lemma ListNext(region: nat, segments: seq<nat>, total: nat, size: u32, lkey: u32)
    requires total > 0 && segments != []
    ensures var n, list := |segments| - 1, SegmentList(region, segments, total, size, lkey);
      && list[n] == Seg(size, lkey, (region + (segments[n] % total) * size) % W64)
      && list[..n] == SegmentList(region, segments[..n], total, size, lkey)
  {
  }

  /** What the device reads at an address. */
  function ReadAt(memory: HostMemory, addr: nat, n: nat): (d: seq<byte>)
    ensures |d| == n
  {
    seq(n, i requires 0 <= i < n => memory(addr + i))
  }

  lemma LastSegment(memory: HostMemory, region: nat, bytes: seq<byte>, i: nat, total: nat, size: u32)
    requires i < total && |bytes| == total * size && region + total * size <= W64 && Holds(memory, region, bytes)
    ensures 0 <= i * size && i * size + size <= |bytes|
    ensures ReadAt(memory, (region + i * size) % W64, size) == bytes[i * size..i * size + size]
  {
    SegmentInside(i, total, size);
    if size > 0 { SmallMod(region + i * size, W64); }
    var r, b := ReadAt(memory, (region + i * size) % W64, size), bytes[i * size..i * size + size];
    forall j | 0 <= j < size ensures r[j] == b[j] {
      assert bytes[i * size + j] == memory(region + (i * size + j));
    }
  }

  /** The frame of a zero-copy descriptor: header and gathered segments, unless it starts in the
      last block of the ring. */
  lemma ZeroCopyFrame(c: Config, s: Tx, p: nat, h: RequestHeader, segs: seq<Seg>, memory: HostMemory)
    requires Inv(c, s) && p < |s.wire| && s.log[p].inl == Header(h) && s.log[p].segs == segs
    requires TxRing.At(s.log, p) % c.WqeCnt() + 1 != c.WqeCnt()
    ensures Frame(memory, s.wire[p]) == h.Bytes() + Gathered(memory, segs)
  {
    hide Posted, Ring, TxRing.At, Pow2, Blocks, HdrSegs;
    assert Carries(s.wire[p], s.log[p], TxRing.At(s.log, p), c.WqeCnt());
  }

  /** The frame of a copied packet is the packet. */
  lemma CopiedFrame(c: Config, s: Tx, p: nat, seg: Seg, packet: seq<byte>, memory: HostMemory)
    requires Inv(c, s) && p < |s.wire| && s.log[p].inl == NoHeader && s.log[p].segs == [seg]
    requires seg.byteCount == |packet| && Holds(memory, seg.addr, packet)
    ensures Frame(memory, s.wire[p]) == packet
  {
    hide Posted, Ring, TxRing.At, Pow2, Blocks, HdrSegs;
    assert Carries(s.wire[p], s.log[p], TxRing.At(s.log, p), c.WqeCnt());
    assert [seg][..0] == [];
    assert Gathered(memory, [seg]) == packet;
  }

  /** The same frame up to the two fields that neither path writes. */
  ghost predicate SameFrame(z: seq<byte>, f: seq<byte>) {
    |z| == |f| && forall i :: 0 <= i < |z| && !Unwritten(i) ==> z[i] == f[i]
  }

  lemma SameFrames(a: seq<byte>, b: seq<byte>, f: seq<byte>)
    requires SameFrame(a, b) && SameFrame(b, f)
    ensures SameFrame(a, f) && SameFrame(b, a)
  {
  }

  /** The server's data: `total` segments of `size` bytes at address `at`. */
  datatype WorkingSet = WorkingSet(bytes: seq<byte>, total: nat, size: u32, at: Ptr, lkey: u32) {
    predicate Valid() { total > 0 && |bytes| == total * size && at + |bytes| <= W64 }
  }

  /** A request for `n` segments that can be read. */
  predicate Readable(r: Request, n: nat) { |r.pkt| >= SEGMENTS_AT + 8 * n && |r.checksum| == 8 }

  /** The answer that request `r` for `n` segments asks for. */
  function Wanted(d: WorkingSet, r: Request, n: nat): (f: seq<byte>)
    requires d.Valid() && Readable(r, n)
    ensures |f| == HEADER_LEN + n * d.size
  {
    AnswerHeader(r, n * d.size + 16).Bytes() + Data(d.bytes, SegmentIds(r.pkt, n), d.total, d.size)
  }

  /** Segment number `k` of the data. */
  lemma {:induction false} DataAt(region: seq<byte>, segments: seq<nat>, total: nat, size: nat, k: nat)
    requires total > 0 && |region| == total * size && k < |segments|
    ensures 0 <= k * size && k * size + size <= |segments| * size
    ensures var i := segments[k] % total;
      && 0 <= i * size && i * size + size <= |region|
      && Data(region, segments, total, size)[k * size..k * size + size] == region[i * size..i * size + size]
    decreases |segments|
  {
    SegmentInside(k, |segments|, size);
    SegmentInside(segments[k] % total, total, size);
    var n := |segments| - 1;
    assert |segments| * size == n * size + size;
    if k < n {
      DataAt(region, segments[..n], total, size, k);
      assert Data(region, segments, total, size)[..n * size] == Data(region, segments[..n], total, size);
      SliceOfPrefix(Data(region, segments, total, size), Data(region, segments[..n], total, size), n * size, k * size, k * size + size);
    }
  }

  /** What the answer to a request says, byte by byte, when the request lists the segments `ids`: the header goes back to the
      sender, and the segments follow in the order of the list. */
  lemma AnswerBytes(d: WorkingSet, r: Request, front: seq<byte>, ids: seq<u64>, rest: seq<byte>)
    requires d.Valid() && |front| == 50 && r.pkt == front + ListBytes(ids) + rest && |r.checksum| == 8
    ensures Readable(r, |ids|)
    ensures AnswerHead(Wanted(d, r, |ids|), front, |ids| * d.size + 16, r.checksum)
    ensures forall k :: 0 <= k < |ids| ==> SegmentFollows(d, Wanted(d, r, |ids|), k, ids[k])
  {
    hide SegmentIds, Data, AnswerHeader, ListBytes, AnswerHead, RequestHeader.Bytes;
    SegmentsRead(front, ids, rest);
    var data := Data(d.bytes, ids, d.total, d.size);
    assert r.pkt[..50] == front;
    AnswerHeadBytes(r, front, |ids| * d.size + 16, data);
    forall k | 0 <= k < |ids| ensures SegmentFollows(d, Wanted(d, r, |ids|), k, ids[k]) {
      DataFollows(d, AnswerHeader(r, |ids| * d.size + 16).Bytes(), ids, k);
    }
  }

  lemma DataFollows(d: WorkingSet, head: seq<byte>, ids: seq<nat>, k: nat)
    requires d.Valid() && |head| == 58 && k < |ids|
    ensures SegmentFollows(d, head + Data(d.bytes, ids, d.total, d.size), k, ids[k])
  {
    hide Data, SegmentFollows;
    var data, i := Data(d.bytes, ids, d.total, d.size), ids[k] % d.total;
    DataAt(d.bytes, ids, d.total, d.size, k);
    Follows(d, head, data, k, i, k * d.size, i * d.size);
    SameModulo(d, head + data, k, ids[k]);
  }

  lemma Follows(d: WorkingSet, head: seq<byte>, data: seq<byte>, k: nat, id: nat, a: nat, b: nat)
    requires d.Valid() && |head| == 58 && id < d.total && a == k * d.size && b == id * d.size
    requires a + d.size <= |data| && b + d.size <= |d.bytes| && data[a..a + d.size] == d.bytes[b..b + d.size]
    ensures SegmentFollows(d, head + data, k, id)
  {
    SmallMod(id, d.total);
    SliceBehind(head, data, a, a + d.size);
  }

  lemma SameModulo(d: WorkingSet, f: seq<byte>, k: nat, id: nat)
    requires d.Valid() && SegmentFollows(d, f, k, id % d.total)
    ensures SegmentFollows(d, f, k, id)
  {
    SmallMod(id % d.total, d.total);
  }

  lemma SliceBehind(a: seq<byte>, b: seq<byte>, i: nat, j: nat)
    requires i <= j <= |b|
    ensures (a + b)[|a| + i..|a| + j] == b[i..j]
  {
  }

  /** Data segment `k` of the frame is segment `id` of the working set. */
  ghost predicate SegmentFollows(d: WorkingSet, f: seq<byte>, k: nat, id: nat)
    requires d.Valid()
  {
    var i := id % d.total;
    SegmentInside(i, d.total, d.size);
    && 0 <= 58 + k * d.size && 58 + k * d.size + d.size <= |f|
    && f[58 + k * d.size..58 + k * d.size + d.size] == d.bytes[i * d.size..i * d.size + d.size]
  }

  /** The first 58 bytes of the answer to a request that starts with `q`, with `payload` bytes behind the UDP header: Ethernet,
      IPv4 and UDP header with both ends exchanged, then id, padding and checksum field. */
  ghost predicate AnswerHead(f: seq<byte>, q: seq<byte>, payload: nat, checksum: seq<byte>)
    requires |f| >= 58 && |q| == 50
  {
    && EthBack(f[0..14], q) && IpBack(f[14..34], q, payload) && UdpBack(f[34..42], q, payload)
    && f[42..46] == q[42..46] && f[46..50] == [0, 0, 0, 0] && f[50..58] == checksum
  }

  /** Destination, source, type. */
  ghost predicate EthBack(e: seq<byte>, q: seq<byte>)
    requires |e| == 14 && |q| == 50
  {
    e[0..6] == q[6..12] && e[6..12] == q[0..6] && UnBe16(e[12..14]) == 0x0800
  }

  /** Version, type of service, length, id, offset, time to live, protocol, checksum, source, destination. */
  ghost predicate IpBack(i: seq<byte>, q: seq<byte>, payload: nat)
    requires |i| == 20 && |q| == 50
  {
    && i[0] == 0x45 && i[1] == 0 && UnBe16(i[2..4]) == (20 + 8 + payload) % W16
    && UnBe16(i[4..6]) == 1 && i[6..8] == [0, 0] && i[8] == 64 && i[9] == 17 && i[10..12] == [0, 0]
    && i[12..16] == q[30..34] && i[16..20] == q[26..30]
  }

  /** Source and destination port, length, checksum. */
  ghost predicate UdpBack(u: seq<byte>, q: seq<byte>, payload: nat)
    requires |u| == 8 && |q| == 50
  {
    u[0..2] == q[36..38] && u[2..4] == q[34..36] && UnBe16(u[4..6]) == (8 + payload) % W16 && u[6..8] == [0, 0]
  }

  lemma AnswerHeadBytes(r: Request, q: seq<byte>, payload: nat, data: seq<byte>)
    requires |q| == 50 <= |r.pkt| && r.pkt[..50] == q && |r.checksum| == 8
    ensures AnswerHead(AnswerHeader(r, payload).Bytes() + data, q, payload, r.checksum)
  {
    hide ReverseEth, ReverseIp, ReverseUdp, EchoId, EthBack, IpBack, UdpBack;
    var e, i, u, id := ReverseEth(r.pkt), ReverseIp(r.pkt, payload), ReverseUdp(r.pkt, payload) + [0, 0], EchoId(r.pkt);
    var f := AnswerHeader(r, payload).Bytes() + data;
    assert f == e + i + u + id + r.checksum + data;
    assert f[0..14] == e && f[14..34] == i && f[34..42] == u && f[42..50] == id && f[50..58] == r.checksum;
    assert f[42..46] == f[42..50][0..4] && f[46..50] == f[42..50][4..8];
    EthIsBack(r.pkt, q);
    IpIsBack(r.pkt, q, payload);
    UdpIsBack(r.pkt, q, payload);
    IdIsBack(r.pkt, q);
  }

  lemma EthIsBack(pkt: seq<byte>, q: seq<byte>)
    requires |q| == 50 <= |pkt| && pkt[..50] == q
    ensures EthBack(ReverseEth(pkt), q)
  {
    hide Be16, UnBe16;
    var e := ReverseEth(pkt);
    Be16RoundTrip(0x0800);
    assert e[12..14] == Be16(0x0800);
    SliceOfPrefix(pkt, q, 50, 6, 12);
    SliceOfPrefix(pkt, q, 50, 0, 6);
  }

  lemma IpIsBack(pkt: seq<byte>, q: seq<byte>, payload: nat)
    requires |q| == 50 <= |pkt| && pkt[..50] == q
    ensures IpBack(ReverseIp(pkt, payload), q, payload)
  {
    hide Be16, UnBe16;
    var i := ReverseIp(pkt, payload);
    Be16RoundTrip(1);
    Be16RoundTrip((20 + 8 + payload) % W16);
    SmallMod(1, W16);
    assert i[2..4] == Be16((20 + 8 + payload) % W16) && i[4..6] == Be16(1);
    SliceOfPrefix(pkt, q, 50, 30, 34);
    SliceOfPrefix(pkt, q, 50, 26, 30);
  }

  lemma UdpIsBack(pkt: seq<byte>, q: seq<byte>, payload: nat)
    requires |q| == 50 <= |pkt| && pkt[..50] == q
    ensures UdpBack(ReverseUdp(pkt, payload) + [0, 0], q, payload)
  {
    hide Be16, UnBe16;
    var u := ReverseUdp(pkt, payload) + [0, 0];
    Be16RoundTrip((8 + payload) % W16);
    assert u[4..6] == Be16((8 + payload) % W16) && u[6..8] == [0, 0];
    SliceOfPrefix(pkt, q, 50, 36, 38);
    SliceOfPrefix(pkt, q, 50, 34, 36);
  }

  lemma IdIsBack(pkt: seq<byte>, q: seq<byte>)
    requires |q| == 50 <= |pkt| && pkt[..50] == q
    ensures EchoId(pkt)[0..4] == q[42..46] && EchoId(pkt)[4..8] == [0, 0, 0, 0]
  {
    SliceOfPrefix(pkt, q, 50, 42, 46);
  }

  /** check_valid_packet at a host with address `mac`. */
  predicate ValidPacket(pkt: seq<byte>, mac: seq<byte>)
    requires |pkt| >= 42
  {
    pkt[0..6] == mac && UnBe16(pkt[12..14]) == ETHTYPE_IP && pkt[23] == IPPROTO_UDP
  }

  /** The host that sent the request accepts the answer, whichever way it was sent. */
  lemma AnswerAccepted(d: WorkingSet, r: Request, n: nat, f: seq<byte>)
    requires d.Valid() && Readable(r, n) && SameFrame(Wanted(d, r, n), f)
    ensures ValidPacket(f, r.pkt[6..12])
  {
    hide Data, SegmentIds, UnBe16;
    var w := Wanted(d, r, n);
    AnswerHeadBytes(r, r.pkt[..50], n * d.size + 16, Data(d.bytes, SegmentIds(r.pkt, n), d.total, d.size));
    assert w[0..6] == w[0..14][0..6] && w[12..14] == w[0..14][12..14] && w[23] == w[14..34][9];
    assert f[0..6] == w[0..6] && f[12..14] == w[12..14] && f[23] == w[23];
    assert r.pkt[..50][6..12] == r.pkt[6..12];
  }

  /** The zero-copy answer as it is posted. */
  function ZeroCopyMsg(d: WorkingSet, r: Request, n: nat, first: Ptr): Msg
    requires d.Valid() && Readable(r, n)
  {
    Msg(first, Header(AnswerHeader(r, n * d.size + 16)), SegmentList(d.at, SegmentIds(r.pkt, n), d.total, d.size, d.lkey))
  }

  /** A zero-copy answer leaves the device as it was asked for, unless its descriptor starts in the
      last block of the ring. */
  lemma ZeroCopyServes(c: Config, s: Tx, p: nat, d: WorkingSet, r: Request, n: nat, memory: HostMemory)
    requires Inv(c, s) && p < |s.wire| && d.Valid() && Readable(r, n) && Holds(memory, d.at, d.bytes)
    requires s.log[p] == ZeroCopyMsg(d, r, n, s.log[p].mbuf)
    requires TxRing.At(s.log, p) % c.WqeCnt() + 1 != c.WqeCnt()
    ensures Frame(memory, s.wire[p]) == Wanted(d, r, n)
  {
    hide Inv, TxRing.At, AnswerHeader, Data, SegmentIds, SegmentList, Holds, Frame;
    var ids := SegmentIds(r.pkt, n);
    ZeroCopyFrame(c, s, p, AnswerHeader(r, n * d.size + 16), SegmentList(d.at, ids, d.total, d.size, d.lkey), memory);
    GatheredIsData(memory, d.at, d.bytes, ids, d.total, d.size, d.lkey);
  }

  lemma SameFrameBytes(h: RequestHeader, buf: seq<byte>, pkt: seq<byte>, payload: nat, data: seq<byte>)
    requires h.Valid() && |pkt| >= REQUEST_MIN && |buf| >= HEADER_LEN + |data|
    ensures SameFrame(Reversed(h, pkt, payload).Bytes() + data, Copied(buf, pkt, payload, data)[..HEADER_LEN + |data|])
  {
    hide Reversed, Copied;
    SameBytes(h, buf, pkt, payload, data);
  }

  /** The packet that the copying path leaves in a buffer is the answer that was asked for, up to the two
      fields it does not write. */
  lemma CopiedWanted(d: WorkingSet, r: Request, n: nat, buf: seq<byte>)
    requires d.Valid() && Readable(r, n) && |buf| >= HEADER_LEN + n * d.size
    ensures var data := Data(d.bytes, SegmentIds(r.pkt, n), d.total, d.size);
      && |data| == n * d.size
      && SameFrame(Wanted(d, r, n), Copied(buf, r.pkt, n * d.size + 16, data)[..HEADER_LEN + n * d.size])
  {
    hide Data, Reversed, Copied, SegmentIds, AnswerHeader, SameFrame, RequestHeader.Bytes;
    var h, data := AnswerHeader(r, n * d.size + 16), Data(d.bytes, SegmentIds(r.pkt, n), d.total, d.size);
    ReversedAgain(r, n * d.size + 16);
    SameFrameBytes(h, buf, r.pkt, n * d.size + 16, data);
  }

  lemma ReversedAgain(r: Request, payload: nat)
    requires |r.pkt| >= REQUEST_MIN && |r.checksum| == 8
    ensures Reversed(AnswerHeader(r, payload), r.pkt, payload) == AnswerHeader(r, payload)
  {
    hide ReverseEth, ReverseIp, ReverseUdp, EchoId;
    var u := ReverseUdp(r.pkt, payload);
    assert (u + [0, 0])[6..] == [0, 0];
  }

  /** Only what neither path writes depends on the checksum. */
  lemma WantedSame(d: WorkingSet, d': WorkingSet, r: Request, r': Request, n: nat)
    requires d.Valid() && d'.Valid() && Readable(r, n) && Readable(r', n)
    requires r.pkt == r'.pkt && d.bytes == d'.bytes && d.total == d'.total && d.size == d'.size
    ensures SameFrame(Wanted(d, r, n), Wanted(d', r', n))
  {
    hide ReverseEth, ReverseIp, ReverseUdp, EchoId, Data, SegmentIds;
    var p := n * d.size + 16;
    var front := ReverseEth(r.pkt) + ReverseIp(r.pkt, p) + (ReverseUdp(r.pkt, p) + [0, 0]) + EchoId(r.pkt);
    var data := Data(d.bytes, SegmentIds(r.pkt, n), d.total, d.size);
    assert Wanted(d, r, n) == front + r.checksum + data;
    assert Wanted(d', r', n) == front + r'.checksum + data;
    assert |front| == 50;
  }

  /** End to end: a zero-copy descriptor sent on one ring and a copied packet sent on another,
      answering requests with the same bytes from the same data, give the same frame, unless the
      zero-copy descriptor starts in the last block. */
  lemma PathsAgree(c: Config, s: Tx, p: nat, d: WorkingSet, r: Request, memory: HostMemory,
                   c2: Config, s2: Tx, q: nat, d2: WorkingSet, r2: Request, memory2: HostMemory, n: nat, packet: seq<byte>)
    requires Inv(c, s) && p < |s.wire| && d.Valid() && Readable(r, n) && Holds(memory, d.at, d.bytes)
    requires s.log[p] == ZeroCopyMsg(d, r, n, s.log[p].mbuf)
    requires TxRing.At(s.log, p) % c.WqeCnt() + 1 != c.WqeCnt()
    requires Inv(c2, s2) && q < |s2.wire| && d2.Valid() && Readable(r2, n) && SameFrame(Wanted(d2, r2, n), packet)
    requires s2.log[q].inl == NoHeader && |s2.log[q].segs| == 1 && s2.log[q].segs[0].byteCount == |packet|
    requires Holds(memory2, s2.log[q].segs[0].addr, packet)
    requires r.pkt == r2.pkt && d.bytes == d2.bytes && d.total == d2.total && d.size == d2.size
    ensures SameFrame(Frame(memory, s.wire[p]), Frame(memory2, s2.wire[q]))
  {
    hide Inv, TxRing.At, Wanted, Holds, Frame, SameFrame, ZeroCopyMsg;
    ZeroCopyServes(c, s, p, d, r, n, memory);
    WireSize(c2, s2);
    assert s2.log[q].segs == [s2.log[q].segs[0]];
    CopiedFrame(c2, s2, q, s2.log[q].segs[0], packet, memory2);
    WantedSame(d, d2, r, r2, n);
    SameFrames(Wanted(d, r, n), Wanted(d2, r2, n), packet);
  }

  // ----- headers and buffers of the server -------------------------------------------------

  /** Transmit buffers do not overlap. */
  ghost predicate BuffersApart(bufs: map<Ptr, seq<byte>>) {
    forall p, q :: p in bufs && q in bufs && p < q ==> p + |bufs[p]| <= q
  }

  ghost predicate InBuffer(bufs: map<Ptr, seq<byte>>, p: Ptr, a: nat) { p in bufs && p <= a < p + |bufs[p]| }

  ghost function ByteAt(bufs: map<Ptr, seq<byte>>, a: nat): byte {
    if exists p: Ptr :: InBuffer(bufs, p, a) then
      var p: Ptr :| InBuffer(bufs, p, a);
      bufs[p][a - p]
    else 0
  }

  /** Memory that consists of the transmit buffers. */
  ghost function BufMemory(bufs: map<Ptr, seq<byte>>): HostMemory { a => ByteAt(bufs, a) }

  lemma BufMemoryHolds(bufs: map<Ptr, seq<byte>>, p: Ptr)
    requires BuffersApart(bufs) && p in bufs
    ensures Holds(BufMemory(bufs), p, bufs[p])
  {
    forall i | 0 <= i < |bufs[p]| ensures bufs[p][i] == ByteAt(bufs, p + i) {
      assert InBuffer(bufs, p, p + i);
    }
  }

  /** Memory that consists of the data segments. */
  function SegmentMemory(at: Ptr, bytes: seq<byte>): HostMemory { a => if at <= a < at + |bytes| then bytes[a - at] else 0 }

  /** What the server writes answers into: the static array of headers (request_headers) and the
      contents of the transmit buffers. */
  class AnswerStore {
    var headers: seq<RequestHeader>
    var bufs: map<Ptr, seq<byte>>
    ghost var packets: seq<seq<byte>>    // history: the packet of each copied answer when it was built
    ghost var frames: seq<seq<byte>>     // history: what the device read when it sent each message

    /** Zeroed headers, and the buffers `items` of `size` bytes each. */
    constructor (count: nat, items: set<Ptr>, size: nat)
      ensures HeadersOk(count) && packets == [] && frames == []
      ensures bufs.Keys == items && forall p :: p in items ==> |bufs[p]| == size
    {
      headers := seq(count, _ => RequestHeader(seq(14, _ => 0), seq(20, _ => 0), seq(8, _ => 0), seq(8, _ => 0), seq(8, _ => 0)));
      bufs := map p | p in items :: seq(size, _ => 0);
      packets, frames := [], [];
    }

    /** The field that is never written is still zero. */
    ghost predicate HeadersOk(count: nat)
      reads this`headers
    {
      |headers| == count && forall i :: 0 <= i < count ==> headers[i].Valid() && headers[i].udp[6..] == [0, 0]
    }

    /** parse_outgoing_request_header for the answer in place `i` of the batch. */
    method WriteSlot(i: nat, ghost count: nat, r: Request, payload: nat)
      requires HeadersOk(count) && i < count && |r.pkt| >= REQUEST_MIN && |r.checksum| == 8
      modifies this`headers
      ensures HeadersOk(count) && headers == old(headers)[i := AnswerHeader(r, payload)]
    {
      hide ReverseEth, ReverseIp, ReverseUdp, EchoId;
      var slot := new HeaderSlot(headers[i]);
      slot.InitializeReverse(r.pkt, payload);
      var h := RequestHeader(slot.eth, slot.ipv4, slot.udp, slot.packetId, r.checksum);
      assert h == slot.View().(checksum := r.checksum);
      assert (ReverseUdp(r.pkt, payload) + [0, 0])[6..] == [0, 0];
      headers := headers[i := h];
    }

    /** The copying path of process_server_requests, into the buffer `buf`. */
    method WritePacket(buf: Ptr, d: WorkingSet, r: Request, n: nat)
      requires buf in bufs && d.Valid() && Readable(r, n) && HEADER_LEN + n * d.size <= |bufs[buf]|
      modifies this`bufs
      ensures bufs.Keys == old(bufs).Keys && |bufs[buf]| == |old(bufs)[buf]| && HEADER_LEN + n * d.size <= |bufs[buf]|
      ensures forall p :: p in bufs && p != buf ==> bufs[p] == old(bufs)[p]
      ensures SameFrame(Wanted(d, r, n), bufs[buf][..HEADER_LEN + n * d.size])
    {
      hide Data, Copied, SegmentIds, Wanted, SameFrame;
      var b := bufs[buf];
      var a := new byte[|b|](i requires 0 <= i < |b| => b[i]);
      assert a[..] == b;
      CopyPacket(a, r.pkt, d.bytes, SegmentIds(r.pkt, n), d.total, d.size);
      CopiedWanted(d, r, n, b);
      bufs := bufs[buf := a[..]];
    }
  }

  // ----- how much fits in a buffer ---------------------------------------------------------

  /** Copying a packet with `len` bytes of data to the start of a buffer of `room` bytes never changes
      what lies behind the buffer. */
  ghost predicate SparesRest(room: nat, len: nat) {
    forall mem, pkt, payload, data | |pkt| >= REQUEST_MIN && |data| == len && |mem| >= HEADER_LEN + len && |mem| >= room ::
      Copied(mem, pkt, payload, data)[room..] == mem[room..]
  }

  /** A copied answer stays inside its buffer if and only if header and data fit. */
  lemma BufferBound(room: nat, len: nat)
    requires room >= HEADER_LEN
    ensures SparesRest(room, len) <==> HEADER_LEN + len <= room
  {
    hide CopiedHeader;
    if HEADER_LEN + len <= room {
      forall mem: seq<byte>, pkt: seq<byte>, payload: nat, data: seq<byte>
        | |pkt| >= REQUEST_MIN && |data| == len && |mem| >= HEADER_LEN + len && |mem| >= room
        ensures Copied(mem, pkt, payload, data)[room..] == mem[room..]
      {
        TailKept(CopiedHeader(mem, pkt, payload) + data, mem, room);
      }
    } else {
      var mem: seq<byte>, pkt: seq<byte>, data: seq<byte> :=
        seq(HEADER_LEN + len, _ => 0), seq(REQUEST_MIN, _ => 0), seq(len, _ => 1);
      var c := Copied(mem, pkt, 0, data);
      assert c[HEADER_LEN + len - 1] == 1 && mem[HEADER_LEN + len - 1] == 0;
      assert c[room..][HEADER_LEN + len - 1 - room] != mem[room..][HEADER_LEN + len - 1 - room];
    }
  }

  lemma TailKept(front: seq<byte>, mem: seq<byte>, room: nat)
    requires |front| <= room <= |mem|
    ensures (front + mem[|front|..])[room..] == mem[room..]
  {
  }

  /** The debug assertion of mbuf_copy for each of `n` segments: it counts copied data only. */
  predicate CopyAsserts(room: nat, n: nat, size: nat) { forall k: nat :: k < n ==> SegmentAsserts(room, k, size) }

  predicate SegmentAsserts(room: nat, k: nat, size: nat) { k * size + size < room }

  /** The assertions pass although the packet overruns its buffer if and only if the data alone fit. */
  lemma AssertsMiss(room: nat, n: nat, size: nat)
    requires room >= HEADER_LEN && n > 0
    ensures n * size >= 0
    ensures CopyAsserts(room, n, size) && !SparesRest(room, n * size) <==> n * size < room < HEADER_LEN + n * size
  {
    hide SparesRest;
    SegmentInside(n - 1, n, size);
    BufferBound(room, n * size);
    assert (n - 1) * size + size == n * size;
    forall k: nat | k < n ensures k * size + size <= n * size { SegmentInside(k, n, size); }
    if CopyAsserts(room, n, size) { assert SegmentAsserts(room, n - 1, size); }
  }
}
