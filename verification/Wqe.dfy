/** Send descriptors (mlx5_rxtx.c): how mlx5_fill_tx_segment lays out a work request in the
    ring, how the device reads it back, and which bytes change. */
module WorkRequest {
  import opened Bits
  import opened Memory

  const BLOCK := 64            // stride of the send queue
  const INLINE_START := 30     // control segment (16) + offset of inline_hdr_start (14)
  const HEADER_LEN := 58       // eth 14, ipv4 20, udp 8, packet id and padding 8, checksum 8
  const OPCODE_SEND: nat := 0x0a
  const CQ_UPDATE: byte := 8
  const L3_L4_CSUM: byte := 0xc0
  const MAX_SCATTERS := 32

  /** The five pieces that are inlined one after the other. */
  datatype RequestHeader = RequestHeader(eth: seq<byte>, ipv4: seq<byte>, udp: seq<byte>, packetId: seq<byte>,
                                         checksum: seq<byte>) {
    predicate Valid() { |eth| == 14 && |ipv4| == 20 && |udp| == 8 && |packetId| == 8 && |checksum| == 8 }

    function Bytes(): (b: seq<byte>)
      ensures Valid() ==> |b| == HEADER_LEN
    {
      eth + ipv4 + udp + packetId + checksum
    }
  }

  /** A request is either sent with an inlined header or without one. */
  datatype Inline = NoHeader | Header(h: RequestHeader) {
    predicate Valid() { Header? ==> h.Valid() }
    function Len(): nat { if Header? then HEADER_LEN else 0 }
    function Bytes(): seq<byte> { if Header? then h.Bytes() else [] }
  }

  datatype Seg = Seg(byteCount: u32, lkey: u32, addr: u64)

  /** What the device understands of a descriptor. */
  datatype Wqe = Wqe(index: u16, opcode: byte, qpn: nat, flags: byte, csum: byte, reserved: seq<byte>,
                     ds: nat, inlined: seq<byte>, segs: seq<Seg>)

  /** The device sends for a descriptor with opcode 10 of its own queue; queue numbers have 24 bits. */
  predicate IsSend(w: Wqe, qpn: nat) { w.opcode == 10 && w.qpn == qpn % 0x100_0000 }

  /** It reports a completion when the two-bit field above the lowest two flags is 2. */
  predicate AsksCompletion(w: Wqe) { w.flags / 4 % 4 == 2 }

  /** Network and transport checksums are filled in when the two highest bits are set. */
  predicate AsksChecksums(w: Wqe) { w.csum / 64 == 3 }

  /** A request to send from queue `qpn`, to report completion and to fill in both checksums, and nothing else. */
  predicate Commands(w: Wqe, qpn: nat) {
    && IsSend(w, qpn) && AsksCompletion(w) && w.flags % 4 == 0 && w.flags < 16
    && AsksChecksums(w) && w.csum % 64 == 0
    && |w.reserved| == 19 && forall i :: 0 <= i < 19 ==> w.reserved[i] == 0
  }

  /** Number of 16-byte units before the data segments. */
  function HdrSegs(inlineLen: nat): nat {
    if inlineLen > 2 then 2 + (inlineLen - 2 + 15) / 16 else 2
  }

  /** Number of 64-byte blocks: all units, padded to four. */
  function Blocks(inlineLen: nat, nbSegs: nat): nat { (HdrSegs(inlineLen) + nbSegs + 3) / 4 }

  // ----- encoding --------------------------------------------------------------------------

  function CtrlBytes(ds: nat, qpn: nat, sqHead: u32): (b: seq<byte>)
    ensures |b| == 16
  {
    Be32((sqHead % W16) * 0x100 + OPCODE_SEND) + Be32(Wrap32(qpn * 0x100 + ds)) + [0, 0, 0, CQ_UPDATE] + [0, 0, 0, 0]
  }

  function EthBytes(inlineLen: u16): (b: seq<byte>)
    ensures |b| == 32
  {
    [0, 0, 0, 0, L3_L4_CSUM, 0, 0, 0, 0, 0, 0, 0] + Be16(inlineLen) + seq(18, _ => 0)
  }

  function EncodeSeg(s: Seg): (b: seq<byte>)
    ensures |b| == 16
  {
    Be32(s.byteCount) + Be32(s.lkey) + Be64(s.addr)
  }

  function SegBytes(segs: seq<Seg>): (b: seq<byte>)
    ensures |b| == 16 * |segs|
  {
    seq(16 * |segs|, i requires 0 <= i < 16 * |segs| => EncodeSeg(segs[i / 16])[i % 16])
  }

  // ----- the writes of mlx5_fill_tx_segment ------------------------------------------------

  /** mlx5_inline_data: where one piece of the header goes. The restart position after the end
      of the ring is computed from the length of the piece (mlx5_rxtx.c:107-110). */
  function InlineTarget(ringLen: nat, idx: nat, offset: nat, len: nat): int {
    var start := BLOCK * idx + INLINE_START;
    if start + offset >= ringLen then len - (ringLen - start) else start + offset
  }

  function InlineData(ring: seq<byte>, idx: nat, offset: nat, data: seq<byte>): (r: seq<byte>)
    ensures |r| == |ring|
  {
    var p := InlineTarget(|ring|, idx, offset, |data|);
    if 0 <= |ring| - p < |data| then
      var first := |ring| - p;
      Put(Put(ring, p, data[..first]), 0, data[first..])
    else
      Put(ring, p, data)
  }

  function InlineHeader(ring: seq<byte>, idx: nat, h: RequestHeader): (r: seq<byte>)
    ensures |r| == |ring|
  {
    var r0 := InlineData(ring, idx, 0, h.eth);
    var r1 := InlineData(r0, idx, |h.eth|, h.ipv4);
    var r2 := InlineData(r1, idx, |h.eth| + |h.ipv4|, h.udp);
    var r3 := InlineData(r2, idx, |h.eth| + |h.ipv4| + |h.udp|, h.packetId);
    InlineData(r3, idx, |h.eth| + |h.ipv4| + |h.udp| + |h.packetId|, h.checksum)
  }

  /** The pointer to the first data segment, by the three cases of mlx5_rxtx.c:211-228. */
  function FirstSeg(ringLen: nat, idx: nat, inlineLen: nat): nat {
    if inlineLen > 0 then
      var p := BLOCK * idx + INLINE_START;
      if ringLen - p < inlineLen
      then (inlineLen - (ringLen - p) + 15) / 16 * 16
      else p + 2 + (inlineLen - 2 + 15) / 16 * 16
    else
      var p := BLOCK * idx + 16 + 16;
      if p == ringLen then 0 else p
  }

  function NextSeg(ringLen: nat, p: nat): nat { if p + 16 == ringLen then 0 else p + 16 }

  function PutSegs(ring: seq<byte>, p: nat, segs: seq<Seg>): (r: seq<byte>)
    ensures |r| == |ring|
    decreases |segs|
  {
    if segs == [] then ring
    else PutSegs(Put(ring, p, EncodeSeg(segs[0])), NextSeg(|ring|, p), segs[1..])
  }

  /** Everything before the data segments: control segment, Ethernet segment, inlined header. */
  function FillPrefix(ring: seq<byte>, idx: nat, qpn: nat, sqHead: u32, inl: Inline, ds: nat): (r: seq<byte>)
    ensures |r| == |ring|
  {
    var r1 := Put(ring, BLOCK * idx, CtrlBytes(ds, qpn, sqHead));
    var r2 := Put(r1, BLOCK * idx + 16, EthBytes(inl.Len()));
    if inl.Header? then InlineHeader(r2, idx, inl.h) else r2
  }

  /** All ring bytes after mlx5_fill_tx_segment. */
  function Fill(ring: seq<byte>, idx: nat, qpn: nat, sqHead: u32, inl: Inline, segs: seq<Seg>): (r: seq<byte>)
    ensures |r| == |ring|
  {
    PutSegs(FillPrefix(ring, idx, qpn, sqHead, inl, HdrSegs(inl.Len()) + |segs|), FirstSeg(|ring|, idx, inl.Len()), segs)
  }

  // ----- the device's reading --------------------------------------------------------------

  function DecodeSeg(b: seq<byte>): Seg
    requires |b| == 16
  {
    Seg(UnBe32(b[..4]), UnBe32(b[4..8]), UnBe64(b[8..]))
  }

  function UnBe24(b: seq<byte>): nat
    requires |b| == 3
  {
    var hi: int := b[0];
    hi * W16 + UnBe16(b[1..])
  }

  /** A descriptor read from the ring as seen from its first block. */
  function Decode(v: seq<byte>): Wqe
    requires |v| >= BLOCK
  {
    var ds := v[7] % 64;
    var il := UnBe16(v[28..30]);
    var hdr := HdrSegs(il);
    Wqe(UnBe16(v[1..3]), v[3], UnBe24(v[4..7]), v[11], v[20], v[..1] + v[8..11] + v[12..20] + v[21..28], ds,
        if 30 + il <= |v| then v[30..30 + il] else [],
        if hdr <= ds && 16 * ds <= |v|
        then seq(ds - hdr, k requires 0 <= k < ds - hdr => DecodeSeg(v[16 * (hdr + k)..16 * (hdr + k) + 16]))
        else [])
  }

  // ----- what the layout achieves ----------------------------------------------------------

  /** The ring of `n` blocks seen from block `idx`. */
  function From(ring: seq<byte>, idx: nat): (v: seq<byte>)
    requires BLOCK * idx <= |ring|
    ensures |v| == |ring|
  {
    Rot(ring, BLOCK * idx)
  }

  /** The part of the header that reaches the ring: everything, except that in the last block
      the pieces after the ring end are lost. */
  function Inlined(inl: Inline, last: bool): (b: seq<byte>)
    requires inl.Valid()
    ensures |b| == if inl.Header? && last then 34 else inl.Len()
  {
    if inl.Header? && last then inl.h.eth + inl.h.ipv4 else inl.Bytes()
  }

  lemma InlineDataPlain(ring: seq<byte>, n: nat, idx: nat, offset: nat, data: seq<byte>)
    requires |ring| == BLOCK * n && idx < n && data != [] && BLOCK * idx + INLINE_START + offset + |data| <= BLOCK * n
    ensures InlineData(ring, idx, offset, data) == Put(ring, BLOCK * idx + INLINE_START + offset, data)
  {
    hide Put;
    if BLOCK * idx + INLINE_START + offset + |data| == BLOCK * n {
      assert !(0 <= |ring| - (BLOCK * idx + INLINE_START + offset) < |data|);
    }
  }

  lemma InlineDataLost(ring: seq<byte>, n: nat, offset: nat, data: seq<byte>)
    requires |ring| == BLOCK * n && n > 0 && offset >= 34 && |data| == 8
    ensures InlineData(ring, n - 1, offset, data) == ring
  {
    hide Put, InlineTarget;
    LostTarget(n, offset);
    PutOutside(ring, LOST_AT, data);
  }

  lemma InlineHeaderLayout(ring: seq<byte>, n: nat, idx: nat, h: RequestHeader)
    requires |ring| == BLOCK * n && idx < n && h.Valid()
    ensures InlineHeader(ring, idx, h) == Put(ring, BLOCK * idx + INLINE_START, Inlined(Header(h), idx + 1 == n))
  {
    hide Put, InlineData;
    var p := BLOCK * idx + INLINE_START;
    InlineDataPlain(ring, n, idx, 0, h.eth);
    var r1 := Put(ring, p, h.eth);
    InlineDataPlain(r1, n, idx, 14, h.ipv4);
    PutPut(ring, p, h.eth, h.ipv4);
    var r2 := Put(ring, p, h.eth + h.ipv4);
    if idx + 1 == n {
      InlineDataLost(r2, n, 34, h.udp);
      InlineDataLost(r2, n, 42, h.packetId);
      InlineDataLost(r2, n, 50, h.checksum);
    } else {
      InlineDataPlain(r2, n, idx, 34, h.udp);
      PutPut(ring, p, h.eth + h.ipv4, h.udp);
      var r3 := Put(ring, p, h.eth + h.ipv4 + h.udp);
      InlineDataPlain(r3, n, idx, 42, h.packetId);
      PutPut(ring, p, h.eth + h.ipv4 + h.udp, h.packetId);
      var r4 := Put(ring, p, h.eth + h.ipv4 + h.udp + h.packetId);
      InlineDataPlain(r4, n, idx, 50, h.checksum);
      PutPut(ring, p, h.eth + h.ipv4 + h.udp + h.packetId, h.checksum);
    }
  }

  /** A piece that crosses the end of the ring is continued at its beginning. */
  lemma InlineSplit(ring: seq<byte>, idx: nat, offset: nat, data: seq<byte>, i: nat)
    requires |data| <= |ring| && i < |data|
    requires BLOCK * idx + INLINE_START + offset < |ring| < BLOCK * idx + INLINE_START + offset + |data|
    ensures var p := BLOCK * idx + INLINE_START + offset;
      InlineData(ring, idx, offset, data)[Around(|ring|, p + i)] == data[i]
  {
    hide Put;
    var p := BLOCK * idx + INLINE_START + offset;
    var k := |ring| - p;
    var was := Put(ring, p, data[..k]);
    assert InlineData(ring, idx, offset, data) == Put(was, 0, data[k..]);
    if i < k {
      PutOne(ring, p, data[..k], p + i);
      PutOne(was, 0, data[k..], p + i);
    } else {
      PutOne(was, 0, data[k..], i - k);
    }
  }

  lemma PutOne(m: seq<byte>, p: nat, d: seq<byte>, x: nat)
    requires x < |m|
    ensures Put(m, p, d)[x] == if p <= x < p + |d| then d[x - p] else m[x]
  {
    PutAt(m, p, d);
  }

  lemma SegBytesNone()
    ensures SegBytes([]) == []
  {
  }

  lemma SegBytesCons(segs: seq<Seg>)
    requires segs != []
    ensures EncodeSeg(segs[0]) + SegBytes(segs[1..]) == SegBytes(segs)
  {
    hide EncodeSeg;
    forall i | 16 <= i < 16 * |segs| ensures SegBytes(segs[1..])[i - 16] == SegBytes(segs)[i] {
      DivModUnique(i - 16, 16, i / 16 - 1, i % 16);
    }
  }

  /** Data segments follow each other around the ring, 16 bytes apart: unit `u` of the descriptor
      that starts at unit `base`. */
  lemma {:induction false} PutSegsLayout(ring: seq<byte>, units: nat, base: nat, u: nat, p: nat, segs: seq<Seg>)
    requires |ring| == 16 * units && base < units && u + |segs| <= units
    requires u < units ==> p == Around(|ring|, 16 * base + 16 * u)
    ensures Rot(PutSegs(ring, p, segs), 16 * base) == Put(Rot(ring, 16 * base), 16 * u, SegBytes(segs))
    decreases |segs|
  {
    hide Put, EncodeSeg, SegBytes;
    if segs == [] {
      SegBytesNone();
      PutNothing(Rot(ring, 16 * base), 16 * u, SegBytes(segs));
    } else {
      var b, v := EncodeSeg(segs[0]), Rot(ring, 16 * base);
      var next := NextSeg(|ring|, p);
      UnitPut(ring, units, base, u, p, b);
      PutSegsLayout(Put(ring, p, b), units, base, u + 1, next, segs[1..]);
      SegBytesCons(segs);
      AppendPut(v, 16 * u, 16 * (u + 1), b, SegBytes(segs[1..]), SegBytes(segs));
    }
  }

  lemma UnitPut(ring: seq<byte>, units: nat, base: nat, u: nat, p: nat, b: seq<byte>)
    requires |ring| == 16 * units && base < units && u < units && |b| == 16
    requires p == Around(|ring|, 16 * base + 16 * u)
    ensures Rot(Put(ring, p, b), 16 * base) == Put(Rot(ring, 16 * base), 16 * u, b)
    ensures u + 1 < units ==> NextSeg(|ring|, p) == Around(|ring|, 16 * base + 16 * (u + 1))
  {
    hide Put, Rot;
    RotPut(ring, 16 * base, 16 * u, b);
  }

  lemma AppendPut(v: seq<byte>, at: nat, next: nat, d: seq<byte>, e: seq<byte>, de: seq<byte>)
    requires next == at + |d| && de == d + e
    ensures Put(Put(v, at, d), next, e) == Put(v, at, de)
  {
    PutPut(v, at, d, e);
  }

  /** The descriptor as one picture, seen from its own first block. */
  function PicturePrefix(v: seq<byte>, last: bool, qpn: nat, sqHead: u32, inl: Inline, ds: nat): (u: seq<byte>)
    requires inl.Valid()
    ensures |u| == |v|
  {
    Put(Put(Put(v, 0, CtrlBytes(ds, qpn, sqHead)), 16, EthBytes(inl.Len())), INLINE_START, Inlined(inl, last))
  }

  function Picture(v: seq<byte>, last: bool, qpn: nat, sqHead: u32, inl: Inline, segs: seq<Seg>): (u: seq<byte>)
    requires inl.Valid()
    ensures |u| == |v|
  {
    var hdr := HdrSegs(inl.Len());
    Put(PicturePrefix(v, last, qpn, sqHead, inl, hdr + |segs|), 16 * hdr, SegBytes(segs))
  }

  lemma TwoSegments(ring: seq<byte>, n: nat, idx: nat, ctrl: seq<byte>, eth: seq<byte>)
    requires |ring| == BLOCK * n && idx < n && |ctrl| == 16 && |eth| == 32
    ensures From(Put(Put(ring, BLOCK * idx, ctrl), BLOCK * idx + 16, eth), idx)
         == Put(Put(From(ring, idx), 0, ctrl), 16, eth)
  {
    RotPut(ring, BLOCK * idx, 0, ctrl);
    RotPut(Put(ring, BLOCK * idx, ctrl), BLOCK * idx, 16, eth);
  }

  lemma HeaderWrite(ring: seq<byte>, n: nat, idx: nat, h: RequestHeader)
    requires |ring| == BLOCK * n && idx < n && 2 <= n && h.Valid()
    ensures From(InlineHeader(ring, idx, h), idx)
         == Put(From(ring, idx), INLINE_START, Inlined(Header(h), idx + 1 == n))
  {
    var d := Inlined(Header(h), idx + 1 == n);
    InlineHeaderLayout(ring, n, idx, h);
    BlockPut(ring, n, idx, d);
  }

  lemma BlockPut(ring: seq<byte>, n: nat, idx: nat, d: seq<byte>)
    requires |ring| == BLOCK * n && idx < n && |d| <= (if idx + 1 == n then 34 else HEADER_LEN)
    ensures From(Put(ring, BLOCK * idx + INLINE_START, d), idx) == Put(From(ring, idx), INLINE_START, d)
  {
    RotPut(ring, BLOCK * idx, INLINE_START, d);
  }

  /** The writes up to the first data segment. */
  lemma PrefixLayout(ring: seq<byte>, n: nat, idx: nat, qpn: nat, sqHead: u32, inl: Inline, ds: nat)
    requires |ring| == BLOCK * n && idx < n && inl.Valid() && (inl.Header? ==> 2 <= n)
    ensures From(FillPrefix(ring, idx, qpn, sqHead, inl, ds), idx)
         == PicturePrefix(From(ring, idx), idx + 1 == n, qpn, sqHead, inl, ds)
  {
    hide Put, CtrlBytes, EthBytes, InlineHeader;
    var ctrl, eth := CtrlBytes(ds, qpn, sqHead), EthBytes(inl.Len());
    var r2 := Put(Put(ring, BLOCK * idx, ctrl), BLOCK * idx + 16, eth);
    var v2 := Put(Put(From(ring, idx), 0, ctrl), 16, eth);
    assert From(r2, idx) == v2 by { TwoSegments(ring, n, idx, ctrl, eth); }
    if inl.Header? {
      HeaderWrite(r2, n, idx, inl.h);
    } else {
      PutNothing(v2, INLINE_START, Inlined(inl, idx + 1 == n));
    }
  }

  lemma FillLayout(ring: seq<byte>, n: nat, idx: nat, qpn: nat, sqHead: u32, inl: Inline, segs: seq<Seg>)
    requires |ring| == BLOCK * n && idx < n && inl.Valid()
    requires 0 < |segs| <= MAX_SCATTERS && Blocks(inl.Len(), |segs|) <= n
    ensures From(Fill(ring, idx, qpn, sqHead, inl, segs), idx)
         == Picture(From(ring, idx), idx + 1 == n, qpn, sqHead, inl, segs)
  {
    hide Put, CtrlBytes, EthBytes, SegBytes, InlineHeader, PutSegs, FirstSeg;
    var hdr := HdrSegs(inl.Len());
    assert hdr == if inl.Header? then 6 else 2;
    var p := FirstSeg(|ring|, idx, inl.Len());
    assert p == Around(|ring|, 16 * (4 * idx) + 16 * hdr) by { FirstSegPosition(n, idx, inl.Len()); }
    PrefixLayout(ring, n, idx, qpn, sqHead, inl, hdr + |segs|);
    PutSegsLayout(FillPrefix(ring, idx, qpn, sqHead, inl, hdr + |segs|), 4 * n, 4 * idx, hdr, p, segs);
  }

  /** The first data segment sits right after the header units, modulo the ring. */
  lemma FirstSegPosition(n: nat, idx: nat, inlineLen: nat)
    requires idx < n && (inlineLen == 0 || inlineLen == HEADER_LEN) && HdrSegs(inlineLen) < 4 * n
    ensures FirstSeg(BLOCK * n, idx, inlineLen) == Around(BLOCK * n, BLOCK * idx + 16 * HdrSegs(inlineLen))
  {
  }

  lemma SegRoundTrip(s: Seg)
    ensures DecodeSeg(EncodeSeg(s)) == s
  {
    var b := EncodeSeg(s);
    assert b[..4] == Be32(s.byteCount) && b[4..8] == Be32(s.lkey) && b[8..] == Be64(s.addr);
    Be32RoundTrip(s.byteCount);
    Be32RoundTrip(s.lkey);
    Be64RoundTrip(s.addr);
  }

  /** The device reads back a command to send from the queue and to report it, the index, the size, every data
      segment, and the header bytes that reached the ring followed by whatever the next block held. */
  lemma PictureDecodes(v: seq<byte>, last: bool, qpn: nat, sqHead: u32, inl: Inline, segs: seq<Seg>)
    requires BLOCK <= |v| && inl.Valid() && 0 < |segs| <= MAX_SCATTERS
    requires BLOCK * Blocks(inl.Len(), |segs|) <= |v|
    ensures var w := Decode(Picture(v, last, qpn, sqHead, inl, segs));
      && Commands(w, qpn)
      && w.index == sqHead % W16
      && w.ds == HdrSegs(inl.Len()) + |segs|
      && w.segs == segs
      && |w.inlined| == inl.Len()
      && (last && inl.Header? ==> w.inlined == inl.h.eth + inl.h.ipv4 + v[64..88])
      && (!last || inl.NoHeader? ==> w.inlined == inl.Bytes())
  {
    PictureParts(v, last, qpn, sqHead, inl, segs);
    DecodeParts(Picture(v, last, qpn, sqHead, inl, segs), qpn, sqHead, inl.Len(), segs);
  }

  lemma DecodeParts(u: seq<byte>, qpn: nat, sqHead: u32, il: nat, segs: seq<Seg>)
    requires il == 0 || il == HEADER_LEN
    requires HdrSegs(il) + |segs| < 64 && 16 * (HdrSegs(il) + |segs|) <= |u| && BLOCK <= |u|
    requires u[..16] == CtrlBytes(HdrSegs(il) + |segs|, qpn, sqHead) && u[16..28] == EthBytes(il)[..12] && u[28..30] == Be16(il)
    requires u[16 * HdrSegs(il)..16 * (HdrSegs(il) + |segs|)] == SegBytes(segs)
    requires 30 + il <= |u|
    ensures var w := Decode(u);
      && Commands(w, qpn) && w.index == sqHead % W16 && w.ds == HdrSegs(il) + |segs|
      && w.inlined == u[30..30 + il] && w.segs == segs
  {
    hide SegBytes, CtrlBytes, EthBytes, DecodeSeg, Be16, UnBe16, UnBe24, Commands;
    var hdr := HdrSegs(il);
    var ds := hdr + |segs|;
    assert u[1..3] == u[..16][1..3] && u[7] == u[..16][7];
    CtrlFields(ds, qpn, sqHead);
    InlineLenRead(il);
    var w := Decode(u);
    CommandRead(u, ds, qpn, sqHead, il);
    assert |w.segs| == |segs|;
    forall k | 0 <= k < |segs| ensures w.segs[k] == segs[k] {
      SegRead(u, hdr, segs, k);
    }
  }

  /** Everything but index, size, header and segments. */
  lemma CommandRead(u: seq<byte>, ds: nat, qpn: nat, sqHead: u32, il: u16)
    requires BLOCK <= |u| && ds < 64 && u[..16] == CtrlBytes(ds, qpn, sqHead) && u[16..28] == EthBytes(il)[..12]
    ensures Commands(Decode(u), qpn)
  {
    hide CtrlBytes, EthBytes, UnBe16, UnBe24, DecodeSeg;
    var c, e := u[..16], u[16..28];
    CtrlCommand(ds, qpn, sqHead);
    EthCommand(il);
    assert u[3] == c[3] && u[4..7] == c[4..7] && u[11] == c[11] && u[20] == e[4];
    assert u[..1] == c[..1] && u[8..11] == c[8..11] && u[21..28] == e[5..];
    assert u[12..20] == c[12..] + e[..4];
    hide Commands;
    var w := Decode(u);
    assert w.reserved == [0] + [0, 0, 0] + ([0, 0, 0, 0] + [0, 0, 0, 0]) + [0, 0, 0, 0, 0, 0, 0];
    CommandOf(w, qpn);
  }

  lemma CommandOf(w: Wqe, qpn: nat)
    requires w.opcode == 10 && w.qpn == qpn % 0x100_0000 && w.flags == 8 && w.csum == 0xc0
    requires w.reserved == [0] + [0, 0, 0] + ([0, 0, 0, 0] + [0, 0, 0, 0]) + [0, 0, 0, 0, 0, 0, 0]
    ensures Commands(w, qpn)
  {
  }

  lemma CtrlCommand(ds: nat, qpn: nat, sqHead: u32)
    requires ds < 64
    ensures var b := CtrlBytes(ds, qpn, sqHead);
      && b[3] == 10 && UnBe24(b[4..7]) == qpn % 0x100_0000 && b[11] == 8
      && b[..1] == [0] && b[8..11] == [0, 0, 0] && b[12..] == [0, 0, 0, 0]
  {
    hide Be32, UnBe16;
    var x, y := (sqHead % W16) * 0x100 + OPCODE_SEND, Wrap32(qpn * 0x100 + ds);
    var b := CtrlBytes(ds, qpn, sqHead);
    assert b[3] == Be32(x)[3] && b[0] == Be32(x)[0] && b[4..7] == Be32(y)[..3];
    LastByteOf(x);
    FirstByteOf(x);
    UpperBytes(y);
    ModOfMod(qpn * 0x100 + ds, 0x100, 0x100_0000);
    assert y / 0x100 == qpn % 0x100_0000;
  }

  lemma FirstByteOf(y: u32)
    ensures Be32(y)[0] == y / 0x100_0000
  {
  }

  lemma UpperBytes(y: u32)
    ensures UnBe24(Be32(y)[..3]) == y / 0x100
  {
    assert Be32(y)[..3] == [y / W16 / 0x100, y / W16 % 0x100, y % W16 / 0x100];
    assert Be32(y)[..3][1..] == [y / W16 % 0x100, y % W16 / 0x100];
  }

  lemma EthCommand(il: u16)
    ensures var e := EthBytes(il)[..12]; e[4] == 0xc0 && e[..4] == [0, 0, 0, 0] && e[5..] == [0, 0, 0, 0, 0, 0, 0]
  {
  }

  lemma InlineLenRead(il: nat)
    requires il == 0 || il == HEADER_LEN
    ensures UnBe16(Be16(il)) == il
  {
    Be16RoundTrip(il);
  }

  lemma SegRead(u: seq<byte>, hdr: nat, segs: seq<Seg>, k: nat)
    requires k < |segs| && 16 * (hdr + |segs|) <= |u|
    requires u[16 * hdr..16 * (hdr + |segs|)] == SegBytes(segs)
    ensures DecodeSeg(u[16 * (hdr + k)..16 * (hdr + k) + 16]) == segs[k]
  {
    SegSlice(segs, k);
    SliceOfSlice(u, 16 * hdr, 16 * (hdr + |segs|), 16 * k, 16 * k + 16);
    SegRoundTrip(segs[k]);
  }

  lemma SegSlice(segs: seq<Seg>, k: nat)
    requires k < |segs|
    ensures SegBytes(segs)[16 * k..16 * k + 16] == EncodeSeg(segs[k])
  {
    hide EncodeSeg;
    forall b | 0 <= b < 16 ensures SegBytes(segs)[16 * k + b] == EncodeSeg(segs[k])[b] {
      DivModUnique(16 * k + b, 16, k, b);
    }
  }

  /** The picture, part by part. */
  lemma PictureParts(v: seq<byte>, last: bool, qpn: nat, sqHead: u32, inl: Inline, segs: seq<Seg>)
    requires BLOCK <= |v| && inl.Valid() && BLOCK * Blocks(inl.Len(), |segs|) <= |v| && segs != []
    ensures var u := Picture(v, last, qpn, sqHead, inl, segs);
            var hdr, il := HdrSegs(inl.Len()), inl.Len();
      && u[..16] == CtrlBytes(hdr + |segs|, qpn, sqHead)
      && u[16..28] == EthBytes(il)[..12] && u[28..30] == Be16(il)
      && (last && inl.Header? ==> u[30..88] == inl.h.eth + inl.h.ipv4 + v[64..88])
      && (!last || inl.NoHeader? ==> u[30..30 + il] == inl.Bytes())
      && u[16 * hdr..16 * (hdr + |segs|)] == SegBytes(segs)
  {
    hide Put, CtrlBytes, SegBytes;
    var hdr, il := HdrSegs(inl.Len()), inl.Len();
    assert inl.Header? ==> hdr == 6;
    var d := Inlined(inl, last);
    Layers(v, CtrlBytes(hdr + |segs|, qpn, sqHead), EthBytes(il), d, 16 * hdr, SegBytes(segs));
    assert EthBytes(il)[12..14] == Be16(il);
    if last && inl.Header? {
      var u := Picture(v, last, qpn, sqHead, inl, segs);
      assert u[30..88] == u[30..64] + u[64..88];
    }
  }

  /** Four writes on top of each other, none reaching back over the start of an earlier one. */
  lemma Layers(v: seq<byte>, c: seq<byte>, e: seq<byte>, d: seq<byte>, at: nat, t: seq<byte>)
    requires |c| == 16 && |e| == 32 && 32 <= at && at + |t| <= |v| && 64 <= |v|
    requires INLINE_START + |d| <= at
    ensures
      var u := Put(Put(Put(Put(v, 0, c), 16, e), INLINE_START, d), at, t);
      && u[..16] == c && u[16..28] == e[..12] && u[28..30] == e[12..14]
      && u[INLINE_START..INLINE_START + |d|] == d
      && u[at..at + |t|] == t
      && (INLINE_START + |d| <= 64 && 88 <= at ==> u[64..88] == v[64..88])
  {
    hide Put;
    var v1 := Put(v, 0, c);
    var v2 := Put(v1, 16, e);
    var v3 := Put(v2, INLINE_START, d);
    var u := Put(v3, at, t);
    assert u[..16] == c by {
      PutHit(v, 0, c, 0, 16);
      PutMiss(v1, 16, e, 0, 16);
      Above(v2, d, at, t, 0, 16);
      Whole(c);
    }
    assert u[16..28] == e[..12] by {
      PutHit(v1, 16, e, 16, 28);
      Above(v2, d, at, t, 16, 28);
    }
    assert u[28..30] == e[12..14] by {
      PutHit(v1, 16, e, 28, 30);
      Above(v2, d, at, t, 28, 30);
    }
    assert u[INLINE_START..INLINE_START + |d|] == d by {
      PutHit(v2, INLINE_START, d, INLINE_START, INLINE_START + |d|);
      PutMiss(v3, at, t, INLINE_START, INLINE_START + |d|);
      Whole(d);
    }
    assert u[at..at + |t|] == t by {
      PutHit(v3, at, t, at, at + |t|);
      Whole(t);
    }
    if INLINE_START + |d| <= 64 && 88 <= at {
      PutMiss(v, 0, c, 64, 88);
      PutMiss(v1, 16, e, 64, 88);
      Above(v2, d, at, t, 64, 88);
    }
  }

  lemma Whole<T>(s: seq<T>)
    ensures s[0..|s|] == s
  {
  }

  /** A slice that neither the header nor the data segments touch. */
  lemma Above(v: seq<byte>, d: seq<byte>, at: nat, t: seq<byte>, a: nat, b: nat)
    requires INLINE_START + |d| <= at && at + |t| <= |v| && a <= b <= at
    requires b <= INLINE_START || INLINE_START + |d| <= a
    ensures Put(Put(v, INLINE_START, d), at, t)[a..b] == v[a..b]
  {
    hide Put;
    PutMiss(v, INLINE_START, d, a, b);
    PutMiss(Put(v, INLINE_START, d), at, t, a, b);
  }

  lemma CtrlFields(ds: nat, qpn: nat, sqHead: u32)
    requires ds < 64
    ensures UnBe16(CtrlBytes(ds, qpn, sqHead)[1..3]) == sqHead % W16
    ensures CtrlBytes(ds, qpn, sqHead)[7] % 64 == ds
  {
    hide Be32, UnBe16;
    var x, y := (sqHead % W16) * 0x100 + OPCODE_SEND, Wrap32(qpn * 0x100 + ds);
    var b := CtrlBytes(ds, qpn, sqHead);
    assert b[1..3] == Be32(x)[1..3] && b[7] == Be32(y)[3];
    MiddleBytes(x, sqHead % W16);
    LastByteOf(y);
    LowByte(qpn, ds);
  }

  lemma MiddleBytes(x: u32, v: u16)
    requires x == v * 0x100 + OPCODE_SEND
    ensures UnBe16(Be32(x)[1..3]) == v
  {
    assert Be32(x)[1..3] == [x / W16 % 0x100, x % W16 / 0x100];
  }

  lemma LastByteOf(y: u32)
    ensures Be32(y)[3] == y % 0x100
  {
  }

  lemma LowByte(qpn: nat, ds: byte)
    ensures Wrap32(qpn * 0x100 + ds) % 0x100 == ds
  {
  }

  // ----- which bytes change, and which descriptors survive ---------------------------------

  /** A descriptor of `b` blocks reads nothing outside them. */
  ghost predicate Fits(v: seq<byte>, b: nat) {
    && 1 <= b && BLOCK * b <= |v|
    && 16 * (v[7] % 64) <= BLOCK * b
    && INLINE_START + UnBe16(v[28..30]) <= BLOCK * b
  }

  lemma DecodeLocal(v: seq<byte>, v': seq<byte>, b: nat)
    requires |v| == |v'| && Fits(v, b) && v[..BLOCK * b] == v'[..BLOCK * b]
    ensures Fits(v', b) && Decode(v') == Decode(v)
  {
    var m := BLOCK * b;
    assert v'[7] == v'[..m][7] == v[..m][7] == v[7];
    SliceOfPrefix(v, v', m, 0, 28);
    assert v[3] == v[0..28][3] && v[11] == v[0..28][11] && v[20] == v[0..28][20];
    assert v'[3] == v'[0..28][3] && v'[11] == v'[0..28][11] && v'[20] == v'[0..28][20];
    SliceOfPrefix(v, v', m, 0, 1);
    SliceOfPrefix(v, v', m, 1, 3);
    SliceOfPrefix(v, v', m, 4, 7);
    SliceOfPrefix(v, v', m, 8, 11);
    SliceOfPrefix(v, v', m, 12, 20);
    SliceOfPrefix(v, v', m, 21, 28);
    SliceOfPrefix(v, v', m, 28, 30);
    var ds, il := v[7] % 64, UnBe16(v[28..30]);
    SliceOfPrefix(v, v', m, INLINE_START, INLINE_START + il);
    var w, w' := Decode(v), Decode(v');
    forall k | 0 <= k < |w.segs| ensures w'.segs[k] == w.segs[k] {
      var at := 16 * (HdrSegs(il) + k);
      SliceOfPrefix(v, v', m, at, at + 16);
    }
  }

  /** mlx5_fill_tx_segment writes a descriptor that stays inside its blocks and leaves every other
      byte of the ring alone. */
  lemma FillStaysInside(ring: seq<byte>, n: nat, idx: nat, qpn: nat, sqHead: u32, inl: Inline, segs: seq<Seg>)
    requires |ring| == BLOCK * n && idx < n && inl.Valid()
    requires 0 < |segs| <= MAX_SCATTERS && Blocks(inl.Len(), |segs|) <= n
    ensures var b, v := Blocks(inl.Len(), |segs|), From(Fill(ring, idx, qpn, sqHead, inl, segs), idx);
            Fits(v, b) && v[BLOCK * b..] == From(ring, idx)[BLOCK * b..]
  {
    hide Put, CtrlBytes, SegBytes, Fill, Picture;
    var b, v, hdr := Blocks(inl.Len(), |segs|), From(ring, idx), HdrSegs(inl.Len());
    assert hdr == if inl.Header? then 6 else 2;
    var last := idx + 1 == n;
    FillLayout(ring, n, idx, qpn, sqHead, inl, segs);
    PictureOutside(v, last, qpn, sqHead, inl, segs, BLOCK * b);
    PictureParts(v, last, qpn, sqHead, inl, segs);
    InlineLenRead(inl.Len());
    CtrlFields(hdr + |segs|, qpn, sqHead);
    var u := Picture(v, last, qpn, sqHead, inl, segs);
    assert u[7] == u[..16][7];
  }

  lemma PictureOutside(v: seq<byte>, last: bool, qpn: nat, sqHead: u32, inl: Inline, segs: seq<Seg>, from: nat)
    requires BLOCK <= |v| && inl.Valid() && from <= |v|
    requires 16 * (HdrSegs(inl.Len()) + |segs|) <= from && INLINE_START + inl.Len() <= from && 48 <= from
    ensures Picture(v, last, qpn, sqHead, inl, segs)[from..] == v[from..]
  {
    hide Put, CtrlBytes, EthBytes, SegBytes;
    var hdr := HdrSegs(inl.Len());
    var v1 := Put(v, 0, CtrlBytes(hdr + |segs|, qpn, sqHead));
    var v2 := Put(v1, 16, EthBytes(inl.Len()));
    PutMissTail(v, 0, CtrlBytes(hdr + |segs|, qpn, sqHead), from);
    PutMissTail(v1, 16, EthBytes(inl.Len()), from);
    PutMissTail(v2, INLINE_START, Inlined(inl, last), from);
    PutMissTail(PicturePrefix(v, last, qpn, sqHead, inl, hdr + |segs|), 16 * hdr, SegBytes(segs), from);
  }

  /** A write confined to `b'` blocks from block `j` leaves the `b` blocks from block `i` alone
      when, going around the ring from `i`, the first `delta >= b` blocks lie before `j` and the
      write ends before coming back to `i`. */
  lemma WindowKept(ring: seq<byte>, ring': seq<byte>, n: nat, i: nat, j: nat, delta: nat, b: nat, b': nat)
    requires |ring| == |ring'| == BLOCK * n && i < n && j < n
    requires j == i + delta || j + n == i + delta
    requires b <= delta && delta + b' <= n
    requires From(ring', j)[BLOCK * b'..] == From(ring, j)[BLOCK * b'..]
    ensures From(ring', i)[..BLOCK * b] == From(ring, i)[..BLOCK * b]
  {
    forall o | 0 <= o < BLOCK * b ensures From(ring', i)[o] == From(ring, i)[o] {
      var o' := o + BLOCK * (n - delta);
      SameByte(ring, n, i, j, delta, o);
      SameByte(ring', n, i, j, delta, o);
      assert From(ring', j)[o'] == From(ring', j)[BLOCK * b'..][o' - BLOCK * b'];
      assert From(ring, j)[o'] == From(ring, j)[BLOCK * b'..][o' - BLOCK * b'];
    }
  }

  lemma SameByte(ring: seq<byte>, n: nat, i: nat, j: nat, delta: nat, o: nat)
    requires |ring| == BLOCK * n && i < n && j < n && delta <= n && o < BLOCK * delta
    requires j == i + delta || j + n == i + delta
    ensures From(ring, i)[o] == From(ring, j)[o + BLOCK * (n - delta)]
  {
  }

  // ----- writes outside the ring -----------------------------------------------------------

  /** Where the lost pieces of the header are written, relative to the ring. */
  const LOST_AT := -26

  /** mlx5_inline_data in a memory that holds a ring of `ringLen` bytes at `base`. */
  function InlineDataMem(mem: seq<byte>, base: nat, ringLen: nat, idx: nat, offset: nat, data: seq<byte>): (r: seq<byte>)
    ensures |r| == |mem|
  {
    var p := InlineTarget(ringLen, idx, offset, |data|);
    if 0 <= ringLen - p < |data| then
      var first := ringLen - p;
      Put(Put(mem, base + p, data[..first]), base, data[first..])
    else
      Put(mem, base + p, data)
  }

  function InlineHeaderMem(mem: seq<byte>, base: nat, ringLen: nat, idx: nat, h: RequestHeader): (r: seq<byte>)
    ensures |r| == |mem|
  {
    var r0 := InlineDataMem(mem, base, ringLen, idx, 0, h.eth);
    var r1 := InlineDataMem(r0, base, ringLen, idx, |h.eth|, h.ipv4);
    var r2 := InlineDataMem(r1, base, ringLen, idx, |h.eth| + |h.ipv4|, h.udp);
    var r3 := InlineDataMem(r2, base, ringLen, idx, |h.eth| + |h.ipv4| + |h.udp|, h.packetId);
    InlineDataMem(r3, base, ringLen, idx, |h.eth| + |h.ipv4| + |h.udp| + |h.packetId|, h.checksum)
  }

  /** The ring of `n` blocks inside a memory. */
  ghost predicate RingIn(mem: seq<byte>, base: nat, n: nat) { base + LOST_AT >= 0 && base + BLOCK * n <= |mem| }

  /** The same bytes outside the ring, up to `d` at offset LOST_AT. */
  ghost predicate OutsideIs(mem: seq<byte>, mem': seq<byte>, base: nat, n: nat, d: seq<byte>) {
    && |mem'| == |mem|
    && forall x :: 0 <= x < |mem| && !(base <= x < base + BLOCK * n) ==>
      mem'[x] == if base + LOST_AT <= x < base + LOST_AT + |d| then d[x - base - LOST_AT] else mem[x]
  }

  lemma PutInWindow(mem: seq<byte>, base: nat, l: nat, p: int, d: seq<byte>)
    requires base + l <= |mem|
    ensures Put(mem, base + p, d)[base..base + l] == Put(mem[base..base + l], p, d)
  {
    hide Put;
    PutAt(mem, base + p, d);
    PutAt(mem[base..base + l], p, d);
  }

  /** In a memory that holds the ring, the ring bytes are those of the ring alone, wherever a piece goes. */
  lemma InlineWindow(mem: seq<byte>, base: nat, n: nat, idx: nat, offset: nat, data: seq<byte>)
    requires base + BLOCK * n <= |mem|
    ensures InlineDataMem(mem, base, BLOCK * n, idx, offset, data)[base..base + BLOCK * n]
         == InlineData(mem[base..base + BLOCK * n], idx, offset, data)
  {
    hide Put, InlineTarget;
    var l, p := BLOCK * n, InlineTarget(BLOCK * n, idx, offset, |data|);
    if 0 <= l - p < |data| {
      PutInWindow(mem, base, l, p, data[..l - p]);
      PutInWindow(Put(mem, base + p, data[..l - p]), base, l, 0, data[l - p..]);
    } else {
      PutInWindow(mem, base, l, p, data);
    }
  }

  /** A piece that ends before the end of the ring. */
  lemma PieceInside(mem: seq<byte>, base: nat, n: nat, idx: nat, offset: nat, data: seq<byte>)
    requires RingIn(mem, base, n) && idx < n && offset + |data| <= if idx + 1 == n then 34 else HEADER_LEN
    requires data != []
    ensures var mem' := InlineDataMem(mem, base, BLOCK * n, idx, offset, data);
      && mem'[base..base + BLOCK * n] == InlineData(mem[base..base + BLOCK * n], idx, offset, data)
      && OutsideIs(mem, mem', base, n, [])
  {
    hide Put;
    var p := BLOCK * idx + INLINE_START + offset;
    assert InlineTarget(BLOCK * n, idx, offset, |data|) == p;
    InlineWindow(mem, base, n, idx, offset, data);
    PutAt(mem, base + p, data);
  }

  lemma LostTarget(n: nat, offset: nat)
    requires n > 0 && offset >= 34
    ensures InlineTarget(BLOCK * n, n - 1, offset, 8) == LOST_AT
  {
  }

  lemma LostData(mem: seq<byte>, base: nat, n: nat, offset: nat, data: seq<byte>)
    requires n > 0 && offset >= 34 && |data| == 8 && base + BLOCK * n <= |mem|
    ensures InlineDataMem(mem, base, BLOCK * n, n - 1, offset, data) == Put(mem, base + LOST_AT, data)
    ensures InlineData(mem[base..base + BLOCK * n], n - 1, offset, data) == Put(mem[base..base + BLOCK * n], LOST_AT, data)
  {
    hide Put, InlineTarget;
    LostTarget(n, offset);
  }

  lemma PutInFront(mem: seq<byte>, base: nat, n: nat, d: seq<byte>)
    requires RingIn(mem, base, n) && |d| == 8
    ensures OutsideIs(mem, Put(mem, base + LOST_AT, d), base, n, d)
  {
    hide Put;
    PutAt(mem, base + LOST_AT, d);
  }

  /** A piece that should follow the end of the ring: it is written in front of the ring. */
  lemma PieceLost(mem: seq<byte>, base: nat, n: nat, offset: nat, data: seq<byte>)
    requires RingIn(mem, base, n) && n > 0 && offset >= 34 && |data| == 8
    ensures var mem' := InlineDataMem(mem, base, BLOCK * n, n - 1, offset, data);
      && mem'[base..base + BLOCK * n] == InlineData(mem[base..base + BLOCK * n], n - 1, offset, data)
      && OutsideIs(mem, mem', base, n, data)
  {
    hide Put, InlineDataMem, InlineData, OutsideIs;
    LostData(mem, base, n, offset, data);
    PutInWindow(mem, base, BLOCK * n, LOST_AT, data);
    PutInFront(mem, base, n, data);
  }

  /** Writing something else to the same place leaves the later bytes. */
  lemma OutsideAgain(m0: seq<byte>, m1: seq<byte>, m2: seq<byte>, base: nat, n: nat, d: seq<byte>, e: seq<byte>)
    requires RingIn(m0, base, n) && OutsideIs(m0, m1, base, n, d) && OutsideIs(m1, m2, base, n, e) && (e == [] || |d| <= |e|)
    ensures OutsideIs(m0, m2, base, n, if e == [] then d else e)
  {
  }

  /** Which bytes inlining a header writes: those of the ring are the modelled ones; outside the ring
      it writes nothing, except that in the last block the eight bytes at offset -26 end up holding the
      checksum field. */
  lemma WritesOutside(mem: seq<byte>, base: nat, n: nat, idx: nat, h: RequestHeader)
    requires RingIn(mem, base, n) && idx < n && h.Valid()
    ensures var mem' := InlineHeaderMem(mem, base, BLOCK * n, idx, h);
      && mem'[base..base + BLOCK * n] == InlineHeader(mem[base..base + BLOCK * n], idx, h)
      && OutsideIs(mem, mem', base, n, if idx + 1 == n then h.checksum else [])
  {
    hide InlineDataMem, InlineData, OutsideIs;
    var l := BLOCK * n;
    var r0 := InlineDataMem(mem, base, l, idx, 0, h.eth);
    var r1 := InlineDataMem(r0, base, l, idx, 14, h.ipv4);
    var r2 := InlineDataMem(r1, base, l, idx, 34, h.udp);
    var r3 := InlineDataMem(r2, base, l, idx, 42, h.packetId);
    var r4 := InlineDataMem(r3, base, l, idx, 50, h.checksum);
    PieceInside(mem, base, n, idx, 0, h.eth);
    PieceInside(r0, base, n, idx, 14, h.ipv4);
    OutsideAgain(mem, r0, r1, base, n, [], []);
    if idx + 1 == n {
      PieceLost(r1, base, n, 34, h.udp);
      PieceLost(r2, base, n, 42, h.packetId);
      PieceLost(r3, base, n, 50, h.checksum);
      OutsideAgain(mem, r1, r2, base, n, [], h.udp);
      OutsideAgain(mem, r2, r3, base, n, h.udp, h.packetId);
      OutsideAgain(mem, r3, r4, base, n, h.packetId, h.checksum);
    } else {
      PieceInside(r1, base, n, idx, 34, h.udp);
      PieceInside(r2, base, n, idx, 42, h.packetId);
      PieceInside(r3, base, n, idx, 50, h.checksum);
      OutsideAgain(mem, r1, r2, base, n, [], []);
      OutsideAgain(mem, r2, r3, base, n, [], []);
      OutsideAgain(mem, r3, r4, base, n, [], []);
    }
  }

  // ----- exactness of the inlined header ---------------------------------------------------

  ghost predicate CanSend(ring: seq<byte>, n: nat, h: RequestHeader, segs: seq<Seg>) {
    |ring| == BLOCK * n && h.Valid() && 0 < |segs| <= MAX_SCATTERS && Blocks(HEADER_LEN, |segs|) <= n
  }

  /** The header the device reads for a descriptor at block `idx`. */
  ghost function HeaderRead(ring: seq<byte>, n: nat, idx: nat, h: RequestHeader, segs: seq<Seg>): seq<byte>
    requires CanSend(ring, n, h, segs) && idx < n
  {
    Decode(From(Fill(ring, idx, 0, 0, Header(h), segs), idx)).inlined
  }

  /** Whatever was in the ring, the device reads the header that was to be inlined at `idx`. */
  ghost predicate HeaderExact(n: nat, idx: nat)
    requires idx < n
  {
    forall ring, h, segs | CanSend(ring, n, h, segs) :: HeaderRead(ring, n, idx, h, segs) == h.Bytes()
  }

  /** The header is inlined exactly if and only if the descriptor does not start in the last block
      of the ring: mlx5_inline_data takes the restart position from the length of the piece
      instead of its offset, and the pieces after the ring end are written in front of it. */
  lemma HeaderExactIff(n: nat, idx: nat)
    requires 2 <= n && idx < n
    ensures HeaderExact(n, idx) <==> idx + 1 != n
  {
    hide Put, CtrlBytes, SegBytes, Fill, Picture, EthBytes, Decode;
    if idx + 1 != n {
      forall ring, h, segs | CanSend(ring, n, h, segs)
        ensures HeaderRead(ring, n, idx, h, segs) == h.Bytes()
      {
        FillLayout(ring, n, idx, 0, 0, Header(h), segs);
        PictureDecodes(From(ring, idx), false, 0, 0, Header(h), segs);
      }
    } else {
      HeaderLost(n);
    }
  }

  lemma HeaderLost(n: nat)
    requires 2 <= n
    ensures !HeaderExact(n, n - 1)
  {
    var ring: seq<byte> := seq(BLOCK * n, _ => 0);
    var ones: seq<byte> := seq(20, _ => 1);
    var h := RequestHeader(ones[..14], ones, ones[..8], ones[..8], ones[..8]);
    var segs := [Seg(0, 0, 0)];
    assert CanSend(ring, n, h, segs);
    LostBytes(ring, n, h, segs);
    assert HeaderRead(ring, n, n - 1, h, segs)[34] == 0;
    assert h.Bytes()[34] == (h.eth + h.ipv4 + h.udp)[34] == h.udp[0] == 1;
  }

  /** In the last block the device reads the first bytes of the ring instead of the last pieces. */
  lemma LostBytes(ring: seq<byte>, n: nat, h: RequestHeader, segs: seq<Seg>)
    requires 2 <= n && CanSend(ring, n, h, segs)
    ensures HeaderRead(ring, n, n - 1, h, segs) == h.eth + h.ipv4 + ring[..24]
  {
    hide Put, CtrlBytes, EthBytes, SegBytes, Decode, Fill, Picture, HdrSegs;
    var v := From(ring, n - 1);
    FillLayout(ring, n, n - 1, 0, 0, Header(h), segs);
    PictureDecodes(v, true, 0, 0, Header(h), segs);
    assert v[64..88] == ring[..24];
  }
}
