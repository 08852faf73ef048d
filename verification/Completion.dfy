/** Completion queues and owner-bit polling (inc/mlx5.h).

    The device writes completion number p into slot p mod cqe_cnt and stamps it with the parity
    of its pass over the ring; the host polls with a 32-bit head and accepts a slot whose owner
    bit equals the parity of the head's pass. */
module Completion {
  import opened Bits

  const CQE_INVALID: byte := 15
  const CQE_REQ: byte := 0
  const CQE_RESP_SEND: byte := 2
  const CQE_REQ_ERR: byte := 13

  datatype Cqe = Cqe(opOwn: byte, wqeCounter: u16, byteCnt: u32)

  /** What the device reports about one finished descriptor. */
  datatype Report = Report(opcode: byte, wqeCounter: u16, byteCnt: u32)

  /** cqe_status: the parity is stored in a 16-bit variable. */
  function Status(cqe: Cqe, cqeCnt: nat, head: u32): byte {
    var parity := And(head, cqeCnt) % W16;
    var notParity := if parity == 0 then 1 else 0;
    if cqe.opOwn % 2 == notParity then CQE_INVALID else cqe.opOwn / 16
  }

  /** The slot the host looks at: head & (cqe_cnt - 1). */
  function Slot(cqeCnt: nat, head: u32): (slot: nat)
    requires cqeCnt > 0
    ensures slot < cqeCnt
  {
    And(head, cqeCnt - 1)
  }

  /** The owner bit of the device's pass over the ring. */
  function Owner(log: nat, p: nat): byte { if Bit(p, log) then 1 else 0 }

  /** The entry the device writes for completion number `p`. */
  function Entry(log: nat, p: nat, r: Report): Cqe
    requires r.opcode < 15
  {
    Cqe(r.opcode * 16 + Owner(log, p), r.wqeCounter, r.byteCnt)
  }

  /** The device's write into the ring. */
  function Produce(log: nat, cq: seq<Cqe>, p: nat, r: Report): (cq': seq<Cqe>)
    requires |cq| == Pow2(log) && r.opcode < 15
    ensures |cq'| == |cq|
  {
    cq[p % Pow2(log) := Entry(log, p, r)]
  }

  /** The ring after the device has produced exactly `reports`: the last cqe_cnt reports sit in
      their slots, and slots never written still belong to the hardware. */
  ghost predicate Ring(log: nat, cq: seq<Cqe>, reports: seq<Report>) {
    && |cq| == Pow2(log)
    && (forall p :: 0 <= p < |reports| ==> reports[p].opcode < 15)
    && (forall p :: 0 <= p < |reports| && |reports| - Pow2(log) <= p ==>
          cq[p % Pow2(log)] == Entry(log, p, reports[p]))
    && (forall s :: |reports| <= s < Pow2(log) ==> cq[s].opOwn % 2 == 1)
  }

  lemma Initially(log: nat, cq: seq<Cqe>)
    requires |cq| == Pow2(log) && forall s :: 0 <= s < |cq| ==> cq[s].opOwn % 2 == 1
    ensures Ring(log, cq, [])
  {
  }

  lemma ProduceKeepsRing(log: nat, cq: seq<Cqe>, reports: seq<Report>, r: Report)
    requires Ring(log, cq, reports) && r.opcode < 15
    ensures Ring(log, Produce(log, cq, |reports|, r), reports + [r])
  {
    var n, c := |reports|, Pow2(log);
    var cq' := Produce(log, cq, n, r);
    var reports' := reports + [r];
    forall p | 0 <= p < |reports'| && |reports'| - c <= p
      ensures cq'[p % c] == Entry(log, p, reports'[p])
    {
      if p < n { DistinctSlots(p, n, c); }
    }
    forall s | n + 1 <= s < c ensures cq'[s].opOwn % 2 == 1 {
      DivModUnique(n, c, 0, n);
    }
  }

  /** Positions less than one ring apart never share a slot. */
  lemma DistinctSlots(p: nat, q: nat, c: nat)
    requires c > 0 && p < q < p + c
    ensures p % c != q % c
  {
    if p % c == q % c {
      var d := q / c - p / c;
      assert c * d == q - p by { assert c * d == c * (q / c) - c * (p / c); }
      MulMagnitude(c, d);
    }
  }

  /** The pass parity that the host reads from its wrapped head is the device's. */
  lemma ParityBit(log: nat, h: nat)
    requires log <= 15
    ensures And(Wrap32(h), Pow2(log)) % W16 == if Owner(log, h) == 1 then Pow2(log) else 0
  {
    AndBit(Wrap32(h), log);
    Wrap32Bit(h, log);
    PowMonotone(log, 15);
    PowConstants();
    SmallMod(Pow2(log), W16);
  }

  lemma SlotOfHead(log: nat, h: nat)
    requires log <= 32
    ensures Slot(Pow2(log), Wrap32(h)) == h % Pow2(log) < Pow2(log)
  {
    CounterIndex(h, log);
  }

  /** A poll with host head `h` sees a finished completion. */
  predicate Accepts(log: nat, cq: seq<Cqe>, h: nat)
    requires log <= 32 && |cq| == Pow2(log)
  {
    SlotOfHead(log, h);
    Status(cq[Slot(Pow2(log), Wrap32(h))], Pow2(log), Wrap32(h)) != CQE_INVALID
  }

  /** One pass earlier the same slot carried the other owner bit; the first pass carries 0. */
  lemma OwnerFlips(log: nat, h: nat)
    ensures h < Pow2(log) ==> Owner(log, h) == 0 && h % Pow2(log) == h
    ensures h >= Pow2(log) ==>
      Owner(log, h - Pow2(log)) == 1 - Owner(log, h) && (h - Pow2(log)) % Pow2(log) == h % Pow2(log)
  {
    var c := Pow2(log);
    if h < c {
      SmallMod(h, c);
    } else {
      DivModUnique(h - c, c, h / c - 1, h % c);
    }
  }

  /** What cqe_status returns, by owner bit. */
  lemma StatusByOwner(log: nat, e: Cqe, h: nat)
    requires log <= 15
    ensures Status(e, Pow2(log), Wrap32(h)) == if e.opOwn % 2 == Owner(log, h) then e.opOwn / 16 else CQE_INVALID
  {
    ParityBit(log, h);
  }

  /** The slot of a completion that has not been produced yet looks stale. */
  lemma NextSlotStale(log: nat, cq: seq<Cqe>, reports: seq<Report>)
    requires Ring(log, cq, reports)
    ensures cq[|reports| % Pow2(log)].opOwn % 2 != Owner(log, |reports|)
  {
    var h, c := |reports|, Pow2(log);
    OwnerFlips(log, h);
    if h >= c {
      assert cq[(h - c) % c] == Entry(log, h - c, reports[h - c]);
      EntryFields(log, h - c, reports[h - c]);
    }
  }

  lemma EntryFields(log: nat, p: nat, r: Report)
    requires r.opcode < 15
    ensures Entry(log, p, r).opOwn % 2 == Owner(log, p) && Entry(log, p, r).opOwn / 16 == r.opcode
  {
  }

  /** Owner-bit polling: as long as no more than one ring of completions is unread, the host
      accepts completion h exactly when the device has produced it, and then reads its report. */
  lemma PollExact(log: nat, cq: seq<Cqe>, reports: seq<Report>, h: nat)
    requires log <= 15 && Ring(log, cq, reports)
    requires h <= |reports| <= h + Pow2(log)
    ensures Accepts(log, cq, h) <==> h < |reports|
    ensures Slot(Pow2(log), Wrap32(h)) < |cq|
    ensures h < |reports| ==>
      var e := cq[Slot(Pow2(log), Wrap32(h))];
      && Status(e, Pow2(log), Wrap32(h)) == reports[h].opcode
      && e.wqeCounter == reports[h].wqeCounter && e.byteCnt == reports[h].byteCnt
  {
    SlotOfHead(log, h);
    var e := cq[h % Pow2(log)];
    StatusByOwner(log, e, h);
    if h == |reports| {
      NextSlotStale(log, cq, reports);
    } else {
      EntryFields(log, h, reports[h]);
    }
  }

  /** Polling is right on every ring of 2^log entries, for every history and every head. */
  ghost predicate PollingExact(log: nat)
    requires log <= 31
  {
    forall cq, reports, h: nat | Ring(log, cq, reports) && h <= |reports| <= h + Pow2(log) ::
      Accepts(log, cq, h) <==> h < |reports|
  }

  /** The 16-bit parity variable of cqe_status limits the ring to 2^15 entries: larger rings
      misread a finished completion of the second pass. */
  lemma ParityWidth(log: nat)
    requires log <= 31
    ensures PollingExact(log) <==> log <= 15
  {
    if log <= 15 {
      forall cq, reports, h: nat | Ring(log, cq, reports) && h <= |reports| <= h + Pow2(log)
        ensures Accepts(log, cq, h) <==> h < |reports|
      {
        PollExact(log, cq, reports, h);
      }
    } else {
      SecondPassMissed(log);
    }
  }

  /** On a ring of 2^16 entries or more the stored parity is always zero. */
  lemma WideParity(log: nat, head: u32)
    requires 16 <= log
    ensures And(head, Pow2(log)) % W16 == 0
  {
    AndBit(head, log);
    PowAdd(16, log - 16);
    PowConstants();
    ModAddMultiple(0, Pow2(log - 16), W16);
    DivModUnique(0, W16, 0, 0);
  }

  /** A ring into which one full pass and the first entry of the second one were written. */
  lemma SecondPassRing(log: nat, cq: seq<Cqe>, reports: seq<Report>, r: Report)
    requires r.opcode < 15 && |reports| == Pow2(log) + 1 && |cq| == Pow2(log)
    requires forall p :: 0 <= p < |reports| ==> reports[p] == r
    requires forall s :: 0 <= s < |cq| ==> cq[s] == Entry(log, if s == 0 then Pow2(log) else s, r)
    ensures Ring(log, cq, reports)
  {
    var c := Pow2(log);
    DivModUnique(c, c, 1, 0);
    forall p | 0 <= p < |reports| && |reports| - c <= p ensures cq[p % c] == Entry(log, p, reports[p]) {
      if p < c { SmallMod(p, c); }
    }
  }

  lemma SecondPassMissed(log: nat)
    requires 16 <= log <= 31
    ensures !PollingExact(log)
  {
    var c := Pow2(log);
    var r := Report(CQE_REQ, 0, 0);
    var reports := seq(c + 1, _ => r);
    var cq := seq(c, s requires 0 <= s => Entry(log, if s == 0 then c else s, r));
    SecondPassRing(log, cq, reports, r);
    SlotOfHead(log, c);
    WideParity(log, Wrap32(c));
    EntryFields(log, c, r);
    DivModUnique(c, c, 1, 0);
    assert cq[0] == Entry(log, c, r);
    assert !Accepts(log, cq, c);
  }
}
