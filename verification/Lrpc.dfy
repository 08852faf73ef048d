/** LRPC channels (inc/base/lrpc.h): one sender, one receiver, a shared table whose entries carry
    a parity bit for the pass over the table, and a head the receiver writes back.

    Every access to shared memory is one step; the steps of the two sides interleave freely. */
module Lrpc {
  import opened Bits
  import opened Completion

  const DONE_PARITY: u64 := 0x8000_0000_0000_0000

  datatype Msg = Msg(cmd: u64, payload: u64)

  /** One table entry. */
  datatype Entry64 = Entry64(cmd: u64, payload: u64)

  datatype Sender = SendIdle | Publishing(slot: nat, word: u64, msg: Msg)
  datatype Receiver = RecvIdle | Loaded(slot: nat, word: u64) | Read

  datatype Chan = Chan(
    // shared memory
    tbl: seq<Entry64>, headWb: u32,
    // sender
    sendHead: u32, sendTail: u32, sender: Sender,
    // receiver
    recvHead: u32, receiver: Receiver,
    // history: published messages, received messages, and how far the other side knows
    sent: seq<Msg>, received: seq<Msg>, written: nat, polled: nat)

  // ----- the code's expressions ------------------------------------------------------------

  /** The slot of a head: head & (size - 1). */
  function SlotOf(size: nat, head: u32): (s: nat)
    requires size > 0
    ensures s < size
  {
    And(head, size - 1)
  }

  /** (head & size) ? 0 : LRPC_DONE_PARITY */
  function ParityOf(size: nat, head: u32): u64 { if And(head, size) != 0 then 0 else DONE_PARITY }

  /** send_head - send_tail >= size: the sender believes the table is full. */
  predicate LooksFull(size: nat, c: Chan) { Wrap32(c.sendHead - c.sendTail) >= size }

  /** lrpc_get_cached_send_window */
  function CachedWindow(size: u32, c: Chan): u32 { Wrap32(size - c.sendHead + c.sendTail) }

  /** lrpc_get_cached_length */
  function CachedLength(c: Chan): u32 { Wrap32(c.sendHead - c.sendTail) }

  /** The parity bit of a command word: word & LRPC_DONE_PARITY. */
  function ParityIn(word: u64): u64 { if word >= DONE_PARITY then DONE_PARITY else 0 }

  /** word & LRPC_CMD_MASK */
  function CmdIn(word: u64): u64 { word % DONE_PARITY }

  /** lrpc_empty */
  predicate Empty(c: Chan)
    requires |c.tbl| > 0
  {
    ParityIn(c.tbl[SlotOf(|c.tbl|, c.recvHead)].cmd) != ParityOf(|c.tbl|, c.recvHead)
  }

  // ----- steps -----------------------------------------------------------------------------

  datatype Step =
    | SendBegin(msg: Msg)   // lrpc_send up to and including the payload write
    | SendPublish           // the release store of the command
    | PollTail              // lrpc_poll_send_tail
    | RecvLoad              // lrpc_recv: load the command, compare the parity
    | RecvRead              // read the payload
    | RecvWriteBack         // the release store of the head

  ghost predicate Enabled(c: Chan, s: Step) {
    match s
    case SendBegin(msg) => c.sender.SendIdle? && msg.cmd < DONE_PARITY && !LooksFull(|c.tbl|, c)
    case SendPublish => c.sender.Publishing?
    case PollTail => c.sender.SendIdle?
    case RecvLoad => c.receiver.RecvIdle?
    case RecvRead => c.receiver.Loaded?
    case RecvWriteBack => c.receiver.Read?
  }

  function Do(c: Chan, s: Step): (c': Chan)
    requires |c.tbl| > 0
    ensures |c'.tbl| == |c.tbl|
  {
    match s
    case SendBegin(msg) => Begin(c, msg)
    case SendPublish => Publish(c)
    case PollTail => c.(sendTail := c.headWb, polled := c.written)
    case RecvLoad => if Empty(c) then c else Load(c)
    case RecvRead => ReadPayload(c)
    case RecvWriteBack => c.(headWb := c.recvHead, receiver := RecvIdle, written := |c.received|)
  }

  function Begin(c: Chan, msg: Msg): (c': Chan)
    requires |c.tbl| > 0
    ensures |c'.tbl| == |c.tbl|
  {
    var dst := SlotOf(|c.tbl|, c.sendHead);
    c.(sendHead := Wrap32(c.sendHead + 1),
       tbl := c.tbl[dst := c.tbl[dst].(payload := msg.payload)],
       sender := Publishing(dst, (msg.cmd % DONE_PARITY) + ParityOf(|c.tbl|, c.sendHead), msg))
  }

  function Publish(c: Chan): (c': Chan)
    ensures |c'.tbl| == |c.tbl|
  {
    if c.sender.Publishing? && c.sender.slot < |c.tbl| then
      c.(tbl := c.tbl[c.sender.slot := c.tbl[c.sender.slot].(cmd := c.sender.word)],
         sent := c.sent + [c.sender.msg], sender := SendIdle)
    else c
  }

  function Load(c: Chan): (c': Chan)
    requires |c.tbl| > 0
    ensures |c'.tbl| == |c.tbl|
  {
    var m := SlotOf(|c.tbl|, c.recvHead);
    c.(recvHead := Wrap32(c.recvHead + 1), receiver := Loaded(m, c.tbl[m].cmd))
  }

  function ReadPayload(c: Chan): (c': Chan)
    ensures |c'.tbl| == |c.tbl|
  {
    if c.receiver.Loaded? && c.receiver.slot < |c.tbl| then
      c.(received := c.received + [Msg(CmdIn(c.receiver.word), c.tbl[c.receiver.slot].payload)], receiver := Read)
    else c
  }

  // ----- the invariant ---------------------------------------------------------------------

  /** The command word of message number `i`. */
  function Word(k: nat, i: nat, m: Msg): u64
    requires m.cmd < DONE_PARITY
  {
    m.cmd + if Bit(i, k) then 0 else DONE_PARITY
  }

  /** Messages taken out of the table, counting one whose payload is still to be read. */
  function Taken(c: Chan): nat { |c.received| + if c.receiver.Loaded? then 1 else 0 }

  /** Messages put into the table, counting one whose command is still to be written. */
  function Put(c: Chan): nat { |c.sent| + if c.sender.Publishing? then 1 else 0 }

  ghost predicate Heads(k: nat, c: Chan) {
    && c.polled <= c.written <= |c.received| && Taken(c) <= |c.sent| && Put(c) <= c.polled + Pow2(k)
    && c.sendHead == Wrap32(Put(c)) && c.sendTail == Wrap32(c.polled)
    && c.recvHead == Wrap32(Taken(c)) && c.headWb == Wrap32(c.written)
    && (c.receiver.RecvIdle? ==> c.written == |c.received|)
  }

  /** The last `size` messages' commands are in their slots; slots never written have parity 0. */
  ghost predicate Commands(k: nat, c: Chan)
    requires |c.tbl| == Pow2(k)
  {
    && (forall i :: 0 <= i < |c.sent| ==> c.sent[i].cmd < DONE_PARITY)
    && (forall i :: 0 <= i < |c.sent| && |c.sent| - Pow2(k) <= i ==> c.tbl[i % Pow2(k)].cmd == Word(k, i, c.sent[i]))
    && (forall s :: |c.sent| <= s < Pow2(k) ==> c.tbl[s].cmd < DONE_PARITY)
  }

  /** Payloads are intact until the slot is reused; the one being sent is in place. */
  ghost predicate Payloads(k: nat, c: Chan)
    requires |c.tbl| == Pow2(k)
  {
    forall i :: 0 <= i < |c.sent| && Put(c) - Pow2(k) <= i ==> c.tbl[i % Pow2(k)].payload == c.sent[i].payload
  }

  ghost predicate InProgress(k: nat, c: Chan)
    requires |c.tbl| == Pow2(k) && Taken(c) <= |c.sent|
  {
    && (c.sender.Publishing? ==>
          var n := |c.sent|;
          && c.sender.slot == n % Pow2(k) < |c.tbl| && c.sender.msg.cmd < DONE_PARITY
          && c.sender.word == Word(k, n, c.sender.msg) && c.tbl[c.sender.slot].payload == c.sender.msg.payload)
    && (c.receiver.Loaded? ==>
          var r := |c.received|;
          && c.receiver.slot == r % Pow2(k) < |c.tbl| && c.sent[r].cmd < DONE_PARITY && c.receiver.word == Word(k, r, c.sent[r]))
  }

  /** What has been received is what was sent, in order. */
  ghost predicate Fifo(c: Chan) { c.received <= c.sent }

  ghost predicate Inv(k: nat, c: Chan) {
    && k <= 31 && |c.tbl| == Pow2(k) && Heads(k, c)
    && Commands(k, c) && Payloads(k, c) && InProgress(k, c) && Fifo(c)
  }

  /** A fresh channel: zeroed table and heads. */
  ghost predicate Init(k: nat, c: Chan) {
    && k <= 31 && |c.tbl| == Pow2(k) && (forall i :: 0 <= i < |c.tbl| ==> c.tbl[i].cmd == 0)
    && c.headWb == c.sendHead == c.sendTail == c.recvHead == 0
    && c.sender == SendIdle && c.receiver == RecvIdle && c.sent == [] && c.received == [] && c.written == c.polled == 0
  }

  lemma InitInv(k: nat, c: Chan)
    requires Init(k, c)
    ensures Inv(k, c)
  {
  }

  // ----- arithmetic of heads ---------------------------------------------------------------

  lemma SlotExact(k: nat, n: nat)
    requires k <= 31
    ensures SlotOf(Pow2(k), Wrap32(n)) == n % Pow2(k) < Pow2(k)
  {
    SlotOfHead(k, n);
  }

  lemma ParityExact(k: nat, n: nat)
    requires k <= 31
    ensures ParityOf(Pow2(k), Wrap32(n)) == if Bit(n, k) then 0 else DONE_PARITY
  {
    AndBit(Wrap32(n), k);
    Wrap32Bit(n, k);
  }

  lemma WordParts(k: nat, i: nat, m: Msg)
    requires m.cmd < DONE_PARITY
    ensures CmdIn(Word(k, i, m)) == m.cmd
    ensures ParityIn(Word(k, i, m)) == if Bit(i, k) then 0 else DONE_PARITY
  {
  }

  lemma SizeBound(k: nat)
    requires k <= 31
    ensures Pow2(k) <= 0x8000_0000
  {
    PowMonotone(k, 31);
    PowConstants();
  }

  /** The sender's view of how full the table is. */
  lemma LengthExact(k: nat, c: Chan)
    requires k <= 31 && Heads(k, c)
    ensures CachedLength(c) == Put(c) - c.polled <= Pow2(k)
    ensures LooksFull(Pow2(k), c) <==> Put(c) == c.polled + Pow2(k)
  {
    hide Pow2;
    SizeBound(k);
    WrapDifference(Put(c), c.polled);
  }

  /** lrpc_get_cached_send_window never promises more slots than are free. */
  lemma WindowExact(k: nat, c: Chan)
    requires k <= 31 && Heads(k, c)
    ensures Pow2(k) < W32
    ensures CachedWindow(Pow2(k), c) == Pow2(k) - (Put(c) - c.polled)
    ensures CachedWindow(Pow2(k), c) <= Pow2(k) - (Put(c) - |c.received|)
  {
    hide Pow2;
    SizeBound(k);
    var d := Pow2(k) - (Put(c) - c.polled);
    var a, b := Put(c), c.polled;
    assert Pow2(k) - c.sendHead + c.sendTail == W32 * (a / W32 - b / W32) + d;
    DivModUnique(Pow2(k) - c.sendHead + c.sendTail, W32, a / W32 - b / W32, d);
  }

  // ----- every step keeps the invariant ----------------------------------------------------

  /** The receiver sees a message exactly when one is published and not taken. */
  lemma EmptyExact(k: nat, c: Chan)
    requires Inv(k, c) && c.receiver.RecvIdle?
    ensures Empty(c) <==> |c.received| == |c.sent|
    ensures !Empty(c) ==>
      var r := |c.received|; r % Pow2(k) < |c.tbl| && c.tbl[r % Pow2(k)].cmd == Word(k, r, c.sent[r])
  {
    hide Payloads, InProgress, Pow2, Bit;
    var r := |c.received|;
    SlotExact(k, r);
    ParityExact(k, r);
    if r < |c.sent| {
      WordParts(k, r, c.sent[r]);
    } else {
      PreviousPass(k, c);
    }
  }

  /** The slot of the next message still carries the other parity. */
  lemma PreviousPass(k: nat, c: Chan)
    requires |c.tbl| == Pow2(k) && Commands(k, c)
    ensures 0 <= |c.sent| % Pow2(k) < |c.tbl|
    ensures ParityIn(c.tbl[|c.sent| % Pow2(k)].cmd) != if Bit(|c.sent|, k) then 0 else DONE_PARITY
  {
    var n, size := |c.sent|, Pow2(k);
    OwnerFlips(k, n);
    if n >= size {
      WordParts(k, n - size, c.sent[n - size]);
    }
  }

  lemma BeginKeeps(k: nat, c: Chan, msg: Msg)
    requires Inv(k, c) && Enabled(c, SendBegin(msg))
    ensures Inv(k, Begin(c, msg))
  {
    hide Pow2, Bit, And, Commands, Payloads, Wrap32;
    var c', n := Begin(c, msg), |c.sent|;
    LengthExact(k, c);
    SlotExact(k, n);
    ParityExact(k, n);
    WrapSum(n, 1);
    PayloadWritten(k, c, c', n % Pow2(k), msg.payload);
  }

  /** Writing the payload of the next slot. */
  lemma PayloadWritten(k: nat, c: Chan, c': Chan, dst: nat, payload: u64)
    requires |c.tbl| == Pow2(k) && Commands(k, c) && Payloads(k, c)
    requires dst == |c.sent| % Pow2(k) < |c.tbl| && c.sender.SendIdle? && c'.sender.Publishing?
    requires c'.tbl == c.tbl[dst := c.tbl[dst].(payload := payload)] && c'.sent == c.sent
    ensures Commands(k, c') && Payloads(k, c')
  {
    hide Pow2, Bit;
    var n := |c.sent|;
    forall i | 0 <= i < n && n + 1 - Pow2(k) <= i ensures c'.tbl[i % Pow2(k)].payload == c.sent[i].payload {
      DistinctSlots(i, n, Pow2(k));
    }
  }

  lemma PublishKeeps(k: nat, c: Chan)
    requires Inv(k, c) && c.sender.Publishing?
    ensures Inv(k, Publish(c))
  {
    hide Pow2, Bit, Commands, Payloads, Word;
    PublishCommands(k, c);
    PublishPayloads(k, c);
  }

  lemma PublishCommands(k: nat, c: Chan)
    requires |c.tbl| == Pow2(k) && Taken(c) <= |c.sent| && Commands(k, c) && InProgress(k, c) && c.sender.Publishing?
    ensures Commands(k, Publish(c))
  {
    hide Pow2, Bit, Word;
    var c', n := Publish(c), |c.sent|;
    forall i | 0 <= i < n && n + 1 - Pow2(k) <= i ensures c'.tbl[i % Pow2(k)].cmd == Word(k, i, c.sent[i]) {
      DistinctSlots(i, n, Pow2(k));
    }
    forall s | n + 1 <= s < Pow2(k) ensures c'.tbl[s].cmd < DONE_PARITY {
      SmallMod(n, Pow2(k));
    }
  }

  lemma PublishPayloads(k: nat, c: Chan)
    requires |c.tbl| == Pow2(k) && Taken(c) <= |c.sent| && Payloads(k, c) && InProgress(k, c) && c.sender.Publishing?
    ensures Payloads(k, Publish(c))
  {
    hide Pow2, Bit, Word;
    var c', n := Publish(c), |c.sent|;
    forall i | 0 <= i < n + 1 && n + 1 - Pow2(k) <= i ensures c'.tbl[i % Pow2(k)].payload == c'.sent[i].payload {
      if i < n { DistinctSlots(i, n, Pow2(k)); }
    }
  }

  lemma LoadKeeps(k: nat, c: Chan)
    requires Inv(k, c) && c.receiver.RecvIdle? && !Empty(c)
    ensures Inv(k, Load(c))
  {
    hide Pow2, Bit, And, Payloads;
    EmptyExact(k, c);
    SlotExact(k, |c.received|);
    WrapSum(|c.received|, 1);
    PayloadsSame(k, c, Load(c));
  }

  lemma PayloadsSame(k: nat, c: Chan, c': Chan)
    requires |c.tbl| == Pow2(k) && Payloads(k, c) && c'.tbl == c.tbl && c'.sent == c.sent && c'.sender == c.sender
    ensures Payloads(k, c')
  {
  }

  lemma ReadMessage(k: nat, c: Chan)
    requires Inv(k, c) && c.receiver.Loaded?
    ensures |c.received| < |c.sent|
    ensures ReadPayload(c) == c.(received := c.received + [c.sent[|c.received|]], receiver := Read)
  {
    hide Pow2, Bit;
    var r := |c.received|;
    WordParts(k, r, c.sent[r]);
    assert c.tbl[r % Pow2(k)].payload == c.sent[r].payload;
  }

  lemma ReadKeeps(k: nat, c: Chan)
    requires Inv(k, c) && c.receiver.Loaded?
    ensures Inv(k, ReadPayload(c)) && ReadPayload(c).received == c.received + [c.sent[|c.received|]]
  {
    hide Pow2, Bit, Commands, Payloads, Word;
    var r := |c.received|;
    ReadMessage(k, c);
    assert c.sent[..r + 1] == c.sent[..r] + [c.sent[r]];
    PayloadsSame(k, c, ReadPayload(c));
    CommandsSame(k, c, ReadPayload(c));
  }

  lemma PollKeeps(k: nat, c: Chan)
    requires Inv(k, c) && c.sender.SendIdle?
    ensures |c.tbl| > 0 && Inv(k, Do(c, PollTail))
  {
    hide Pow2, Bit, Commands, Payloads, Word;
    PayloadsSame(k, c, Do(c, PollTail));
    CommandsSame(k, c, Do(c, PollTail));
  }

  lemma WriteBackKeeps(k: nat, c: Chan)
    requires Inv(k, c) && c.receiver.Read?
    ensures |c.tbl| > 0 && Inv(k, Do(c, RecvWriteBack))
  {
    hide Pow2, Bit, Commands, Payloads, Word;
    PayloadsSame(k, c, Do(c, RecvWriteBack));
    CommandsSame(k, c, Do(c, RecvWriteBack));
  }

  lemma TableSize(k: nat, c: Chan)
    requires Inv(k, c)
    ensures |c.tbl| == Pow2(k)
  {
  }

  lemma StepKeeps(k: nat, c: Chan, s: Step)
    requires Inv(k, c) && Enabled(c, s)
    ensures |c.tbl| > 0 && Inv(k, Do(c, s))
    ensures c.sent <= Do(c, s).sent && c.received <= Do(c, s).received
  {
    hide Inv, Pow2, Begin, Publish, Load, ReadPayload, Empty;
    TableSize(k, c);
    Histories(k, c, s);
    match s
    case SendBegin(msg) => BeginKeeps(k, c, msg);
    case SendPublish => PublishKeeps(k, c);
    case PollTail => PollKeeps(k, c);
    case RecvLoad => if !Empty(c) { LoadKeeps(k, c); }
    case RecvRead => ReadKeeps(k, c);
    case RecvWriteBack => WriteBackKeeps(k, c);
  }

  lemma CommandsSame(k: nat, c: Chan, c': Chan)
    requires |c.tbl| == Pow2(k) && Commands(k, c) && c'.tbl == c.tbl && c'.sent == c.sent
    ensures Commands(k, c')
  {
  }

  /** Histories only grow. */
  lemma Histories(k: nat, c: Chan, s: Step)
    requires |c.tbl| > 0
    ensures c.sent <= Do(c, s).sent && c.received <= Do(c, s).received
  {
  }

  // ----- runs ------------------------------------------------------------------------------

  function Run(c: Chan, steps: seq<Step>): (t: Chan)
    requires |c.tbl| > 0
    ensures |t.tbl| == |c.tbl|
    decreases |steps|
  {
    if steps == [] then c else Do(Run(c, steps[..|steps| - 1]), steps[|steps| - 1])
  }

  ghost predicate Legal(c: Chan, steps: seq<Step>)
    requires |c.tbl| > 0
    decreases |steps|
  {
    steps != [] ==>
      Legal(c, steps[..|steps| - 1]) && Enabled(Run(c, steps[..|steps| - 1]), steps[|steps| - 1])
  }

  /** A run is its steps one after the other. */
  lemma RunSteps(c: Chan, steps: seq<Step>, step: Step)
    requires |c.tbl| > 0
    ensures Run(c, []) == c && Run(c, steps + [step]) == Do(Run(c, steps), step)
    ensures Legal(c, []) && (Legal(c, steps + [step]) <==> Legal(c, steps) && Enabled(Run(c, steps), step))
  {
    hide Do, Enabled;
    assert (steps + [step])[..|steps|] == steps;
  }

  /** Every interleaving, of any length, on a table of any power-of-two size up to 2^31: what is
      received is a prefix of what was sent; no message is lost, repeated or torn. */
  lemma {:induction false} EveryRun(k: nat, c: Chan, steps: seq<Step>)
    requires Init(k, c) && Legal(c, steps)
    ensures Inv(k, Run(c, steps)) && Run(c, steps).received <= Run(c, steps).sent
    decreases |steps|
  {
    hide Pow2, Do, Enabled;
    if steps == [] {
      InitInv(k, c);
    } else {
      EveryRun(k, c, steps[..|steps| - 1]);
      StepKeeps(k, Run(c, steps[..|steps| - 1]), steps[|steps| - 1]);
    }
  }

  /** Once the tail is polled and the receiver is idle, sending is refused exactly when the table
      holds as many unreceived messages as it has slots. */
  lemma FullExact(k: nat, c: Chan)
    requires Inv(k, c) && c.sender.SendIdle? && c.receiver.RecvIdle?
    ensures LooksFull(|c.tbl|, Do(c, PollTail)) <==> |c.sent| - |c.received| == Pow2(k)
  {
    hide Pow2;
    StepKeeps(k, c, PollTail);
    LengthExact(k, Do(c, PollTail));
  }

  /** A receive that runs to its end hands over the oldest message that was not received. */
  lemma ReceiveExact(k: nat, c: Chan)
    requires Inv(k, c) && c.receiver.RecvIdle? && |c.received| < |c.sent|
    ensures var c' := Do(Do(Do(c, RecvLoad), RecvRead), RecvWriteBack);
      c'.received == c.received + [c.sent[|c.received|]] && c'.receiver.RecvIdle? && Inv(k, c')
  {
    hide Pow2, Commands, Payloads, Empty, Begin, Publish, ReadPayload, Heads;
    EmptyExact(k, c);
    StepKeeps(k, c, RecvLoad);
    var c1 := Do(c, RecvLoad);
    assert c1.receiver.Loaded? && c1.received == c.received && c1.sent == c.sent;
    ReadKeeps(k, c1);
    StepKeeps(k, c1, RecvRead);
    ReadDone(c1);
    StepKeeps(k, Do(c1, RecvRead), RecvWriteBack);
  }

  lemma ReadDone(c: Chan)
    requires c.receiver.Loaded? && c.receiver.slot < |c.tbl|
    ensures ReadPayload(c).receiver.Read?
  {
  }

  // ----- the two ends ----------------------------------------------------------------------

  /** The memory both ends map. */
  class Shared {
    const tbl: array<Entry64>
    var headWb: u32
    ghost var sent: seq<Msg>
    ghost var received: seq<Msg>
    ghost var written: nat

    constructor (size: nat)
      ensures fresh(tbl) && tbl.Length == size && headWb == 0
      ensures forall i :: 0 <= i < size ==> tbl[i].cmd == 0
      ensures sent == [] && received == [] && written == 0
    {
      tbl := new Entry64[size](_ => Entry64(0, 0));
      headWb := 0;
      sent, received, written := [], [], 0;
    }
  }

  /** struct lrpc_chan_in */
  class ChanIn {
    const shared: Shared
    var recvHead: u32
    ghost var receiver: Receiver

    constructor (shared: Shared)
      ensures this.shared == shared && recvHead == 0 && receiver == RecvIdle
    {
      this.shared, recvHead, receiver := shared, 0, RecvIdle;
    }

    /** lrpc_recv, taken in three steps: the sender may act between any two of them. */
    method Load(ghost peer: ChanOut, ghost k: nat) returns (ok: bool, slot: nat, word: u64)
      requires peer.shared == shared && Inv(k, View(peer, this)) && receiver.RecvIdle?
      modifies this
      ensures Inv(k, View(peer, this)) && View(peer, this) == Do(old(View(peer, this)), RecvLoad)
      ensures ok <==> |shared.received| < |shared.sent|
      ensures if ok then receiver == Loaded(slot, word) && slot < shared.tbl.Length else receiver.RecvIdle?
    {
      hide Pow2, Commands, Payloads, Heads, InProgress, And;
      ghost var c := View(peer, this);
      EmptyExact(k, c);
      StepKeeps(k, c, RecvLoad);
      slot := SlotOf(shared.tbl.Length, recvHead);
      var parity := ParityOf(shared.tbl.Length, recvHead);
      word := shared.tbl[slot].cmd;
      ok := ParityIn(word) == parity;
      if ok {
        recvHead := Wrap32(recvHead + 1);
        receiver := Loaded(slot, word);
      }
      assert View(peer, this) == Do(c, RecvLoad);
    }

    method ReadOut(slot: nat, word: u64, ghost peer: ChanOut, ghost k: nat) returns (cmd: u64, payload: u64)
      requires peer.shared == shared && Inv(k, View(peer, this)) && receiver == Loaded(slot, word) && slot < shared.tbl.Length
      modifies this, shared`received
      ensures Inv(k, View(peer, this)) && View(peer, this) == Do(old(View(peer, this)), RecvRead)
      ensures |old(shared.received)| < |shared.sent| && Msg(cmd, payload) == shared.sent[|old(shared.received)|]
      ensures receiver.Read?
    {
      hide Pow2, Commands, Payloads, Heads;
      ghost var c := View(peer, this);
      ReadKeeps(k, c);
      TakenInside(k, c);
      cmd := CmdIn(word);
      payload := shared.tbl[slot].payload;
      shared.received := shared.received + [Msg(cmd, payload)];
      receiver := Read;
      assert View(peer, this) == Do(c, RecvRead);
    }

    method WriteBack(ghost peer: ChanOut, ghost k: nat)
      requires peer.shared == shared && Inv(k, View(peer, this)) && receiver.Read?
      modifies this, shared`headWb, shared`written
      ensures Inv(k, View(peer, this)) && View(peer, this) == Do(old(View(peer, this)), RecvWriteBack)
      ensures receiver.RecvIdle?
    {
      hide Pow2, Commands, Payloads, Heads, InProgress;
      ghost var c := View(peer, this);
      StepKeeps(k, c, RecvWriteBack);
      shared.headWb := recvHead;
      shared.written := |shared.received|;
      receiver := RecvIdle;
      assert View(peer, this) == Do(c, RecvWriteBack);
    }

    /** lrpc_recv without interruption: the oldest message not yet received, if there is one. */
    method Recv(ghost peer: ChanOut, ghost k: nat) returns (ok: bool, cmd: u64, payload: u64)
      requires peer.shared == shared && Inv(k, View(peer, this)) && receiver.RecvIdle?
      modifies this, shared`received, shared`headWb, shared`written
      ensures Inv(k, View(peer, this)) && receiver.RecvIdle?
      ensures ok <==> |old(shared.received)| < |shared.sent|
      ensures shared.received == if ok then old(shared.received) + [Msg(cmd, payload)] else old(shared.received)
      ensures shared.received <= shared.sent
    {
      hide Pow2, Commands, Payloads, Heads, InProgress;
      cmd, payload := 0, 0;
      var slot, word;
      ok, slot, word := Load(peer, k);
      if ok {
        cmd, payload := ReadOut(slot, word, peer, k);
        WriteBack(peer, k);
      }
    }
  }

  lemma TakenInside(k: nat, c: Chan)
    requires Inv(k, c) && c.receiver.Loaded?
    ensures |c.received| < |c.sent|
  {
  }

  /** struct lrpc_chan_out */
  class ChanOut {
    const shared: Shared
    var sendHead: u32
    var sendTail: u32
    ghost var sender: Sender
    ghost var polled: nat

    constructor (shared: Shared)
      ensures this.shared == shared && sendHead == sendTail == 0 && sender == SendIdle && polled == 0
    {
      this.shared, sendHead, sendTail, sender, polled := shared, 0, 0, SendIdle, 0;
    }

    /** The part of lrpc_send up to the payload write. */
    method BeginSend(cmd: u64, payload: u64, ghost peer: ChanIn, ghost k: nat) returns (dst: nat, word: u64)
      requires peer.shared == shared && Inv(k, View(this, peer)) && sender.SendIdle? && cmd < DONE_PARITY
      requires !LooksFull(shared.tbl.Length, View(this, peer))
      modifies this, shared.tbl
      ensures Inv(k, View(this, peer)) && View(this, peer) == Do(old(View(this, peer)), SendBegin(Msg(cmd, payload)))
      ensures sender == Publishing(dst, word, Msg(cmd, payload)) && dst < shared.tbl.Length
    {
      hide Pow2, Commands, Payloads, Heads, InProgress, And;
      ghost var c := View(this, peer);
      BeginKeeps(k, c, Msg(cmd, payload));
      dst := SlotOf(shared.tbl.Length, sendHead);
      word := cmd % DONE_PARITY + ParityOf(shared.tbl.Length, sendHead);
      sendHead := Wrap32(sendHead + 1);
      shared.tbl[dst] := shared.tbl[dst].(payload := payload);
      sender := Publishing(dst, word, Msg(cmd, payload));
      assert View(this, peer) == Do(c, SendBegin(Msg(cmd, payload)));
    }

    /** The release store of lrpc_send. */
    method PublishSend(dst: nat, word: u64, ghost peer: ChanIn, ghost k: nat)
      requires peer.shared == shared && Inv(k, View(this, peer)) && sender.Publishing?
      requires sender.slot == dst < shared.tbl.Length && sender.word == word
      modifies this`sender, shared`sent, shared.tbl
      ensures Inv(k, View(this, peer)) && View(this, peer) == Do(old(View(this, peer)), SendPublish)
      ensures shared.sent == old(shared.sent) + [old(sender).msg] && sender.SendIdle?
    {
      hide Pow2, Commands, Payloads, Heads, InProgress;
      ghost var c := View(this, peer);
      PublishKeeps(k, c);
      shared.tbl[dst] := shared.tbl[dst].(cmd := word);
      shared.sent := shared.sent + [sender.msg];
      sender := SendIdle;
      assert View(this, peer) == Do(c, SendPublish);
    }

    /** lrpc_poll_send_tail */
    method Poll(ghost peer: ChanIn, ghost k: nat) returns (tail: u32)
      requires peer.shared == shared && Inv(k, View(this, peer)) && sender.SendIdle?
      modifies this`sendTail, this`polled
      ensures Inv(k, View(this, peer)) && View(this, peer) == Do(old(View(this, peer)), PollTail)
      ensures tail == sendTail
    {
      hide Pow2, Commands, Payloads, Heads, InProgress;
      ghost var c := View(this, peer);
      StepKeeps(k, c, PollTail);
      sendTail := shared.headWb;
      polled := shared.written;
      tail := sendTail;
      assert View(this, peer) == Do(c, PollTail);
    }

    /** lrpc_send without interruption; when the table looks full the tail is polled once more
        before giving up. With an idle receiver it fails exactly when the table is full. */
    method Send(cmd: u64, payload: u64, ghost peer: ChanIn, ghost k: nat) returns (ok: bool)
      requires peer.shared == shared && Inv(k, View(this, peer)) && sender.SendIdle? && cmd < DONE_PARITY
      modifies this, shared`sent, shared.tbl
      ensures Inv(k, View(this, peer)) && sender.SendIdle?
      ensures shared.sent == if ok then old(shared.sent) + [Msg(cmd, payload)] else old(shared.sent)
      ensures peer.receiver.RecvIdle? ==> (ok <==> |old(shared.sent)| - |shared.received| < Pow2(k))
    {
      hide Pow2, Commands, Payloads, Heads, InProgress, LooksFull;
      ghost var c := View(this, peer);
      if peer.receiver.RecvIdle? { FullExact(k, c); FullIsReal(k, c); }
      if Wrap32(sendHead - sendTail) >= shared.tbl.Length {
        var tail := Poll(peer, k);
        if Wrap32(sendHead - sendTail) >= shared.tbl.Length {
          SameFull(peer);
          return false;
        }
      }
      SameFull(peer);
      var dst, word := BeginSend(cmd, payload, peer, k);
      PublishSend(dst, word, peer, k);
      ok := true;
    }

    lemma SameFull(peer: ChanIn)
      ensures LooksFull(shared.tbl.Length, View(this, peer)) <==> Wrap32(sendHead - sendTail) >= shared.tbl.Length
    {
    }
  }

  /** A table that does not look full has room. */
  lemma FullIsReal(k: nat, c: Chan)
    requires Inv(k, c) && c.sender.SendIdle? && c.receiver.RecvIdle?
    ensures !LooksFull(|c.tbl|, c) ==> |c.sent| - |c.received| < Pow2(k)
    ensures |c.sent| - |c.received| <= Pow2(k)
  {
    hide Pow2, Commands, Payloads;
    LengthExact(k, c);
  }

  /** Both ends and the memory between them. */
  ghost function View(o: ChanOut, i: ChanIn): Chan
    reads o, i, o.shared, o.shared.tbl
  {
    Chan(o.shared.tbl[..], o.shared.headWb, o.sendHead, o.sendTail, o.sender, i.recvHead, i.receiver,
         o.shared.sent, o.shared.received, o.shared.written, o.polled)
  }
}