/** Who owns every buffer: the pools, the receive ring, the server's hands, messages being built,
    messages in the transmit ring. Also the per-segment reference counts. */
module Accounts {
  import opened Bits
  import opened Memory
  import opened RefCounting

  /** How the server answers: inlined header and referenced segments, a copied packet, or the
      received packet itself. */
  datatype Mode = ZeroCopy(counting: bool) | Copy | Echo

  /** An mbuf in use: its structure, the transmit buffer it owns (copying only), the segment it refers to. */
  datatype Held = Held(p: Ptr, buf: Ptr, seg: nat)

  datatype Books = Books(
    mbufFree: seq<Ptr>, txFree: seq<Ptr>, rxFree: seq<Ptr>,   // free items of the three pools
    refs: seq<nat>,                                           // reference count of each virtual segment
    limbo: seq<seq<Held>>,                                    // completed messages being freed
    flight: seq<seq<Held>>,                                   // messages in the transmit ring, oldest first
    build: seq<seq<Held>>,                                    // messages under construction or not yet posted
    posted: seq<Ptr>,                                         // buffers in the receive ring
    handed: multiset<Ptr>)                                    // received buffers the server holds

  /** All items of the three pools, and the size of a receive buffer. */
  datatype Stock = Stock(mbufs: multiset<Ptr>, txs: multiset<Ptr>, rxs: multiset<Ptr>, rxLen: u32) {
    /** Each item exists once, and mbuf structures do not overlap receive buffers. */
    ghost predicate Valid() {
      && (forall p :: mbufs[p] <= 1 && txs[p] <= 1 && rxs[p] <= 1)
      && mbufs !! rxs
      && NULL !in mbufs && NULL !in txs && NULL !in rxs
    }
  }

  function Flat<T>(ss: seq<seq<T>>): (s: seq<T>)
  {
    if ss == [] then [] else ss[0] + Flat(ss[1..])
  }

  lemma {:induction false} FlatAppend<T>(a: seq<seq<T>>, b: seq<seq<T>>)
    ensures Flat(a + b) == Flat(a) + Flat(b)
    decreases |a|
  {
    if a == [] {
      assert a + b == b;
    } else {
      assert (a + b)[1..] == a[1..] + b;
      FlatAppend(a[1..], b);
    }
  }

  lemma FlatOne<T>(c: seq<T>)
    ensures Flat([c]) == c
  {
    assert [c][1..] == [];
  }

  lemma FlatSplit<T>(ss: seq<seq<T>>)
    requires ss != []
    ensures Flat(ss) == ss[0] + Flat(ss[1..])
  {
  }

  function Ps(s: seq<Held>): (r: seq<Ptr>)
    ensures |r| == |s|
  {
    seq(|s|, i requires 0 <= i < |s| => s[i].p)
  }

  function Bufs(s: seq<Held>): (r: seq<Ptr>)
    ensures |r| == |s|
  {
    seq(|s|, i requires 0 <= i < |s| => s[i].buf)
  }

  function SegIds(s: seq<Held>): (r: seq<int>)
    ensures |r| == |s|
  {
    seq(|s|, i requires 0 <= i < |s| => s[i].seg)
  }

  /** Every mbuf in use. */
  function Out(b: Books): seq<Held> { Flat(b.limbo) + Flat(b.flight) + Flat(b.build) }

  /** Conservation: every item of every pool is in exactly one place, and every reference count is
      one more than the number of mbufs that refer to its segment. */
  ghost predicate Balanced(mode: Mode, st: Stock, b: Books) {
    match mode
    case ZeroCopy(counting) =>
      && multiset(b.mbufFree) + multiset(Ps(Out(b))) == st.mbufs
      && multiset(b.txFree) == st.txs
      && multiset(b.rxFree) + multiset(b.posted) + b.handed == st.rxs
      && (counting ==> Counted(b))
    case Copy =>
      && multiset(b.mbufFree) + multiset(Ps(Out(b))) == st.mbufs
      && multiset(b.txFree) + multiset(Bufs(Out(b))) == st.txs
      && multiset(b.rxFree) + multiset(b.posted) + b.handed == st.rxs
    case Echo =>
      && multiset(b.mbufFree) == st.mbufs
      && multiset(b.txFree) == st.txs
      && multiset(b.rxFree) + multiset(b.posted) + b.handed + multiset(Ps(Out(b))) == st.rxs
  }

  ghost predicate Counted(b: Books) {
    && (forall h :: h in Out(b) ==> h.seg < |b.refs|)
    && (forall i :: 0 <= i < |b.refs| ==> b.refs[i] == 1 + multiset(SegIds(Out(b)))[i] < W16)
  }

  // ----- transitions -----------------------------------------------------------------------

  /** Append an mbuf to the message under construction. */
  function Extend(build: seq<seq<Held>>, h: Held): seq<seq<Held>>
    requires build != []
  {
    build[..|build| - 1] + [build[|build| - 1] + [h]]
  }

  function Begin(b: Books): Books { b.(build := b.build + [[]]) }

  /** A 16-bit counter changes. */
  function Bump(refs: seq<nat>, i: nat, change: int): (r: seq<nat>)
    requires i < |refs|
    ensures |r| == |refs|
  {
    refs[i := Changed(refs[i] % W16, change)]
  }

  /** Zero-copy: allocate an mbuf for segment `seg` and count the reference. */
  function AddSegment(mode: Mode, b: Books, seg: nat): Books
    requires b.mbufFree != [] && b.build != [] && (mode == ZeroCopy(true) ==> seg < |b.refs|)
  {
    b.(mbufFree := b.mbufFree[1..], build := Extend(b.build, Held(b.mbufFree[0], NULL, seg)),
       refs := if mode == ZeroCopy(true) then Bump(b.refs, seg, 1) else b.refs)
  }

  /** Copying: allocate an mbuf and a buffer for it. */
  function AddPacket(b: Books): Books
    requires b.mbufFree != [] && b.txFree != [] && b.build != []
  {
    b.(mbufFree := b.mbufFree[1..], txFree := b.txFree[1..],
       build := Extend(b.build, Held(b.mbufFree[0], b.txFree[0], 0)))
  }

  /** Echo: the received packet becomes the message. */
  function AddRequest(b: Books, p: Ptr): Books
  {
    b.(handed := b.handed - multiset{p}, build := b.build + [[Held(p, NULL, 0)]])
  }

  /** The oldest built message enters the ring. */
  function PostFirst(b: Books): Books
    requires b.build != []
  {
    b.(flight := b.flight + [b.build[0]], build := b.build[1..])
  }

  /** The first `k` messages in the ring have been gathered. */
  function GatherFirst(b: Books, k: nat): Books
    requires k <= |b.flight|
  {
    b.(limbo := b.limbo + b.flight[..k], flight := b.flight[k..])
  }

  /** One mbuf of the first gathered message goes back where it came from. */
  function FreeOne(mode: Mode, b: Books): Books
    requires b.limbo != [] && b.limbo[0] != []
  {
    var h, limbo := b.limbo[0][0], [b.limbo[0][1..]] + b.limbo[1..];
    match mode
    case ZeroCopy(counting) =>
      b.(mbufFree := [h.p] + b.mbufFree, limbo := limbo,
         refs := if counting && h.seg < |b.refs| then Bump(b.refs, h.seg, -1) else b.refs)
    case Copy => b.(mbufFree := [h.p] + b.mbufFree, txFree := [h.buf] + b.txFree, limbo := limbo)
    case Echo => b.(rxFree := [h.p] + b.rxFree, limbo := limbo)
  }

  function DropEmpty(b: Books): Books
    requires b.limbo != []
  {
    b.(limbo := b.limbo[1..])
  }

  /** mlx5_gather_rx: `n` packets are handed up, `n` fresh buffers are posted. */
  function HandUp(b: Books, n: nat): Books
    requires n <= |b.posted| && n <= |b.rxFree|
  {
    b.(handed := b.handed + multiset(b.posted[..n]), posted := b.posted[n..] + b.rxFree[..n], rxFree := b.rxFree[n..])
  }

  /** A received packet is freed. */
  function DropRequest(b: Books, p: Ptr): Books
  {
    b.(handed := b.handed - multiset{p}, rxFree := [p] + b.rxFree)
  }

  // ----- every transition keeps the books balanced -----------------------------------------

  lemma PsAppend(s: seq<Held>, t: seq<Held>)
    ensures Ps(s + t) == Ps(s) + Ps(t) && Bufs(s + t) == Bufs(s) + Bufs(t) && SegIds(s + t) == SegIds(s) + SegIds(t)
  {
  }

  lemma PsCons(h: Held, s: seq<Held>)
    ensures Ps([h] + s) == [h.p] + Ps(s) && Bufs([h] + s) == [h.buf] + Bufs(s) && SegIds([h] + s) == [h.seg] + SegIds(s)
  {
  }

  lemma ExtendFlat(build: seq<seq<Held>>, h: Held)
    requires build != []
    ensures Flat(Extend(build, h)) == Flat(build) + [h]
  {
    var init, last := build[..|build| - 1], build[|build| - 1];
    assert build == init + [last];
    FlatAppend(init, [last]);
    FlatAppend(init, [last + [h]]);
    FlatOne(last);
    FlatOne(last + [h]);
  }

  lemma Split(s: seq<Ptr>)
    requires s != []
    ensures multiset(s) == multiset{s[0]} + multiset(s[1..])
  {
    assert s == [s[0]] + s[1..];
  }

  /** Appending one mbuf to those in use. */
  lemma OutExtend(b: Books, b': Books, h: Held)
    requires b.build != [] && b'.build == Extend(b.build, h) && b'.limbo == b.limbo && b'.flight == b.flight
    ensures Out(b') == Out(b) + [h]
    ensures multiset(Ps(Out(b'))) == multiset(Ps(Out(b))) + multiset{h.p}
    ensures multiset(Bufs(Out(b'))) == multiset(Bufs(Out(b))) + multiset{h.buf}
    ensures multiset(SegIds(Out(b'))) == multiset(SegIds(Out(b))) + multiset{h.seg}
  {
    hide Flat, Extend, Ps, Bufs, SegIds;
    ExtendFlat(b.build, h);
    assert Out(b') == Out(b) + [h];
    OneMore(Out(b), h);
  }

  lemma OneMore(s: seq<Held>, h: Held)
    ensures multiset(Ps(s + [h])) == multiset(Ps(s)) + multiset{h.p}
    ensures multiset(Bufs(s + [h])) == multiset(Bufs(s)) + multiset{h.buf}
    ensures multiset(SegIds(s + [h])) == multiset(SegIds(s)) + multiset{h.seg}
  {
    assert Ps(s + [h]) == Ps(s) + [h.p];
    assert Bufs(s + [h]) == Bufs(s) + [h.buf];
    assert SegIds(s + [h]) == SegIds(s) + [h.seg];
  }

  lemma BeginKeeps(mode: Mode, st: Stock, b: Books)
    requires Balanced(mode, st, b)
    ensures Balanced(mode, st, Begin(b)) && Out(Begin(b)) == Out(b)
  {
    FlatAppend(b.build, [[]]);
    FlatOne<Held>([]);
    assert Flat(b.build) + [] == Flat(b.build);
    assert Out(Begin(b)) == Out(b);
  }

  /** Zero-copy sending keeps the books balanced exactly when the 16-bit count has room. */
  lemma AddSegmentKeeps(mode: Mode, st: Stock, b: Books, seg: nat)
    requires mode.ZeroCopy? && Balanced(mode, st, b) && b.mbufFree != [] && b.build != []
    requires mode.counting ==> seg < |b.refs|
    ensures Balanced(mode, st, AddSegment(mode, b, seg)) <==> (mode.counting ==> b.refs[seg] < 0xffff)
  {
    hide Flat, Extend, Ps, Bufs, SegIds, Counted;
    OutExtend(b, AddSegment(mode, b, seg), Held(b.mbufFree[0], NULL, seg));
    Split(b.mbufFree);
    if mode.counting { AddSegmentCounted(b, seg); }
  }

  lemma AddSegmentCounted(b: Books, seg: nat)
    requires Counted(b) && b.mbufFree != [] && b.build != [] && seg < |b.refs|
    ensures Counted(AddSegment(ZeroCopy(true), b, seg)) <==> b.refs[seg] < 0xffff
  {
    hide Flat, Extend, Ps, Bufs, SegIds, Out;
    var b' := AddSegment(ZeroCopy(true), b, seg);
    OutExtend(b, b', Held(b.mbufFree[0], NULL, seg));
    assert b'.refs[seg] == (b.refs[seg] + 1) % W16;
    assert multiset(SegIds(Out(b')))[seg] == multiset(SegIds(Out(b)))[seg] + 1;
  }

  lemma AddPacketKeeps(st: Stock, b: Books)
    requires Balanced(Copy, st, b) && b.mbufFree != [] && b.txFree != [] && b.build != []
    ensures Balanced(Copy, st, AddPacket(b))
  {
    hide Flat, Extend, Ps, Bufs, SegIds;
    OutExtend(b, AddPacket(b), Held(b.mbufFree[0], b.txFree[0], 0));
    Split(b.mbufFree);
    Split(b.txFree);
  }

  lemma AddRequestKeeps(st: Stock, b: Books, p: Ptr)
    requires Balanced(Echo, st, b) && p in b.handed
    ensures Balanced(Echo, st, AddRequest(b, p))
  {
    hide Ps, Bufs, SegIds;
    var h := Held(p, NULL, 0);
    FlatAppend(b.build, [[h]]);
    FlatOne([h]);
    assert Out(AddRequest(b, p)) == Out(b) + [h];
    PsAppend(Out(b), [h]);
    assert Ps([h]) == [p] by { PsCons(h, []); assert [h] + [] == [h]; assert Ps([]) == []; }
    assert b.handed == b.handed - multiset{p} + multiset{p};
  }

  lemma PostFirstKeeps(mode: Mode, st: Stock, b: Books)
    requires Balanced(mode, st, b) && b.build != []
    ensures Balanced(mode, st, PostFirst(b)) && Out(PostFirst(b)) == Out(b)
  {
    hide Flat, Ps, Bufs, SegIds;
    FlatAppend(b.flight, [b.build[0]]);
    FlatOne(b.build[0]);
    FlatSplit(b.build);
    assert Out(PostFirst(b)) == Flat(b.limbo) + (Flat(b.flight) + b.build[0]) + Flat(b.build[1..]) == Out(b);
  }

  lemma GatherFirstKeeps(mode: Mode, st: Stock, b: Books, k: nat)
    requires Balanced(mode, st, b) && k <= |b.flight|
    ensures Balanced(mode, st, GatherFirst(b, k)) && Out(GatherFirst(b, k)) == Out(b)
  {
    FlatAppend(b.limbo, b.flight[..k]);
    FlatAppend(b.flight[..k], b.flight[k..]);
    assert b.flight[..k] + b.flight[k..] == b.flight;
    assert Out(GatherFirst(b, k)) == Out(b);
  }

  lemma DropEmptyKeeps(mode: Mode, st: Stock, b: Books)
    requires Balanced(mode, st, b) && b.limbo != [] && b.limbo[0] == []
    ensures Balanced(mode, st, DropEmpty(b)) && Out(DropEmpty(b)) == Out(b)
  {
    assert [] + Flat(b.limbo[1..]) == Flat(b.limbo[1..]);
    assert Out(DropEmpty(b)) == Out(b);
  }

  /** Removing the mbuf that is freed next from those in use. */
  lemma OutFree(b: Books, b': Books)
    requires b.limbo != [] && b.limbo[0] != []
    requires b'.limbo == [b.limbo[0][1..]] + b.limbo[1..] && b'.flight == b.flight && b'.build == b.build
    ensures var h := b.limbo[0][0];
      && Out(b) == [h] + Out(b') && h in Out(b)
      && multiset(Ps(Out(b))) == multiset{h.p} + multiset(Ps(Out(b')))
      && multiset(Bufs(Out(b))) == multiset{h.buf} + multiset(Bufs(Out(b')))
      && multiset(SegIds(Out(b))) == multiset{h.seg} + multiset(SegIds(Out(b')))
  {
    var h := b.limbo[0][0];
    FlatAppend([b.limbo[0][1..]], b.limbo[1..]);
    FlatOne(b.limbo[0][1..]);
    assert b.limbo[0] == [h] + b.limbo[0][1..];
    assert Out(b) == [h] + Out(b');
    PsCons(h, Out(b'));
  }

  lemma FreeOneCounted(b: Books)
    requires Counted(b) && b.limbo != [] && b.limbo[0] != []
    ensures b.limbo[0][0].seg < |b.refs| && b.refs[b.limbo[0][0].seg] >= 2
    ensures Counted(FreeOne(ZeroCopy(true), b))
  {
    hide Flat, Ps, Bufs, SegIds, Out;
    var h := b.limbo[0][0];
    OutFree(b, b.(limbo := [b.limbo[0][1..]] + b.limbo[1..]));
    assert multiset(SegIds(Out(b)))[h.seg] >= 1;
    OutFree(b, FreeOne(ZeroCopy(true), b));
  }

  lemma FreeOneKeeps(mode: Mode, st: Stock, b: Books)
    requires Balanced(mode, st, b) && b.limbo != [] && b.limbo[0] != []
    ensures mode == ZeroCopy(true) ==> b.limbo[0][0].seg < |b.refs| && b.refs[b.limbo[0][0].seg] >= 2
    ensures Balanced(mode, st, FreeOne(mode, b))
  {
    hide Flat, Ps, Bufs, SegIds, Out, Counted;
    var h := b.limbo[0][0];
    if mode == ZeroCopy(true) { FreeOneCounted(b); }
    ghost var b' := FreeOne(mode, b);
    OutFree(b, b');
    if !mode.Echo? { MovedBack(multiset(b.mbufFree), b'.mbufFree, h.p, b.mbufFree, Ps(Out(b)), Ps(Out(b')), st.mbufs); }
    if mode.Copy? { MovedBack(multiset(b.txFree), b'.txFree, h.buf, b.txFree, Bufs(Out(b)), Bufs(Out(b')), st.txs); }
    if mode.Echo? { Cons(h.p, b.rxFree); }
  }

  /** An item that leaves use and is free again. */
  lemma MovedBack(free: multiset<Ptr>, free': seq<Ptr>, p: Ptr, was: seq<Ptr>, out: seq<Ptr>, out': seq<Ptr>, all: multiset<Ptr>)
    requires free == multiset(was) && free' == [p] + was
    requires multiset(out) == multiset{p} + multiset(out') && free + multiset(out) == all
    ensures multiset(free') + multiset(out') == all
  {
  }

  lemma Cons(p: Ptr, s: seq<Ptr>)
    ensures multiset([p] + s) == multiset{p} + multiset(s)
  {
  }

  lemma CountedSame(b: Books, b': Books)
    requires Counted(b) && Out(b') == Out(b) && b'.refs == b.refs
    ensures Counted(b')
  {
    hide Out, SegIds;
  }

  lemma HandUpKeeps(mode: Mode, st: Stock, b: Books, n: nat)
    requires Balanced(mode, st, b) && n <= |b.posted| && n <= |b.rxFree|
    ensures Balanced(mode, st, HandUp(b, n)) && Out(HandUp(b, n)) == Out(b)
  {
    hide Flat, Ps, Bufs, SegIds, Counted;
    var m, m', r, r' := multiset(b.posted[..n]), multiset(b.posted[n..]), multiset(b.rxFree[..n]), multiset(b.rxFree[n..]);
    assert b.posted == b.posted[..n] + b.posted[n..];
    assert b.rxFree == b.rxFree[..n] + b.rxFree[n..];
    assert multiset(b.posted) == m + m' && multiset(b.rxFree) == r + r';
    assert multiset(HandUp(b, n).posted) == m' + r;
    if mode == ZeroCopy(true) { CountedSame(b, HandUp(b, n)); }
  }

  lemma DropRequestKeeps(mode: Mode, st: Stock, b: Books, p: Ptr)
    requires Balanced(mode, st, b) && p in b.handed
    ensures Balanced(mode, st, DropRequest(b, p)) && Out(DropRequest(b, p)) == Out(b)
  {
    hide Flat, Ps, Bufs, SegIds;
    assert multiset([p] + b.rxFree) == multiset{p} + multiset(b.rxFree);
    assert b.handed == b.handed - multiset{p} + multiset{p};
  }

  // ----- whole messages ----------------------------------------------------------------------

  /** The completion functions: every mbuf of the first gathered message is freed. */
  function FreeMessage(mode: Mode, b: Books): Books
    decreases if b.limbo == [] then 0 else |b.limbo[0]|
  {
    if b.limbo == [] then b
    else if b.limbo[0] == [] then DropEmpty(b)
    else FreeMessage(mode, FreeOne(mode, b))
  }

  /** Gathering `k` messages and freeing each of them. */
  function FreeMessages(mode: Mode, b: Books, k: nat): Books
    decreases k
  {
    if k == 0 then b else FreeMessages(mode, FreeMessage(mode, b), k - 1)
  }

  function Reclaim(mode: Mode, b: Books, k: nat): Books
    requires k <= |b.flight|
  {
    FreeMessages(mode, GatherFirst(b, k), k)
  }

  lemma {:induction false} FreeMessageKeeps(mode: Mode, st: Stock, b: Books)
    requires Balanced(mode, st, b) && b.limbo != []
    ensures var b' := FreeMessage(mode, b);
      && Balanced(mode, st, b')
      && b'.limbo == b.limbo[1..] && b'.flight == b.flight && b'.build == b.build
      && b'.posted == b.posted && b'.handed == b.handed
    decreases |b.limbo[0]|
  {
    hide Balanced;
    if b.limbo[0] == [] {
      DropEmptyKeeps(mode, st, b);
    } else {
      FreeOneKeeps(mode, st, b);
      FreeMessageKeeps(mode, st, FreeOne(mode, b));
    }
  }

  lemma {:induction false} FreeMessagesKeep(mode: Mode, st: Stock, b: Books, k: nat)
    requires Balanced(mode, st, b) && k <= |b.limbo|
    ensures var b' := FreeMessages(mode, b, k);
      && Balanced(mode, st, b')
      && b'.limbo == b.limbo[k..] && b'.flight == b.flight && b'.build == b.build
      && b'.posted == b.posted && b'.handed == b.handed
    decreases k
  {
    hide Balanced, FreeMessage;
    if k > 0 {
      FreeMessageKeeps(mode, st, b);
      FreeMessagesKeep(mode, st, FreeMessage(mode, b), k - 1);
    }
  }

  lemma ReclaimKeeps(mode: Mode, st: Stock, b: Books, k: nat)
    requires Balanced(mode, st, b) && b.limbo == [] && k <= |b.flight|
    ensures var b' := Reclaim(mode, b, k);
      && Balanced(mode, st, b')
      && b'.limbo == [] && b'.flight == b.flight[k..] && b'.build == b.build
      && b'.posted == b.posted && b'.handed == b.handed
  {
    hide Balanced, FreeMessages;
    GatherFirstKeeps(mode, st, b, k);
    FreeMessagesKeep(mode, st, GatherFirst(b, k), k);
  }

  // ----- what balanced books guarantee -----------------------------------------------------

  /** How many items are free. */
  lemma FreeCounts(mode: Mode, st: Stock, b: Books)
    requires Balanced(mode, st, b)
    ensures !mode.Echo? ==> |b.mbufFree| + |Out(b)| == |st.mbufs|
    ensures mode.Copy? ==> |b.txFree| + |Out(b)| == |st.txs|
    ensures |b.rxFree| + |b.posted| + |b.handed| + (if mode.Echo? then |Out(b)| else 0) == |st.rxs|
  {
    hide Flat, Counted, Out, Ps, Bufs;
    match mode
    case ZeroCopy(_) =>
      Sizes(b.mbufFree, Ps(Out(b)));
      assert |multiset(b.rxFree) + multiset(b.posted) + b.handed| == |b.rxFree| + |b.posted| + |b.handed|;
    case Copy =>
      Sizes(b.mbufFree, Ps(Out(b)));
      Sizes(b.txFree, Bufs(Out(b)));
      assert |multiset(b.rxFree) + multiset(b.posted) + b.handed| == |b.rxFree| + |b.posted| + |b.handed|;
    case Echo =>
      assert |multiset(b.rxFree) + multiset(b.posted) + b.handed + multiset(Ps(Out(b)))|
          == |b.rxFree| + |b.posted| + |b.handed| + |Ps(Out(b))|;
  }

  lemma Sizes(s: seq<Ptr>, t: seq<Ptr>)
    ensures |multiset(s) + multiset(t)| == |s| + |t|
  {
  }

  /** An allocation of an mbuf succeeds unless every mbuf is in use. */
  lemma AllocationExact(mode: Mode, st: Stock, b: Books)
    requires Balanced(mode, st, b) && !mode.Echo?
    ensures b.mbufFree == [] <==> |Out(b)| == |st.mbufs|
  {
    hide Out;
    FreeCounts(mode, st, b);
  }

  /** Items that each exist once are held by one user each. */
  lemma OnePlace(s: seq<Ptr>, rest: multiset<Ptr>, all: multiset<Ptr>)
    requires rest + multiset(s) == all && forall p :: all[p] <= 1
    ensures forall p :: p in rest ==> p !in s && rest[p] == 1
    ensures forall i, j :: 0 <= i < j < |s| ==> s[i] != s[j]
  {
    forall p ensures p in s ==> rest[p] == 0 {
      assert all[p] == rest[p] + multiset(s)[p];
      assert p in s ==> p in multiset(s);
    }
    forall p | p in rest ensures rest[p] == 1 {
      assert all[p] == rest[p] + multiset(s)[p];
    }
    forall i, j | 0 <= i < j < |s| ensures s[i] != s[j] {
      Distinct(s, i, j);
      assert all[s[i]] == rest[s[i]] + multiset(s)[s[i]];
    }
  }

  /** A free mbuf is not in use, and no mbuf is in use twice. */
  lemma FreeNotOut(mode: Mode, st: Stock, b: Books)
    requires st.Valid() && Balanced(mode, st, b) && !mode.Echo?
    ensures forall p :: p in b.mbufFree ==> p !in Ps(Out(b)) && p !in st.rxs && p != NULL
    ensures forall i, j :: 0 <= i < j < |Out(b)| ==> Out(b)[i].p != Out(b)[j].p
  {
    hide Flat, Out, Counted;
    var o, rest := Ps(Out(b)), multiset(b.mbufFree);
    OnePlace(o, rest, st.mbufs);
    forall p | p in b.mbufFree ensures p !in o && p !in st.rxs && p != NULL {
      assert p in rest && p in rest + multiset(o);
    }
    OutPs(b);
  }

  lemma OutPs(b: Books)
    ensures forall i :: 0 <= i < |Out(b)| ==> Ps(Out(b))[i] == Out(b)[i].p
  {
  }

  /** The same for received packets that are sent back. */
  lemma EchoNotOut(st: Stock, b: Books)
    requires st.Valid() && Balanced(Echo, st, b)
    ensures forall p :: p in b.handed ==> p !in Ps(Out(b)) && b.handed[p] == 1 && p != NULL
    ensures forall p :: p in b.posted || p in b.rxFree ==> p !in Ps(Out(b))
    ensures forall i, j :: 0 <= i < j < |Out(b)| ==> Out(b)[i].p != Out(b)[j].p
  {
    hide Flat, Out, Ps;
    var o, rest := Ps(Out(b)), multiset(b.rxFree) + multiset(b.posted) + b.handed;
    OnePlace(o, rest, st.rxs);
    forall p | p in b.handed ensures p !in o && b.handed[p] == 1 && p != NULL {
      assert p in rest && p in rest + multiset(o);
      assert rest[p] == multiset(b.rxFree)[p] + multiset(b.posted)[p] + b.handed[p];
    }
    forall p | p in b.posted || p in b.rxFree ensures p !in o {
      assert p in rest;
    }
    OutPs(b);
  }

  lemma Distinct(s: seq<Ptr>, i: nat, j: nat)
    requires i < j < |s|
    ensures s[i] == s[j] ==> multiset(s)[s[i]] >= 2
  {
    assert s == s[..j] + s[j..];
    assert s[i] in s[..j] && s[j] in s[j..];
    assert multiset(s) == multiset(s[..j]) + multiset(s[j..]);
  }

  /** Reference counts stay between one and one more than the mbufs in use: with fewer than 65535
      of them a 16-bit count never overflows. */
  lemma CountBounds(b: Books, i: nat)
    requires Counted(b) && i < |b.refs|
    ensures 1 <= b.refs[i] <= 1 + |Out(b)|
  {
    hide Flat, Out;
    var s := SegIds(Out(b));
    assert multiset(s)[i] <= |multiset(s)|;
  }

  // ----- runs ------------------------------------------------------------------------------

  datatype Event =
    | NewMessage
    | Segment(seg: nat)
    | Packet
    | Request(p: Ptr)
    | PostMessage
    | Gathered(k: nat)
    | Freed
    | MessageFreed
    | Received(n: nat)
    | RequestFreed(p: Ptr)

  ghost predicate Can(mode: Mode, b: Books, e: Event) {
    match e
    case NewMessage => true
    case Segment(seg) =>
      && mode.ZeroCopy? && b.mbufFree != [] && b.build != []
      && (mode.counting ==> seg < |b.refs| && |Out(b)| < 0xfffe)
    case Packet => mode.Copy? && b.mbufFree != [] && b.txFree != [] && b.build != []
    case Request(p) => mode.Echo? && p in b.handed
    case PostMessage => b.build != []
    case Gathered(k) => k <= |b.flight|
    case Freed => b.limbo != [] && b.limbo[0] != []
    case MessageFreed => b.limbo != [] && b.limbo[0] == []
    case Received(n) => n <= |b.posted| && n <= |b.rxFree|
    case RequestFreed(p) => p in b.handed
  }

  ghost function Happen(mode: Mode, b: Books, e: Event): Books
    requires Can(mode, b, e)
  {
    match e
    case NewMessage => Begin(b)
    case Segment(seg) => AddSegment(mode, b, seg)
    case Packet => AddPacket(b)
    case Request(p) => AddRequest(b, p)
    case PostMessage => PostFirst(b)
    case Gathered(k) => GatherFirst(b, k)
    case Freed => FreeOne(mode, b)
    case MessageFreed => DropEmpty(b)
    case Received(n) => HandUp(b, n)
    case RequestFreed(p) => DropRequest(b, p)
  }

  lemma EventKeeps(mode: Mode, st: Stock, b: Books, e: Event)
    requires Can(mode, b, e) && Balanced(mode, st, b)
    ensures Balanced(mode, st, Happen(mode, b, e))
  {
    hide Flat, Out;
    match e
    case NewMessage => BeginKeeps(mode, st, b);
    case Segment(seg) =>
      if mode.counting { CountBounds(b, seg); }
      AddSegmentKeeps(mode, st, b, seg);
    case Packet => AddPacketKeeps(st, b);
    case Request(p) => AddRequestKeeps(st, b, p);
    case PostMessage => PostFirstKeeps(mode, st, b);
    case Gathered(k) => GatherFirstKeeps(mode, st, b, k);
    case Freed => FreeOneKeeps(mode, st, b);
    case MessageFreed => DropEmptyKeeps(mode, st, b);
    case Received(n) => HandUpKeeps(mode, st, b, n);
    case RequestFreed(p) => DropRequestKeeps(mode, st, b, p);
  }

  ghost predicate Leads(mode: Mode, b: Books, events: seq<Event>, t: Books)
    decreases |events|
  {
    if events == [] then t == b
    else
      && Can(mode, b, events[0])
      && Leads(mode, Happen(mode, b, events[0]), events[1..], t)
  }

  /** In every reachable state, in all three modes, every buffer is in exactly one place and every
      count is one more than the references that are out. */
  lemma {:induction false} EveryHistory(mode: Mode, st: Stock, b: Books, events: seq<Event>, t: Books)
    requires Balanced(mode, st, b) && Leads(mode, b, events, t)
    ensures Balanced(mode, st, t)
    decreases |events|
  {
    hide Balanced, Happen;
    if events != [] {
      EventKeeps(mode, st, b, events[0]);
      EveryHistory(mode, st, Happen(mode, b, events[0]), events[1..], t);
    }
  }
}
