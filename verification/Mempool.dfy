/** Preallocated pools (mempool.c, inc/base/mempool.h): an array of free items whose suffix from
    `used` (the field allocated) holds the items that can be handed out. */
module Pools {
  import opened Bits
  import opened Memory

  const EINVAL := 22

  // ----- the items -------------------------------------------------------------------------

  /** The items of one page, from its address up. */
  function PageItems(page: nat, itemLen: nat, n: nat): (s: seq<nat>)
    ensures |s| == n
  {
    if n == 0 then [] else PageItems(page, itemLen, n - 1) + [page + itemLen * (n - 1)]
  }

  /** Address of page `i`. */
  function Page(buf: nat, pgsize: nat, i: nat): nat { buf + pgsize * i }

  /** What mempool_populate stores: `per` items of each page, page after page. */
  function Items(buf: nat, pgsize: nat, itemLen: nat, per: nat, pages: nat): (s: seq<nat>)
    ensures |s| == pages * per
  {
    if pages == 0 then []
    else
      assert pages * per == (pages - 1) * per + per;
      Items(buf, pgsize, itemLen, per, pages - 1) + PageItems(Page(buf, pgsize, pages - 1), itemLen, per)
  }

  lemma {:induction false} PageItemsLayout(page: nat, itemLen: nat, n: nat)
    requires itemLen > 0
    ensures forall k, l :: 0 <= k < l < n ==>
      PageItems(page, itemLen, n)[k] + itemLen <= PageItems(page, itemLen, n)[l]
    ensures forall k :: 0 <= k < n ==>
      page <= PageItems(page, itemLen, n)[k] && PageItems(page, itemLen, n)[k] + itemLen <= page + itemLen * n
  {
    if n > 0 {
      PageItemsLayout(page, itemLen, n - 1);
      assert itemLen * n == itemLen * (n - 1) + itemLen;
    }
  }

  /** An item that lies inside page `i`. */
  ghost predicate OnPage(buf: nat, pgsize: nat, itemLen: nat, i: nat, a: nat) {
    Page(buf, pgsize, i) <= a && a + itemLen <= Page(buf, pgsize, i + 1)
  }

  lemma {:induction false} PageMonotone(buf: nat, pgsize: nat, i: nat, j: nat)
    requires i <= j
    ensures Page(buf, pgsize, i) <= Page(buf, pgsize, j)
  {
    if i < j {
      PageMonotone(buf, pgsize, i, j - 1);
      PageNext(buf, pgsize, j - 1);
    }
  }

  lemma PageNext(buf: nat, pgsize: nat, i: nat)
    ensures Page(buf, pgsize, i + 1) == Page(buf, pgsize, i) + pgsize
  {
  }

  ghost predicate OnSomePage(buf: nat, pgsize: nat, itemLen: nat, pages: nat, a: nat) {
    exists i: nat :: i < pages && OnPage(buf, pgsize, itemLen, i, a)
  }

  /** Every item lies inside one page, and items do not overlap. */
  ghost predicate WellPlaced(s: seq<nat>, buf: nat, pgsize: nat, itemLen: nat, pages: nat) {
    && (forall k :: 0 <= k < |s| ==> OnSomePage(buf, pgsize, itemLen, pages, s[k]))
    && (forall k, l :: 0 <= k < l < |s| ==> s[k] + itemLen <= s[l])
  }

  lemma {:induction false} ItemsLayout(buf: nat, pgsize: nat, itemLen: nat, per: nat, pages: nat)
    requires itemLen > 0 && itemLen * per <= pgsize
    ensures WellPlaced(Items(buf, pgsize, itemLen, per, pages), buf, pgsize, itemLen, pages)
  {
    if pages > 0 {
      ItemsLayout(buf, pgsize, itemLen, per, pages - 1);
      NextPage(Items(buf, pgsize, itemLen, per, pages - 1), buf, pgsize, itemLen, per, pages);
    }
  }

  lemma NextPage(s: seq<nat>, buf: nat, pgsize: nat, itemLen: nat, per: nat, pages: nat)
    requires itemLen > 0 && itemLen * per <= pgsize && pages > 0
    requires WellPlaced(s, buf, pgsize, itemLen, pages - 1)
    ensures WellPlaced(s + PageItems(Page(buf, pgsize, pages - 1), itemLen, per), buf, pgsize, itemLen, pages)
  {
    hide Page, PageItems;
    var t := PageItems(Page(buf, pgsize, pages - 1), itemLen, per);
    PageItemsLayout(Page(buf, pgsize, pages - 1), itemLen, per);
    PageNext(buf, pgsize, pages - 1);
    forall k | 0 <= k < |s + t| ensures OnSomePage(buf, pgsize, itemLen, pages, (s + t)[k]) {
      if k < |s| {
        assert OnSomePage(buf, pgsize, itemLen, pages - 1, s[k]);
        var i: nat :| i < pages - 1 && OnPage(buf, pgsize, itemLen, i, s[k]);
      } else {
        assert OnPage(buf, pgsize, itemLen, pages - 1, t[k - |s|]);
      }
    }
    forall k | 0 <= k < |s| ensures s[k] + itemLen <= Page(buf, pgsize, pages - 1) {
      assert OnSomePage(buf, pgsize, itemLen, pages - 1, s[k]);
      var i: nat :| i < pages - 1 && OnPage(buf, pgsize, itemLen, i, s[k]);
      PageMonotone(buf, pgsize, i + 1, pages - 1);
    }
  }

  /** All items of a pool over `len` bytes at `buf`. */
  function AllItems(buf: nat, len: nat, pgsize: nat, itemLen: nat): (s: seq<nat>)
    requires itemLen > 0 && pgsize > 0
  {
    Items(buf, pgsize, itemLen, pgsize / itemLen, len / pgsize)
  }

  /** Every item is inside the region, and none straddles a page boundary when the region starts
      on one. */
  lemma ItemsInRegion(buf: nat, len: nat, pgsize: nat, itemLen: nat, k: nat)
    requires itemLen > 0 && pgsize > 0 && len % pgsize == 0
    requires k < |AllItems(buf, len, pgsize, itemLen)|
    ensures var a := AllItems(buf, len, pgsize, itemLen)[k];
      && buf <= a && a + itemLen <= buf + len
      && (buf % pgsize == 0 ==> a / pgsize == (a + itemLen - 1) / pgsize)
  {
    hide Page, Items;
    PerPage(pgsize, itemLen);
    ItemsLayout(buf, pgsize, itemLen, pgsize / itemLen, len / pgsize);
    var a := AllItems(buf, len, pgsize, itemLen)[k];
    assert OnSomePage(buf, pgsize, itemLen, len / pgsize, a);
    var i: nat :| i < len / pgsize && OnPage(buf, pgsize, itemLen, i, a);
    PageMonotone(buf, pgsize, 0, i);
    PageMonotone(buf, pgsize, i + 1, len / pgsize);
    PageEnds(buf, len, pgsize);
    if buf % pgsize == 0 { OnePage(buf, pgsize, itemLen, i, a); }
  }

  lemma PageEnds(buf: nat, len: nat, pgsize: nat)
    requires pgsize > 0 && len % pgsize == 0
    ensures Page(buf, pgsize, 0) == buf && Page(buf, pgsize, len / pgsize) == buf + len
  {
  }

  lemma OnePage(buf: nat, pgsize: nat, itemLen: nat, i: nat, a: nat)
    requires pgsize > 0 && itemLen > 0 && buf % pgsize == 0 && OnPage(buf, pgsize, itemLen, i, a)
    ensures a / pgsize == (a + itemLen - 1) / pgsize
  {
    var q := buf / pgsize + i;
    assert Page(buf, pgsize, i) == pgsize * q by { assert pgsize * q == pgsize * (buf / pgsize) + pgsize * i; }
    PageNext(buf, pgsize, i);
    DivModUnique(a, pgsize, q, a - pgsize * q);
    DivModUnique(a + itemLen - 1, pgsize, q, a + itemLen - 1 - pgsize * q);
  }

  lemma PerPage(pgsize: nat, itemLen: nat)
    requires itemLen > 0
    ensures pgsize / itemLen >= 0 && itemLen * (pgsize / itemLen) <= pgsize
  {
  }

  // ----- alloc and free on values ----------------------------------------------------------

  /** slots[used..] are free; what lies before is stale. */
  datatype Pool = Pool(slots: seq<Ptr>, used: nat) {
    predicate Valid() { used <= |slots| }
    function Free(): seq<Ptr> requires Valid() { slots[used..] }
  }

  function Take(p: Pool): (r: (Ptr, Pool))
    requires p.Valid()
    ensures r.1.Valid()
  {
    if p.used >= |p.slots| then (NULL, p) else (p.slots[p.used], p.(used := p.used + 1))
  }

  function Give(p: Pool, item: Ptr): (p': Pool)
    requires p.Valid() && p.used > 0
    ensures p'.Valid()
  {
    Pool(p.slots[p.used - 1 := item], p.used - 1)
  }

  datatype Step = AllocStep | FreeStep(item: Ptr)

  /** A pool together with the items its users hold. */
  datatype Use = Use(pool: Pool, live: multiset<Ptr>)

  ghost predicate Partition(u: Use, items: multiset<Ptr>) {
    && u.pool.Valid()
    && multiset(u.pool.Free()) + u.live == items
    && |u.pool.slots| == |items|
  }

  /** Only items that are held may be freed. */
  ghost predicate CanStep(u: Use, s: Step) { s.FreeStep? ==> s.item in u.live }

  ghost function Do(u: Use, s: Step): Use
    requires u.pool.Valid() && (s.FreeStep? ==> u.pool.used > 0)
  {
    match s
    case AllocStep =>
      var (item, pool) := Take(u.pool);
      Use(pool, if pool == u.pool then u.live else u.live + multiset{item})
    case FreeStep(item) => Use(Give(u.pool, item), u.live - multiset{item})
  }

  /** The field allocated counts the items that are held. */
  lemma AllocatedCountsLive(u: Use, items: multiset<Ptr>)
    requires Partition(u, items)
    ensures u.pool.used == |u.live|
  {
    assert |multiset(u.pool.Free())| == |u.pool.slots| - u.pool.used;
    assert |multiset(u.pool.Free()) + u.live| == |multiset(u.pool.Free())| + |u.live|;
  }

  lemma HeadTail(s: seq<Ptr>)
    requires s != []
    ensures multiset(s) == multiset{s[0]} + multiset(s[1..])
  {
    assert s == [s[0]] + s[1..];
  }

  /** Allocating and freeing keep free and held items a partition of the pool; allocation fails
      exactly when everything is held. */
  lemma StepKeepsPartition(u: Use, items: multiset<Ptr>, s: Step)
    requires Partition(u, items) && CanStep(u, s)
    ensures s.FreeStep? ==> u.pool.used > 0
    ensures Partition(Do(u, s), items)
    ensures s.AllocStep? ==> (Do(u, s) == u <==> |u.live| == |items|)
  {
    hide Take, Give;
    AllocatedCountsLive(u, items);
    match s
    case AllocStep => TakeKeeps(u, items);
    case FreeStep(item) =>
      OneLess(u.live, item);
      GiveKeeps(u, items, item);
  }

  lemma TakeKeeps(u: Use, items: multiset<Ptr>)
    requires Partition(u, items)
    ensures Partition(Do(u, AllocStep), items)
    ensures Do(u, AllocStep) == u <==> u.pool.used == |items|
  {
    if u.pool.used < |u.pool.slots| {
      HeadTail(u.pool.Free());
      assert Take(u.pool).1.Free() == u.pool.Free()[1..];
    }
  }

  lemma OneLess(live: multiset<Ptr>, item: Ptr)
    requires item in live
    ensures live == live - multiset{item} + multiset{item} && |live| > 0
  {
  }

  lemma GiveKeeps(u: Use, items: multiset<Ptr>, item: Ptr)
    requires Partition(u, items) && u.pool.used > 0
    requires u.live == u.live - multiset{item} + multiset{item}
    ensures Partition(Do(u, FreeStep(item)), items)
  {
    assert Give(u.pool, item).Free() == [item] + u.pool.Free();
  }

  ghost predicate Reaches(u: Use, steps: seq<Step>, t: Use)
    decreases |steps|
  {
    if steps == [] then t == u
    else
      && CanStep(u, steps[0]) && u.pool.Valid() && (steps[0].FreeStep? ==> u.pool.used > 0)
      && Reaches(Do(u, steps[0]), steps[1..], t)
  }

  /** Over any sequence of allocations and valid frees every item is free or held, exactly once. */
  lemma {:induction false} EveryUse(u: Use, items: multiset<Ptr>, steps: seq<Step>, t: Use)
    requires Partition(u, items) && Reaches(u, steps, t)
    ensures Partition(t, items) && t.pool.used == |t.live|
    decreases |steps|
  {
    if steps != [] {
      StepKeepsPartition(u, items, steps[0]);
      EveryUse(Do(u, steps[0]), items, steps[1..], t);
    } else {
      AllocatedCountsLive(t, items);
    }
  }

  lemma PagesAll(pages: nat, per: nat)
    ensures pages * per >= 0
  {
  }

  lemma ItemsNext(buf: nat, pgsize: nat, itemLen: nat, per: nat, i: nat)
    ensures Items(buf, pgsize, itemLen, per, 0) == []
    ensures Items(buf, pgsize, itemLen, per, i + 1) == Items(buf, pgsize, itemLen, per, i) + PageItems(Page(buf, pgsize, i), itemLen, per)
  {
  }

  lemma RoomForPage(i: nat, pages: nat, per: nat)
    requires i < pages
    ensures i * per + per == (i + 1) * per <= pages * per
  {
    assert (pages - i - 1) * per >= 0;
    assert pages * per == (i + 1) * per + (pages - i - 1) * per;
  }

  /** The addresses that are computed stay inside the region. */
  lemma ItemAddress(buf: nat, len: nat, pgsize: nat, itemLen: nat, i: nat, j: nat)
    requires itemLen > 0 && pgsize > 0 && len % pgsize == 0 && i < len / pgsize && j < pgsize / itemLen
    ensures Page(buf, pgsize, i) + itemLen * j <= buf + len
  {
    hide Page;
    var n := j + 1;
    PageItemsLayout(Page(buf, pgsize, i), itemLen, pgsize / itemLen);
    PerPage(pgsize, itemLen);
    PageNext(buf, pgsize, i);
    PageMonotone(buf, pgsize, i + 1, len / pgsize);
    PageEnds(buf, len, pgsize);
    MulLe(itemLen, j, pgsize / itemLen);
  }

  lemma MulLe(a: nat, b: nat, c: nat)
    requires b <= c
    ensures a * b <= a * c
  {
    assert a * (c - b) >= 0;
  }

  // ----- the pool object -------------------------------------------------------------------

  class Mempool {
    var freeItems: array<Ptr>
    var used: nat
    var capacity: nat
    var itemLen: nat

    ghost predicate Valid()
      reads this
    {
      used <= capacity <= freeItems.Length
    }

    ghost function View(): Pool
      requires Valid()
      reads this, freeItems
    {
      Pool(freeItems[..capacity], used)
    }

    ghost function Free(): (s: seq<Ptr>)
      requires Valid()
      reads this, freeItems
      ensures |s| == capacity - used
    {
      freeItems[used..capacity]
    }

    /** A zeroed structure. */
    constructor ()
      ensures Valid() && capacity == 0 && fresh(freeItems)
    {
      freeItems := new Ptr[0];
      used, capacity, itemLen := 0, 0, 0;
    }

    /** mempool_create: the parameters are checked, then the pool is filled. */
    method Create(buf: Ptr, len: nat, pgsize: nat, item: nat) returns (ret: int)
      requires Valid() && capacity == 0 && buf + len < W64
      modifies this
      ensures Valid() && (ret == 0 || ret == -EINVAL)
      ensures ret == 0 <==> item != 0 && IsPowerOfTwo(pgsize) && len % pgsize == 0
      ensures ret == 0 ==> fresh(freeItems) && used == 0 && itemLen == item
      ensures ret == 0 ==> Free() == AllItems(buf, len, pgsize, item)
    {
      if item == 0 || !IsPowerOfTwo(pgsize) || len % pgsize != 0 {
        return -EINVAL;
      }
      used, itemLen := 0, item;
      Populate(buf, len, pgsize, item);
      ret := 0;
    }

    /** mempool_populate. */
    method Populate(buf: Ptr, len: nat, pgsize: nat, item: nat)
      requires Valid() && capacity == 0 && used == 0 && buf + len < W64
      requires item > 0 && pgsize > 0 && len % pgsize == 0
      modifies this`freeItems, this`capacity
      ensures Valid() && fresh(freeItems)
      ensures Free() == AllItems(buf, len, pgsize, item)
    {
      hide Items, Page;
      var perPage := pgsize / item;
      var pages := len / pgsize;
      PagesAll(pages, perPage);
      freeItems := new Ptr[pages * perPage];
      ItemsNext(buf, pgsize, item, perPage, 0);
      for i := 0 to pages
        invariant fresh(freeItems) && freeItems.Length == pages * perPage && capacity == i * perPage
        invariant capacity <= freeItems.Length && freeItems[..capacity] == Items(buf, pgsize, item, perPage, i)
      {
        RoomForPage(i, pages, perPage);
        ItemsNext(buf, pgsize, item, perPage, i);
        forall j | 0 <= j < perPage ensures Page(buf, pgsize, i) + item * j <= buf + len {
          ItemAddress(buf, len, pgsize, item, i, j);
        }
        FillPage(Page(buf, pgsize, i), item, perPage);
      }
      assert Free() == freeItems[..capacity];
    }

    /** The inner loop: the items of one page. */
    method FillPage(page: nat, item: nat, perPage: nat)
      requires capacity + perPage <= freeItems.Length
      requires forall j :: 0 <= j < perPage ==> page + item * j < W64
      modifies this`capacity, freeItems
      ensures capacity == old(capacity) + perPage
      ensures freeItems[..capacity] == old(freeItems[..capacity]) + PageItems(page, item, perPage)
    {
      for j := 0 to perPage
        invariant capacity == old(capacity) + j
        invariant freeItems[..capacity] == old(freeItems[..capacity]) + PageItems(page, item, j)
      {
        freeItems[capacity] := page + item * j;
        capacity := capacity + 1;
        assert PageItems(page, item, j + 1) == PageItems(page, item, j) + [page + item * j];
      }
    }

    /** mempool_alloc: an item, or NULL when the pool is exhausted. */
    method Alloc() returns (item: Ptr)
      requires Valid()
      modifies this`used
      ensures Valid()
      ensures (item, View()) == Take(old(View()))
      ensures old(Free()) == [] ==> item == NULL && Free() == []
      ensures old(Free()) != [] ==> old(Free()) == [item] + Free()
    {
      if used >= capacity {
        return NULL;
      }
      item := freeItems[used];
      used := used + 1;
    }

    /** mempool_free: the caller must hold an item. */
    method Release(item: Ptr)
      requires Valid() && used > 0
      modifies this`used, freeItems
      ensures Valid()
      ensures View() == Give(old(View()), item)
      ensures Free() == [item] + old(Free())
    {
      used := used - 1;
      freeItems[used] := item;
    }
  }
}
