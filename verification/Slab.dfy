/** The slab allocator (src/kzadhbat/slab.c).

    Memory is modelled as C sees it: a pointer is an address, 0 is NULL, and the bytes of a block
    hold either the link of a free list or the value of the owner. `headers` holds the region
    headers, `slots` the blocks; both are updated in place by address.
  */
module Slabs {
  import opened Words

  const HEADER_SIZE: nat := 32  // sizeof(struct slabRegion)
  const LINK_SIZE: nat := 8     // SLAB_HEADER_SIZE

  datatype Error = Ok | NullArgument | RegionTooSmall | ForeignBlock

  /** The contents of a block: struct slabBlock while it is free, the owner's value while it is not. */
  datatype Slot<T> = Unused(next: nat) | InUse(value: T)

  /** struct slabRegion */
  datatype Header = Header(next: nat, total: nat, free: nat, blocks: nat)

  /** The address of block i behind the header at `region`; for i equal to the number of blocks, the
      end of the region. */
  function SlotAddress(region: nat, blocksize: nat, i: nat): nat {
    if i == 0 then region + HEADER_SIZE else SlotAddress(region, blocksize, i - 1) + blocksize
  }

  ghost function SlotsOf(region: nat, blocksize: nat, total: nat): set<nat> {
    if total == 0 then {} else SlotsOf(region, blocksize, total - 1) + {SlotAddress(region, blocksize, total - 1)}
  }

  /** The free list that starts at `head` runs through exactly the blocks of `list`, without a repetition. */
  ghost predicate Chain<T>(slots: map<nat, Slot<T>>, head: nat, list: seq<nat>)
    decreases list
  {
    if list == [] then head == 0
    else
      && head == list[0] != 0
      && head !in list[1..]
      && head in slots && slots[head].Unused?
      && Chain(slots, slots[head].next, list[1..])
  }

  lemma {:induction false} ChainIgnores<T>(slots: map<nat, Slot<T>>, head: nat, list: seq<nat>, p: nat, s: Slot<T>)
    requires Chain(slots, head, list) && p !in list
    ensures Chain(slots[p := s], head, list)
    decreases list
  {
    if list != [] {
      ChainIgnores(slots, slots[head].next, list[1..], p, s);
    }
  }

  lemma {:induction false} ChainKept<T>(slots: map<nat, Slot<T>>, slots': map<nat, Slot<T>>, head: nat, list: seq<nat>)
    requires Chain(slots, head, list) && forall p :: p in slots ==> p in slots' && slots'[p] == slots[p]
    ensures Chain(slots', head, list)
    decreases list
  {
    if list != [] {
      ChainKept(slots, slots', slots[head].next, list[1..]);
    }
  }

  /** `slots'` has the blocks of `added` besides those of `slots`, which it keeps. */
  ghost predicate Extends<T>(slots: map<nat, Slot<T>>, slots': map<nat, Slot<T>>, added: seq<nat>) {
    && (forall p :: p in slots' <==> p in slots || p in added)
    && (forall p :: p in slots ==> slots'[p] == slots[p])
  }

  /** The free list of a region, as its header holds it. */
  ghost predicate FreeList<T>(slots: map<nat, Slot<T>>, h: Header, list: seq<nat>) {
    Chain(slots, h.blocks, list) && |list| == h.free
  }

  lemma FreeListIgnores<T>(slots: map<nat, Slot<T>>, h: Header, list: seq<nat>, p: nat, s: Slot<T>)
    requires FreeList(slots, h, list) && p !in list
    ensures FreeList(slots[p := s], h, list)
  {
    ChainIgnores(slots, h.blocks, list, p, s);
  }

  lemma FreeListPush<T>(slots: map<nat, Slot<T>>, h: Header, list: seq<nat>, p: nat)
    requires FreeList(slots, h, list) && p !in list && p != 0
    ensures FreeList(slots[p := Unused(h.blocks)], h.(blocks := p, free := h.free + 1), [p] + list)
  {
    ChainIgnores(slots, h.blocks, list, p, Unused(h.blocks));
    assert ([p] + list)[1..] == list;
  }

  lemma FreeListPop<T>(slots: map<nat, Slot<T>>, h: Header, list: seq<nat>, value: T)
    requires FreeList(slots, h, list) && h.free > 0
    ensures list == [h.blocks] + list[1..] && h.blocks !in list[1..]
    ensures h.blocks in slots && slots[h.blocks].Unused?
    ensures FreeList(slots[h.blocks := InUse(value)], h.(blocks := slots[h.blocks].next, free := h.free - 1), list[1..])
  {
    ChainIgnores(slots, slots[h.blocks].next, list[1..], h.blocks, InUse(value));
  }

  lemma FreeListKept<T>(
    slots: map<nat, Slot<T>>, slots': map<nat, Slot<T>>, added: seq<nat>, h: Header, list: seq<nat>)
    requires FreeList(slots, h, list) && Extends(slots, slots', added)
    ensures FreeList(slots', h, list)
  {
    ChainKept(slots, slots', h.blocks, list);
  }

  ghost predicate LinkedUpTo<T>(slots: map<nat, Slot<T>>, list: seq<nat>, n: nat)
    requires n < |list|
  {
    forall i :: 0 <= i < n ==> list[i] in slots && slots[list[i]] == Unused(list[i + 1])
  }

  lemma LinkOne<T>(slots: map<nat, Slot<T>>, list: seq<nat>, n: nat)
    requires n + 1 < |list| && LinkedUpTo(slots, list, n)
    requires forall i, j :: 0 <= i < j < |list| ==> list[i] < list[j]
    ensures LinkedUpTo(slots[list[n] := Unused(list[n + 1])], list, n + 1)
  {
  }

  lemma LinkedChain<T>(slots: map<nat, Slot<T>>, list: seq<nat>)
    requires list != [] && LinkedUpTo(slots, list, |list| - 1)
    requires forall i, j :: 0 <= i < j < |list| ==> list[i] < list[j]
    requires forall p :: p in list ==> p != 0
    requires list[|list| - 1] in slots && slots[list[|list| - 1]] == Unused(0)
    ensures Chain(slots, list[0], list)
    ensures forall p :: p in list ==> p in slots && slots[p].Unused?
  {
    hide Chain;
    assert forall i :: 0 <= i < |list| ==> list[i] in list;
    ChainFromLinks(slots, list, 0);
    assert list[0..] == list;
    forall p | p in list
      ensures p in slots && slots[p].Unused?
    {
      var i :| 0 <= i < |list| && list[i] == p;
      if i < |list| - 1 {
        assert slots[list[i]] == Unused(list[i + 1]);
      }
    }
  }

  lemma LinkLast<T>(slots: map<nat, Slot<T>>, list: seq<nat>)
    requires list != [] && LinkedUpTo(slots, list, |list| - 1)
    requires forall i, j :: 0 <= i < j < |list| ==> list[i] < list[j]
    requires forall p :: p in list ==> p != 0
    ensures var slots' := slots[list[|list| - 1] := Unused(0)];
            && Chain(slots', list[0], list)
            && forall p :: p in list ==> p in slots' && slots'[p].Unused?
  {
    hide Chain;
    var slots' := slots[list[|list| - 1] := Unused(0)];
    assert LinkedUpTo(slots', list, |list| - 1);
    LinkedChain(slots', list);
  }

  /** Blocks linked one to the next, the last to NULL, form a chain. */
  lemma {:induction false} ChainFromLinks<T>(slots: map<nat, Slot<T>>, list: seq<nat>, k: nat)
    requires k < |list| && forall i :: 0 <= i < |list| ==> list[i] != 0
    requires forall i, j :: 0 <= i < j < |list| ==> list[i] < list[j]
    requires LinkedUpTo(slots, list, |list| - 1)
    requires list[|list| - 1] in slots && slots[list[|list| - 1]] == Unused(0)
    ensures Chain(slots, list[k], list[k..])
    decreases |list| - k
  {
    assert list[k..][1..] == list[k + 1..];
    if k + 1 < |list| {
      ChainFromLinks(slots, list, k + 1);
      assert slots[list[k]] == Unused(list[k + 1]);
    }
  }

  /** The linked list of region headers that starts at `head`. */
  ghost predicate RegionChain(headers: map<nat, Header>, head: nat, order: seq<nat>)
    decreases order
  {
    if order == [] then head == 0
    else
      && head == order[0] != 0
      && head !in order[1..]
      && head in headers
      && RegionChain(headers, headers[head].next, order[1..])
  }

  ghost predicate Regions(headers: map<nat, Header>, head: nat, order: seq<nat>) {
    RegionChain(headers, head, order)
  }

  lemma {:induction false} RegionsIgnore(headers: map<nat, Header>, head: nat, order: seq<nat>, r: nat, h: Header)
    requires Regions(headers, head, order)
    requires r !in order || (r in headers && h.next == headers[r].next)
    ensures Regions(headers[r := h], head, order)
    decreases order
  {
    if order != [] {
      RegionsIgnore(headers, headers[head].next, order[1..], r, h);
    }
  }

  /** One step along the region list. */
  lemma RegionsStep(headers: map<nat, Header>, head: nat, order: seq<nat>)
    requires Regions(headers, head, order)
    ensures head == 0 <==> order == []
    ensures order != [] ==> head == order[0] && head in headers && Regions(headers, headers[head].next, order[1..])
  {
  }

  lemma RegionsPush(headers: map<nat, Header>, head: nat, order: seq<nat>, r: nat, h: Header)
    requires Regions(headers, head, order) && r !in order && r != 0 && h.next == head
    ensures Regions(headers[r := h], r, [r] + order)
  {
    RegionsIgnore(headers, head, order, r, h);
    assert ([r] + order)[1..] == order;
  }

  function SumFree(headers: map<nat, Header>, order: seq<nat>): nat
    requires forall r :: r in order ==> r in headers
  {
    if order == [] then 0 else headers[order[0]].free + SumFree(headers, order[1..])
  }

  function SumTotal(headers: map<nat, Header>, order: seq<nat>): nat
    requires forall r :: r in order ==> r in headers
  {
    if order == [] then 0 else headers[order[0]].total + SumTotal(headers, order[1..])
  }

  ghost predicate Distinct(order: seq<nat>) {
    order == [] || (order[0] !in order[1..] && Distinct(order[1..]))
  }

  lemma {:induction false} SumsIgnore(headers: map<nat, Header>, order: seq<nat>, r: nat, h: Header)
    requires forall q :: q in order ==> q in headers && q != r
    ensures SumFree(headers[r := h], order) == SumFree(headers, order)
    ensures SumTotal(headers[r := h], order) == SumTotal(headers, order)
  {
    if order != [] {
      assert forall q :: q in order[1..] ==> q in order;
      SumsIgnore(headers, order[1..], r, h);
    }
  }

  lemma {:induction false} SumsAfterUpdate(headers: map<nat, Header>, order: seq<nat>, r: nat, h: Header)
    requires r in order && Distinct(order) && forall q :: q in order ==> q in headers
    ensures SumFree(headers[r := h], order) == SumFree(headers, order) - headers[r].free + h.free
    ensures SumTotal(headers[r := h], order) == SumTotal(headers, order) - headers[r].total + h.total
  {
    assert forall q :: q in order[1..] ==> q in order;
    if r == order[0] {
      SumsIgnore(headers, order[1..], r, h);
    } else {
      SumsAfterUpdate(headers, order[1..], r, h);
    }
  }

  /** The allocator's counters are the sums over its regions. */
  ghost predicate Counted(headers: map<nat, Header>, order: seq<nat>, total: nat, free: nat) {
    && Distinct(order)
    && (forall r :: r in order ==> r in headers)
    && total == SumTotal(headers, order)
    && free == SumFree(headers, order)
  }

  lemma CountedPush(headers: map<nat, Header>, order: seq<nat>, total: nat, free: nat, r: nat, h: Header)
    requires Counted(headers, order, total, free) && r !in order
    ensures Counted(headers[r := h], [r] + order, total + h.total, free + h.free)
  {
    SumsIgnore(headers, order, r, h);
    assert ([r] + order)[1..] == order;
  }

  lemma CountedUpdate(headers: map<nat, Header>, order: seq<nat>, total: nat, free: nat, r: nat, h: Header)
    requires Counted(headers, order, total, free) && r in order && h.total == headers[r].total
    ensures free - headers[r].free + h.free >= 0
    ensures Counted(headers[r := h], order, total, free - headers[r].free + h.free)
  {
    SumsAfterUpdate(headers, order, r, h);
  }

  /** The sum over the regions is zero exactly when no region has a free block. */
  lemma {:induction false} SumFreeZero(headers: map<nat, Header>, order: seq<nat>)
    requires forall q :: q in order ==> q in headers
    ensures SumFree(headers, order) == 0 <==> forall q :: q in order ==> headers[q].free == 0
  {
    if order != [] {
      assert forall q :: q in order <==> q == order[0] || q in order[1..];
      SumFreeZero(headers, order[1..]);
    }
  }

  ghost function RegionEnd(region: nat, blocksize: nat, total: nat): nat {
    SlotAddress(region, blocksize, total)
  }

  ghost predicate IsSlot(region: nat, blocksize: nat, total: nat, p: nat) {
    p in SlotsOf(region, blocksize, total)
  }

  lemma EndBehind(region: nat, blocksize: nat, total: nat)
    ensures region + HEADER_SIZE <= RegionEnd(region, blocksize, total)
  {
    SlotsAscend(region, blocksize, 0, total);
  }

  lemma {:induction false} SlotsAscend(region: nat, blocksize: nat, i: nat, j: nat)
    requires i <= j
    ensures SlotAddress(region, blocksize, i) <= SlotAddress(region, blocksize, j)
    ensures i < j ==> SlotAddress(region, blocksize, i) + blocksize <= SlotAddress(region, blocksize, j)
  {
    if i < j {
      SlotsAscend(region, blocksize, i, j - 1);
    }
  }

  lemma {:induction false} SlotAddressSum(region: nat, blocksize: nat, i: nat)
    ensures SlotAddress(region, blocksize, i) == region + HEADER_SIZE + i * blocksize
  {
    if i > 0 {
      SlotAddressSum(region, blocksize, i - 1);
      MulDistributes(i, 1, blocksize);
    }
  }

  lemma SlotsStep(region: nat, blocksize: nat, total: nat, p: nat)
    ensures p !in SlotsOf(region, blocksize, 0)
    ensures total > 0 ==>
              (p in SlotsOf(region, blocksize, total) <==>
                 p in SlotsOf(region, blocksize, total - 1) || p == SlotAddress(region, blocksize, total - 1))
  {
    hide SlotAddress;
  }

  /** The blocks of a region are the addresses a whole number of block sizes behind its header. */
  lemma {:induction false} SlotsOfMeaning(region: nat, blocksize: nat, total: nat, p: nat)
    ensures p in SlotsOf(region, blocksize, total)
       <==> exists i: nat :: i < total && p == SlotAddress(region, blocksize, i)
  {
    hide SlotsOf, SlotAddress;
    SlotsStep(region, blocksize, total, p);
    if total > 0 {
      SlotsOfMeaning(region, blocksize, total - 1, p);
    }
  }

  /** A block lies behind the header of its region and before the region's end. */
  lemma SlotInside(region: nat, blocksize: nat, total: nat, p: nat)
    requires IsSlot(region, blocksize, total, p)
    ensures region + HEADER_SIZE <= p && p + blocksize <= RegionEnd(region, blocksize, total)
  {
    SlotsOfMeaning(region, blocksize, total, p);
    var i: nat :| i < total && p == SlotAddress(region, blocksize, i);
    SlotsAscend(region, blocksize, 0, i);
    SlotsAscend(region, blocksize, i, total);
  }

  /** Where the regions and their blocks lie; only slab_grow changes it. */
  datatype Shape = Shape(blocksize: nat, totals: map<nat, nat>, owner: map<nat, nat>) {
    ghost function End(r: nat): nat
      requires r in totals
    {
      RegionEnd(r, blocksize, totals[r])
    }

    ghost predicate IsBlock(r: nat, p: nat)
      requires r in totals
    {
      IsSlot(r, blocksize, totals[r], p)
    }

    /** The blocks are exactly those behind the headers, each owned by its region, and the regions do
        not overlap. */
    ghost predicate Valid() {
      && blocksize >= LINK_SIZE
      && (forall p :: p in owner ==> owner[p] in totals && IsBlock(owner[p], p))
      && (forall r, p :: r in totals && IsBlock(r, p) ==> p in owner && owner[p] == r)
      && (forall r, q :: r in totals && q in totals && r != q ==> End(r) <= q || End(q) <= r)
    }

    /** The address test of slab_free: behind the start of the header, before the end of the region. */
    ghost predicate Within(r: nat, p: nat)
      requires r in totals
    {
      r < p < End(r)
    }
  }

  /** The address test of slab_free finds a block's owner and no other region. */
  lemma WithinOwner(shape: Shape, r: nat, p: nat)
    requires shape.Valid() && r in shape.totals && p in shape.owner
    ensures shape.Within(r, p) <==> r == shape.owner[p]
    ensures p != 0
  {
    var o := shape.owner[p];
    SlotInside(o, shape.blocksize, shape.totals[o], p);
    if r != o {
      assert shape.End(r) <= o || shape.End(o) <= r;
    }
  }

  /** The allocator's memory together with the order of its regions and their free lists. */
  datatype Layout<T> = Layout(
    shape: Shape, regions: nat, headers: map<nat, Header>, slots: map<nat, Slot<T>>,
    order: seq<nat>, lists: map<nat, seq<nat>>)
  {
    ghost predicate Headers() {
      && Regions(headers, regions, order)
      && headers.Keys == shape.totals.Keys == lists.Keys
      && (forall r :: r in headers <==> r in order)
      && (forall r :: r in headers ==> headers[r].total == shape.totals[r])
    }

    /** Every free list holds as many blocks as its header counts. */
    ghost predicate FreeLists()
      requires Headers()
    {
      forall r :: r in headers ==> FreeList(slots, headers[r], lists[r])
    }

    /** A region lists only its own blocks. */
    ghost predicate ListsOwn()
      requires Headers()
    {
      forall r, p :: r in headers && p in lists[r] ==> p in shape.owner && shape.owner[p] == r
    }

    /** A block is unused exactly when its region lists it. */
    ghost predicate Accounted()
      requires Headers()
    {
      && slots.Keys == shape.owner.Keys
      && (forall p :: p in slots ==> shape.owner[p] in headers)
      && (forall p :: p in slots ==> (slots[p].Unused? <==> p in lists[shape.owner[p]]))
    }

    ghost predicate Valid() {
      shape.Valid() && Headers() && FreeLists() && ListsOwn() && Accounted()
    }
  }

  ghost function Pop<T>(l: Layout<T>, r: nat, value: T): Layout<T>
    requires r in l.headers && l.headers[r].blocks in l.slots && l.slots[l.headers[r].blocks].Unused?
    requires l.headers[r].free > 0 && r in l.lists && l.lists[r] != []
  {
    var h := l.headers[r];
    l.(slots := l.slots[h.blocks := InUse(value)],
       headers := l.headers[r := h.(blocks := l.slots[h.blocks].next, free := h.free - 1)],
       lists := l.lists[r := l.lists[r][1..]])
  }

  ghost function Push<T>(l: Layout<T>, r: nat, p: nat): Layout<T>
    requires r in l.headers && r in l.lists
  {
    var h := l.headers[r];
    l.(slots := l.slots[p := Unused(h.blocks)],
       headers := l.headers[r := h.(blocks := p, free := h.free + 1)],
       lists := l.lists[r := [p] + l.lists[r]])
  }

  /** Unlinking the first block of a free list. */
  lemma PopLists<T>(l: Layout<T>, r: nat, value: T)
    requires l.Valid() && r in l.headers && l.headers[r].free > 0
    ensures var p := l.headers[r].blocks;
            && p in l.slots && l.slots[p].Unused? && l.lists[r] == [p] + l.lists[r][1..] && p !in l.lists[r][1..]
            && l.shape.owner[p] == r
    ensures var l' := Pop(l, r, value);
            forall q :: q in l.headers ==> FreeList(l'.slots, l'.headers[q], l'.lists[q])
  {
    hide Shape.Valid, Regions, FreeList;
    var p := l.headers[r].blocks;
    FreeListPop(l.slots, l.headers[r], l.lists[r], value);
    assert p in l.lists[r];
    forall q | q in l.headers && q != r
      ensures FreeList(l.slots[p := InUse(value)], l.headers[q], l.lists[q])
    {
      FreeListIgnores(l.slots, l.headers[q], l.lists[q], p, InUse(value));
    }
  }

  /** Taking the first block off the free list of one region. */
  lemma PopKeeps<T>(l: Layout<T>, r: nat, value: T)
    requires l.Valid() && r in l.headers && l.headers[r].free > 0
    ensures var p := l.headers[r].blocks; p in l.slots && l.slots[p].Unused? && l.lists[r] != []
    ensures Pop(l, r, value).Valid()
  {
    hide FreeList, Regions, Shape.Valid;
    PopLists(l, r, value);
    var l' := Pop(l, r, value);
    RegionsIgnore(l.headers, l.regions, l.order, r, l'.headers[r]);
    StillAccounted(l, l', r, l.headers[r].blocks);
  }

  /** Moving one block on or off the list of its own region keeps every block accounted for. */
  lemma StillAccounted<T>(l: Layout<T>, l': Layout<T>, r: nat, p: nat)
    requires l.Headers() && l.ListsOwn() && l.Accounted() && l'.Headers()
    requires l'.shape == l.shape && p in l.slots && r in l.headers && l.shape.owner[p] == r
    requires p in l'.slots && l'.slots == l.slots[p := l'.slots[p]]
    requires l'.lists == l.lists[r := l'.lists[r]]
    requires l'.slots[p].Unused? <==> p in l'.lists[r]
    requires l.lists[r] == [p] + l'.lists[r] || l'.lists[r] == [p] + l.lists[r]
    ensures l'.ListsOwn() && l'.Accounted()
  {
    hide Regions, Layout.Headers, Layout.ListsOwn;
    StillOwn(l, l', r, p);
    StillListed(l, l', r, p);
  }

  lemma StillOwn<T>(l: Layout<T>, l': Layout<T>, r: nat, p: nat)
    requires l.Headers() && l.ListsOwn() && l'.Headers()
    requires l'.shape == l.shape && r in l.headers && p in l.shape.owner && l.shape.owner[p] == r
    requires l'.lists == l.lists[r := l'.lists[r]]
    requires l.lists[r] == [p] + l'.lists[r] || l'.lists[r] == [p] + l.lists[r]
    ensures l'.ListsOwn()
  {
    hide Regions;
    var before, after := l.lists[r], l'.lists[r];
    assert forall b :: b != p && b in after ==> b in before;
  }

  lemma StillListed<T>(l: Layout<T>, l': Layout<T>, r: nat, p: nat)
    requires l.Headers() && l.ListsOwn() && l.Accounted() && l'.Headers()
    requires l'.shape == l.shape && p in l.slots && r in l.headers && l.shape.owner[p] == r
    requires p in l'.slots && l'.slots == l.slots[p := l'.slots[p]]
    requires l'.lists == l.lists[r := l'.lists[r]]
    requires l'.slots[p].Unused? <==> p in l'.lists[r]
    requires l.lists[r] == [p] + l'.lists[r] || l'.lists[r] == [p] + l.lists[r]
    ensures l'.Accounted()
  {
    hide Regions, Layout.ListsOwn;
    var before, after := l.lists[r], l'.lists[r];
    forall b | b in l'.slots
      ensures l'.slots[b].Unused? <==> b in l'.lists[l'.shape.owner[b]]
    {
      if b != p {
        assert b in after <==> b in before;
      }
    }
  }

  /** Linking a block in at the front of a free list. */
  lemma PushLists<T>(l: Layout<T>, r: nat, p: nat)
    requires l.Valid() && r in l.headers && l.shape.Within(r, p) && p in l.slots && l.slots[p].InUse?
    ensures l.shape.owner[p] == r
    ensures var l' := Push(l, r, p);
            forall q :: q in l.headers ==> FreeList(l'.slots, l'.headers[q], l'.lists[q])
  {
    hide Shape.Valid, Regions, FreeList;
    WithinOwner(l.shape, r, p);
    var s := Unused(l.headers[r].blocks);
    assert forall q :: q in l.headers ==> p !in l.lists[q];
    FreeListPush(l.slots, l.headers[r], l.lists[r], p);
    forall q | q in l.headers && q != r
      ensures FreeList(l.slots[p := s], l.headers[q], l.lists[q])
    {
      FreeListIgnores(l.slots, l.headers[q], l.lists[q], p, s);
    }
  }

  /** Returning a block in use to the front of its region's free list. */
  lemma PushKeeps<T>(l: Layout<T>, r: nat, p: nat)
    requires l.Valid() && r in l.shape.totals && l.shape.Within(r, p) && p in l.slots && l.slots[p].InUse?
    ensures r in l.headers && r in l.lists
    ensures Push(l, r, p).Valid()
  {
    hide FreeList, Regions, Shape.Valid;
    PushLists(l, r, p);
    var l' := Push(l, r, p);
    RegionsIgnore(l.headers, l.regions, l.order, r, l'.headers[r]);
    StillAccounted(l, l', r, p);
  }

  /** Writing into a block in use does not touch the allocator's own structure. */
  lemma WriteKeeps<T>(l: Layout<T>, p: nat, value: T)
    requires l.Valid() && p in l.slots && l.slots[p].InUse?
    ensures l.(slots := l.slots[p := InUse(value)]).Valid()
  {
    hide Shape.Valid, Regions, FreeList;
    forall r | r in l.headers
      ensures FreeList(l.slots[p := InUse(value)], l.headers[r], l.lists[r])
    {
      FreeListIgnores(l.slots, l.headers[r], l.lists[r], p, InUse(value));
    }
  }

  ghost function Widened(shape: Shape, buf: nat, n: nat, list: seq<nat>): Shape {
    shape.(totals := shape.totals[buf := n],
           owner := shape.owner + map p | p in list :: buf)
  }

  ghost function Grown<T>(l: Layout<T>, buf: nat, n: nat, list: seq<nat>, slots: map<nat, Slot<T>>): Layout<T>
    requires list != []
  {
    Layout(Widened(l.shape, buf, n, list), buf, l.headers[buf := Header(l.regions, n, n, list[0])], slots,
           [buf] + l.order, l.lists[buf := list])
  }

  /** `list` holds the blocks of a buffer in ascending order. */
  ghost predicate BlocksOf(buf: nat, blocksize: nat, n: nat, list: seq<nat>) {
    && |list| == n > 0
    && forall i :: 0 <= i < n ==> list[i] == SlotAddress(buf, blocksize, i)
  }

  ghost predicate Beside(shape: Shape, buf: nat, end: nat) {
    buf != 0 && forall r :: r in shape.totals ==> shape.End(r) <= buf || end <= r
  }

  lemma WidenedBlocks(shape: Shape, buf: nat, n: nat, list: seq<nat>)
    requires shape.Valid() && buf !in shape.totals && forall p :: p in list ==> p !in shape.owner
    requires forall p :: p in list <==> IsSlot(buf, shape.blocksize, n, p)
    ensures var w := Widened(shape, buf, n, list);
            && (forall p :: p in w.owner ==> w.owner[p] in w.totals && w.IsBlock(w.owner[p], p))
            && (forall r, p :: r in w.totals && w.IsBlock(r, p) ==> p in w.owner && w.owner[p] == r)
  {
    hide IsSlot;
    var w := Widened(shape, buf, n, list);
    forall p | p in w.owner
      ensures w.owner[p] in w.totals && w.IsBlock(w.owner[p], p)
    {
      if p !in list {
        assert w.owner[p] == shape.owner[p] && shape.IsBlock(shape.owner[p], p);
      }
    }
    forall r, p | r in w.totals && w.IsBlock(r, p)
      ensures p in w.owner && w.owner[p] == r
    {
      if r != buf {
        assert shape.IsBlock(r, p);
      }
    }
  }

  lemma WidenedApart(shape: Shape, buf: nat, n: nat, list: seq<nat>)
    requires shape.Valid() && buf !in shape.totals && Beside(shape, buf, RegionEnd(buf, shape.blocksize, n))
    ensures var w := Widened(shape, buf, n, list);
            forall r, q :: r in w.totals && q in w.totals && r != q ==> w.End(r) <= q || w.End(q) <= r
  {
    hide RegionEnd, IsSlot;
    var w := Widened(shape, buf, n, list);
    forall r, q | r in w.totals && q in w.totals && r != q
      ensures w.End(r) <= q || w.End(q) <= r
    {
      assert r != buf ==> w.End(r) == shape.End(r);
      assert q != buf ==> w.End(q) == shape.End(q);
    }
  }

  lemma WidenedValid(shape: Shape, buf: nat, n: nat, list: seq<nat>)
    requires shape.Valid() && BlocksOf(buf, shape.blocksize, n, list)
    requires Beside(shape, buf, RegionEnd(buf, shape.blocksize, n))
    ensures buf != 0 && buf !in shape.totals && (forall p :: p in list ==> p !in shape.owner)
    ensures Widened(shape, buf, n, list).Valid()
  {
    hide RegionEnd, IsSlot, BlocksOf;
    EndBehind(buf, shape.blocksize, n);
    ListCovers(buf, shape.blocksize, n, list);
    forall r | r in shape.totals
      ensures r != buf
    {
      EndBehind(r, shape.blocksize, shape.totals[r]);
    }
    forall p | p in list
      ensures p !in shape.owner
    {
      SlotInside(buf, shape.blocksize, n, p);
      if p in shape.owner {
        SlotInside(shape.owner[p], shape.blocksize, shape.totals[shape.owner[p]], p);
      }
    }
    WidenedBlocks(shape, buf, n, list);
    WidenedApart(shape, buf, n, list);
  }

  /** Putting a region of unused, linked blocks in front of the others. */
  lemma GrowKeeps<T>(l: Layout<T>, buf: nat, n: nat, list: seq<nat>, slots: map<nat, Slot<T>>)
    requires l.Valid() && BlocksOf(buf, l.shape.blocksize, n, list)
    requires Beside(l.shape, buf, RegionEnd(buf, l.shape.blocksize, n))
    requires |list| == n > 0 && FreeList(slots, Header(l.regions, n, n, list[0]), list)
    requires forall p :: p in list ==> p in slots && slots[p].Unused?
    requires Extends(l.slots, slots, list)
    ensures Grown(l, buf, n, list, slots).Valid() && buf !in l.order
  {
    hide Shape.Valid, FreeList, Regions, RegionEnd, BlocksOf, Beside, Extends;
    WidenedValid(l.shape, buf, n, list);
    GrownHeaders(l, buf, n, list, slots);
    GrownListsOwn(l, buf, n, list, slots);
    GrownAccounted(l, buf, n, list, slots);
    forall r | r in l.headers
      ensures FreeList(slots, l.headers[r], l.lists[r])
    {
      FreeListKept(l.slots, slots, list, l.headers[r], l.lists[r]);
    }
  }

  lemma NewBlocks<T>(l: Layout<T>, buf: nat, n: nat, list: seq<nat>)
    requires l.Valid() && BlocksOf(buf, l.shape.blocksize, n, list)
    requires Beside(l.shape, buf, RegionEnd(buf, l.shape.blocksize, n))
    ensures forall p :: p in list ==> p !in l.slots
  {
    hide Shape.Valid, FreeList, Regions, RegionEnd, BlocksOf, Beside;
    WidenedValid(l.shape, buf, n, list);
  }

  lemma GrownHeaders<T>(l: Layout<T>, buf: nat, n: nat, list: seq<nat>, slots: map<nat, Slot<T>>)
    requires l.Headers() && |list| == n > 0 && buf != 0 && buf !in l.shape.totals
    ensures Grown(l, buf, n, list, slots).Headers() && buf !in l.order
  {
    hide Regions;
    RegionsPush(l.headers, l.regions, l.order, buf, Header(l.regions, n, n, list[0]));
  }

  lemma GrownListsOwn<T>(l: Layout<T>, buf: nat, n: nat, list: seq<nat>, slots: map<nat, Slot<T>>)
    requires l.Headers() && l.ListsOwn() && list != [] && buf !in l.headers
    requires Grown(l, buf, n, list, slots).Headers()
    requires forall p :: p in list ==> p !in l.shape.owner
    ensures Grown(l, buf, n, list, slots).ListsOwn()
  {
    hide Regions;
  }

  lemma GrownAccounted<T>(l: Layout<T>, buf: nat, n: nat, list: seq<nat>, slots: map<nat, Slot<T>>)
    requires l.Headers() && l.Accounted() && list != [] && buf !in l.headers
    requires forall p :: p in list ==> p in slots && slots[p].Unused? && p !in l.slots
    requires Extends(l.slots, slots, list)
    requires Grown(l, buf, n, list, slots).Headers()
    ensures Grown(l, buf, n, list, slots).Accounted()
  {
    hide Regions;
    var l' := Grown(l, buf, n, list, slots);
    assert slots.Keys == l'.shape.owner.Keys;
    forall p | p in slots
      ensures l'.shape.owner[p] in l'.headers && (slots[p].Unused? <==> p in l'.lists[l'.shape.owner[p]])
    {
      if p in list {
        assert l'.shape.owner[p] == buf;
      } else {
        assert l'.shape.owner[p] == l.shape.owner[p] != buf;
      }
    }
  }

  /** No block is free exactly when every block is in use. */
  lemma NoneFree<T>(l: Layout<T>, total: nat, free: nat)
    requires l.Valid() && Counted(l.headers, l.order, total, free)
    ensures free == 0 <==> forall p :: p in l.slots ==> l.slots[p].InUse?
  {
    hide Shape.Valid, Regions, Chain;
    SumFreeZero(l.headers, l.order);
    forall r | r in l.headers
      ensures l.headers[r].free == 0 <==> l.lists[r] == []
    {
      assert FreeList(l.slots, l.headers[r], l.lists[r]);
    }
    if free != 0 {
      var r :| r in l.order && l.headers[r].free != 0;
      var p := l.lists[r][0];
      assert p in l.lists[r] && l.shape.owner[p] == r;
    } else {
      forall p | p in l.slots
        ensures l.slots[p].InUse?
      {
        assert l.lists[l.shape.owner[p]] == [];
      }
    }
  }

  lemma {:induction false} ListCovers(buf: nat, blocksize: nat, n: nat, list: seq<nat>)
    requires BlocksOf(buf, blocksize, n, list)
    ensures forall p :: p in list <==> IsSlot(buf, blocksize, n, p)
  {
    var shorter := list[..n - 1];
    assert list == shorter + [SlotAddress(buf, blocksize, n - 1)];
    if n > 1 {
      ListCovers(buf, blocksize, n - 1, shorter);
    }
    assert forall p :: IsSlot(buf, blocksize, n, p) <==> IsSlot(buf, blocksize, n - 1, p) || p == list[n - 1];
  }

  lemma InOrder<T>(l: Layout<T>, r: nat)
    requires l.Valid() && (r in l.headers || r in l.shape.totals)
    ensures r in l.headers && r in l.lists && r in l.order
  {
    hide Shape.Valid, Regions, FreeList;
  }

  /** The owner of a block passes the address test. */
  lemma FoundOwner<T>(l: Layout<T>, p: nat)
    requires l.Valid() && p in l.slots
    ensures p in l.shape.owner && l.shape.owner[p] in l.shape.totals && l.shape.Within(l.shape.owner[p], p)
  {
    hide Shape.Valid, Regions, FreeList;
    WithinOwner(l.shape, l.shape.owner[p], p);
  }

  lemma EndSum(region: nat, blocksize: nat, total: nat)
    ensures RegionEnd(region, blocksize, total) == region + HEADER_SIZE + total * blocksize
  {
    SlotAddressSum(region, blocksize, total);
  }

  lemma BlockNotNull<T>(l: Layout<T>, p: nat)
    requires l.Valid() && p in l.slots
    ensures p != 0
  {
    hide Shape.Valid, Regions;
    WithinOwner(l.shape, l.shape.owner[p], p);
  }

  lemma ExtendsOne<T>(slots: map<nat, Slot<T>>, slots': map<nat, Slot<T>>, list: seq<nat>, i: nat, s: Slot<T>)
    requires i < |list| && Extends(slots, slots', list[..i]) && forall p :: p in list ==> p !in slots
    ensures Extends(slots, slots'[list[i] := s], list[..i + 1])
  {
    assert list[..i + 1] == list[..i] + [list[i]];
  }

  lemma NothingLinked<T>(slots: map<nat, Slot<T>>, list: seq<nat>)
    requires list != []
    ensures LinkedUpTo(slots, list, 0) && Extends(slots, slots, list[..0])
  {
  }

  lemma MakeBlocks(buf: nat, blocksize: nat, n: nat, list: seq<nat>)
    requires |list| == n > 0 && forall i :: 0 <= i < n ==> list[i] == SlotAddress(buf, blocksize, i)
    ensures BlocksOf(buf, blocksize, n, list) && list[0] == buf + HEADER_SIZE
  {
  }

  lemma FirstBlock(buf: nat, blocksize: nat, n: nat, list: seq<nat>)
    requires BlocksOf(buf, blocksize, n, list)
    ensures |list| == n > 0 && list[0] == buf + HEADER_SIZE
  {
  }

  lemma NextBlock(buf: nat, blocksize: nat, n: nat, list: seq<nat>, i: nat)
    requires BlocksOf(buf, blocksize, n, list) && i + 1 < n
    ensures |list| == n && list[i + 1] == list[i] + blocksize
  {
  }

  /** The number of blocks that a buffer has room for. */
  function Capacity(len: nat, blocksize: nat): nat
    requires blocksize > 0 && len >= HEADER_SIZE
  {
    (len - HEADER_SIZE) / blocksize
  }

  lemma CapacityFits(buf: nat, len: nat, blocksize: nat)
    requires blocksize > 0 && len >= blocksize + HEADER_SIZE
    ensures Capacity(len, blocksize) > 0
    ensures RegionEnd(buf, blocksize, Capacity(len, blocksize)) <= buf + len
  {
    Quotient(len - HEADER_SIZE, blocksize);
    SlotAddressSum(buf, blocksize, Capacity(len, blocksize));
  }

  lemma MakeBeside(shape: Shape, buf: nat, len: nat, n: nat)
    requires buf != 0 && RegionEnd(buf, shape.blocksize, n) <= buf + len
    requires forall r :: r in shape.totals ==> shape.End(r) <= buf || buf + len <= r
    ensures Beside(shape, buf, RegionEnd(buf, shape.blocksize, n))
  {
  }

  lemma BlocksInside(buf: nat, blocksize: nat, n: nat, list: seq<nat>)
    requires BlocksOf(buf, blocksize, n, list)
    ensures forall p :: p in list ==> buf + HEADER_SIZE <= p && p + blocksize <= RegionEnd(buf, blocksize, n)
  {
    forall i | 0 <= i < n
      ensures buf + HEADER_SIZE <= list[i] && list[i] + blocksize <= RegionEnd(buf, blocksize, n)
    {
      SlotsAscend(buf, blocksize, 0, i);
      SlotsAscend(buf, blocksize, i, n);
    }
  }

  lemma Quotient(len: nat, blocksize: nat)
    requires 0 < blocksize <= len
    ensures len / blocksize >= 1 && (len / blocksize) * blocksize <= len
  {
  }

  lemma ListAscends(buf: nat, blocksize: nat, n: nat, list: seq<nat>)
    requires blocksize > 0 && BlocksOf(buf, blocksize, n, list)
    ensures forall i, j :: 0 <= i < j < |list| ==> list[i] < list[j]
  {
    forall i, j | 0 <= i < j < |list|
      ensures list[i] < list[j]
    {
      SlotsAscend(buf, blocksize, i, j);
    }
  }

  class SlabAllocator<T(==)> {
    const blank: T  // the owner's value whose bytes are all zero
    var blocksize: nat
    var regions: nat
    var total: nat
    var free: nat
    var headers: map<nat, Header>
    var slots: map<nat, Slot<T>>
    ghost var order: seq<nat>             // the regions in list order
    ghost var lists: map<nat, seq<nat>>   // the free list of every region
    ghost var shape: Shape                // where the regions and their blocks lie

    constructor (blank: T)
      ensures this.blank == blank
    {
      this.blank := blank;
    }

    ghost function Memory(): Layout<T>
      reads this
    {
      Layout(shape, regions, headers, slots, order, lists)
    }

    ghost predicate Valid()
      reads this
    {
      && Memory().Valid()
      && shape.blocksize == blocksize >= LINK_SIZE
      && Counted(headers, order, total, free)
    }

    ghost predicate Live(p: nat)
      reads this
    {
      p in slots && slots[p].InUse?
    }

    /** slab_init */
    method Init(size: nat)
      modifies this
      ensures Valid() && total == free == 0 && slots == map[] && headers == map[] && shape.totals == map[]
      ensures blocksize == if size > LINK_SIZE then size else LINK_SIZE
    {
      blocksize := if size > LINK_SIZE then size else LINK_SIZE;
      regions := 0;
      total := 0;
      free := 0;
      headers := map[];
      slots := map[];
      order := [];
      lists := map[];
      shape := Shape(blocksize, map[], map[]);
    }

    /** The linking loop of slab_grow with its two slips corrected: the blocks start behind the header,
        and `n` of them are linked. */
    method Link(buf: nat, n: nat, ghost list: seq<nat>)
      requires BlocksOf(buf, blocksize, n, list) && blocksize > 0
      requires forall p :: p in list ==> p !in slots
      modifies this`slots
      ensures Extends(old(slots), slots, list)
      ensures forall p :: p in list ==> p in slots && slots[p].Unused?
      ensures Chain(slots, list[0], list)
    {
      hide LinkedUpTo, Chain, Extends, BlocksOf;
      FirstBlock(buf, blocksize, n, list);
      ListAscends(buf, blocksize, n, list);
      BlocksInside(buf, blocksize, n, list);
      NothingLinked(slots, list);
      var block := buf + HEADER_SIZE;
      for i := 0 to n - 1
        invariant block == list[i]
        invariant Extends(old(slots), slots, list[..i])
        invariant LinkedUpTo(slots, list, i)
      {
        NextBlock(buf, blocksize, n, list, i);
        LinkOne(slots, list, i);
        ExtendsOne(old(slots), slots, list, i, Unused(block + blocksize));
        slots := slots[block := Unused(block + blocksize)];
        block := block + blocksize;
      }
      LinkLast(slots, list);
      ExtendsOne(old(slots), slots, list, n - 1, Unused(0));
      assert list[..n - 1 + 1] == list;
      slots := slots[block := Unused(0)];
    }

    /** slab_grow */
    method Grow(buf: nat, len: nat) returns (err: Error, ghost added: seq<nat>)
      requires Valid()
      requires buf != 0 ==> forall r :: r in shape.totals ==> shape.End(r) <= buf || buf + len <= r
      modifies this
      ensures Valid() && blocksize == old(blocksize)
      ensures err == if buf == 0 then NullArgument
                     else if len < blocksize + HEADER_SIZE then RegionTooSmall else Ok
      ensures err != Ok ==> unchanged(this)
      ensures err == Ok ==>
                && total == old(total) + Capacity(len, blocksize)
                && free == old(free) + Capacity(len, blocksize)
                && Extends(old(slots), slots, added)
                && forall p :: p in added ==>
                     p in slots && slots[p].Unused? && buf + HEADER_SIZE <= p && p + blocksize <= buf + len
    {
      hide Layout.Valid, RegionEnd, BlocksOf, Beside, Extends, Chain, Capacity, Counted;
      added := [];
      if buf == 0 {
        err := NullArgument;
        return;
      }
      if len < blocksize + HEADER_SIZE {
        err := RegionTooSmall;
        return;
      }
      var n := Capacity(len, blocksize);
      CapacityFits(buf, len, blocksize);
      ghost var l, size := Memory(), blocksize;
      ghost var list := seq(n, i requires 0 <= i => SlotAddress(buf, size, i));
      MakeBlocks(buf, blocksize, n, list);
      MakeBeside(shape, buf, len, n);
      NewBlocks(l, buf, n, list);
      BlocksInside(buf, blocksize, n, list);
      Link(buf, n, list);
      GrowKeeps(l, buf, n, list, slots);
      CountedPush(headers, order, total, free, buf, Header(regions, n, n, list[0]));
      headers := headers[buf := Header(regions, n, n, buf + HEADER_SIZE)];
      regions := buf;
      total := total + n;
      free := free + n;
      order := [buf] + order;
      lists := lists[buf := list];
      shape := Widened(shape, buf, n, list);
      added := list;
      assert Memory() == Grown(l, buf, n, list, slots);
      err := Ok;
    }

    /** The search of slab_alloc for the first region that is not fully allocated. */
    method FindFree() returns (r: nat)
      requires Valid() && free != 0
      ensures r in headers && headers[r].free > 0
    {
      hide Shape.Valid, Regions, Layout.FreeLists, Layout.ListsOwn, Layout.Accounted;
      r := regions;
      ghost var rest := order;
      RegionsStep(headers, r, rest);
      while r != 0 && headers[r].free == 0
        invariant Regions(headers, r, rest)
        invariant r == 0 <==> rest == []
        invariant r != 0 ==> r == rest[0] && r in headers
        invariant forall q :: q in rest ==> q in headers
        invariant SumFree(headers, rest) == free
        decreases rest
      {
        RegionsStep(headers, r, rest);
        RegionsStep(headers, headers[r].next, rest[1..]);
        assert forall q :: q in rest[1..] ==> q in rest;
        r := headers[r].next;
        rest := rest[1..];
      }
    }

    /** The search of slab_free for the region of a block. */
    method FindRegion(block: nat) returns (region: nat)
      requires Valid()
      ensures region != 0 ==> region in shape.totals && shape.Within(region, block)
      ensures region == 0 ==> forall r :: r in shape.totals ==> !shape.Within(r, block)
    {
      hide Shape.Valid, Regions, Layout.FreeLists, Layout.ListsOwn, Layout.Accounted, RegionEnd;
      region := regions;
      ghost var rest := order;
      RegionsStep(headers, region, rest);
      while region != 0 && !(region < block < region + HEADER_SIZE + headers[region].total * blocksize)
        invariant Regions(headers, region, rest)
        invariant region == 0 <==> rest == []
        invariant region != 0 ==> region == rest[0] && region in headers
        invariant forall q :: q in rest ==> q in headers
        invariant forall q :: q in headers && q !in rest ==> !shape.Within(q, block)
        decreases rest
      {
        EndSum(region, blocksize, headers[region].total);
        RegionsStep(headers, region, rest);
        RegionsStep(headers, headers[region].next, rest[1..]);
        assert forall q :: q in rest <==> q == region || q in rest[1..];
        region := headers[region].next;
        rest := rest[1..];
      }
      if region != 0 {
        EndSum(region, blocksize, headers[region].total);
      }
    }

    /** slab_alloc */
    method Alloc() returns (p: nat)
      requires Valid()
      modifies this
      ensures Valid() && shape == old(shape)
      ensures p == 0 <==> forall q :: q in old(slots) ==> old(slots)[q].InUse?
      ensures p == 0 <==> old(free) == 0
      ensures p == 0 ==> unchanged(this)
      ensures p != 0 ==>
                && p in old(slots) && old(slots)[p].Unused?
                && slots == old(slots)[p := InUse(blank)]
                && free == old(free) - 1 && total == old(total)
    {
      hide Layout.Valid, Counted;
      NoneFree(Memory(), total, free);
      if free == 0 {
        return 0;
      }
      var r := FindFree();
      ghost var l := Memory();
      PopKeeps(l, r, blank);
      InOrder(l, r);
      CountedUpdate(headers, order, total, free, r, Pop(l, r, blank).headers[r]);
      var h := headers[r];
      p := h.blocks;
      BlockNotNull(l, p);
      headers := headers[r := h.(blocks := slots[p].next, free := h.free - 1)];
      free := free - 1;
      slots := slots[p := InUse(blank)];
      lists := lists[r := lists[r][1..]];
      assert Memory() == Pop(l, r, blank);
    }

    /** A store through the owner's pointer. */
    method Write(p: nat, value: T)
      requires Valid() && Live(p)
      modifies this
      ensures Valid() && shape == old(shape) && total == old(total) && free == old(free)
      ensures slots == old(slots)[p := InUse(value)]
    {
      hide Layout.Valid, Counted;
      WriteKeeps(Memory(), p, value);
      slots := slots[p := InUse(value)];
    }

    /** slab_free. Returning a block twice is the caller's error, and so is an address inside a region
        that is not a block. */
    method Free(block: nat) returns (err: Error)
      requires Valid()
      requires block in slots ==> slots[block].InUse?
      requires block != 0 && block !in slots ==> forall r :: r in shape.totals ==> !shape.Within(r, block)
      modifies this
      ensures Valid() && shape == old(shape) && total == old(total)
      ensures err == if block == 0 then NullArgument else if block in old(slots) then Ok else ForeignBlock
      ensures err != Ok ==> unchanged(this)
      ensures err == Ok ==>
                && free == old(free) + 1
                && exists next :: slots == old(slots)[block := Unused(next)]
    {
      hide Layout.Valid, Counted;
      if block == 0 {
        return NullArgument;
      }
      ghost var l := Memory();
      if block in slots {
        FoundOwner(l, block);
      }
      var region := FindRegion(block);
      if region == 0 {
        return ForeignBlock;
      }
      PushKeeps(l, region, block);
      InOrder(l, region);
      CountedUpdate(headers, order, total, free, region, Push(l, region, block).headers[region]);
      var h := headers[region];
      slots := slots[block := Unused(h.blocks)];
      headers := headers[region := h.(blocks := block, free := h.free + 1)];
      free := free + 1;
      lists := lists[region := [block] + lists[region]];
      assert Memory() == Push(l, region, block);
      return Ok;
    }
  }

  // --- slab_grow as the source has it --------------------------------------------------------
  //
  // The source computes the start of the blocks as `buf - len`, with `len` already reduced by the
  // header size, and its loop links one block more than it counts. Addresses wrap at 64 bits.

  function WrittenBlock(buf: u64, len: u64, blocksize: u64, i: nat): u64
    requires len >= HEADER_SIZE
  {
    if i == 0 then Sub(buf, len - HEADER_SIZE) else Add(WrittenBlock(buf, len, blocksize, i - 1), blocksize)
  }

  /** Block i is linked to block i + 1. */
  ghost predicate LinkedOn(links: map<nat, nat>, buf: u64, len: u64, blocksize: u64, i: nat)
    requires len >= HEADER_SIZE
  {
    var b := WrittenBlock(buf, len, blocksize, i);
    b in links && links[b] == WrittenBlock(buf, len, blocksize, i + 1)
  }

  /** The stores of links, the last of them into the header's own `next`. */
  method LinkAsWritten(buf: u64, len: u64, blocksize: u64, regions: nat) returns (links: map<nat, nat>, total: nat)
    requires len >= blocksize + HEADER_SIZE && blocksize >= LINK_SIZE
    ensures total == Capacity(len, blocksize)
    ensures forall i :: 0 <= i < total ==> LinkedOn(links, buf, len, blocksize, i)
    ensures var last := WrittenBlock(buf, len, blocksize, total);
            last in links && links[last] == if (len - HEADER_SIZE) % blocksize == 0 then regions else 0
    ensures buf in links && links[buf] == regions
  {
    hide WrittenBlock, LinkedOn;
    total := (len - HEADER_SIZE) / blocksize;
    var next := Sub(buf, len - HEADER_SIZE);
    WrittenStep(buf, len, blocksize, 0);
    var block := next;
    links := map[];
    for i := 0 to total
      invariant block == next == WrittenBlock(buf, len, blocksize, i)
      invariant forall k :: 0 <= k < i ==> LinkedOn(links, buf, len, blocksize, k)
    {
      WrittenStep(buf, len, blocksize, i);
      LinkKeepsEarlier(links, buf, len, blocksize, i, WrittenBlock(buf, len, blocksize, i + 1));
      next := Add(next, blocksize);
      links := links[block := next];
      LinkOneWritten(links, buf, len, blocksize, i);
      block := next;
    }
    LinkKeepsEarlier(links, buf, len, blocksize, total, 0);
    links := links[block := 0];
    HeaderKeepsLinks(links, buf, len, blocksize, regions);
    links := links[buf := regions];
  }

  lemma LinkOneWritten(links: map<nat, nat>, buf: u64, len: u64, blocksize: u64, i: nat)
    requires len >= HEADER_SIZE && WrittenBlock(buf, len, blocksize, i) in links
    requires links[WrittenBlock(buf, len, blocksize, i)] == WrittenBlock(buf, len, blocksize, i + 1)
    ensures LinkedOn(links, buf, len, blocksize, i)
  {
  }

  /** Only the block that is linked but not counted can coincide with the header, and it does exactly when the
      blocks fill the buffer without a rest. */
  lemma SurplusIsHeader(buf: u64, len: u64, blocksize: u64, i: nat)
    requires len >= blocksize + HEADER_SIZE && blocksize >= LINK_SIZE && i <= Capacity(len, blocksize)
    ensures WrittenBlock(buf, len, blocksize, i) == buf <==>
              i == Capacity(len, blocksize) && (len - HEADER_SIZE) % blocksize == 0
  {
    hide WrittenBlock, Capacity;
    WrittenStep(buf, len, blocksize, 0);
    WrittenBlockSum(buf, len, blocksize, i);
    BlocksInRoom(len, blocksize, i);
    OnlyAtRoom(buf, len - HEADER_SIZE, i * blocksize);
    FillsExactly(len, blocksize, i);
  }

  lemma FillsExactly(len: u64, blocksize: u64, i: nat)
    requires len >= blocksize + HEADER_SIZE && blocksize >= LINK_SIZE && i <= Capacity(len, blocksize)
    ensures i * blocksize == len - HEADER_SIZE <==>
              i == Capacity(len, blocksize) && (len - HEADER_SIZE) % blocksize == 0
  {
    var room, n := len - HEADER_SIZE, Capacity(len, blocksize);
    assert room == n * blocksize + room % blocksize;
    if i < n {
      BlocksInRoom(len, blocksize, i);
    }
  }

  lemma OnlyAtRoom(buf: u64, room: nat, x: nat)
    requires x <= room < WORD
    ensures (Sub(buf, room) + x) % WORD == buf <==> x == room
  {
  }

  lemma HeaderKeepsLinks(links: map<nat, nat>, buf: u64, len: u64, blocksize: u64, regions: nat)
    requires len >= blocksize + HEADER_SIZE && blocksize >= LINK_SIZE
    requires forall k :: 0 <= k < Capacity(len, blocksize) ==> LinkedOn(links, buf, len, blocksize, k)
    ensures var n := Capacity(len, blocksize);
            var links' := links[buf := regions];
            && (forall k :: 0 <= k < n ==> LinkedOn(links', buf, len, blocksize, k))
            && (WrittenBlock(buf, len, blocksize, n) == buf <==> (len - HEADER_SIZE) % blocksize == 0)
  {
    hide WrittenBlock, Capacity;
    var links' := links[buf := regions];
    SurplusIsHeader(buf, len, blocksize, Capacity(len, blocksize));
    forall k | 0 <= k < Capacity(len, blocksize)
      ensures LinkedOn(links', buf, len, blocksize, k)
    {
      assert LinkedOn(links, buf, len, blocksize, k);
      SurplusIsHeader(buf, len, blocksize, k);
    }
  }

  lemma WrittenStep(buf: u64, len: u64, blocksize: u64, i: nat)
    requires len >= HEADER_SIZE
    ensures WrittenBlock(buf, len, blocksize, 0) == Sub(buf, len - HEADER_SIZE)
    ensures WrittenBlock(buf, len, blocksize, i + 1) == Add(WrittenBlock(buf, len, blocksize, i), blocksize)
  {
  }

  /** Writing the link of a block leaves those of earlier blocks alone. */
  lemma LinkKeepsEarlier(links: map<nat, nat>, buf: u64, len: u64, blocksize: u64, i: nat, next: nat)
    requires len >= blocksize + HEADER_SIZE && blocksize >= LINK_SIZE && i <= Capacity(len, blocksize)
    requires forall k :: 0 <= k < i ==> LinkedOn(links, buf, len, blocksize, k)
    ensures var links' := links[WrittenBlock(buf, len, blocksize, i) := next];
            forall k :: 0 <= k < i ==> LinkedOn(links', buf, len, blocksize, k)
  {
    hide WrittenBlock, Capacity;
    var links' := links[WrittenBlock(buf, len, blocksize, i) := next];
    forall k | 0 <= k < i
      ensures LinkedOn(links', buf, len, blocksize, k)
    {
      assert LinkedOn(links, buf, len, blocksize, k);
      WrittenDistinct(buf, len, blocksize, k, i);
    }
  }

  lemma {:induction false} WrittenBlockSum(buf: u64, len: u64, blocksize: u64, i: nat)
    requires len >= HEADER_SIZE
    ensures 0 <= i * blocksize
    ensures WrittenBlock(buf, len, blocksize, i) == (WrittenBlock(buf, len, blocksize, 0) + i * blocksize) % WORD
  {
    if i > 0 {
      WrittenBlockSum(buf, len, blocksize, i - 1);
      MulDistributes(i, 1, blocksize);
      ModSum(WrittenBlock(buf, len, blocksize, 0) + (i - 1) * blocksize, blocksize);
    }
  }

  lemma ModSum(x: nat, y: nat)
    ensures (x % WORD + y) % WORD == (x + y) % WORD
  {
  }

  lemma BlocksInRoom(len: u64, blocksize: u64, i: nat)
    requires len >= blocksize + HEADER_SIZE && blocksize >= LINK_SIZE && i <= Capacity(len, blocksize)
    ensures 0 <= i * blocksize <= len - HEADER_SIZE
    ensures i < Capacity(len, blocksize) ==> i * blocksize + blocksize <= len - HEADER_SIZE
    ensures Capacity(len, blocksize) > 0
  {
    var n := Capacity(len, blocksize);
    Quotient(len - HEADER_SIZE, blocksize);
    MulMonotone(0, i, blocksize);
    MulMonotone(i, n, blocksize);
    MulDistributes(i, 1, blocksize);
    if i < n {
      MulMonotone(i + 1, n, blocksize);
    }
  }

  lemma WrittenDistinct(buf: u64, len: u64, blocksize: u64, i: nat, j: nat)
    requires len >= blocksize + HEADER_SIZE && blocksize >= LINK_SIZE && i < j <= Capacity(len, blocksize)
    ensures WrittenBlock(buf, len, blocksize, i) != WrittenBlock(buf, len, blocksize, j)
  {
    hide WrittenBlock, Capacity;
    WrittenBlockSum(buf, len, blocksize, i);
    WrittenBlockSum(buf, len, blocksize, j);
    BlocksInRoom(len, blocksize, i);
    BlocksInRoom(len, blocksize, j);
    MulDistributes(j, i, blocksize);
    MulMonotone(1, j - i, blocksize);
    NotCongruent(WrittenBlock(buf, len, blocksize, 0) + i * blocksize, (j - i) * blocksize);
  }

  lemma NotCongruent(x: nat, d: nat)
    requires 0 < d < WORD
    ensures x % WORD != (x + d) % WORD
  {
    var q, r := x / WORD, x % WORD;
    assert x == q * WORD + r;
    if r + d < WORD {
      DivModUnique(x + d, WORD, q, r + d);
    } else {
      DivModUnique(x + d, WORD, q + 1, r + d - WORD);
    }
  }

  /** For every buffer slab_grow accepts at an address no lower than the bytes behind its header, every block
      it counts ends before the buffer begins, and the test of slab_free that a block lies behind the start of
      its region fails for every block it links. Below that address the first block has wrapped around to lie
      above the buffer's start. */
  lemma GrowAsWrittenMisplaced(buf: u64, len: u64, blocksize: u64)
    requires len >= blocksize + HEADER_SIZE && blocksize >= LINK_SIZE
    ensures var n := Capacity(len, blocksize);
            && ((forall i: nat :: i < n ==> WrittenBlock(buf, len, blocksize, i) + blocksize <= buf)
                <==> len - HEADER_SIZE <= buf)
            && ((forall i: nat :: i <= n ==> !(buf < WrittenBlock(buf, len, blocksize, i)))
                <==> len - HEADER_SIZE <= buf)
  {
    hide WrittenBlock, Capacity;
    var n := Capacity(len, blocksize);
    BlocksInRoom(len, blocksize, 0);
    if len - HEADER_SIZE <= buf {
      forall i: nat | i <= n
        ensures WrittenBlock(buf, len, blocksize, i) <= buf
        ensures i < n ==> WrittenBlock(buf, len, blocksize, i) + blocksize <= buf
      {
        WrittenBelow(buf, len, blocksize, i);
      }
    } else {
      WrittenStep(buf, len, blocksize, 0);
      assert WrittenBlock(buf, len, blocksize, 0) > buf;
    }
  }

  lemma WrittenBelow(buf: u64, len: u64, blocksize: u64, i: nat)
    requires len >= blocksize + HEADER_SIZE && blocksize >= LINK_SIZE && len - HEADER_SIZE <= buf
    requires i <= Capacity(len, blocksize)
    ensures WrittenBlock(buf, len, blocksize, i) <= buf
    ensures i < Capacity(len, blocksize) ==> WrittenBlock(buf, len, blocksize, i) + blocksize <= buf
  {
    hide WrittenBlock, Capacity;
    WrittenStep(buf, len, blocksize, 0);
    WrittenBlockSum(buf, len, blocksize, i);
    BlocksInRoom(len, blocksize, i);
    NoWrap(buf, len - HEADER_SIZE, i * blocksize);
  }

  lemma NoWrap(buf: u64, room: nat, x: nat)
    requires x <= room <= buf
    ensures (Sub(buf, room) + x) % WORD == buf - room + x
  {
  }

  /** Block i lies behind the header and inside the buffer, as slab_grow means it to. */
  predicate WrittenInside(buf: u64, len: u64, blocksize: u64, i: nat)
    requires len >= HEADER_SIZE
  {
    var b := WrittenBlock(buf, len, blocksize, i);
    buf + HEADER_SIZE <= b && b + blocksize <= buf + len
  }

  /** A block that does not wrap around is at or below the buffer's start; one that does is high up. */
  lemma WrittenInsideMeans(buf: u64, len: u64, blocksize: u64, i: nat)
    requires len >= blocksize + HEADER_SIZE && blocksize >= LINK_SIZE && i < Capacity(len, blocksize)
    ensures 0 <= i * blocksize
    ensures WrittenInside(buf, len, blocksize, i) <==>
              && buf + i * blocksize < len - HEADER_SIZE
              && WORD + i * blocksize + blocksize <= len + (len - HEADER_SIZE)
              && len <= WORD + i * blocksize
  {
    hide WrittenBlock, Capacity;
    WrittenStep(buf, len, blocksize, 0);
    WrittenBlockSum(buf, len, blocksize, i);
    BlocksInRoom(len, blocksize, i);
    InsideArithmetic(buf, len, blocksize, i * blocksize);
  }

  lemma InsideArithmetic(buf: u64, len: u64, blocksize: u64, x: nat)
    requires len >= HEADER_SIZE && x + blocksize <= len - HEADER_SIZE && blocksize > 0
    ensures var b := (Sub(buf, len - HEADER_SIZE) + x) % WORD;
            buf + HEADER_SIZE <= b && b + blocksize <= buf + len <==>
              buf + x < len - HEADER_SIZE && WORD + x + blocksize <= len + (len - HEADER_SIZE) && len <= WORD + x
  {
    var room := len - HEADER_SIZE;
    if buf + x < room {
      assert (Sub(buf, room) + x) % WORD == WORD + buf + x - room;
    } else {
      assert (Sub(buf, room) + x) % WORD == buf + x - room;
    }
  }

  /** As written, the blocks slab_grow counts lie where they should, behind the header and inside the buffer,
      exactly when the buffer is nearly the whole address space: its length and what its last block leaves over
      reach 2^64. */
  lemma GrowAsWrittenInsideIff(buf: u64, len: u64, blocksize: u64)
    requires len >= blocksize + HEADER_SIZE && blocksize >= LINK_SIZE && buf + len <= WORD
    ensures (forall i: nat :: i < Capacity(len, blocksize) ==> WrittenInside(buf, len, blocksize, i))
       <==> len + (len - HEADER_SIZE) % blocksize >= WORD
  {
    hide WrittenInside, Capacity;
    var n, room := Capacity(len, blocksize), len - HEADER_SIZE;
    BlocksInRoom(len, blocksize, 0);
    LastCounted(len, blocksize);
    WrittenInsideMeans(buf, len, blocksize, n - 1);
    if len + room % blocksize >= WORD {
      forall i: nat | i < n
        ensures WrittenInside(buf, len, blocksize, i)
      {
        WrittenInsideMeans(buf, len, blocksize, i);
        EarlierBlocks(len, blocksize, i);
      }
    } else {
      WrittenInsideMeans(buf, len, blocksize, 0);
    }
  }

  lemma LastCounted(len: u64, blocksize: u64)
    requires len >= blocksize + HEADER_SIZE && blocksize >= LINK_SIZE
    ensures var n := Capacity(len, blocksize);
            n > 0 && (n - 1) * blocksize == len - HEADER_SIZE - (len - HEADER_SIZE) % blocksize - blocksize
  {
    var room, n := len - HEADER_SIZE, Capacity(len, blocksize);
    BlocksInRoom(len, blocksize, 0);
    assert room == n * blocksize + room % blocksize;
    MulDistributes(n, 1, blocksize);
  }

  lemma EarlierBlocks(len: u64, blocksize: u64, i: nat)
    requires len >= blocksize + HEADER_SIZE && blocksize >= LINK_SIZE && i < Capacity(len, blocksize)
    ensures i * blocksize <= (Capacity(len, blocksize) - 1) * blocksize
  {
    MulMonotone(i, Capacity(len, blocksize) - 1, blocksize);
  }

  /** For a buffer of at most half the address space, wherever it lies, no block slab_grow counts is inside. */
  lemma GrowAsWrittenOutside(buf: u64, len: u64, blocksize: u64, i: nat)
    requires len >= blocksize + HEADER_SIZE && blocksize >= LINK_SIZE && i < Capacity(len, blocksize)
    requires len <= WORD / 2
    ensures !WrittenInside(buf, len, blocksize, i)
  {
    hide WrittenInside, Capacity;
    WrittenInsideMeans(buf, len, blocksize, i);
  }
}
